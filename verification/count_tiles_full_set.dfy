/**
 * One hand of thirteen tiles (TileFullSet in countTiles.cpp): every winning
 * tile and every pair is tried in turn, and the lines of every complete
 * split are collected, each composite key written once per hand.
 */
module CountTilesFullSet {
  import opened Tiles
  import opened TileSets
  import opened CountTilesSearch
  import opened CountTilesRender
  import opened CountTilesEngine

  lemma MinTileRange(c: Counts)
    ensures TileMin <= MinTile(c, TileMin) <= TileMax
  {
    assert FirstHeld(c, TileMin).Some? ==> FirstHeld(c, TileMin).value <= TileMax;
  }

  /**
   * The lines of every pair from p on, c holding the thirteen tiles and the
   * winning tile extra: a pair is tried when c holds two of it, and its
   * search starts from the least tile c holds.
   */
  function PairsFrom(c: Counts, extra: int, p: int, table: map<nat, string>): Rendered
    requires IsTile(extra) && TileMin <= p
    decreases TileMax + 1 - p
  {
    if p > TileMax then Rendered([], table)
    else if c[p] < 2 then PairsFrom(c, extra, p + 1, table)
    else
      var r := PairOutcome(c, extra, p, table);
      var rest := PairsFrom(c, extra, p + 1, r.table);
      Rendered(r.lines + rest.lines, rest.table)
  }

  /** The lines of every split of c with the pair of p, the search starting from the least tile held. */
  function PairOutcome(c: Counts, extra: int, p: int, table: map<nat, string>): Rendered
    requires IsTile(extra) && IsTile(p) && c[p] >= 2
  {
    MinTileRange(c);
    assert ValidGroups([Pair(p)]);
    Outcome([Pair(p)], Take(c, Pair(p)), MinTile(c, TileMin), MaxNumberOfThreeTiles, extra, table)
  }

  /** One pair tile further: the lines split into those of p and those after it. */
  lemma PairsNext(c: Counts, extra: int, p: int, table: map<nat, string>)
    requires IsTile(extra) && IsTile(p)
    ensures var all := PairsFrom(c, extra, p, table);
      && (c[p] < 2 ==> all == PairsFrom(c, extra, p + 1, table))
      && (c[p] >= 2 ==>
            var r := PairOutcome(c, extra, p, table);
            var rest := PairsFrom(c, extra, p + 1, r.table);
            Joined(all.lines) == Joined(r.lines) + Joined(rest.lines) && all.table == rest.table)
  {
    if c[p] >= 2 {
      var r := PairOutcome(c, extra, p, table);
      JoinedAppend(r.lines, PairsFrom(c, extra, p + 1, r.table).lines);
    }
  }

  /** The lines of every winning tile from e on the hand c does not already hold four of. */
  function ExtrasFrom(c: Counts, e: int, table: map<nat, string>): Rendered
    requires TileMin <= e
    decreases TileMax + 1 - e
  {
    if e > TileMax then Rendered([], table)
    else if c[e] >= SizeOfOneTile then ExtrasFrom(c, e + 1, table)
    else
      var r := ExtraOutcome(c, e, table);
      var rest := ExtrasFrom(c, e + 1, r.table);
      Rendered(r.lines + rest.lines, rest.table)
  }

  /** The lines of every pair of c with one more copy of e, e being the winning tile. */
  function ExtraOutcome(c: Counts, e: int, table: map<nat, string>): Rendered
    requires IsTile(e)
  {
    PairsFrom(c[e := c[e] + 1], e, TileMin, table)
  }

  /** One winning tile further: the lines split into those of e and those after it. */
  lemma ExtrasNext(c: Counts, e: int, table: map<nat, string>)
    requires IsTile(e)
    ensures var all := ExtrasFrom(c, e, table);
      && (c[e] >= SizeOfOneTile ==> all == ExtrasFrom(c, e + 1, table))
      && (c[e] < SizeOfOneTile ==>
            var r := ExtraOutcome(c, e, table);
            var rest := ExtrasFrom(c, e + 1, r.table);
            Joined(all.lines) == Joined(r.lines) + Joined(rest.lines) && all.table == rest.table)
  {
    if c[e] < SizeOfOneTile {
      var r := ExtraOutcome(c, e, table);
      JoinedAppend(r.lines, ExtrasFrom(c, e + 1, r.table).lines);
    }
  }

  // ---------------------------------------------------------------------
  // Reading a hand from a line

  /** A decimal digit, as std::isdigit tests it. */
  predicate IsDigit(ch: char) {
    '0' <= ch <= '9'
  }

  /** The leading digits of s. */
  function Digits(s: string): (r: string)
    ensures |r| <= |s| && r == s[..|r|]
    ensures forall i :: 0 <= i < |r| ==> IsDigit(r[i])
    ensures |r| < |s| ==> !IsDigit(s[|r|])
  {
    if s == [] || !IsDigit(s[0]) then [] else [s[0]] + Digits(s[1..])
  }

  /** The first run of digits in s: what the line constructor reads as the hand. */
  function HandDigits(s: string): string {
    if s == [] then []
    else if !IsDigit(s[0]) then HandDigits(s[1..])
    else Digits(s)
  }

  /** The count of each tile value among the digits of s, '0' counted as value 0. */
  function DigitCounts(s: string): Counts {
    if s == [] then Zero()
    else
      var c := DigitCounts(s[..|s| - 1]);
      var ch := s[|s| - 1];
      if IsDigit(ch) then c[ConvertToTileType(ch) := c[ConvertToTileType(ch)] + 1] else c
  }

  /**
   * The counts the line constructor computes as written: `found` is never
   * set, so the loop never stops at the end of the hand and every digit of
   * the line is counted.
   */
  function LineCountsAsWritten(line: string): Counts {
    DigitCounts(line)
  }

  /** Counting is additive: every digit of either part counts. */
  lemma {:induction false} DigitCountsAppend(a: string, b: string, t: int)
    requires 0 <= t < 10
    ensures DigitCounts(a + b)[t] == DigitCounts(a)[t] + DigitCounts(b)[t]
    decreases |b|
  {
    if b == [] {
      assert a + b == a;
    } else {
      var b' := b[..|b| - 1];
      assert (a + b)[..|a + b| - 1] == a + b';
      DigitCountsAppend(a, b', t);
    }
  }

  /** As written, digits after the hand still count (the tail of the line is not ignored). */
  lemma AsWrittenCountsTail(hand: string, tail: string, t: int)
    requires 0 <= t < 10
    ensures LineCountsAsWritten(hand + " " + tail)[t] == DigitCounts(hand)[t] + DigitCounts(tail)[t]
  {
    DigitCountsAppend(hand + " ", tail, t);
    DigitCountsAppend(hand, " ", t);
    assert DigitCounts(" ") == Zero() by {
      assert " "[..0] == [];
    }
  }

  /** A hand followed by a separator and anything at all reads as the hand alone. */
  lemma {:induction false} HandDigitsIgnoreTail(junk: string, hand: string, sep: char, tail: string)
    requires forall i :: 0 <= i < |junk| ==> !IsDigit(junk[i])
    requires hand != [] && forall i :: 0 <= i < |hand| ==> IsDigit(hand[i])
    requires !IsDigit(sep)
    ensures HandDigits(junk + hand + [sep] + tail) == hand
    decreases |junk|
  {
    var s := junk + hand + [sep] + tail;
    if junk == [] {
      assert s == hand + ([sep] + tail);
      DigitsOf(hand, [sep] + tail);
    } else {
      assert s[1..] == junk[1..] + hand + [sep] + tail;
      HandDigitsIgnoreTail(junk[1..], hand, sep, tail);
    }
  }

  lemma {:induction false} DigitsOf(hand: string, rest: string)
    requires forall i :: 0 <= i < |hand| ==> IsDigit(hand[i])
    requires rest != [] && !IsDigit(rest[0])
    ensures Digits(hand + rest) == hand
    decreases |hand|
  {
    if hand != [] {
      assert (hand + rest)[1..] == hand[1..] + rest;
      DigitsOf(hand[1..], rest);
    } else {
      assert hand + rest == rest;
    }
  }

  /** The line of a self-test hand followed by one more digit, where the two readings part. */
  lemma LineCountsDiffer(line: string)
    requires line == "1112345678999 1"
    ensures LineCountsAsWritten(line)[1] == 4
    ensures DigitCounts(HandDigits(line))[1] == 3
  {
    var hand := "1112345678999";
    var one := "1";
    assert line == hand + " " + one;
    AsWrittenCountsTail(hand, one, 1);
    assert line == [] + hand + [' '] + one;
    HandDigitsIgnoreTail([], hand, ' ', one);
    assert DigitCounts(one)[1] == 1 by {
      assert one[..0] == [];
    }
    HandCountOfOne(hand);
  }

  lemma HandCountOfOne(hand: string)
    requires hand == "1112345678999"
    ensures DigitCounts(hand)[1] == 3
  {
    assert hand == "111" + "2345678999";
    DigitCountsAppend("111", "2345678999", 1);
    DigitCountsAppend("11", "1", 1);
    DigitCountsAppend("1", "1", 1);
    NoOnes("2345678999");
    assert DigitCounts("1")[1] == 1 by {
      assert "1"[..0] == [];
    }
  }

  lemma {:induction false} NoOnes(s: string)
    requires forall i :: 0 <= i < |s| ==> s[i] != '1'
    ensures DigitCounts(s)[1] == 0
    decreases |s|
  {
    if s != [] {
      NoOnes(s[..|s| - 1]);
    }
  }

  /** Counts the digits of the first run of digits in a line, one character at a time. */
  method ReadHand(line: string) returns (counts: Counts)
    ensures counts == DigitCounts(HandDigits(line))
  {
    counts := Zero();
    var found := false;
    ghost var run := "";
    var i := 0;
    while i < |line|
      invariant 0 <= i <= |line|
      invariant !found ==> run == "" && counts == Zero() && HandDigits(line) == HandDigits(line[i..])
      invariant found ==> HandDigits(line) == run + Digits(line[i..]) && counts == DigitCounts(run)
    {
      var ch := line[i];
      if !IsDigit(ch) {
        if found {
          NoMoreDigits(line, i);
          assert run + [] == run;
          break;
        }
        SkipOne(line, i);
        i := i + 1;
        continue;
      }
      var tile := ConvertToTileType(ch);
      if !found {
        StartRun(line, i);
      }
      MoreDigits(line, i);
      assert run + Digits(line[i..]) == (run + [ch]) + Digits(line[i + 1..]);
      DigitCountsSnoc(run, ch);
      run := run + [ch];
      counts := counts[tile := counts[tile] + 1];
      found := true;
      i := i + 1;
    }
    if i == |line| && found {
      assert line[i..] == [] && run + [] == run;
    }
  }

  lemma SkipOne(line: string, i: int)
    requires 0 <= i < |line| && !IsDigit(line[i])
    ensures HandDigits(line[i..]) == HandDigits(line[i + 1..])
  {
    assert line[i..][1..] == line[i + 1..];
  }

  lemma StartRun(line: string, i: int)
    requires 0 <= i < |line| && IsDigit(line[i])
    ensures HandDigits(line[i..]) == [] + Digits(line[i..])
  {
  }

  lemma MoreDigits(line: string, i: int)
    requires 0 <= i < |line| && IsDigit(line[i])
    ensures Digits(line[i..]) == [line[i]] + Digits(line[i + 1..])
  {
    assert line[i..][1..] == line[i + 1..];
  }

  lemma NoMoreDigits(line: string, i: int)
    requires 0 <= i < |line| && !IsDigit(line[i])
    ensures Digits(line[i..]) == []
  {
    assert line[i..][0] == line[i];
  }

  lemma DigitCountsSnoc(s: string, ch: char)
    requires IsDigit(ch)
    ensures var c := DigitCounts(s); var t := ConvertToTileType(ch);
      DigitCounts(s + [ch]) == c[t := c[t] + 1]
  {
    assert (s + [ch])[..|s|] == s;
  }

  class TileFullSet {
    const table: KeyTileSetTable
    const initial: Counts
    /** The lines already written for this hand, by composite key. */
    const local: StrTable

    /** A hand read from the first run of digits in a line. */
    constructor FromLine(line: string)
      ensures initial == DigitCounts(HandDigits(line)) && fresh(table) && fresh(local)
      ensures table.current == Zero() && local.entries == map[]
    {
      var counts := ReadHand(line);
      initial := counts;
      table := new KeyTileSetTable();
      local := new StrTable();
    }

    /** A hand given as a count table. */
    constructor FromCounts(initialTable: Counts)
      ensures initial == initialTable && fresh(table) && fresh(local)
      ensures table.current == Zero() && local.entries == map[]
    {
      initial := initialTable;
      table := new KeyTileSetTable();
      local := new StrTable();
    }

    /**
     * Every completing tile and every pair of the hand in turn: a tile the
     * hand already holds four of is skipped, and every tile held at least
     * twice once the completing tile is added is tried as the pair. The
     * count table is filled from the hand first and emptied at the end.
     */
    method SearchAll() returns (str: string)
      requires table.current == Zero()
      modifies table, local
      ensures var r := ExtrasFrom(initial, TileMin, old(local.entries));
        str == Joined(r.lines) && local.entries == r.table
      ensures table.current == Zero()
    {
      Fill();
      str := "";
      ghost var whole := ExtrasFrom(initial, TileMin, local.entries);
      var extraTile := TileMin;
      while extraTile <= TileMax
        invariant TileMin <= extraTile <= TileMax + 1
        invariant table.current == initial
        invariant var rest := ExtrasFrom(initial, extraTile, local.entries);
          Joined(whole.lines) == str + Joined(rest.lines) && whole.table == rest.table
      {
        var n := table.GetRemainingSize(extraTile);
        ExtrasNext(initial, extraTile, local.entries);
        if n < SizeOfOneTile {
          ghost var rest := ExtrasFrom(initial, extraTile + 1, ExtraOutcome(initial, extraTile, local.entries).table);
          var more := TryExtra(extraTile);
          Associative(str, more, Joined(rest.lines));
          str := str + more;
        }
        extraTile := extraTile + 1;
      }
      table.Reset();
    }

    /** Puts the tiles of the hand into the empty count table. */
    method Fill()
      requires table.current == Zero()
      modifies table
      ensures table.current == initial
    {
      var t := 0;
      while t < |initial|
        invariant 0 <= t <= |initial|
        invariant forall u :: 0 <= u < |initial| ==> table.current[u] == if u < t then initial[u] else 0
      {
        table.AddTiles(t, initial[t]);
        t := t + 1;
      }
    }

    /** The search with extraTile added to the hand, the tile taken out again after. */
    method TryExtra(extraTile: int) returns (more: string)
      requires IsTile(extraTile) && table.current == initial && initial[extraTile] < SizeOfOneTile
      modifies table, local
      ensures table.current == initial
      ensures var r := ExtraOutcome(initial, extraTile, old(local.entries));
        more == Joined(r.lines) && local.entries == r.table
    {
      table.PushTiles(extraTile, 1);
      more := SearchPairs(extraTile, initial[extraTile := initial[extraTile] + 1]);
      table.PopTiles(extraTile, 1);
    }

    /** Every pair tile for one completing tile, c holding the fourteen tiles. */
    method SearchPairs(extraTile: int, ghost c: Counts) returns (str: string)
      requires IsTile(extraTile) && table.current == c
      modifies table, local
      ensures table.current == c
      ensures var r := PairsFrom(c, extraTile, TileMin, old(local.entries));
        str == Joined(r.lines) && local.entries == r.table
    {
      str := "";
      ghost var whole := PairsFrom(c, extraTile, TileMin, local.entries);
      var pairTile := TileMin;
      while pairTile <= TileMax
        invariant TileMin <= pairTile <= TileMax + 1
        invariant table.current == c
        invariant var rest := PairsFrom(c, extraTile, pairTile, local.entries);
          Joined(whole.lines) == str + Joined(rest.lines) && whole.table == rest.table
      {
        var n := table.GetRemainingSize(pairTile);
        PairsNext(c, extraTile, pairTile, local.entries);
        if n >= 2 {
          ghost var rest := PairsFrom(c, extraTile, pairTile + 1, PairOutcome(c, extraTile, pairTile, local.entries).table);
          var more := TryPair(extraTile, pairTile, c);
          Associative(str, more, Joined(rest.lines));
          str := str + more;
        }
        pairTile := pairTile + 1;
      }
    }

    /** The search with the pair of pairTile, the pair given back after. */
    method TryPair(extraTile: int, pairTile: int, ghost c: Counts) returns (more: string)
      requires IsTile(extraTile) && IsTile(pairTile) && table.current == c && c[pairTile] >= 2
      modifies table, local
      ensures table.current == c
      ensures var r := PairOutcome(c, extraTile, pairTile, old(local.entries));
        more == Joined(r.lines) && local.entries == r.table
    {
      MinTileRange(c);
      var tiles := new TilesWithPair(extraTile, pairTile, table, local);
      more := Search(tiles, [Pair(pairTile)], Take(c, Pair(pairTile)), MinTile(c, TileMin),
                     MaxNumberOfThreeTiles, local.entries);
      tiles.Release();
      TakeInjective(table.current, c, Pair(pairTile));
    }

    /**
     * The lines of every completion of the stack in tiles from its top slot
     * on: the stack itself once it is complete, else whatever each move
     * leads to, the move undone after. The ghost parameters name the stack,
     * the remaining counts, the smallest tile, the groups still to find and
     * the table on entry.
     */
    method Search(tiles: TilesWithPair, ghost gs: seq<Group>, ghost c: Counts, ghost m: int, ghost k: nat,
                  ghost e: map<nat, string>)
      returns (str: string)
      requires tiles.Valid() && tiles.local == local && tiles.slots[tiles.depth].status == NotSearched
      requires gs == tiles.groups && c == tiles.table.current && m == tiles.slots[tiles.depth].minTile
      requires k == MaxNumberOfThreeTiles - tiles.depth && e == local.entries
      modifies tiles, tiles.slots, tiles.table, local
      ensures tiles.Valid() && tiles.depth == old(tiles.depth) && tiles.table.current == c
      ensures tiles.groups == gs && tiles.counts == old(tiles.counts) && tiles.mins == old(tiles.mins)
      ensures forall d :: 0 <= d < tiles.depth ==> tiles.slots[d] == old(tiles.slots[d])
      ensures tiles.slots[tiles.depth].group == old(tiles.slots[tiles.depth].group)
      ensures tiles.slots[tiles.depth].minTile == m
      ensures ValidGroups(gs) && TileMin <= m
      ensures var r := Outcome(gs, c, m, k, tiles.extra, e);
        str == Joined(r.lines) && local.entries == r.table
      decreases k, 4
    {
      tiles.TopFacts();
      if tiles.IsComplete() {
        str := tiles.ToString();
        OutcomeComplete(gs, c, m, tiles.extra, e);
      } else {
        str := SearchMoves(tiles, gs, c, m, k, e);
      }
    }

    /** The loop of Search over the moves at an incomplete stack's top slot. */
    method SearchMoves(tiles: TilesWithPair, ghost gs: seq<Group>, ghost c: Counts, ghost m: int, ghost k: nat,
                       ghost e: map<nat, string>)
      returns (str: string)
      requires tiles.Valid() && tiles.local == local && tiles.slots[tiles.depth].status == NotSearched
      requires gs == tiles.groups && c == tiles.table.current && m == tiles.slots[tiles.depth].minTile
      requires k == MaxNumberOfThreeTiles - tiles.depth > 0 && e == local.entries
      requires ValidGroups(gs) && TileMin <= m
      modifies tiles, tiles.slots, tiles.table, local
      ensures tiles.Valid() && tiles.depth == old(tiles.depth) && tiles.table.current == c
      ensures tiles.groups == gs && tiles.counts == old(tiles.counts) && tiles.mins == old(tiles.mins)
      ensures forall d :: 0 <= d < tiles.depth ==> tiles.slots[d] == old(tiles.slots[d])
      ensures tiles.slots[tiles.depth].group == old(tiles.slots[tiles.depth].group)
      ensures tiles.slots[tiles.depth].minTile == m
      ensures var r := Outcome(gs, c, m, k, tiles.extra, e);
        str == Joined(r.lines) && local.entries == r.table
      decreases k, 3
    {
      ghost var d0 := tiles.depth;
      ghost var top := tiles.slots[d0];
      ghost var cs := tiles.counts;
      ghost var ms := tiles.mins;
      PartialStart(gs, c, m, k, tiles.extra, e);
      str := "";
      var done := false;
      while !done
        invariant tiles.Valid() && tiles.depth == d0 && tiles.table.current == c
        invariant tiles.groups == gs && tiles.counts == cs && tiles.mins == ms
        invariant forall d :: 0 <= d < d0 ==> tiles.slots[d] == old(tiles.slots[d])
        invariant tiles.slots[d0].group == top.group && tiles.slots[d0].minTile == m
        invariant var r := Partial(gs, c, m, k, tiles.slots[d0].status, tiles.extra, e);
          str == Joined(r.lines) && local.entries == r.table
        invariant done ==> Partial(gs, c, m, k, tiles.slots[d0].status, tiles.extra, e) == Outcome(gs, c, m, k, tiles.extra, e)
        decreases !done, Rank(tiles.slots[d0].status)
      {
        done, str := Turn(tiles, str, gs, c, m, k, tiles.slots[d0].status, e);
      }
    }

    /**
     * One turn of Search's loop, as progress through the moves at the top
     * slot: the completions explored so far grow by those after the move.
     * s is the top slot's status on entry and e0 the table before the loop.
     */
    method Turn(tiles: TilesWithPair, str: string, ghost gs: seq<Group>, ghost c: Counts, ghost m: int, ghost k: nat,
                ghost s: Status, ghost e0: map<nat, string>)
      returns (done: bool, str': string)
      requires tiles.Valid() && tiles.local == local
      requires gs == tiles.groups && c == tiles.table.current
      requires m == tiles.slots[tiles.depth].minTile && s == tiles.slots[tiles.depth].status
      requires k == MaxNumberOfThreeTiles - tiles.depth > 0
      requires ValidGroups(gs) && TileMin <= m
      requires var r := Partial(gs, c, m, k, s, tiles.extra, e0);
        str == Joined(r.lines) && local.entries == r.table
      modifies tiles, tiles.slots, tiles.table, local
      ensures tiles.Valid() && tiles.depth == old(tiles.depth) && tiles.table.current == c
      ensures tiles.groups == gs && tiles.counts == old(tiles.counts) && tiles.mins == old(tiles.mins)
      ensures forall d :: 0 <= d < tiles.depth ==> tiles.slots[d] == old(tiles.slots[d])
      ensures tiles.slots[tiles.depth].group == old(tiles.slots[tiles.depth].group)
      ensures tiles.slots[tiles.depth].minTile == m
      ensures tiles.slots[tiles.depth].status == NextMove(c, m, s).status && done == NextMove(c, m, s).pushed.None?
      ensures var r := Partial(gs, c, m, k, NextMove(c, m, s).status, tiles.extra, e0);
        && str' == Joined(r.lines) && local.entries == r.table
        && (done ==> r == Outcome(gs, c, m, k, tiles.extra, e0))
      decreases k, 2
    {
      ghost var before := Partial(gs, c, m, k, s, tiles.extra, e0);
      var found, more := Advance(tiles, gs, c, m, k, s, before.table);
      done := !found;
      str' := str;
      if !found {
        PartialEnd(gs, c, m, k, s, tiles.extra, e0);
      } else {
        PartialStep(gs, c, m, k, s, tiles.extra, e0);
        ghost var g := NextMove(c, m, s).pushed.value;
        ghost var after := Outcome(gs + [g], Take(c, g), g.tile, k - 1, tiles.extra, before.table);
        JoinedAppend(before.lines, after.lines);
        str' := str + more;
      }
    }

    /** A move, the search it leads to, and the move undone. */
    method Advance(tiles: TilesWithPair, ghost gs: seq<Group>, ghost c: Counts, ghost m: int, ghost k: nat,
                   ghost s: Status, ghost e: map<nat, string>)
      returns (found: bool, more: string)
      requires tiles.Valid() && tiles.local == local
      requires gs == tiles.groups && c == tiles.table.current && e == local.entries
      requires m == tiles.slots[tiles.depth].minTile && s == tiles.slots[tiles.depth].status
      requires k == MaxNumberOfThreeTiles - tiles.depth > 0
      modifies tiles, tiles.slots, tiles.table, local
      ensures tiles.Valid() && tiles.depth == old(tiles.depth) && tiles.table.current == c
      ensures tiles.groups == gs && tiles.counts == old(tiles.counts) && tiles.mins == old(tiles.mins)
      ensures forall d :: 0 <= d < tiles.depth ==> tiles.slots[d] == old(tiles.slots[d])
      ensures var mv := NextMove(c, m, s);
        && tiles.slots[tiles.depth] == old(tiles.slots[tiles.depth]).(status := mv.status)
        && found == mv.pushed.Some?
        && (!found ==> more == "" && local.entries == e)
        && (found ==>
              var g := mv.pushed.value;
              && ValidGroups(gs + [g]) && TileMin <= g.tile && Holds(c, g)
              && var r := Outcome(gs + [g], Take(c, g), g.tile, k - 1, tiles.extra, e);
                 more == Joined(r.lines) && local.entries == r.table)
      decreases k, 1
    {
      found := tiles.SearchNext();
      more := "";
      if found {
        more := Descend(tiles, gs, c, k, NextMove(c, m, s).pushed.value, e);
      }
    }

    /** The search after a move that pushed g, and the move undone. */
    method Descend(tiles: TilesWithPair, ghost gs: seq<Group>, ghost c: Counts, ghost k: nat, ghost g: Group,
                   ghost e: map<nat, string>)
      returns (more: string)
      requires tiles.Valid() && tiles.local == local && tiles.depth >= 1 && ValidGroup(g) && Holds(c, g)
      requires tiles.groups == gs + [g] && tiles.table.current == Take(c, g) && e == local.entries
      requires tiles.slots[tiles.depth] == TileSetElement(g, NotSearched, g.tile)
      requires k == MaxNumberOfThreeTiles - tiles.depth + 1
      modifies tiles, tiles.slots, tiles.table, local
      ensures tiles.Valid() && tiles.depth == old(tiles.depth) - 1
      ensures tiles.groups == gs && tiles.counts == old(tiles.counts)[..tiles.depth + 1]
      ensures tiles.mins == old(tiles.mins)[..tiles.depth + 1]
      ensures forall d :: 0 <= d <= tiles.depth ==> tiles.slots[d] == old(tiles.slots[d])
      ensures ValidGroups(gs + [g]) && TileMin <= g.tile
      ensures var r := Outcome(gs + [g], Take(c, g), g.tile, k - 1, tiles.extra, e);
        more == Joined(r.lines) && local.entries == r.table
      decreases k, 0
    {
      tiles.TopFacts();
      more := Search(tiles, gs + [g], Take(c, g), g.tile, k - 1, e);
      tiles.Revert();
    }
  }
}
