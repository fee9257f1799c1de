/**
 * The walk over every hand (AllTileSet in countTiles.cpp): each 13-tile
 * hand of one suit in lexicographic order, followed by its waits, or by
 * "(none)" when it has none.
 */
module CountTilesAll {
  import opened Tiles
  import opened TileSets
  import opened Hands
  import opened CountTilesSearch
  import opened CountTilesRender
  import opened CountTilesFullSet
  import opened CountTilesEngine

  /** A hand written as its digits. */
  function HandString(h: seq<int>): (s: string)
    ensures |s| == |h|
  {
    seq(|h|, i requires 0 <= i < |h| => ConvertToChar(h[i]))
  }

  /** The waits of the hand c as SearchAll writes them, or "(none)". */
  function Answer(c: Counts): string {
    var s := Joined(ExtrasFrom(c, TileMin, map[]).lines);
    if s == [] then "(none)\n" else s
  }

  /** The block written for one hand: the hand, a colon, then its waits. */
  function Report(h: seq<int>): string {
    HandString(h) + ":\n" + Answer(HandCounts(h))
  }

  /** The blocks of a list of hands, in order, each hand's block written by `block`. */
  function Reports(block: seq<int> -> string, hs: seq<seq<int>>): string {
    if hs == [] then "" else block(hs[0]) + Reports(block, hs[1..])
  }

  /**
   * `block` writes the block of Report. The walk below is proved for any
   * such `block`; the quantifier is instantiated only where a Report term
   * is written out, at a full hand.
   */
  ghost predicate WritesReport(block: seq<int> -> string) {
    forall h {:trigger Report(h)} :: block(h) == Report(h)
  }

  lemma {:induction false} ReportsAppend(block: seq<int> -> string, a: seq<seq<int>>, b: seq<seq<int>>)
    ensures Reports(block, a + b) == Reports(block, a) + Reports(block, b)
  {
    if a == [] {
      assert a + b == b;
    } else {
      assert (a + b)[1..] == a[1..] + b;
      ReportsAppend(block, a[1..], b);
    }
  }

  lemma {:induction false} PrefixedAppend(p: seq<int>, a: seq<seq<int>>, b: seq<seq<int>>)
    ensures Prefixed(p, a + b) == Prefixed(p, a) + Prefixed(p, b)
  {
    if a == [] {
      assert a + b == b;
    } else {
      assert (a + b)[1..] == a[1..] + b;
      PrefixedAppend(p, a[1..], b);
    }
  }

  /** With nothing in front, the hands are unchanged. */
  lemma {:induction false} PrefixedEmpty(hs: seq<seq<int>>)
    ensures Prefixed([], hs) == hs
  {
    if hs != [] {
      assert [] + hs[0] == hs[0];
      PrefixedEmpty(hs[1..]);
    }
  }

  lemma {:induction false} PrefixedTwice(p: seq<int>, q: seq<int>, hs: seq<seq<int>>)
    ensures Prefixed(p, Prefixed(q, hs)) == Prefixed(p + q, hs)
  {
    if hs != [] {
      assert p + (q + hs[0]) == (p + q) + hs[0];
      PrefixedTwice(p, q, hs[1..]);
    }
  }

  /** The blocks of the hands going on from prefix with fewer than i copies of head. */
  function Lower(block: seq<int> -> string, prefix: seq<int>, head: int, remaining: nat, i: nat): string
    requires head <= TileMax && i <= remaining + 1 && i <= SizeOfOneTile + 1
  {
    if i == 0 then "" else Reports(block, Prefixed(prefix, Choices(head, remaining, i - 1)))
  }

  /** Those with fewer than i + 1 copies: the ones with exactly i, then the ones with fewer. */
  lemma LowerNext(block: seq<int> -> string, prefix: seq<int>, head: int, remaining: nat, i: nat)
    requires head <= TileMax && i <= remaining && i <= SizeOfOneTile
    ensures Lower(block, prefix, head, remaining, i + 1)
         == Reports(block, Prefixed(prefix + Repeat(head, i), Enumerate(head + 1, remaining - i)))
            + Lower(block, prefix, head, remaining, i)
  {
    var here := Prefixed(Repeat(head, i), Enumerate(head + 1, remaining - i));
    var lower: seq<seq<int>> := if i == 0 then [] else Choices(head, remaining, i - 1);
    assert Choices(head, remaining, i) == here + lower;
    PrefixedAppend(prefix, here, lower);
    PrefixedTwice(prefix, Repeat(head, i), Enumerate(head + 1, remaining - i));
    ReportsAppend(block, Prefixed(prefix, here), Prefixed(prefix, lower));
  }

  /** The three cases of the walk: a full hand, no tile value left, or the choices for head. */
  lemma EnumerateCases(block: seq<int> -> string, prefix: seq<int>, head: int, remaining: nat)
    ensures remaining == 0 ==> Reports(block, Prefixed(prefix, Enumerate(head, remaining))) == block(prefix)
    ensures remaining > 0 && head > TileMax ==> Reports(block, Prefixed(prefix, Enumerate(head, remaining))) == ""
    ensures remaining > 0 && head <= TileMax ==>
      Reports(block, Prefixed(prefix, Enumerate(head, remaining)))
      == Lower(block, prefix, head, remaining, Min(remaining, SizeOfOneTile) + 1)
  {
    if remaining == 0 {
      assert Prefixed(prefix, [[]]) == [prefix + []];
      assert prefix + [] == prefix;
    }
  }

  lemma HandStringAppend(p: seq<int>, t: int, i: nat)
    ensures HandString(p + Repeat(t, i)) == HandString(p) + seq(i, _ => ConvertToChar(t))
  {
  }

  lemma HandCountsAppend(p: seq<int>, t: int, i: nat)
    requires 0 <= t < 10 && multiset(p)[t] == 0
    ensures HandCounts(p + Repeat(t, i)) == HandCounts(p)[t := i]
  {
    forall v | 0 <= v < 10 ensures HandCounts(p + Repeat(t, i))[v] == HandCounts(p)[t := i][v] {
      RepeatCount(t, i, v);
    }
  }

  /** A tile value below head never counts in a hand of values at least head. */
  lemma AboveCountsZero(prefix: seq<int>, head: int)
    requires forall k :: 0 <= k < |prefix| ==> prefix[k] < head
    ensures multiset(prefix)[head] == 0
  {
    assert head !in prefix;
  }

  /** s followed by n copies of ch, one at a time. */
  method AppendCopies(s: string, ch: char, n: nat) returns (r: string)
    ensures r == s + seq(n, _ => ch)
  {
    r := s;
    var j := 0;
    while j < n
      invariant 0 <= j <= n
      invariant r == s + seq(j, _ => ch)
    {
      r := r + [ch];
      j := j + 1;
    }
  }

  /** The block of one hand, its tiles in table: a new hand is searched and "(none)" written for no wait. */
  method SearchHand(inputStr: string, table: array<nat>) returns (out: string)
    requires table.Length == 10
    ensures out == inputStr + ":\n" + Answer(table[..])
  {
    var s := new TileFullSet.FromCounts(table[..]);
    var str := s.SearchAll();
    if str == [] {
      str := "(none)\n";
    }
    out := inputStr + ":\n" + str;
  }

  /**
   * The blocks of every hand that starts with prefix and goes on with
   * `remaining` tiles from head up: the count of head from min(remaining, 4)
   * down to 0, the count table put back each time.
   */
  method EnumerateFrom(inputStr: string, head: int, remaining: nat, table: array<nat>,
                       ghost prefix: seq<int>, ghost block: seq<int> -> string)
    returns (out: string)
    requires table.Length == 10 && TileMin <= head && WritesReport(block)
    requires forall k :: 0 <= k < |prefix| ==> TileMin <= prefix[k] < head
    requires table[..] == HandCounts(prefix) && inputStr == HandString(prefix)
    modifies table
    ensures table[..] == old(table[..])
    ensures out == Reports(block, Prefixed(prefix, Enumerate(head, remaining)))
    decreases TileMax + 1 - head, 3
  {
    EnumerateCases(block, prefix, head, remaining);
    if remaining == 0 {
      out := SearchHand(inputStr, table);
      assert out == Report(prefix);
      return;
    }
    if head > TileMax {
      return "";
    }
    out := EnumerateChoices(inputStr, head, remaining, table, prefix, block);
  }

  /** The blocks of the hands going on from prefix: head from min(remaining, 4) copies down to none. */
  method EnumerateChoices(inputStr: string, head: int, remaining: nat, table: array<nat>,
                          ghost prefix: seq<int>, ghost block: seq<int> -> string)
    returns (out: string)
    requires table.Length == 10 && TileMin <= head <= TileMax && 0 < remaining && WritesReport(block)
    requires forall k :: 0 <= k < |prefix| ==> TileMin <= prefix[k] < head
    requires table[..] == HandCounts(prefix) && inputStr == HandString(prefix)
    modifies table
    ensures table[..] == old(table[..])
    ensures out == Lower(block, prefix, head, remaining, Min(remaining, SizeOfOneTile) + 1)
    decreases TileMax + 1 - head, 2
  {
    var n := Min(remaining, SizeOfOneTile);
    var i := n + 1;
    out := "";
    while i > 0
      invariant 0 <= i <= n + 1
      invariant table[..] == old(table[..])
      invariant Lower(block, prefix, head, remaining, n + 1) == out + Lower(block, prefix, head, remaining, i)
      decreases i
    {
      i := i - 1;
      out := ChoiceStep(inputStr, head, remaining, i, table, prefix, block, out);
    }
  }

  /** One turn of the loop over the count of head: the blocks with exactly i copies are appended. */
  method ChoiceStep(inputStr: string, head: int, remaining: nat, i: nat, table: array<nat>,
                    ghost prefix: seq<int>, ghost block: seq<int> -> string, out: string)
    returns (next: string)
    requires table.Length == 10 && TileMin <= head <= TileMax && i <= remaining && i <= SizeOfOneTile
    requires WritesReport(block)
    requires forall k :: 0 <= k < |prefix| ==> TileMin <= prefix[k] < head
    requires table[..] == HandCounts(prefix) && inputStr == HandString(prefix)
    modifies table
    ensures table[..] == old(table[..])
    ensures out + Lower(block, prefix, head, remaining, i + 1) == next + Lower(block, prefix, head, remaining, i)
    decreases TileMax + 1 - head, 1
  {
    var sub := EnumerateCopies(inputStr, head, remaining, i, table, prefix, block);
    LowerNext(block, prefix, head, remaining, i);
    Associative(out, sub, Lower(block, prefix, head, remaining, i));
    next := out + sub;
  }

  /** The blocks of the hands going on from prefix with exactly i copies of head. */
  method EnumerateCopies(inputStr: string, head: int, remaining: nat, i: nat, table: array<nat>,
                         ghost prefix: seq<int>, ghost block: seq<int> -> string)
    returns (sub: string)
    requires table.Length == 10 && TileMin <= head <= TileMax && i <= remaining && i <= SizeOfOneTile
    requires WritesReport(block)
    requires forall k :: 0 <= k < |prefix| ==> TileMin <= prefix[k] < head
    requires table[..] == HandCounts(prefix) && inputStr == HandString(prefix)
    modifies table
    ensures table[..] == old(table[..])
    ensures sub == Reports(block, Prefixed(prefix + Repeat(head, i), Enumerate(head + 1, remaining - i)))
    decreases TileMax + 1 - head, 0
  {
    ghost var before := table[..];
    ghost var longer := prefix + Repeat(head, i);
    AboveCountsZero(prefix, head);
    HandCountsAppend(prefix, head, i);
    HandStringAppend(prefix, head, i);
    PrefixBelow(prefix, head, i);
    SetCount(table, head, i);
    var newStr := AppendCopies(inputStr, ConvertToChar(head), i);
    sub := EnumerateFrom(newStr, head + 1, remaining - i, table, longer, block);
    SetCount(table, head, 0);
    assert before[head := i][head := 0] == before;
  }

  /** The count table with the count of one tile value set. */
  method SetCount(table: array<nat>, t: int, n: nat)
    requires 0 <= t < table.Length
    modifies table
    ensures table[..] == old(table[..])[t := n]
  {
    table[t] := n;
  }

  /** The prefix with copies of head appended stays below head + 1. */
  lemma PrefixBelow(prefix: seq<int>, head: int, i: nat)
    requires TileMin <= head && forall k :: 0 <= k < |prefix| ==> TileMin <= prefix[k] < head
    ensures forall k :: 0 <= k < |prefix + Repeat(head, i)| ==> TileMin <= (prefix + Repeat(head, i))[k] < head + 1
  {
  }

  /** The blocks of every hand of the suit, in lexicographic order. */
  method EnumerateAll() returns (out: string)
    ensures out == Reports(Report, Prefixed([], Enumerate(TileMin, HandSize)))
  {
    var table := new nat[10](_ => 0);
    assert table[..] == HandCounts([]);
    out := EnumerateFrom("", TileMin, HandSize, table, [], Report);
  }
}
