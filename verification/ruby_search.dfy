/**
 * The search of the Ruby solver (countTiles.rb): from the sorted tiles it
 * takes a pair (at most one per path), a triple or a run starting at the
 * first tile, and searches what is left; every path ends in a candidate,
 * the groups found written as "(..)" parts one after the other.
 */
module RubySearch {
  import opened Tiles
  import opened Text
  import opened Hands
  import opened CountTilesSearch

  /** Tiles as the script holds them: sorted, each from 1 to 9. */
  ghost predicate TileList(s: seq<int>) {
    Sorted(s) && forall i :: 0 <= i < |s| ==> IsTile(s[i])
  }

  /** The values base, base + 1, ..., base + n - 1. */
  function Range(base: int, n: nat): (r: seq<int>)
    ensures |r| == n && forall i :: 0 <= i < n ==> r[i] == base + i
  {
    seq(n, i requires 0 <= i < n => base + i)
  }

  /** formatPart: the tiles as digits between parentheses. */
  function FormatPart(tiles: seq<int>): (s: string)
    requires forall i :: 0 <= i < |tiles| ==> IsTile(tiles[i])
    ensures |s| == |tiles| + 2 && s[0] == '(' && s[|s| - 1] == ')'
    ensures forall i :: 0 <= i < |tiles| ==> IsTile(tiles[i]) && s[i + 1] == DigitChar(tiles[i])
  {
    var digits := seq(|tiles|, i requires 0 <= i < |tiles| => assert IsTile(tiles[i]); DigitChar(tiles[i]));
    assert forall i :: 0 <= i < |tiles| ==> ("(" + digits + ")")[i + 1] == digits[i];
    "(" + digits + ")"
  }

  /** The part a group is written as. */
  function Part(g: Group): string
    requires ValidGroup(g)
  {
    FormatPart(TilesOf(g))
  }

  ghost predicate ValidList(l: seq<Group>) {
    forall j :: 0 <= j < |l| ==> ValidGroup(l[j])
  }

  /** A candidate: the parts of its groups, in the order they were found. */
  function Render(l: seq<Group>): string
    requires ValidList(l)
  {
    if l == [] then "" else Part(l[0]) + Render(l[1..])
  }

  function Renders(ls: seq<seq<Group>>): (r: seq<string>)
    requires forall i :: 0 <= i < |ls| ==> ValidList(ls[i])
    ensures |r| == |ls|
  {
    seq(|ls|, i requires 0 <= i < |ls| => Render(ls[i]))
  }

  // ---------------------------------------------------------------------
  // Finding a group at the first tile

  /** The first index of v in s. */
  function Index(s: seq<int>, v: int): (r: Option<nat>)
    ensures r.Some? <==> v in s
    ensures r.Some? ==> r.value < |s| && s[r.value] == v && forall j :: 0 <= j < r.value ==> s[j] != v
  {
    if s == [] then None
    else if s[0] == v then Some(0)
    else match Index(s[1..], v)
      case None => None
      case Some(k) => Some(k + 1)
  }

  /** The indexes of base, ..., base + n - 1 that are found, in that order (map, then compact). */
  function Positions(tiles: seq<int>, base: int, n: nat): (r: seq<nat>)
    ensures |r| <= n
    ensures |r| == n <==> forall v :: base <= v < base + n ==> v in tiles
    ensures |r| == n ==> forall i :: 0 <= i < n ==> Index(tiles, base + i) == Some(r[i])
    ensures |r| == n ==> forall i :: 0 <= i < n ==> r[i] < |tiles| && tiles[r[i]] == base + i
  {
    if n == 0 then []
    else
      var front := Positions(tiles, base, n - 1);
      match Index(tiles, base + n - 1)
      case None =>
        assert base + n - 1 !in tiles;
        front
      case Some(p) => front + [p]
  }

  /** In sorted tiles a smaller value sits before a larger one. */
  lemma SortedOrder(s: seq<int>, p: nat, q: nat)
    requires Sorted(s) && p < |s| && q < |s| && s[p] < s[q]
    ensures p < q
  {
  }

  /** Taking out A and then B takes out A + B. */
  lemma SubtractTwice(x: multiset<int>, a: multiset<int>, b: multiset<int>)
    ensures x - a - b == x - (a + b)
  {
    forall v ensures (x - a - b)[v] == (x - (a + b))[v] {
    }
  }

  /** A value occurs in a sequence no more often than its length. */
  lemma {:induction false} CountAtMost(s: seq<int>, v: int)
    ensures multiset(s)[v] <= |s|
  {
    if s != [] {
      CountAtMost(s[1..], v);
      assert s == [s[0]] + s[1..];
    }
  }

  /** The first tiles are all equal to the first one exactly when it is held size times. */
  lemma FlushCount(tiles: seq<int>, size: nat)
    requires TileList(tiles) && |tiles| >= size > 0
    ensures (forall i :: 0 <= i < size ==> tiles[i] == tiles[0]) <==> multiset(tiles)[tiles[0]] >= size
  {
    var v := tiles[0];
    assert tiles == tiles[..size] + tiles[size..];
    if forall i :: 0 <= i < size ==> tiles[i] == v {
      assert tiles[..size] == Repeat(v, size);
      RepeatCount(v, size, v);
    } else {
      var i :| 0 <= i < size && tiles[i] != v;
      assert tiles == tiles[..i] + tiles[i..];
      assert v !in tiles[i..] by {
        forall j | i <= j < |tiles| ensures tiles[j] != v {
          assert tiles[0] <= tiles[i] <= tiles[j];
        }
      }
      CountAtMost(tiles[..i], v);
    }
  }

  /** r is s with the element at k deleted, stated index by index. */
  ghost predicate DeletedAt(s: seq<int>, k: nat, r: seq<int>) {
    && k < |s| && |r| == |s| - 1
    && (forall i :: 0 <= i < k ==> r[i] == s[i])
    && (forall i :: k <= i < |r| ==> r[i] == s[i + 1])
  }

  lemma DeleteShift(s: seq<int>, k: nat)
    requires k < |s|
    ensures DeletedAt(s, k, s[..k] + s[k + 1..])
  {
  }

  /**
   * Deleting the tile v at k of sorted tiles leaves them sorted, with one
   * copy of v fewer.
   */
  lemma DeleteAt(s: seq<int>, k: nat, v: int, r: seq<int>)
    requires TileList(s) && DeletedAt(s, k, r) && s[k] == v
    ensures TileList(r)
    ensures multiset(r) == multiset(s) - multiset{v}
  {
    forall i, j | 0 <= i < j < |r| ensures r[i] <= r[j] {
      var i' := if i < k then i else i + 1;
      var j' := if j < k then j else j + 1;
      assert r[i] == s[i'] && r[j] == s[j'];
    }
    forall i | 0 <= i < |r| ensures IsTile(r[i]) {
      assert r[i] == s[if i < k then i else i + 1];
    }
    DeleteCount(s, k, r);
  }

  lemma DeleteCount(s: seq<int>, k: nat, r: seq<int>)
    requires DeletedAt(s, k, r)
    ensures multiset(r) == multiset(s) - multiset{s[k]}
  {
    assert r == s[..k] + s[k + 1..];
    assert s == s[..k] + [s[k]] + s[k + 1..];
  }

  /**
   * searchFlush: when the first size tiles are equal, the part of size
   * copies of the first tile and the tiles after them; otherwise nothing,
   * and the tiles unchanged.
   */
  method SearchFlush(tiles: seq<int>, size: nat) returns (solution: Option<string>, remainingTiles: seq<int>)
    requires TileList(tiles) && size > 0
    ensures solution.Some? <==> tiles != [] && multiset(tiles)[tiles[0]] >= size
    ensures solution.Some? ==> solution.value == FormatPart(Repeat(tiles[0], size)) && |remainingTiles| == |tiles| - size
    ensures solution.Some? ==> TileList(remainingTiles) && multiset(remainingTiles) == multiset(tiles) - multiset(Repeat(tiles[0], size))
    ensures solution.None? ==> remainingTiles == tiles
  {
    solution := None;
    remainingTiles := tiles;
    if |tiles| >= size && forall i :: 1 <= i < size ==> tiles[0] == tiles[i] {
      FlushCount(tiles, size);
      solution := Some(FormatPart(Repeat(tiles[0], size)));
      remainingTiles := remainingTiles[size..];
      FlushRest(tiles, size);
    } else if tiles != [] {
      CountAtMost(tiles, tiles[0]);
      if |tiles| >= size {
        FlushCount(tiles, size);
      }
    }
  }

  lemma FlushRest(tiles: seq<int>, size: nat)
    requires TileList(tiles) && |tiles| >= size > 0
    requires forall i :: 0 <= i < size ==> tiles[i] == tiles[0]
    ensures TileList(tiles[size..])
    ensures multiset(tiles[size..]) == multiset(tiles) - multiset(Repeat(tiles[0], size))
  {
    assert tiles == tiles[..size] + tiles[size..];
    assert tiles[..size] == Repeat(tiles[0], size);
  }

  /**
   * searchTileSequence: when base = tiles[0] and base + 1, ...,
   * base + size - 1 are all among the tiles, the part of that run and the
   * tiles with the first copy of each taken out; otherwise nothing, and the
   * tiles unchanged. The first copies are found in increasing order, so
   * deleting them one by one at position - index deletes the right ones.
   */
  method SearchTileSequence(tiles: seq<int>, size: nat) returns (solution: Option<string>, remainingTiles: seq<int>)
    requires TileList(tiles) && size > 0
    ensures solution.Some? <==> |tiles| >= size && forall v :: tiles[0] <= v < tiles[0] + size ==> v in tiles
    ensures solution.Some? ==> |tiles| >= size && forall i :: 0 <= i < size ==> IsTile(Range(tiles[0], size)[i])
    ensures solution.Some? ==> solution.value == FormatPart(Range(tiles[0], size))
    ensures solution.Some? ==> TileList(remainingTiles) && multiset(remainingTiles) == multiset(tiles) - multiset(Range(tiles[0], size))
    ensures solution.Some? ==> |remainingTiles| == |tiles| - size
    ensures solution.None? ==> remainingTiles == tiles
  {
    solution := None;
    remainingTiles := tiles;
    if |tiles| >= size {
      var base := tiles[0];
      var positions := Positions(tiles, base, size);
      if |positions| == size {
        RangeTiles(tiles, base, size);
        solution := Some(FormatPart(Range(base, size)));
        remainingTiles := DeletePositions(tiles, base, positions);
        RangeBagOf(base, size);
      }
    }
  }

  /**
   * positions.each_with_index { delete_at(position - index) }: each
   * position found is one place further forward by the time it is reached.
   */
  method DeletePositions(tiles: seq<int>, base: int, positions: seq<nat>) returns (remainingTiles: seq<int>)
    requires TileList(tiles)
    requires forall i :: 0 <= i < |positions| ==> positions[i] < |tiles| && tiles[positions[i]] == base + i
    ensures TileList(remainingTiles)
    ensures multiset(remainingTiles) == multiset(tiles) - RangeBag(base, |positions|)
    ensures |remainingTiles| == |tiles| - |positions|
  {
    remainingTiles := tiles;
    ghost var cut: nat := 0;
    var index := 0;
    while index < |positions|
      invariant Deleted(tiles, base, positions, remainingTiles, index, cut)
    {
      remainingTiles := DeleteNext(tiles, base, positions, remainingTiles, index, cut);
      cut := positions[index] + 1;
      index := index + 1;
    }
  }

  /**
   * The loop of searchTileSequence after index deletions: the tiles from
   * cut on are untouched, the next position is not before cut, and one copy
   * of each of base, ..., base + index - 1 is gone.
   */
  ghost predicate Deleted(tiles: seq<int>, base: int, positions: seq<nat>, remaining: seq<int>, index: nat, cut: nat) {
    && index <= |positions| && index <= cut <= |tiles|
    && |remaining| == |tiles| - index
    && (forall j :: cut <= j < |tiles| ==> remaining[j - index] == tiles[j])
    && (index < |positions| ==> cut <= positions[index])
    && TileList(remaining)
    && multiset(remaining) == multiset(tiles) - RangeBag(base, index)
  }

  /** One copy each of base, ..., base + n - 1. */
  ghost function RangeBag(base: int, n: nat): multiset<int> {
    if n == 0 then multiset{} else RangeBag(base, n - 1) + multiset{base + n - 1}
  }

  lemma {:induction false} RangeBagOf(base: int, n: nat)
    ensures RangeBag(base, n) == multiset(Range(base, n))
  {
    if n > 0 {
      RangeBagOf(base, n - 1);
      assert Range(base, n) == Range(base, n - 1) + [base + n - 1];
    }
  }

  /** delete_at(position - index): one deletion of the loop, which keeps Deleted. */
  method DeleteNext(tiles: seq<int>, base: int, positions: seq<nat>, remaining: seq<int>, index: nat, ghost cut: nat) returns (r: seq<int>)
    requires Sorted(tiles) && index < |positions|
    requires positions[index] < |tiles| && tiles[positions[index]] == base + index
    requires index + 1 < |positions| ==> positions[index + 1] < |tiles| && tiles[positions[index + 1]] == base + index + 1
    requires Deleted(tiles, base, positions, remaining, index, cut)
    ensures Deleted(tiles, base, positions, r, index + 1, positions[index] + 1)
  {
    var position := positions[index];
    var k := position - index;
    r := remaining[..k] + remaining[k + 1..];
    DeleteShift(remaining, k);
    assert remaining[k] == base + index;
    DeleteAt(remaining, k, base + index, r);
    DeletedCount(tiles, base, remaining, index, r);
    DeletedSuffix(tiles, remaining, index, cut, position, r);
    if index + 1 < |positions| {
      SortedOrder(tiles, position, positions[index + 1]);
    }
  }

  lemma DeletedSuffix(tiles: seq<int>, remaining: seq<int>, index: nat, cut: nat, position: nat, r: seq<int>)
    requires index <= cut <= position < |tiles| && |remaining| == |tiles| - index
    requires forall j :: cut <= j < |tiles| ==> remaining[j - index] == tiles[j]
    requires position >= index && DeletedAt(remaining, position - index, r)
    ensures forall j :: position + 1 <= j < |tiles| ==> r[j - (index + 1)] == tiles[j]
  {
    forall j | position + 1 <= j < |tiles| ensures r[j - (index + 1)] == tiles[j] {
      assert r[j - (index + 1)] == remaining[j - index];
    }
  }

  lemma DeletedCount(tiles: seq<int>, base: int, remaining: seq<int>, index: nat, r: seq<int>)
    requires multiset(remaining) == multiset(tiles) - RangeBag(base, index)
    requires multiset(r) == multiset(remaining) - multiset{base + index}
    ensures multiset(r) == multiset(tiles) - RangeBag(base, index + 1)
  {
    SubtractTwice(multiset(tiles), RangeBag(base, index), multiset{base + index});
  }

  /** A run whose values are all among the tiles consists of tiles. */
  lemma RangeTiles(tiles: seq<int>, base: int, size: nat)
    requires TileList(tiles) && forall v :: base <= v < base + size ==> v in tiles
    ensures forall i :: 0 <= i < size ==> IsTile(Range(base, size)[i])
  {
    forall i | 0 <= i < size ensures IsTile(Range(base, size)[i]) {
      var v := Range(base, size)[i];
      assert v in tiles;
      var k :| 0 <= k < |tiles| && tiles[k] == v;
    }
  }

  // ---------------------------------------------------------------------
  // What search returns

  /** The part searchPart looks for: the suffix of the name of the searchX method it calls. */
  datatype PartType = PairType | TripleType | SequenceOfThreeType

  /** The group of that type at the least held tile, when the table holds one. */
  function PartOf(c: Counts, partType: PartType): (r: Option<Group>)
    ensures r.Some? ==> ValidGroup(r.value) && Holds(c, r.value)
    ensures r.Some? ==> FirstHeld(c, TileMin) == Some(r.value.tile)
    ensures r.Some? ==> (partType == PairType <==> r.value.Pair?)
  {
    match FirstHeld(c, TileMin)
    case None => None
    case Some(low) =>
      match partType
      case PairType => if c[low] >= 2 then Some(Pair(low)) else None
      case TripleType => if c[low] >= 3 then Some(Triple(low)) else None
      case SequenceOfThreeType => if RunAt(c, low) then Some(Run(low)) else None
  }

  /**
   * The candidates search(argTiles, foundPair) returns, as group lists: for
   * a pair (unless one was found already), then a triple, then a run at the
   * least tile, that group in front of each candidate for what is left, or
   * alone when nothing more is found there.
   */
  function Candidates(c: Counts, foundPair: bool): (r: seq<seq<Group>>)
    ensures forall i :: 0 <= i < |r| ==> ValidList(r[i])
    decreases Total(c), 1
  {
    Branch(c, PairType, !foundPair, true)
    + Branch(c, TripleType, true, foundPair)
    + Branch(c, SequenceOfThreeType, true, foundPair)
  }

  /** One call of searchPart. */
  function Branch(c: Counts, partType: PartType, conditionToThis: bool, subFoundPair: bool): (r: seq<seq<Group>>)
    ensures forall i :: 0 <= i < |r| ==> ValidList(r[i])
    decreases Total(c), 0
  {
    if !conditionToThis then []
    else match PartOf(c, partType)
      case None => []
      case Some(g) =>
        TakeFacts(c, g);
        var sub := Candidates(Take(c, g), subFoundPair);
        if sub == [] then [[g]]
        else
          ConsAllValid(g, sub);
          ConsAll(g, sub)
  }

  lemma ConsAllValid(g: Group, ls: seq<seq<Group>>)
    requires ValidGroup(g) && forall i :: 0 <= i < |ls| ==> ValidList(ls[i])
    ensures forall i :: 0 <= i < |ls| ==> ValidList(ConsAll(g, ls)[i])
  {
    forall i | 0 <= i < |ls| ensures ValidList(ConsAll(g, ls)[i]) {
      ConsAllAt(g, ls, i);
      assert forall j :: 1 <= j < |ls[i]| + 1 ==> ([g] + ls[i])[j] == ls[i][j - 1];
    }
  }

  // ---------------------------------------------------------------------
  // The tile lists and their count tables

  /** The tiles of a list of tiles are what its count table stands for. */
  lemma HandBag(t: seq<int>)
    requires forall i :: 0 <= i < |t| ==> IsTile(t[i])
    ensures Bag(HandCounts(t)) == multiset(t)
  {
    var c := HandCounts(t);
    forall x ensures Bag(c)[x] == multiset(t)[x] {
      BagCount(c, x);
      if x in t {
        var i :| 0 <= i < |t| && t[i] == x;
      }
    }
  }

  /** Count tables standing for the same tiles are equal. */
  lemma CountsEqual(c: Counts, d: Counts)
    requires Bag(c) == Bag(d)
    ensures c == d
  {
    forall x | 0 <= x < 10 ensures c[x] == d[x] {
      BagCount(c, x);
      BagCount(d, x);
    }
  }

  /** The tiles left by a searchX method count as the table with the group taken out. */
  lemma RemainingCounts(t: seq<int>, rem: seq<int>, g: Group)
    requires TileList(t) && TileList(rem) && ValidGroup(g) && Holds(HandCounts(t), g)
    requires multiset(rem) == multiset(t) - multiset(TilesOf(g))
    ensures HandCounts(rem) == Take(HandCounts(t), g)
  {
    HandBag(t);
    HandBag(rem);
    TakeFacts(HandCounts(t), g);
    CountsEqual(HandCounts(rem), Take(HandCounts(t), g));
  }

  /** tiles[0] is the least held tile of a sorted list. */
  lemma FirstOfList(t: seq<int>)
    requires TileList(t)
    ensures FirstHeld(HandCounts(t), TileMin) == if t == [] then None else Some(t[0])
  {
    var c := HandCounts(t);
    if t == [] {
      assert forall u :: TileMin <= u <= TileMax ==> c[u] == 0;
    } else {
      assert c[t[0]] > 0;
    }
  }

  /** The first tiles of a sorted list form a run exactly when its table holds the run at tiles[0]. */
  lemma RunLink(t: seq<int>)
    requires TileList(t) && t != []
    ensures (|t| >= 3 && forall v :: t[0] <= v < t[0] + 3 ==> v in t) <==> RunAt(HandCounts(t), t[0])
  {
    var c := HandCounts(t);
    var b := t[0];
    if RunAt(c, b) {
      assert b + 1 in multiset(t) && b + 2 in multiset(t);
      var p :| 0 <= p < |t| && t[p] == b + 1;
      var q :| 0 <= q < |t| && t[q] == b + 2;
      SortedOrder(t, 0, p);
      SortedOrder(t, p, q);
      forall v | b <= v < b + 3 ensures v in t {
        assert v == t[0] || v == t[p] || v == t[q];
      }
    }
    if |t| >= 3 && forall v :: b <= v < b + 3 ==> v in t {
      assert b + 2 in t;
      var q :| 0 <= q < |t| && t[q] == b + 2;
      assert IsTile(t[q]);
      assert b + 1 in t;
      assert c[b] > 0 && c[b + 1] > 0 && c[b + 2] > 0;
    }
  }

  /**
   * What a searchX method promises: a part exactly when the table holds
   * the group of that type at the least tile, and then that group's part
   * and the sorted tiles without it; otherwise the tiles unchanged.
   */
  ghost predicate Found(tiles: seq<int>, partType: PartType, solution: Option<string>, remaining: seq<int>) {
    var part := PartOf(HandCounts(tiles), partType);
    && (solution.Some? <==> part.Some?)
    && (solution.Some? ==>
          && solution.value == Part(part.value)
          && TileList(remaining) && |remaining| < |tiles|
          && HandCounts(remaining) == Take(HandCounts(tiles), part.value))
    && (solution.None? ==> remaining == tiles)
  }

  /** searchPair and searchTriple through searchFlush. */
  method SearchSame(tiles: seq<int>, partType: PartType) returns (solution: Option<string>, remainingTiles: seq<int>)
    requires TileList(tiles) && partType != SequenceOfThreeType
    ensures Found(tiles, partType, solution, remainingTiles)
  {
    var size := if partType == PairType then 2 else 3;
    solution, remainingTiles := SearchFlush(tiles, size);
    FirstOfList(tiles);
    if solution.Some? {
      var g := PartOf(HandCounts(tiles), partType).value;
      assert Repeat(tiles[0], size) == TilesOf(g);
      RemainingCounts(tiles, remainingTiles, g);
    }
  }

  /** searchSequenceOfThree through searchTileSequence. */
  method SearchSequenceOfThree(tiles: seq<int>) returns (solution: Option<string>, remainingTiles: seq<int>)
    requires TileList(tiles)
    ensures Found(tiles, SequenceOfThreeType, solution, remainingTiles)
  {
    solution, remainingTiles := SearchTileSequence(tiles, 3);
    FirstOfList(tiles);
    if tiles != [] {
      RunLink(tiles);
    }
    if solution.Some? {
      var g := Run(tiles[0]);
      assert Range(tiles[0], 3) == TilesOf(g);
      RemainingCounts(tiles, remainingTiles, g);
    }
  }

  // ---------------------------------------------------------------------
  // search and searchPart

  lemma RenderCons(g: Group, l: seq<Group>)
    requires ValidGroup(g) && ValidList(l)
    ensures ValidList([g] + l) && Render([g] + l) == Part(g) + Render(l)
  {
    assert ([g] + l)[1..] == l;
    assert forall j :: 1 <= j < |l| + 1 ==> ([g] + l)[j] == l[j - 1];
  }

  /** The candidates with g in front render as g's part in front of theirs. */
  lemma RendersConsAll(g: Group, ls: seq<seq<Group>>, ss: seq<string>)
    requires ValidGroup(g) && forall i :: 0 <= i < |ls| ==> ValidList(ls[i])
    requires ss == Renders(ls)
    ensures forall i :: 0 <= i < |ls| ==> ValidList(ConsAll(g, ls)[i])
    ensures Renders(ConsAll(g, ls)) == seq(|ss|, i requires 0 <= i < |ss| => Part(g) + ss[i])
  {
    ConsAllValid(g, ls);
    forall i | 0 <= i < |ls| ensures Renders(ConsAll(g, ls))[i] == Part(g) + ss[i] {
      ConsAllAt(g, ls, i);
      RenderCons(g, ls[i]);
    }
  }

  /** A group found with nothing after it renders as its part alone. */
  lemma RendersAlone(g: Group)
    requires ValidGroup(g)
    ensures ValidList([g]) && Renders([[g]]) == [Part(g)]
  {
    RenderCons(g, []);
    assert [g] + [] == [g];
    assert Part(g) + Render([]) == Part(g);
    assert Renders([[g]])[0] == Render([g]);
  }

  lemma RendersAppend(a: seq<seq<Group>>, b: seq<seq<Group>>, d: seq<seq<Group>>)
    requires forall i :: 0 <= i < |a| ==> ValidList(a[i])
    requires forall i :: 0 <= i < |b| ==> ValidList(b[i])
    requires forall i :: 0 <= i < |d| ==> ValidList(d[i])
    ensures forall i :: 0 <= i < |a + b + d| ==> ValidList((a + b + d)[i])
    ensures Renders(a + b + d) == [] + Renders(a) + Renders(b) + Renders(d)
  {
  }

  /** The candidates render as the renderings of the three branches, one after the other. */
  lemma CandidatesRender(c: Counts, foundPair: bool, pairs: seq<string>, triples: seq<string>, runs: seq<string>)
    requires pairs == Renders(Branch(c, PairType, !foundPair, true))
    requires triples == Renders(Branch(c, TripleType, true, foundPair))
    requires runs == Renders(Branch(c, SequenceOfThreeType, true, foundPair))
    ensures [] + pairs + triples + runs == Renders(Candidates(c, foundPair))
  {
    var a := Branch(c, PairType, !foundPair, true);
    var b := Branch(c, TripleType, true, foundPair);
    var d := Branch(c, SequenceOfThreeType, true, foundPair);
    RendersAppend(a, b, d);
  }

  /**
   * searchPart: when asked to, look for the part; when found, search what
   * is left and put the part in front of every candidate found there, or
   * return the part alone when there is none.
   */
  method SearchPart(argTiles: seq<int>, partType: PartType, conditionToThis: bool, subFoundPair: bool) returns (newSolutions: seq<string>)
    requires TileList(argTiles)
    ensures newSolutions == Renders(Branch(HandCounts(argTiles), partType, conditionToThis, subFoundPair))
    decreases |argTiles|, 0
  {
    newSolutions := [];
    if conditionToThis {
      var solution, remainingTiles;
      match partType {
        case PairType =>
          solution, remainingTiles := SearchSame(argTiles, PairType);
        case TripleType =>
          solution, remainingTiles := SearchSame(argTiles, TripleType);
        case SequenceOfThreeType =>
          solution, remainingTiles := SearchSequenceOfThree(argTiles);
      }
      if solution.Some? {
        var subSolutions := Search(remainingTiles, subFoundPair);
        ghost var g := PartOf(HandCounts(argTiles), partType).value;
        ghost var sub := Candidates(HandCounts(remainingTiles), subFoundPair);
        if |subSolutions| == 0 {
          newSolutions := [solution.value];
          RendersAlone(g);
        } else {
          newSolutions := seq(|subSolutions|, i requires 0 <= i < |subSolutions| => solution.value + subSolutions[i]);
          RendersConsAll(g, sub, subSolutions);
        }
      }
    }
  }

  /**
   * search: the candidates for a pair (unless foundPair), then for a
   * triple, then for a run, one after the other.
   */
  method Search(argTiles: seq<int>, foundPair: bool) returns (solutions: seq<string>)
    requires TileList(argTiles)
    ensures solutions == Renders(Candidates(HandCounts(argTiles), foundPair))
    decreases |argTiles|, 1
  {
    solutions := [];
    var pairs := SearchPart(argTiles, PairType, !foundPair, true);
    solutions := solutions + pairs;
    var triples := SearchPart(argTiles, TripleType, true, foundPair);
    solutions := solutions + triples;
    var runs := SearchPart(argTiles, SequenceOfThreeType, true, foundPair);
    solutions := solutions + runs;
    CandidatesRender(HandCounts(argTiles), foundPair, pairs, triples, runs);
  }
}
