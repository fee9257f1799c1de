/**
 * The vocabulary shared by the three engines: tile values of one suit,
 * per-value count tables, and the groups (pair, triple, run) a winning
 * hand is split into.
 */
module Tiles {

  datatype Option<T> = None | Some(value: T)

  /** The least and the greatest tile value of the suit. */
  const TileMin: int := 1
  const TileMax: int := 9
  /** Copies of one tile value. */
  const SizeOfOneTile: nat := 4
  /** Tiles in a complete (winning) hand. */
  const SizeOfCompleteTiles: nat := 14

  predicate IsTile(t: int) {
    TileMin <= t <= TileMax
  }

  /**
   * A count table: slot t says how many tiles of value t there are.
   * Slot 0 exists because a table may be filled from the digit '0'.
   */
  type Counts = c: seq<nat> | |c| == 10 witness [0, 0, 0, 0, 0, 0, 0, 0, 0, 0]

  /** Number of tiles in a count table. */
  function Total(c: seq<nat>): nat {
    if c == [] then 0 else Total(c[..|c| - 1]) + c[|c| - 1]
  }

  /** The multiset of tile values a count table stands for. */
  ghost function Bag(c: seq<nat>): multiset<int> {
    if c == [] then multiset{} else Bag(c[..|c| - 1])[|c| - 1 := c[|c| - 1]]
  }

  lemma {:induction false} BagCount(c: seq<nat>, x: int)
    ensures Bag(c)[x] == if 0 <= x < |c| then c[x] else 0
  {
    if c != [] {
      var p := c[..|c| - 1];
      BagCount(p, x);
      assert Bag(c) == Bag(p)[|c| - 1 := c[|c| - 1]];
    }
  }

  lemma {:induction false} TotalUpdate(c: seq<nat>, i: int, v: nat)
    requires 0 <= i < |c|
    ensures Total(c[i := v]) == Total(c) - c[i] + v
  {
    var n := |c| - 1;
    if i < n {
      TotalUpdate(c[..n], i, v);
      assert c[i := v][..n] == c[..n][i := v];
    } else {
      assert c[i := v][..n] == c[..n];
    }
  }

  lemma {:induction false} TotalZero(c: seq<nat>)
    requires Total(c) == 0
    ensures forall x :: 0 <= x < |c| ==> c[x] == 0
    ensures Bag(c) == multiset{}
  {
    if c != [] {
      TotalZero(c[..|c| - 1]);
      forall x | 0 <= x < |c| ensures c[x] == 0 {
        if x < |c| - 1 {
          assert c[x] == c[..|c| - 1][x];
        }
      }
    }
  }

  /** A group of a winning hand: two equal tiles, three equal tiles, or three consecutive tiles. */
  datatype Group = Pair(tile: int) | Triple(tile: int) | Run(tile: int)

  predicate ValidGroup(g: Group) {
    match g
    case Pair(t) => IsTile(t)
    case Triple(t) => IsTile(t)
    case Run(t) => TileMin <= t <= TileMax - 2
  }

  /** The tiles of a group, in ascending order. */
  function TilesOf(g: Group): seq<int> {
    match g
    case Pair(t) => [t, t]
    case Triple(t) => [t, t, t]
    case Run(t) => [t, t + 1, t + 2]
  }

  predicate IsMember(g: Group, t: int) {
    t in TilesOf(g)
  }

  /** All tiles of a list of groups, as a multiset. */
  ghost function GroupsBag(gs: seq<Group>): multiset<int> {
    if gs == [] then multiset{} else multiset(TilesOf(gs[0])) + GroupsBag(gs[1..])
  }

  lemma {:induction false} GroupsBagAppend(a: seq<Group>, b: seq<Group>)
    ensures GroupsBag(a + b) == GroupsBag(a) + GroupsBag(b)
  {
    if a != [] {
      assert (a + b)[0] == a[0];
      assert (a + b)[1..] == a[1..] + b;
      GroupsBagAppend(a[1..], b);
      var m := multiset(TilesOf(a[0]));
      calc {
        GroupsBag(a + b);
        m + GroupsBag(a[1..] + b);
        m + (GroupsBag(a[1..]) + GroupsBag(b));
        (m + GroupsBag(a[1..])) + GroupsBag(b);
      }
    } else {
      assert a + b == b;
    }
  }

  lemma GroupsBagCons(g: Group, gs: seq<Group>)
    ensures GroupsBag([g] + gs) == multiset(TilesOf(g)) + GroupsBag(gs)
  {
    assert ([g] + gs)[1..] == gs;
  }

  lemma SplitTail<T>(s: seq<T>, i: int)
    requires 0 < i < |s|
    ensures s[..i] + s[i + 1..] == [s[0]] + (s[1..][..i - 1] + s[1..][i..])
    ensures s[1..][i - 1] == s[i]
  {
  }

  /** Taking one group out of a list takes its tiles out of the list's multiset. */
  lemma {:induction false} GroupsBagRemoveAt(gs: seq<Group>, i: int)
    requires 0 <= i < |gs|
    ensures GroupsBag(gs) == multiset(TilesOf(gs[i])) + GroupsBag(gs[..i] + gs[i + 1..])
  {
    if i == 0 {
      assert gs[..i] + gs[i + 1..] == gs[1..];
    } else {
      var tl := gs[1..];
      SplitTail(gs, i);
      GroupsBagRemoveAt(tl, i - 1);
      GroupsBagCons(gs[0], tl[..i - 1] + tl[i..]);
    }
  }

  /** Every tile of a group of the list is in the list's multiset. */
  lemma InGroupsBag(gs: seq<Group>, i: int, x: int)
    requires 0 <= i < |gs| && x in TilesOf(gs[i])
    ensures GroupsBag(gs)[x] > 0
  {
    GroupsBagRemoveAt(gs, i);
    assert multiset(TilesOf(gs[i]))[x] > 0;
  }

  /** The tiles of a group of the list are part of the list's multiset. */
  lemma GroupInBag(gs: seq<Group>, i: int)
    requires 0 <= i < |gs|
    ensures multiset(TilesOf(gs[i])) <= GroupsBag(gs)
  {
    GroupsBagRemoveAt(gs, i);
  }

  /** Some group of the list holds a tile of every value the list's tiles contain. */
  lemma {:induction false} GroupsBagMember(gs: seq<Group>, x: int)
    requires x in GroupsBag(gs)
    ensures exists i :: 0 <= i < |gs| && x in TilesOf(gs[i])
  {
    if x !in TilesOf(gs[0]) {
      GroupsBagMember(gs[1..], x);
      var i :| 0 <= i < |gs[1..]| && x in TilesOf(gs[1..][i]);
      assert x in TilesOf(gs[i + 1]);
    }
  }

  /** The count table holds every tile of the group. */
  predicate Holds(c: Counts, g: Group)
    requires ValidGroup(g)
  {
    match g
    case Pair(t) => c[t] >= 2
    case Triple(t) => c[t] >= 3
    case Run(t) => c[t] >= 1 && c[t + 1] >= 1 && c[t + 2] >= 1
  }

  /** A table whose multiset contains the tiles of a group holds that group. */
  lemma HoldsFromBag(c: Counts, g: Group)
    requires ValidGroup(g) && multiset(TilesOf(g)) <= Bag(c)
    ensures Holds(c, g)
  {
    var t := g.tile;
    TilesOfCount(g, t);
    BagCount(c, t);
    assert multiset(TilesOf(g))[t] <= Bag(c)[t];
    if g.Run? {
      TilesOfCount(g, t + 1);
      TilesOfCount(g, t + 2);
      BagCount(c, t + 1);
      BagCount(c, t + 2);
      assert multiset(TilesOf(g))[t + 1] <= Bag(c)[t + 1];
      assert multiset(TilesOf(g))[t + 2] <= Bag(c)[t + 2];
    }
  }

  /** The count table with the tiles of one group taken out. */
  function Take(c: Counts, g: Group): Counts
    requires ValidGroup(g) && Holds(c, g)
  {
    var t := g.tile;
    if g.Pair? then c[t := c[t] - 2]
    else if g.Triple? then c[t := c[t] - 3]
    else c[t := c[t] - 1][t + 1 := c[t + 1] - 1][t + 2 := c[t + 2] - 1]
  }

  /** Taking a group out takes exactly its tiles out of the table. */
  lemma TakeFacts(c: Counts, g: Group)
    requires ValidGroup(g) && Holds(c, g)
    ensures Bag(Take(c, g)) == Bag(c) - multiset(TilesOf(g))
    ensures multiset(TilesOf(g)) <= Bag(c)
    ensures Total(Take(c, g)) + |TilesOf(g)| == Total(c)
  {
    TakeBag(c, g);
    TakeTotal(c, g);
  }

  lemma TakeBag(c: Counts, g: Group)
    requires ValidGroup(g) && Holds(c, g)
    ensures Bag(Take(c, g)) == Bag(c) - multiset(TilesOf(g))
    ensures multiset(TilesOf(g)) <= Bag(c)
  {
    var r := Take(c, g);
    var m := multiset(TilesOf(g));
    forall x ensures Bag(r)[x] == (Bag(c) - m)[x] && m[x] <= Bag(c)[x] {
      TakeCount(c, g, x);
    }
  }

  lemma TakeCount(c: Counts, g: Group, x: int)
    requires ValidGroup(g) && Holds(c, g)
    ensures multiset(TilesOf(g))[x] <= Bag(c)[x]
    ensures Bag(Take(c, g))[x] == Bag(c)[x] - multiset(TilesOf(g))[x]
  {
    BagCount(Take(c, g), x);
    BagCount(c, x);
    TilesOfCount(g, x);
  }

  lemma TakeTotal(c: Counts, g: Group)
    requires ValidGroup(g) && Holds(c, g)
    ensures Total(Take(c, g)) + |TilesOf(g)| == Total(c)
  {
    match g
    case Pair(t) =>
      TotalUpdate(c, t, c[t] - 2);
    case Triple(t) =>
      TotalUpdate(c, t, c[t] - 3);
    case Run(t) =>
      TakeRunTotal(c, t);
  }

  lemma TakeRunTotal(c: Counts, t: int)
    requires TileMin <= t <= TileMax - 2 && c[t] >= 1 && c[t + 1] >= 1 && c[t + 2] >= 1
    ensures Total(c[t := c[t] - 1][t + 1 := c[t + 1] - 1][t + 2 := c[t + 2] - 1]) + 3 == Total(c)
  {
    var c1 := c[t := c[t] - 1];
    var c2 := c1[t + 1 := c[t + 1] - 1];
    TotalUpdate(c, t, c[t] - 1);
    TotalUpdate(c1, t + 1, c[t + 1] - 1);
    TotalUpdate(c2, t + 2, c[t + 2] - 1);
  }

  lemma TilesOfCount(g: Group, x: int)
    ensures multiset(TilesOf(g))[x] ==
      if g.Pair? then (if x == g.tile then 2 else 0)
      else if g.Triple? then (if x == g.tile then 3 else 0)
      else if g.tile <= x <= g.tile + 2 then 1 else 0
  {
    match g
    case Pair(t) => PairCount(t, x);
    case Triple(t) => TripleCount(t, x);
    case Run(t) => RunCount(t, x);
  }

  lemma PairCount(t: int, x: int)
    ensures multiset(TilesOf(Pair(t)))[x] == if x == t then 2 else 0
  {
    assert TilesOf(Pair(t)) == [t] + [t];
  }

  lemma TripleCount(t: int, x: int)
    ensures multiset(TilesOf(Triple(t)))[x] == if x == t then 3 else 0
  {
    assert TilesOf(Triple(t)) == [t] + [t] + [t];
  }

  lemma RunCount(t: int, x: int)
    ensures multiset(TilesOf(Run(t)))[x] == if t <= x <= t + 2 then 1 else 0
  {
    assert TilesOf(Run(t)) == [t] + [t + 1] + [t + 2];
  }

  /** A sorted sequence of tile values (non-decreasing). */
  predicate Sorted(s: seq<int>) {
    forall i, j :: 0 <= i < j < |s| ==> s[i] <= s[j]
  }

  /** `n` copies of the value `t`. */
  function Repeat(t: int, n: nat): (r: seq<int>)
    ensures |r| == n
    ensures forall i :: 0 <= i < n ==> r[i] == t
  {
    if n == 0 then [] else [t] + Repeat(t, n - 1)
  }
}
