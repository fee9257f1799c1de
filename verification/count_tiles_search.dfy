/**
 * The count table of the search engine (countTiles.cpp) and what its
 * backtracking search explores: from a lower bound on the start tile, the
 * first triple and then the first run, each followed by the search of what
 * is left, until four groups are found.
 */
module CountTilesSearch {
  import opened Tiles

  // ---------------------------------------------------------------------
  // The least held tile

  /** The first tile from `from` up to 9 the table holds, if any. */
  function FirstHeld(c: Counts, from: int): (r: Option<int>)
    requires 0 <= from
    ensures r.Some? ==> from <= r.value <= TileMax && c[r.value] > 0
    ensures r.Some? ==> forall u :: from <= u < r.value ==> c[u] == 0
    ensures r.None? ==> forall u :: from <= u <= TileMax ==> c[u] == 0
    decreases TileMax + 1 - from
  {
    if from > TileMax then None
    else if c[from] > 0 then Some(from)
    else FirstHeld(c, from + 1)
  }

  /** What FindMinTile answers: the least held tile from `head` on, or `head` itself. */
  function MinTile(c: Counts, head: int): int
    requires 0 <= head
  {
    match FirstHeld(c, head)
    case Some(t) => t
    case None => head
  }

  /** Scans the table upwards from `head` for the first tile it holds. */
  method FindMinTile(c: Counts, head: int) returns (t: int)
    requires TileMin <= head
    ensures t == MinTile(c, head)
    ensures t == head || (head < t <= TileMax && c[t] > 0 && forall u :: head <= u < t ==> c[u] == 0)
    ensures t == head && head <= TileMax ==> c[head] > 0 || forall u :: head <= u <= TileMax ==> c[u] == 0
  {
    var tile := head;
    while tile <= TileMax
      invariant head <= tile <= TileMax + 1 || tile == head
      invariant forall u :: head <= u < tile ==> c[u] == 0
      invariant FirstHeld(c, head) == FirstHeld(c, tile)
      decreases TileMax + 1 - tile
    {
      if c[tile] > 0 {
        return tile;
      }
      tile := tile + 1;
    }
    return head;
  }

  // ---------------------------------------------------------------------
  // The count table

  function Zero(): Counts {
    [0, 0, 0, 0, 0, 0, 0, 0, 0, 0]
  }

  /** The tiles not yet placed in a group, as a count per tile value. */
  class KeyTileSetTable {
    var current: Counts

    constructor ()
      ensures current == Zero()
    {
      current := Zero();
    }

    method Reset()
      modifies this
      ensures current == Zero()
    {
      current := Zero();
    }

    /** Adds tiles of the hand. */
    method AddTiles(tile: int, n: nat)
      requires 0 <= tile <= TileMax
      modifies this
      ensures current == old(current)[tile := old(current)[tile] + n]
    {
      current := current[tile := current[tile] + n];
    }

    /** Gives back tiles taken out before. */
    method PushTiles(tile: int, n: nat)
      requires 0 <= tile <= TileMax
      modifies this
      ensures current == old(current)[tile := old(current)[tile] + n]
    {
      current := current[tile := current[tile] + n];
    }

    /** Takes tiles out; callers never take more than there are. */
    method PopTiles(tile: int, n: nat)
      requires 0 <= tile <= TileMax && n <= current[tile]
      modifies this
      ensures current == old(current)[tile := old(current)[tile] - n]
    {
      current := current[tile := current[tile] - n];
    }

    method GetRemainingSize(tile: int) returns (n: nat)
      requires 0 <= tile <= TileMax
      ensures n == current[tile]
    {
      n := current[tile];
    }

    method GetMinTile(head: int) returns (t: int)
      requires TileMin <= head
      ensures t == MinTile(current, head)
    {
      t := FindMinTile(current, head);
    }
  }

  // ---------------------------------------------------------------------
  // Group selection

  /** The first tile from m up to 9 with at least three copies. */
  function FirstTriple(c: Counts, m: int): (r: Option<int>)
    requires TileMin <= m
    ensures r.Some? ==> m <= r.value <= TileMax && c[r.value] >= 3
    ensures r.Some? ==> forall u :: m <= u < r.value ==> c[u] < 3
    ensures r.None? ==> forall u :: m <= u <= TileMax ==> c[u] < 3
    decreases TileMax + 1 - m
  {
    if m > TileMax then None
    else if c[m] >= 3 then Some(m)
    else FirstTriple(c, m + 1)
  }

  predicate RunAt(c: Counts, t: int)
    requires TileMin <= t
  {
    t <= TileMax - 2 && c[t] > 0 && c[t + 1] > 0 && c[t + 2] > 0
  }

  /** The first tile from m up to 7 that starts a run the table holds. */
  function FirstRun(c: Counts, m: int): (r: Option<int>)
    requires TileMin <= m
    ensures r.Some? ==> m <= r.value <= TileMax - 2 && RunAt(c, r.value)
    ensures r.Some? ==> forall u :: m <= u < r.value ==> !RunAt(c, u)
    ensures r.None? ==> forall u :: m <= u <= TileMax ==> !RunAt(c, u)
    decreases TileMax + 1 - m
  {
    if m > TileMax then None
    else if RunAt(c, m) then Some(m)
    else FirstRun(c, m + 1)
  }

  /** The same group put in front of every list. */
  function ConsAll(g: Group, ls: seq<seq<Group>>): (r: seq<seq<Group>>)
    ensures |r| == |ls|
  {
    if ls == [] then [] else [[g] + ls[0]] + ConsAll(g, ls[1..])
  }

  lemma {:induction false} ConsAllMember(g: Group, ls: seq<seq<Group>>, l: seq<Group>)
    ensures l in ConsAll(g, ls) <==> |l| > 0 && l[0] == g && l[1..] in ls
  {
    if ls != [] {
      ConsAllMember(g, ls[1..], l);
      assert ConsAll(g, ls) == [[g] + ls[0]] + ConsAll(g, ls[1..]);
      if l == [g] + ls[0] {
        assert l[1..] == ls[0];
      }
      if |l| > 0 && l[0] == g && l[1..] == ls[0] {
        assert l == [g] + ls[0];
      }
    }
  }

  lemma {:induction false} ConsAllAt(g: Group, ls: seq<seq<Group>>, i: nat)
    requires i < |ls|
    ensures ConsAll(g, ls)[i] == [g] + ls[i]
  {
    if i > 0 {
      ConsAllAt(g, ls[1..], i - 1);
    }
  }

  /**
   * The lists of k groups the search completes, in the order it completes
   * them: with the first triple from m on taken first, then with the first
   * run from m on. A found group's start tile is the bound for the rest.
   */
  function Explore(c: Counts, m: int, k: nat): seq<seq<Group>>
    requires TileMin <= m
    decreases k, 1
  {
    if k == 0 then [[]] else TripleBranch(c, m, k) + RunBranch(c, m, k)
  }

  function TripleBranch(c: Counts, m: int, k: nat): seq<seq<Group>>
    requires TileMin <= m && k > 0
    decreases k, 0
  {
    match FirstTriple(c, m)
    case None => []
    case Some(t) => ConsAll(Triple(t), Explore(Take(c, Triple(t)), t, k - 1))
  }

  function RunBranch(c: Counts, m: int, k: nat): seq<seq<Group>>
    requires TileMin <= m && k > 0
    decreases k, 0
  {
    match FirstRun(c, m)
    case None => []
    case Some(t) => ConsAll(Run(t), Explore(Take(c, Run(t)), t, k - 1))
  }

  /** Start tiles never decrease along a list, and none is below m. */
  ghost predicate StartsFrom(gs: seq<Group>, m: int) {
    && (forall i :: 0 <= i < |gs| ==> m <= gs[i].tile)
    && (forall i, j :: 0 <= i < j < |gs| ==> gs[i].tile <= gs[j].tile)
  }

  ghost predicate AllValid(gs: seq<Group>) {
    forall i :: 0 <= i < |gs| ==> ValidGroup(gs[i]) && !gs[i].Pair?
  }

  /** Where a completed list comes from: one branch of the first step. */
  lemma ExploreStep(c: Counts, m: int, k: nat, l: seq<Group>)
    requires TileMin <= m && k > 0 && l in Explore(c, m, k)
    ensures |l| > 0 && ValidGroup(l[0]) && !l[0].Pair? && m <= l[0].tile && Holds(c, l[0])
    ensures l[1..] in Explore(Take(c, l[0]), l[0].tile, k - 1)
  {
    if l in TripleBranch(c, m, k) {
      var t := FirstTriple(c, m).value;
      ConsAllMember(Triple(t), Explore(Take(c, Triple(t)), t, k - 1), l);
    } else {
      assert l in RunBranch(c, m, k);
      var t := FirstRun(c, m).value;
      ConsAllMember(Run(t), Explore(Take(c, Run(t)), t, k - 1), l);
    }
  }

  /**
   * Every completed list holds k triples or runs with non-decreasing start
   * tiles from m on, taken from the table; when the table holds exactly 3k
   * tiles, the list uses all of them.
   */
  lemma {:induction false} ExploreSound(c: Counts, m: int, k: nat, l: seq<Group>)
    requires TileMin <= m && l in Explore(c, m, k)
    ensures |l| == k && AllValid(l) && StartsFrom(l, m)
    ensures GroupsBag(l) <= Bag(c)
    ensures Total(c) == 3 * k ==> GroupsBag(l) == Bag(c)
    decreases k
  {
    if k == 0 {
      assert l == [];
      if Total(c) == 0 {
        TotalZero(c);
      }
    } else {
      ExploreStep(c, m, k, l);
      ExploreSound(Take(c, l[0]), l[0].tile, k - 1, l[1..]);
      ConsSound(c, m, l);
    }
  }

  /** The facts of ExploreSound for a list, from those for its first group and its tail. */
  lemma ConsSound(c: Counts, m: int, l: seq<Group>)
    requires |l| > 0 && ValidGroup(l[0]) && !l[0].Pair? && m <= l[0].tile && Holds(c, l[0])
    requires AllValid(l[1..]) && StartsFrom(l[1..], l[0].tile)
    requires GroupsBag(l[1..]) <= Bag(Take(c, l[0]))
    requires Total(Take(c, l[0])) == 3 * |l[1..]| ==> GroupsBag(l[1..]) == Bag(Take(c, l[0]))
    ensures AllValid(l) && StartsFrom(l, m)
    ensures GroupsBag(l) <= Bag(c)
    ensures Total(c) == 3 * |l| ==> GroupsBag(l) == Bag(c)
  {
    assert l == [l[0]] + l[1..];
    ConsFacts(l[0], l[1..], m);
    ConsBag(c, l[0], l[1..]);
  }

  lemma ConsFacts(g: Group, rest: seq<Group>, m: int)
    requires ValidGroup(g) && !g.Pair? && m <= g.tile
    requires AllValid(rest) && StartsFrom(rest, g.tile)
    ensures AllValid([g] + rest) && StartsFrom([g] + rest, m)
  {
    var l := [g] + rest;
    forall i | 0 < i < |l| ensures l[i] == rest[i - 1] {
    }
  }

  lemma ConsBag(c: Counts, g: Group, rest: seq<Group>)
    requires ValidGroup(g) && !g.Pair? && Holds(c, g)
    requires GroupsBag(rest) <= Bag(Take(c, g))
    requires Total(Take(c, g)) == 3 * |rest| ==> GroupsBag(rest) == Bag(Take(c, g))
    ensures GroupsBag([g] + rest) <= Bag(c)
    ensures Total(c) == 3 * (|rest| + 1) ==> GroupsBag([g] + rest) == Bag(c)
  {
    GroupsBagCons(g, rest);
    TakeFacts(c, g);
    UnionWithin(multiset(TilesOf(g)), GroupsBag(rest), Bag(c));
    if Total(c) == 3 * (|rest| + 1) {
      assert |TilesOf(g)| == 3;
    }
  }

  /** A part of c together with a part of what is left of c is a part of c; with all of it, it is c. */
  lemma UnionWithin(a: multiset<int>, b: multiset<int>, c: multiset<int>)
    requires a <= c && b <= c - a
    ensures a + b <= c
    ensures b == c - a ==> a + b == c
  {
  }

  // ---------------------------------------------------------------------
  // Completeness

  /** A group holding the least tile value of the table starts at it. */
  lemma LowestIsStart(gs: seq<Group>, c: Counts, low: int, i: int)
    requires (forall j :: 0 <= j < |gs| ==> ValidGroup(gs[j])) && GroupsBag(gs) == Bag(c)
    requires 0 <= i < |gs| && ValidGroup(gs[i]) && low in TilesOf(gs[i])
    requires forall u :: 0 <= u < low ==> c[u] == 0
    ensures gs[i].tile == low
  {
    var g := gs[i];
    var s := g.tile;
    assert s == TilesOf(g)[0] && s <= low;
    InGroupsBag(gs, i, s);
    BagCount(c, s);
  }

  /** A table holding a triple at its least tile. */
  lemma FirstTripleAtLowest(c: Counts, m: int, low: int)
    requires TileMin <= m <= low <= TileMax && c[low] >= 3
    requires forall u :: 0 <= u < low ==> c[u] == 0
    ensures FirstTriple(c, m) == Some(low)
  {
  }

  lemma FirstRunAtLowest(c: Counts, m: int, low: int)
    requires TileMin <= m <= low && RunAt(c, low)
    requires forall u :: 0 <= u < low ==> c[u] == 0
    ensures FirstRun(c, m) == Some(low)
  {
  }

  /** Removing the i-th group leaves the multiset of the others. */
  lemma RemoveAtMultiset<T>(s: seq<T>, i: int)
    requires 0 <= i < |s|
    ensures multiset(s) == multiset{s[i]} + multiset(s[..i] + s[i + 1..])
  {
    assert s == s[..i] + [s[i]] + s[i + 1..];
  }

  /** The group holding the least tile of the table starts at it, and the table holds it. */
  lemma PickLowest(c: Counts, m: int, gs: seq<Group>) returns (i: int)
    requires TileMin <= m && |gs| > 0 && (forall j :: 0 <= j < |gs| ==> ValidGroup(gs[j])) && GroupsBag(gs) == Bag(c)
    requires forall u :: 0 <= u < m && u <= TileMax ==> c[u] == 0
    ensures 0 <= i < |gs| && m <= gs[i].tile && Holds(c, gs[i])
    ensures forall u :: 0 <= u < gs[i].tile ==> c[u] == 0
  {
    InGroupsBag(gs, 0, TilesOf(gs[0])[0]);
    BagCount(c, TilesOf(gs[0])[0]);
    var L := FirstHeld(c, 0).value;
    BagCount(c, L);
    GroupsBagMember(gs, L);
    i :| 0 <= i < |gs| && L in TilesOf(gs[i]);
    LowestIsStart(gs, c, L, i);
    GroupInBag(gs, i);
    HoldsFromBag(c, gs[i]);
  }

  /** The other groups split what is left once the lowest group is taken out. */
  lemma RemoveGroup(c: Counts, gs: seq<Group>, i: int) returns (rest: seq<Group>)
    requires AllValid(gs) && GroupsBag(gs) == Bag(c) && 0 <= i < |gs| && Holds(c, gs[i])
    requires forall u :: 0 <= u < gs[i].tile ==> c[u] == 0
    ensures |rest| == |gs| - 1 && AllValid(rest) && GroupsBag(rest) == Bag(Take(c, gs[i]))
    ensures forall u :: 0 <= u < gs[i].tile && u <= TileMax ==> Take(c, gs[i])[u] == 0
    ensures multiset(gs) == multiset{gs[i]} + multiset(rest)
  {
    var g := gs[i];
    rest := gs[..i] + gs[i + 1..];
    GroupsBagRemoveAt(gs, i);
    RemoveAtMultiset(gs, i);
    TakeFacts(c, g);
    AllValidRemove(gs, i);
    forall u | 0 <= u < g.tile && u <= TileMax ensures Take(c, g)[u] == 0 {
      TakeBelow(c, g, u);
    }
  }

  /** Taking a group out leaves the slots below its start tile alone. */
  lemma TakeBelow(c: Counts, g: Group, u: int)
    requires ValidGroup(g) && Holds(c, g) && 0 <= u < g.tile
    ensures Take(c, g)[u] == c[u]
  {
  }

  lemma AllValidRemove(gs: seq<Group>, i: int)
    requires AllValid(gs) && 0 <= i < |gs|
    ensures AllValid(gs[..i] + gs[i + 1..])
  {
    var rest := gs[..i] + gs[i + 1..];
    forall j | 0 <= j < |rest| ensures ValidGroup(rest[j]) && !rest[j].Pair? {
      if j < i {
        assert rest[j] == gs[j];
      } else {
        assert rest[j] == gs[j + 1];
      }
    }
  }

  /** A list completed after the lowest group is completed with it in front. */
  lemma Extend(c: Counts, m: int, k: nat, g: Group, l: seq<Group>)
    requires TileMin <= m <= g.tile && k > 0 && ValidGroup(g) && !g.Pair? && Holds(c, g)
    requires forall u :: 0 <= u < g.tile ==> c[u] == 0
    requires l in Explore(Take(c, g), g.tile, k - 1)
    ensures [g] + l in Explore(c, m, k)
  {
    var e := Explore(Take(c, g), g.tile, k - 1);
    ConsAllMember(g, e, [g] + l);
    assert ([g] + l)[1..] == l;
    if g.Triple? {
      FirstTripleAtLowest(c, m, g.tile);
      assert [g] + l in TripleBranch(c, m, k);
    } else {
      FirstRunAtLowest(c, m, g.tile);
      assert [g] + l in RunBranch(c, m, k);
    }
  }

  /**
   * Every way to split the table into k triples and runs is completed by
   * the search, up to the order of the groups, once the table holds no
   * tile below the bound m.
   */
  lemma ExploreComplete(c: Counts, m: int, k: nat, gs: seq<Group>)
    requires TileMin <= m && |gs| == k && AllValid(gs) && GroupsBag(gs) == Bag(c)
    requires forall u :: 0 <= u < m && u <= TileMax ==> c[u] == 0
    ensures exists l :: l in Explore(c, m, k) && multiset(l) == multiset(gs)
  {
    var l := ExploreFinds(c, m, k, gs);
  }

  /** The split of ExploreComplete, found group by group from the lowest one. */
  lemma {:induction false} ExploreFinds(c: Counts, m: int, k: nat, gs: seq<Group>) returns (l: seq<Group>)
    requires TileMin <= m && |gs| == k && AllValid(gs) && GroupsBag(gs) == Bag(c)
    requires forall u :: 0 <= u < m && u <= TileMax ==> c[u] == 0
    ensures l in Explore(c, m, k) && multiset(l) == multiset(gs)
    decreases k
  {
    if k == 0 {
      l := [];
      assert [] in Explore(c, m, k);
    } else {
      var i := PickLowest(c, m, gs);
      var g := gs[i];
      var rest := RemoveGroup(c, gs, i);
      var l' := ExploreFinds(Take(c, g), g.tile, k - 1, rest);
      Extend(c, m, k, g, l');
      l := [g] + l';
      assert multiset(l) == multiset{g} + multiset(l');
    }
  }
}
