/**
 * The search of the bit-packed engine, on count tables. At every depth
 * splitTileMap looks for the lowest triple and the lowest run of the whole
 * table (it keeps no lower bound as the portable engine does), and once a
 * depth has found no triple it stops looking for triples below it.
 */
module BitsSearch {
  import opened Tiles
  import opened CountTilesSearch

  /** No tile value is held three times. */
  predicate NoTriple(c: Counts) {
    forall u :: TileMin <= u <= TileMax ==> c[u] < 3
  }

  /**
   * The lists of k triples and runs splitTileMap completes, in the order it
   * completes them: with the lowest triple taken first (unless noTriple),
   * then with the lowest run. The run branch passes noTriple on, set when
   * this depth found no triple.
   */
  function BitsExplore(c: Counts, k: nat, noTriple: bool): seq<seq<Group>>
    decreases k, 1
  {
    if k == 0 then [[]] else BitsTriples(c, k, noTriple) + BitsRuns(c, k, noTriple)
  }

  function BitsTriples(c: Counts, k: nat, noTriple: bool): seq<seq<Group>>
    requires k > 0
    decreases k, 0
  {
    if noTriple then []
    else
      match FirstTriple(c, TileMin)
      case None => []
      case Some(t) => ConsAll(Triple(t), BitsExplore(Take(c, Triple(t)), k - 1, false))
  }

  function BitsRuns(c: Counts, k: nat, noTriple: bool): seq<seq<Group>>
    requires k > 0
    decreases k, 0
  {
    match FirstRun(c, TileMin)
    case None => []
    case Some(t) => ConsAll(Run(t), BitsExplore(Take(c, Run(t)), k - 1, noTriple || FirstTriple(c, TileMin).None?))
  }

  /** The same search without the pruning flag: the reference the pruned search is measured against. */
  function Splits(c: Counts, k: nat): seq<seq<Group>>
    decreases k, 1
  {
    if k == 0 then [[]] else SplitsTriple(c, k) + SplitsRun(c, k)
  }

  function SplitsTriple(c: Counts, k: nat): seq<seq<Group>>
    requires k > 0
    decreases k, 0
  {
    match FirstTriple(c, TileMin)
    case None => []
    case Some(t) => ConsAll(Triple(t), Splits(Take(c, Triple(t)), k - 1))
  }

  function SplitsRun(c: Counts, k: nat): seq<seq<Group>>
    requires k > 0
    decreases k, 0
  {
    match FirstRun(c, TileMin)
    case None => []
    case Some(t) => ConsAll(Run(t), Splits(Take(c, Run(t)), k - 1))
  }

  // ---------------------------------------------------------------------
  // Pruning

  /** Taking tiles out never creates a triple. */
  lemma TakeNoTriple(c: Counts, g: Group)
    requires ValidGroup(g) && Holds(c, g) && NoTriple(c)
    ensures NoTriple(Take(c, g))
  {
    forall u | TileMin <= u <= TileMax ensures Take(c, g)[u] <= c[u] {
    }
  }

  /**
   * Skipping the triple search below a depth that found no triple loses
   * nothing: the pruned search completes exactly the lists of the full one.
   */
  lemma {:induction false} PruneSound(c: Counts, k: nat, noTriple: bool)
    requires noTriple ==> NoTriple(c)
    ensures BitsExplore(c, k, noTriple) == Splits(c, k)
    decreases k, 1
  {
    if k > 0 {
      PruneTriples(c, k, noTriple);
      PruneRuns(c, k, noTriple);
    }
  }

  lemma {:induction false} PruneTriples(c: Counts, k: nat, noTriple: bool)
    requires k > 0 && (noTriple ==> NoTriple(c))
    ensures BitsTriples(c, k, noTriple) == SplitsTriple(c, k)
    decreases k, 0
  {
    if FirstTriple(c, TileMin).Some? {
      PruneSound(Take(c, Triple(FirstTriple(c, TileMin).value)), k - 1, false);
    }
  }

  lemma {:induction false} PruneRuns(c: Counts, k: nat, noTriple: bool)
    requires k > 0 && (noTriple ==> NoTriple(c))
    ensures BitsRuns(c, k, noTriple) == SplitsRun(c, k)
    decreases k, 0
  {
    if FirstRun(c, TileMin).Some? {
      var g := Run(FirstRun(c, TileMin).value);
      var flag := noTriple || FirstTriple(c, TileMin).None?;
      if flag {
        TakeNoTriple(c, g);
      }
      PruneSound(Take(c, g), k - 1, flag);
    }
  }

  // ---------------------------------------------------------------------
  // Soundness

  lemma AllValidCons(l: seq<Group>)
    requires |l| > 0 && ValidGroup(l[0]) && !l[0].Pair? && AllValid(l[1..])
    ensures AllValid(l)
  {
    forall i | 0 < i < |l| ensures l[i] == l[1..][i - 1] {
    }
  }

  /**
   * A list of k triples and runs taken from the table; when the table holds
   * exactly 3k tiles, the list uses all of them.
   */
  ghost predicate SoundSplit(c: Counts, k: nat, l: seq<Group>) {
    && |l| == k && AllValid(l) && GroupsBag(l) <= Bag(c)
    && (Total(c) == 3 * k ==> GroupsBag(l) == Bag(c))
  }

  /** Every completed list is a split of (a part of) the table. */
  lemma SplitsSound(c: Counts, k: nat, l: seq<Group>)
    requires l in Splits(c, k)
    ensures SoundSplit(c, k, l)
  {
    AllSound(c, k);
  }

  lemma {:induction false} AllSound(c: Counts, k: nat)
    ensures forall l :: l in Splits(c, k) ==> SoundSplit(c, k, l)
    decreases k, 1
  {
    if k == 0 {
      forall l | l in Splits(c, 0) ensures SoundSplit(c, 0, l) {
        SoundEmpty(c, l);
      }
    } else {
      TriplesSound(c, k);
      RunsSound(c, k);
    }
  }

  lemma {:induction false} TriplesSound(c: Counts, k: nat)
    requires k > 0
    ensures forall l :: l in SplitsTriple(c, k) ==> SoundSplit(c, k, l)
    decreases k, 0
  {
    if FirstTriple(c, TileMin).Some? {
      var g := Triple(FirstTriple(c, TileMin).value);
      var d := Take(c, g);
      AllSound(d, k - 1);
      forall l | l in SplitsTriple(c, k) ensures SoundSplit(c, k, l) {
        ConsAllMember(g, Splits(d, k - 1), l);
        SoundCons(c, d, k, l);
      }
    }
  }

  lemma {:induction false} RunsSound(c: Counts, k: nat)
    requires k > 0
    ensures forall l :: l in SplitsRun(c, k) ==> SoundSplit(c, k, l)
    decreases k, 0
  {
    if FirstRun(c, TileMin).Some? {
      var g := Run(FirstRun(c, TileMin).value);
      var d := Take(c, g);
      AllSound(d, k - 1);
      forall l | l in SplitsRun(c, k) ensures SoundSplit(c, k, l) {
        ConsAllMember(g, Splits(d, k - 1), l);
        SoundCons(c, d, k, l);
      }
    }
  }

  lemma SoundEmpty(c: Counts, l: seq<Group>)
    requires l in Splits(c, 0)
    ensures SoundSplit(c, 0, l)
  {
    if Total(c) == 0 {
      TotalZero(c);
    }
  }

  /** The facts of SplitsSound for a list, from those for its first group and its tail. */
  lemma SoundCons(c: Counts, d: Counts, k: nat, l: seq<Group>)
    requires k > 0 && |l| > 0 && ValidGroup(l[0]) && !l[0].Pair? && Holds(c, l[0])
    requires d == Take(c, l[0]) && SoundSplit(d, k - 1, l[1..])
    ensures SoundSplit(c, k, l)
  {
    AllValidCons(l);
    ConsBag(c, l[0], l[1..]);
    assert [l[0]] + l[1..] == l;
  }

  // ---------------------------------------------------------------------
  // Completeness

  /** A list completed after the lowest group of the table is completed with it in front. */
  lemma SplitsExtend(c: Counts, k: nat, g: Group, l: seq<Group>)
    requires k > 0 && ValidGroup(g) && !g.Pair? && Holds(c, g)
    requires forall u :: 0 <= u < g.tile ==> c[u] == 0
    requires l in Splits(Take(c, g), k - 1)
    ensures [g] + l in Splits(c, k)
  {
    var e := Splits(Take(c, g), k - 1);
    ConsAllMember(g, e, [g] + l);
    assert ([g] + l)[1..] == l;
    if g.Triple? {
      FirstTripleAtLowest(c, TileMin, g.tile);
      assert [g] + l in SplitsTriple(c, k);
    } else {
      FirstRunAtLowest(c, TileMin, g.tile);
      assert [g] + l in SplitsRun(c, k);
    }
  }

  /**
   * Every way to split the table into k triples and runs is completed by
   * the search, up to the order of the groups.
   */
  lemma {:induction false} SplitsComplete(c: Counts, k: nat, gs: seq<Group>) returns (l: seq<Group>)
    requires |gs| == k && AllValid(gs) && GroupsBag(gs) == Bag(c) && c[0] == 0
    ensures l in Splits(c, k) && multiset(l) == multiset(gs)
    decreases k, 1
  {
    if k == 0 {
      l := [];
    } else {
      var i := PickLowest(c, TileMin, gs);
      var rest := RemoveGroup(c, gs, i);
      l := CompleteWith(c, k, gs[i], rest);
    }
  }

  /** The lowest group in front of a completed split of the rest. */
  lemma {:induction false} CompleteWith(c: Counts, k: nat, g: Group, rest: seq<Group>) returns (l: seq<Group>)
    requires k > 0 && ValidGroup(g) && !g.Pair? && Holds(c, g)
    requires forall u :: 0 <= u < g.tile ==> c[u] == 0
    requires |rest| == k - 1 && AllValid(rest) && GroupsBag(rest) == Bag(Take(c, g))
    requires forall u :: 0 <= u < g.tile && u <= TileMax ==> Take(c, g)[u] == 0
    ensures l in Splits(c, k) && multiset(l) == multiset{g} + multiset(rest)
    decreases k, 0
  {
    var tail := SplitsComplete(Take(c, g), k - 1, rest);
    SplitsExtend(c, k, g, tail);
    l := [g] + tail;
    assert multiset(l) == multiset{g} + multiset(tail);
  }
}
