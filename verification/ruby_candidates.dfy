/**
 * What the candidates of the Ruby search are: every candidate is a list of
 * groups taken out of the tiles, with at most one pair; one that uses all
 * 14 tiles of a hand is a winning split into a pair and four groups; and
 * every such split is found, up to the order of its groups.
 */
module RubyCandidates {
  import opened Tiles
  import opened CountTilesSearch
  import opened RubySearch

  /** The number of pairs in a list of groups. */
  function Pairs(l: seq<Group>): (n: nat)
    ensures n <= |l|
  {
    if l == [] then 0 else (if l[0].Pair? then 1 else 0) + Pairs(l[1..])
  }

  /** The pairs a search may still take: none once a pair is found, one otherwise. */
  function PairsAllowed(foundPair: bool): nat {
    if foundPair then 0 else 1
  }

  // ---------------------------------------------------------------------
  // Soundness

  /** Where a candidate of one branch comes from: its group, then a candidate of what is left or nothing. */
  lemma BranchStep(c: Counts, partType: PartType, conditionToThis: bool, subFoundPair: bool, l: seq<Group>)
    requires l in Branch(c, partType, conditionToThis, subFoundPair)
    ensures conditionToThis && PartOf(c, partType).Some? && |l| > 0 && l[0] == PartOf(c, partType).value
    ensures l[1..] == [] || l[1..] in Candidates(Take(c, l[0]), subFoundPair)
    ensures partType == PairType <==> l[0].Pair?
  {
    var g := PartOf(c, partType).value;
    var sub := Candidates(Take(c, g), subFoundPair);
    if sub != [] {
      ConsAllMember(g, sub, l);
    } else {
      assert l == [g];
    }
  }

  lemma CandidateStep(c: Counts, foundPair: bool, l: seq<Group>)
    requires l in Candidates(c, foundPair)
    ensures |l| > 0 && ValidGroup(l[0]) && Holds(c, l[0])
    ensures l[0].Pair? ==> !foundPair
    ensures var sub := if l[0].Pair? then true else foundPair;
      l[1..] == [] || l[1..] in Candidates(Take(c, l[0]), sub)
  {
    if l in Branch(c, PairType, !foundPair, true) {
      BranchStep(c, PairType, !foundPair, true, l);
    } else if l in Branch(c, TripleType, true, foundPair) {
      BranchStep(c, TripleType, true, foundPair, l);
    } else {
      BranchStep(c, SequenceOfThreeType, true, foundPair, l);
    }
  }

  /**
   * Every candidate is a nonempty list of valid groups whose tiles the table
   * holds, with at most one pair, and none when a pair was found before.
   */
  lemma {:induction false} CandidatesSound(c: Counts, foundPair: bool, l: seq<Group>)
    requires l in Candidates(c, foundPair)
    ensures l != [] && ValidList(l)
    ensures GroupsBag(l) <= Bag(c)
    ensures Pairs(l) <= PairsAllowed(foundPair)
    decreases Total(c)
  {
    CandidateStep(c, foundPair, l);
    TakeFacts(c, l[0]);
    if l[1..] != [] {
      CandidatesSound(Take(c, l[0]), if l[0].Pair? then true else foundPair, l[1..]);
    }
    SoundStep(c, foundPair, l);
  }

  /** The facts of CandidatesSound for a list, from those for its tail. */
  lemma SoundStep(c: Counts, foundPair: bool, l: seq<Group>)
    requires |l| > 0 && ValidGroup(l[0]) && Holds(c, l[0]) && (l[0].Pair? ==> !foundPair)
    requires l[1..] != [] ==>
      && ValidList(l[1..]) && GroupsBag(l[1..]) <= Bag(Take(c, l[0]))
      && Pairs(l[1..]) <= PairsAllowed(if l[0].Pair? then true else foundPair)
    ensures ValidList(l) && GroupsBag(l) <= Bag(c) && Pairs(l) <= PairsAllowed(foundPair)
  {
    TakeFacts(c, l[0]);
    forall j | 1 <= j < |l| ensures ValidGroup(l[j]) {
      assert l[j] == l[1..][j - 1];
    }
  }

  // ---------------------------------------------------------------------
  // Candidates that use every tile

  /** A list of groups has three tiles a group, one fewer for each pair. */
  lemma {:induction false} GroupsBagSize(l: seq<Group>)
    ensures |GroupsBag(l)| == 3 * |l| - Pairs(l)
  {
    if l != [] {
      GroupsBagSize(l[1..]);
    }
  }

  /** A table holds as many tiles as it counts. */
  lemma {:induction false} BagSize(c: seq<nat>)
    ensures |Bag(c)| == Total(c)
  {
    if c != [] {
      var p := c[..|c| - 1];
      BagSize(p);
      BagCount(p, |c| - 1);
    }
  }

  /** A part of a multiset with as many elements is all of it. */
  lemma SubBagEqual(a: multiset<int>, b: multiset<int>)
    requires a <= b && |a| >= |b|
    ensures a == b
  {
    assert b == a + (b - a);
    assert |b - a| == 0;
  }

  /**
   * markExtraTile keeps the candidates with 14 tiles: of a 14-tile hand
   * each such candidate is a winning split, one pair and four triples or
   * runs using every tile.
   */
  lemma WinningCandidate(c: Counts, l: seq<Group>)
    requires Total(c) == SizeOfCompleteTiles && l in Candidates(c, false)
    requires |GroupsBag(l)| >= SizeOfCompleteTiles
    ensures ValidList(l) && GroupsBag(l) == Bag(c)
    ensures Pairs(l) == 1 && |l| == 5
  {
    CandidatesSound(c, false, l);
    GroupsBagSize(l);
    BagSize(c);
    SubBagEqual(GroupsBag(l), Bag(c));
  }

  // ---------------------------------------------------------------------
  // Completeness

  /** An empty table has no candidate. */
  lemma NoCandidates(c: Counts, foundPair: bool)
    requires Total(c) == 0
    ensures Candidates(c, foundPair) == []
  {
    TotalZero(c);
  }

  /** Taking one group out of a list removes its pair, if it is one. */
  lemma {:induction false} PairsRemoveAt(gs: seq<Group>, i: nat)
    requires i < |gs|
    ensures Pairs(gs) == (if gs[i].Pair? then 1 else 0) + Pairs(gs[..i] + gs[i + 1..])
  {
    if i == 0 {
      assert gs[..i] + gs[i + 1..] == gs[1..];
    } else {
      var tl := gs[1..];
      SplitTail(gs, i);
      PairsRemoveAt(tl, i - 1);
      assert ([gs[0]] + (tl[..i - 1] + tl[i..]))[1..] == tl[..i - 1] + tl[i..];
    }
  }

  lemma ValidRemoveAt(gs: seq<Group>, i: nat)
    requires ValidList(gs) && i < |gs|
    ensures ValidList(gs[..i] + gs[i + 1..])
  {
    var rest := gs[..i] + gs[i + 1..];
    forall j | 0 <= j < |rest| ensures ValidGroup(rest[j]) {
      assert rest[j] == gs[if j < i then j else j + 1];
    }
  }

  /** The part type that finds a group. */
  function TypeOf(g: Group): PartType {
    match g
    case Pair(_) => PairType
    case Triple(_) => TripleType
    case Run(_) => SequenceOfThreeType
  }

  /** foundPair for the search after g. */
  function SubFoundPair(g: Group, foundPair: bool): bool {
    g.Pair? || foundPair
  }

  /** The group at the least tile of the table is the one the branch of its type takes. */
  lemma LowestPart(c: Counts, g: Group)
    requires ValidGroup(g) && Holds(c, g)
    requires forall u :: 0 <= u < g.tile ==> c[u] == 0
    ensures PartOf(c, TypeOf(g)) == Some(g)
  {
    assert c[g.tile] > 0;
    assert FirstHeld(c, TileMin) == Some(g.tile);
  }

  /** A list of the branch of g's type is a list of the candidates. */
  lemma InCandidates(c: Counts, foundPair: bool, g: Group, l: seq<Group>)
    requires g.Pair? ==> !foundPair
    requires l in Branch(c, TypeOf(g), !g.Pair? || !foundPair, SubFoundPair(g, foundPair))
    ensures l in Candidates(c, foundPair)
  {
  }

  /** The group at the least tile in front of a candidate for the rest is a candidate. */
  lemma ExtendCandidate(c: Counts, foundPair: bool, g: Group, l: seq<Group>)
    requires ValidGroup(g) && Holds(c, g) && (g.Pair? ==> !foundPair)
    requires forall u :: 0 <= u < g.tile ==> c[u] == 0
    requires l in Candidates(Take(c, g), SubFoundPair(g, foundPair))
    requires GroupsBag(l) == Bag(Take(c, g))
    ensures [g] + l in Candidates(c, foundPair)
    ensures GroupsBag([g] + l) == Bag(c)
  {
    ExtendBag(c, g, l);
    LowestPart(c, g);
    var cs := Candidates(Take(c, g), SubFoundPair(g, foundPair));
    ConsAllMember(g, cs, [g] + l);
    assert ([g] + l)[1..] == l;
    InCandidates(c, foundPair, g, [g] + l);
  }

  /** The group at the least tile alone is a candidate when it is all the table holds. */
  lemma AloneCandidate(c: Counts, foundPair: bool, g: Group)
    requires ValidGroup(g) && Holds(c, g) && (g.Pair? ==> !foundPair)
    requires forall u :: 0 <= u < g.tile ==> c[u] == 0
    requires Total(Take(c, g)) == 0 && Bag(Take(c, g)) == multiset{}
    ensures [g] in Candidates(c, foundPair)
    ensures GroupsBag([g]) == Bag(c)
  {
    ExtendBag(c, g, []);
    assert [g] + [] == [g];
    LowestPart(c, g);
    NoCandidates(Take(c, g), SubFoundPair(g, foundPair));
    InCandidates(c, foundPair, g, [g]);
  }

  /** The lowest group of a split: the table holds it and nothing below its start. */
  lemma SplitLowest(c: Counts, foundPair: bool, gs: seq<Group>) returns (i: nat)
    requires gs != [] && ValidList(gs) && GroupsBag(gs) == Bag(c) && c[0] == 0
    requires Pairs(gs) <= PairsAllowed(foundPair)
    ensures i < |gs| && ValidGroup(gs[i]) && Holds(c, gs[i]) && (gs[i].Pair? ==> !foundPair)
    ensures forall u :: 0 <= u < gs[i].tile ==> c[u] == 0
  {
    assert forall u :: 0 <= u < TileMin && u <= TileMax ==> c[u] == 0;
    var k := PickLowest(c, TileMin, gs);
    i := k;
    PairsRemoveAt(gs, i);
  }

  /** What is left of a split once its lowest group is taken out is a split of what is left of the table. */
  lemma SplitRest(c: Counts, foundPair: bool, gs: seq<Group>, i: nat)
    requires ValidList(gs) && GroupsBag(gs) == Bag(c) && i < |gs| && ValidGroup(gs[i]) && Holds(c, gs[i])
    requires Pairs(gs) <= PairsAllowed(foundPair)
    ensures ValidList(gs[..i] + gs[i + 1..])
    ensures GroupsBag(gs[..i] + gs[i + 1..]) == Bag(Take(c, gs[i]))
    ensures Pairs(gs[..i] + gs[i + 1..]) <= PairsAllowed(SubFoundPair(gs[i], foundPair))
  {
    GroupsBagRemoveAt(gs, i);
    PairsRemoveAt(gs, i);
    ValidRemoveAt(gs, i);
    TakeFacts(c, gs[i]);
  }

  lemma ExtendBag(c: Counts, g: Group, l: seq<Group>)
    requires ValidGroup(g) && Holds(c, g) && GroupsBag(l) == Bag(Take(c, g))
    ensures GroupsBag([g] + l) == Bag(c)
  {
    GroupsBagCons(g, l);
    TakeFacts(c, g);
  }

  /**
   * Every split of the table into valid groups with no more pairs than
   * allowed is found, up to the order of its groups.
   */
  lemma {:induction false} CandidatesComplete(c: Counts, foundPair: bool, gs: seq<Group>) returns (l: seq<Group>)
    requires gs != [] && ValidList(gs) && GroupsBag(gs) == Bag(c) && c[0] == 0
    requires Pairs(gs) <= PairsAllowed(foundPair)
    ensures l in Candidates(c, foundPair) && multiset(l) == multiset(gs) && GroupsBag(l) == Bag(c)
    decreases |gs|
  {
    var i := SplitLowest(c, foundPair, gs);
    var g := gs[i];
    var rest := gs[..i] + gs[i + 1..];
    SplitRest(c, foundPair, gs, i);
    RemoveAtMultiset(gs, i);
    TakeFacts(c, g);
    TakeBelow(c, g, 0);
    if rest == [] {
      BagSize(Take(c, g));
      AloneCandidate(c, foundPair, g);
      l := [g];
    } else {
      var l' := CandidatesComplete(Take(c, g), SubFoundPair(g, foundPair), rest);
      ExtendCandidate(c, foundPair, g, l');
      l := [g] + l';
    }
  }

  /**
   * Of a 14-tile hand, the candidates with 14 tiles are exactly its winning
   * splits: each is one, and each split is among them up to order.
   */
  lemma WinningSplitsFound(c: Counts, gs: seq<Group>)
    requires Total(c) == SizeOfCompleteTiles && c[0] == 0
    requires ValidList(gs) && GroupsBag(gs) == Bag(c) && Pairs(gs) <= 1
    ensures exists l :: l in Candidates(c, false) && multiset(l) == multiset(gs) && |GroupsBag(l)| == SizeOfCompleteTiles
  {
    BagSize(c);
    assert gs != [];
    var l := CandidatesComplete(c, false, gs);
  }
}
