/**
 * The solver of the bit-packed engine (countTilesBitsSolver.cpp): for each
 * tile added as the extra (winning) tile and each pair taken out,
 * splitTileMap collects the full sets of a pair and four triples or runs
 * in a Solution; Filter then opens, in each full set, every group holding
 * the extra tile, and keeps the key and printed line of each new waiting
 * form. The search is specified by BitsExplore, the keys by FullKey and the
 * lines by ResultLine.
 */
module BitsSolver {
  import opened Tiles
  import opened BitsTileMap
  import opened BitsSearch
  import opened BitsKey
  import opened BitsPrint
  import CountTilesSearch

  // ---------------------------------------------------------------------
  // Full sets built from lists of groups

  /** The closed slot of a group (no tiles for a malformed group, which the search never builds). */
  function Closed(g: Group): (s: TileSet)
    ensures !s.open
  {
    TileSet(if ValidGroup(g) then GroupMap(g) else EmptyMap(), false)
  }

  /** The empty slot of a default-constructed TileFullSet. */
  function EmptySlot(): TileSet {
    TileSet(EmptyMap(), false)
  }

  /** The full set findWithExtra starts from: the pair in slot 0, the other slots empty. */
  function PairSet(i: int): (fs: FullSet)
    requires IsTile(i)
  {
    [Closed(Pair(i)), EmptySlot(), EmptySlot(), EmptySlot(), EmptySlot()]
  }

  /** The groups of a list put into slots d, d + 1, ... of a full set. */
  function Fill(fs: FullSet, d: nat, l: seq<Group>): FullSet
    decreases |l|
  {
    if l == [] || d >= 5 then fs else Fill(fs[d := Closed(l[0])], d + 1, l[1..])
  }

  /** The full sets completed from the lists of groups, in the order of the lists. */
  function Placed(fs: FullSet, d: nat, ls: seq<seq<Group>>): (r: seq<FullSet>)
    ensures |r| == |ls|
  {
    if ls == [] then [] else [Fill(fs, d, ls[0])] + Placed(fs, d, ls[1..])
  }

  lemma {:induction false} PlacedAt(fs: FullSet, d: nat, ls: seq<seq<Group>>, i: nat)
    requires i < |ls|
    ensures Placed(fs, d, ls)[i] == Fill(fs, d, ls[i])
  {
    if i > 0 {
      PlacedAt(fs, d, ls[1..], i - 1);
    }
  }

  lemma {:induction false} PlacedAppend(fs: FullSet, d: nat, a: seq<seq<Group>>, b: seq<seq<Group>>)
    ensures Placed(fs, d, a + b) == Placed(fs, d, a) + Placed(fs, d, b)
  {
    if a == [] {
      assert a + b == b;
    } else {
      assert (a + b)[0] == a[0] && (a + b)[1..] == a[1..] + b;
      PlacedAppend(fs, d, a[1..], b);
    }
  }

  /** Lists that start with the group of slot d fill that slot first. */
  lemma {:induction false} PlacedCons(fs: FullSet, d: nat, g: Group, ls: seq<seq<Group>>)
    requires d < 5
    ensures Placed(fs, d, CountTilesSearch.ConsAll(g, ls)) == Placed(fs[d := Closed(g)], d + 1, ls)
  {
    var r := Placed(fs, d, CountTilesSearch.ConsAll(g, ls));
    var q := Placed(fs[d := Closed(g)], d + 1, ls);
    forall i | 0 <= i < |ls| ensures r[i] == q[i] {
      CountTilesSearch.ConsAllAt(g, ls, i);
      PlacedAt(fs, d, CountTilesSearch.ConsAll(g, ls), i);
      PlacedAt(fs[d := Closed(g)], d + 1, ls, i);
      assert ([g] + ls[i])[1..] == ls[i];
    }
  }

  // ---------------------------------------------------------------------
  // Solution

  /** The full sets found for one pair (Solution::fullSetArray_). */
  class Solution {
    var fullSets: seq<FullSet>

    constructor()
      ensures fullSets == []
    {
      fullSets := [];
    }

    /** Solution::Add. */
    method Add(fs: FullSet)
      modifies this
      ensures fullSets == old(fullSets) + [fs]
    {
      fullSets := fullSets + [fs];
    }

    /**
     * Solution::Filter: each full set filtered in turn. The full sets are
     * those of the pair p and the lists ls splitTileMap completed.
     */
    method Filter(extra: int, answers: Answers, ghost p: int, ghost ls: seq<seq<Group>>)
      requires IsTile(extra) && IsTile(p) && AllFour(ls) && answers.Valid()
      requires fullSets == Placed(PairSet(p), 1, ls)
      modifies answers
      ensures answers.Valid() && answers.keys == Merged(old(answers.keys), Flat(PairSets(p, ls, extra)))
    {
      ghost var keys0 := answers.keys;
      ghost var ss := PairSets(p, ls, extra);
      for k := 0 to |fullSets|
        invariant answers.Valid() && answers.keys == Merged(keys0, Flat(ss[..k]))
      {
        PlacedFour(p, ls, k);
        FilterSet(fullSets[k], extra, answers, p, ls[k]);
        FlatStep(ss, k);
        MergedAppend(keys0, Flat(ss[..k]), ss[k]);
      }
      assert ss[..|ss|] == ss;
    }
  }

  /**
   * The full sets one branch of splitTileMap adds: none when its search
   * found no group, the full set with the group in slot depth at the last
   * depth, and otherwise those completed from the rest.
   */
  function Branch(group: TileMap, rest: TileMap, fs: FullSet, depth: nat, noTriple: bool): seq<FullSet>
    requires 1 <= depth <= 4
  {
    if group == EmptyMap() then []
    else if depth == 4 then [fs[depth := TileSet(group, false)]]
    else Placed(fs[depth := TileSet(group, false)], depth + 1, BitsExplore(CountsOf(rest), 4 - depth, noTriple))
  }

  /**
   * splitTileMap: slots depth..4 are filled with the lowest triple (unless
   * noTriple) or the lowest run of the map, recursively; the completed full
   * sets are appended to the solution in the order BitsExplore lists them.
   */
  method SplitTileMap(m: TileMap, fs: FullSet, depth: nat, noTriple: bool, solution: Solution)
    requires WellFormed(m) && 1 <= depth <= 4
    modifies solution
    ensures solution.fullSets == old(solution.fullSets) + Placed(fs, depth, BitsExplore(CountsOf(m), 5 - depth, noTriple))
    decreases 5 - depth, 1
  {
    var triple, tripleRest := EmptyMap(), EmptyMap();
    if !noTriple {
      var e := SplitWithMask(m, TriplePattern);
      triple, tripleRest := e.extracted, e.rest;
    }
    var e := SplitWithMask(m, SequencePattern);
    var sequence, sequenceRest := e.extracted, e.rest;
    var nextNoTriple := noTriple || triple == EmptyMap();
    Explored(m, fs, depth, noTriple);
    ghost var before := solution.fullSets;
    ghost var triples := Branch(triple, tripleRest, fs, depth, nextNoTriple);
    ghost var runs := Branch(sequence, sequenceRest, fs, depth, nextNoTriple);
    assert Placed(fs, depth, BitsExplore(CountsOf(m), 5 - depth, noTriple)) == triples + runs;
    Extend(triple, tripleRest, fs, depth, nextNoTriple, solution);
    assert solution.fullSets == before + triples;
    Extend(sequence, sequenceRest, fs, depth, nextNoTriple, solution);
    assert solution.fullSets == (before + triples) + runs;
    SeqAssoc(before, triples, runs);
  }

  lemma SeqAssoc(a: seq<FullSet>, b: seq<FullSet>, c: seq<FullSet>)
    ensures (a + b) + c == a + (b + c)
  {
  }

  /** The full sets of splitTileMap are those of its triple branch, then those of its run branch. */
  lemma Explored(m: TileMap, fs: FullSet, depth: nat, noTriple: bool)
    requires WellFormed(m) && 1 <= depth <= 4
    ensures var t := if noTriple then Extraction(EmptyMap(), EmptyMap()) else SplitWithMask(m, TriplePattern);
      var r := SplitWithMask(m, SequencePattern);
      var flag := noTriple || t.extracted == EmptyMap();
      && (t.extracted != EmptyMap() ==> WellFormed(t.rest))
      && (r.extracted != EmptyMap() ==> WellFormed(r.rest))
      && Placed(fs, depth, BitsExplore(CountsOf(m), 5 - depth, noTriple))
         == Branch(t.extracted, t.rest, fs, depth, flag) + Branch(r.extracted, r.rest, fs, depth, flag)
  {
    TripleBranch(m, fs, depth, noTriple);
    RunBranch(m, fs, depth, noTriple);
    PlacedAppend(fs, depth, BitsTriples(CountsOf(m), 5 - depth, noTriple), BitsRuns(CountsOf(m), 5 - depth, noTriple));
  }

  /**
   * One branch of splitTileMap (the same code for the triple and the run):
   * a found group is put into slot depth, and the full set is added at the
   * last depth or completed from the rest below it.
   */
  method Extend(group: TileMap, rest: TileMap, fs: FullSet, depth: nat, noTriple: bool, solution: Solution)
    requires 1 <= depth <= 4 && (group != EmptyMap() ==> WellFormed(rest))
    modifies solution
    ensures solution.fullSets == old(solution.fullSets) + Branch(group, rest, fs, depth, noTriple)
    decreases 5 - depth, 0
  {
    if group != EmptyMap() {
      var newFullSet := fs[depth := TileSet(group, false)];
      if depth == 4 {
        solution.Add(newFullSet);
      } else {
        var next := depth + 1;
        assert 5 - next == 4 - depth;
        SplitTileMap(rest, newFullSet, next, noTriple, solution);
      }
    }
  }

  /** The full sets of the triple branch of splitTileMap, from what its triple search finds. */
  lemma TripleBranch(m: TileMap, fs: FullSet, depth: nat, noTriple: bool)
    requires WellFormed(m) && 1 <= depth <= 4
    ensures var e := if noTriple then Extraction(EmptyMap(), EmptyMap()) else SplitWithMask(m, TriplePattern);
      && (e.extracted != EmptyMap() ==> WellFormed(e.rest))
      && Placed(fs, depth, BitsTriples(CountsOf(m), 5 - depth, noTriple)) == Branch(e.extracted, e.rest, fs, depth, false)
  {
    var c := CountsOf(m);
    TripleFound(m, noTriple);
    if !noTriple && CountTilesSearch.FirstTriple(c, TileMin).Some? {
      var t := CountTilesSearch.FirstTriple(c, TileMin).value;
      PlacedCons(fs, depth, Triple(t), BitsExplore(Take(c, Triple(t)), 4 - depth, false));
    }
  }

  /** The full sets of the run branch of splitTileMap, from what its run search finds. */
  lemma RunBranch(m: TileMap, fs: FullSet, depth: nat, noTriple: bool)
    requires WellFormed(m) && 1 <= depth <= 4
    ensures var e := SplitWithMask(m, SequencePattern);
      var triple := if noTriple then EmptyMap() else SplitWithMask(m, TriplePattern).extracted;
      && (e.extracted != EmptyMap() ==> WellFormed(e.rest))
      && Placed(fs, depth, BitsRuns(CountsOf(m), 5 - depth, noTriple))
         == Branch(e.extracted, e.rest, fs, depth, noTriple || triple == EmptyMap())
  {
    var c := CountsOf(m);
    TripleFound(m, noTriple);
    RunFound(m);
    if CountTilesSearch.FirstRun(c, TileMin).Some? {
      var t := CountTilesSearch.FirstRun(c, TileMin).value;
      var flag := noTriple || CountTilesSearch.FirstTriple(c, TileMin).None?;
      PlacedCons(fs, depth, Run(t), BitsExplore(Take(c, Run(t)), 4 - depth, flag));
    }
  }

  /** What the triple search of splitTileMap finds, in the terms of BitsTriples. */
  lemma TripleFound(m: TileMap, noTriple: bool)
    requires WellFormed(m)
    ensures var e := SplitWithMask(m, TriplePattern);
      && (!noTriple && e.extracted != EmptyMap() <==> !noTriple && CountTilesSearch.FirstTriple(CountsOf(m), TileMin).Some?)
      && (CountTilesSearch.FirstTriple(CountsOf(m), TileMin).Some? ==>
           var t := CountTilesSearch.FirstTriple(CountsOf(m), TileMin).value;
           && e.extracted == GroupMap(Triple(t)) && WellFormed(e.rest) && CountsOf(e.rest) == Take(CountsOf(m), Triple(t)))
  {
    var c := CountsOf(m);
    if CountTilesSearch.FirstTriple(c, TileMin).Some? {
      GroupMapWellFormed(Triple(CountTilesSearch.FirstTriple(c, TileMin).value));
    }
  }

  /** What the run search of splitTileMap finds, in the terms of BitsRuns. */
  lemma RunFound(m: TileMap)
    requires WellFormed(m)
    ensures var e := SplitWithMask(m, SequencePattern);
      && (e.extracted != EmptyMap() <==> CountTilesSearch.FirstRun(CountsOf(m), TileMin).Some?)
      && (CountTilesSearch.FirstRun(CountsOf(m), TileMin).Some? ==>
           var t := CountTilesSearch.FirstRun(CountsOf(m), TileMin).value;
           && e.extracted == GroupMap(Run(t)) && WellFormed(e.rest) && CountsOf(e.rest) == Take(CountsOf(m), Run(t)))
  {
    var c := CountsOf(m);
    if CountTilesSearch.FirstRun(c, TileMin).Some? {
      GroupMapWellFormed(Run(CountTilesSearch.FirstRun(c, TileMin).value));
    }
  }

  // ---------------------------------------------------------------------
  // The answers (keyArray and stringArray)

  /** A key pushed unless it is already present: the find_if test of TileFullSet::Filter. */
  function Push(keys: seq<nat>, k: nat): seq<nat> {
    if k in keys then keys else keys + [k]
  }

  /** The keys after each of ks has been pushed in turn. */
  function Merged(keys: seq<nat>, ks: seq<nat>): seq<nat> {
    if ks == [] then keys else Push(Merged(keys, ks[..|ks| - 1]), ks[|ks| - 1])
  }

  predicate Distinct(s: seq<nat>) {
    forall i, j :: 0 <= i < j < |s| ==> s[i] != s[j]
  }

  /**
   * Merging keeps the keys already there, in front, adds exactly the new
   * ones, and never repeats a key.
   */
  lemma {:induction false} MergedFacts(keys: seq<nat>, ks: seq<nat>)
    ensures |keys| <= |Merged(keys, ks)| && Merged(keys, ks)[..|keys|] == keys
    ensures forall x :: x in Merged(keys, ks) <==> x in keys || x in ks
    ensures Distinct(keys) ==> Distinct(Merged(keys, ks))
  {
    if ks != [] {
      var init := ks[..|ks| - 1];
      MergedFacts(keys, init);
      var r := Merged(keys, init);
      assert Merged(keys, ks) == Push(r, ks[|ks| - 1]);
      assert ks == init + [ks[|ks| - 1]];
      forall x ensures x in Merged(keys, ks) <==> x in keys || x in ks {
        assert x in ks <==> x in init || x == ks[|ks| - 1];
      }
      if ks[|ks| - 1] !in r {
        assert (r + [ks[|ks| - 1]])[..|keys|] == r[..|keys|];
      }
    }
  }

  /** Merging a concatenation merges its parts in turn. */
  lemma {:induction false} MergedAppend(keys: seq<nat>, a: seq<nat>, b: seq<nat>)
    ensures Merged(keys, a + b) == Merged(Merged(keys, a), b)
  {
    if b == [] {
      assert a + b == a;
    } else {
      var init := b[..|b| - 1];
      MergedAppend(keys, a, init);
      assert (a + b)[..|a + b| - 1] == a + init;
    }
  }

  /** The sequences of keys concatenated in order. */
  function Flat(ss: seq<seq<nat>>): seq<nat> {
    if ss == [] then [] else Flat(ss[..|ss| - 1]) + ss[|ss| - 1]
  }

  /** One more sequence of keys is appended to the concatenation. */
  lemma FlatStep(ss: seq<seq<nat>>, i: nat)
    requires i < |ss|
    ensures Flat(ss[..i + 1]) == Flat(ss[..i]) + ss[i]
  {
    assert ss[..i + 1][..i] == ss[..i];
  }

  /** A key is in the concatenation exactly when it is in one of the sequences. */
  lemma {:induction false} InFlat(ss: seq<seq<nat>>, k: nat)
    ensures k in Flat(ss) <==> exists i :: 0 <= i < |ss| && k in ss[i]
  {
    if ss != [] {
      var init := ss[..|ss| - 1];
      InFlat(init, k);
      if k in Flat(init) {
        var i :| 0 <= i < |init| && k in init[i];
        assert ss[i] == init[i];
      }
      if i :| 0 <= i < |ss| && k in ss[i] {
        if i < |init| {
          assert ss[i] == init[i];
        }
      }
    }
  }

  /** keyArray and stringArray of findAll: each line is the printed form of its key. */
  class Answers {
    var keys: seq<nat>
    var lines: seq<string>

    ghost predicate Valid()
      reads this
    {
      |lines| == |keys| && forall i {:trigger lines[i]} :: 0 <= i < |keys| ==> lines[i] == ResultLine(keys[i])
    }

    constructor()
      ensures keys == [] && lines == [] && Valid()
    {
      keys := [];
      lines := [];
    }

    /** A new key and its printed line, pushed together (keyArray and stringArray). */
    method Append(key: nat, line: string)
      requires Valid() && line == ResultLine(key)
      modifies this
      ensures Valid() && keys == old(keys) + [key] && lines == old(lines) + [line]
    {
      keys := keys + [key];
      lines := lines + [line];
    }
  }

  // ---------------------------------------------------------------------
  // The full sets of a pair and four triples or runs

  /** A list of four triples or runs, as splitTileMap completes them. */
  ghost predicate Four(l: seq<Group>) {
    |l| == 4 && CountTilesSearch.AllValid(l)
  }

  ghost predicate AllFour(ls: seq<seq<Group>>) {
    forall q :: 0 <= q < |ls| ==> Four(ls[q])
  }

  /** The groups of a full set, the pair in slot 0. */
  function GroupsOf(p: int, l: seq<Group>): seq<Group> {
    [Pair(p)] + l
  }

  /** The full set of a pair and a list of four groups. */
  function FullSetOf(p: int, l: seq<Group>): (fs: FullSet)
    requires |l| == 4
    ensures forall i :: 0 <= i < 5 ==> fs[i] == Closed(GroupsOf(p, l)[i])
  {
    [Closed(Pair(p)), Closed(l[0]), Closed(l[1]), Closed(l[2]), Closed(l[3])]
  }

  /** Filling slots 1..4 of the pair's full set gives the full set of the pair and the list. */
  lemma FillFour(p: int, l: seq<Group>)
    requires IsTile(p) && |l| == 4
    ensures Fill(PairSet(p), 1, l) == FullSetOf(p, l)
  {
    var fs := PairSet(p);
    var fs1 := fs[1 := Closed(l[0])];
    var fs2 := fs1[2 := Closed(l[1])];
    var fs3 := fs2[3 := Closed(l[2])];
    var fs4 := fs3[4 := Closed(l[3])];
    assert l[1..][1..][1..][1..] == [];
    calc {
      Fill(fs, 1, l);
      Fill(fs1, 2, l[1..]);
      Fill(fs2, 3, l[1..][1..]);
      Fill(fs3, 4, l[1..][1..][1..]);
      Fill(fs4, 5, l[1..][1..][1..][1..]);
    }
  }

  /** The full sets splitTileMap completes for a pair are those of the pair and each completed list. */
  lemma PlacedFour(p: int, ls: seq<seq<Group>>, q: nat)
    requires IsTile(p) && AllFour(ls) && q < |ls|
    ensures Placed(PairSet(p), 1, ls)[q] == FullSetOf(p, ls[q])
  {
    PlacedAt(PairSet(p), 1, ls, q);
    FillFour(p, ls[q]);
  }

  /** Every list the search completes for four groups is a split of (a part of) the table. */
  lemma ExploredSound(c: Counts, q: nat)
    requires q < |BitsExplore(c, 4, false)|
    ensures SoundSplit(c, 4, BitsExplore(c, 4, false)[q])
  {
    PruneSound(c, 4, false);
    SplitsSound(c, 4, BitsExplore(c, 4, false)[q]);
  }

  /** Every list the search completes for four groups is a list of four triples or runs. */
  lemma ExploredFour(c: Counts)
    ensures AllFour(BitsExplore(c, 4, false))
  {
    var ls := BitsExplore(c, 4, false);
    PruneSound(c, 4, false);
    forall q | 0 <= q < |ls| ensures Four(ls[q]) {
      SplitsSound(c, 4, ls[q]);
    }
  }

  // ---------------------------------------------------------------------
  // Opening the groups of a full set (TileFullSet::Filter)

  /** Slot i with one copy of extra taken out, marked open. */
  function Opened(fs: FullSet, i: nat, extra: int): FullSet
    requires i < 5 && IsTile(extra)
  {
    fs[i := TileSet(RemoveOne(fs[i].tileMap, extra), true)]
  }

  /** A closed group keeps a tile whichever tile is taken out of it. */
  lemma ClosedKeeps(g: Group, x: int)
    requires ValidGroup(g) && IsTile(x)
    ensures GroupMap(g) != EmptyMap() && RemoveOne(GroupMap(g), x) != EmptyMap()
  {
    GroupMapWellFormed(g);
    var t := g.tile;
    var r := RemoveOne(GroupMap(g), x);
    if x != t {
      assert r[t] == GroupMap(g)[t] != 0;
    } else if g.Run? {
      assert r[t + 1] == 1;
    } else {
      assert r[t] != 0;
    }
  }

  /** Taking a tile out of a group's map changes it exactly when the group holds that tile. */
  lemma OpensMember(g: Group, x: int)
    requires ValidGroup(g) && IsTile(x)
    ensures RemoveOne(GroupMap(g), x) != GroupMap(g) <==> IsMember(g, x)
  {
    GroupMapWellFormed(g);
    RemoveOneCounts(GroupMap(g), x);
    GroupMapCount(g, x);
    BagCount(CountsOf(GroupMap(g)), x);
  }

  /** The full set of a waiting form, slot j opened, is one GetKey accepts. */
  lemma FormShape(p: int, l: seq<Group>, j: nat, extra: int)
    requires IsTile(p) && Four(l) && j < 5 && IsTile(extra)
    ensures var s := Opened(FullSetOf(p, l), j, extra);
      && Filled(s) && OneOpen(s) && OpenKeyOf(s) == GroupKey(s[j])
      && (forall i :: 0 <= i < 5 ==> (s[i].open <==> i == j))
  {
    var gs := GroupsOf(p, l);
    var s := Opened(FullSetOf(p, l), j, extra);
    forall i | 0 <= i < 5 ensures s[i].tileMap != EmptyMap() && (s[i].open <==> i == j) {
      assert ValidGroup(gs[i]);
      ClosedKeeps(gs[i], extra);
    }
    OneOpenAt(s, j);
  }

  /** With slot i the only open one, the other slots give the closed keys and slot i the open key. */
  lemma {:induction false} OneOpenAt(s: seq<TileSet>, i: nat)
    requires Filled(s) && i < |s| && s[i].open && forall j :: 0 <= j < |s| && j != i ==> !s[j].open
    ensures |ClosedKeys(s)| == |s| - 1 && OpenKeyOf(s) == GroupKey(s[i])
  {
    var p := s[..|s| - 1];
    if i < |s| - 1 {
      OneOpenAt(p, i);
    } else {
      AllClosed(p);
    }
  }

  lemma {:induction false} AllClosed(s: seq<TileSet>)
    requires Filled(s) && forall j :: 0 <= j < |s| ==> !s[j].open
    ensures |ClosedKeys(s)| == |s| && OpenKeyOf(s) == 0
  {
    if s != [] {
      AllClosed(s[..|s| - 1]);
    }
  }

  /** The key of a waiting form: the full set of the pair p and the list l, slot j opened for extra. */
  ghost function FormKey(p: int, l: seq<Group>, j: nat, extra: int): nat
    requires IsTile(p) && Four(l) && j < 5 && IsTile(extra)
  {
    FormShape(p, l, j, extra);
    FullKey(Opened(FullSetOf(p, l), j, extra))
  }

  /** The key Filter computes for slot i of a full set: one when its group holds extra, none otherwise. */
  ghost function SlotKeys(p: int, l: seq<Group>, i: nat, extra: int): seq<nat>
    requires IsTile(p) && Four(l) && i < 5 && IsTile(extra)
  {
    if IsMember(GroupsOf(p, l)[i], extra) then [FormKey(p, l, i, extra)] else []
  }

  /** The keys of the five slots of a full set. */
  ghost function SetSlots(p: int, l: seq<Group>, extra: int): (r: seq<seq<nat>>)
    requires IsTile(p) && Four(l) && IsTile(extra)
    ensures |r| == 5
  {
    seq(5, i requires 0 <= i < 5 => SlotKeys(p, l, i, extra))
  }

  /** The keys Filter computes for the full set of the pair p and the list l, in slot order. */
  ghost function SetKeys(p: int, l: seq<Group>, extra: int): seq<nat>
    requires IsTile(p) && Four(l) && IsTile(extra)
  {
    Flat(SetSlots(p, l, extra))
  }

  /**
   * TileFullSet::Filter: every slot holding the extra tile is opened, and
   * the key of each opened full set not yet found is pushed with its line.
   */
  method FilterSet(fs: FullSet, extra: int, answers: Answers, ghost p: int, ghost l: seq<Group>)
    requires IsTile(p) && Four(l) && fs == FullSetOf(p, l) && IsTile(extra) && answers.Valid()
    modifies answers
    ensures answers.Valid() && answers.keys == Merged(old(answers.keys), SetKeys(p, l, extra))
  {
    ghost var keys0 := answers.keys;
    ghost var ss := SetSlots(p, l, extra);
    for i := 0 to 5
      invariant answers.Valid()
      invariant answers.keys == Merged(keys0, Flat(ss[..i]))
    {
      FilterSlot(fs, i, extra, answers, p, l);
      FlatStep(ss, i);
      MergedAppend(keys0, Flat(ss[..i]), ss[i]);
    }
    assert ss[..5] == ss;
  }

  /** One slot of TileFullSet::Filter's loop. */
  method FilterSlot(fs: FullSet, i: nat, extra: int, answers: Answers, ghost p: int, ghost l: seq<Group>)
    requires IsTile(p) && Four(l) && fs == FullSetOf(p, l) && i < 5 && IsTile(extra) && answers.Valid()
    modifies answers
    ensures answers.Valid() && answers.keys == Merged(old(answers.keys), SlotKeys(p, l, i, extra))
  {
    ghost var g := GroupsOf(p, l)[i];
    var oldTileSet := fs[i].tileMap;
    var newTileMap := RemoveOne(oldTileSet, extra);
    assert ValidGroup(g) && oldTileSet == GroupMap(g);
    OpensMember(g, extra);
    if newTileMap != oldTileSet {
      var newFullSet := fs[i := TileSet(newTileMap, true)];
      FormShape(p, l, i, extra);
      var key := GetKey(newFullSet);
      assert SlotKeys(p, l, i, extra) == [key];
      if key !in answers.keys {
        var line := Print(key);
        answers.Append(key, line);
      }
    }
  }

  /** The keys Filter computes for each full set of the pair p and the lists ls. */
  ghost function PairSets(p: int, ls: seq<seq<Group>>, extra: int): (r: seq<seq<nat>>)
    requires IsTile(p) && AllFour(ls) && IsTile(extra)
    ensures |r| == |ls|
  {
    seq(|ls|, q requires 0 <= q < |ls| => SetKeys(p, ls[q], extra))
  }

  // ---------------------------------------------------------------------
  // findWithExtra, findAll and Find

  /** The keys the pair of tile i contributes in findWithExtra (none when the map holds no such pair). */
  ghost function PairKeys(m: TileMap, i: int, extra: int): seq<nat>
    requires WellFormed(m) && IsTile(i) && IsTile(extra)
  {
    if CountsOf(m)[i] < 2 then []
    else
      var c := Take(CountsOf(m), Pair(i));
      ExploredFour(c);
      Flat(PairSets(i, BitsExplore(c, 4, false), extra))
  }

  /** The keys of the pair of each tile, from TileMin to TileMax. */
  ghost function ExtraPairs(m: TileMap, extra: int): (r: seq<seq<nat>>)
    requires WellFormed(m) && IsTile(extra)
    ensures |r| == TileMax - TileMin + 1
  {
    seq(TileMax - TileMin + 1, i requires 0 <= i <= TileMax - TileMin => PairKeys(m, TileMin + i, extra))
  }

  /**
   * findWithExtra: each pair the map holds is put into slot 0, the rest is
   * split by splitTileMap, and the solution is filtered for the extra tile.
   */
  method FindWithExtra(m: TileMap, extra: int, answers: Answers)
    requires WellFormed(m) && IsTile(extra) && answers.Valid()
    modifies answers
    ensures answers.Valid() && answers.keys == Merged(old(answers.keys), Flat(ExtraPairs(m, extra)))
  {
    ghost var keys0 := answers.keys;
    ghost var ss := ExtraPairs(m, extra);
    for i := TileMin to TileMax + 1
      invariant answers.Valid() && answers.keys == Merged(keys0, Flat(ss[..i - TileMin]))
    {
      FindWithPair(m, i, extra, answers);
      FlatStep(ss, i - TileMin);
      MergedAppend(keys0, Flat(ss[..i - TileMin]), ss[i - TileMin]);
    }
    assert ss[..TileMax + 1 - TileMin] == ss;
  }

  /**
   * One step of findWithExtra: the pair of tile i, when the map holds it,
   * in slot 0 of a new full set, the rest split into a new Solution, and
   * the solution filtered.
   */
  method FindWithPair(m: TileMap, i: int, extra: int, answers: Answers)
    requires WellFormed(m) && IsTile(i) && IsTile(extra) && answers.Valid()
    modifies answers
    ensures answers.Valid() && answers.keys == Merged(old(answers.keys), PairKeys(m, i, extra))
  {
    var e := StripPair(m, i);
    if e.extracted == EmptyMap() {
      return;
    }
    var fullSet := [TileSet(e.extracted, false), EmptySlot(), EmptySlot(), EmptySlot(), EmptySlot()];
    ghost var c := Take(CountsOf(m), Pair(i));
    assert fullSet == PairSet(i);
    var solution := new Solution();
    SplitTileMap(e.rest, fullSet, 1, false, solution);
    assert solution.fullSets == Placed(PairSet(i), 1, BitsExplore(c, 4, false));
    ExploredFour(c);
    solution.Filter(extra, answers, i, BitsExplore(c, 4, false));
  }

  /** The keys findWithExtra contributes with the extra tile, when a fifth copy is not needed. */
  ghost function ExtraStep(m: TileMap, extra: int): seq<nat>
    requires WellFormed(m) && IsTile(extra)
  {
    var added := AddTile(m, extra);
    if added == EmptyMap() then [] else Flat(ExtraPairs(added, extra))
  }

  /** The keys of each extra tile, from TileMin to TileMax. */
  ghost function AllSteps(m: TileMap): (r: seq<seq<nat>>)
    requires WellFormed(m)
    ensures |r| == TileMax - TileMin + 1
  {
    seq(TileMax - TileMin + 1, i requires 0 <= i <= TileMax - TileMin => ExtraStep(m, TileMin + i))
  }

  /** Every key findAll computes, in order, repeats included. */
  ghost function AllKeys(m: TileMap): seq<nat>
    requires WellFormed(m)
  {
    Flat(AllSteps(m))
  }

  /**
   * findAll: each tile is tried as the extra tile (skipped when the hand
   * already holds four), collecting the distinct keys and their lines.
   */
  method FindAll(m: TileMap) returns (answers: Answers)
    requires WellFormed(m)
    ensures fresh(answers) && answers.Valid() && answers.keys == Merged([], AllKeys(m))
  {
    answers := new Answers();
    ghost var ss := AllSteps(m);
    for extra := TileMin to TileMax + 1
      invariant answers.Valid() && answers.keys == Merged([], Flat(ss[..extra - TileMin]))
    {
      FlatStep(ss, extra - TileMin);
      MergedAppend([], Flat(ss[..extra - TileMin]), ExtraStep(m, extra));
      var newTileMap := AddTile(m, extra);
      if newTileMap != EmptyMap() {
        FindWithExtra(newTileMap, extra, answers);
      } else {
        assert Flat(ss[..extra - TileMin]) + [] == Flat(ss[..extra - TileMin]);
      }
    }
    assert ss[..TileMax + 1 - TileMin] == ss;
  }

  /** The lines of the keys, concatenated. */
  function Lines(keys: seq<nat>): string {
    if keys == [] then "" else Lines(keys[..|keys| - 1]) + ResultLine(keys[|keys| - 1])
  }

  /** What Puzzle::Find returns for a hand: the lines of its distinct keys, or "(none)". */
  ghost function Output(m: TileMap): string
    requires WellFormed(m)
  {
    var keys := Merged([], AllKeys(m));
    if keys == [] then "(none)\n" else Lines(keys)
  }

  /** A hand to solve. */
  class Puzzle {
    const src: TileMap

    constructor(src: TileMap)
      ensures this.src == src
    {
      this.src := src;
    }

    /** Puzzle::Find: the lines of findAll concatenated, or "(none)" when there are none. */
    method Find() returns (result: string)
      requires WellFormed(src)
      ensures result == Output(src)
    {
      var answers := FindAll(src);
      if |answers.lines| == 0 {
        return "(none)\n";
      }
      result := Join(answers.lines, answers.keys);
    }
  }

  /** The strings of stringArray appended in order. */
  method Join(lines: seq<string>, ghost keys: seq<nat>) returns (result: string)
    requires |lines| == |keys| && forall i {:trigger lines[i]} :: 0 <= i < |keys| ==> lines[i] == ResultLine(keys[i])
    ensures result == Lines(keys)
  {
    result := "";
    for k := 0 to |lines|
      invariant result == Lines(keys[..k])
    {
      assert keys[..k + 1][..k] == keys[..k];
      result := result + lines[k];
    }
    assert keys[..|keys|] == keys;
  }
}
