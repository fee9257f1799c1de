/**
 * The backtracking search of countTiles.cpp: a stack of up to five groups
 * (the pair, then up to four triples or runs) over a shared count table,
 * advanced by SearchNext, undone by Revert, driven by TileFullSet::search,
 * and rendered by ToString once four groups are found.
 */
module CountTilesEngine {
  import opened Tiles
  import opened TileSets
  import opened CountTilesSearch
  import opened CountTilesRender

  /** Groups found after the pair. */
  const MaxNumberOfThreeTiles: nat := 4

  /** What has been tried at one depth of the stack. */
  datatype Status = NotSearched | TripleSearched | SequenceSearched

  function Rank(s: Status): nat {
    match s
    case NotSearched => 2
    case TripleSearched => 1
    case SequenceSearched => 0
  }

  /** One slot of the stack: a group, what has been tried after it, and the least tile left when it was found. */
  datatype TileSetElement = TileSetElement(group: Group, status: Status, minTile: int)

  /** The lines already written for one hand, by composite key. */
  class StrTable {
    var entries: map<nat, string>

    constructor ()
      ensures entries == map[]
    {
      entries := map[];
    }
  }

  // ---------------------------------------------------------------------
  // One step of the state machine

  /** What SearchNext does at a depth: the group it pushes, if any, and the status it leaves. */
  datatype Move = Move(pushed: Option<Group>, status: Status)

  function RunMove(c: Counts, m: int): Move
    requires TileMin <= m
  {
    match FirstRun(c, m)
    case Some(t) => Move(Some(Run(t)), SequenceSearched)
    case None => Move(None, SequenceSearched)
  }

  /** A triple is tried at most once, then a run at most once. */
  function NextMove(c: Counts, m: int, s: Status): (mv: Move)
    requires TileMin <= m
    ensures mv.pushed.Some? ==> Rank(mv.status) < Rank(s)
  {
    match s
    case NotSearched =>
      (match FirstTriple(c, m)
       case Some(t) => Move(Some(Triple(t)), TripleSearched)
       case None => RunMove(c, m))
    case TripleSearched => RunMove(c, m)
    case SequenceSearched => Move(None, SequenceSearched)
  }

  /** The completed lists of k groups already explored at a depth with status s. */
  function Done(c: Counts, m: int, k: nat, s: Status): seq<seq<Group>>
    requires TileMin <= m && k > 0
  {
    match s
    case NotSearched => []
    case TripleSearched => TripleBranch(c, m, k)
    case SequenceSearched => Explore(c, m, k)
  }

  /**
   * A move that pushes a group adds that group's subtree to what is
   * explored; a move that pushes nothing means everything is explored.
   */
  lemma MoveAdvances(c: Counts, m: int, k: nat, s: Status)
    requires TileMin <= m && k > 0
    ensures var mv := NextMove(c, m, s);
      && (mv.pushed.Some? ==>
            var g := mv.pushed.value;
            && ValidGroup(g) && !g.Pair? && Holds(c, g) && m <= g.tile
            && Done(c, m, k, mv.status) == Done(c, m, k, s) + ConsAll(g, Explore(Take(c, g), g.tile, k - 1)))
      && (mv.pushed.None? ==> Done(c, m, k, s) == Explore(c, m, k))
  {
    match s
    case NotSearched =>
      if FirstTriple(c, m).Some? {
        TripleFirst(c, m, k);
      } else {
        assert TripleBranch(c, m, k) == [];
        RunAfter(c, m, k);
      }
    case TripleSearched =>
      RunAfter(c, m, k);
    case SequenceSearched =>
  }

  /** From a fresh depth with a triple available: the triple is pushed and its subtree explored. */
  lemma TripleFirst(c: Counts, m: int, k: nat)
    requires TileMin <= m && k > 0 && FirstTriple(c, m).Some?
    ensures var g := Triple(FirstTriple(c, m).value);
      && NextMove(c, m, NotSearched) == Move(Some(g), TripleSearched)
      && ValidGroup(g) && Holds(c, g) && m <= g.tile
      && Done(c, m, k, TripleSearched) == Done(c, m, k, NotSearched) + ConsAll(g, Explore(Take(c, g), g.tile, k - 1))
  {
    var g := Triple(FirstTriple(c, m).value);
    assert Done(c, m, k, NotSearched) == [];
    assert Done(c, m, k, TripleSearched) == ConsAll(g, Explore(Take(c, g), g.tile, k - 1));
  }

  /** Once the triple branch is done, the run (if any) is the rest of what is explored. */
  lemma RunAfter(c: Counts, m: int, k: nat)
    requires TileMin <= m && k > 0
    ensures Explore(c, m, k) == TripleBranch(c, m, k) + RunBranch(c, m, k)
    ensures FirstRun(c, m).None? ==> RunBranch(c, m, k) == []
    ensures FirstRun(c, m).Some? ==> var g := Run(FirstRun(c, m).value);
      && ValidGroup(g) && Holds(c, g) && m <= g.tile
      && RunBranch(c, m, k) == ConsAll(g, Explore(Take(c, g), g.tile, k - 1))
  {
  }

  lemma ConsAllValid(g: Group, leaves: seq<seq<Group>>)
    requires ValidGroup(g) && AllGroupsValid(leaves)
    ensures AllGroupsValid(ConsAll(g, leaves))
  {
    forall l | l in ConsAll(g, leaves) ensures ValidGroups(l) {
      ConsAllMember(g, leaves, l);
      forall j | 0 <= j < |l| ensures ValidGroup(l[j]) {
        if j > 0 {
          assert l[j] == l[1..][j - 1];
        }
      }
    }
  }

  /** Rendering the lists with g in front is rendering them after a prefix ending in g. */
  lemma {:induction false} RenderLeavesCons(prefix: seq<Group>, g: Group, leaves: seq<seq<Group>>,
                                            extra: int, table: map<nat, string>)
    requires ValidGroups(prefix) && ValidGroup(g) && AllGroupsValid(leaves) && IsTile(extra)
    ensures ValidGroups(prefix + [g]) && AllGroupsValid(ConsAll(g, leaves))
    ensures RenderLeaves(prefix, ConsAll(g, leaves), extra, table) == RenderLeaves(prefix + [g], leaves, extra, table)
  {
    ValidAppend(prefix, [g]);
    ConsAllValid(g, leaves);
    if leaves != [] {
      ConsAllValid(g, leaves[1..]);
      assert ConsAll(g, leaves)[1..] == ConsAll(g, leaves[1..]);
      assert prefix + ConsAll(g, leaves)[0] == (prefix + [g]) + leaves[0];
      ValidAppend(prefix + [g], leaves[0]);
      var r := RenderFrom(prefix + ConsAll(g, leaves)[0], extra, 0, table);
      RenderLeavesCons(prefix, g, leaves[1..], extra, r.table);
    }
  }

  lemma {:induction false} ExploreValid(c: Counts, m: int, k: nat)
    requires TileMin <= m
    ensures AllGroupsValid(Explore(c, m, k))
  {
    forall l | l in Explore(c, m, k) ensures ValidGroups(l) {
      ExploreSound(c, m, k, l);
    }
  }

  /** Every list already explored at a depth is one Explore lists. */
  lemma DoneValid(c: Counts, m: int, k: nat, s: Status)
    requires TileMin <= m && k > 0
    ensures AllGroupsValid(Done(c, m, k, s))
  {
    ExploreValid(c, m, k);
    assert Explore(c, m, k) == TripleBranch(c, m, k) + RunBranch(c, m, k);
  }

  /** The rendering of every completion of the prefix from table c. */
  function Outcome(prefix: seq<Group>, c: Counts, m: int, k: nat, extra: int, table: map<nat, string>): Rendered
    requires ValidGroups(prefix) && TileMin <= m && IsTile(extra)
  {
    ExploreValid(c, m, k);
    RenderLeaves(prefix, Explore(c, m, k), extra, table)
  }

  /** The rendering of the completions already explored at a depth. */
  function Partial(prefix: seq<Group>, c: Counts, m: int, k: nat, s: Status, extra: int, table: map<nat, string>): Rendered
    requires ValidGroups(prefix) && TileMin <= m && k > 0 && IsTile(extra)
  {
    DoneValid(c, m, k, s);
    RenderLeaves(prefix, Done(c, m, k, s), extra, table)
  }

  /** With no group left to find, the only completion is the prefix itself. */
  lemma OutcomeComplete(prefix: seq<Group>, c: Counts, m: int, extra: int, table: map<nat, string>)
    requires ValidGroups(prefix) && TileMin <= m && IsTile(extra)
    ensures Outcome(prefix, c, m, 0, extra, table) == RenderFrom(prefix, extra, 0, table)
  {
    var leaves: seq<seq<Group>> := [[]];
    assert Explore(c, m, 0) == leaves;
    assert prefix + leaves[0] == prefix && leaves[1..] == [];
    var r := RenderFrom(prefix, extra, 0, table);
    assert RenderLeaves(prefix, leaves, extra, table) == Rendered(r.lines + [], r.table);
    assert r.lines + [] == r.lines;
  }

  /** Nothing is explored before the first move. */
  lemma PartialStart(prefix: seq<Group>, c: Counts, m: int, k: nat, extra: int, table: map<nat, string>)
    requires ValidGroups(prefix) && TileMin <= m && k > 0 && IsTile(extra)
    ensures Partial(prefix, c, m, k, NotSearched, extra, table) == Rendered([], table)
  {
  }

  /** A move that pushes nothing leaves everything explored. */
  lemma PartialEnd(prefix: seq<Group>, c: Counts, m: int, k: nat, s: Status, extra: int, table: map<nat, string>)
    requires ValidGroups(prefix) && TileMin <= m && k > 0 && IsTile(extra)
    requires NextMove(c, m, s).pushed.None?
    ensures Partial(prefix, c, m, k, s, extra, table) == Outcome(prefix, c, m, k, extra, table)
  {
    MoveAdvances(c, m, k, s);
  }

  /** A move that pushes g adds the rendering of every completion after g. */
  lemma PartialStep(prefix: seq<Group>, c: Counts, m: int, k: nat, s: Status, extra: int, table: map<nat, string>)
    requires ValidGroups(prefix) && TileMin <= m && k > 0 && IsTile(extra)
    requires NextMove(c, m, s).pushed.Some?
    ensures var mv := NextMove(c, m, s);
      var g := mv.pushed.value;
      && ValidGroup(g) && !g.Pair? && Holds(c, g) && m <= g.tile
      && ValidGroups(prefix + [g])
      && var before := Partial(prefix, c, m, k, s, extra, table);
         var after := Outcome(prefix + [g], Take(c, g), g.tile, k - 1, extra, before.table);
         Partial(prefix, c, m, k, mv.status, extra, table) == Rendered(before.lines + after.lines, after.table)
  {
    var mv := NextMove(c, m, s);
    var g := mv.pushed.value;
    MoveAdvances(c, m, k, s);
    PartialLeaves(prefix, c, m, k, s, mv.status, g, extra, table,
                  Done(c, m, k, s), Done(c, m, k, mv.status), Explore(Take(c, g), g.tile, k - 1));
  }

  /** The rendering after a status whose leaves are those of s followed by g's subtree, with the leaves named. */
  lemma PartialLeaves(prefix: seq<Group>, c: Counts, m: int, k: nat, s: Status, s': Status, g: Group,
                      extra: int, table: map<nat, string>, d: seq<seq<Group>>, d': seq<seq<Group>>, sub: seq<seq<Group>>)
    requires ValidGroups(prefix) && TileMin <= m && k > 0 && IsTile(extra)
    requires ValidGroup(g) && !g.Pair? && Holds(c, g) && m <= g.tile
    requires d == Done(c, m, k, s) && d' == Done(c, m, k, s') && sub == Explore(Take(c, g), g.tile, k - 1)
    requires d' == d + ConsAll(g, sub)
    ensures ValidGroups(prefix + [g])
    ensures var before := Partial(prefix, c, m, k, s, extra, table);
      var after := Outcome(prefix + [g], Take(c, g), g.tile, k - 1, extra, before.table);
      Partial(prefix, c, m, k, s', extra, table) == Rendered(before.lines + after.lines, after.table)
  {
    LeavesValid(c, m, k, s, g, d, sub);
    LeavesThenSubtree(prefix, d, g, sub, extra, table);
  }

  /** The leaves PartialLeaves names are lists of valid groups. */
  lemma LeavesValid(c: Counts, m: int, k: nat, s: Status, g: Group, d: seq<seq<Group>>, sub: seq<seq<Group>>)
    requires TileMin <= m && k > 0 && ValidGroup(g) && Holds(c, g)
    requires d == Done(c, m, k, s) && sub == Explore(Take(c, g), g.tile, k - 1)
    ensures AllGroupsValid(d) && AllGroupsValid(sub)
  {
    DoneValid(c, m, k, s);
    ExploreValid(Take(c, g), g.tile, k - 1);
  }

  /** Rendering explored leaves and then g's subtree, in the form PartialStep states it. */
  lemma LeavesThenSubtree(prefix: seq<Group>, d: seq<seq<Group>>, g: Group, sub: seq<seq<Group>>,
                          extra: int, table: map<nat, string>)
    requires ValidGroups(prefix) && ValidGroup(g) && AllGroupsValid(d) && AllGroupsValid(sub) && IsTile(extra)
    ensures ValidGroups(prefix + [g]) && AllGroupsValid(d + ConsAll(g, sub))
    ensures var before := RenderLeaves(prefix, d, extra, table);
      var after := RenderLeaves(prefix + [g], sub, extra, before.table);
      RenderLeaves(prefix, d + ConsAll(g, sub), extra, table) == Rendered(before.lines + after.lines, after.table)
  {
    var before := RenderLeaves(prefix, d, extra, table);
    RenderLeavesCons(prefix, g, sub, extra, before.table);
    RenderLeavesAppend(prefix, d, ConsAll(g, sub), extra, table);
  }

  // ---------------------------------------------------------------------
  // Giving a group's tiles back

  /** The table with one more copy of each tile of ts. */
  function PushedBack(c: Counts, ts: seq<int>): Counts
    requires forall j :: 0 <= j < |ts| ==> 0 <= ts[j] <= TileMax
  {
    if ts == [] then c
    else
      var p := PushedBack(c, ts[..|ts| - 1]);
      p[ts[|ts| - 1] := p[ts[|ts| - 1]] + 1]
  }

  /** Pushes the three tiles of a triple or run back one at a time. */
  method ReturnToTable(g: Group, table: KeyTileSetTable)
    requires ValidGroup(g) && !g.Pair?
    modifies table
    ensures Holds(table.current, g) && Take(table.current, g) == old(table.current)
  {
    var tiles := TilesOf(g);
    var j := 0;
    while j < |tiles|
      invariant 0 <= j <= |tiles|
      invariant table.current == PushedBack(old(table.current), tiles[..j])
    {
      table.PushTiles(tiles[j], 1);
      assert tiles[..j + 1][..j] == tiles[..j];
      j := j + 1;
    }
    assert tiles[..j] == tiles;
    PushedBackThree(old(table.current), g);
  }

  lemma PushedBackThree(c: Counts, g: Group)
    requires ValidGroup(g) && !g.Pair?
    ensures Holds(PushedBack(c, TilesOf(g)), g) && Take(PushedBack(c, TilesOf(g)), g) == c
  {
    var ts := TilesOf(g);
    assert ts[..2] == ts[..3][..2] && ts[..1] == ts[..2][..1] && ts[..0] == ts[..1][..0];
    var p1 := c[ts[0] := c[ts[0]] + 1];
    assert PushedBack(c, ts[..1]) == p1;
    var p2 := p1[ts[1] := p1[ts[1]] + 1];
    assert PushedBack(c, ts[..2]) == p2;
    var p3 := p2[ts[2] := p2[ts[2]] + 1];
    assert PushedBack(c, ts) == p3;
    forall u | 0 <= u < |c| ensures Take(p3, g)[u] == c[u] {
    }
  }

  /** Takes a triple's tiles out at once, a run's one tile at a time. */
  method TakeOut(g: Group, table: KeyTileSetTable)
    requires ValidGroup(g) && !g.Pair? && Holds(table.current, g)
    modifies table
    ensures table.current == Take(old(table.current), g)
  {
    var tile := g.tile;
    if g.Triple? {
      table.PopTiles(tile, 3);
    } else {
      table.PopTiles(tile, 1);
      table.PopTiles(tile + 1, 1);
      table.PopTiles(tile + 2, 1);
    }
  }

  lemma MinTileHeld(c: Counts, t: int)
    requires IsTile(t) && c[t] > 0
    ensures MinTile(c, t) == t
  {
    assert FirstHeld(c, t) == Some(t);
  }

  /** Taking the same group out of two tables that hold it leaves them equal only if they were. */
  lemma TakeInjective(x: Counts, y: Counts, g: Group)
    requires ValidGroup(g) && Holds(x, g) && Holds(y, g) && Take(x, g) == Take(y, g)
    ensures x == y
  {
    forall u | 0 <= u < |x| ensures x[u] == y[u] {
      assert Take(x, g)[u] == Take(y, g)[u];
    }
  }

  // ---------------------------------------------------------------------
  // The stack of groups

  /**
   * gs[0] is the pair; each later group is a triple or run held by the
   * table cs[d - 1] left before it, starts no lower than the least tile
   * ms[d - 1] noted before it, and leaves cs[d]; ms[d] is its start tile.
   */
  ghost predicate StackOk(gs: seq<Group>, cs: seq<Counts>, ms: seq<int>) {
    && |gs| > 0 && |cs| == |gs| && |ms| == |gs|
    && gs[0].Pair? && IsTile(gs[0].tile) && TileMin <= ms[0] <= TileMax
    && forall d {:trigger gs[d]} :: 1 <= d < |gs| ==>
         && ValidGroup(gs[d]) && !gs[d].Pair? && ms[d] == gs[d].tile && ms[d - 1] <= gs[d].tile
         && Holds(cs[d - 1], gs[d]) && cs[d] == Take(cs[d - 1], gs[d])
  }

  lemma StackPush(gs: seq<Group>, cs: seq<Counts>, ms: seq<int>, g: Group)
    requires StackOk(gs, cs, ms) && ValidGroup(g) && !g.Pair?
    requires ms[|ms| - 1] <= g.tile && Holds(cs[|cs| - 1], g)
    ensures StackOk(gs + [g], cs + [Take(cs[|cs| - 1], g)], ms + [g.tile])
  {
  }

  lemma StackPop(gs: seq<Group>, cs: seq<Counts>, ms: seq<int>)
    requires StackOk(gs, cs, ms) && |gs| > 1
    ensures StackOk(gs[..|gs| - 1], cs[..|cs| - 1], ms[..|ms| - 1])
  {
  }

  lemma StackGroupsValid(gs: seq<Group>, cs: seq<Counts>, ms: seq<int>)
    requires StackOk(gs, cs, ms)
    ensures ValidGroups(gs)
  {
  }

  class TilesWithPair {
    const extra: int
    const pair: int
    const table: KeyTileSetTable
    const local: StrTable
    /** Slot 0 holds the pair, slots 1..depth the triples and runs found. */
    const slots: array<TileSetElement>
    var depth: nat
    /** The groups in slots 0..depth. */
    ghost var groups: seq<Group>
    /** The table after taking the groups of slots 0..d out. */
    ghost var counts: seq<Counts>
    /** The least tiles noted in slots 0..depth. */
    ghost var mins: seq<int>

    ghost predicate Valid()
      reads this, slots, table
    {
      && slots.Length == MaxNumberOfThreeTiles + 1
      && depth <= MaxNumberOfThreeTiles
      && IsTile(extra) && IsTile(pair)
      && |groups| == depth + 1 && StackOk(groups, counts, mins) && groups[0] == Pair(pair)
      && table.current == counts[depth]
      && forall d :: 0 <= d <= depth ==> slots[d].group == groups[d] && slots[d].minTile == mins[d]
    }

    /** Takes the pair out of the table; the least tile held is noted first. */
    constructor (extraTile: int, pairTile: int, t: KeyTileSetTable, l: StrTable)
      requires IsTile(extraTile) && IsTile(pairTile) && t.current[pairTile] >= 2
      modifies t
      ensures Valid() && depth == 0 && fresh(slots)
      ensures extra == extraTile && pair == pairTile && table == t && local == l
      ensures slots[0] == TileSetElement(Pair(pairTile), NotSearched, MinTile(old(t.current), TileMin))
      ensures t.current == Take(old(t.current), Pair(pairTile))
      ensures groups == [Pair(pairTile)] && counts == [t.current] && mins == [slots[0].minTile]
    {
      extra := extraTile;
      pair := pairTile;
      table := t;
      local := l;
      var m := t.GetMinTile(TileMin);
      assert m <= TileMax by {
        assert FirstHeld(t.current, TileMin).Some? ==> FirstHeld(t.current, TileMin).value <= TileMax;
      }
      var e := TileSetElement(Pair(pairTile), NotSearched, m);
      slots := new TileSetElement[MaxNumberOfThreeTiles + 1](_ => e);
      depth := 0;
      groups := [Pair(pairTile)];
      mins := [m];
      new;
      t.PopTiles(pairTile, 2);
      counts := [t.current];
    }

    /** Gives the pair back once the search is over. */
    method Release()
      requires Valid() && depth == 0
      modifies table
      ensures table.current == old(table.current)[pair := old(table.current)[pair] + 2]
      ensures Holds(table.current, Pair(pair)) && Take(table.current, Pair(pair)) == old(table.current)
    {
      table.PushTiles(pair, 2);
    }
  
    lemma TopFacts()
      requires Valid()
      ensures ValidGroups(groups) && TileMin <= slots[depth].minTile <= TileMax
    {
      StackGroupsValid(groups, counts, mins);
      if depth > 0 {
        assert ValidGroup(groups[depth]);
      }
    }

    predicate IsComplete()
      reads this
    {
      depth >= MaxNumberOfThreeTiles
    }

    /**
     * Stores g in the next slot, with the least tile left noted before it
     * is taken, and takes its tiles out of the table: a triple at once, a
     * run one tile at a time.
     */
    method Push(g: Group)
      requires Valid() && depth < MaxNumberOfThreeTiles
      requires ValidGroup(g) && !g.Pair? && slots[depth].minTile <= g.tile && Holds(table.current, g)
      modifies this, slots, table
      ensures Valid() && depth == old(depth) + 1
      ensures groups == old(groups) + [g] && counts == old(counts) + [table.current] && mins == old(mins) + [g.tile]
      ensures forall d :: 0 <= d < depth ==> slots[d] == old(slots[d])
      ensures slots[depth] == TileSetElement(g, NotSearched, g.tile)
      ensures table.current == Take(old(table.current), g)
    {
      ghost var c := table.current;
      ghost var before := slots[..];
      var tile := g.tile;
      depth := depth + 1;
      var minTile := table.GetMinTile(tile);
      MinTileHeld(c, tile);
      slots[depth] := TileSetElement(g, NotSearched, minTile);
      TakeOut(g, table);
      StackPush(groups, counts, mins, g);
      groups := groups + [g];
      counts := counts + [table.current];
      mins := mins + [tile];
      forall d | 0 <= d <= depth ensures slots[d].group == groups[d] && slots[d].minTile == mins[d] {
        if d < depth {
          assert slots[d] == before[d] && groups[d] == old(groups)[d] && mins[d] == old(mins)[d];
        }
      }
    }

    /**
     * Pushes a triple of the first tile from the current slot's least tile
     * on that the table holds three of, if there is one.
     */
    method SearchTriple() returns (found: bool)
      requires Valid() && depth < MaxNumberOfThreeTiles
      modifies this, slots, table
      ensures Valid() && old(counts) <= counts && old(mins) <= mins
      ensures forall d :: 0 <= d <= old(depth) ==> slots[d] == old(slots[d])
      ensures match FirstTriple(old(table.current), old(slots[depth].minTile))
        case Some(t) =>
          && found && depth == old(depth) + 1 && groups == old(groups) + [Triple(t)]
          && slots[depth] == TileSetElement(Triple(t), NotSearched, t)
          && table.current == Take(old(table.current), Triple(t))
        case None =>
          !found && depth == old(depth) && groups == old(groups) && table.current == old(table.current)
    {
      ghost var c := table.current;
      var m := slots[depth].minTile;
      var tile := m;
      found := false;
      while tile <= TileMax
        invariant m <= tile <= TileMax + 1
        invariant FirstTriple(c, m) == FirstTriple(c, tile)
        invariant !found && unchanged(this, slots, table)
      {
        var n := table.GetRemainingSize(tile);
        if n >= 3 {
          Push(Triple(tile));
          found := true;
          break;
        }
        tile := tile + 1;
      }
    }

    /**
     * Pushes the run starting at the first tile from the current slot's
     * least tile on that starts a run the table holds, if there is one.
     */
    method SearchSequenceThree() returns (found: bool)
      requires Valid() && depth < MaxNumberOfThreeTiles
      modifies this, slots, table
      ensures Valid() && old(counts) <= counts && old(mins) <= mins
      ensures forall d :: 0 <= d <= old(depth) ==> slots[d] == old(slots[d])
      ensures match FirstRun(old(table.current), old(slots[depth].minTile))
        case Some(t) =>
          && found && depth == old(depth) + 1 && groups == old(groups) + [Run(t)]
          && slots[depth] == TileSetElement(Run(t), NotSearched, t)
          && table.current == Take(old(table.current), Run(t))
        case None =>
          !found && depth == old(depth) && groups == old(groups) && table.current == old(table.current)
    {
      var first := FindRun(slots[depth].minTile);
      found := false;
      if first.Some? {
        Push(Run(first.value));
        found := true;
      }
    }

    /** The loop of searchSequenceThree: the first tile from m on that starts a run the table holds. */
    method FindRun(m: int) returns (first: Option<int>)
      requires TileMin <= m <= TileMax + 1
      ensures first == FirstRun(table.current, m)
    {
      var tile := m;
      while tile <= TileMax
        invariant m <= tile <= TileMax + 1
        invariant FirstRun(table.current, m) == FirstRun(table.current, tile)
      {
        if tile <= TileMax - 2 {
          var a := table.GetRemainingSize(tile);
          var b := table.GetRemainingSize(tile + 1);
          var e := table.GetRemainingSize(tile + 2);
          if a > 0 && b > 0 && e > 0 {
            return Some(tile);
          }
        }
        tile := tile + 1;
      }
      return None;
    }
  
    /**
     * Advances the search at the top slot by one move: a triple if none was
     * tried yet, else a run if none was tried yet, else nothing.
     */
    method SearchNext() returns (found: bool)
      requires Valid()
      modifies this, slots, table
      ensures Valid() && old(counts) <= counts && old(mins) <= mins
      ensures forall d :: 0 <= d < old(depth) ==> slots[d] == old(slots[d])
      ensures old(depth) >= MaxNumberOfThreeTiles ==>
        !found && depth == old(depth) && groups == old(groups) && table.current == old(table.current)
        && slots[depth] == old(slots[depth])
      ensures old(depth) < MaxNumberOfThreeTiles ==>
        var mv := NextMove(old(table.current), old(slots[depth].minTile), old(slots[depth].status));
        && found == mv.pushed.Some?
        && slots[old(depth)] == old(slots[depth]).(status := mv.status)
        && (found ==>
              && depth == old(depth) + 1 && groups == old(groups) + [mv.pushed.value]
              && slots[depth] == TileSetElement(mv.pushed.value, NotSearched, mv.pushed.value.tile)
              && table.current == Take(old(table.current), mv.pushed.value))
        && (!found ==> depth == old(depth) && groups == old(groups) && table.current == old(table.current))
    {
      if depth >= MaxNumberOfThreeTiles {
        return false;
      }
      var d := depth;
      found := false;
      if slots[d].status == NotSearched {
        found := SearchTriple();
        SetStatus(d, TripleSearched);
      }
      if !found && slots[d].status == TripleSearched {
        found := SearchSequenceThree();
        SetStatus(d, SequenceSearched);
      }
    }

    /** Records what has been tried at slot d. */
    method SetStatus(d: nat, status: Status)
      requires Valid() && d <= depth
      modifies slots
      ensures Valid()
      ensures slots[d] == old(slots[d]).(status := status)
      ensures forall j :: 0 <= j < slots.Length && j != d ==> slots[j] == old(slots[j])
    {
      slots[d] := slots[d].(status := status);
      assert forall j :: 0 <= j <= depth ==> slots[j].group == old(slots[j].group) && slots[j].minTile == old(slots[j].minTile);
    }

    /** Drops the top triple or run and gives its tiles back. */
    method Revert()
      requires Valid() && depth >= 1
      modifies this, table
      ensures Valid() && depth == old(depth) - 1
      ensures groups == old(groups)[..depth + 1] && counts == old(counts)[..depth + 1] && mins == old(mins)[..depth + 1]
      ensures table.current == old(counts)[depth]
    {
      var top := depth;
      depth := depth - 1;
      ReturnToTable(slots[top].group, table);
      TakeInjective(table.current, counts[depth], slots[top].group);
      StackPop(groups, counts, mins);
      groups := groups[..depth + 1];
      counts := counts[..depth + 1];
      mins := mins[..depth + 1];
    }
  
    /**
     * For each slot holding the winning tile, sorts the five keys with that
     * slot open, packs them into one key and, the first time the key is
     * seen, writes the line from the smallest key to the largest.
     */
    method ToString() returns (strAll: string)
      requires Valid() && depth == MaxNumberOfThreeTiles
      modifies local
      ensures ValidGroups(groups) && IsTile(extra)
      ensures var r := RenderFrom(groups, extra, 0, old(local.entries));
        strAll == Joined(r.lines) && local.entries == r.table
    {
      StackGroupsValid(groups, counts, mins);
      ghost var target := RenderFrom(groups, extra, 0, local.entries);
      var n := depth + 1;
      strAll := "";
      var i := 0;
      while i < n
        invariant 0 <= i <= n
        invariant strAll + Joined(RenderFrom(groups, extra, i, local.entries).lines) == Joined(target.lines)
        invariant RenderFrom(groups, extra, i, local.entries).table == target.table
      {
        strAll := RenderSlot(i, strAll);
        i := i + 1;
      }
    }

    /**
     * One turn of ToString's loop: slot i's line is written and recorded
     * when slot i holds the winning tile and its key is new.
     */
    method RenderSlot(i: nat, strAll: string) returns (next: string)
      requires Valid() && depth == MaxNumberOfThreeTiles && i <= depth
      modifies local
      ensures ValidGroups(groups) && IsTile(extra)
      ensures next + Joined(RenderFrom(groups, extra, i + 1, local.entries).lines)
           == strAll + Joined(RenderFrom(groups, extra, i, old(local.entries)).lines)
      ensures RenderFrom(groups, extra, i + 1, local.entries).table == RenderFrom(groups, extra, i, old(local.entries)).table
    {
      StackGroupsValid(groups, counts, mins);
      next := strAll;
      if !HasTile(slots[i].group, extra) {
        RenderSkip(groups, extra, i, local.entries);
        return;
      }
      var sorted := SortedEntries(i);
      var key := PackKeys(sorted);
      assert key == LineKey(groups, i, extra);
      if key in local.entries {
        RenderSkip(groups, extra, i, local.entries);
        return;
      }
      var str := LineString(sorted, i, extra);
      assert str == Line(groups, i, extra);
      RenderAdd(groups, extra, i, local.entries);
      local.entries := local.entries[key := str];
      ghost var later := Joined(RenderFrom(groups, extra, i + 1, local.entries).lines);
      Associative(strAll, str + "\n", later);
      next := strAll + (str + "\n");
    }

    /** The entries of all slots with slot i open, in descending key order. */
    method SortedEntries(i: nat) returns (sorted: seq<KeyIndex>)
      requires Valid()
      ensures ValidGroups(groups) && IsTile(extra)
      ensures sorted == CountTilesRender.Sorted(groups, i, extra)
    {
      StackGroupsValid(groups, counts, mins);
      var entries := FillEntries(slots, depth + 1, i, extra, groups);
      sorted := SortDesc(entries);
    }
  }

  /** The entries of slots 0..n-1, slot i open, written into a fresh array one slot at a time. */
  method FillEntries(slots: array<TileSetElement>, n: nat, i: nat, extra: int, ghost gs: seq<Group>)
    returns (entries: seq<KeyIndex>)
    requires n <= slots.Length && |gs| == n && ValidGroups(gs) && IsTile(extra)
    requires forall d :: 0 <= d < n ==> slots[d].group == gs[d]
    ensures entries == Entries(gs, i, extra)
  {
    var keyIndexArray := new KeyIndex[n](_ => KeyIndex(0, Pair(TileMin), 0));
    var j := 0;
    while j < n
      invariant 0 <= j <= n
      invariant forall k :: 0 <= k < j ==> keyIndexArray[k] == Entries(gs, i, extra)[k]
    {
      keyIndexArray[j] := KeyIndex(j, slots[j].group, GetKey(slots[j].group, i == j, extra));
      j := j + 1;
    }
    entries := keyIndexArray[..];
  }

  lemma Associative(a: string, b: string, c: string)
    ensures (a + b) + c == a + (b + c)
  {
  }

  lemma RenderSkip(gs: seq<Group>, extra: int, i: nat, table: map<nat, string>)
    requires ValidGroups(gs) && IsTile(extra) && i < |gs|
    requires !HasTile(gs[i], extra) || LineKey(gs, i, extra) in table
    ensures RenderFrom(gs, extra, i, table) == RenderFrom(gs, extra, i + 1, table)
  {
  }

  lemma RenderAdd(gs: seq<Group>, extra: int, i: nat, table: map<nat, string>)
    requires ValidGroups(gs) && IsTile(extra) && i < |gs|
    requires HasTile(gs[i], extra) && LineKey(gs, i, extra) !in table
    ensures var rest := RenderFrom(gs, extra, i + 1, table[LineKey(gs, i, extra) := Line(gs, i, extra)]);
      && Joined(RenderFrom(gs, extra, i, table).lines) == Line(gs, i, extra) + "\n" + Joined(rest.lines)
      && RenderFrom(gs, extra, i, table).table == rest.table
  {
    var rest := RenderFrom(gs, extra, i + 1, table[LineKey(gs, i, extra) := Line(gs, i, extra)]);
    assert ([Line(gs, i, extra)] + rest.lines)[1..] == rest.lines;
  }

  /** Packs the keys, the first one most significant. */
  method PackKeys(sorted: seq<KeyIndex>) returns (key: nat)
    ensures key == Pack(KeysOf(sorted))
  {
    key := 0;
    var j := 0;
    while j < |sorted|
      invariant 0 <= j <= |sorted|
      invariant key == Pack(KeysOf(sorted)[..j])
    {
      KeysOfAt(sorted, j);
      PackSnoc(KeysOf(sorted), j);
      key := key * RadixOfThreeTiles + sorted[j].key;
      j := j + 1;
    }
    assert KeysOf(sorted)[..j] == KeysOf(sorted);
  }

  lemma PackSnoc(ks: seq<nat>, j: nat)
    requires j < |ks|
    ensures Pack(ks[..j + 1]) == Pack(ks[..j]) * RadixOfThreeTiles + ks[j]
  {
    assert ks[..j + 1][..j] == ks[..j];
  }

  /** Writes the groups from the last entry to the first, the one of slot i open. */
  method LineString(sorted: seq<KeyIndex>, i: nat, extra: int) returns (str: string)
    requires ValidEntries(sorted) && IsTile(extra)
    ensures str == LineText(sorted, i, extra)
  {
    str := "";
    var strIndex := |sorted|;
    while strIndex > 0
      invariant 0 <= strIndex <= |sorted|
      invariant str == LineText(sorted[strIndex..], i, extra)
    {
      strIndex := strIndex - 1;
      var keyIndex := sorted[strIndex];
      var open := (i == keyIndex.index);
      assert sorted[strIndex..][1..] == sorted[strIndex + 1..];
      str := str + TileSets.ToString(keyIndex.group, open, extra);
    }
  }
}
