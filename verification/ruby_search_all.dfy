/**
 * searchAll of the Ruby solver (countTiles.rb): each tile from 1 to 9 is
 * tried as the completing tile; a completed hand with five copies of a
 * tile is skipped, the others are searched and their candidates marked;
 * the lines are printed sorted, once each, or "(none)" when there is none.
 */
module RubySearchAll {
  import opened Tiles
  import opened Text
  import opened Hands
  import opened RubySearch
  import opened RubyCandidates
  import opened RubyTileSet
  import opened RubyMark

  /** @tiles.dup.concat([extraTile]).sort: the hand with one more tile, sorted. */
  function Completed(tiles: seq<int>, x: int): (t: seq<int>)
    requires TileList(tiles) && IsTile(x)
    ensures TileList(t) && multiset(t) == multiset(tiles) + multiset{x} && |t| == |tiles| + 1
  {
    var t := SortTiles(tiles + [x]);
    assert forall i :: 0 <= i < |t| ==> IsTile(t[i]) by {
      forall i | 0 <= i < |t| ensures IsTile(t[i]) {
        assert t[i] in multiset(tiles + [x]);
      }
    }
    assert |t| == |multiset(t)|;
    t
  }

  /** The lines searchAll collects for the completing tile x. */
  function LinesFor(tiles: seq<int>, x: int): seq<string>
    requires TileList(tiles) && IsTile(x)
  {
    var t := Completed(tiles, x);
    if TooManyTilesForKind(t) then []
    else MarkAll(Renders(Candidates(HandCounts(t), false)), DigitChar(x))
  }

  /** The lines collected for each completing tile, from 1 to 9. */
  function LinesEach(tiles: seq<int>): seq<seq<string>>
    requires TileList(tiles)
  {
    seq(TileMax, i requires 0 <= i < TileMax => LinesFor(tiles, i + 1))
  }

  /** All lines searchAll collects, in the order it collects them. */
  function Lines(tiles: seq<int>): seq<string>
    requires TileList(tiles)
  {
    Concat(LinesEach(tiles))
  }

  /** What searchAll prints: the lines sorted, each once, one per line; "(none)" when there is none. */
  function Output(solutions: seq<string>): string {
    var str := Join(Uniq(SortStrings(solutions)), "\n");
    (if str == [] then "(none)" else str) + "\n"
  }

  /** searchAll */
  method SearchAll(tiles: seq<int>) returns (output: string)
    requires TileList(tiles)
    ensures output == Output(Lines(tiles))
  {
    var solutions: seq<string> := [];
    ghost var each := LinesEach(tiles);
    for extraTile := TileMin to TileMax + 1
      invariant solutions == Concat(each[..extraTile - 1])
    {
      var marked := SearchWithTile(tiles, extraTile);
      ConcatStep(each, extraTile - 1);
      solutions := solutions + marked;
    }
    assert each[..TileMax] == each;
    var str := Join(Uniq(SortStrings(solutions)), "\n");
    output := (if str == [] then "(none)" else str) + "\n";
  }

  /**
   * The body of searchAll's loop: the completed hand, skipped when it holds
   * five copies of a tile, else searched and its candidates marked.
   */
  method SearchWithTile(tiles: seq<int>, extraTile: int) returns (marked: seq<string>)
    requires TileList(tiles) && IsTile(extraTile)
    ensures marked == LinesFor(tiles, extraTile)
  {
    var t := Completed(tiles, extraTile);
    if TooManyTilesForKind(t) {
      marked := [];
    } else {
      var candidates := Search(t, false);
      marked := MarkExtraTile(candidates, DigitChar(extraTile));
    }
  }

  // ---------------------------------------------------------------------
  // What the lines are

  /**
   * x is a wait of the hand, shown by the winning split gs of the hand
   * with x added (one pair and four triples or runs, no tile held five
   * times) whose group at j holds x.
   */
  ghost predicate Wait(tiles: seq<int>, x: int, gs: seq<Group>, j: nat) {
    && IsTile(x)
    && ValidList(gs) && |gs| == 5 && Pairs(gs) == 1
    && GroupsBag(gs) == multiset(tiles) + multiset{x}
    && (forall v :: (multiset(tiles) + multiset{x})[v] <= SizeOfOneTile)
    && j < |gs| && x in TilesOf(gs[j])
  }

  /** The line for a wait: the parts of the split, the group at j without one x in brackets, sorted. */
  function LineOf(gs: seq<Group>, j: nat, x: int): string
    requires ValidList(gs) && j < |gs| && 0 <= x <= 9
  {
    Mark(PartsOf(gs), j, DigitChar(x))
  }

  lemma LinesFrom(tiles: seq<int>, line: string) returns (x: int)
    requires TileList(tiles) && line in Lines(tiles)
    ensures IsTile(x) && line in LinesFor(tiles, x)
  {
    var k := ConcatFrom(LinesEach(tiles), line);
    EachAt(tiles, k);
    x := k + 1;
  }

  lemma EachAt(tiles: seq<int>, k: nat)
    requires TileList(tiles) && k < TileMax
    ensures LinesEach(tiles)[k] == LinesFor(tiles, k + 1)
  {
  }

  lemma LinesHas(tiles: seq<int>, x: int, line: string)
    requires TileList(tiles) && IsTile(x) && line in LinesFor(tiles, x)
    ensures line in Lines(tiles)
  {
    EachAt(tiles, x - 1);
    ConcatHas(LinesEach(tiles), x - 1, line);
  }

  /** The count table of a completed hand. */
  lemma CompletedCounts(tiles: seq<int>, x: int)
    requires TileList(tiles) && |tiles| == SizeOfCompleteTiles - 1 && IsTile(x)
    ensures Bag(HandCounts(Completed(tiles, x))) == multiset(tiles) + multiset{x}
    ensures Total(HandCounts(Completed(tiles, x))) == SizeOfCompleteTiles
    ensures HandCounts(Completed(tiles, x))[0] == 0
  {
    var t := Completed(tiles, x);
    HandBag(t);
    BagSize(HandCounts(t));
    assert 0 !in multiset(t);
  }

  /** Five copies of a tile make searchAll skip the completed hand, and only then. */
  lemma SkipIffFive(tiles: seq<int>, x: int)
    requires TileList(tiles) && IsTile(x)
    ensures TooManyTilesForKind(Completed(tiles, x)) <==> exists v :: (multiset(tiles) + multiset{x})[v] > SizeOfOneTile
  {
    var t := Completed(tiles, x);
    TooManyIffCount(t);
    if v :| multiset(t)[v] > SizeOfOneTile {
      assert v in multiset(t);
      assert IsTile(v);
    }
  }

  /** Every line searchAll prints is the line of a wait. */
  lemma LinesSound(tiles: seq<int>, line: string) returns (x: int, gs: seq<Group>, j: nat)
    requires TileList(tiles) && |tiles| == SizeOfCompleteTiles - 1
    requires line in Lines(tiles)
    ensures Wait(tiles, x, gs, j) && line == LineOf(gs, j, x)
  {
    x := LinesFrom(tiles, line);
    var t := Completed(tiles, x);
    var c := HandCounts(t);
    var ls := Candidates(c, false);
    var i := MarkAllFrom(Renders(ls), DigitChar(x), line);
    gs := ls[i];
    CandidatesSound(c, false, gs);
    j := MarksOfRenderFrom(gs, x, line);
    CompletedCounts(tiles, x);
    WinningCandidate(c, gs);
    SkipIffFive(tiles, x);
  }

  /** The line of every wait is printed. */
  lemma LinesComplete(tiles: seq<int>, x: int, gs: seq<Group>, j: nat)
    requires TileList(tiles) && |tiles| == SizeOfCompleteTiles - 1
    requires Wait(tiles, x, gs, j)
    ensures LineOf(gs, j, x) in Lines(tiles)
  {
    var t := Completed(tiles, x);
    var c := HandCounts(t);
    CompletedCounts(tiles, x);
    SkipIffFive(tiles, x);
    var l := CandidatesComplete(c, false, gs);
    CandidatesSound(c, false, l);
    var ls := Candidates(c, false);
    var i :| 0 <= i < |ls| && ls[i] == l;
    assert gs[j] in multiset(l);
    var k :| 0 <= k < |l| && l[k] == gs[j];
    GroupsBagSize(l);
    RendersHas(ls, i, x, k);
    LinesHas(tiles, x, LineOf(l, k, x));
    LineOfPermutation(l, k, gs, j, x);
  }

  /** Marking the rendered candidates finds the line of every group holding the tile. */
  lemma RendersHas(ls: seq<seq<Group>>, i: nat, x: int, k: nat)
    requires forall n :: 0 <= n < |ls| ==> ValidList(ls[n])
    requires i < |ls| && |GroupsBag(ls[i])| >= SizeOfCompleteTiles
    requires 0 <= x <= 9 && k < |ls[i]| && x in TilesOf(ls[i][k])
    ensures LineOf(ls[i], k, x) in MarkAll(Renders(ls), DigitChar(x))
  {
    MarksOfRenderHas(ls[i], x, k);
    assert Renders(ls)[i] == Render(ls[i]);
    MarkAllHas(Renders(ls), DigitChar(x), i, LineOf(ls[i], k, x));
  }

  /** The line of a wait depends on the groups of the split, not on their order. */
  lemma LineOfPermutation(a: seq<Group>, i: nat, b: seq<Group>, j: nat, x: int)
    requires ValidList(a) && ValidList(b) && multiset(a) == multiset(b)
    requires i < |a| && j < |b| && a[i] == b[j] && 0 <= x <= 9
    ensures LineOf(a, i, x) == LineOf(b, j, x)
  {
    var pa := PartsOf(a);
    var pb := PartsOf(b);
    var q := Tr(Sub(pa[i], DigitChar(x)));
    PartsPermutation(a, b);
    UpdateMultiset(pa, i, q);
    UpdateMultiset(pb, j, q);
    SortedUnique(SortStrings(pa[i := q]), SortStrings(pb[j := q]));
  }

  lemma UpdateMultiset(s: seq<string>, i: nat, q: string)
    requires i < |s|
    ensures multiset(s[i := q]) == multiset(s) - multiset{s[i]} + multiset{q}
  {
    Around(s, i);
    Around(s[i := q], i);
    assert s[i := q][..i] == s[..i] && s[i := q][i + 1..] == s[i + 1..];
  }

  /** Groups of the same multiset have parts of the same multiset. */
  lemma {:induction false} PartsPermutation(a: seq<Group>, b: seq<Group>)
    requires ValidList(a) && ValidList(b) && multiset(a) == multiset(b)
    ensures multiset(PartsOf(a)) == multiset(PartsOf(b))
    decreases |a|
  {
    if a != [] {
      var n := |a| - 1;
      assert a[n] in multiset(b);
      var k :| 0 <= k < |b| && b[k] == a[n];
      var a' := a[..n] + a[n + 1..];
      var b' := b[..k] + b[k + 1..];
      RemoveOne(a, n);
      RemoveOne(b, k);
      PartsPermutation(a', b');
      PartsRemove(a, n);
      PartsRemove(b, k);
    } else {
      assert |b| == |multiset(b)|;
    }
  }

  /** The parts of a list are those of the list without its group at k, and that group's part. */
  lemma PartsRemove(l: seq<Group>, k: nat)
    requires ValidList(l) && k < |l|
    ensures ValidList(l[..k] + l[k + 1..])
    ensures multiset(PartsOf(l)) == multiset(PartsOf(l[..k] + l[k + 1..])) + multiset{Part(l[k])}
  {
    var ps := PartsOf(l);
    assert PartsOf(l[..k] + l[k + 1..]) == ps[..k] + ps[k + 1..];
    Around(ps, k);
  }

  // ---------------------------------------------------------------------
  // What is printed

  /** A line of a wait holds a bracket: the group that waits. */
  lemma LineBracket(gs: seq<Group>, j: nat, x: int)
    requires ValidList(gs) && j < |gs| && 0 <= x <= 9 && x in TilesOf(gs[j])
    ensures '[' in LineOf(gs, j, x)
  {
    var ps := PartsOf(gs);
    PartHolds(gs[j], x);
    var q := Tr(Sub(ps[j], DigitChar(x)));
    assert q[0] == '[';
    var sorted := SortStrings(ps[j := q]);
    assert q in multiset(sorted);
    var k :| 0 <= k < |sorted| && sorted[k] == q;
    JoinHas(sorted, "", k, '[');
  }

  lemma {:induction false} JoinHas(ss: seq<string>, sep: string, k: nat, ch: char)
    requires k < |ss| && ch in ss[k]
    ensures ch in Join(ss, sep)
  {
    if |ss| > 1 && k < |ss| - 1 {
      JoinHas(ss[..|ss| - 1], sep, k, ch);
    }
  }

  /** The printed lines: in increasing order, each once, and exactly the lines collected. */
  lemma OutputLines(solutions: seq<string>)
    ensures StrIncreasing(Uniq(SortStrings(solutions)))
    ensures forall line :: line in Uniq(SortStrings(solutions)) <==> line in solutions
  {
    UniqIncreasing(SortStrings(solutions));
    forall line ensures line in Uniq(SortStrings(solutions)) <==> line in solutions {
      assert line in SortStrings(solutions) <==> line in multiset(SortStrings(solutions));
    }
  }

  /** The printed text is "(none)" exactly when no line was collected, else the lines joined. */
  lemma OutputForm(solutions: seq<string>)
    requires forall i :: 0 <= i < |solutions| ==> '[' in solutions[i]
    ensures Output(solutions) == "(none)\n" <==> solutions == []
    ensures solutions != [] ==> Output(solutions) == Join(Uniq(SortStrings(solutions)), "\n") + "\n"
  {
    if solutions != [] {
      OutputSome(solutions);
    } else {
      assert SortStrings(solutions) == [];
    }
  }

  lemma OutputSome(solutions: seq<string>)
    requires solutions != [] && '[' in solutions[0]
    ensures Output(solutions) == Join(Uniq(SortStrings(solutions)), "\n") + "\n" != "(none)\n"
  {
    var u := Uniq(SortStrings(solutions));
    OutputLines(solutions);
    assert solutions[0] in u;
    var k :| 0 <= k < |u| && u[k] == solutions[0];
    var str := Join(u, "\n");
    JoinHas(u, "\n", k, '[');
    NotNone(str);
  }

  lemma NotNone(str: string)
    requires '[' in str
    ensures str + "\n" != "(none)\n"
  {
    assert (str + "\n")[..|str|] == str;
    assert '[' !in "(none)\n";
  }

  /**
   * searchAll for a hand of thirteen tiles: "(none)" exactly when the hand
   * has no wait; otherwise the lines, in increasing order, are exactly the
   * lines of its waits.
   */
  lemma SearchAllOutput(tiles: seq<int>)
    requires TileList(tiles) && |tiles| == SizeOfCompleteTiles - 1
    ensures Output(Lines(tiles)) == "(none)\n" <==> forall x, gs, j :: !Wait(tiles, x, gs, j)
    ensures StrIncreasing(Uniq(SortStrings(Lines(tiles))))
  {
    var lines := Lines(tiles);
    forall i | 0 <= i < |lines| ensures '[' in lines[i] {
      var x, gs, j := LinesSound(tiles, lines[i]);
      LineBracket(gs, j, x);
    }
    OutputForm(lines);
    OutputLines(lines);
    if x, gs, j :| Wait(tiles, x, gs, j) {
      LinesComplete(tiles, x, gs, j);
    }
    if lines != [] {
      var x, gs, j := LinesSound(tiles, lines[0]);
    }
  }
}
