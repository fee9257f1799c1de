/**
 * checkTiles of the Ruby test cases (countTiles.rb): the output of searchAll
 * is scanned for the waits written between "[" and "]"; each must hold one
 * or two digits, two digits no more than two apart; and when the hand was
 * made by removing a tile from a winning hand, some wait must be that tile.
 */
module RubyCheck {
  import opened Tiles
  import opened Text
  import opened Hands
  import opened RubySearch
  import opened RubyCandidates
  import opened RubyTileSet
  import opened RubyMark
  import opened RubySearchAll

  // ---------------------------------------------------------------------
  // scan(/\[(\d+)\]/)

  /** The digits between each "[" and the next "]" with only digits between them, left to right, matches not overlapping. */
  function Brackets(s: string): seq<string>
    decreases |s|
  {
    if s == [] then []
    else
      var k := LeadingDigits(s[1..]);
      if s[0] == '[' && 0 < k && k + 1 < |s| && s[k + 1] == ']' then [s[1..k + 1]] + Brackets(s[k + 2..])
      else Brackets(s[1..])
  }

  /** No match can run past the end of s: it is empty or ends in neither "[" nor a digit. */
  predicate Closed(s: string) {
    s == [] || (s[|s| - 1] != '[' && !IsDigit(s[|s| - 1]))
  }

  // ---------------------------------------------------------------------
  // What checkTiles accepts

  /** [a, b, c].sort */
  function Sort3(a: int, b: int, c: int): (s: seq<int>)
    ensures |s| == 3 && s[0] <= s[1] <= s[2]
  {
    if a <= b then
      if b <= c then [a, b, c] else if a <= c then [a, c, b] else [c, a, b]
    else
      if a <= c then [b, a, c] else if b <= c then [b, c, a] else [c, b, a]
  }

  /** A wait checkTiles lets through: one or two tiles, the second d, d + 1 or d + 2 when the first is d. */
  predicate Shaped(w: string) {
    var tiles := Values(w);
    1 <= |tiles| <= 2 && (|tiles| == 2 ==> tiles[0] <= tiles[1] <= tiles[0] + 2)
  }

  /** The wait is met by tile e: it is [e], [ee], or two distinct tiles that make a run with e. */
  predicate Finds(w: string, e: int) {
    var tiles := Values(w);
    || (|tiles| == 1 && tiles[0] == e)
    || (|tiles| == 2 && tiles[0] == tiles[1] && tiles[0] == e)
    || (|tiles| == 2 && tiles[0] != tiles[1] &&
        var sorted := Sort3(tiles[0], tiles[1], e);
        sorted[0] + 1 == sorted[1] && sorted[1] + 1 == sorted[2])
  }

  /** What checkTiles lets through: every wait shaped, and the removed tile, if any, found by some wait. */
  predicate Accepts(waits: seq<string>, extraTile: Option<int>) {
    && (forall i :: 0 <= i < |waits| ==> Shaped(waits[i]))
    && (extraTile.Some? ==> exists i :: 0 <= i < |waits| && Finds(waits[i], extraTile.value))
  }

  /** checkTiles: true where the script returns, false where it raises TestingFailed. */
  method CheckTiles(actual: string, extraTile: Option<int>) returns (passed: bool)
    ensures passed == Accepts(Brackets(actual), extraTile)
  {
    var foundTile := false;
    var waits := Brackets(actual);
    var n := 0;
    while n < |waits|
      invariant n <= |waits|
      invariant forall i :: 0 <= i < n ==> Shaped(waits[i])
      invariant foundTile <==> extraTile.Some? && exists i :: 0 <= i < n && Finds(waits[i], extraTile.value)
    {
      var tiles := Values(waits[n]);
      if |tiles| < 1 || |tiles| > 2 {
        return false;
      }
      if extraTile.Some? && |tiles| == 1 && tiles[0] == extraTile.value {
        foundTile := true;
      }
      if |tiles| == 2 {
        var base := tiles[0];
        if !(tiles[1] == base || tiles[1] == base + 1 || tiles[1] == base + 2) {
          return false;
        }
        if extraTile.Some? {
          if tiles[0] == tiles[1] {
            if tiles[0] == extraTile.value {
              foundTile := true;
            }
          } else {
            var tileSorted := Sort3(tiles[0], tiles[1], extraTile.value);
            if tileSorted[0] < tileSorted[1] < tileSorted[2] && tileSorted[0] + 1 == tileSorted[1] && tileSorted[1] + 1 == tileSorted[2] {
              foundTile := true;
            }
          }
        }
      }
      n := n + 1;
    }
    passed := !(extraTile.Some? && !foundTile);
  }

  // ---------------------------------------------------------------------
  // Scanning joined text

  /** Leading digits stop where a text that is not closed ends. */
  lemma {:induction false} LeadingDigitsAppend(a: string, b: string)
    requires a != [] && !IsDigit(a[|a| - 1])
    ensures LeadingDigits(a + b) == LeadingDigits(a)
    decreases |a|
  {
    if IsDigit(a[0]) {
      assert (a + b)[1..] == a[1..] + b;
      LeadingDigitsAppend(a[1..], b);
    }
  }

  /** Scanning a closed text then more scans each on its own. */
  lemma {:induction false} BracketsAppend(a: string, b: string)
    requires Closed(a)
    ensures Brackets(a + b) == Brackets(a) + Brackets(b)
    decreases |a|
  {
    if a != [] {
      var n, h := BracketsFront(a, b);
      BracketsAppend(a[n..], b);
      assert h + (Brackets(a[n..]) + Brackets(b)) == (h + Brackets(a[n..])) + Brackets(b);
    } else {
      assert a + b == b;
    }
  }

  /** The first step of scanning a closed text, with or without more after it. */
  lemma BracketsFront(a: string, b: string) returns (n: nat, h: seq<string>)
    requires Closed(a) && a != []
    ensures 0 < n <= |a| && Closed(a[n..])
    ensures Brackets(a + b) == h + Brackets(a[n..] + b)
    ensures Brackets(a) == h + Brackets(a[n..])
  {
    var s := a + b;
    assert s[0] == a[0] && s[1..] == a[1..] + b;
    if a[0] == '[' {
      var k := LeadingDigits(a[1..]);
      LeadingDigitsAppend(a[1..], b);
      assert k + 1 < |a| && s[k + 1] == a[k + 1];
      if 0 < k && a[k + 1] == ']' {
        n, h := k + 2, [a[1..k + 1]];
        assert s[k + 2..] == a[k + 2..] + b;
        assert s[1..k + 1] == a[1..k + 1];
      } else {
        n, h := 1, [];
      }
    } else {
      n, h := 1, [];
    }
  }

  /** Text without "[" holds no match. */
  lemma {:induction false} BracketsNone(s: string)
    requires '[' !in s
    ensures Brackets(s) == []
    decreases |s|
  {
    if s != [] {
      assert s[0] != '[';
      BracketsNone(s[1..]);
    }
  }

  /** "[" digits "]" is one match: the digits. */
  lemma BracketsOne(w: string)
    requires w != [] && forall k :: 0 <= k < |w| ==> IsDigit(w[k])
    ensures Brackets("[" + w + "]") == [w]
  {
    LeadingDigitsAll(w, "]");
    BracketsWrapped("[" + w + "]", w);
  }

  lemma BracketsWrapped(s: string, w: string)
    requires w != [] && s == "[" + w + "]" && LeadingDigits(w + "]") == |w|
    ensures Brackets(s) == [w]
  {
    var n := |w|;
    assert s[1..] == w + "]";
    BracketsAt(s, n);
    assert s[n + 2..] == [] && s[1..n + 1] == w;
  }

  /** A match at the start of s. */
  lemma BracketsAt(s: string, n: nat)
    requires n + 1 < |s| && 0 < n && s[0] == '[' && LeadingDigits(s[1..]) == n && s[n + 1] == ']'
    ensures Brackets(s) == [s[1..n + 1]] + Brackets(s[n + 2..])
  {
  }

  lemma {:induction false} LeadingDigitsAll(w: string, b: string)
    requires forall k :: 0 <= k < |w| ==> IsDigit(w[k])
    requires b != [] && !IsDigit(b[0])
    ensures LeadingDigits(w + b) == |w|
    decreases |w|
  {
    if w != [] {
      assert (w + b)[1..] == w[1..] + b;
      LeadingDigitsAll(w[1..], b);
    } else {
      assert w + b == b;
    }
  }

  lemma ClosedAppend(a: string, b: string)
    requires Closed(a) && Closed(b)
    ensures Closed(a + b)
  {
    if b != [] {
      assert (a + b)[|a + b| - 1] == b[|b| - 1];
    } else {
      assert a + b == a;
    }
  }

  /** Joining closed texts with a closed separator gives a closed text. */
  lemma {:induction false} JoinClosed(ss: seq<string>, sep: string)
    requires Closed(sep) && forall i :: 0 <= i < |ss| ==> Closed(ss[i])
    ensures Closed(Join(ss, sep))
  {
    if |ss| > 1 {
      var pre := ss[..|ss| - 1];
      JoinClosed(pre, sep);
      ClosedAppend(Join(pre, sep), sep);
      ClosedAppend(Join(pre, sep) + sep, ss[|ss| - 1]);
    }
  }

  /** Every match in joined texts is a match in one of them, when no match can cross where they meet. */
  lemma {:induction false} BracketsJoinFrom(ss: seq<string>, sep: string, w: string) returns (i: nat)
    requires Closed(sep) && Brackets(sep) == [] && forall n :: 0 <= n < |ss| ==> Closed(ss[n])
    requires w in Brackets(Join(ss, sep))
    ensures i < |ss| && w in Brackets(ss[i])
  {
    if |ss| == 1 {
      i := 0;
    } else {
      var pre := ss[..|ss| - 1];
      JoinSplit(ss, sep);
      if w in Brackets(ss[|ss| - 1]) {
        i := |ss| - 1;
      } else {
        i := BracketsJoinFrom(pre, sep, w);
      }
    }
  }

  /** Every match in one of the texts is a match in them joined. */
  lemma {:induction false} BracketsJoinHas(ss: seq<string>, sep: string, i: nat, w: string)
    requires Closed(sep) && Brackets(sep) == [] && forall n :: 0 <= n < |ss| ==> Closed(ss[n])
    requires i < |ss| && w in Brackets(ss[i])
    ensures w in Brackets(Join(ss, sep))
  {
    if |ss| > 1 {
      var pre := ss[..|ss| - 1];
      JoinSplit(ss, sep);
      if i < |ss| - 1 {
        BracketsJoinHas(pre, sep, i, w);
      }
    }
  }

  /** The matches of the joined texts: those of all but the last, then those of the last. */
  lemma JoinSplit(ss: seq<string>, sep: string)
    requires |ss| > 1 && Closed(sep) && Brackets(sep) == [] && forall n :: 0 <= n < |ss| ==> Closed(ss[n])
    ensures Brackets(Join(ss, sep)) == Brackets(Join(ss[..|ss| - 1], sep)) + Brackets(ss[|ss| - 1])
  {
    var pre := Join(ss[..|ss| - 1], sep);
    assert Join(ss, sep) == pre + sep + ss[|ss| - 1];
    JoinClosed(ss[..|ss| - 1], sep);
    ClosedAppend(pre, sep);
    BracketsAppend(pre + sep, ss[|ss| - 1]);
    BracketsAppend(pre, sep);
  }

  // ---------------------------------------------------------------------
  // The waits searchAll prints

  /** The tiles of the group without one x: what the brackets of its line show. */
  function Remaining(g: Group, x: int): (r: seq<int>)
    requires ValidGroup(g)
    ensures forall i :: 0 <= i < |r| ==> IsTile(r[i])
  {
    match g
    case Pair(t) => [t]
    case Triple(t) => [t, t]
    case Run(t) => if x == t then [t + 1, t + 2] else if x == t + 1 then [t, t + 2] else [t, t + 1]
  }

  /** The wait of a group holding x is shaped as checkTiles wants, and x meets it. */
  lemma RemainingWait(g: Group, x: int)
    requires ValidGroup(g) && x in TilesOf(g)
    ensures Shaped(DigitsOf(Remaining(g, x))) && Finds(DigitsOf(Remaining(g, x)), x)
  {
    ValuesDigits(Remaining(g, x));
  }

  /** to_i undoes the digit of a tile. */
  lemma ValuesDigits(r: seq<int>)
    requires forall i :: 0 <= i < |r| ==> 0 <= r[i] <= 9
    ensures Values(DigitsOf(r)) == r
  {
  }

  /** A part holds neither "[" nor a trailing digit. */
  lemma PartPlain(g: Group)
    requires ValidGroup(g)
    ensures Closed(Part(g)) && '[' !in Part(g)
  {
    var p := Part(g);
    forall i | 0 <= i < |p| ensures p[i] != '[' {
      if 0 < i < |p| - 1 {
        assert IsDigit(p[i]);
      }
    }
  }

  /** "(" + digits + ")" without one digit c, in brackets. */
  lemma {:induction false} SubDigits(d: string, c: char)
    requires c in d
    ensures Sub(d + ")", c) == Sub(d, c) + ")"
  {
    if d[0] != c {
      assert (d + ")")[1..] == d[1..] + ")";
      SubDigits(d[1..], c);
    } else {
      assert (d + ")")[1..] == d[1..] + ")";
    }
  }

  lemma TrDigitsWrapped(w: string)
    requires forall k :: 0 <= k < |w| ==> IsDigit(w[k])
    ensures Tr("(" + w + ")") == "[" + w + "]"
  {
  }

  /** The part of the group at the wait, marked: the remaining tiles in brackets. */
  lemma MarkedPart(g: Group, x: int)
    requires ValidGroup(g) && x in TilesOf(g)
    ensures Tr(Sub(Part(g), DigitChar(x))) == "[" + DigitsOf(Remaining(g, x)) + "]"
  {
    var d := DigitsOf(TilesOf(g));
    PartIs(g);
    SubGroup(g, x);
    SubWrapped(d, DigitChar(x));
    TrDigitsWrapped(DigitsOf(Remaining(g, x)));
  }

  lemma PartIs(g: Group)
    requires ValidGroup(g)
    ensures Part(g) == "(" + DigitsOf(TilesOf(g)) + ")"
  {
  }

  /** Removing the digit of x from the digits of the group's tiles. */
  lemma SubGroup(g: Group, x: int)
    requires ValidGroup(g) && x in TilesOf(g)
    ensures DigitChar(x) in DigitsOf(TilesOf(g))
    ensures Sub(DigitsOf(TilesOf(g)), DigitChar(x)) == DigitsOf(Remaining(g, x))
  {
    var d := DigitsOf(TilesOf(g));
    var i :| 0 <= i < |TilesOf(g)| && TilesOf(g)[i] == x;
    assert d[i] == DigitChar(x);
  }

  lemma SubWrapped(d: string, c: char)
    requires c in d && c != '('
    ensures Sub("(" + d + ")", c) == "(" + Sub(d, c) + ")"
  {
    SubDigits(d, c);
    assert ("(" + d + ")")[1..] == d + ")";
  }

  /** Every text of the list is closed, and either the wait w in brackets or free of "[". */
  ghost predicate MarkedWith(l: seq<string>, w: string) {
    forall i :: 0 <= i < |l| ==> Closed(l[i]) && (l[i] == "[" + w + "]" || '[' !in l[i])
  }

  /** The parts of a split with the group at j marked. */
  lemma MarkedList(gs: seq<Group>, j: nat, x: int)
    requires ValidList(gs) && j < |gs| && IsTile(x) && x in TilesOf(gs[j])
    ensures var ps := PartsOf(gs);
      MarkedWith(ps[j := Tr(Sub(ps[j], DigitChar(x)))], DigitsOf(Remaining(gs[j], x)))
  {
    var ps := PartsOf(gs);
    var w := DigitsOf(Remaining(gs[j], x));
    MarkedPart(gs[j], x);
    PartsPlain(gs);
    MarkedUpdate(ps, j, w);
  }

  /** Every part of a split is closed and free of "[". */
  lemma PartsPlain(gs: seq<Group>)
    requires ValidList(gs)
    ensures forall m :: 0 <= m < |gs| ==> Closed(PartsOf(gs)[m]) && '[' !in PartsOf(gs)[m]
  {
    forall m | 0 <= m < |gs| ensures Closed(PartsOf(gs)[m]) && '[' !in PartsOf(gs)[m] {
      PartPlain(gs[m]);
    }
  }

  /** Putting the wait in brackets at j into plain closed texts. */
  lemma MarkedUpdate(ps: seq<string>, j: nat, w: string)
    requires j < |ps| && forall m :: 0 <= m < |ps| ==> Closed(ps[m]) && '[' !in ps[m]
    ensures MarkedWith(ps[j := "[" + w + "]"], w)
  {
    var l := ps[j := "[" + w + "]"];
    assert Closed(l[j]) by {
      assert l[j][|l[j]| - 1] == ']';
    }
  }

  /** Sorting keeps the list marked. */
  lemma MarkedPermutation(a: seq<string>, b: seq<string>, w: string)
    requires MarkedWith(a, w) && multiset(a) == multiset(b)
    ensures MarkedWith(b, w)
  {
    forall i | 0 <= i < |b| ensures Closed(b[i]) && (b[i] == "[" + w + "]" || '[' !in b[i]) {
      assert b[i] in multiset(a);
      var m :| 0 <= m < |a| && a[m] == b[i];
    }
  }

  /** The line of the wait at j, and the sorted marked parts it joins. */
  lemma LineMarked(gs: seq<Group>, j: nat, x: int) returns (ss: seq<string>)
    requires ValidList(gs) && j < |gs| && IsTile(x) && x in TilesOf(gs[j])
    ensures LineOf(gs, j, x) == Join(ss, "")
    ensures MarkedWith(ss, DigitsOf(Remaining(gs[j], x)))
    ensures "[" + DigitsOf(Remaining(gs[j], x)) + "]" in ss
  {
    var ps := PartsOf(gs);
    var l := ps[j := Tr(Sub(ps[j], DigitChar(x)))];
    ss := SortStrings(l);
    MarkedList(gs, j, x);
    MarkedPermutation(l, ss, DigitsOf(Remaining(gs[j], x)));
    MarkedPart(gs[j], x);
    assert l[j] in multiset(ss);
  }

  /** A line is closed. */
  lemma LineClosed(gs: seq<Group>, j: nat, x: int)
    requires ValidList(gs) && j < |gs| && IsTile(x) && x in TilesOf(gs[j])
    ensures Closed(LineOf(gs, j, x))
  {
    var ss := LineMarked(gs, j, x);
    JoinClosed(ss, "");
  }

  /** A line shows one wait: the group at j without one x. */
  lemma LineWaitFrom(gs: seq<Group>, j: nat, x: int, w: string)
    requires ValidList(gs) && j < |gs| && IsTile(x) && x in TilesOf(gs[j])
    requires w in Brackets(LineOf(gs, j, x))
    ensures w == DigitsOf(Remaining(gs[j], x))
  {
    var ss := LineMarked(gs, j, x);
    JoinedWaitFrom(ss, DigitsOf(Remaining(gs[j], x)), w);
  }

  lemma JoinedWaitFrom(ss: seq<string>, v: string, w: string)
    requires MarkedWith(ss, v) && v != [] && (forall k :: 0 <= k < |v| ==> IsDigit(v[k]))
    requires w in Brackets(Join(ss, ""))
    ensures w == v
  {
    var i := BracketsJoinFrom(ss, "", w);
    if ss[i] == "[" + v + "]" {
      BracketsOne(v);
    } else {
      BracketsNone(ss[i]);
    }
  }

  /** The line of a wait shows that wait. */
  lemma LineWaitHas(gs: seq<Group>, j: nat, x: int)
    requires ValidList(gs) && j < |gs| && IsTile(x) && x in TilesOf(gs[j])
    ensures DigitsOf(Remaining(gs[j], x)) in Brackets(LineOf(gs, j, x))
  {
    var v := DigitsOf(Remaining(gs[j], x));
    var ss := LineMarked(gs, j, x);
    var i :| 0 <= i < |ss| && ss[i] == "[" + v + "]";
    BracketsOne(v);
    BracketsJoinHas(ss, "", i, v);
  }

  /** Every wait in the printed text is a wait of one of the lines. */
  lemma OutputWaitFrom(solutions: seq<string>, w: string) returns (line: string)
    requires forall i :: 0 <= i < |solutions| ==> Closed(solutions[i])
    requires w in Brackets(Output(solutions))
    ensures line in solutions && w in Brackets(line)
  {
    var u := OutputWaits(solutions);
    var k := BracketsJoinFrom(u, "\n", w);
    line := u[k];
  }

  /** Every wait of a line is in the printed text. */
  lemma OutputWaitHas(solutions: seq<string>, line: string, w: string)
    requires forall i :: 0 <= i < |solutions| ==> Closed(solutions[i])
    requires line in solutions && w in Brackets(line)
    ensures w in Brackets(Output(solutions))
  {
    var u := OutputWaits(solutions);
    var k :| 0 <= k < |u| && u[k] == line;
    BracketsJoinHas(u, "\n", k, w);
  }

  /** The waits of the printed text are those of the lines joined; "(none)" shows none. */
  lemma OutputWaits(solutions: seq<string>) returns (u: seq<string>)
    requires forall i :: 0 <= i < |solutions| ==> Closed(solutions[i])
    ensures forall k :: 0 <= k < |u| ==> Closed(u[k])
    ensures forall line :: line in u <==> line in solutions
    ensures Closed("\n") && Brackets("\n") == []
    ensures Brackets(Output(solutions)) == Brackets(Join(u, "\n"))
  {
    u := Uniq(SortStrings(solutions));
    OutputLines(solutions);
    forall k | 0 <= k < |u| ensures Closed(u[k]) {
      assert u[k] in solutions;
    }
    var str := Join(u, "\n");
    JoinClosed(u, "\n");
    NewlineWaits();
    var text := if str == [] then NoneText() else str;
    assert Output(solutions) == text + "\n";
    BracketsAppend(text, "\n");
  }

  /** "\n" shows no wait and is closed. */
  lemma NewlineWaits()
    ensures Closed("\n") && Brackets("\n") == []
  {
    BracketsNone("\n");
  }

  /** "(none)", closed and showing no wait. */
  function NoneText(): (s: string)
    ensures s == "(none)" && Closed(s) && Brackets(s) == []
  {
    BracketsNone("(none)");
    "(none)"
  }

  // ---------------------------------------------------------------------
  // checkTiles on what searchAll prints

  /** The printed lines are closed. */
  lemma LinesClosed(tiles: seq<int>)
    requires TileList(tiles) && |tiles| == SizeOfCompleteTiles - 1
    ensures forall i :: 0 <= i < |Lines(tiles)| ==> Closed(Lines(tiles)[i])
  {
    var lines := Lines(tiles);
    forall i | 0 <= i < |lines| ensures Closed(lines[i]) {
      var x, gs, j := LinesSound(tiles, lines[i]);
      LineClosed(gs, j, x);
    }
  }

  /** Every wait searchAll prints is a group of a wait without one copy of the tile that completes it. */
  lemma OutputWaitSound(tiles: seq<int>, w: string) returns (x: int, gs: seq<Group>, j: nat)
    requires TileList(tiles) && |tiles| == SizeOfCompleteTiles - 1
    requires w in Brackets(Output(Lines(tiles)))
    ensures Wait(tiles, x, gs, j) && w == DigitsOf(Remaining(gs[j], x))
  {
    LinesClosed(tiles);
    var line := OutputWaitFrom(Lines(tiles), w);
    x, gs, j := LinesSound(tiles, line);
    LineWaitFrom(gs, j, x, w);
  }

  /** The wait of every winning split is printed. */
  lemma OutputWaitComplete(tiles: seq<int>, x: int, gs: seq<Group>, j: nat)
    requires TileList(tiles) && |tiles| == SizeOfCompleteTiles - 1
    requires Wait(tiles, x, gs, j)
    ensures DigitsOf(Remaining(gs[j], x)) in Brackets(Output(Lines(tiles)))
  {
    LinesClosed(tiles);
    LinesComplete(tiles, x, gs, j);
    LineWaitHas(gs, j, x);
    OutputWaitHas(Lines(tiles), LineOf(gs, j, x), DigitsOf(Remaining(gs[j], x)));
  }

  /** checkRandomPattern: checkTiles without a removed tile accepts what searchAll prints for any thirteen tiles. */
  lemma RandomPatternAccepted(tiles: seq<int>)
    requires TileList(tiles) && |tiles| == SizeOfCompleteTiles - 1
    ensures Accepts(Brackets(Output(Lines(tiles))), None)
  {
    var waits := Brackets(Output(Lines(tiles)));
    forall i | 0 <= i < |waits| ensures Shaped(waits[i]) {
      var x, gs, j := OutputWaitSound(tiles, waits[i]);
      RemainingWait(gs[j], x);
    }
  }

  /**
   * checkCompletePattern: take a tile e out of a winning hand that holds no
   * tile five times; checkTiles with e accepts what searchAll prints for the
   * thirteen tiles left.
   */
  lemma CompletePatternAccepted(tiles: seq<int>, e: int, gs: seq<Group>)
    requires TileList(tiles) && |tiles| == SizeOfCompleteTiles - 1 && IsTile(e)
    requires ValidList(gs) && |gs| == 5 && Pairs(gs) == 1
    requires GroupsBag(gs) == multiset(tiles) + multiset{e}
    requires forall v :: (multiset(tiles) + multiset{e})[v] <= SizeOfOneTile
    ensures Accepts(Brackets(Output(Lines(tiles))), Some(e))
  {
    RandomPatternAccepted(tiles);
    var j := WaitAt(tiles, e, gs);
    OutputWaitComplete(tiles, e, gs, j);
    RemainingWait(gs[j], e);
    AcceptsWith(Brackets(Output(Lines(tiles))), e, DigitsOf(Remaining(gs[j], e)));
  }

  /** The removed tile is in some group of the winning split: a wait. */
  lemma WaitAt(tiles: seq<int>, e: int, gs: seq<Group>) returns (j: nat)
    requires IsTile(e) && ValidList(gs) && |gs| == 5 && Pairs(gs) == 1
    requires GroupsBag(gs) == multiset(tiles) + multiset{e}
    requires forall v :: (multiset(tiles) + multiset{e})[v] <= SizeOfOneTile
    ensures Wait(tiles, e, gs, j)
  {
    GroupsBagMember(gs, e);
    j :| 0 <= j < |gs| && e in TilesOf(gs[j]);
  }

  lemma AcceptsWith(waits: seq<string>, e: int, w: string)
    requires Accepts(waits, None) && w in waits && Finds(w, e)
    ensures Accepts(waits, Some(e))
  {
    var i :| 0 <= i < |waits| && waits[i] == w;
  }

  // ---------------------------------------------------------------------
  // checkAllPattern

  /** pattern.join read back by TileSet.new: a sorted hand of thirteen tiles is its own parse. */
  lemma PatternParses(h: seq<int>)
    requires TileList(h) && |h| == SizeOfCompleteTiles - 1
    ensures NewTileSet(DigitsOf(h)) == Ok(h)
  {
    var w := DigitsOf(h);
    assert forall k :: 0 <= k < |w| ==> !IsSpace(w[k]);
    ParseLone(w);
    assert NewTileSet(w) == FromWord(w);
    ValuesDigits(h);
    SortTilesSorted(h);
    RejectTiles(h);
  }

  /** Sorting sorted tiles changes nothing. */
  lemma SortTilesSorted(h: seq<int>)
    requires Sorted(h)
    ensures SortTiles(h) == h
  {
    SortedEqual(SortTiles(h), h);
  }

  /** Rejecting from tiles all from 1 to 9 drops nothing. */
  lemma RejectTiles(h: seq<int>)
    requires TileList(h)
    ensures Reject(h) == h
  {
    TileBagCount(h);
    forall v ensures TileBag(h)[v] == multiset(h)[v] {
      if v in multiset(h) {
        var i :| 0 <= i < |h| && h[i] == v;
      }
    }
    assert TileBag(h) == multiset(h);
    SortedEqual(Reject(h), h);
  }

  /**
   * checkAllPattern: every hand enumerateTiles visits (sorted, thirteen
   * tiles, no value more than four times) is read back as itself, and
   * checkTiles without a removed tile accepts what searchAll prints for it.
   */
  lemma AllPatternsAccepted(h: seq<int>)
    requires |h| == HandSize && ValidHand(h, TileMin)
    ensures NewTileSet(DigitsOf(h)) == Ok(h)
    ensures Accepts(Brackets(Output(Lines(h))), None)
  {
    PatternParses(h);
    RandomPatternAccepted(h);
  }
}
