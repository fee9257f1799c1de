/**
 * markExtraTile of the Ruby solver (countTiles.rb): a candidate with all
 * fourteen tiles is cut into its "(..)" parts, and for each part holding
 * the completing tile a line is written with that part, one copy of the
 * tile taken out, in brackets, and the parts sorted.
 */
module RubyMark {
  import opened Tiles
  import opened Text
  import opened RubySearch

  // ---------------------------------------------------------------------
  // The string operations

  /** gsub(/\D+/, "").size: the number of digits. */
  function DigitCount(s: string): nat {
    if s == [] then 0 else DigitCount(s[..|s| - 1]) + (if IsDigit(s[|s| - 1]) then 1 else 0)
  }

  /** The values of the digits of s. */
  ghost function DigitBag(s: string): multiset<int> {
    if s == [] then multiset{}
    else DigitBag(s[..|s| - 1]) + (if IsDigit(s[|s| - 1]) then multiset{DigitValue(s[|s| - 1])} else multiset{})
  }

  /** A part as the solver writes it: digits between parentheses. */
  predicate IsPart(p: string) {
    |p| >= 3 && p[0] == '(' && p[|p| - 1] == ')' && forall k :: 0 < k < |p| - 1 ==> IsDigit(p[k])
  }

  /** The length of a match of /\(\d+\)/ at the start of s, or 0 when none starts there. */
  function PartLength(s: string): (n: nat)
    ensures n == 0 || (n <= |s| && IsPart(s[..n]))
  {
    if s == [] || s[0] != '(' then 0
    else
      var d := LeadingDigits(s[1..]);
      if d > 0 && d + 1 < |s| && s[d + 1] == ')' then
        PartPrefix(s, d);
        d + 2
      else 0
  }

  lemma PartPrefix(s: string, d: nat)
    requires 0 < d && d + 1 < |s| && s[0] == '(' && s[d + 1] == ')'
    requires forall k :: 0 <= k < d ==> IsDigit(s[1..][k])
    ensures IsPart(s[..d + 2])
  {
    forall k | 1 <= k <= d ensures IsDigit(s[k]) {
      assert s[k] == s[1..][k - 1];
    }
  }

  /** scan(/(\(\d+\))/): the matches from left to right, each search going on after the last match. */
  function Scan(s: string): (r: seq<string>)
    ensures forall k :: 0 <= k < |r| ==> IsPart(r[k])
    decreases |s|
  {
    if s == [] then []
    else
      var n := PartLength(s);
      if n > 0 then [s[..n]] + Scan(s[n..]) else Scan(s[1..])
  }

  /** sub(x, ""): s without its first x. */
  function Sub(s: string, x: char): (r: string)
    ensures x in s ==> |r| == |s| - 1
  {
    if s == [] then []
    else if s[0] == x then s[1..]
    else [s[0]] + Sub(s[1..], x)
  }

  /** tr("()", "[]"): parentheses turned into brackets. */
  function Tr(s: string): (r: string)
    ensures |r| == |s|
  {
    seq(|s|, i requires 0 <= i < |s| => if s[i] == '(' then '[' else if s[i] == ')' then ']' else s[i])
  }

  // ---------------------------------------------------------------------
  // markExtraTile

  /** The line for the part at j: that part without one x and in brackets, then all parts sorted and joined. */
  function Mark(parts: seq<string>, j: nat, x: char): string
    requires j < |parts|
  {
    Join(SortStrings(parts[j := Tr(Sub(parts[j], x))]), "")
  }

  /** The lines for the parts before n that hold x, in the order of the parts. */
  function MarksUpTo(parts: seq<string>, x: char, n: nat): seq<string>
    requires n <= |parts|
  {
    if n == 0 then []
    else MarksUpTo(parts, x, n - 1) + (if x in parts[n - 1] then [Mark(parts, n - 1, x)] else [])
  }

  /** The lines for one candidate: none when it has fewer than fourteen digits. */
  function MarksOf(candidate: string, x: char): seq<string> {
    if DigitCount(candidate) < SizeOfCompleteTiles then []
    else
      var parts := Scan(candidate);
      MarksUpTo(parts, x, |parts|)
  }

  /** The lines for each candidate. */
  function MarksEach(candidates: seq<string>, x: char): seq<seq<string>> {
    seq(|candidates|, i requires 0 <= i < |candidates| => MarksOf(candidates[i], x))
  }

  /** The lines for all candidates, in their order. */
  function MarkAll(candidates: seq<string>, x: char): seq<string> {
    Concat(MarksEach(candidates, x))
  }

  /** markExtraTile: the lines for each candidate, in the order of the candidates. */
  method MarkExtraTile(candidates: seq<string>, extraTile: char) returns (solutions: seq<string>)
    ensures solutions == MarkAll(candidates, extraTile)
  {
    solutions := [];
    ghost var each := MarksEach(candidates, extraTile);
    for i := 0 to |candidates|
      invariant solutions == Concat(each[..i])
    {
      var lines := MarkCandidate(candidates[i], extraTile);
      ConcatStep(each, i);
      solutions := solutions + lines;
    }
    assert each[..|candidates|] == each;
  }

  /**
   * The body of markExtraTile's loop for one candidate: skipped when it has
   * fewer than fourteen digits, else one line per part holding the tile.
   */
  method MarkCandidate(candidate: string, extraTile: char) returns (lines: seq<string>)
    ensures lines == MarksOf(candidate, extraTile)
  {
    lines := [];
    if DigitCount(candidate) >= SizeOfCompleteTiles {
      var parts := Scan(candidate);
      for partIndex := 0 to |parts|
        invariant lines == MarksUpTo(parts, extraTile, partIndex)
      {
        if extraTile in parts[partIndex] {
          var newParts := parts[partIndex := Tr(Sub(parts[partIndex], extraTile))];
          lines := lines + [Join(SortStrings(newParts), "")];
        }
      }
    }
  }

  // ---------------------------------------------------------------------
  // The parts of a rendered candidate

  /** The parts of a list of groups, in order. */
  function PartsOf(l: seq<Group>): (r: seq<string>)
    requires ValidList(l)
    ensures |r| == |l| && forall j :: 0 <= j < |l| ==> r[j] == Part(l[j])
  {
    seq(|l|, j requires 0 <= j < |l| => Part(l[j]))
  }

  /** Scanning a part followed by anything finds the part first. */
  lemma ScanPart(g: Group, rest: string)
    requires ValidGroup(g)
    ensures Scan(Part(g) + rest) == [Part(g)] + Scan(rest)
  {
    var p := Part(g);
    var s := p + rest;
    var digits := p[1..|p| - 1];
    assert s[1..] == digits + ([')'] + rest);
    LeadingDigitsOf(digits, [')'] + rest);
    assert PartLength(s) == |p|;
    assert s[..|p|] == p && s[|p|..] == rest;
  }

  /** Scanning a rendered candidate gives back its parts. */
  lemma {:induction false} ScanRender(l: seq<Group>)
    requires ValidList(l)
    ensures Scan(Render(l)) == PartsOf(l)
  {
    if l != [] {
      ScanFront(l);
      ScanRender(l[1..]);
      PartsFront(l);
    }
  }

  lemma ScanFront(l: seq<Group>)
    requires ValidList(l) && l != []
    ensures Scan(Render(l)) == [Part(l[0])] + Scan(Render(l[1..]))
  {
    ScanPart(l[0], Render(l[1..]));
  }

  lemma PartsFront(l: seq<Group>)
    requires ValidList(l) && l != []
    ensures PartsOf(l) == [Part(l[0])] + PartsOf(l[1..])
  {
  }

  /** The digit x is in a group's part exactly when its value is one of the group's tiles. */
  lemma PartHolds(g: Group, t: int)
    requires ValidGroup(g) && 0 <= t <= 9
    ensures DigitChar(t) in Part(g) <==> t in TilesOf(g)
  {
    var p := Part(g);
    if DigitChar(t) in p {
      var k :| 0 <= k < |p| && p[k] == DigitChar(t);
      assert 0 < k < |p| - 1;
      assert TilesOf(g)[k - 1] == t;
    }
    if t in TilesOf(g) {
      var k :| 0 <= k < |TilesOf(g)| && TilesOf(g)[k] == t;
      assert p[k + 1] == DigitChar(t);
    }
  }

  // ---------------------------------------------------------------------
  // The digits of a line

  lemma {:induction false} DigitBagAppend(a: string, b: string)
    ensures DigitBag(a + b) == DigitBag(a) + DigitBag(b)
  {
    if b != [] {
      var b' := b[..|b| - 1];
      assert (a + b)[..|a + b| - 1] == a + b';
      DigitBagAppend(a, b');
    } else {
      assert a + b == a;
    }
  }

  lemma {:induction false} DigitBagSize(s: string)
    ensures |DigitBag(s)| == DigitCount(s)
  {
    if s != [] {
      DigitBagSize(s[..|s| - 1]);
    }
  }

  /** Turning parentheses into brackets keeps the digits. */
  lemma {:induction false} TrDigits(s: string)
    ensures DigitBag(Tr(s)) == DigitBag(s)
  {
    if s != [] {
      var f := s[..|s| - 1];
      assert Tr(s)[..|s| - 1] == Tr(f);
      TrDigits(f);
    }
  }

  lemma {:induction false} DigitBagCons(c: char, s: string)
    ensures DigitBag([c] + s) == (if IsDigit(c) then multiset{DigitValue(c)} else multiset{}) + DigitBag(s)
  {
    DigitBagAppend([c], s);
    assert [c][..0] == [];
  }

  /** Taking out the first copy of a digit takes one copy of its value out of the digits. */
  lemma {:induction false} SubDigits(s: string, x: char)
    requires IsDigit(x) && x in s
    ensures DigitBag(Sub(s, x)) + multiset{DigitValue(x)} == DigitBag(s)
  {
    assert s == [s[0]] + s[1..];
    DigitBagCons(s[0], s[1..]);
    if s[0] != x {
      SubDigits(s[1..], x);
      DigitBagCons(s[0], Sub(s[1..], x));
    }
  }

  /** The digits of each string of a sequence, added up. */
  ghost function SumBags(ss: seq<string>): multiset<int> {
    if ss == [] then multiset{} else SumBags(ss[..|ss| - 1]) + DigitBag(ss[|ss| - 1])
  }

  /** The digits of strings joined with nothing between them. */
  lemma {:induction false} JoinDigits(ss: seq<string>)
    ensures DigitBag(Join(ss, "")) == SumBags(ss)
  {
    if |ss| > 1 {
      var f := ss[..|ss| - 1];
      JoinDigits(f);
      assert Join(ss, "") == Join(f, "") + "" + ss[|ss| - 1];
      assert Join(f, "") + "" == Join(f, "");
      DigitBagAppend(Join(f, ""), ss[|ss| - 1]);
    } else if |ss| == 1 {
      assert ss[..0] == [];
    }
  }

  lemma {:induction false} SumBagsAppend(a: seq<string>, b: seq<string>)
    ensures SumBags(a + b) == SumBags(a) + SumBags(b)
  {
    if b != [] {
      var b' := b[..|b| - 1];
      assert (a + b)[..|a + b| - 1] == a + b';
      SumBagsAppend(a, b');
    } else {
      assert a + b == a;
    }
  }

  /** The digits of a sequence without its string at k. */
  lemma SumBagsRemove(ss: seq<string>, k: nat)
    requires k < |ss|
    ensures SumBags(ss) == SumBags(ss[..k] + ss[k + 1..]) + DigitBag(ss[k])
  {
    var a := ss[..k];
    var z := ss[k + 1..];
    Around(ss, k);
    SumBagsAppend(a + [ss[k]], z);
    SumBagsLast(a, ss[k]);
    SumBagsAppend(a, z);
  }

  lemma Around<T>(s: seq<T>, k: nat)
    requires k < |s|
    ensures s == s[..k] + [s[k]] + s[k + 1..]
  {
  }

  lemma SumBagsLast(a: seq<string>, x: string)
    ensures SumBags(a + [x]) == SumBags(a) + DigitBag(x)
  {
    assert (a + [x])[..|a|] == a;
  }

  /** The digits of strings do not depend on their order. */
  lemma {:induction false} SumBagsPermutation(a: seq<string>, b: seq<string>)
    requires multiset(a) == multiset(b)
    ensures SumBags(a) == SumBags(b)
    decreases |a|
  {
    if a != [] {
      var n := |a| - 1;
      var x := a[n];
      assert x in multiset(b);
      var k :| 0 <= k < |b| && b[k] == x;
      var b' := b[..k] + b[k + 1..];
      RemoveOne(a, n);
      RemoveOne(b, k);
      SumBagsPermutation(a[..n], b');
      SumBagsRemove(b, k);
    } else {
      assert |b| == |multiset(b)|;
    }
  }

  /** Replacing one string changes the digits by exactly the two strings' digits. */
  lemma SumBagsUpdate(ss: seq<string>, j: nat, q: string)
    requires j < |ss|
    ensures SumBags(ss[j := q]) + DigitBag(ss[j]) == SumBags(ss) + DigitBag(q)
  {
    SumBagsRemove(ss, j);
    SumBagsRemove(ss[j := q], j);
    assert ss[j := q][..j] + ss[j := q][j + 1..] == ss[..j] + ss[j + 1..];
  }

  lemma PartDigits(g: Group)
    requires ValidGroup(g)
    ensures DigitBag(Part(g)) == multiset(TilesOf(g))
  {
    var p := Part(g);
    var ts := TilesOf(g);
    var digits := p[1..|p| - 1];
    assert p == ['('] + digits + [')'];
    DigitBagAppend(['('] + digits, [')']);
    DigitBagAppend(['('], digits);
    assert [')'][..0] == [] && ['('][..0] == [];
    DigitsBag(digits, ts);
  }

  lemma {:induction false} DigitsBag(ds: string, ts: seq<int>)
    requires |ds| == |ts| && forall i :: 0 <= i < |ts| ==> 0 <= ts[i] <= 9 && ds[i] == DigitChar(ts[i])
    ensures DigitBag(ds) == multiset(ts)
  {
    if ds != [] {
      var n := |ds| - 1;
      DigitsBag(ds[..n], ts[..n]);
      assert ts == ts[..n] + [ts[n]];
    }
  }

  /** The digits of the parts of a list of groups are its tiles. */
  lemma {:induction false} PartsDigits(l: seq<Group>)
    requires ValidList(l)
    ensures SumBags(PartsOf(l)) == GroupsBag(l)
  {
    if l != [] {
      PartsDigits(l[1..]);
      PartsOfCons(l);
      SumBagsCons(Part(l[0]), PartsOf(l[1..]));
      PartDigits(l[0]);
    }
  }

  lemma PartsOfCons(l: seq<Group>)
    requires ValidList(l) && l != []
    ensures PartsOf(l) == [Part(l[0])] + PartsOf(l[1..])
  {
  }

  lemma SumBagsCons(x: string, ss: seq<string>)
    ensures SumBags([x] + ss) == DigitBag(x) + SumBags(ss)
  {
    SumBagsAppend([x], ss);
    assert [x][..0] == [];
  }

  /**
   * The round trip of a marked line: its digits and the completing tile
   * are all the tiles of the candidate.
   */
  lemma MarkDigits(l: seq<Group>, j: nat, t: int)
    requires ValidList(l) && j < |l| && 0 <= t <= 9 && DigitChar(t) in Part(l[j])
    ensures DigitBag(Mark(PartsOf(l), j, DigitChar(t))) + multiset{t} == GroupsBag(l)
  {
    var x := DigitChar(t);
    var ps := PartsOf(l);
    var q := Tr(Sub(ps[j], x));
    var newParts := ps[j := q];
    JoinDigits(SortStrings(newParts));
    SumBagsPermutation(SortStrings(newParts), newParts);
    SumBagsUpdate(ps, j, q);
    TrDigits(Sub(ps[j], x));
    SubDigits(ps[j], x);
    PartsDigits(l);
    Cancel(DigitBag(Mark(ps, j, x)), GroupsBag(l), DigitBag(Sub(ps[j], x)), t);
  }

  lemma Cancel(a: multiset<int>, b: multiset<int>, s: multiset<int>, t: int)
    requires a + (s + multiset{t}) == b + s
    ensures a + multiset{t} == b
  {
    forall v ensures (a + multiset{t})[v] == b[v] {
      assert (a + (s + multiset{t}))[v] == (b + s)[v];
    }
  }

  // ---------------------------------------------------------------------
  // The lines of one candidate

  /** Each line for the parts before n comes from one of them that holds x. */
  lemma {:induction false} MarksUpToFrom(parts: seq<string>, x: char, n: nat, line: string) returns (j: nat)
    requires n <= |parts| && line in MarksUpTo(parts, x, n)
    ensures j < n && x in parts[j] && line == Mark(parts, j, x)
  {
    if line in MarksUpTo(parts, x, n - 1) {
      j := MarksUpToFrom(parts, x, n - 1, line);
    } else {
      j := n - 1;
    }
  }

  /** Each part before n that holds x gives a line. */
  lemma {:induction false} MarksUpToHas(parts: seq<string>, x: char, n: nat, j: nat)
    requires j < n <= |parts| && x in parts[j]
    ensures Mark(parts, j, x) in MarksUpTo(parts, x, n)
  {
    MarksUpToStep(parts, x, n);
    if j < n - 1 {
      MarksUpToHas(parts, x, n - 1, j);
    }
  }

  /** The lines for the parts before n are those before n - 1, then the line of part n - 1 if it holds x. */
  lemma MarksUpToStep(parts: seq<string>, x: char, n: nat)
    requires 0 < n <= |parts|
    ensures MarksUpTo(parts, x, n) == MarksUpTo(parts, x, n - 1) + (if x in parts[n - 1] then [Mark(parts, n - 1, x)] else [])
  {
  }

  lemma MarkAllFrom(candidates: seq<string>, x: char, line: string) returns (i: nat)
    requires line in MarkAll(candidates, x)
    ensures i < |candidates| && line in MarksOf(candidates[i], x)
  {
    i := ConcatFrom(MarksEach(candidates, x), line);
  }

  lemma MarkAllHas(candidates: seq<string>, x: char, i: nat, line: string)
    requires i < |candidates| && line in MarksOf(candidates[i], x)
    ensures line in MarkAll(candidates, x)
  {
    ConcatHas(MarksEach(candidates, x), i, line);
  }

  /**
   * The lines of a rendered candidate are exactly the marks of its groups
   * that hold the tile, when it has fourteen tiles, and none otherwise.
   */
  lemma MarksOfRenderFrom(l: seq<Group>, t: int, line: string) returns (j: nat)
    requires ValidList(l) && 0 <= t <= 9 && line in MarksOf(Render(l), DigitChar(t))
    ensures |GroupsBag(l)| >= SizeOfCompleteTiles
    ensures j < |l| && t in TilesOf(l[j]) && line == Mark(PartsOf(l), j, DigitChar(t))
  {
    RenderDigits(l);
    ScanRender(l);
    j := MarksUpToFrom(PartsOf(l), DigitChar(t), |l|, line);
    PartHolds(l[j], t);
  }

  lemma MarksOfRenderHas(l: seq<Group>, t: int, j: nat)
    requires ValidList(l) && 0 <= t <= 9 && |GroupsBag(l)| >= SizeOfCompleteTiles
    requires j < |l| && t in TilesOf(l[j])
    ensures Mark(PartsOf(l), j, DigitChar(t)) in MarksOf(Render(l), DigitChar(t))
  {
    RenderDigits(l);
    ScanRender(l);
    PartHolds(l[j], t);
    MarksUpToHas(PartsOf(l), DigitChar(t), |l|, j);
  }

  /** A rendered candidate has one digit per tile. */
  lemma RenderDigits(l: seq<Group>)
    requires ValidList(l)
    ensures DigitCount(Render(l)) == |GroupsBag(l)|
  {
    DigitBagSize(Render(l));
    ScanRender(l);
    RenderBag(l);
  }

  lemma {:induction false} RenderBag(l: seq<Group>)
    requires ValidList(l)
    ensures DigitBag(Render(l)) == GroupsBag(l)
  {
    if l != [] {
      RenderBag(l[1..]);
      DigitBagAppend(Part(l[0]), Render(l[1..]));
      PartDigits(l[0]);
    }
  }
}
