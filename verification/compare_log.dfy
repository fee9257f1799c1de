/**
 * The log comparer (countTilesCompareLog.rb): each log is split into blocks,
 * one per hand, at the lines ending in ':'; every other line is normalised
 * by sorting its groups, and a block is printed with its lines sorted; the
 * logs agree when each has 93600 blocks, each equal to the first log's block
 * at the same place.
 */
module CompareLog {
  import opened Text
  import opened Hands

  datatype Error = InternalCheckerError | IndexError
  datatype Result<T> = Ok(value: T) | Err(error: Error)

  /** LOG_BLOCK_SIZE: one block per hand. */
  const LogBlockSize: nat := 93600

  // ---------------------------------------------------------------------
  // scan(/\W\w+\W/)

  /** \w: a letter, a digit or "_". */
  predicate IsWordChar(c: char) {
    'a' <= c <= 'z' || 'A' <= c <= 'Z' || '0' <= c <= '9' || c == '_'
  }

  /** The number of leading word characters. */
  function WordRun(s: string): (n: nat)
    ensures n <= |s|
    ensures forall k :: 0 <= k < n ==> IsWordChar(s[k])
    ensures n < |s| ==> !IsWordChar(s[n])
  {
    if s != [] && IsWordChar(s[0]) then 1 + WordRun(s[1..]) else 0
  }

  /** The matches of /\W\w+\W/, left to right, not overlapping. */
  function Tokens(s: string): seq<string>
    decreases |s|
  {
    if s == [] then []
    else
      var k := WordRun(s[1..]);
      if !IsWordChar(s[0]) && 0 < k && k + 1 < |s| && !IsWordChar(s[k + 1]) then [s[..k + 2]] + Tokens(s[k + 2..])
      else Tokens(s[1..])
  }

  /** A token: a non-word character, word characters, a non-word character, as "(123)" or "[45]". */
  predicate IsToken(t: string) {
    && |t| >= 3 && !IsWordChar(t[0]) && !IsWordChar(t[|t| - 1])
    && forall k :: 0 < k < |t| - 1 ==> IsWordChar(t[k])
  }

  /** add: the tokens of the line, sorted and joined. */
  function Normalise(line: string): string {
    Join(SortStrings(Tokens(line)), "")
  }

  /** The check of add: the sorted tokens are as long as the line. */
  predicate Covered(line: string) {
    |Normalise(line)| == |line|
  }

  /** A line that starts a block. */
  predicate IsHeader(line: string) {
    line != [] && line[|line| - 1] == ':'
  }

  // ---------------------------------------------------------------------
  // TileSet

  /** The contents of a TileSet: its header with a line feed, and its normalised lines. */
  datatype Block = Block(header: string, lines: seq<string>)

  /** toString: the header and the lines sorted, one per line; an error for a block without lines. */
  function BlockString(b: Block): Result<string> {
    if b.lines == [] then Err(InternalCheckerError) else Ok(b.header + Join(SortStrings(b.lines), "\n"))
  }

  /** The results for one hand. */
  class TileSet {
    var header: string
    var lineSet: seq<string>

    constructor(line: string)
      ensures header == line + "\n" && lineSet == []
    {
      header := line + "\n";
      lineSet := [];
    }

    /** add: false where the script raises InternalCheckerError. */
    method Add(line: string) returns (ok: bool)
      modifies this
      ensures ok == Covered(line) && header == old(header)
      ensures lineSet == old(lineSet) + (if ok then [Normalise(line)] else [])
    {
      var sortedLine := Join(SortStrings(Tokens(line)), "");
      if |sortedLine| != |line| {
        return false;
      }
      lineSet := lineSet + [sortedLine];
      ok := true;
    }

    method ToString() returns (r: Result<string>)
      ensures r == BlockString(Block(header, lineSet))
    {
      if lineSet == [] {
        return Err(InternalCheckerError);
      }
      r := Ok(header + Join(SortStrings(lineSet), "\n"));
    }
  }

  // ---------------------------------------------------------------------
  // LogFile

  /** The contents of the TileSets. */
  ghost function BlocksOf(ts: seq<TileSet>): (r: seq<Block>)
    reads ts
    ensures |r| == |ts| && forall i :: 0 <= i < |ts| ==> r[i] == Block(ts[i].header, ts[i].lineSet)
  {
    if ts == [] then [] else BlocksOf(ts[..|ts| - 1]) + [Block(ts[|ts| - 1].header, ts[|ts| - 1].lineSet)]
  }

  /** parseLine on the contents: a header starts a block; any other line goes to the last block, or to none before the first header. */
  function ParseStep(bs: seq<Block>, line: string): Result<seq<Block>> {
    if IsHeader(line) then Ok(bs + [Block(line + "\n", [])])
    else if !Covered(line) then Err(InternalCheckerError)
    else if bs == [] then Ok(bs)
    else Ok(bs[..|bs| - 1] + [Block(bs[|bs| - 1].header, bs[|bs| - 1].lines + [Normalise(line)])])
  }

  /** parseLine on each line in turn, stopping at the first error. */
  function Parse(bs: seq<Block>, lines: seq<string>): Result<seq<Block>>
    decreases |lines|
  {
    if lines == [] then Ok(bs)
    else
      match ParseStep(bs, lines[0])
      case Err(e) => Err(e)
      case Ok(next) => Parse(next, lines[1..])
  }

  /** A log file: the blocks read so far and the block lines go to. */
  class LogFile {
    var tileSet: TileSet
    var fullSet: seq<TileSet>

    /** The current block is the last one, once there is one, and no block is listed twice. */
    ghost predicate Valid()
      reads this
    {
      && (fullSet != [] ==> tileSet == fullSet[|fullSet| - 1])
      && (forall i, j :: 0 <= i < j < |fullSet| ==> fullSet[i] != fullSet[j])
    }

    ghost function Blocks(): seq<Block>
      reads this, fullSet
    {
      BlocksOf(fullSet)
    }

    /** Before any line: lines go to a block of its own that is never listed. */
    constructor()
      ensures Valid() && fullSet == [] && fresh(tileSet)
      ensures tileSet.header == "\n" && tileSet.lineSet == []
    {
      tileSet := new TileSet("");
      fullSet := [];
    }

    /** parseLine: false where the script raises InternalCheckerError. */
    method ParseLine(line: string) returns (ok: bool)
      requires Valid()
      modifies this, tileSet
      ensures Valid() && (tileSet == old(tileSet) || fresh(tileSet))
      ensures ok ==> ParseStep(old(Blocks()), line) == Ok(Blocks())
      ensures !ok ==> ParseStep(old(Blocks()), line).Err?
    {
      if line != [] && line[|line| - 1] == ':' {
        StartBlock(line);
        ok := true;
      } else {
        ok := AddLine(line);
      }
    }

    /** A header line opens a new block and makes it the current one. */
    method StartBlock(line: string)
      requires Valid() && IsHeader(line)
      modifies this
      ensures Valid() && fresh(tileSet)
      ensures Blocks() == old(Blocks()) + [Block(line + "\n", [])]
    {
      tileSet := new TileSet(line);
      fullSet := fullSet + [tileSet];
    }

    /** Any other line goes to the current block, listed or not. */
    method AddLine(line: string) returns (ok: bool)
      requires Valid() && !IsHeader(line)
      modifies tileSet
      ensures Valid() && ok == Covered(line)
      ensures ok ==> ParseStep(old(Blocks()), line) == Ok(Blocks())
    {
      ok := tileSet.Add(line);
      if ok && fullSet != [] {
        var n := |fullSet| - 1;
        assert Blocks()[..n] == old(Blocks())[..n];
      }
    }

    /** The loop of initialize over the lines of the file, each without its line feed. */
    method Load(lines: seq<string>) returns (ok: bool)
      requires Valid()
      modifies this, tileSet
      ensures Valid()
      ensures ok ==> Parse(old(Blocks()), lines) == Ok(Blocks())
      ensures !ok ==> Parse(old(Blocks()), lines).Err?
    {
      var n := 0;
      while n < |lines|
        invariant n <= |lines| && Valid()
        invariant tileSet == old(tileSet) || fresh(tileSet)
        invariant Parse(Blocks(), lines[n..]) == Parse(old(Blocks()), lines)
      {
        ghost var before := Blocks();
        assert lines[n..][1..] == lines[n + 1..];
        var lineOk := ParseLine(lines[n]);
        if !lineOk {
          return false;
        }
        n := n + 1;
      }
      ok := true;
    }

    /** toStringSet: the string of every block, in order. */
    method ToStringSet() returns (r: Result<seq<string>>)
      ensures r == StringSet(Blocks())
    {
      ghost var bs := Blocks();
      var strings: seq<string> := [];
      var i := 0;
      while i < |fullSet|
        invariant i <= |fullSet|
        invariant |strings| == i
        invariant forall k :: 0 <= k < i ==> bs[k].lines != [] && BlockString(bs[k]) == Ok(strings[k])
      {
        var s := fullSet[i].ToString();
        assert bs[i] == Block(fullSet[i].header, fullSet[i].lineSet);
        if s.Err? {
          StringSetErr(bs, i);
          return Err(InternalCheckerError);
        }
        StringsStep(bs, strings, s.value);
        strings := strings + [s.value];
        i := i + 1;
      }
      StringSetOk(bs, strings);
      r := Ok(strings);
    }
  }

  /** map(&:toString): the strings of the blocks; an error when a block has no line. */
  ghost function StringSet(bs: seq<Block>): Result<seq<string>> {
    if exists i :: 0 <= i < |bs| && bs[i].lines == [] then Err(InternalCheckerError)
    else Ok(seq(|bs|, i requires 0 <= i < |bs| => BlockString(bs[i]).value))
  }

  lemma StringSetErr(bs: seq<Block>, i: nat)
    requires i < |bs| && bs[i].lines == []
    ensures StringSet(bs) == Err(InternalCheckerError)
  {
  }

  lemma StringsStep(bs: seq<Block>, strings: seq<string>, s: string)
    requires |strings| < |bs| && BlockString(bs[|strings|]) == Ok(s)
    requires forall k :: 0 <= k < |strings| ==> bs[k].lines != [] && BlockString(bs[k]) == Ok(strings[k])
    ensures forall k :: 0 <= k < |strings| + 1 ==> bs[k].lines != [] && BlockString(bs[k]) == Ok((strings + [s])[k])
  {
  }

  lemma StringSetOk(bs: seq<Block>, strings: seq<string>)
    requires |strings| == |bs|
    requires forall k :: 0 <= k < |bs| ==> bs[k].lines != [] && BlockString(bs[k]) == Ok(strings[k])
    ensures StringSet(bs) == Ok(strings)
  {
    assert !exists k :: 0 <= k < |bs| && bs[k].lines == [];
    var values := seq(|bs|, i requires 0 <= i < |bs| => BlockString(bs[i]).value);
    assert values == strings;
  }

  // ---------------------------------------------------------------------
  // LogFileSet

  /** compareLogPair: every block of the other log equals the base log's block at the same place. */
  function CompareLogPair(base: seq<string>, other: seq<string>): bool
    requires |base| == |other|
  {
    forall i :: 0 <= i < |base| ==> base[i] == other[i]
  }

  /** The all? loop of compare over the other logs. */
  function CompareWith(base: seq<string>, others: seq<seq<string>>): Result<bool>
    decreases |others|
  {
    if others == [] then Ok(true)
    else if |others[0]| != |base| then Err(IndexError)
    else if |base| != LogBlockSize then Ok(false)
    else if !CompareLogPair(base, others[0]) then Ok(false)
    else CompareWith(base, others[1..])
  }

  /** compare: the first log against each of the others; an error without another log. */
  function Compare(logs: seq<seq<string>>): Result<bool> {
    if |logs| < 2 then Err(InternalCheckerError) else CompareWith(logs[0], logs[1..])
  }

  // ---------------------------------------------------------------------
  // Properties of compare

  /** Two logs of one length agree pairwise exactly when they are equal. */
  lemma PairEqual(base: seq<string>, other: seq<string>)
    requires |base| == |other|
    ensures CompareLogPair(base, other) <==> base == other
  {
    if CompareLogPair(base, other) {
      assert base == other;
    }
  }

  /** The loop passes exactly when every other log is the base log, and the base log has a block per hand. */
  lemma {:induction false} CompareWithTrue(base: seq<string>, others: seq<seq<string>>)
    ensures CompareWith(base, others) == Ok(true) <==>
      (others == [] || |base| == LogBlockSize) && forall i :: 0 <= i < |others| ==> others[i] == base
    decreases |others|
  {
    if others != [] {
      CompareWithTrue(base, others[1..]);
      if |others[0]| == |base| {
        PairEqual(base, others[0]);
      }
      if CompareWith(base, others) == Ok(true) {
        assert forall i :: 1 <= i < |others| ==> others[i] == others[1..][i - 1];
      }
    }
  }

  /** The loop raises IndexError only at an other log of another length than the base log. */
  lemma {:induction false} CompareWithError(base: seq<string>, others: seq<seq<string>>)
    ensures CompareWith(base, others) != Err(InternalCheckerError)
    ensures CompareWith(base, others) == Err(IndexError) ==> exists i :: 0 <= i < |others| && |others[i]| != |base|
    ensures (forall i :: 0 <= i < |others| ==> |others[i]| == |base|) ==> CompareWith(base, others).Ok?
    decreases |others|
  {
    if others != [] {
      CompareWithError(base, others[1..]);
      if CompareWith(base, others) == Err(IndexError) && |others[0]| == |base| {
        var i :| 0 <= i < |others[1..]| && |others[1..][i]| != |base|;
        assert |others[i + 1]| != |base|;
      }
    }
  }

  /** compare is true exactly when there are two logs or more, all equal to the first, which has a block per hand. */
  lemma CompareTrue(logs: seq<seq<string>>)
    ensures Compare(logs) == Ok(true) <==>
      |logs| >= 2 && |logs[0]| == LogBlockSize && forall i :: 0 <= i < |logs| ==> logs[i] == logs[0]
  {
    if |logs| >= 2 {
      CompareWithTrue(logs[0], logs[1..]);
      assert forall i :: 1 <= i < |logs| ==> logs[i] == logs[1..][i - 1];
    }
  }

  /** compare raises InternalCheckerError exactly without a second log, and IndexError only at logs of different lengths. */
  lemma CompareErrors(logs: seq<seq<string>>)
    ensures Compare(logs) == Err(InternalCheckerError) <==> |logs| < 2
    ensures Compare(logs) == Err(IndexError) ==> exists i :: 1 <= i < |logs| && |logs[i]| != |logs[0]|
    ensures (|logs| >= 2 && forall i :: 0 <= i < |logs| ==> |logs[i]| == |logs[0]|) ==> Compare(logs).Ok?
  {
    if |logs| >= 2 {
      CompareWithError(logs[0], logs[1..]);
      if Compare(logs) == Err(IndexError) {
        var i :| 0 <= i < |logs[1..]| && |logs[1..][i]| != |logs[0]|;
        assert |logs[i + 1]| != |logs[0]|;
      }
    }
  }

  /** A log passes only with one block for each hand the solvers enumerate. */
  lemma BlockPerHand()
    ensures LogBlockSize == |AllHands()|
  {
    AllHandsCount();
  }

  // ---------------------------------------------------------------------
  // Properties of add and toString

  /** join with no separator is concatenation. */
  lemma {:induction false} JoinConcat(ss: seq<string>)
    ensures Join(ss, "") == Concat(ss)
    decreases |ss|
  {
    if |ss| == 1 {
      assert ss[..0] == [];
    } else if |ss| > 1 {
      JoinConcat(ss[..|ss| - 1]);
    }
  }

  /** Reordering the strings does not change the length of their concatenation. */
  lemma {:induction false} ConcatLength(a: seq<string>, b: seq<string>)
    requires multiset(a) == multiset(b)
    ensures |Concat(a)| == |Concat(b)|
    decreases |a|
  {
    if a == [] {
      assert |b| == |multiset(b)|;
    } else {
      var n := |a| - 1;
      var k := Matching(a, b);
      ConcatLength(a[..n], b[..k] + b[k + 1..]);
      ConcatLastLength(a);
      ConcatSplitLength(b[..k], b[k], b[k + 1..]);
      assert b == b[..k] + ([b[k]] + b[k + 1..]);
    }
  }

  /** The last string of a has a match in b, and what is left of both are still permutations of each other. */
  lemma Matching(a: seq<string>, b: seq<string>) returns (k: nat)
    requires a != [] && multiset(a) == multiset(b)
    ensures k < |b| && b[k] == a[|a| - 1]
    ensures multiset(a[..|a| - 1]) == multiset(b[..k] + b[k + 1..])
  {
    var n := |a| - 1;
    assert a[n] in multiset(b);
    k :| 0 <= k < |b| && b[k] == a[n];
    RemoveOne(a, n);
    RemoveOne(b, k);
    assert a[..n] + a[n + 1..] == a[..n];
  }

  /** The length of a concatenation is that without its last string plus that string's. */
  lemma ConcatLastLength(a: seq<string>)
    requires a != []
    ensures |Concat(a)| == |Concat(a[..|a| - 1])| + |a[|a| - 1]|
  {
    ConcatLast(a[..|a| - 1], a[|a| - 1]);
    assert a == a[..|a| - 1] + [a[|a| - 1]];
  }

  /** A string in the middle of a list adds its length to the concatenation. */
  lemma ConcatSplitLength(front: seq<string>, x: string, back: seq<string>)
    ensures |Concat(front + ([x] + back))| == |Concat(front + back)| + |x|
  {
    ConcatAppend(front, back);
    ConcatAppend(front, [x] + back);
    ConcatFront(x, back);
  }

  /** The matches are pieces of the line in order, so together no longer than it, and as long only when they are all of it. */
  lemma {:induction false} TokensLength(s: string)
    ensures |Concat(Tokens(s))| <= |s|
    ensures |Concat(Tokens(s))| == |s| ==> Concat(Tokens(s)) == s
    decreases |s|
  {
    if s != [] {
      var k := WordRun(s[1..]);
      if !IsWordChar(s[0]) && 0 < k && k + 1 < |s| && !IsWordChar(s[k + 1]) {
        TokensLength(s[k + 2..]);
        ConcatFront(s[..k + 2], Tokens(s[k + 2..]));
        assert s == s[..k + 2] + s[k + 2..];
      } else {
        TokensLength(s[1..]);
      }
    }
  }

  /** The check of add passes exactly when the matches make up the whole line. */
  lemma CoveredIff(line: string)
    ensures Covered(line) <==> Concat(Tokens(line)) == line
  {
    var ts := Tokens(line);
    JoinConcat(SortStrings(ts));
    ConcatLength(SortStrings(ts), ts);
    TokensLength(line);
  }

  /** A token at the front of a line is its first match. */
  lemma TokensAppend(t: string, rest: string)
    requires IsToken(t)
    ensures Tokens(t + rest) == [t] + Tokens(rest)
  {
    var s := t + rest;
    var k := WordRun(s[1..]);
    assert s[1..][|t| - 2] == t[|t| - 1];
    assert forall j :: 0 <= j < |t| - 2 ==> s[1..][j] == t[j + 1];
    assert k == |t| - 2;
    assert s[..k + 2] == t && s[k + 2..] == rest;
  }

  /** A line made of tokens matches exactly those tokens. */
  lemma {:induction false} TokensOf(parts: seq<string>)
    requires forall i :: 0 <= i < |parts| ==> IsToken(parts[i])
    ensures Tokens(Concat(parts)) == parts
    decreases |parts|
  {
    if parts != [] {
      ConcatFront(parts[0], parts[1..]);
      assert [parts[0]] + parts[1..] == parts;
      TokensAppend(parts[0], Concat(parts[1..]));
      TokensOf(parts[1..]);
    }
  }

  /** A line made of tokens passes the check of add and becomes its tokens in sorted order. */
  lemma TokenLine(parts: seq<string>)
    requires forall i :: 0 <= i < |parts| ==> IsToken(parts[i])
    ensures Covered(Concat(parts))
    ensures Normalise(Concat(parts)) == Join(SortStrings(parts), "")
  {
    TokensOf(parts);
    CoveredIff(Concat(parts));
  }

  /** Lines with the same tokens in another order are added as the same string. */
  lemma TokenOrder(p: seq<string>, q: seq<string>)
    requires forall i :: 0 <= i < |p| ==> IsToken(p[i])
    requires multiset(p) == multiset(q)
    ensures Covered(Concat(q))
    ensures Normalise(Concat(p)) == Normalise(Concat(q))
  {
    forall i | 0 <= i < |q|
      ensures IsToken(q[i])
    {
      assert q[i] in multiset(p);
    }
    TokenLine(p);
    TokenLine(q);
    SortedUnique(SortStrings(p), SortStrings(q));
  }

  /** Blocks with one header and the same lines in another order print the same. */
  lemma LineOrder(a: Block, b: Block)
    requires a.header == b.header && multiset(a.lines) == multiset(b.lines)
    ensures BlockString(a) == BlockString(b)
  {
    if a.lines != [] {
      assert a.lines[0] in multiset(b.lines);
      SortedUnique(SortStrings(a.lines), SortStrings(b.lines));
    } else {
      assert |b.lines| == |multiset(b.lines)|;
    }
  }

  // ---------------------------------------------------------------------
  // Properties of reading a log

  /** The headers among the lines, in order, each with its line feed. */
  function Headers(lines: seq<string>): seq<string> {
    if lines == [] then []
    else (if IsHeader(lines[0]) then [lines[0] + "\n"] else []) + Headers(lines[1..])
  }

  /** Reading fails exactly at a line that is neither a header nor made of its matches. */
  lemma {:induction false} ParseFails(bs: seq<Block>, lines: seq<string>)
    ensures Parse(bs, lines).Err? <==> exists i :: 0 <= i < |lines| && !IsHeader(lines[i]) && !Covered(lines[i])
    ensures Parse(bs, lines).Err? ==> Parse(bs, lines) == Err(InternalCheckerError)
    decreases |lines|
  {
    if lines != [] {
      var step := ParseStep(bs, lines[0]);
      if step.Ok? {
        ParseFails(step.value, lines[1..]);
        if exists i :: 0 <= i < |lines| && !IsHeader(lines[i]) && !Covered(lines[i]) {
          var i :| 0 <= i < |lines| && !IsHeader(lines[i]) && !Covered(lines[i]);
          assert lines[1..][i - 1] == lines[i];
        }
        if Parse(bs, lines).Err? {
          var i :| 0 <= i < |lines[1..]| && !IsHeader(lines[1..][i]) && !Covered(lines[1..][i]);
          assert lines[i + 1] == lines[1..][i];
        }
      }
    }
  }

  /** One line keeps the headers of the blocks and adds one block exactly for a header. */
  lemma StepHeaders(bs: seq<Block>, line: string)
    requires ParseStep(bs, line).Ok?
    ensures HeadersAfter(bs, [line], ParseStep(bs, line).value)
  {
    assert [line][1..] == [];
  }

  /** r holds the blocks of bs, then one block per header of lines, in order. */
  ghost predicate HeadersAfter(bs: seq<Block>, lines: seq<string>, r: seq<Block>) {
    && |r| == |bs| + |Headers(lines)|
    && (forall i :: 0 <= i < |bs| ==> r[i].header == bs[i].header)
    && (forall i :: 0 <= i < |Headers(lines)| ==> r[|bs| + i].header == Headers(lines)[i])
  }

  /** The blocks read are the blocks before followed by one block per header, in order. */
  lemma {:induction false} ParseHeaders(bs: seq<Block>, lines: seq<string>, r: seq<Block>)
    requires Parse(bs, lines) == Ok(r)
    ensures |r| == |bs| + |Headers(lines)|
    ensures forall i :: 0 <= i < |bs| ==> r[i].header == bs[i].header
    ensures forall i :: 0 <= i < |Headers(lines)| ==> r[|bs| + i].header == Headers(lines)[i]
    decreases |lines|
  {
    if lines != [] {
      var next := ParseStep(bs, lines[0]).value;
      StepHeaders(bs, lines[0]);
      ParseHeaders(next, lines[1..], r);
      HeadersCompose(bs, next, r, lines);
    }
  }

  /** Headers of one line then of the rest, composed. */
  lemma HeadersCompose(bs: seq<Block>, next: seq<Block>, r: seq<Block>, lines: seq<string>)
    requires lines != [] && HeadersAfter(bs, [lines[0]], next) && HeadersAfter(next, lines[1..], r)
    ensures HeadersAfter(bs, lines, r)
  {
    var h0, hs := Headers([lines[0]]), Headers(lines[1..]);
    assert [lines[0]][1..] == [];
    assert h0 == (if IsHeader(lines[0]) then [lines[0] + "\n"] else []) + Headers([]);
    assert Headers(lines) == h0 + hs;
    forall i | 0 <= i < |Headers(lines)|
      ensures r[|bs| + i].header == Headers(lines)[i]
    {
      if i >= |h0| {
        assert r[|next| + (i - |h0|)].header == hs[i - |h0|];
      }
    }
  }

  /** Lines before the first header go to the unlisted block and change nothing. */
  lemma {:induction false} LeadingLines(pre: seq<string>, rest: seq<string>)
    requires forall i :: 0 <= i < |pre| ==> !IsHeader(pre[i]) && Covered(pre[i])
    ensures Parse([], pre + rest) == Parse([], rest)
    decreases |pre|
  {
    if pre != [] {
      assert (pre + rest)[1..] == pre[1..] + rest;
      LeadingLines(pre[1..], rest);
    } else {
      assert pre + rest == rest;
    }
  }
}
