/**
 * checkAllPattern of the Ruby solver (countTiles.rb): enumerateTiles walks
 * every 13-tile hand of one suit, and checkPattern reads each hand back,
 * searches it, checks the result and prints the hand followed by its
 * waits. The walk is the one Hands.Enumerate defines; what it prints is
 * the log the comparison script reads.
 */
module RubyWalk {
  import opened Tiles
  import opened Text
  import opened Hands
  import opened RubySearch
  import opened RubyTileSet
  import opened RubySearchAll
  import opened RubyCheck
  import CountTilesAll
  import CountTilesEngine

  /** What checkPattern prints for a hand: its digits, a colon, a line feed, then what searchAll returns. */
  ghost function PatternBlock(h: seq<int>): string {
    if TileList(h) then DigitsOf(h) + ":\n" + Output(Lines(h)) else ""
  }

  /** The log checkAllPattern prints: the block of every hand, in the order of the walk. */
  ghost function RubyLog(): string {
    CountTilesAll.Reports(PatternBlock, AllHands())
  }

  /** `puts`: a line feed is added unless the text already ends with one. */
  function Puts(s: string): (r: string)
    ensures r != [] && r[|r| - 1] == '\n'
    ensures s != [] && s[|s| - 1] == '\n' ==> r == s
  {
    if s != [] && s[|s| - 1] == '\n' then s else s + "\n"
  }

  /** `block` writes the block of PatternBlock; instantiated only where a PatternBlock term is written out. */
  ghost predicate WritesPatternBlock(block: seq<int> -> string) {
    forall h {:trigger PatternBlock(h)} :: block(h) == PatternBlock(h)
  }

  /** The tiles a partial pattern of the walk holds: a valid hand below head, with `remaining` tiles still to come. */
  ghost predicate WalkPrefix(pattern: seq<int>, head: int, remaining: nat) {
    && ValidHand(pattern, TileMin)
    && |pattern| + remaining == HandSize
    && (forall k :: 0 <= k < |pattern| ==> pattern[k] < head)
  }

  /** i copies of head appended to a prefix of the walk give a prefix from head + 1. */
  lemma ExtendPrefix(pattern: seq<int>, head: int, remaining: nat, i: nat, p: seq<int>)
    requires WalkPrefix(pattern, head, remaining) && TileMin <= head <= TileMax
    requires i <= remaining && i <= SizeOfOneTile && p == pattern + Repeat(head, i)
    ensures WalkPrefix(p, head + 1, remaining - i)
  {
    forall v ensures multiset(p)[v] <= SizeOfOneTile {
      RepeatCount(head, i, v);
      assert multiset(p) == multiset(pattern) + multiset(Repeat(head, i));
      if v == head {
        assert v !in multiset(pattern);
      }
    }
    forall a, b | 0 <= a < b < |p| ensures p[a] <= p[b] {
      if a < |pattern| && b < |pattern| {
        assert p[a] == pattern[a] && p[b] == pattern[b];
      }
    }
  }

  /** searchAll's text always ends with a line feed, so puts adds none. */
  lemma OutputEnds(solutions: seq<string>)
    ensures var o := Output(solutions); o != [] && o[|o| - 1] == '\n'
  {
  }

  /**
   * checkPattern: pattern.join read back by TileSet.new, searched,
   * checked by checkTiles without a removed tile, and printed after the
   * hand and a colon.
   */
  method CheckPattern(pattern: seq<int>) returns (out: string)
    requires |pattern| == HandSize && ValidHand(pattern, TileMin)
    ensures out == PatternBlock(pattern)
  {
    AllPatternsAccepted(pattern);
    var tileSet := NewTileSet(DigitsOf(pattern));
    var actual := SearchAll(tileSet.value);
    var passed := CheckTiles(actual, None);
    assert passed;
    OutputEnds(Lines(pattern));
    out := Puts(DigitsOf(pattern) + ":\n" + actual);
  }

  /**
   * enumerateTiles: the blocks of every hand that starts with pattern and
   * goes on with `remaining` tiles from head up, the count of head running
   * from min(remaining, 4) down to 0.
   */
  method EnumerateTiles(pattern: seq<int>, head: int, remaining: nat, ghost block: seq<int> -> string)
    returns (out: string)
    requires TileMin <= head && WritesPatternBlock(block) && WalkPrefix(pattern, head, remaining)
    ensures out == CountTilesAll.Reports(block, Prefixed(pattern, Enumerate(head, remaining)))
    decreases TileMax + 1 - head, 3
  {
    CountTilesAll.EnumerateCases(block, pattern, head, remaining);
    if remaining == 0 {
      out := CheckPattern(pattern);
      assert out == block(pattern);
      return;
    }
    if head > TileMax {
      return "";
    }
    out := WalkChoices(pattern, head, remaining, block);
  }

  /** The downto loop: head's count from min(remaining, 4) down to 0. */
  method WalkChoices(pattern: seq<int>, head: int, remaining: nat, ghost block: seq<int> -> string)
    returns (out: string)
    requires TileMin <= head <= TileMax && 0 < remaining
    requires WritesPatternBlock(block) && WalkPrefix(pattern, head, remaining)
    ensures out == CountTilesAll.Lower(block, pattern, head, remaining, Min(remaining, SizeOfOneTile) + 1)
    decreases TileMax + 1 - head, 2
  {
    var n := Min(remaining, SizeOfOneTile);
    var i := n + 1;
    out := "";
    while i > 0
      invariant 0 <= i <= n + 1
      invariant CountTilesAll.Lower(block, pattern, head, remaining, n + 1)
             == out + CountTilesAll.Lower(block, pattern, head, remaining, i)
      decreases i
    {
      i := i - 1;
      out := WalkStep(pattern, head, remaining, i, block, out);
    }
  }

  /** One turn of the downto loop: the blocks with exactly i copies of head are appended. */
  method WalkStep(pattern: seq<int>, head: int, remaining: nat, i: nat, ghost block: seq<int> -> string, out: string)
    returns (next: string)
    requires TileMin <= head <= TileMax && i <= remaining && i <= SizeOfOneTile
    requires WritesPatternBlock(block) && WalkPrefix(pattern, head, remaining)
    ensures out + CountTilesAll.Lower(block, pattern, head, remaining, i + 1)
         == next + CountTilesAll.Lower(block, pattern, head, remaining, i)
    decreases TileMax + 1 - head, 1
  {
    ghost var newPattern := pattern + Repeat(head, i);
    ExtendPrefix(pattern, head, remaining, i, newPattern);
    var sub := WalkCopies(pattern, head, remaining, i, block, newPattern);
    CountTilesAll.LowerNext(block, pattern, head, remaining, i);
    CountTilesEngine.Associative(out, sub, CountTilesAll.Lower(block, pattern, head, remaining, i));
    next := out + sub;
  }

  /** The body of the downto loop: newPattern is pattern with i copies of head, and the walk goes on from head + 1. */
  method WalkCopies(pattern: seq<int>, head: int, remaining: nat, i: nat, ghost block: seq<int> -> string,
                    ghost extended: seq<int>)
    returns (sub: string)
    requires TileMin <= head <= TileMax && i <= remaining
    requires extended == pattern + Repeat(head, i)
    requires WritesPatternBlock(block) && WalkPrefix(extended, head + 1, remaining - i)
    ensures sub == CountTilesAll.Reports(block, Prefixed(pattern + Repeat(head, i), Enumerate(head + 1, remaining - i)))
    decreases TileMax + 1 - head, 0
  {
    var newPattern := pattern + Repeat(head, i);
    sub := EnumerateTiles(newPattern, head + 1, remaining - i, block);
  }

  /** checkAllPattern: the walk from tile 1 with thirteen tiles to place prints the log. */
  method CheckAllPattern() returns (log: string)
    ensures log == RubyLog()
  {
    WalkStart();
    log := EnumerateTiles([], TileMin, HandSize, PatternBlock);
    CountTilesAll.PrefixedEmpty(AllHands());
  }

  /** The walk starts from an empty pattern, and PatternBlock writes its own blocks. */
  lemma WalkStart()
    ensures WalkPrefix([], TileMin, HandSize) && WritesPatternBlock(PatternBlock)
  {
  }

  // ---------------------------------------------------------------------
  // What the log holds

  /** The blocks of a list of hands, block k being that of hand k. */
  lemma {:induction false} ReportsAt(block: seq<int> -> string, hs: seq<seq<int>>, k: nat)
    returns (before: string, after: string)
    requires k < |hs|
    ensures CountTilesAll.Reports(block, hs) == before + block(hs[k]) + after
    ensures before == CountTilesAll.Reports(block, hs[..k])
  {
    if k == 0 {
      before := "";
      after := CountTilesAll.Reports(block, hs[1..]);
      assert hs[..0] == [];
    } else {
      var b, a := ReportsAt(block, hs[1..], k - 1);
      before := block(hs[0]) + b;
      after := a;
      assert hs[1..][..k - 1] == hs[..k][1..];
    }
  }

  /**
   * Every hand of the walk has its block in the log, after the blocks of
   * the hands before it: its digits and a colon, then what searchAll
   * returns, which checkTiles accepts.
   */
  lemma LogBlock(hs: seq<seq<int>>, k: nat) returns (before: string, after: string)
    requires hs == AllHands() && k < |hs|
    ensures |hs[k]| == HandSize && ValidHand(hs[k], TileMin) && TileList(hs[k])
    ensures RubyLog() == before + (DigitsOf(hs[k]) + ":\n" + Output(Lines(hs[k]))) + after
    ensures before == CountTilesAll.Reports(PatternBlock, hs[..k])
    ensures Accepts(Brackets(Output(Lines(hs[k]))), None)
  {
    LogHand(hs, k);
    AllPatternsAccepted(hs[k]);
    before, after := BlockAt(hs, k);
  }

  /** The log is the blocks of the walk's hands, and hand k is a valid hand. */
  lemma LogHand(hs: seq<seq<int>>, k: nat)
    requires hs == AllHands() && k < |hs|
    ensures |hs[k]| == HandSize && ValidHand(hs[k], TileMin) && TileList(hs[k])
    ensures RubyLog() == CountTilesAll.Reports(PatternBlock, hs)
  {
    AllHandsExactly(hs[k]);
  }

  /** The block of hand k in the blocks of a list of hands. */
  lemma BlockAt(hs: seq<seq<int>>, k: nat) returns (before: string, after: string)
    requires k < |hs| && TileList(hs[k])
    ensures CountTilesAll.Reports(PatternBlock, hs) == before + (DigitsOf(hs[k]) + ":\n" + Output(Lines(hs[k]))) + after
    ensures before == CountTilesAll.Reports(PatternBlock, hs[..k])
  {
    before, after := ReportsAt(PatternBlock, hs, k);
  }

  /** The Ruby block of a hand starts with the same header line as the C++ engine's block for it. */
  lemma SameHeader(h: seq<int>)
    requires TileList(h)
    ensures CountTilesAll.HandString(h) == DigitsOf(h)
    ensures CountTilesAll.Report(h)[..|h| + 2] == PatternBlock(h)[..|h| + 2]
  {
    forall i | 0 <= i < |h| ensures CountTilesAll.HandString(h)[i] == DigitsOf(h)[i] {
      assert DigitValue(DigitsOf(h)[i]) == h[i];
    }
  }
}
