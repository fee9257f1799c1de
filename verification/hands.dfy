/**
 * The ordered walk over every 13-tile hand of one suit: sorted tile
 * sequences over 1..9 with at most four copies of a value, visited in
 * lexicographic order (the most copies of the smallest value first).
 */
module Hands {
  import opened Tiles

  /** Tiles in a hand before the completing tile is drawn. */
  const HandSize: nat := SizeOfCompleteTiles - 1

  /** The number of hands the walk visits. */
  const NumberOfHands: nat := 93600

  function Min(a: nat, b: nat): nat {
    if a <= b then a else b
  }

  /** Every hand of a list, prefixed with the same tiles. */
  function Prefixed(p: seq<int>, hs: seq<seq<int>>): (r: seq<seq<int>>)
    ensures |r| == |hs|
  {
    if hs == [] then [] else [p + hs[0]] + Prefixed(p, hs[1..])
  }

  lemma {:induction false} PrefixedAt(p: seq<int>, hs: seq<seq<int>>, k: nat)
    requires k < |hs|
    ensures Prefixed(p, hs)[k] == p + hs[k]
  {
    if k > 0 {
      PrefixedAt(p, hs[1..], k - 1);
    }
  }

  /**
   * Every sorted hand of `remaining` tiles drawn from the values head..9
   * with at most four copies of a value: first those with the most copies
   * of `head`, down to those with none.
   */
  function Enumerate(head: int, remaining: nat): seq<seq<int>>
    decreases TileMax + 1 - head, SizeOfOneTile + 1
  {
    if remaining == 0 then [[]]
    else if head > TileMax then []
    else Choices(head, remaining, Min(remaining, SizeOfOneTile))
  }

  /** The hands with i, i - 1, ..., 0 copies of `head`, in that order. */
  function Choices(head: int, remaining: nat, i: nat): seq<seq<int>>
    requires head <= TileMax && i <= remaining && i <= SizeOfOneTile
    decreases TileMax + 1 - head, i
  {
    Prefixed(Repeat(head, i), Enumerate(head + 1, remaining - i))
    + (if i == 0 then [] else Choices(head, remaining, i - 1))
  }

  /** Every hand of the suit, in the order the drivers visit them. */
  function AllHands(): seq<seq<int>> {
    Enumerate(TileMin, HandSize)
  }

  /** A sorted hand over the values head..9 with at most four copies of a value. */
  ghost predicate ValidHand(s: seq<int>, head: int) {
    && Sorted(s)
    && (forall i :: 0 <= i < |s| ==> head <= s[i] <= TileMax)
    && (forall v :: multiset(s)[v] <= SizeOfOneTile)
  }

  /** The count of each tile value in a hand. */
  function HandCounts(h: seq<int>): (c: Counts)
  {
    seq(10, v => multiset(h)[v])
  }

  /** Strict lexicographic order on sequences of tile values. */
  predicate LexLess(a: seq<int>, b: seq<int>) {
    |a| > 0 && |b| > 0 && (a[0] < b[0] || (a[0] == b[0] && LexLess(a[1..], b[1..])))
  }

  ghost predicate StrictlyIncreasing(hs: seq<seq<int>>) {
    forall a, b :: 0 <= a < b < |hs| ==> LexLess(hs[a], hs[b])
  }

  // ---------------------------------------------------------------------
  // Membership

  /** `h` is `j` copies of `head` followed by a hand of the walk from head + 1. */
  ghost predicate InBlock(head: int, remaining: nat, j: nat, h: seq<int>) {
    && j <= remaining && j <= |h|
    && h[..j] == Repeat(head, j)
    && h[j..] in Enumerate(head + 1, remaining - j)
  }

  lemma {:induction false} PrefixedMember(p: seq<int>, hs: seq<seq<int>>, h: seq<int>)
    ensures h in Prefixed(p, hs) <==> |p| <= |h| && h[..|p|] == p && h[|p|..] in hs
  {
    if hs != [] {
      PrefixedMember(p, hs[1..], h);
      assert Prefixed(p, hs) == [p + hs[0]] + Prefixed(p, hs[1..]);
      if h == p + hs[0] {
        assert h[..|p|] == p && h[|p|..] == hs[0];
      }
      if |p| <= |h| && h[..|p|] == p && h[|p|..] == hs[0] {
        assert h == h[..|p|] + h[|p|..];
      }
    }
  }

  lemma {:induction false} ChoicesMember(head: int, remaining: nat, i: nat, h: seq<int>)
    requires head <= TileMax && i <= remaining && i <= SizeOfOneTile
    ensures h in Choices(head, remaining, i) <==> exists j: nat :: j <= i && InBlock(head, remaining, j, h)
    decreases i
  {
    var block := Prefixed(Repeat(head, i), Enumerate(head + 1, remaining - i));
    var rest := if i == 0 then [] else Choices(head, remaining, i - 1);
    assert Choices(head, remaining, i) == block + rest;
    PrefixedMember(Repeat(head, i), Enumerate(head + 1, remaining - i), h);
    if h in Choices(head, remaining, i) {
      if h in block {
        assert InBlock(head, remaining, i, h);
      } else {
        assert h in rest;
        ChoicesMember(head, remaining, i - 1, h);
      }
    }
    if exists j: nat :: j <= i && InBlock(head, remaining, j, h) {
      var j: nat :| j <= i && InBlock(head, remaining, j, h);
      if j == i {
        assert h in block;
      } else {
        ChoicesMember(head, remaining, i - 1, h);
        assert h in rest;
      }
    }
  }

  lemma RepeatCount(t: int, n: nat, v: int)
    ensures multiset(Repeat(t, n))[v] == if v == t then n else 0
  {
    if n > 0 {
      assert Repeat(t, n) == [t] + Repeat(t, n - 1);
      RepeatCount(t, n - 1, v);
    }
  }

  /** Every hand the walk yields is a valid hand of the right size. */
  lemma {:induction false} EnumerateSound(head: int, remaining: nat, h: seq<int>)
    requires h in Enumerate(head, remaining)
    ensures |h| == remaining && ValidHand(h, head)
    decreases TileMax + 1 - head
  {
    if remaining > 0 {
      ChoicesMember(head, remaining, Min(remaining, SizeOfOneTile), h);
      var j: nat :| j <= Min(remaining, SizeOfOneTile) && InBlock(head, remaining, j, h);
      var s := h[j..];
      assert h == Repeat(head, j) + s by {
        assert h == h[..j] + h[j..];
      }
      EnumerateSound(head + 1, remaining - j, s);
      PrependValid(head, j, s);
    }
  }

  lemma PrependValid(head: int, j: nat, s: seq<int>)
    requires j <= SizeOfOneTile && head <= TileMax
    requires ValidHand(s, head + 1)
    ensures ValidHand(Repeat(head, j) + s, head)
  {
    var h := Repeat(head, j) + s;
    forall v ensures multiset(h)[v] <= SizeOfOneTile {
      RepeatCount(head, j, v);
      assert multiset(h) == multiset(Repeat(head, j)) + multiset(s);
      if v == head {
        assert v !in multiset(s);
      }
    }
    forall a, b | 0 <= a < b < |h| ensures h[a] <= h[b] {
      if b >= j {
        assert h[b] == s[b - j];
      }
      if a >= j {
        assert h[a] == s[a - j];
      }
    }
  }

  /** How many copies of `t` a sequence starts with. */
  function Leading(s: seq<int>, t: int): (n: nat)
    ensures n <= |s|
    ensures forall i :: 0 <= i < n ==> s[i] == t
    ensures n < |s| ==> s[n] != t
  {
    if s == [] || s[0] != t then 0 else 1 + Leading(s[1..], t)
  }

  /** Every valid hand is yielded by the walk. */
  lemma {:induction false} EnumerateComplete(head: int, remaining: nat, h: seq<int>)
    requires |h| == remaining && ValidHand(h, head)
    ensures h in Enumerate(head, remaining)
    decreases TileMax + 1 - head
  {
    if remaining == 0 {
      assert h == [];
    } else {
      assert head <= h[0] <= TileMax;
      var j := Leading(h, head);
      var s := h[j..];
      assert h[..j] == Repeat(head, j);
      SuffixValid(head, h, j);
      EnumerateComplete(head + 1, remaining - j, s);
      assert InBlock(head, remaining, j, h);
      ChoicesMember(head, remaining, Min(remaining, SizeOfOneTile), h);
    }
  }

  /** Dropping the leading copies of `head` from a valid hand leaves a valid hand over head + 1..9. */
  lemma SuffixValid(head: int, h: seq<int>, j: nat)
    requires ValidHand(h, head) && j == Leading(h, head)
    ensures j <= SizeOfOneTile
    ensures ValidHand(h[j..], head + 1)
  {
    LeadingCount(h, head);
    var s := h[j..];
    forall i | 0 <= i < |s| ensures head + 1 <= s[i] <= TileMax {
      assert h[j] <= h[j + i];
    }
    SuffixBag(h, j);
  }

  lemma {:induction false} LeadingCount(h: seq<int>, t: int)
    ensures Leading(h, t) <= multiset(h)[t]
  {
    if h != [] && h[0] == t {
      LeadingCount(h[1..], t);
      assert h == [t] + h[1..];
      assert multiset(h) == multiset{t} + multiset(h[1..]);
    }
  }

  lemma SuffixBag(h: seq<int>, j: nat)
    requires j <= |h|
    ensures multiset(h[j..]) <= multiset(h)
  {
    assert h == h[..j] + h[j..];
  }

  /** The hands the drivers visit are exactly the valid 13-tile hands. */
  lemma AllHandsExactly(h: seq<int>)
    ensures h in AllHands() <==> |h| == HandSize && ValidHand(h, TileMin)
  {
    if h in AllHands() {
      EnumerateSound(TileMin, HandSize, h);
    }
    if |h| == HandSize && ValidHand(h, TileMin) {
      EnumerateComplete(TileMin, HandSize, h);
    }
  }

  // ---------------------------------------------------------------------
  // Order

  lemma {:induction false} LexAt(a: seq<int>, b: seq<int>, j: nat)
    requires j < |a| && j < |b| && a[..j] == b[..j] && a[j] < b[j]
    ensures LexLess(a, b)
  {
    if j > 0 {
      assert a[0] == a[..j][0] == b[..j][0] == b[0];
      assert a[1..][..j - 1] == a[..j][1..] == b[..j][1..] == b[1..][..j - 1];
      LexAt(a[1..], b[1..], j - 1);
    }
  }

  lemma {:induction false} LexPrefix(p: seq<int>, a: seq<int>, b: seq<int>)
    requires LexLess(a, b)
    ensures LexLess(p + a, p + b)
  {
    if p != [] {
      assert (p + a)[0] == p[0] == (p + b)[0];
      assert (p + a)[1..] == p[1..] + a;
      assert (p + b)[1..] == p[1..] + b;
      LexPrefix(p[1..], a, b);
    } else {
      assert p + a == a && p + b == b;
    }
  }

  lemma PrefixedIncreasing(p: seq<int>, hs: seq<seq<int>>)
    requires StrictlyIncreasing(hs)
    ensures StrictlyIncreasing(Prefixed(p, hs))
  {
    forall a, b | 0 <= a < b < |hs| ensures LexLess(Prefixed(p, hs)[a], Prefixed(p, hs)[b]) {
      PrefixedAt(p, hs, a);
      PrefixedAt(p, hs, b);
      LexPrefix(p, hs[a], hs[b]);
    }
  }

  lemma ConcatIncreasing(xs: seq<seq<int>>, ys: seq<seq<int>>)
    requires StrictlyIncreasing(xs) && StrictlyIncreasing(ys)
    requires forall x, y :: x in xs && y in ys ==> LexLess(x, y)
    ensures StrictlyIncreasing(xs + ys)
  {
    var zs := xs + ys;
    forall a, b | 0 <= a < b < |zs| ensures LexLess(zs[a], zs[b]) {
      if b < |xs| {
        assert zs[a] == xs[a] && zs[b] == xs[b];
      } else if a >= |xs| {
        assert zs[a] == ys[a - |xs|] && zs[b] == ys[b - |xs|];
      } else {
        assert zs[a] in xs && zs[b] in ys;
      }
    }
  }

  /** A hand with more copies of `head` comes before one with fewer. */
  lemma BlockBefore(head: int, remaining: nat, i: nat, x: seq<int>, y: seq<int>)
    requires head <= TileMax && 0 < i <= remaining && i <= SizeOfOneTile
    requires x in Prefixed(Repeat(head, i), Enumerate(head + 1, remaining - i))
    requires y in Choices(head, remaining, i - 1)
    ensures LexLess(x, y)
  {
    PrefixedMember(Repeat(head, i), Enumerate(head + 1, remaining - i), x);
    ChoicesMember(head, remaining, i - 1, y);
    var j: nat :| j <= i - 1 && InBlock(head, remaining, j, y);
    RepeatPrefix(head, i, j, x);
    BlockAfter(head, remaining, j, y);
    LexAt(x, y, j);
  }

  /** A hand that starts with i copies of head starts with j of them and has head at j, for j < i. */
  lemma RepeatPrefix(head: int, i: nat, j: nat, x: seq<int>)
    requires j < i <= |x| && x[..i] == Repeat(head, i)
    ensures x[..j] == Repeat(head, j) && x[j] == head
  {
    assert x[..j] == x[..i][..j];
    assert x[j] == x[..i][j];
  }

  /** In the block of j copies of head, the tile after the copies is above head. */
  lemma BlockAfter(head: int, remaining: nat, j: nat, y: seq<int>)
    requires j < remaining && InBlock(head, remaining, j, y)
    ensures j < |y| && y[j] > head
  {
    EnumerateSound(head + 1, remaining - j, y[j..]);
    assert y[j] == y[j..][0];
  }

  lemma {:induction false} ChoicesIncreasing(head: int, remaining: nat, i: nat)
    requires head <= TileMax && i <= remaining && i <= SizeOfOneTile
    ensures StrictlyIncreasing(Choices(head, remaining, i))
    decreases TileMax + 1 - head, i
  {
    var block := Prefixed(Repeat(head, i), Enumerate(head + 1, remaining - i));
    EnumerateIncreasing(head + 1, remaining - i);
    PrefixedIncreasing(Repeat(head, i), Enumerate(head + 1, remaining - i));
    if i == 0 {
      assert Choices(head, remaining, i) == block + [];
      assert block + [] == block;
    } else {
      var rest := Choices(head, remaining, i - 1);
      ChoicesIncreasing(head, remaining, i - 1);
      forall x, y | x in block && y in rest ensures LexLess(x, y) {
        BlockBefore(head, remaining, i, x, y);
      }
      ConcatIncreasing(block, rest);
    }
  }

  /** The walk visits hands in strictly increasing lexicographic order, so none twice. */
  lemma {:induction false} EnumerateIncreasing(head: int, remaining: nat)
    ensures StrictlyIncreasing(Enumerate(head, remaining))
    decreases TileMax + 1 - head, SizeOfOneTile + 1
  {
    if remaining > 0 && head <= TileMax {
      ChoicesIncreasing(head, remaining, Min(remaining, SizeOfOneTile));
    }
  }

  lemma {:induction false} LexIrreflexive(a: seq<int>)
    ensures !LexLess(a, a)
  {
    if |a| > 0 {
      LexIrreflexive(a[1..]);
    }
  }

  /** No hand is visited twice. */
  lemma AllHandsDistinct(a: nat, b: nat)
    requires a < b < |AllHands()|
    ensures AllHands()[a] != AllHands()[b]
  {
    EnumerateIncreasing(TileMin, HandSize);
    LexIrreflexive(AllHands()[a]);
  }

  /** The smallest hand of r tiles over head..9: as many copies of each value as allowed, lowest first. */
  function Greedy(head: int, r: nat): (g: seq<int>)
    ensures |g| == r
    decreases r
  {
    if r == 0 then [] else Repeat(head, Min(r, SizeOfOneTile)) + Greedy(head + 1, r - Min(r, SizeOfOneTile))
  }

  /** The walk starts from the greedy hand whenever there is a hand at all. */
  lemma {:induction false} EnumerateFirst(head: int, r: nat)
    requires head <= TileMax + 1 && r <= SizeOfOneTile * (TileMax + 1 - head)
    ensures |Enumerate(head, r)| > 0 && Enumerate(head, r)[0] == Greedy(head, r)
    decreases r
  {
    if r > 0 {
      var i := Min(r, SizeOfOneTile);
      var rest := Enumerate(head + 1, r - i);
      EnumerateFirst(head + 1, r - i);
      PrefixedAt(Repeat(head, i), rest, 0);
      assert Choices(head, r, i) == Prefixed(Repeat(head, i), rest)
        + (if i == 0 then [] else Choices(head, r, i - 1));
    }
  }

  /** In the greedy hand the k-th tile is head + k / 4. */
  lemma {:induction false} GreedyAt(head: int, r: nat, k: nat)
    requires k < r
    ensures Greedy(head, r)[k] == head + k / SizeOfOneTile
    decreases r
  {
    var i := Min(r, SizeOfOneTile);
    var rest := Greedy(head + 1, r - i);
    assert Greedy(head, r) == Repeat(head, i) + rest;
    if r - i > 0 {
      GreedyAt(head + 1, r - i, 0);
    } else {
      assert rest == [];
    }
    if k >= i {
      GreedyAt(head + 1, r - i, k - i);
    }
  }

  /** The first hand visited is 1111222233334: its k-th tile is 1 + k / 4. */
  lemma FirstHand()
    ensures |AllHands()| > 0 && |AllHands()[0]| == HandSize
    ensures forall k :: 0 <= k < HandSize ==> AllHands()[0][k] == TileMin + k / SizeOfOneTile
  {
    EnumerateFirst(TileMin, HandSize);
    forall k | 0 <= k < HandSize ensures AllHands()[0][k] == TileMin + k / SizeOfOneTile {
      GreedyAt(TileMin, HandSize, k);
    }
  }

  // ---------------------------------------------------------------------
  // Size

  /** The number of hands of r tiles over the values head..9 (none of a negative size). */
  function Count(head: int, r: int): nat
    decreases TileMax + 1 - head
  {
    if r < 0 then 0
    else if r == 0 then 1
    else if head > TileMax then 0
    else (Count(head + 1, r) + Count(head + 1, r - 1) + Count(head + 1, r - 2)
          + Count(head + 1, r - 3) + Count(head + 1, r - 4))
  }

  /** The hands of r tiles with at most i copies of `head`. */
  function Partial(head: int, r: int, i: nat): nat
    requires head <= TileMax
  {
    Count(head + 1, r - i) + (if i == 0 then 0 else Partial(head, r, i - 1))
  }

  lemma {:induction false} ChoicesCount(head: int, remaining: nat, i: nat)
    requires head <= TileMax && i <= remaining && i <= SizeOfOneTile
    ensures |Choices(head, remaining, i)| == Partial(head, remaining, i)
    decreases TileMax + 1 - head, i
  {
    EnumerateCount(head + 1, remaining - i);
    if i > 0 {
      ChoicesCount(head, remaining, i - 1);
    }
  }

  /** The walk yields exactly Count(head, remaining) hands. */
  lemma {:induction false} EnumerateCount(head: int, remaining: nat)
    ensures |Enumerate(head, remaining)| == Count(head, remaining)
    decreases TileMax + 1 - head, SizeOfOneTile + 1
  {
    if remaining > 0 && head <= TileMax {
      var i := Min(remaining, SizeOfOneTile);
      ChoicesCount(head, remaining, i);
      PartialAll(head, remaining);
    }
  }

  lemma PartialAll(head: int, r: int)
    requires head <= TileMax && r > 0
    ensures Partial(head, r, Min(r, SizeOfOneTile)) == Count(head, r)
  {
    assert Partial(head, r, 1) == Count(head + 1, r - 1) + Count(head + 1, r);
    assert Partial(head, r, 2) == Count(head + 1, r - 2) + Partial(head, r, 1);
    assert Partial(head, r, 3) == Count(head + 1, r - 3) + Partial(head, r, 2);
    assert Partial(head, r, 4) == Count(head + 1, r - 4) + Partial(head, r, 3);
  }

  /**
   * Count(1, 13), level by level from the top value down, one lemma per
   * value. Each level takes the counts of the level above as given, and no
   * level knows its own value, so that the recursion is unfolded one level
   * at a time.
   */
  lemma CountOfHands(head: int)
    requires head == TileMin
    ensures Count(head, HandSize) == NumberOfHands
  {
    CountsOfNine(head + 8);
    CountsOfEight(head + 7);
    CountsOfSeven(head + 6);
    CountsOfSix(head + 5);
    CountsOfFive(head + 4);
    CountsOfFour(head + 3);
    CountsOfThree(head + 2);
    CountsOfTwo(head + 1);
    assert HandSize == 13;
    CountStep(head, 13);
  }

  /** One level of the recursion of Count. */
  lemma CountStep(h: int, r: int)
    requires h <= TileMax && r > 0
    ensures Count(h, r) == Count(h + 1, r) + Count(h + 1, r - 1) + Count(h + 1, r - 2) + Count(h + 1, r - 3) + Count(h + 1, r - 4)
  {
  }

  lemma CountsOfNine(h: int)
    requires h == TileMax
    ensures Count(h, 1) == 1
    ensures Count(h, 2) == 1
    ensures Count(h, 3) == 1
    ensures Count(h, 4) == 1
    ensures Count(h, 5) == 0
    ensures Count(h, 6) == 0
    ensures Count(h, 7) == 0
    ensures Count(h, 8) == 0
    ensures Count(h, 9) == 0
    ensures Count(h, 10) == 0
    ensures Count(h, 11) == 0
    ensures Count(h, 12) == 0
    ensures Count(h, 13) == 0
  {
  }

  lemma CountsOfEight(h: int)
    requires h < TileMax
    requires Count(h + 1, 1) == 1
    requires Count(h + 1, 2) == 1
    requires Count(h + 1, 3) == 1
    requires Count(h + 1, 4) == 1
    requires Count(h + 1, 5) == 0
    requires Count(h + 1, 6) == 0
    requires Count(h + 1, 7) == 0
    requires Count(h + 1, 8) == 0
    requires Count(h + 1, 9) == 0
    requires Count(h + 1, 10) == 0
    requires Count(h + 1, 11) == 0
    requires Count(h + 1, 12) == 0
    requires Count(h + 1, 13) == 0
    ensures Count(h, 1) == 2
    ensures Count(h, 2) == 3
    ensures Count(h, 3) == 4
    ensures Count(h, 4) == 5
    ensures Count(h, 5) == 4
    ensures Count(h, 6) == 3
    ensures Count(h, 7) == 2
    ensures Count(h, 8) == 1
    ensures Count(h, 9) == 0
    ensures Count(h, 10) == 0
    ensures Count(h, 11) == 0
    ensures Count(h, 12) == 0
    ensures Count(h, 13) == 0
  {
    CountStep(h, 1);
    CountStep(h, 2);
    CountStep(h, 3);
    CountStep(h, 4);
    CountStep(h, 5);
    CountStep(h, 6);
    CountStep(h, 7);
    CountStep(h, 8);
    CountStep(h, 9);
    CountStep(h, 10);
    CountStep(h, 11);
    CountStep(h, 12);
    CountStep(h, 13);
  }

  lemma CountsOfSeven(h: int)
    requires h < TileMax
    requires Count(h + 1, 1) == 2
    requires Count(h + 1, 2) == 3
    requires Count(h + 1, 3) == 4
    requires Count(h + 1, 4) == 5
    requires Count(h + 1, 5) == 4
    requires Count(h + 1, 6) == 3
    requires Count(h + 1, 7) == 2
    requires Count(h + 1, 8) == 1
    requires Count(h + 1, 9) == 0
    requires Count(h + 1, 10) == 0
    requires Count(h + 1, 11) == 0
    requires Count(h + 1, 12) == 0
    requires Count(h + 1, 13) == 0
    ensures Count(h, 1) == 3
    ensures Count(h, 2) == 6
    ensures Count(h, 3) == 10
    ensures Count(h, 4) == 15
    ensures Count(h, 5) == 18
    ensures Count(h, 6) == 19
    ensures Count(h, 7) == 18
    ensures Count(h, 8) == 15
    ensures Count(h, 9) == 10
    ensures Count(h, 10) == 6
    ensures Count(h, 11) == 3
    ensures Count(h, 12) == 1
    ensures Count(h, 13) == 0
  {
    CountStep(h, 1);
    CountStep(h, 2);
    CountStep(h, 3);
    CountStep(h, 4);
    CountStep(h, 5);
    CountStep(h, 6);
    CountStep(h, 7);
    CountStep(h, 8);
    CountStep(h, 9);
    CountStep(h, 10);
    CountStep(h, 11);
    CountStep(h, 12);
    CountStep(h, 13);
  }

  lemma CountsOfSix(h: int)
    requires h < TileMax
    requires Count(h + 1, 1) == 3
    requires Count(h + 1, 2) == 6
    requires Count(h + 1, 3) == 10
    requires Count(h + 1, 4) == 15
    requires Count(h + 1, 5) == 18
    requires Count(h + 1, 6) == 19
    requires Count(h + 1, 7) == 18
    requires Count(h + 1, 8) == 15
    requires Count(h + 1, 9) == 10
    requires Count(h + 1, 10) == 6
    requires Count(h + 1, 11) == 3
    requires Count(h + 1, 12) == 1
    requires Count(h + 1, 13) == 0
    ensures Count(h, 1) == 4
    ensures Count(h, 2) == 10
    ensures Count(h, 3) == 20
    ensures Count(h, 4) == 35
    ensures Count(h, 5) == 52
    ensures Count(h, 6) == 68
    ensures Count(h, 7) == 80
    ensures Count(h, 8) == 85
    ensures Count(h, 9) == 80
    ensures Count(h, 10) == 68
    ensures Count(h, 11) == 52
    ensures Count(h, 12) == 35
    ensures Count(h, 13) == 20
  {
    CountStep(h, 1);
    CountStep(h, 2);
    CountStep(h, 3);
    CountStep(h, 4);
    CountStep(h, 5);
    CountStep(h, 6);
    CountStep(h, 7);
    CountStep(h, 8);
    CountStep(h, 9);
    CountStep(h, 10);
    CountStep(h, 11);
    CountStep(h, 12);
    CountStep(h, 13);
  }

  lemma CountsOfFive(h: int)
    requires h < TileMax
    requires Count(h + 1, 1) == 4
    requires Count(h + 1, 2) == 10
    requires Count(h + 1, 3) == 20
    requires Count(h + 1, 4) == 35
    requires Count(h + 1, 5) == 52
    requires Count(h + 1, 6) == 68
    requires Count(h + 1, 7) == 80
    requires Count(h + 1, 8) == 85
    requires Count(h + 1, 9) == 80
    requires Count(h + 1, 10) == 68
    requires Count(h + 1, 11) == 52
    requires Count(h + 1, 12) == 35
    requires Count(h + 1, 13) == 20
    ensures Count(h, 1) == 5
    ensures Count(h, 2) == 15
    ensures Count(h, 3) == 35
    ensures Count(h, 4) == 70
    ensures Count(h, 5) == 121
    ensures Count(h, 6) == 185
    ensures Count(h, 7) == 255
    ensures Count(h, 8) == 320
    ensures Count(h, 9) == 365
    ensures Count(h, 10) == 381
    ensures Count(h, 11) == 365
    ensures Count(h, 12) == 320
    ensures Count(h, 13) == 255
  {
    CountStep(h, 1);
    CountStep(h, 2);
    CountStep(h, 3);
    CountStep(h, 4);
    CountStep(h, 5);
    CountStep(h, 6);
    CountStep(h, 7);
    CountStep(h, 8);
    CountStep(h, 9);
    CountStep(h, 10);
    CountStep(h, 11);
    CountStep(h, 12);
    CountStep(h, 13);
  }

  lemma CountsOfFour(h: int)
    requires h < TileMax
    requires Count(h + 1, 1) == 5
    requires Count(h + 1, 2) == 15
    requires Count(h + 1, 3) == 35
    requires Count(h + 1, 4) == 70
    requires Count(h + 1, 5) == 121
    requires Count(h + 1, 6) == 185
    requires Count(h + 1, 7) == 255
    requires Count(h + 1, 8) == 320
    requires Count(h + 1, 9) == 365
    requires Count(h + 1, 10) == 381
    requires Count(h + 1, 11) == 365
    requires Count(h + 1, 12) == 320
    requires Count(h + 1, 13) == 255
    ensures Count(h, 1) == 6
    ensures Count(h, 2) == 21
    ensures Count(h, 3) == 56
    ensures Count(h, 4) == 126
    ensures Count(h, 5) == 246
    ensures Count(h, 6) == 426
    ensures Count(h, 7) == 666
    ensures Count(h, 8) == 951
    ensures Count(h, 9) == 1246
    ensures Count(h, 10) == 1506
    ensures Count(h, 11) == 1686
    ensures Count(h, 12) == 1751
    ensures Count(h, 13) == 1686
  {
    CountStep(h, 1);
    CountStep(h, 2);
    CountStep(h, 3);
    CountStep(h, 4);
    CountStep(h, 5);
    CountStep(h, 6);
    CountStep(h, 7);
    CountStep(h, 8);
    CountStep(h, 9);
    CountStep(h, 10);
    CountStep(h, 11);
    CountStep(h, 12);
    CountStep(h, 13);
  }

  lemma CountsOfThree(h: int)
    requires h < TileMax
    requires Count(h + 1, 1) == 6
    requires Count(h + 1, 2) == 21
    requires Count(h + 1, 3) == 56
    requires Count(h + 1, 4) == 126
    requires Count(h + 1, 5) == 246
    requires Count(h + 1, 6) == 426
    requires Count(h + 1, 7) == 666
    requires Count(h + 1, 8) == 951
    requires Count(h + 1, 9) == 1246
    requires Count(h + 1, 10) == 1506
    requires Count(h + 1, 11) == 1686
    requires Count(h + 1, 12) == 1751
    requires Count(h + 1, 13) == 1686
    ensures Count(h, 5) == 455
    ensures Count(h, 6) == 875
    ensures Count(h, 7) == 1520
    ensures Count(h, 8) == 2415
    ensures Count(h, 9) == 3535
    ensures Count(h, 10) == 4795
    ensures Count(h, 11) == 6055
    ensures Count(h, 12) == 7140
    ensures Count(h, 13) == 7875
  {
    CountStep(h, 5);
    CountStep(h, 6);
    CountStep(h, 7);
    CountStep(h, 8);
    CountStep(h, 9);
    CountStep(h, 10);
    CountStep(h, 11);
    CountStep(h, 12);
    CountStep(h, 13);
  }

  lemma CountsOfTwo(h: int)
    requires h < TileMax
    requires Count(h + 1, 5) == 455
    requires Count(h + 1, 6) == 875
    requires Count(h + 1, 7) == 1520
    requires Count(h + 1, 8) == 2415
    requires Count(h + 1, 9) == 3535
    requires Count(h + 1, 10) == 4795
    requires Count(h + 1, 11) == 6055
    requires Count(h + 1, 12) == 7140
    requires Count(h + 1, 13) == 7875
    ensures Count(h, 9) == 8800
    ensures Count(h, 10) == 13140
    ensures Count(h, 11) == 18320
    ensures Count(h, 12) == 23940
    ensures Count(h, 13) == 29400
  {
    CountStep(h, 9);
    CountStep(h, 10);
    CountStep(h, 11);
    CountStep(h, 12);
    CountStep(h, 13);
  }

  /** The walk visits 93600 hands, the size of one block of a result log. */
  lemma AllHandsCount()
    ensures |AllHands()| == NumberOfHands
  {
    EnumerateCount(TileMin, HandSize);
    CountOfHands(TileMin);
  }
}
