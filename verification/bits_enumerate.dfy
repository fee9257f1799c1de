/**
 * The walk of the bit-packed engine over every hand of one suit. The
 * current hand travels as a packed number: nibble 0 is zero and nibble i
 * (1 <= i <= 13) holds the tile at index 13 - i, so the last tile sits in
 * the lowest used nibble. enumerateOne turns the number into the hand's
 * digits and tile map and computes the number of the next hand in
 * lexicographic order; EnumerateAll repeats it from the smallest hand and
 * solves every stepSize-th hand from indexOffset on.
 */
module BitsEnumerate {
  import opened Tiles
  import opened TileSets
  import opened Hands
  import opened BitsTileMap
  import opened BitsSolver

  /** A hand of the walk: 13 sorted tiles of one suit, at most four copies of a value. */
  ghost predicate IsHand(h: seq<int>) {
    |h| == HandSize && ValidHand(h, TileMin)
  }

  // ---------------------------------------------------------------------
  // The successor of a hand

  /**
   * The largest tile index q may hold in a hand: the 12 - q tiles after it
   * need values above it, four at most of each, up to 9. The search of
   * enumerateOne compares the last tiles with 9, 9, 9, 9, 8, 8, 8, 8, 7, ...
   */
  function MaxAt(q: int): int {
    TileMax - (HandSize - 1 - q) / SizeOfOneTile
  }

  /** The rightmost index below q whose tile can still grow. */
  function Carry(h: seq<int>, q: nat): (r: Option<nat>)
    requires q <= |h|
    ensures r.Some? ==> r.value < q && h[r.value] < MaxAt(r.value)
    ensures r.Some? ==> forall i :: r.value < i < q ==> h[i] >= MaxAt(i)
    ensures r.None? ==> forall i :: 0 <= i < q ==> h[i] >= MaxAt(i)
  {
    if q == 0 then None
    else if h[q - 1] < MaxAt(q - 1) then Some(q - 1)
    else Carry(h, q - 1)
  }

  /**
   * The hand after h: the rightmost tile that can grow grows by one and
   * the tiles after it are refilled with the smallest values, four copies
   * each; no hand when no tile can grow.
   */
  function NextHand(h: seq<int>): Option<seq<int>>
    requires |h| == HandSize
  {
    match Carry(h, HandSize)
    case None => None
    case Some(p) => Some(Grown(h, p))
  }

  /** h with the tile at index p grown by one and the tiles after it refilled from that value. */
  function Grown(h: seq<int>, p: nat): (n: seq<int>)
    requires p < |h| == HandSize
    ensures |n| == HandSize && n[..p] == h[..p]
  {
    h[..p] + Greedy(h[p] + 1, HandSize - p)
  }

  /** In a sorted hand with at most four copies of a value, the value grows by one every four tiles. */
  lemma {:induction false} Spread(s: seq<int>, i: nat, j: nat)
    requires Sorted(s) && (forall v :: multiset(s)[v] <= SizeOfOneTile)
    requires i <= j < |s|
    ensures s[j] >= s[i] + (j - i) / SizeOfOneTile
    decreases j - i
  {
    if j - i >= SizeOfOneTile {
      FourApart(s, j);
      Spread(s, i, j - SizeOfOneTile);
    }
  }

  /** Five tiles in a row of a sorted hand are never all equal. */
  lemma FourApart(s: seq<int>, j: nat)
    requires Sorted(s) && (forall v :: multiset(s)[v] <= SizeOfOneTile)
    requires SizeOfOneTile <= j < |s|
    ensures s[j - SizeOfOneTile] < s[j]
  {
    if s[j - 4] == s[j] {
      EqualRun(s, s[j], j - 4, j + 1);
      assert false;
    }
  }

  /** A value held at every index of a slice is held at least as many times as the slice is long. */
  lemma EqualRun(s: seq<int>, x: int, a: nat, b: nat)
    requires a <= b <= |s| && forall k :: a <= k < b ==> s[k] == x
    ensures multiset(s)[x] >= b - a
  {
    SliceRun(s, x, a, b);
    assert s == s[..a] + s[a..b] + s[b..];
    assert multiset(s) == multiset(s[..a]) + multiset(s[a..b]) + multiset(s[b..]);
  }

  lemma {:induction false} SliceRun(s: seq<int>, x: int, a: nat, b: nat)
    requires a <= b <= |s| && forall k :: a <= k < b ==> s[k] == x
    ensures multiset(s[a..b])[x] == b - a
    decreases b - a
  {
    if a < b {
      SliceRun(s, x, a, b - 1);
      assert s[a..b] == s[a..b - 1] + [s[b - 1]];
    }
  }

  /** No tile of a hand exceeds the bound of its index. */
  lemma HandBound(h: seq<int>, q: nat)
    requires IsHand(h) && q < HandSize
    ensures h[q] <= MaxAt(q)
  {
    Spread(h, q, HandSize - 1);
  }

  /** The first index where two hands differ, when the first is the smaller. */
  lemma {:induction false} LexFirst(a: seq<int>, b: seq<int>) returns (i: nat)
    requires |a| == |b| && LexLess(a, b)
    ensures i < |a| && a[..i] == b[..i] && a[i] < b[i]
  {
    if a[0] < b[0] {
      i := 0;
    } else {
      var i' := LexFirst(a[1..], b[1..]);
      i := i' + 1;
      assert a[..i] == [a[0]] + a[1..][..i'];
      assert b[..i] == [b[0]] + b[1..][..i'];
    }
  }

  /** A hand at least as large as another at every index is not below it. */
  lemma {:induction false} LexAbove(a: seq<int>, b: seq<int>)
    requires |a| == |b| && forall i :: 0 <= i < |a| ==> a[i] <= b[i]
    ensures a == b || LexLess(a, b)
  {
    if a != [] && a[0] == b[0] {
      LexAbove(a[1..], b[1..]);
      if a[1..] == b[1..] {
        assert a == [a[0]] + a[1..] && b == [b[0]] + b[1..];
      }
    }
  }

  lemma {:induction false} LexAsymmetric(a: seq<int>, b: seq<int>)
    requires LexLess(a, b)
    ensures !LexLess(b, a)
  {
    if a[0] == b[0] {
      LexAsymmetric(a[1..], b[1..]);
    }
  }

  /** The value the tiles from index p on take in the next hand. */
  lemma NextAt(h: seq<int>, p: nat, q: nat)
    requires p <= q < HandSize && |h| == HandSize
    ensures Grown(h, p)[q] == h[p] + 1 + (q - p) / SizeOfOneTile
  {
    GreedyAt(h[p] + 1, HandSize - p, q - p);
  }

  /** A value below head is never in the greedy hand from head, and no value more than four times. */
  lemma {:induction false} GreedyCount(head: int, r: nat, v: int)
    ensures multiset(Greedy(head, r))[v] <= SizeOfOneTile
    ensures v < head ==> multiset(Greedy(head, r))[v] == 0
    decreases r
  {
    if r > 0 {
      var i := Min(r, SizeOfOneTile);
      GreedyCount(head + 1, r - i, v);
      RepeatCount(head, i, v);
      assert multiset(Greedy(head, r)) == multiset(Repeat(head, i)) + multiset(Greedy(head + 1, r - i));
    }
  }

  /** The tiles of the next hand lie in the suit. */
  lemma NextRange(h: seq<int>, p: nat)
    requires IsHand(h) && p < HandSize && h[p] < MaxAt(p)
    ensures forall q :: 0 <= q < HandSize ==> TileMin <= Grown(h, p)[q] <= TileMax
  {
    forall q | 0 <= q < HandSize ensures TileMin <= Grown(h, p)[q] <= TileMax {
      if q >= p {
        NextAt(h, p, q);
      } else {
        assert Grown(h, p)[q] == h[q];
      }
    }
  }

  /** The next hand is sorted. */
  lemma NextSorted(h: seq<int>, p: nat)
    requires IsHand(h) && p < HandSize
    ensures Sorted(Grown(h, p))
  {
    var n := Grown(h, p);
    forall i, j | 0 <= i < j < HandSize ensures n[i] <= n[j] {
      if j >= p {
        NextAt(h, p, j);
        if i >= p {
          NextAt(h, p, i);
        } else {
          assert n[i] == h[i] <= h[p];
        }
      } else {
        assert n[i] == h[i] && n[j] == h[j];
      }
    }
  }

  /** The next hand holds at most four copies of a value. */
  lemma NextCounts(h: seq<int>, p: nat)
    requires IsHand(h) && p < HandSize
    ensures forall x :: multiset(Grown(h, p))[x] <= SizeOfOneTile
  {
    var v := h[p] + 1;
    var g := Greedy(v, HandSize - p);
    assert multiset(Grown(h, p)) == multiset(h[..p]) + multiset(g);
    assert h == h[..p] + h[p..];
    forall x ensures multiset(h[..p])[x] + multiset(g)[x] <= SizeOfOneTile {
      GreedyCount(v, HandSize - p, x);
      if x < v {
        assert multiset(h)[x] == multiset(h[..p])[x] + multiset(h[p..])[x];
      } else {
        assert x !in h[..p];
      }
    }
  }

  /** The next hand is a hand, and it comes after h. */
  lemma NextValid(h: seq<int>)
    requires IsHand(h) && NextHand(h).Some?
    ensures IsHand(NextHand(h).value) && LexLess(h, NextHand(h).value)
  {
    var p := Carry(h, HandSize).value;
    NextRange(h, p);
    NextSorted(h, p);
    NextCounts(h, p);
    LexAt(h, Grown(h, p), p);
  }

  /** No hand lies strictly between h and the next hand. */
  lemma NextLeast(h: seq<int>, g: seq<int>)
    requires IsHand(h) && NextHand(h).Some? && IsHand(g) && LexLess(h, g)
    ensures g == NextHand(h).value || LexLess(NextHand(h).value, g)
  {
    var p := Carry(h, HandSize).value;
    var i := LexFirst(h, g);
    HandBound(g, i);
    if i < p {
      AboveBefore(h, p, g, i);
    } else {
      AboveAt(h, p, g);
    }
  }

  /** A hand that leaves h before index p also leaves the grown hand there, upwards. */
  lemma AboveBefore(h: seq<int>, p: nat, g: seq<int>, i: nat)
    requires |h| == |g| == HandSize && i < p < HandSize
    requires h[..i] == g[..i] && h[i] < g[i]
    ensures LexLess(Grown(h, p), g)
  {
    var n := Grown(h, p);
    assert n[..i] == g[..i] by {
      assert n[..i] == n[..p][..i] && h[..i] == h[..p][..i];
    }
    assert n[i] == n[..p][i] == h[i];
    LexAt(n, g, i);
  }

  /** A hand that agrees with h before index p and is larger at p is not below the grown hand. */
  lemma AboveAt(h: seq<int>, p: nat, g: seq<int>)
    requires p < HandSize && |h| == HandSize && IsHand(g)
    requires h[..p] == g[..p] && h[p] < g[p]
    ensures g == Grown(h, p) || LexLess(Grown(h, p), g)
  {
    var n := Grown(h, p);
    forall q | 0 <= q < HandSize ensures n[q] <= g[q] {
      if q >= p {
        NextAt(h, p, q);
        Spread(g, p, q);
      } else {
        assert n[q] == n[..p][q] == g[..p][q];
      }
    }
    LexAbove(n, g);
  }

  /** When no tile can grow, no hand comes after h. */
  lemma LastHand(h: seq<int>, g: seq<int>)
    requires IsHand(h) && NextHand(h).None? && IsHand(g)
    ensures !LexLess(h, g)
  {
    if LexLess(h, g) {
      var i := LexFirst(h, g);
      HandBound(g, i);
      assert false;
    }
  }

  // ---------------------------------------------------------------------
  // The walk

  /** Every item of hs is a hand. */
  ghost predicate HandList(hs: seq<seq<int>>) {
    forall j :: 0 <= j < |hs| ==> IsHand(hs[j])
  }

  /** hs lists every hand exactly once, in increasing order. */
  ghost predicate Walk(hs: seq<seq<int>>) {
    && HandList(hs)
    && (forall g :: IsHand(g) ==> g in hs)
    && StrictlyIncreasing(hs)
  }

  lemma WalkOfAllHands(hs: seq<seq<int>>)
    requires hs == AllHands()
    ensures Walk(hs)
  {
    forall j | 0 <= j < |hs| ensures IsHand(hs[j]) {
      AllHandsExactly(hs[j]);
    }
    forall g | IsHand(g) ensures g in hs {
      AllHandsExactly(g);
    }
    EnumerateIncreasing(TileMin, HandSize);
  }

  /** No item of an increasing list is below its head. */
  lemma HeadNotAbove(s: seq<seq<int>>, y: seq<int>)
    requires StrictlyIncreasing(s) && y in s
    ensures !LexLess(y, s[0])
  {
    var i :| 0 <= i < |s| && s[i] == y;
    if i == 0 {
      LexIrreflexive(y);
    } else {
      LexAsymmetric(s[0], y);
    }
  }

  /** An item of an increasing list with nothing of the list below it is the head. */
  lemma LeastIsHead(s: seq<seq<int>>, x: seq<int>)
    requires StrictlyIncreasing(s) && x in s
    requires forall y :: y in s ==> !LexLess(y, x)
    ensures x == s[0]
  {
    var j :| 0 <= j < |s| && s[j] == x;
    assert s[0] in s;
  }

  /** The items of an increasing list after its head are the items other than the head. */
  lemma TailMembers(s: seq<seq<int>>)
    requires StrictlyIncreasing(s) && |s| > 0
    ensures StrictlyIncreasing(s[1..])
    ensures forall x :: x in s[1..] <==> x in s && x != s[0]
  {
    LexIrreflexive(s[0]);
    forall x | x in s && x != s[0] ensures x in s[1..] {
      var i :| 0 <= i < |s| && s[i] == x;
      assert s[1..][i - 1] == x;
    }
  }

  /** Two lists with the same items are both empty or both not. */
  lemma EmptyTogether(a: seq<seq<int>>, b: seq<seq<int>>)
    requires forall x :: x in a <==> x in b
    ensures a == [] <==> b == []
  {
    if a != [] {
      assert a[0] in b;
    }
    if b != [] {
      assert b[0] in a;
    }
  }

  /** Two increasing lists with the same items are the same list. */
  lemma {:induction false} SameIncreasing(a: seq<seq<int>>, b: seq<seq<int>>)
    requires StrictlyIncreasing(a) && StrictlyIncreasing(b)
    requires forall x :: x in a <==> x in b
    ensures a == b
    decreases |a|
  {
    EmptyTogether(a, b);
    if a != [] {
      forall y | y in b ensures !LexLess(y, a[0]) {
        HeadNotAbove(a, y);
      }
      LeastIsHead(b, a[0]);
      TailMembers(a);
      TailMembers(b);
      SameIncreasing(a[1..], b[1..]);
      assert a == [a[0]] + a[1..] && b == [b[0]] + b[1..];
    }
  }

  /** The only walk is the enumeration of all hands. */
  lemma WalkIsAllHands(hs: seq<seq<int>>)
    requires Walk(hs)
    ensures hs == AllHands()
  {
    var all := AllHands();
    WalkOfAllHands(all);
    forall x ensures x in hs <==> x in all {
      if x in hs {
        var j :| 0 <= j < |hs| && hs[j] == x;
      }
      if x in all {
        var j :| 0 <= j < |all| && all[j] == x;
      }
    }
    SameIncreasing(hs, all);
  }

  /** Along a walk, NextHand goes from each hand to the following one, and from the last one nowhere. */
  lemma NextInWalk(hs: seq<seq<int>>, k: nat)
    requires Walk(hs) && k < |hs|
    ensures NextHand(hs[k]) == if k + 1 < |hs| then Some(hs[k + 1]) else None
  {
    var h := hs[k];
    if NextHand(h).Some? {
      var n := NextHand(h).value;
      NextValid(h);
      var j :| 0 <= j < |hs| && hs[j] == n;
      if j < k {
        LexAsymmetric(h, n);
        assert false;
      }
      if j == k {
        LexIrreflexive(h);
        assert false;
      }
      NextLeast(h, hs[k + 1]);
      if j != k + 1 {
        LexAsymmetric(hs[k + 1], n);
        LexIrreflexive(n);
        assert false;
      }
    } else if k + 1 < |hs| {
      LastHand(h, hs[k + 1]);
      assert false;
    }
  }

  // ---------------------------------------------------------------------
  // The packed number

  /** The nibbles of a 64-bit packed number, lowest first; the top two are never used. */
  type Number = s: seq<int> | |s| == 14 witness [0, 0, 0, 0, 0, 0, 0, 0, 0, 0, 0, 0, 0, 0]

  /** The word shifted right by i nibbles. */
  function ShiftOut(x: nat, i: nat): nat {
    if i == 0 then x else ShiftOut(x / 16, i - 1)
  }

  /** The nibbles of a word, as the shifts and masks of enumerateOne read them. */
  function Unpacked(x: nat): (n: Number)
    ensures forall i :: 0 <= i < 14 ==> 0 <= n[i] < 16
  {
    seq(14, i requires 0 <= i < 14 => ShiftOut(x, i) % 16)
  }

  /** The word whose nibbles, lowest first, are n. */
  function Packed(n: seq<int>): int {
    if n == [] then 0 else n[0] + 16 * Packed(n[1..])
  }

  /** Unpacking the packed nibbles gives them back. */
  lemma PackedRoundTrip(n: Number)
    requires forall i :: 0 <= i < 14 ==> 0 <= n[i] < 16
    ensures 0 <= Packed(n) && Unpacked(Packed(n)) == n
  {
    PackedNonNegative(n);
    forall i | 0 <= i < 14 ensures ShiftOut(Packed(n), i) % 16 == n[i] {
      ShiftPacked(n, i);
    }
  }

  lemma {:induction false} ShiftPacked(n: seq<int>, i: nat)
    requires i < |n| && forall k :: 0 <= k < |n| ==> 0 <= n[k] < 16
    ensures 0 <= Packed(n) && ShiftOut(Packed(n), i) == Packed(n[i..])
  {
    PackedNonNegative(n);
    if i > 0 {
      PackedNonNegative(n[1..]);
      assert Packed(n) / 16 == Packed(n[1..]);
      ShiftPacked(n[1..], i - 1);
      assert n[1..][i - 1..] == n[i..];
    }
  }

  lemma {:induction false} PackedNonNegative(n: seq<int>)
    requires forall k :: 0 <= k < |n| ==> 0 <= n[k] < 16
    ensures 0 <= Packed(n)
  {
    if n != [] {
      PackedNonNegative(n[1..]);
    }
  }

  /** The number of a hand: nibble i holds the tile at index 13 - i. */
  function NumberOf(h: seq<int>): Number
    requires |h| == HandSize
  {
    seq(14, i requires 0 <= i < 14 => if i == 0 then 0 else h[13 - i])
  }

  /** The hand of a number, from nibble 13 down to nibble 1. */
  function HandOf(n: Number): (h: seq<int>)
    ensures |h| == HandSize
  {
    seq(HandSize, j requires 0 <= j < HandSize => n[13 - j])
  }

  /** A hand is recovered from its number, and a number with nibble 0 clear from its hand. */
  lemma NumberRoundTrip(h: seq<int>, n: Number)
    requires |h| == HandSize
    ensures HandOf(NumberOf(h)) == h
    ensures n[0] == 0 ==> NumberOf(HandOf(n)) == n
  {
  }

  /** The nibbles of the first number EnumerateAll starts from, 0x11112222333340. */
  lemma FirstWord()
    ensures Unpacked(0x11112222333340) == [0, 4, 3, 3, 3, 3, 2, 2, 2, 2, 1, 1, 1, 1]
  {
    var shifts := [0x11112222333340, 0x1111222233334, 0x111122223333, 0x11112222333, 0x1111222233,
      0x111122223, 0x11112222, 0x1111222, 0x111122, 0x11112, 0x1111, 0x111, 0x11, 0x1];
    forall i | 0 <= i < 14 ensures ShiftOut(0x11112222333340, i) == shifts[i] {
      Shifts(shifts, i);
    }
  }

  /** When each word is the previous one shifted by a nibble, the i-th is the first shifted by i. */
  lemma {:induction false} Shifts(ws: seq<nat>, i: nat)
    requires i < |ws| && forall k :: 0 < k < |ws| ==> ws[k] == ws[k - 1] / 16
    ensures ShiftOut(ws[0], i) == ws[i]
  {
    if i > 0 {
      Shifts(ws[1..], i - 1);
    }
  }

  /** The first number EnumerateAll starts from is the number of the hand 1111222233334. */
  lemma FirstNumber(h: seq<int>)
    requires |h| == HandSize && forall k :: 0 <= k < HandSize ==> h[k] == TileMin + k / SizeOfOneTile
    ensures Unpacked(0x11112222333340) == NumberOf(h)
  {
    FirstWord();
  }

  // ---------------------------------------------------------------------
  // enumerateOne

  /** The tile map of a hand. */
  ghost function HandMap(h: seq<int>): TileMap
    requires IsHand(h)
  {
    HandBounded(h, 0);
    MapOf(HandCounts(h))
  }

  /** The counts of the tiles from index a on of a hand are a bounded table. */
  lemma HandBounded(h: seq<int>, a: nat)
    requires IsHand(h) && a <= HandSize
    ensures Bounded(HandCounts(h[a..]))
  {
    var c := HandCounts(h[a..]);
    assert multiset(h) == multiset(h[..a]) + multiset(h[a..]) by {
      assert h == h[..a] + h[a..];
    }
    forall t | 0 < t < 10 ensures c[t] <= SizeOfOneTile {
      assert c[t] == multiset(h[a..])[t] <= multiset(h)[t];
    }
    assert 0 !in h[a..] by {
      forall k | 0 <= k < |h[a..]| ensures h[a..][k] != 0 {
        assert h[a..][k] == h[a + k];
      }
    }
  }

  /** The map of a hand is well formed and stands for the counts of the hand. */
  lemma HandMapCounts(h: seq<int>)
    requires IsHand(h)
    ensures WellFormed(HandMap(h)) && CountsOf(HandMap(h)) == HandCounts(h)
  {
    HandBounded(h, 0);
    assert h[0..] == h;
    MapCountsRoundTrip(HandMap(h), HandCounts(h));
  }

  /** One more copy in a unary field: 111b becomes 1111b. */
  function AddCopy(f: bv5): bv5 {
    (f << 1) | 1
  }

  lemma AddCopyUnary(n: nat)
    requires n < SizeOfOneTile
    ensures AddCopy(Unary(n)) == Unary(n + 1)
  {
  }

  /** Adding the tile at index a to the map of the tiles after it gives the map of the tiles from a on. */
  lemma CopyAdded(h: seq<int>, a: nat)
    requires IsHand(h) && a < HandSize
    ensures Bounded(HandCounts(h[a..])) && Bounded(HandCounts(h[a + 1..]))
    ensures MapOf(HandCounts(h[a..]))
      == MapOf(HandCounts(h[a + 1..]))[h[a] := AddCopy(MapOf(HandCounts(h[a + 1..]))[h[a]])]
  {
    HandBounded(h, a);
    HandBounded(h, a + 1);
    var c := HandCounts(h[a + 1..]);
    assert h[a..] == [h[a]] + h[a + 1..];
    assert HandCounts(h[a..]) == c[h[a] := c[h[a]] + 1];
    assert HandCounts(h[a..])[h[a]] <= SizeOfOneTile;
    AddCopyUnary(c[h[a]]);
  }

  /**
   * The tile map of a number: every nibble adds one copy to the field of
   * its tile (the pext, shift and pdep of the loop at label 22).
   */
  method TileMapOf(number: Number, ghost h: seq<int>) returns (tileMap: TileMap)
    requires IsHand(h) && number == NumberOf(h)
    ensures tileMap == HandMap(h)
  {
    tileMap := EmptyMap();
    var rcx := HandSize;
    assert tileMap == MapOf(HandCounts(h[rcx..]));
    while rcx > 0
      invariant 0 <= rcx <= HandSize
      invariant Bounded(HandCounts(h[rcx..])) && tileMap == MapOf(HandCounts(h[rcx..]))
    {
      var digit := number[HandSize + 1 - rcx];
      CopyAdded(h, rcx - 1);
      tileMap := tileMap[digit := AddCopy(tileMap[digit])];
      rcx := rcx - 1;
    }
    assert h[0..] == h;
  }

  /** The characters of a NUL-terminated buffer up to its first NUL. */
  function CString(buffer: seq<char>): (s: string)
    ensures |s| <= |buffer| && s == buffer[..|s|] && '\0' !in s
    ensures |s| < |buffer| ==> buffer[|s|] == '\0'
  {
    if buffer == [] || buffer[0] == '\0' then "" else [buffer[0]] + CString(buffer[1..])
  }

  /** The digit of a tile, '0' plus its value. */
  function DigitOf(d: int): char
    requires 0 <= d <= 9
  {
    (d + '0' as int) as char
  }

  /**
   * patternStr: the digits of the hand, a colon and a newline when
   * enablePattern is set (the loop at label 11); otherwise the buffer
   * starts with NUL and the string is empty.
   */
  method PatternText(enablePattern: bool, number: Number, ghost h: seq<int>) returns (patternStr: string)
    requires IsHand(h) && number == NumberOf(h)
    ensures patternStr == if enablePattern then TileChars(h) + ":\n" else ""
  {
    var patternCharSet := seq(HandSize, _ => '\0') + [':', '\n', '\0'];
    if enablePattern {
      var rcx := HandSize;
      while rcx > 0
        invariant 0 <= rcx <= HandSize && |patternCharSet| == HandSize + 3
        invariant forall j :: rcx <= j < HandSize ==> patternCharSet[j] == ConvertToChar(h[j])
        invariant patternCharSet[HandSize..] == [':', '\n', '\0']
      {
        patternCharSet := patternCharSet[rcx - 1 := DigitOf(number[HandSize + 1 - rcx])];
        rcx := rcx - 1;
      }
      assert patternCharSet == TileChars(h) + ":\n" + ['\0'];
      TerminatedText(TileChars(h) + ":\n", patternCharSet);
    }
    patternStr := CString(patternCharSet);
  }

  /** A buffer holding a NUL-free text and then a NUL reads back as the text. */
  lemma {:induction false} TerminatedText(s: string, buffer: seq<char>)
    requires '\0' !in s && buffer == s + ['\0']
    ensures CString(buffer) == s
  {
    if s != [] {
      assert buffer[0] == s[0] && buffer[1..] == s[1..] + ['\0'];
      TerminatedText(s[1..], buffer[1..]);
    }
  }

  /**
   * The search at label 32: from the last tile backwards, each nibble is
   * compared with the largest value its index may hold (9 for the last four
   * tiles, then 8, then 7, and 6 for the first); the first nibble below it
   * is the tile that grows. invalid when every tile is at its bound.
   */
  method SearchCarry(number: Number, ghost h: seq<int>) returns (invalid: bool, rcx: nat)
    requires IsHand(h) && number == NumberOf(h)
    ensures invalid <==> Carry(h, HandSize).None?
    ensures !invalid ==> 0 < rcx <= HandSize && Carry(h, HandSize) == Some(rcx - 1)
  {
    var tilePos := 1;
    var digit := TileMax;
    rcx := HandSize;
    while rcx > 0 && number[tilePos] == digit
      invariant 0 <= rcx <= HandSize && tilePos == HandSize + 1 - rcx
      invariant rcx > 0 ==> digit == MaxAt(rcx - 1)
      invariant Carry(h, HandSize) == Carry(h, rcx)
    {
      assert number[tilePos] == h[rcx - 1];
      var checkedDigit := if rcx % 4 == 2 then 1 else 0;
      if rcx > 1 {
        BoundStep(rcx);
      }
      digit := digit - checkedDigit;
      tilePos := tilePos + 1;
      rcx := rcx - 1;
    }
    invalid := rcx == 0;
    if !invalid {
      assert number[tilePos] == h[rcx - 1];
      HandBound(h, rcx - 1);
    }
  }

  /** The bound drops by one below the indexes 9, 5 and 1, where the count of remaining tiles is 10, 6 and 2. */
  lemma BoundStep(rcx: nat)
    requires 1 < rcx <= HandSize
    ensures MaxAt(rcx - 2) == MaxAt(rcx - 1) - if rcx % 4 == 2 then 1 else 0
  {
  }

  /** The nibbles of the next hand: those of the grown tile and after it count up from its new value, four each. */
  lemma GrownNumber(h: seq<int>, p: nat, i: nat)
    requires |h| == HandSize && p < HandSize && i < 14
    ensures NumberOf(Grown(h, p))[i]
      == if 0 < i <= HandSize - p then h[p] + 1 + (HandSize - p - i) / SizeOfOneTile else NumberOf(h)[i]
  {
    if 0 < i <= HandSize - p {
      NextAt(h, p, HandSize - i);
    } else if i > 0 {
      assert Grown(h, p)[HandSize - i] == Grown(h, p)[..p][HandSize - i];
    }
  }

  /**
   * The carry at label 34: the nibble found by the search and every nibble
   * below it are rewritten with its value plus one, the value growing by
   * one after every four nibbles.
   */
  method CarryDigits(number: Number, rcx: nat, ghost h: seq<int>) returns (nextNumber: Number)
    requires IsHand(h) && number == NumberOf(h)
    requires 0 < rcx <= HandSize && Carry(h, HandSize) == Some(rcx - 1)
    ensures nextNumber == NumberOf(NextHand(h).value)
  {
    var tilePos := HandSize + 1 - rcx;
    ghost var top := tilePos;
    var ecx := tilePos;
    var digit := number[tilePos] + 1;
    ghost var v := digit;
    var count := 0;
    nextNumber := number;
    while ecx > 0
      invariant 0 <= ecx == tilePos <= top && count == top - tilePos
      invariant digit == v + count / SizeOfOneTile
      invariant forall i :: 0 <= i < 14 ==>
        nextNumber[i] == if tilePos < i <= top then v + (top - i) / SizeOfOneTile else number[i]
    {
      nextNumber := nextNumber[tilePos := digit];
      count := count + 1;
      var digitDiff := if count % 4 == 0 then 1 else 0;
      digit := digit + digitDiff;
      tilePos := tilePos - 1;
      ecx := ecx - 1;
    }
    forall i | 0 <= i < 14 ensures nextNumber[i] == NumberOf(Grown(h, rcx - 1))[i] {
      GrownNumber(h, rcx - 1, i);
    }
  }

  /**
   * enumerateOne: the tile map of the hand of number, its digits when
   * enablePattern is set, and whether the walk is over; when it is not,
   * nextNumber is the number of the next hand.
   */
  method EnumerateOne(enablePattern: bool, number: Number, ghost h: seq<int>)
    returns (invalid: bool, tileMap: TileMap, nextNumber: Number, patternStr: string)
    requires IsHand(h) && number == NumberOf(h)
    ensures tileMap == HandMap(h)
    ensures invalid <==> NextHand(h).None?
    ensures !invalid ==> nextNumber == NumberOf(NextHand(h).value)
    ensures patternStr == if enablePattern then TileChars(h) + ":\n" else ""
  {
    patternStr := PatternText(enablePattern, number, h);
    tileMap := TileMapOf(number, h);
    var rcx;
    invalid, rcx := SearchCarry(number, h);
    nextNumber := number;
    if !invalid {
      nextNumber := CarryDigits(number, rcx, h);
    }
  }

  // ---------------------------------------------------------------------
  // EnumerateAll

  /** The text Puzzle::Find completes for a hand: its digits, a colon, a newline, then its waits. */
  ghost function Block(h: seq<int>): string
    requires IsHand(h)
  {
    HandMapCounts(h);
    TileChars(h) + ":\n" + Output(HandMap(h))
  }

  /** The blocks of a list of hands, in order. */
  ghost function Blocks(hs: seq<seq<int>>): (r: seq<string>)
    requires HandList(hs)
    ensures |r| == |hs|
  {
    seq(|hs|, j requires 0 <= j < |hs| => Block(hs[j]))
  }

  /** The pattern index restarts at 0 once it reaches stepSize, so it runs modulo stepSize, or stays 0. */
  function Period(stepSize: nat): nat {
    if stepSize == 0 then 1 else stepSize
  }

  /** The pattern index of the k-th hand: counted up from 0 and reset to 0 once it reaches stepSize. */
  function PatternIndex(k: nat, stepSize: nat): nat {
    if k == 0 then 0
    else
      var next := PatternIndex(k - 1, stepSize) + 1;
      if next >= stepSize then 0 else next
  }

  /** The pattern index of the hand after the k-th one. */
  lemma PatternNext(k: nat, next: nat, stepSize: nat)
    requires next == k + 1
    ensures PatternIndex(next, stepSize) == if PatternIndex(k, stepSize) + 1 >= stepSize then 0 else PatternIndex(k, stepSize) + 1
  {
  }

  /** The pattern index of the k-th hand is k modulo the period. */
  lemma {:induction false} PatternIndexMod(k: nat, stepSize: nat)
    ensures PatternIndex(k, stepSize) == k % Period(stepSize)
  {
    if k > 0 {
      PatternIndexMod(k - 1, stepSize);
      PatternStep(PatternIndex(k - 1, stepSize), k - 1, stepSize);
    }
  }

  /** Counting up and restarting at stepSize keeps the pattern index at the hand's index modulo the period. */
  lemma PatternStep(patternIndex: nat, k: nat, stepSize: nat)
    requires patternIndex == k % Period(stepSize)
    ensures (if patternIndex + 1 >= stepSize then 0 else patternIndex + 1) == (k + 1) % Period(stepSize)
  {
    var m := Period(stepSize);
    var q := k / m;
    assert k == q * m + patternIndex;
    if patternIndex + 1 < m {
      ModUnique(k + 1, q, patternIndex + 1, m);
    } else {
      assert k + 1 == (q + 1) * m;
      ModUnique(k + 1, q + 1, 0, m);
    }
  }

  /** The remainder is the one of any division with a remainder in range. */
  lemma ModUnique(x: int, q: int, r: int, m: int)
    requires m > 0 && 0 <= r < m && x == q * m + r
    ensures x % m == r && x / m == q
  {
    var d := x / m - q;
    assert m * d == r - x % m;
  }

  /** The items whose pattern index is offset, in order. */
  function Strided<T>(items: seq<T>, offset: nat, step: nat): seq<T> {
    if items == [] then []
    else
      var last := |items| - 1;
      Strided(items[..last], offset, step) + (if PatternIndex(last, step) == offset then [items[last]] else [])
  }

  /** One more item adds itself to the selection exactly when its index is selected. */
  lemma StridedStep<T>(items: seq<T>, k: nat, next: nat, offset: nat, step: nat)
    requires k < |items| && next == k + 1
    ensures Strided(items[..next], offset, step)
      == Strided(items[..k], offset, step) + (if PatternIndex(k, step) == offset then [items[k]] else [])
  {
    assert items[..next][..k] == items[..k];
  }

  /** The walk of all hands starts from the hand of the number 0x11112222333340. */
  lemma WalkStart(hs: seq<seq<int>>)
    requires Walk(hs)
    ensures Chain(hs) && |hs| > 0 && Unpacked(0x11112222333340) == NumberOf(hs[0])
  {
    WalkIsAllHands(hs);
    forall k | 0 <= k < |hs| ensures ChainLink(hs, k) {
      NextInWalk(hs, k);
    }
    FirstHand();
    FirstNumber(hs[0]);
  }

  /** NextHand leads from the k-th item of hs to the one after it, from the last nowhere. */
  ghost predicate ChainLink(hs: seq<seq<int>>, k: nat)
    requires k < |hs| && |hs[k]| == HandSize
  {
    NextHand(hs[k]) == if k + 1 < |hs| then Some(hs[k + 1]) else None
  }

  /** Every item of hs is a hand, and NextHand leads from each to the one after it. */
  ghost predicate Chain(hs: seq<seq<int>>) {
    && HandList(hs)
    && (forall k :: 0 <= k < |hs| ==> ChainLink(hs, k))
  }

  /** The k-th hand of a chain is a hand with the k-th block, and NextHand leads from it to the next one. */
  lemma ChainAt(hs: seq<seq<int>>, k: nat, next: nat)
    requires Chain(hs) && k < |hs| && next == k + 1
    ensures IsHand(hs[k])
    ensures NextHand(hs[k]) == if next < |hs| then Some(hs[next]) else None
  {
    assert ChainLink(hs, k);
  }

  /**
   * EnumerateAll: walks every hand hs of the suit from 1111222233334 on
   * and appends the block of each hand whose pattern index is indexOffset
   * to result.
   */
  method EnumerateAll(indexOffset: nat, stepSize: nat, result0: seq<string>, ghost hs: seq<seq<int>>)
    returns (result: seq<string>)
    requires Walk(hs)
    ensures result == result0 + Strided(Blocks(hs), indexOffset, stepSize)
  {
    WalkStart(hs);
    result := WalkFrom(indexOffset, stepSize, result0, Unpacked(0x11112222333340), hs);
  }

  /** The loop of EnumerateAll along a walk hs, from the number of its first hand. */
  method WalkFrom(indexOffset: nat, stepSize: nat, result0: seq<string>, number0: Number, ghost hs: seq<seq<int>>)
    returns (result: seq<string>)
    requires Chain(hs) && |hs| > 0 && number0 == NumberOf(hs[0])
    ensures result == result0 + Strided(Blocks(hs), indexOffset, stepSize)
  {
    ghost var bs := Blocks(hs);
    var patternIndex := 0;
    var number := number0;
    var invalid := false;
    result := result0;
    ghost var k: nat := 0;
    while !invalid
      invariant k <= |hs| && (invalid <==> k == |hs|)
      invariant !invalid ==> number == NumberOf(hs[k])
      invariant patternIndex == PatternIndex(k, stepSize)
      invariant result == result0 + Strided(bs[..k], indexOffset, stepSize)
      decreases |hs| - k
    {
      var enablePattern := patternIndex == indexOffset;
      var nextNumber, block;
      ghost var next := k + 1;
      ChainAt(hs, k, next);
      invalid, nextNumber, block := SolveOne(enablePattern, number, hs[k]);
      StridedStep(bs, k, next, indexOffset, stepSize);
      PatternNext(k, next, stepSize);
      result := result + block;
      patternIndex := patternIndex + 1;
      patternIndex := if patternIndex >= stepSize then 0 else patternIndex;
      number := nextNumber;
      k := next;
    }
    assert bs[..k] == bs;
  }

  /**
   * One turn of the loop of EnumerateAll: enumerateOne, then, when the
   * pattern is enabled, the waits Puzzle::Find appends to the pattern.
   */
  method SolveOne(enablePattern: bool, number: Number, ghost h: seq<int>)
    returns (invalid: bool, nextNumber: Number, block: seq<string>)
    requires IsHand(h) && number == NumberOf(h)
    ensures invalid <==> NextHand(h).None?
    ensures !invalid ==> nextNumber == NumberOf(NextHand(h).value)
    ensures block == if enablePattern then [Block(h)] else []
  {
    var tileMap, patternStr;
    invalid, tileMap, nextNumber, patternStr := EnumerateOne(enablePattern, number, h);
    block := [];
    if enablePattern {
      HandMapCounts(h);
      var puzzle := new Puzzle(tileMap);
      var found := puzzle.Find();
      patternStr := patternStr + found;
      block := [patternStr];
    }
  }
}
