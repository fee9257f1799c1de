/**
 * The full key of the bit-packed engine (TileFullSet::GetKey): five 10-bit
 * slots, the open group's key on top and the four closed keys below it,
 * largest first, so the lowest slot holds the smallest key. Two full sets
 * get the same key exactly when they have the same open group and the same
 * closed groups in any order.
 */
module BitsKey {
  import opened Tiles
  import opened BitsTileMap
  import TileSets

  /** One slot of the full key: 1 << SizeOfKeyBits. */
  const KeyRadix: nat := 1024

  /** The pair slot and the four group slots of a TileFullSet. */
  type FullSet = s: seq<TileSet> | |s| == 5
    witness [TileSet(EmptyMap(), false), TileSet(EmptyMap(), false), TileSet(EmptyMap(), false),
             TileSet(EmptyMap(), false), TileSet(EmptyMap(), false)]

  /** Every slot holds at least one tile, so its key is defined. */
  predicate Filled(s: seq<TileSet>) {
    forall i :: 0 <= i < |s| ==> s[i].tileMap != EmptyMap()
  }

  /** The keys of the closed slots, in slot order. */
  function ClosedKeys(s: seq<TileSet>): (r: seq<nat>)
    requires Filled(s)
    ensures |r| <= |s|
  {
    if s == [] then []
    else
      var last := s[|s| - 1];
      ClosedKeys(s[..|s| - 1]) + (if last.open then [] else [GroupKey(last)])
  }

  lemma {:induction false} ClosedKeysBelow(s: seq<TileSet>)
    requires Filled(s)
    ensures forall i :: 0 <= i < |ClosedKeys(s)| ==> ClosedKeys(s)[i] < OpenKey
    decreases |s|
  {
    if s != [] {
      ClosedKeysBelow(s[..|s| - 1]);
    }
  }

  /** The key of every closed slot is among the closed keys. */
  lemma {:induction false} ClosedKeysHas(s: seq<TileSet>, i: nat)
    requires Filled(s) && i < |s| && !s[i].open
    ensures GroupKey(s[i]) in ClosedKeys(s)
    decreases |s|
  {
    if i < |s| - 1 {
      ClosedKeysHas(s[..|s| - 1], i);
    }
  }

  /** Every closed key is the key of a closed slot. */
  lemma {:induction false} ClosedKeysFrom(s: seq<TileSet>, k: nat) returns (i: nat)
    requires Filled(s) && k in ClosedKeys(s)
    ensures i < |s| && !s[i].open && GroupKey(s[i]) == k
    decreases |s|
  {
    var last := s[|s| - 1];
    if k in ClosedKeys(s[..|s| - 1]) {
      i := ClosedKeysFrom(s[..|s| - 1], k);
    } else {
      i := |s| - 1;
    }
  }

  /** The key of the last open slot (0 when there is none). */
  function OpenKeyOf(s: seq<TileSet>): (k: nat)
    requires Filled(s)
    ensures k < KeyRadix
  {
    if s == [] then 0
    else if s[|s| - 1].open then GroupKey(s[|s| - 1])
    else OpenKeyOf(s[..|s| - 1])
  }

  /** Exactly one slot is open: the shape Filter gives GetKey. */
  predicate OneOpen(s: FullSet)
    requires Filled(s)
  {
    |ClosedKeys(s)| == 4 && OpenKeyOf(s) >= OpenKey
  }

  /** A sequence of keys, largest first. */
  predicate Descending(s: seq<nat>) {
    forall i, j :: 0 <= i < j < |s| ==> s[i] >= s[j]
  }

  /** x put into a descending sequence: the compare-and-swap cascade, from the bottom up. */
  function Insert(s: seq<nat>, x: nat): (r: seq<nat>)
    ensures |r| == |s| + 1
  {
    if s == [] then [x]
    else if x > s[|s| - 1] then Insert(s[..|s| - 1], x) + [s[|s| - 1]]
    else s + [x]
  }

  /** The keys in the order the insertion sort of GetKey leaves them. */
  function SortDesc(s: seq<nat>): (r: seq<nat>)
    ensures |r| == |s|
  {
    if s == [] then [] else Insert(SortDesc(s[..|s| - 1]), s[|s| - 1])
  }

  /** The keys packed below a top key, the first key highest: shift by ten bits, then or. */
  function Pack(top: nat, ks: seq<nat>): nat {
    if ks == [] then top else Pack(top, ks[..|ks| - 1]) * KeyRadix + ks[|ks| - 1]
  }

  /** The key GetKey computes. */
  function FullKey(s: FullSet): nat
    requires Filled(s)
  {
    Pack(OpenKeyOf(s), SortDesc(ClosedKeys(s)))
  }

  // ---------------------------------------------------------------------
  // The insertion sort

  lemma {:induction false} InsertMultiset(s: seq<nat>, x: nat)
    ensures multiset(Insert(s, x)) == multiset(s) + multiset{x}
    decreases |s|
  {
    if s != [] {
      var p := s[..|s| - 1];
      var last := s[|s| - 1];
      assert s == p + [last];
      if x > last {
        InsertMultiset(p, x);
        assert Insert(s, x) == Insert(p, x) + [last];
      } else {
        assert Insert(s, x) == s + [x];
      }
    }
  }

  lemma {:induction false} InsertDescending(s: seq<nat>, x: nat)
    requires Descending(s)
    ensures Descending(Insert(s, x))
    decreases |s|
  {
    if s != [] {
      var p := s[..|s| - 1];
      var last := s[|s| - 1];
      if x > last {
        InsertDescending(p, x);
        InsertMultiset(p, x);
        var r := Insert(p, x);
        forall i | 0 <= i < |r| ensures r[i] >= last {
          assert r[i] in multiset(p) + multiset{x};
          if r[i] != x {
            var k :| 0 <= k < |p| && p[k] == r[i];
            assert s[k] == p[k];
          }
        }
        DescendingSnoc(r, last);
      } else {
        DescendingSnoc(s, x);
      }
    }
  }

  lemma DescendingSnoc(s: seq<nat>, x: nat)
    requires Descending(s) && forall i :: 0 <= i < |s| ==> s[i] >= x
    ensures Descending(s + [x])
  {
  }

  /** The sort leaves the keys descending and loses or adds none. */
  lemma {:induction false} SortFacts(s: seq<nat>)
    ensures Descending(SortDesc(s)) && multiset(SortDesc(s)) == multiset(s)
    decreases |s|
  {
    if s != [] {
      var p := s[..|s| - 1];
      SortFacts(p);
      InsertDescending(SortDesc(p), s[|s| - 1]);
      InsertMultiset(SortDesc(p), s[|s| - 1]);
      assert s == p + [s[|s| - 1]];
    }
  }

  /** Two descending sequences with the same keys are equal. */
  lemma {:induction false} DescendingUnique(a: seq<nat>, b: seq<nat>)
    requires Descending(a) && Descending(b) && multiset(a) == multiset(b)
    ensures a == b
    decreases |a|
  {
    assert |a| == |multiset(a)| == |b|;
    if a != [] {
      var x := a[0];
      var y := b[0];
      assert x in multiset(b);
      assert y in multiset(a);
      var i :| 0 <= i < |b| && b[i] == x;
      var j :| 0 <= j < |a| && a[j] == y;
      assert x == y;
      HeadTail(a);
      HeadTail(b);
      assert multiset(a[1..]) == multiset(a) - multiset{x};
      assert multiset(b[1..]) == multiset(b) - multiset{y};
      DescendingUnique(a[1..], b[1..]);
    }
  }

  lemma HeadTail(a: seq<nat>)
    requires |a| > 0
    ensures multiset(a) == multiset{a[0]} + multiset(a[1..])
    ensures Descending(a) ==> Descending(a[1..])
  {
    assert a == [a[0]] + a[1..];
  }

  // ---------------------------------------------------------------------
  // Packing

  /** Packing keeps every key in its own ten bits. */
  lemma {:induction false} PackInjective(t1: nat, k1: seq<nat>, t2: nat, k2: seq<nat>)
    requires |k1| == |k2|
    requires forall i :: 0 <= i < |k1| ==> k1[i] < KeyRadix
    requires forall i :: 0 <= i < |k2| ==> k2[i] < KeyRadix
    requires Pack(t1, k1) == Pack(t2, k2)
    ensures t1 == t2 && k1 == k2
    decreases |k1|
  {
    if k1 != [] {
      var n := |k1| - 1;
      Digit(Pack(t1, k1[..n]), k1[n], Pack(t2, k2[..n]), k2[n]);
      PackInjective(t1, k1[..n], t2, k2[..n]);
      assert k1 == k1[..n] + [k1[n]] && k2 == k2[..n] + [k2[n]];
    }
  }

  lemma Digit(a: nat, d: nat, b: nat, e: nat)
    requires d < KeyRadix && e < KeyRadix && a * KeyRadix + d == b * KeyRadix + e
    ensures a == b && d == e
  {
  }

  /** Equal full keys: the same open key and the same closed keys, in any order. */
  lemma FullKeyEqual(s: FullSet, t: FullSet)
    requires Filled(s) && Filled(t) && OneOpen(s) && OneOpen(t)
    ensures FullKey(s) == FullKey(t) <==>
      OpenKeyOf(s) == OpenKeyOf(t) && multiset(ClosedKeys(s)) == multiset(ClosedKeys(t))
  {
    var a := SortDesc(ClosedKeys(s));
    var b := SortDesc(ClosedKeys(t));
    SortFacts(ClosedKeys(s));
    SortFacts(ClosedKeys(t));
    ClosedKeysBelow(s);
    ClosedKeysBelow(t);
    SortedBelow(ClosedKeys(s));
    SortedBelow(ClosedKeys(t));
    if FullKey(s) == FullKey(t) {
      PackInjective(OpenKeyOf(s), a, OpenKeyOf(t), b);
    }
    if OpenKeyOf(s) == OpenKeyOf(t) && multiset(ClosedKeys(s)) == multiset(ClosedKeys(t)) {
      DescendingUnique(a, b);
    }
  }

  lemma SortedBelow(s: seq<nat>)
    requires forall i :: 0 <= i < |s| ==> s[i] < OpenKey
    ensures forall i :: 0 <= i < |s| ==> SortDesc(s)[i] < KeyRadix
  {
    SortFacts(s);
    forall i | 0 <= i < |s| ensures SortDesc(s)[i] < KeyRadix {
      assert SortDesc(s)[i] in multiset(s);
    }
  }

  // ---------------------------------------------------------------------
  // The slot scan of GetKey

  lemma ClosedKeysStep(s: seq<TileSet>, j: int)
    requires Filled(s) && 0 <= j < |s|
    ensures Filled(s[..j]) && Filled(s[..j + 1])
    ensures ClosedKeys(s[..j + 1]) == ClosedKeys(s[..j]) + (if s[j].open then [] else [GroupKey(s[j])])
    ensures OpenKeyOf(s[..j + 1]) == if s[j].open then GroupKey(s[j]) else OpenKeyOf(s[..j])
  {
    assert s[..j + 1][..j] == s[..j];
  }

  /** Fewer closed keys in a prefix than in the whole. */
  lemma {:induction false} ClosedKeysPrefix(s: seq<TileSet>, j: int)
    requires Filled(s) && 0 <= j <= |s|
    ensures Filled(s[..j]) && |ClosedKeys(s[..j])| <= |ClosedKeys(s)|
    decreases |s|
  {
    if j < |s| {
      var p := s[..|s| - 1];
      assert |ClosedKeys(p)| <= |ClosedKeys(s)|;
      assert p[..j] == s[..j];
      ClosedKeysPrefix(p, j);
    } else {
      WholePrefix(s);
    }
  }

  lemma WholePrefix(s: seq<TileSet>)
    requires Filled(s)
    ensures Filled(s[..|s|]) && ClosedKeys(s[..|s|]) == ClosedKeys(s)
  {
    assert s[..|s|] == s;
  }

  /** What one more slot does to the closed keys, their sort and the open key. */
  lemma ScanStep(s: FullSet, j: int)
    requires Filled(s) && OneOpen(s) && 0 <= j < 5
    ensures Filled(s[..j]) && Filled(s[..j + 1])
    ensures s[j].open ==> ClosedKeys(s[..j + 1]) == ClosedKeys(s[..j]) && OpenKeyOf(s[..j + 1]) == GroupKey(s[j])
    ensures !s[j].open ==>
      && |ClosedKeys(s[..j])| <= 3
      && |ClosedKeys(s[..j + 1])| == |ClosedKeys(s[..j])| + 1
      && Descending(SortDesc(ClosedKeys(s[..j])))
      && SortDesc(ClosedKeys(s[..j + 1])) == Insert(SortDesc(ClosedKeys(s[..j])), GroupKey(s[j]))
      && OpenKeyOf(s[..j + 1]) == OpenKeyOf(s[..j])
  {
    ClosedKeysStep(s, j);
    ClosedKeysPrefix(s, j + 1);
    SortFacts(ClosedKeys(s[..j]));
    if !s[j].open {
      var c := ClosedKeys(s[..j + 1]);
      assert c[..|c| - 1] == ClosedKeys(s[..j]);
    }
  }

  /** The first i of the four sort slots. */
  function Slots(i: nat, k1: nat, k2: nat, k3: nat, k4: nat): seq<nat>
    requires i <= 4
  {
    [k1, k2, k3, k4][..i]
  }

  /**
   * TileFullSet::GetKey: the open slot's key is kept aside; every closed key
   * goes into the next sort slot and is swapped upwards while it is larger
   * than the one above it; the slots are then packed ten bits apart under
   * the open key.
   */
  method GetKey(s: FullSet) returns (key: nat)
    requires Filled(s) && OneOpen(s)
    ensures key == FullKey(s)
  {
    var openKey: nat, key1: nat, key2: nat, key3: nat, key4: nat := 0, 0, 0, 0, 0;
    var i := 0;
    for j := 0 to 5
      invariant Filled(s[..j]) && i == |ClosedKeys(s[..j])| && i <= 4
      invariant Slots(i, key1, key2, key3, key4) == SortDesc(ClosedKeys(s[..j]))
      invariant openKey == OpenKeyOf(s[..j])
    {
      ScanStep(s, j);
      var tileKey := GroupKey(s[j]);
      if tileKey >= OpenKey {
        openKey := tileKey;
      } else {
        key1, key2, key3, key4 := InsertSlot(i, key1, key2, key3, key4, tileKey);
        i := i + 1;
      }
    }
    assert s[..5] == s;
    key := (((openKey * KeyRadix + key1) * KeyRadix + key2) * KeyRadix + key3) * KeyRadix + key4;
    assert [key1, key2, key3, key4] == Slots(4, key1, key2, key3, key4);
    PackFour(openKey, key1, key2, key3, key4);
  }

  /**
   * One closed key into sort slot i + 1, swapped upwards while it is larger
   * than the slot above: the i-th branch of GetKey's switch.
   */
  method InsertSlot(i: nat, k1: nat, k2: nat, k3: nat, k4: nat, x: nat)
    returns (n1: nat, n2: nat, n3: nat, n4: nat)
    requires i <= 3 && Descending(Slots(i, k1, k2, k3, k4))
    ensures Slots(i + 1, n1, n2, n3, n4) == Insert(Slots(i, k1, k2, k3, k4), x)
  {
    n1, n2, n3, n4 := k1, k2, k3, k4;
    if i == 1 {
      n2 := x;
      if n2 > n1 { n1, n2 := n2, n1; }
      assert Slots(i, k1, k2, k3, k4) == [k1];
      Insert1([k1], x);
    } else if i == 2 {
      n3 := x;
      if n3 > n2 { n2, n3 := n3, n2; }
      if n2 > n1 { n1, n2 := n2, n1; }
      assert Slots(i, k1, k2, k3, k4) == [k1, k2];
      Insert2([k1, k2], x);
    } else if i == 3 {
      n4 := x;
      if n4 > n3 { n3, n4 := n4, n3; }
      if n3 > n2 { n2, n3 := n3, n2; }
      if n2 > n1 { n1, n2 := n2, n1; }
      assert Slots(i, k1, k2, k3, k4) == [k1, k2, k3];
      Insert3([k1, k2, k3], x);
    } else {
      n1 := x;
    }
  }

  lemma PackFour(t: nat, a: nat, b: nat, c: nat, d: nat)
    ensures Pack(t, [a, b, c, d]) == (((t * KeyRadix + a) * KeyRadix + b) * KeyRadix + c) * KeyRadix + d
  {
    assert [a][..0] == [];
    assert Pack(t, [a]) == t * KeyRadix + a;
    assert [a, b][..1] == [a];
    assert Pack(t, [a, b]) == Pack(t, [a]) * KeyRadix + b;
    assert [a, b, c][..2] == [a, b];
    assert Pack(t, [a, b, c]) == Pack(t, [a, b]) * KeyRadix + c;
    assert [a, b, c, d][..3] == [a, b, c];
  }

  lemma Insert1(s: seq<nat>, x: nat)
    requires |s| == 1
    ensures Insert(s, x) == if x > s[0] then [x, s[0]] else [s[0], x]
  {
  }

  lemma Insert2(s: seq<nat>, x: nat)
    requires |s| == 2 && Descending(s)
    ensures Insert(s, x) ==
      if x > s[0] then [x, s[0], s[1]] else if x > s[1] then [s[0], x, s[1]] else [s[0], s[1], x]
  {
    if x > s[1] {
      Insert1(s[..1], x);
    }
  }

  lemma Insert3(s: seq<nat>, x: nat)
    requires |s| == 3 && Descending(s)
    ensures Insert(s, x) ==
      if x > s[0] then [x, s[0], s[1], s[2]] else if x > s[1] then [s[0], x, s[1], s[2]]
      else if x > s[2] then [s[0], s[1], x, s[2]] else [s[0], s[1], s[2], x]
  {
    if x > s[2] {
      Insert2(s[..2], x);
    }
  }
}
