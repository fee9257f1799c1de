/**
 * What the keys of the bit-packed engine mean. A key findAll computes for
 * a hand of 13 tiles is the key of a waiting form: a tile that completes
 * the hand into a pair and four triples or runs, with a group holding
 * that tile left open. Every waiting form has its key computed, whatever
 * order its groups are listed in.
 */
module BitsWaits {
  import opened Tiles
  import opened BitsTileMap
  import opened BitsSearch
  import opened BitsKey
  import opened BitsSolver

  /**
   * A waiting form of a hand: the extra tile (never a fifth copy) completes
   * it into the pair p and the four triples or runs l, and the group in
   * slot j holds the extra tile, so it is the one left open.
   */
  ghost predicate WaitForm(c: Counts, extra: int, p: int, l: seq<Group>, j: nat) {
    && IsTile(extra) && c[extra] < SizeOfOneTile && IsTile(p)
    && c[extra := c[extra] + 1][p] >= 2
    && Four(l)
    && GroupsBag(l) == Bag(Take(c[extra := c[extra] + 1], Pair(p)))
    && j < 5 && IsMember(GroupsOf(p, l)[j], extra)
  }

  // ---------------------------------------------------------------------
  // Where a computed key comes from

  /** A key of findAll comes from an extra tile the hand holds fewer than four of. */
  lemma KeyOfExtra(m: TileMap, k: nat) returns (extra: int)
    requires WellFormed(m) && k in AllKeys(m)
    ensures IsTile(extra) && CountsOf(m)[extra] < SizeOfOneTile
    ensures AddTile(m, extra) != EmptyMap() && k in Flat(ExtraPairs(AddTile(m, extra), extra))
  {
    InFlat(AllSteps(m), k);
    var i :| 0 <= i < |AllSteps(m)| && k in AllSteps(m)[i];
    extra := TileMin + i;
    assert k in ExtraStep(m, extra);
  }

  /** A key of findWithExtra comes from a pair the map holds. */
  lemma KeyOfPair(m: TileMap, extra: int, k: nat) returns (p: int)
    requires WellFormed(m) && IsTile(extra) && k in Flat(ExtraPairs(m, extra))
    ensures IsTile(p) && CountsOf(m)[p] >= 2
    ensures var c := Take(CountsOf(m), Pair(p));
      AllFour(BitsExplore(c, 4, false)) && k in Flat(PairSets(p, BitsExplore(c, 4, false), extra))
  {
    InFlat(ExtraPairs(m, extra), k);
    var i :| 0 <= i < |ExtraPairs(m, extra)| && k in ExtraPairs(m, extra)[i];
    p := TileMin + i;
    assert k in PairKeys(m, p, extra);
    ExploredFour(Take(CountsOf(m), Pair(p)));
  }

  /** A key of Solution::Filter is a key of one of the solution's full sets. */
  lemma KeyOfSet(p: int, ls: seq<seq<Group>>, extra: int, k: nat) returns (q: nat)
    requires IsTile(p) && AllFour(ls) && IsTile(extra) && k in Flat(PairSets(p, ls, extra))
    ensures q < |ls| && k in SetKeys(p, ls[q], extra)
  {
    InFlat(PairSets(p, ls, extra), k);
    q :| 0 <= q < |ls| && k in PairSets(p, ls, extra)[q];
  }

  /** A key of TileFullSet::Filter is that of the full set opened at a slot holding extra. */
  lemma KeyOfSlot(p: int, l: seq<Group>, extra: int, k: nat) returns (j: nat)
    requires IsTile(p) && Four(l) && IsTile(extra) && k in SetKeys(p, l, extra)
    ensures j < 5 && IsMember(GroupsOf(p, l)[j], extra) && k == FormKey(p, l, j, extra)
  {
    InFlat(SetSlots(p, l, extra), k);
    j :| 0 <= j < 5 && k in SetSlots(p, l, extra)[j];
    assert k in SlotKeys(p, l, j, extra);
  }

  // ---------------------------------------------------------------------
  // Soundness

  /** Every key findAll computes for a hand of 13 tiles is the key of a waiting form. */
  lemma WaitsSound(m: TileMap, k: nat)
    requires WellFormed(m) && Total(CountsOf(m)) == SizeOfCompleteTiles - 1 && k in AllKeys(m)
    ensures exists extra, p, l, j :: WaitForm(CountsOf(m), extra, p, l, j) && k == FormKey(p, l, j, extra)
  {
    var c := CountsOf(m);
    var extra := KeyOfExtra(m, k);
    var added := AddTile(m, extra);
    var d := c[extra := c[extra] + 1];
    assert CountsOf(added) == d;
    var p := KeyOfPair(added, extra, k);
    var rest := Take(d, Pair(p));
    var ls := BitsExplore(rest, 4, false);
    var q := KeyOfSet(p, ls, extra, k);
    var l := ls[q];
    var j := KeyOfSlot(p, l, extra, k);
    ExploredSound(rest, q);
    TotalUpdate(c, extra, c[extra] + 1);
    CoversRest(d, p, l);
    assert WaitForm(c, extra, p, l, j);
  }

  /** With 14 tiles, a split of the rest after the pair into four groups uses all of it. */
  lemma CoversRest(d: Counts, p: int, l: seq<Group>)
    requires IsTile(p) && d[p] >= 2 && Total(d) == SizeOfCompleteTiles
    requires SoundSplit(Take(d, Pair(p)), 4, l)
    ensures GroupsBag(l) == Bag(Take(d, Pair(p)))
  {
    TakeTotal(d, Pair(p));
  }

  // ---------------------------------------------------------------------
  // The key does not depend on the order of the groups

  /** The key of a closed group's slot. */
  function SlotKey(g: Group): nat {
    if ValidGroup(g) then (GroupMapWellFormed(g); GroupKey(Closed(g))) else 0
  }

  /** f applied to each element, in order. */
  function MapSeq<T, U>(f: T -> U, s: seq<T>): (r: seq<U>)
    ensures |r| == |s|
  {
    if s == [] then [] else [f(s[0])] + MapSeq(f, s[1..])
  }

  lemma {:induction false} MapAt<T, U>(f: T -> U, s: seq<T>, i: nat)
    requires i < |s|
    ensures MapSeq(f, s)[i] == f(s[i])
  {
    if i > 0 {
      MapAt(f, s[1..], i - 1);
    }
  }

  lemma {:induction false} MapAppend<T, U>(f: T -> U, a: seq<T>, b: seq<T>)
    ensures MapSeq(f, a + b) == MapSeq(f, a) + MapSeq(f, b)
  {
    if a == [] {
      assert a + b == b;
    } else {
      MapAppend(f, a[1..], b);
      assert (a + b)[0] == a[0] && (a + b)[1..] == a[1..] + b;
    }
  }

  /** Mapping a function over two orderings of the same values gives the same multiset. */
  lemma {:induction false} MapPerm<T, U>(f: T -> U, a: seq<T>, b: seq<T>)
    requires multiset(a) == multiset(b)
    ensures multiset(MapSeq(f, a)) == multiset(MapSeq(f, b))
    decreases |a|
  {
    if a != [] {
      var x := a[0];
      assert x in multiset(b);
      var i :| 0 <= i < |b| && b[i] == x;
      var b' := b[..i] + b[i + 1..];
      assert b == b[..i] + ([x] + b[i + 1..]);
      assert multiset(b) == multiset(b') + multiset{x};
      assert a == [x] + a[1..];
      CancelAdd(multiset(a[1..]), multiset(b'), x);
      MapPerm(f, a[1..], b');
      MapAppend(f, b[..i], [x] + b[i + 1..]);
      MapAppend(f, b[..i], b[i + 1..]);
    }
  }

  /** Two multisets that agree once a copy of y is added to each are equal. */
  lemma CancelAdd<T>(m1: multiset<T>, m2: multiset<T>, y: T)
    requires m1 + multiset{y} == m2 + multiset{y}
    ensures m1 == m2
  {
    forall o ensures m1[o] == m2[o] {
      assert (m1 + multiset{y})[o] == (m2 + multiset{y})[o];
    }
  }

  /** The keys of the slots, as a multiset. */
  ghost function KeysBag(s: seq<TileSet>): multiset<nat>
    requires Filled(s)
  {
    if s == [] then multiset{} else KeysBag(s[..|s| - 1]) + multiset{GroupKey(s[|s| - 1])}
  }

  /** The keys of the slots, in slot order. */
  ghost function KeyList(s: seq<TileSet>): (r: seq<nat>)
    requires Filled(s)
    ensures |r| == |s|
  {
    if s == [] then [] else KeyList(s[..|s| - 1]) + [GroupKey(s[|s| - 1])]
  }

  lemma {:induction false} KeyListBag(s: seq<TileSet>)
    requires Filled(s)
    ensures KeysBag(s) == multiset(KeyList(s))
  {
    if s != [] {
      KeyListBag(s[..|s| - 1]);
    }
  }

  lemma {:induction false} KeyListAt(s: seq<TileSet>, i: nat)
    requires Filled(s) && i < |s|
    ensures KeyList(s)[i] == GroupKey(s[i])
  {
    var n := |s| - 1;
    if i < n {
      KeyListAt(s[..n], i);
      assert s[..n][i] == s[i];
    }
  }

  /** The keys of the slots are the given keys. */
  lemma BagOfKeys(s: seq<TileSet>, ks: seq<nat>)
    requires Filled(s) && |ks| == |s| && forall i :: 0 <= i < |s| ==> GroupKey(s[i]) == ks[i]
    ensures KeysBag(s) == multiset(ks)
  {
    forall i | 0 <= i < |s| ensures KeyList(s)[i] == ks[i] {
      KeyListAt(s, i);
    }
    assert KeyList(s) == ks;
    KeyListBag(s);
  }

  /** With every slot closed, the closed keys are the keys of all slots. */
  lemma {:induction false} AllClosedBag(s: seq<TileSet>)
    requires Filled(s) && forall i :: 0 <= i < |s| ==> !s[i].open
    ensures multiset(ClosedKeys(s)) == KeysBag(s)
  {
    if s != [] {
      AllClosedBag(s[..|s| - 1]);
    }
  }

  /** With only slot j open, the closed keys are the keys of all slots but slot j. */
  lemma {:induction false} ClosedBag(s: seq<TileSet>, j: nat)
    requires Filled(s) && j < |s| && s[j].open && forall i :: 0 <= i < |s| && i != j ==> !s[i].open
    ensures multiset(ClosedKeys(s)) + multiset{GroupKey(s[j])} == KeysBag(s)
  {
    if j == |s| - 1 {
      ClosedBagLast(s);
    } else {
      ClosedBag(s[..|s| - 1], j);
      ClosedBagStep(s, j);
    }
  }

  /** ClosedBag when the open slot is the last one. */
  lemma ClosedBagLast(s: seq<TileSet>)
    requires Filled(s) && |s| > 0 && s[|s| - 1].open && forall i :: 0 <= i < |s| - 1 ==> !s[i].open
    ensures multiset(ClosedKeys(s)) + multiset{GroupKey(s[|s| - 1])} == KeysBag(s)
  {
    AllClosedBag(s[..|s| - 1]);
  }

  /** The step of ClosedBag for a closed last slot. */
  lemma ClosedBagStep(s: seq<TileSet>, j: nat)
    requires Filled(s) && j < |s| - 1 && s[j].open && !s[|s| - 1].open
    requires multiset(ClosedKeys(s[..|s| - 1])) + multiset{GroupKey(s[j])} == KeysBag(s[..|s| - 1])
    ensures multiset(ClosedKeys(s)) + multiset{GroupKey(s[j])} == KeysBag(s)
  {
  }

  /** The closed keys of an opened full set: the keys of all its groups but the open one. */
  lemma ClosedKeysOfForm(p: int, l: seq<Group>, j: nat, extra: int)
    requires IsTile(p) && Four(l) && j < 5 && IsTile(extra)
    ensures Filled(Opened(FullSetOf(p, l), j, extra))
    ensures var gs := GroupsOf(p, l);
      multiset(ClosedKeys(Opened(FullSetOf(p, l), j, extra)))
      == multiset(MapSeq(SlotKey, gs)) - multiset{SlotKey(gs[j])}
  {
    var gs := GroupsOf(p, l);
    var s := Opened(FullSetOf(p, l), j, extra);
    FormShape(p, l, j, extra);
    ClosedBag(s, j);
    FormBag(p, l, j, extra);
    MapAt(SlotKey, gs, j);
    BagCancel(multiset(ClosedKeys(s)), MapSeq(SlotKey, gs), j, GroupKey(s[j]));
  }

  /** The keys of the slots of an opened full set: its groups' keys, the open slot's in place of its group's. */
  lemma FormBag(p: int, l: seq<Group>, j: nat, extra: int)
    requires IsTile(p) && Four(l) && j < 5 && IsTile(extra)
    ensures var s := Opened(FullSetOf(p, l), j, extra);
      Filled(s) && KeysBag(s) == multiset(MapSeq(SlotKey, GroupsOf(p, l))[j := GroupKey(s[j])])
  {
    var gs := GroupsOf(p, l);
    var s := Opened(FullSetOf(p, l), j, extra);
    FormShape(p, l, j, extra);
    var ks := MapSeq(SlotKey, gs)[j := GroupKey(s[j])];
    forall i | 0 <= i < 5 && i != j ensures GroupKey(s[i]) == ks[i] {
      MapAt(SlotKey, gs, i);
      assert ValidGroup(gs[i]) && s[i] == Closed(gs[i]);
    }
    BagOfKeys(s, ks);
  }

  /** A multiset that, with x, makes the keys with x in place of keys[j], is the keys without keys[j]. */
  lemma BagCancel(a: multiset<nat>, keys: seq<nat>, j: nat, x: nat)
    requires j < |keys| && a + multiset{x} == multiset(keys[j := x])
    ensures a == multiset(keys) - multiset{keys[j]}
  {
    var b := multiset(keys) - multiset{keys[j]};
    assert multiset(keys[j := x]) == b + multiset{x};
    forall o ensures a[o] == b[o] {
      assert (a + multiset{x})[o] == (b + multiset{x})[o];
    }
  }

  /** Two listings of the same groups, opened at the same group, have the same key. */
  lemma SameKey(p: int, l: seq<Group>, j: nat, l2: seq<Group>, j2: nat, extra: int)
    requires IsTile(p) && IsTile(extra) && j < 5 && j2 < 5
    requires Four(l) && Four(l2)
    requires multiset(l) == multiset(l2) && GroupsOf(p, l)[j] == GroupsOf(p, l2)[j2]
    ensures FormKey(p, l, j, extra) == FormKey(p, l2, j2, extra)
  {
    var s := Opened(FullSetOf(p, l), j, extra);
    var t := Opened(FullSetOf(p, l2), j2, extra);
    FormShape(p, l, j, extra);
    FormShape(p, l2, j2, extra);
    assert s[j] == t[j2];
    ClosedKeysOfForm(p, l, j, extra);
    ClosedKeysOfForm(p, l2, j2, extra);
    assert multiset(GroupsOf(p, l)) == multiset(GroupsOf(p, l2));
    MapPerm(SlotKey, GroupsOf(p, l), GroupsOf(p, l2));
    FullKeyEqual(s, t);
  }

  // ---------------------------------------------------------------------
  // Completeness

  /** The key of every waiting form of a hand is computed by findAll. */
  lemma WaitsComplete(m: TileMap, extra: int, p: int, l: seq<Group>, j: nat)
    requires WellFormed(m) && WaitForm(CountsOf(m), extra, p, l, j)
    ensures FormKey(p, l, j, extra) in AllKeys(m)
  {
    var c := CountsOf(m);
    assert c[0] == 0 by {
      assert c[0] == CountOf(m[0]);
    }
    FormInPair(c, extra, p, l, j);
    KeyInAll(m, c, extra, p, FormKey(p, l, j, extra));
  }

  /** The key of a waiting form is among the keys Filter computes for its pair and the rest. */
  lemma FormInPair(c: Counts, extra: int, p: int, l: seq<Group>, j: nat)
    requires WaitForm(c, extra, p, l, j) && c[0] == 0
    ensures var rest := Take(c[extra := c[extra] + 1], Pair(p));
      && AllFour(BitsExplore(rest, 4, false))
      && FormKey(p, l, j, extra) in Flat(PairSets(p, BitsExplore(rest, 4, false), extra))
  {
    var rest := Take(c[extra := c[extra] + 1], Pair(p));
    var q, j2 := SearchedForm(rest, p, l, j, extra);
    KeyInSet(p, BitsExplore(rest, 4, false), q, j2, extra);
  }

  /** A key of a full set completed for the extra tile and the pair p is among findAll's keys. */
  lemma KeyInAll(m: TileMap, c: Counts, extra: int, p: int, k: nat)
    requires WellFormed(m) && c == CountsOf(m) && IsTile(extra) && IsTile(p) && c[extra] < SizeOfOneTile
    requires c[extra := c[extra] + 1][p] >= 2
    requires var rest := Take(c[extra := c[extra] + 1], Pair(p));
      AllFour(BitsExplore(rest, 4, false)) && k in Flat(PairSets(p, BitsExplore(rest, 4, false), extra))
    ensures k in AllKeys(m)
  {
    var added := ExtraAdded(m, c, extra);
    PairInExtra(added, c[extra := c[extra] + 1], p, extra, k);
    InFlat(AllSteps(m), k);
  }

  /** The map findAll searches for an extra tile the hand holds fewer than four of. */
  lemma ExtraAdded(m: TileMap, c: Counts, extra: int) returns (added: TileMap)
    requires WellFormed(m) && c == CountsOf(m) && IsTile(extra) && c[extra] < SizeOfOneTile
    ensures WellFormed(added) && CountsOf(added) == c[extra := c[extra] + 1]
    ensures AllSteps(m)[extra - TileMin] == Flat(ExtraPairs(added, extra))
  {
    added := AddTile(m, extra);
    ExtraStepHeld(m, extra);
  }

  /** The search completes a listing of the groups of a waiting form, with the same key. */
  lemma SearchedForm(rest: Counts, p: int, l: seq<Group>, j: nat, extra: int) returns (q: nat, j2: nat)
    requires IsTile(p) && IsTile(extra) && Four(l) && GroupsBag(l) == Bag(rest) && rest[0] == 0
    requires j < 5 && IsMember(GroupsOf(p, l)[j], extra)
    ensures AllFour(BitsExplore(rest, 4, false)) && q < |BitsExplore(rest, 4, false)| && j2 < 5
    ensures IsMember(GroupsOf(p, BitsExplore(rest, 4, false)[q])[j2], extra)
    ensures FormKey(p, BitsExplore(rest, 4, false)[q], j2, extra) == FormKey(p, l, j, extra)
  {
    var ls := BitsExplore(rest, 4, false);
    q := FoundBySearch(rest, l);
    ExploredFour(rest);
    j2 := MatchSlot(p, l, j, ls[q]);
    SameKey(p, l, j, ls[q], j2, extra);
  }

  /** A split of the rest after the pair into four triples or runs is completed by the search, up to order. */
  lemma FoundBySearch(rest: Counts, l: seq<Group>) returns (q: nat)
    requires Four(l) && GroupsBag(l) == Bag(rest) && rest[0] == 0
    ensures q < |BitsExplore(rest, 4, false)| && multiset(BitsExplore(rest, 4, false)[q]) == multiset(l)
  {
    var l2 := SplitsComplete(rest, 4, l);
    PruneSound(rest, 4, false);
    q :| 0 <= q < |BitsExplore(rest, 4, false)| && BitsExplore(rest, 4, false)[q] == l2;
  }

  /** The key of a full set the solution holds, opened at a slot holding extra, is among Filter's keys. */
  lemma KeyInSet(p: int, ls: seq<seq<Group>>, q: nat, j: nat, extra: int)
    requires IsTile(p) && AllFour(ls) && IsTile(extra) && q < |ls| && j < 5
    requires IsMember(GroupsOf(p, ls[q])[j], extra)
    ensures FormKey(p, ls[q], j, extra) in Flat(PairSets(p, ls, extra))
  {
    var k := FormKey(p, ls[q], j, extra);
    assert k in SetSlots(p, ls[q], extra)[j];
    InFlat(SetSlots(p, ls[q], extra), k);
    assert k in PairSets(p, ls, extra)[q];
    InFlat(PairSets(p, ls, extra), k);
  }

  /** A key of the pair p is among findWithExtra's keys. */
  lemma PairInExtra(m: TileMap, d: Counts, p: int, extra: int, k: nat)
    requires WellFormed(m) && d == CountsOf(m) && IsTile(p) && IsTile(extra) && d[p] >= 2
    requires AllFour(BitsExplore(Take(d, Pair(p)), 4, false))
    requires k in Flat(PairSets(p, BitsExplore(Take(d, Pair(p)), 4, false), extra))
    ensures k in Flat(ExtraPairs(m, extra))
  {
    PairStep(m, d, p, extra);
    InFlat(ExtraPairs(m, extra), k);
  }

  /** The keys findWithExtra computes for a pair the map holds: those of the full sets splitTileMap completes for it. */
  lemma PairStep(m: TileMap, d: Counts, p: int, extra: int)
    requires WellFormed(m) && d == CountsOf(m) && IsTile(p) && IsTile(extra) && d[p] >= 2
    ensures AllFour(BitsExplore(Take(d, Pair(p)), 4, false))
    ensures ExtraPairs(m, extra)[p - TileMin] == Flat(PairSets(p, BitsExplore(Take(d, Pair(p)), 4, false), extra))
  {
    ExploredFour(Take(d, Pair(p)));
    assert ExtraPairs(m, extra)[p - TileMin] == PairKeys(m, p, extra);
  }

  /** A key of findWithExtra for an extra tile the hand holds fewer than four of is among findAll's keys. */
  lemma ExtraInAll(m: TileMap, extra: int, k: nat)
    requires WellFormed(m) && IsTile(extra) && CountsOf(m)[extra] < SizeOfOneTile
    requires k in Flat(ExtraPairs(AddTile(m, extra), extra))
    ensures k in AllKeys(m)
  {
    ExtraStepHeld(m, extra);
    InFlat(AllSteps(m), k);
  }

  /** The keys findAll computes for an extra tile the hand holds fewer than four of. */
  lemma ExtraStepHeld(m: TileMap, extra: int)
    requires WellFormed(m) && IsTile(extra) && CountsOf(m)[extra] < SizeOfOneTile
    ensures AddTile(m, extra) != EmptyMap()
    ensures AllSteps(m)[extra - TileMin] == Flat(ExtraPairs(AddTile(m, extra), extra))
  {
    assert AllSteps(m)[extra - TileMin] == ExtraStep(m, extra);
  }

  /** The slot of the second listing that holds the group of slot j of the first. */
  lemma MatchSlot(p: int, l: seq<Group>, j: nat, l2: seq<Group>) returns (j2: nat)
    requires |l| == 4 && |l2| == 4 && multiset(l) == multiset(l2) && j < 5
    ensures j2 < 5 && GroupsOf(p, l2)[j2] == GroupsOf(p, l)[j]
  {
    if j == 0 {
      j2 := 0;
    } else {
      var g := l[j - 1];
      assert g in multiset(l2);
      var i :| 0 <= i < 4 && l2[i] == g;
      j2 := i + 1;
    }
  }

  // ---------------------------------------------------------------------
  // What Find reports

  /**
   * Find reports each waiting form of a hand of 13 tiles exactly once: a
   * key is among the printed ones exactly when it is the key of a waiting
   * form, and no key is printed twice.
   */
  lemma FoundKeys(m: TileMap)
    requires WellFormed(m) && Total(CountsOf(m)) == SizeOfCompleteTiles - 1
    ensures Distinct(Merged([], AllKeys(m)))
    ensures forall k :: k in Merged([], AllKeys(m)) ==>
      exists extra, p, l, j :: WaitForm(CountsOf(m), extra, p, l, j) && k == FormKey(p, l, j, extra)
    ensures forall extra, p, l, j :: WaitForm(CountsOf(m), extra, p, l, j) ==> FormKey(p, l, j, extra) in Merged([], AllKeys(m))
  {
    MergedFacts([], AllKeys(m));
    forall k | k in Merged([], AllKeys(m))
      ensures exists extra, p, l, j :: WaitForm(CountsOf(m), extra, p, l, j) && k == FormKey(p, l, j, extra)
    {
      WaitsSound(m, k);
    }
    forall extra, p, l, j | WaitForm(CountsOf(m), extra, p, l, j)
      ensures FormKey(p, l, j, extra) in Merged([], AllKeys(m))
    {
      WaitsComplete(m, extra, p, l, j);
    }
  }

  /** A hand with no waiting form is reported as "(none)". */
  lemma NoneWithoutWaits(m: TileMap)
    requires WellFormed(m) && Total(CountsOf(m)) == SizeOfCompleteTiles - 1
    requires forall extra, p, l, j :: !WaitForm(CountsOf(m), extra, p, l, j)
    ensures Output(m) == "(none)\n"
  {
    FoundKeys(m);
    if Merged([], AllKeys(m)) != [] {
      assert Merged([], AllKeys(m))[0] in Merged([], AllKeys(m));
    }
  }
}
