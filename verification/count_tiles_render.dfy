/**
 * How the search engine (countTiles.cpp) renders a complete split: for
 * every group holding the winning tile, the keys of the five groups are
 * sorted in descending order and packed into one composite key; a line is
 * written, in ascending key order, only when that key is new in the table
 * of lines already written for the hand.
 */
module CountTilesRender {
  import opened Tiles
  import opened TileSets

  /** One group of a line, its place in the split and its key. */
  datatype KeyIndex = KeyIndex(index: nat, group: Group, key: nat)

  predicate ValidGroups(gs: seq<Group>) {
    forall j :: 0 <= j < |gs| ==> ValidGroup(gs[j])
  }

  /** The groups of a split, with the key each gets when group i is the open one. */
  function Entries(gs: seq<Group>, i: nat, extra: int): (r: seq<KeyIndex>)
    requires ValidGroups(gs) && IsTile(extra)
    ensures |r| == |gs|
  {
    seq(|gs|, j requires 0 <= j < |gs| => KeyIndex(j, gs[j], GetKey(gs[j], i == j, extra)))
  }

  lemma EntriesAt(gs: seq<Group>, i: nat, extra: int, j: int)
    requires ValidGroups(gs) && IsTile(extra) && 0 <= j < |gs|
    ensures Entries(gs, i, extra)[j] == KeyIndex(j, gs[j], GetKey(gs[j], i == j, extra))
  {
  }

  // ---------------------------------------------------------------------
  // Sorting by descending key

  ghost predicate SortedDesc(s: seq<KeyIndex>) {
    forall a, b :: 0 <= a < b < |s| ==> s[a].key >= s[b].key
  }

  /** Puts e before the first entry with a smaller key. */
  function Insert(e: KeyIndex, s: seq<KeyIndex>): (r: seq<KeyIndex>)
    ensures |r| == |s| + 1
  {
    if s == [] || s[0].key < e.key then [e] + s else [s[0]] + Insert(e, s[1..])
  }

  lemma {:induction false} InsertPermutes(e: KeyIndex, s: seq<KeyIndex>)
    ensures multiset(Insert(e, s)) == multiset(s) + multiset{e}
  {
    if s != [] && s[0].key >= e.key {
      InsertPermutes(e, s[1..]);
      assert s == [s[0]] + s[1..];
    }
  }

  lemma InsertMembers(e: KeyIndex, s: seq<KeyIndex>, j: int)
    requires 0 <= j < |Insert(e, s)|
    ensures Insert(e, s)[j] == e || Insert(e, s)[j] in s
  {
    InsertPermutes(e, s);
    assert Insert(e, s)[j] in multiset(Insert(e, s));
  }

  lemma {:induction false} InsertSorted(e: KeyIndex, s: seq<KeyIndex>)
    requires SortedDesc(s)
    ensures SortedDesc(Insert(e, s))
  {
    if s != [] && s[0].key >= e.key {
      var t := Insert(e, s[1..]);
      InsertSorted(e, s[1..]);
      forall j | 0 <= j < |t| ensures s[0].key >= t[j].key {
        InsertMembers(e, s[1..], j);
      }
      var r := [s[0]] + t;
      forall a, b | 0 <= a < b < |r| ensures r[a].key >= r[b].key {
        if a > 0 {
          assert r[a] == t[a - 1] && r[b] == t[b - 1];
        } else {
          assert r[b] == t[b - 1];
        }
      }
    }
  }

  /** The stand-in for the library sort: insertion sort, equal keys keeping their order. */
  function SortDesc(s: seq<KeyIndex>): (r: seq<KeyIndex>)
    ensures |r| == |s|
  {
    if s == [] then [] else Insert(s[0], SortDesc(s[1..]))
  }

  /** The sort orders by descending key and is a permutation. */
  lemma {:induction false} SortDescFacts(s: seq<KeyIndex>)
    ensures SortedDesc(SortDesc(s))
    ensures multiset(SortDesc(s)) == multiset(s)
  {
    if s != [] {
      SortDescFacts(s[1..]);
      InsertSorted(s[0], SortDesc(s[1..]));
      InsertPermutes(s[0], SortDesc(s[1..]));
      assert s == [s[0]] + s[1..];
    }
  }

  // ---------------------------------------------------------------------
  // The composite key

  function KeysOf(s: seq<KeyIndex>): (r: seq<nat>)
    ensures |r| == |s|
  {
    if s == [] then [] else [s[0].key] + KeysOf(s[1..])
  }

  lemma {:induction false} KeysOfAt(s: seq<KeyIndex>, j: int)
    requires 0 <= j < |s|
    ensures KeysOf(s)[j] == s[j].key
  {
    if j > 0 {
      KeysOfAt(s[1..], j - 1);
    }
  }

  /** Keys folded in order as digits of base 4096, the first one most significant. */
  function Pack(ks: seq<nat>): nat {
    if ks == [] then 0 else Pack(ks[..|ks| - 1]) * RadixOfThreeTiles + ks[|ks| - 1]
  }

  /** The len keys a composite key was packed from. */
  function Unpack(n: nat, len: nat): (r: seq<nat>)
    ensures |r| == len
  {
    if len == 0 then [] else Unpack(n / RadixOfThreeTiles, len - 1) + [n % RadixOfThreeTiles]
  }

  lemma DivMod4096(a: int, b: int)
    requires 0 <= b < 4096 && 0 <= a
    ensures (a * 4096 + b) / 4096 == a && (a * 4096 + b) % 4096 == b
  {
  }

  /** Keys below 4096 are recovered from their composite key. */
  lemma {:induction false} PackRoundTrip(ks: seq<nat>)
    requires forall j :: 0 <= j < |ks| ==> ks[j] < RadixOfThreeTiles
    ensures Unpack(Pack(ks), |ks|) == ks
  {
    if ks != [] {
      var p := ks[..|ks| - 1];
      PackRoundTrip(p);
      DivMod4096(Pack(p), ks[|ks| - 1]);
      assert ks == p + [ks[|ks| - 1]];
    }
  }

  lemma PackInjective(a: seq<nat>, b: seq<nat>)
    requires |a| == |b| && Pack(a) == Pack(b)
    requires forall j :: 0 <= j < |a| ==> a[j] < RadixOfThreeTiles
    requires forall j :: 0 <= j < |b| ==> b[j] < RadixOfThreeTiles
    ensures a == b
  {
    PackRoundTrip(a);
    PackRoundTrip(b);
  }

  // ---------------------------------------------------------------------
  // The text of a line

  /** A group is shown open exactly when it is the i-th group of the split. */
  function Text(e: KeyIndex, i: nat, extra: int): string
    requires ValidGroup(e.group) && IsTile(extra)
  {
    ToString(e.group, e.index == i, extra)
  }

  ghost predicate ValidEntries(s: seq<KeyIndex>) {
    forall j :: 0 <= j < |s| ==> ValidGroup(s[j].group)
  }

  /** The texts of the sorted groups from the last one to the first: ascending keys. */
  function LineText(s: seq<KeyIndex>, i: nat, extra: int): string
    requires ValidEntries(s) && IsTile(extra)
  {
    if s == [] then [] else LineText(s[1..], i, extra) + Text(s[0], i, extra)
  }

  /** The sorted entries of the split whose i-th group is open. */
  function Sorted(gs: seq<Group>, i: nat, extra: int): (r: seq<KeyIndex>)
    requires ValidGroups(gs) && IsTile(extra)
    ensures |r| == |gs| && ValidEntries(r)
  {
    var r := SortDesc(Entries(gs, i, extra));
    SortedMembers(gs, i, extra);
    r
  }

  /** Every sorted entry is an entry of the split. */
  lemma SortedMembers(gs: seq<Group>, i: nat, extra: int)
    requires ValidGroups(gs) && IsTile(extra)
    ensures forall j :: 0 <= j < |gs| ==> SortDesc(Entries(gs, i, extra))[j] in Entries(gs, i, extra)
  {
    var es := Entries(gs, i, extra);
    SortDescFacts(es);
    forall j | 0 <= j < |gs| ensures SortDesc(es)[j] in es {
      assert SortDesc(es)[j] in multiset(SortDesc(es));
    }
  }

  /** The composite key of the split when its i-th group is open. */
  function LineKey(gs: seq<Group>, i: nat, extra: int): nat
    requires ValidGroups(gs) && IsTile(extra)
  {
    Pack(KeysOf(Sorted(gs, i, extra)))
  }

  function Line(gs: seq<Group>, i: nat, extra: int): string
    requires ValidGroups(gs) && IsTile(extra)
  {
    LineText(Sorted(gs, i, extra), i, extra)
  }

  // ---------------------------------------------------------------------
  // The open group comes last

  /** Holding the winning tile in the i-th group, the split is one a line can be made of. */
  ghost predicate Renderable(gs: seq<Group>, i: nat, extra: int) {
    ValidGroups(gs) && IsTile(extra) && i < |gs| && extra in TilesOf(gs[i])
  }

  /** Only the open entry has a key of 1332 or more. */
  lemma OpenKeyLargest(gs: seq<Group>, i: nat, extra: int, j: int)
    requires Renderable(gs, i, extra) && 0 <= j < |gs|
    ensures j != i ==> Entries(gs, i, extra)[j].key < RadixOfThreeTilesOpen <= Entries(gs, i, extra)[i].key
    ensures Entries(gs, i, extra)[j].key < RadixOfThreeTiles
  {
    KeyOrder(gs[i], gs[j], extra);
    KeyRange(gs[j], i == j, extra);
  }

  /** The first sorted entry is the open group. */
  lemma SortedFirstIsOpen(gs: seq<Group>, i: nat, extra: int)
    requires Renderable(gs, i, extra)
    ensures Sorted(gs, i, extra)[0] == KeyIndex(i, gs[i], GetKey(gs[i], true, extra))
    ensures forall j :: 1 <= j < |gs| ==> Sorted(gs, i, extra)[j].index != i
  {
    SortedHeadIsOpen(gs, i, extra);
    var es := Entries(gs, i, extra);
    var r := Sorted(gs, i, extra);
    SortDescFacts(es);
    SortedMembers(gs, i, extra);
    EntriesOnce(gs, i, extra, es[i]);
    forall j | 1 <= j < |r| ensures r[j].index != i {
      var u :| 0 <= u < |es| && es[u] == r[j];
      if u == i {
        MultisetTwice(r, 0, j);
        assert false;
      }
    }
  }

  lemma SortedHeadIsOpen(gs: seq<Group>, i: nat, extra: int)
    requires Renderable(gs, i, extra)
    ensures Sorted(gs, i, extra)[0] == Entries(gs, i, extra)[i]
  {
    var es := Entries(gs, i, extra);
    var r := Sorted(gs, i, extra);
    SortDescFacts(es);
    SortedMembers(gs, i, extra);
    assert es[i] in multiset(r);
    var p :| 0 <= p < |r| && r[p] == es[i];
    var q :| 0 <= q < |es| && es[q] == r[0];
    OpenKeyLargest(gs, i, extra, q);
    assert r[0].key >= r[p].key;
  }

  /** An entry that is listed once cannot sit at two places of a permutation of its list. */
  lemma MultisetTwice(r: seq<KeyIndex>, p: int, j: int)
    requires 0 <= p < |r| && 0 <= j < |r| && p != j && r[p] == r[j]
    ensures multiset(r)[r[p]] >= 2
  {
    var lo := if p < j then p else j;
    var hi := if p < j then j else p;
    assert r == r[..lo] + [r[lo]] + r[lo + 1..hi] + [r[hi]] + r[hi + 1..];
  }

  /** Entries of a split are listed once each: their indices differ. */
  lemma EntriesOnce(gs: seq<Group>, i: nat, extra: int, x: KeyIndex)
    requires ValidGroups(gs) && IsTile(extra) && x in Entries(gs, i, extra)
    ensures multiset(Entries(gs, i, extra))[x] == 1
  {
    var es := Entries(gs, i, extra);
    var u :| 0 <= u < |es| && es[u] == x;
    assert es == es[..u] + [x] + es[u + 1..];
    assert x !in es[..u] && x !in es[u + 1..];
  }

  /** The line shows the other groups closed, in ascending key order, and ends with the open group. */
  lemma LineEndsWithOpen(gs: seq<Group>, i: nat, extra: int)
    requires Renderable(gs, i, extra)
    ensures Line(gs, i, extra) == LineText(Sorted(gs, i, extra)[1..], i, extra) + ToString(gs[i], true, extra)
    ensures forall j :: 1 <= j < |gs| ==>
      Text(Sorted(gs, i, extra)[j], i, extra) == ClosedString(Sorted(gs, i, extra)[j].group)
  {
    SortedFirstIsOpen(gs, i, extra);
  }

  // ---------------------------------------------------------------------
  // The composite key determines the line

  /** Two entries of renderable splits with equal keys have equal texts, whatever their winning tiles. */
  lemma EntryTextByKey(gs1: seq<Group>, i1: nat, x1: int, e1: KeyIndex,
                       gs2: seq<Group>, i2: nat, x2: int, e2: KeyIndex)
    requires Renderable(gs1, i1, x1) && Renderable(gs2, i2, x2)
    requires e1 in Entries(gs1, i1, x1) && e2 in Entries(gs2, i2, x2) && e1.key == e2.key
    ensures Text(e1, i1, x1) == Text(e2, i2, x2)
  {
    var u1 :| 0 <= u1 < |gs1| && Entries(gs1, i1, x1)[u1] == e1;
    var u2 :| 0 <= u2 < |gs2| && Entries(gs2, i2, x2)[u2] == e2;
    KeyDeterminesString(gs1[u1], u1 == i1, x1, gs2[u2], u2 == i2, x2);
  }

  lemma {:induction false} LineTextPointwise(a: seq<KeyIndex>, i1: nat, x1: int, b: seq<KeyIndex>, i2: nat, x2: int)
    requires ValidEntries(a) && ValidEntries(b) && IsTile(x1) && IsTile(x2) && |a| == |b|
    requires forall j :: 0 <= j < |a| ==> Text(a[j], i1, x1) == Text(b[j], i2, x2)
    ensures LineText(a, i1, x1) == LineText(b, i2, x2)
  {
    if a != [] {
      LineTextPointwise(a[1..], i1, x1, b[1..], i2, x2);
    }
  }

  /** Every key of a renderable split lies below 4096. */
  lemma SortedKeysBounded(gs: seq<Group>, i: nat, extra: int)
    requires Renderable(gs, i, extra)
    ensures forall j :: 0 <= j < |gs| ==> KeysOf(Sorted(gs, i, extra))[j] < RadixOfThreeTiles
  {
    var r := Sorted(gs, i, extra);
    SortedMembers(gs, i, extra);
    forall j | 0 <= j < |gs| ensures KeysOf(r)[j] < RadixOfThreeTiles {
      KeysOfAt(r, j);
      var u :| 0 <= u < |gs| && Entries(gs, i, extra)[u] == r[j];
      OpenKeyLargest(gs, i, extra, u);
    }
  }

  /**
   * Splits of the same size with the same composite key have the same
   * line, even for different winning tiles: a key found in the table
   * stands for the very line it would render.
   */
  lemma KeyDeterminesLine(gs1: seq<Group>, i1: nat, x1: int, gs2: seq<Group>, i2: nat, x2: int)
    requires Renderable(gs1, i1, x1) && Renderable(gs2, i2, x2) && |gs1| == |gs2|
    requires LineKey(gs1, i1, x1) == LineKey(gs2, i2, x2)
    ensures Line(gs1, i1, x1) == Line(gs2, i2, x2)
  {
    var r1 := Sorted(gs1, i1, x1);
    var r2 := Sorted(gs2, i2, x2);
    SortedKeysBounded(gs1, i1, x1);
    SortedKeysBounded(gs2, i2, x2);
    PackInjective(KeysOf(r1), KeysOf(r2));
    SortedMembers(gs1, i1, x1);
    SortedMembers(gs2, i2, x2);
    forall j | 0 <= j < |r1| ensures Text(r1[j], i1, x1) == Text(r2[j], i2, x2) {
      KeysOfAt(r1, j);
      KeysOfAt(r2, j);
      EntryTextByKey(gs1, i1, x1, r1[j], gs2, i2, x2, r2[j]);
    }
    LineTextPointwise(r1, i1, x1, r2, i2, x2);
  }

  // ---------------------------------------------------------------------
  // The order of equal keys does not matter

  /** Two permutations sorted by descending key have the same key at every place. */
  lemma {:induction false} SortedSameKeys(a: seq<KeyIndex>, b: seq<KeyIndex>)
    requires SortedDesc(a) && SortedDesc(b) && multiset(a) == multiset(b)
    ensures |a| == |b|
    ensures forall j :: 0 <= j < |a| ==> a[j].key == b[j].key
    decreases |a|
  {
    assert |a| == |multiset(a)| == |b|;
    if a != [] {
      var p := HeadKeysEqual(a, b);
      var b' := Tails(a, b, p);
      SortedSameKeys(a[1..], b');
      CombineKeys(a, b, p, b');
    }
  }

  /** Both lists without their copy of a's first entry: still sorted, still permutations of each other. */
  lemma Tails(a: seq<KeyIndex>, b: seq<KeyIndex>, p: int) returns (b': seq<KeyIndex>)
    requires SortedDesc(a) && SortedDesc(b) && multiset(a) == multiset(b) && |a| > 0
    requires 0 <= p < |b| && b[p] == a[0]
    ensures b' == b[..p] + b[p + 1..]
    ensures SortedDesc(a[1..]) && SortedDesc(b') && multiset(b') == multiset(a[1..])
  {
    b' := b[..p] + b[p + 1..];
    RemoveKeepsSorted(b, p);
    RemoveKeepsSorted(a, 0);
    assert a[1..] == a[..0] + a[1..];
    TailsPermute(a, b, p);
  }

  lemma TailsPermute(a: seq<KeyIndex>, b: seq<KeyIndex>, p: int)
    requires multiset(a) == multiset(b) && |a| > 0 && 0 <= p < |b| && b[p] == a[0]
    ensures multiset(b[..p] + b[p + 1..]) == multiset(a[1..])
  {
    assert a == [a[0]] + a[1..];
    assert multiset(a) == multiset{a[0]} + multiset(a[1..]);
    assert b == b[..p] + [b[p]] + b[p + 1..];
    assert multiset(b) == multiset(b[..p]) + multiset{b[p]} + multiset(b[p + 1..]);
    assert multiset(b[..p] + b[p + 1..]) == multiset(b[..p]) + multiset(b[p + 1..]);
    forall x ensures multiset(b[..p] + b[p + 1..])[x] == multiset(a[1..])[x] {
      assert multiset(a)[x] == multiset(b)[x];
    }
  }

  lemma CombineKeys(a: seq<KeyIndex>, b: seq<KeyIndex>, p: int, b': seq<KeyIndex>)
    requires SortedDesc(b) && |a| == |b| > 0 && 0 <= p < |b| && b[p].key == b[0].key == a[0].key
    requires b' == b[..p] + b[p + 1..]
    requires forall j :: 0 <= j < |a| - 1 ==> a[1..][j].key == b'[j].key
    ensures forall j :: 0 <= j < |a| ==> a[j].key == b[j].key
  {
    RemovedKeysShift(b, p, b');
    forall j | 1 <= j < |a| ensures a[j].key == b[j].key {
      assert a[j] == a[1..][j - 1];
    }
  }

  /** The first entries of two sorted permutations have the same key; the other's copy of the first sits at p. */
  lemma HeadKeysEqual(a: seq<KeyIndex>, b: seq<KeyIndex>) returns (p: int)
    requires SortedDesc(a) && SortedDesc(b) && multiset(a) == multiset(b) && |a| > 0
    ensures 0 <= p < |b| && b[p] == a[0] && a[0].key == b[0].key
  {
    assert a[0] in multiset(b) && b[0] in multiset(a);
    p :| 0 <= p < |b| && b[p] == a[0];
    var q :| 0 <= q < |a| && a[q] == b[0];
  }

  /** Where the removed entry has the first key, the entries after it move up one place with equal keys. */
  lemma RemovedKeysShift(b: seq<KeyIndex>, p: int, b': seq<KeyIndex>)
    requires SortedDesc(b) && 0 <= p < |b| && b[p].key == b[0].key && b' == b[..p] + b[p + 1..]
    ensures forall j :: 0 <= j < |b'| ==> b'[j].key == b[j + 1].key
  {
    forall j | 0 <= j < |b'| ensures b'[j].key == b[j + 1].key {
      if j < p {
        assert b'[j] == b[j];
      } else {
        assert b'[j] == b[j + 1];
      }
    }
  }

  lemma RemovePermutes(b: seq<KeyIndex>, p: int)
    requires 0 <= p < |b|
    ensures multiset(b[..p] + b[p + 1..]) == multiset(b) - multiset{b[p]}
  {
    assert b == b[..p] + [b[p]] + b[p + 1..];
  }

  /** Taking out an entry whose key equals the first keeps the order, and all keys before it equal the first. */
  lemma RemoveKeepsSorted(b: seq<KeyIndex>, p: int)
    requires SortedDesc(b) && 0 <= p < |b|
    ensures SortedDesc(b[..p] + b[p + 1..])
  {
    var b' := b[..p] + b[p + 1..];
    forall x, y | 0 <= x < y < |b'| ensures b'[x].key >= b'[y].key {
      var x' := if x < p then x else x + 1;
      var y' := if y < p then y else y + 1;
      assert b'[x] == b[x'] && b'[y] == b[y'];
    }
  }

  /**
   * Whatever order the library sort leaves entries with equal keys in, the
   * composite key and the line are those of the insertion sort.
   */
  lemma SortChoiceIrrelevant(gs: seq<Group>, i: nat, extra: int, a: seq<KeyIndex>)
    requires Renderable(gs, i, extra)
    requires SortedDesc(a) && multiset(a) == multiset(Entries(gs, i, extra))
    ensures ValidEntries(a) && |a| == |gs|
    ensures Pack(KeysOf(a)) == LineKey(gs, i, extra)
    ensures LineText(a, i, extra) == Line(gs, i, extra)
  {
    var es := Entries(gs, i, extra);
    var r := Sorted(gs, i, extra);
    SortDescFacts(es);
    SortedSameKeys(a, r);
    SortedMembers(gs, i, extra);
    forall j | 0 <= j < |a| ensures a[j] in es {
      assert a[j] in multiset(a);
    }
    forall j | 0 <= j < |a| ensures KeysOf(a)[j] == KeysOf(r)[j] && Text(a[j], i, extra) == Text(r[j], i, extra) {
      KeysOfAt(a, j);
      KeysOfAt(r, j);
      EntryTextByKey(gs, i, extra, a[j], gs, i, extra, r[j]);
    }
    assert KeysOf(a) == KeysOf(r);
    LineTextPointwise(a, i, extra, r, i, extra);
  }

  // ---------------------------------------------------------------------
  // The lines of one split

  /** The lines written so far and the table of composite keys already rendered for the hand. */
  datatype Rendered = Rendered(lines: seq<string>, table: map<nat, string>)

  /**
   * The lines of a complete split from its i-th group on: one per group
   * holding the winning tile, unless the table already has its key.
   */
  function RenderFrom(gs: seq<Group>, extra: int, i: nat, table: map<nat, string>): Rendered
    requires ValidGroups(gs) && IsTile(extra) && i <= |gs|
    decreases |gs| - i
  {
    if i == |gs| then Rendered([], table)
    else if !HasTile(gs[i], extra) then RenderFrom(gs, extra, i + 1, table)
    else if LineKey(gs, i, extra) in table then RenderFrom(gs, extra, i + 1, table)
    else
      var rest := RenderFrom(gs, extra, i + 1, table[LineKey(gs, i, extra) := Line(gs, i, extra)]);
      Rendered([Line(gs, i, extra)] + rest.lines, rest.table)
  }

  /** Lines, each ended by a line feed. */
  function Joined(lines: seq<string>): string {
    if lines == [] then [] else lines[0] + "\n" + Joined(lines[1..])
  }

  lemma {:induction false} JoinedAppend(a: seq<string>, b: seq<string>)
    ensures Joined(a + b) == Joined(a) + Joined(b)
  {
    if a != [] {
      assert (a + b)[1..] == a[1..] + b;
      JoinedAppend(a[1..], b);
    } else {
      assert a + b == b;
    }
  }

  /** Every key of the table stands for the line any complete split of n groups with that key renders. */
  ghost predicate Coherent(table: map<nat, string>, n: nat) {
    forall gs, i, x {:trigger table[LineKey(gs, i, x)]} :: Renderable(gs, i, x) && |gs| == n && LineKey(gs, i, x) in table ==>
      table[LineKey(gs, i, x)] == Line(gs, i, x)
  }

  lemma CoherentAdd(table: map<nat, string>, gs: seq<Group>, i: nat, x: int)
    requires Renderable(gs, i, x) && Coherent(table, |gs|)
    ensures Coherent(table[LineKey(gs, i, x) := Line(gs, i, x)], |gs|)
  {
    var t := table[LineKey(gs, i, x) := Line(gs, i, x)];
    forall gs', i', x' | Renderable(gs', i', x') && |gs'| == |gs| && LineKey(gs', i', x') in t
      ensures t[LineKey(gs', i', x')] == Line(gs', i', x')
    {
      if LineKey(gs', i', x') == LineKey(gs, i, x) {
        KeyDeterminesLine(gs, i, x, gs', i', x');
      }
    }
  }

  /** Rendering only adds to the table, one new key per line written. */
  lemma RenderExtends(gs: seq<Group>, extra: int, i: nat, table: map<nat, string>)
    requires ValidGroups(gs) && IsTile(extra) && i <= |gs|
    ensures var r := RenderFrom(gs, extra, i, table);
      && (forall k :: k in table ==> k in r.table && r.table[k] == table[k])
      && |r.table.Keys| == |table.Keys| + |r.lines|
  {
    RenderKeeps(gs, extra, i, table);
    RenderGrows(gs, extra, i, table);
  }

  lemma {:induction false} RenderKeeps(gs: seq<Group>, extra: int, i: nat, table: map<nat, string>)
    requires ValidGroups(gs) && IsTile(extra) && i <= |gs|
    ensures forall k :: k in table ==> k in RenderFrom(gs, extra, i, table).table && RenderFrom(gs, extra, i, table).table[k] == table[k]
    decreases |gs| - i
  {
    if i < |gs| {
      var k := LineKey(gs, i, extra);
      if HasTile(gs[i], extra) && k !in table {
        RenderKeeps(gs, extra, i + 1, table[k := Line(gs, i, extra)]);
      } else {
        RenderKeeps(gs, extra, i + 1, table);
      }
    }
  }

  lemma {:induction false} RenderGrows(gs: seq<Group>, extra: int, i: nat, table: map<nat, string>)
    requires ValidGroups(gs) && IsTile(extra) && i <= |gs|
    ensures |RenderFrom(gs, extra, i, table).table.Keys| == |table.Keys| + |RenderFrom(gs, extra, i, table).lines|
    decreases |gs| - i
  {
    if i < |gs| {
      var k := LineKey(gs, i, extra);
      if HasTile(gs[i], extra) && k !in table {
        MapAddSize(table, k, Line(gs, i, extra));
        RenderGrows(gs, extra, i + 1, table[k := Line(gs, i, extra)]);
      } else {
        RenderGrows(gs, extra, i + 1, table);
      }
    }
  }

  lemma MapAddSize(table: map<nat, string>, k: nat, v: string)
    requires k !in table
    ensures |table[k := v].Keys| == |table.Keys| + 1
  {
    assert table[k := v].Keys == table.Keys + {k};
  }

  /** Rendering keeps the table coherent. */
  lemma {:induction false} RenderCoherent(gs: seq<Group>, extra: int, i: nat, table: map<nat, string>)
    requires ValidGroups(gs) && IsTile(extra) && i <= |gs| && Coherent(table, |gs|)
    ensures Coherent(RenderFrom(gs, extra, i, table).table, |gs|)
    decreases |gs| - i
  {
    if i < |gs| {
      var t := NextTable(gs, extra, i, table);
      RenderCoherent(gs, extra, i + 1, t);
    }
  }

  /** The table after group i: its line added under its key when the group holds the tile and the key is new. */
  lemma NextTable(gs: seq<Group>, extra: int, i: nat, table: map<nat, string>) returns (t: map<nat, string>)
    requires ValidGroups(gs) && IsTile(extra) && i < |gs|
    ensures t == if HasTile(gs[i], extra) && LineKey(gs, i, extra) !in table then table[LineKey(gs, i, extra) := Line(gs, i, extra)] else table
    ensures RenderFrom(gs, extra, i, table).table == RenderFrom(gs, extra, i + 1, t).table
    ensures Coherent(table, |gs|) ==> Coherent(t, |gs|)
  {
    HasTileIsMember(gs[i], extra);
    var k := LineKey(gs, i, extra);
    if HasTile(gs[i], extra) && k !in table {
      t := table[k := Line(gs, i, extra)];
      if Coherent(table, |gs|) {
        CoherentAdd(table, gs, i, extra);
      }
    } else {
      t := table;
    }
  }

  /**
   * Afterwards the table holds the line of every group of the split that
   * holds the winning tile: a line skipped because its key is known is the
   * line written before for that key.
   */
  lemma {:induction false} RenderCovers(gs: seq<Group>, extra: int, i: nat, table: map<nat, string>)
    requires ValidGroups(gs) && IsTile(extra) && i <= |gs| && Coherent(table, |gs|)
    ensures var r := RenderFrom(gs, extra, i, table);
      forall j :: i <= j < |gs| && extra in TilesOf(gs[j]) ==>
        LineKey(gs, j, extra) in r.table && r.table[LineKey(gs, j, extra)] == Line(gs, j, extra)
    decreases |gs| - i
  {
    if i < |gs| {
      var t := NextTable(gs, extra, i, table);
      HasTileIsMember(gs[i], extra);
      if HasTile(gs[i], extra) {
        CoveredHere(gs, extra, i, table, t);
      }
      RenderCovers(gs, extra, i + 1, t);
    }
  }

  /** The line of group i is in the table once group i has been rendered. */
  lemma CoveredHere(gs: seq<Group>, extra: int, i: nat, table: map<nat, string>, t: map<nat, string>)
    requires ValidGroups(gs) && IsTile(extra) && i < |gs| && Coherent(table, |gs|)
    requires extra in TilesOf(gs[i])
    requires t == if LineKey(gs, i, extra) !in table then table[LineKey(gs, i, extra) := Line(gs, i, extra)] else table
    ensures var r := RenderFrom(gs, extra, i + 1, t);
      LineKey(gs, i, extra) in r.table && r.table[LineKey(gs, i, extra)] == Line(gs, i, extra)
  {
    KnownLine(gs, extra, i, table, LineKey(gs, i, extra), Line(gs, i, extra));
    RenderKeeps(gs, extra, i + 1, t);
  }

  /** A coherent table holds the line of group i under its key, if it holds the key at all. */
  lemma KnownLine(gs: seq<Group>, extra: int, i: nat, table: map<nat, string>, k: nat, l: string)
    requires Renderable(gs, i, extra) && Coherent(table, |gs|)
    requires k == LineKey(gs, i, extra) && l == Line(gs, i, extra)
    ensures k in table ==> table[k] == l
  {
  }

  // ---------------------------------------------------------------------
  // The lines of many splits

  lemma ValidAppend(a: seq<Group>, b: seq<Group>)
    requires ValidGroups(a) && ValidGroups(b)
    ensures ValidGroups(a + b)
  {
    forall j | |a| <= j < |a + b| ensures ValidGroup((a + b)[j]) {
      assert (a + b)[j] == b[j - |a|];
    }
  }

  ghost predicate AllGroupsValid(leaves: seq<seq<Group>>) {
    forall l :: l in leaves ==> ValidGroups(l)
  }

  /** The lines of the splits prefix + l for every l in turn, with the table carried along. */
  function RenderLeaves(prefix: seq<Group>, leaves: seq<seq<Group>>, extra: int, table: map<nat, string>): Rendered
    requires ValidGroups(prefix) && AllGroupsValid(leaves) && IsTile(extra)
  {
    if leaves == [] then Rendered([], table)
    else
      ValidAppend(prefix, leaves[0]);
      var r := RenderFrom(prefix + leaves[0], extra, 0, table);
      var rest := RenderLeaves(prefix, leaves[1..], extra, r.table);
      Rendered(r.lines + rest.lines, rest.table)
  }

  lemma {:induction false} RenderLeavesAppend(prefix: seq<Group>, a: seq<seq<Group>>, b: seq<seq<Group>>,
                                              extra: int, table: map<nat, string>)
    requires ValidGroups(prefix) && AllGroupsValid(a) && AllGroupsValid(b) && IsTile(extra)
    ensures AllGroupsValid(a + b)
    ensures var ra := RenderLeaves(prefix, a, extra, table);
      var rb := RenderLeaves(prefix, b, extra, ra.table);
      RenderLeaves(prefix, a + b, extra, table) == Rendered(ra.lines + rb.lines, rb.table)
  {
    AllValidAppend(a, b);
    if a != [] {
      assert (a + b)[0] == a[0] && (a + b)[1..] == a[1..] + b;
      ValidAppend(prefix, a[0]);
      var r := RenderFrom(prefix + a[0], extra, 0, table);
      RenderLeavesAppend(prefix, a[1..], b, extra, r.table);
    } else {
      assert a + b == b;
    }
  }

  lemma AllValidAppend(a: seq<seq<Group>>, b: seq<seq<Group>>)
    requires AllGroupsValid(a) && AllGroupsValid(b)
    ensures AllGroupsValid(a + b)
  {
  }
}
