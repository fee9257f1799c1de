/**
 * The groups of the search engine (countTiles.cpp) as the solver sees them:
 * tile/character conversion, the base-11 key of a group that orders the
 * groups of a printed line, the base-4096 key of a whole line, and the
 * per-tile attribute table a three-tile group builds when it is created.
 */
module TileSets {
  import opened Tiles

  /** A digit heavier than every tile, padding the key of a group shorter than three tiles. */
  const TileSpecial: int := 10
  const RadixOfTiles: nat := 11
  const MaxRadixOfThreeTiles: nat := 1331
  /** Added to the key of a group that holds the winning tile, so that it sorts last. */
  const RadixOfThreeTilesOpen: nat := 1332
  /** The radix in which the keys of the five groups of a line are joined. */
  const RadixOfThreeTiles: nat := 4096
  /** Slots of the per-tile attribute table of a three-tile group. */
  const KindOfTiles: nat := 9

  // ---------------------------------------------------------------------
  // Characters

  /** '1'..'9' to its value; every other character to 0. */
  function ConvertToTileType(c: char): (n: int)
    ensures 0 <= n <= TileMax
    ensures n != 0 <==> '1' <= c <= '9'
  {
    if '1' <= c <= '9' then c as int - '0' as int else 0
  }

  /** A tile value to its digit; anything else to '.'. */
  function ConvertToChar(n: int): (c: char)
    ensures c != '.' <==> IsTile(n)
  {
    if IsTile(n) then (n + '0' as int) as char else '.'
  }

  lemma TileCharRoundTrip(n: int, c: char)
    ensures IsTile(n) ==> ConvertToTileType(ConvertToChar(n)) == n
    ensures '1' <= c <= '9' ==> ConvertToChar(ConvertToTileType(c)) == c
  {
  }

  /** The digits of a list of tiles. */
  function TileChars(ts: seq<int>): (s: string)
    ensures |s| == |ts|
    ensures forall i :: 0 <= i < |ts| ==> s[i] == ConvertToChar(ts[i])
  {
    if ts == [] then [] else [ConvertToChar(ts[0])] + TileChars(ts[1..])
  }

  /** 1..9 to the slots 0..8 of a per-tile table. */
  function GetArrayIndex(n: int): int {
    n - 1
  }

  predicate AllTiles(ts: seq<int>) {
    forall i :: 0 <= i < |ts| ==> IsTile(ts[i])
  }

  // ---------------------------------------------------------------------
  // Keys of one group

  /** One to three tiles, padded with TileSpecial up to three digits. */
  function Padded(ts: seq<int>): (p: seq<int>)
    requires |ts| <= 3
    ensures |p| == 3 && p[..|ts|] == ts
    ensures forall i :: |ts| <= i < 3 ==> p[i] == TileSpecial
    decreases 3 - |ts|
  {
    if |ts| == 3 then ts else Padded(ts + [TileSpecial])
  }

  /** The digits read in base 11, the first one least significant. */
  function KeyImpl(ds: seq<int>): int
    requires |ds| >= 1
  {
    if |ds| == 1 then ds[0] else ds[0] + KeyImpl(ds[1..]) * RadixOfTiles
  }

  lemma KeyImpl3(p: seq<int>)
    requires |p| == 3
    ensures KeyImpl(p) == p[0] + RadixOfTiles * p[1] + RadixOfTiles * RadixOfTiles * p[2]
  {
    assert KeyImpl(p[2..]) == p[2];
    assert KeyImpl(p[1..]) == p[1] + p[2] * RadixOfTiles by {
      assert p[1..][1..] == p[2..];
    }
  }

  /** The key of a group of one to three tiles; groups holding the winning tile weigh more. */
  function CalculateKey(open: bool, ts: seq<int>): (k: nat)
    requires 1 <= |ts| <= 3 && AllTiles(ts)
    ensures !open ==> k < MaxRadixOfThreeTiles
    ensures open ==> RadixOfThreeTilesOpen <= k < 2 * RadixOfThreeTilesOpen
    ensures 2 * RadixOfThreeTilesOpen < RadixOfThreeTiles
  {
    var p := Padded(ts);
    KeyImpl3(p);
    (if open then RadixOfThreeTilesOpen else 0) + KeyImpl(p)
  }

  /** Reads a group key back: whether it is open, and its three digits. */
  function DecodeKey(k: nat): (bool, seq<int>) {
    var open := k >= RadixOfThreeTilesOpen;
    var r := if open then k - RadixOfThreeTilesOpen else k;
    (open, [r % RadixOfTiles, r / RadixOfTiles % RadixOfTiles, r / (RadixOfTiles * RadixOfTiles)])
  }

  lemma DivMod11(a: int, b: int)
    requires 0 <= a < 11
    ensures (a + 11 * b) / 11 == b && (a + 11 * b) % 11 == a
  {
  }

  lemma Digits3(d0: int, d1: int, d2: int)
    requires 0 <= d0 < 11 && 0 <= d1 < 11 && 0 <= d2
    ensures (d0 + 11 * d1 + 121 * d2) % 11 == d0
    ensures (d0 + 11 * d1 + 121 * d2) / 11 % 11 == d1
    ensures (d0 + 11 * d1 + 121 * d2) / 121 == d2
  {
    var r := d0 + 11 * (d1 + 11 * d2);
    DivMod11(d0, d1 + 11 * d2);
    DivMod11(d1, d2);
    assert r / 121 == r / 11 / 11;
  }

  lemma DecodeDigits(open: bool, d0: int, d1: int, d2: int)
    requires 1 <= d0 <= TileSpecial && 1 <= d1 <= TileSpecial && 1 <= d2 <= TileSpecial
    ensures var k := (if open then RadixOfThreeTilesOpen else 0) + (d0 + 11 * d1 + 121 * d2);
      k >= 0 && DecodeKey(k) == (open, [d0, d1, d2])
  {
    Digits3(d0, d1, d2);
  }

  /** A group key gives back the flag and the padded tiles it was made from. */
  lemma KeyRoundTrip(open: bool, ts: seq<int>)
    requires 1 <= |ts| <= 3 && AllTiles(ts)
    ensures DecodeKey(CalculateKey(open, ts)) == (open, Padded(ts))
  {
    var p := Padded(ts);
    KeyImpl3(p);
    forall i | 0 <= i < 3 ensures 1 <= p[i] <= TileSpecial {
      if i < |ts| {
        assert p[i] == p[..|ts|][i];
      }
    }
    DecodeDigits(open, p[0], p[1], p[2]);
    assert p == [p[0], p[1], p[2]];
  }

  lemma PaddedInjective(a: seq<int>, b: seq<int>)
    requires |a| <= 3 && |b| <= 3 && AllTiles(a) && AllTiles(b)
    requires Padded(a) == Padded(b)
    ensures a == b
  {
    PaddedLength(a);
    PaddedLength(b);
    assert a == Padded(a)[..|a|];
  }

  /** The number of tiles is where the padding starts. */
  lemma PaddedLength(ts: seq<int>)
    requires |ts| <= 3 && AllTiles(ts)
    ensures |ts| == if Padded(ts)[0] == TileSpecial then 0 else if Padded(ts)[1] == TileSpecial then 1
      else if Padded(ts)[2] == TileSpecial then 2 else 3
  {
    var p := Padded(ts);
    forall i | 0 <= i < |ts| ensures p[i] != TileSpecial {
      assert p[i] == p[..|ts|][i];
    }
  }

  /** Equal keys come from equal tiles with the same flag. */
  lemma KeyInjective(o1: bool, t1: seq<int>, o2: bool, t2: seq<int>)
    requires 1 <= |t1| <= 3 && AllTiles(t1) && 1 <= |t2| <= 3 && AllTiles(t2)
    requires CalculateKey(o1, t1) == CalculateKey(o2, t2)
    ensures o1 == o2 && t1 == t2
  {
    KeyRoundTrip(o1, t1);
    KeyRoundTrip(o2, t2);
    PaddedInjective(t1, t2);
  }

  // ---------------------------------------------------------------------
  // The pair

  function PairClosedKey(t: int): nat
    requires IsTile(t)
  {
    CalculateKey(false, [t, t])
  }

  function PairOpenKey(t: int): nat
    requires IsTile(t)
  {
    CalculateKey(true, [t])
  }

  // ---------------------------------------------------------------------
  // Three-tile groups

  /** The tiles of a group other than one copy of `x`, in ascending order. */
  function OpenTiles(g: Group, x: int): (r: seq<int>)
    requires x in TilesOf(g)
    ensures |r| == |TilesOf(g)| - 1
    ensures ValidGroup(g) ==> AllTiles(r)
  {
    match g
    case Pair(t) => [t]
    case Triple(t) => [t, t]
    case Run(t) => if x == t then [t + 1, t + 2] else if x == t + 1 then [t, t + 2] else [t, t + 1]
  }

  lemma OpenTilesBag(g: Group, x: int)
    requires x in TilesOf(g)
    ensures multiset(OpenTiles(g, x)) + multiset{x} == multiset(TilesOf(g))
  {
  }

  /** What a three-tile group keeps for one possible winning tile. */
  datatype Attribute = Attribute(count: nat, keyOpen: nat, strOpen: string)

  function EmptyAttributes(): (a: seq<Attribute>)
    ensures |a| == KindOfTiles
  {
    seq(KindOfTiles, _ => Attribute(0, 0, ""))
  }

  /** Records, in the slot of the winning tile, the key and text of the other two tiles. */
  function Register(slots: seq<Attribute>, extra: int, t1: int, t2: int): (r: seq<Attribute>)
    requires |slots| == KindOfTiles && IsTile(extra) && IsTile(t1) && IsTile(t2)
    ensures |r| == KindOfTiles
  {
    var i := GetArrayIndex(extra);
    slots[i := slots[i].(keyOpen := slots[i].keyOpen + CalculateKey(true, [t1, t2]),
                         strOpen := ['[', ConvertToChar(t1), ConvertToChar(t2), ']'])]
  }

  /** Adds to the count of a slot, or None when the slot is past the end of the table. */
  function AddCount(slots: seq<Attribute>, i: int, n: nat): (r: Option<seq<Attribute>>)
    requires |slots| == KindOfTiles
    ensures r.Some? ==> |r.value| == KindOfTiles
  {
    if 0 <= i < KindOfTiles then Some(slots[i := slots[i].(count := slots[i].count + n)]) else None
  }

  /** The slots after the open keys and texts of every possible winning tile are registered. */
  function RegisteredSlots(g: Group): (r: seq<Attribute>)
    requires ValidGroup(g) && !g.Pair?
    ensures |r| == KindOfTiles
  {
    var ts := TilesOf(g);
    var s := Register(EmptyAttributes(), ts[0], ts[1], ts[2]);
    if ts[0] != ts[1] then Register(Register(s, ts[1], ts[0], ts[2]), ts[2], ts[0], ts[1]) else s
  }

  /**
   * The attribute table a three-tile group builds when it is created, with
   * each tile counted in the slot of its raw value: None when a count lands
   * past the ninth slot.
   */
  function AttributesAsWritten(g: Group): Option<seq<Attribute>>
    requires ValidGroup(g) && !g.Pair?
  {
    var ts := TilesOf(g);
    var s := RegisteredSlots(g);
    if ts[0] != ts[1] then
      match AddCount(s, ts[0], 1)
      case None => None
      case Some(s1) =>
        match AddCount(s1, ts[1], 1)
        case None => None
        case Some(s2) => AddCount(s2, ts[2], 1)
    else AddCount(s, ts[0], 3)
  }

  /** Whether the group holds `t`, read from the slot of the raw value of `t`. */
  function HasTileAsWritten(g: Group, t: int): Option<bool>
    requires ValidGroup(g) && !g.Pair?
  {
    match AttributesAsWritten(g)
    case None => None
    case Some(s) => if 0 <= t < KindOfTiles then Some(s[t].count != 0) else None
  }

  /** The same table with each tile counted in the slot GetArrayIndex gives it. */
  function Attributes(g: Group): (r: seq<Attribute>)
    requires ValidGroup(g) && !g.Pair?
    ensures |r| == KindOfTiles
  {
    var ts := TilesOf(g);
    var s := RegisteredSlots(g);
    if ts[0] != ts[1] then
      AddCount(AddCount(AddCount(s, GetArrayIndex(ts[0]), 1).value, GetArrayIndex(ts[1]), 1).value,
               GetArrayIndex(ts[2]), 1).value
    else AddCount(s, GetArrayIndex(ts[0]), 3).value
  }

  /** A count past the ninth slot happens exactly for the groups that hold a 9. */
  lemma AsWrittenOutOfRange(g: Group)
    requires ValidGroup(g) && !g.Pair?
    ensures AttributesAsWritten(g).None? <==> TileMax in TilesOf(g)
  {
  }

  /** The triple 999: creating it counts past the end of the nine-slot table. */
  lemma TripleNineOutOfRange()
    ensures AttributesAsWritten(Triple(9)).None? && HasTileAsWritten(Triple(9), 9).None?
  {
    AsWrittenOutOfRange(Triple(9));
  }

  /** Where no 9 is involved, reading the raw slot gives group membership. */
  lemma HasTileAsWrittenBelowNine(g: Group, t: int)
    requires ValidGroup(g) && !g.Pair? && TileMax !in TilesOf(g) && TileMin <= t < TileMax
    ensures HasTileAsWritten(g, t) == Some(t in TilesOf(g))
  {
  }

  // ---------------------------------------------------------------------
  // The interface of a group: key, membership and text

  /** Whether the group holds the tile; for three tiles, read from the count of its slot. */
  function HasTile(g: Group, t: int): bool
    requires ValidGroup(g) && IsTile(t)
  {
    if g.Pair? then g.tile == t else Attributes(g)[GetArrayIndex(t)].count != 0
  }

  lemma HasTileIsMember(g: Group, t: int)
    requires ValidGroup(g) && IsTile(t)
    ensures HasTile(g, t) <==> t in TilesOf(g)
  {
  }

  function ClosedKey(g: Group): nat
    requires ValidGroup(g)
  {
    if g.Pair? then PairClosedKey(g.tile) else CalculateKey(false, TilesOf(g))
  }

  function ClosedString(g: Group): string {
    if g.Pair? then ['(', ConvertToChar(g.tile), ConvertToChar(g.tile), ')']
    else ['('] + TileChars(TilesOf(g)) + [')']
  }

  /** The key of a group in a line; `open` marks the group the winning tile is taken from. */
  function GetKey(g: Group, open: bool, extra: int): nat
    requires ValidGroup(g) && IsTile(extra)
  {
    if !open then ClosedKey(g)
    else if g.Pair? then PairOpenKey(g.tile)
    else Attributes(g)[GetArrayIndex(extra)].keyOpen
  }

  /** The text of a group in a line: "(111)" closed, "[11]" open. */
  function ToString(g: Group, open: bool, extra: int): string
    requires ValidGroup(g) && IsTile(extra)
  {
    if !open then ClosedString(g)
    else if g.Pair? then ['[', ConvertToChar(g.tile), ']']
    else Attributes(g)[GetArrayIndex(extra)].strOpen
  }

  /** Registration leaves, in the slot of each tile of the group, the key and text of the other two. */
  lemma RegisteredAt(g: Group, x: int)
    requires ValidGroup(g) && !g.Pair? && x in TilesOf(g)
    ensures var o := OpenTiles(g, x);
      && RegisteredSlots(g)[GetArrayIndex(x)].keyOpen == CalculateKey(true, o)
      && RegisteredSlots(g)[GetArrayIndex(x)].strOpen == ['[', ConvertToChar(o[0]), ConvertToChar(o[1]), ']']
  {
    var ts := TilesOf(g);
    var s0 := Register(EmptyAttributes(), ts[0], ts[1], ts[2]);
    if g.Run? {
      var s1 := Register(s0, ts[1], ts[0], ts[2]);
      assert RegisteredSlots(g) == Register(s1, ts[2], ts[0], ts[1]);
    }
  }

  /** Counting a tile changes no key and no text. */
  lemma AttributesKeepRegistered(g: Group, i: int)
    requires ValidGroup(g) && !g.Pair? && 0 <= i < KindOfTiles
    ensures Attributes(g)[i].keyOpen == RegisteredSlots(g)[i].keyOpen
    ensures Attributes(g)[i].strOpen == RegisteredSlots(g)[i].strOpen
  {
  }

  /** The registered open key and text are those of the tiles left when the winning tile is taken out. */
  lemma OpenAttributes(g: Group, x: int)
    requires ValidGroup(g) && x in TilesOf(g)
    ensures IsTile(x)
    ensures GetKey(g, true, x) == CalculateKey(true, OpenTiles(g, x))
    ensures ToString(g, true, x) == ['['] + TileChars(OpenTiles(g, x)) + [']']
  {
    if !g.Pair? {
      RegisteredAt(g, x);
      AttributesKeepRegistered(g, GetArrayIndex(x));
    }
  }

  /** Closed keys lie below 1331, open keys from 1332 up to below 4096 / 2. */
  lemma KeyRange(g: Group, open: bool, x: int)
    requires ValidGroup(g) && IsTile(x) && (open ==> x in TilesOf(g))
    ensures !open ==> GetKey(g, open, x) < MaxRadixOfThreeTiles
    ensures open ==> RadixOfThreeTilesOpen <= GetKey(g, open, x) < 2 * RadixOfThreeTilesOpen
  {
    if open {
      OpenAttributes(g, x);
    }
  }

  /** Keys of closed groups: triples and runs below pairs, all below open groups. */
  lemma KeyOrder(g: Group, h: Group, x: int)
    requires ValidGroup(g) && ValidGroup(h) && IsTile(x)
    ensures !g.Pair? && h.Pair? ==> ClosedKey(g) < ClosedKey(h)
    ensures x in TilesOf(g) ==> ClosedKey(h) < RadixOfThreeTilesOpen <= GetKey(g, true, x) < RadixOfThreeTiles
  {
    if !g.Pair? && h.Pair? {
      ThreeBelowPair(g, h);
    }
    if x in TilesOf(g) {
      KeyRange(g, true, x);
    }
  }

  /** A triple or run has no padding digit, a pair has one in the most significant place. */
  lemma ThreeBelowPair(g: Group, h: Group)
    requires ValidGroup(g) && ValidGroup(h) && !g.Pair? && h.Pair?
    ensures ClosedKey(g) < ClosedKey(h)
  {
    var tg := TilesOf(g);
    KeyImpl3(Padded(tg));
    assert Padded(tg) == tg;
    assert ClosedKey(g) <= 9 + 11 * 9 + 121 * 9;
    var ph := Padded([h.tile, h.tile]);
    KeyImpl3(ph);
    assert ph[2] == TileSpecial && ph[..2] == [h.tile, h.tile];
    assert ClosedKey(h) >= 121 * TileSpecial;
  }

  /** Equal closed keys mean equal groups. */
  lemma ClosedKeyInjective(g: Group, h: Group)
    requires ValidGroup(g) && ValidGroup(h) && ClosedKey(g) == ClosedKey(h)
    ensures g == h
  {
    var tg := if g.Pair? then [g.tile, g.tile] else TilesOf(g);
    var th := if h.Pair? then [h.tile, h.tile] else TilesOf(h);
    KeyInjective(false, tg, false, th);
    assert tg[0] == th[0] && |tg| == |th|;
    if !g.Pair? && !h.Pair? {
      assert tg[1] == th[1];
    }
  }

  lemma OpenKeyDeterminesString(g: Group, x: int, h: Group, y: int)
    requires ValidGroup(g) && ValidGroup(h) && x in TilesOf(g) && y in TilesOf(h)
    requires GetKey(g, true, x) == GetKey(h, true, y)
    ensures ToString(g, true, x) == ToString(h, true, y)
  {
    OpenAttributes(g, x);
    OpenAttributes(h, y);
    KeyInjective(true, OpenTiles(g, x), true, OpenTiles(h, y));
  }

  /**
   * Equal keys mean equal texts, whatever the winning tile: the text of a
   * group in a line is a function of its key.
   */
  lemma KeyDeterminesString(g: Group, og: bool, x: int, h: Group, oh: bool, y: int)
    requires ValidGroup(g) && ValidGroup(h) && IsTile(x) && IsTile(y)
    requires og ==> x in TilesOf(g)
    requires oh ==> y in TilesOf(h)
    requires GetKey(g, og, x) == GetKey(h, oh, y)
    ensures og == oh && ToString(g, og, x) == ToString(h, oh, y)
  {
    KeyRange(g, og, x);
    KeyRange(h, oh, y);
    if og {
      OpenKeyDeterminesString(g, x, h, y);
    } else {
      ClosedKeyInjective(g, h);
    }
  }
}
