/**
 * The printed line of the bit-packed engine (TileFullSet::Print,
 * TileSet::Print, TileSet::tileMapToString). A 10-bit group key is turned
 * back into characters through two tables: patternTable, indexed by the
 * key's five pattern bits, gives the offsets of up to three characters from
 * a base character and how many of them to drop; baseTable, indexed by the
 * key's position bits, gives the base character of the lowest tile. The
 * five slots of a full key are printed from its low bits up, so the closed
 * groups come out smallest key first and the open group last.
 */
module BitsPrint {
  import opened Tiles
  import opened BitsTileMap
  import TileSets
  import BitsKey

  /** An entry of patternTable: a character offset, or a shift of at most two characters. */
  type Offset = n: nat | n <= 16

  /** A character of baseTable. */
  type BaseChar = c: char | '0' <= c <= 'a' witness '0'

  /**
   * patternTable, row by row: per pattern, the offsets of the first, second
   * and third character from the base character, and the shift (in bits)
   * that drops the missing ones. The rows not listed are all zero.
   */
  function PatternRow(p: nat): (r: seq<Offset>)
    ensures |r| == 4
  {
    if p == 1 then [1, 0, 0, 16]
    else if p == 3 then [1, 1, 0, 8]
    else if p == 7 then [1, 1, 1, 0]
    else if p == 9 then [2, 1, 0, 8]
    else if p == 17 then [3, 1, 0, 8]
    else if p == 25 then [3, 2, 1, 0]
    else [0, 0, 0, 0]
  }

  /** Per position bits (the lowest set bit divided by four): the character one below the lowest tile's digit. */
  const BaseTable: seq<BaseChar> := ['0', '0', '1', '2', '2', '3', '4', '5', '6', '7', '7', '8', 'a', 'a', 'a', 'a']

  /** Characters of a line: fourteen tiles and five pairs of brackets; the last one is the newline. */
  const ResultStringLength: nat := 24

  /**
   * The characters of a pattern over a base character: three characters
   * built at offsets from the base, the shift dropping the first ones of the
   * string as it is laid out in memory.
   */
  function Glyphs(pattern: nat, base: BaseChar): (r: string)
    requires pattern < 32
    ensures |r| <= 3
  {
    var row := PatternRow(pattern);
    var c1 := (base as int + row[0]) as char;
    var c2 := (base as int + row[1]) as char;
    var c3 := (base as int + row[2]) as char;
    var drop := row[3] / 8;
    if drop == 0 then [c3, c2, c1] else if drop == 1 then [c2, c1] else if drop == 2 then [c1] else []
  }

  /**
   * TileSet::Print of one key: the open bit picks square or round brackets,
   * the five pattern bits pick the row of patternTable and the four position
   * bits the base character. Every field is read through its mask, as the
   * source does, so any number is accepted.
   */
  function SlotString(k: nat): string {
    SlotOf((k / OpenKey) % 2 == 1, (k / 16) % 32, k % 16)
  }

  /** The characters of a slot from its open bit, pattern bits and position bits. */
  function SlotOf(open: bool, pattern: nat, pos: nat): string
    requires pattern < 32 && pos < 16
  {
    (if open then "[" else "(") + Glyphs(pattern, BaseTable[pos]) + (if open then "]" else ")")
  }

  /** The slots of a full key from the low bits up, ten bits each, each printed by `slot`. */
  function Slots(slot: nat -> string, rest: nat, n: nat): string {
    if n == 0 then "" else slot(rest % BitsKey.KeyRadix) + Slots(slot, rest / BitsKey.KeyRadix, n - 1)
  }

  /** The line TileFullSet::Print makes of a full key: its five slots, then the newline. */
  function ResultLine(key: nat): string {
    Slots(SlotString, key, 5) + "\n"
  }

  /**
   * TileFullSet::Print: the slots are appended one after the other, the key
   * shifted down ten bits at a time, and the newline closes the line.
   */
  method Print(key: nat) returns (str: string)
    ensures str == ResultLine(key)
  {
    str := AppendSlots(SlotString, key);
    str := str + "\n";
  }

  /** The loop of TileFullSet::Print, over the printer of one slot. */
  method AppendSlots(slot: nat -> string, key: nat) returns (str: string)
    ensures str == Slots(slot, key, 5)
  {
    str := "";
    var rest: nat := key;
    for i := 0 to 5
      invariant str + Slots(slot, rest, 5 - i) == Slots(slot, key, 5)
    {
      Assoc(str, slot(rest % BitsKey.KeyRadix), Slots(slot, rest / BitsKey.KeyRadix, 5 - i - 1));
      str := str + slot(rest % BitsKey.KeyRadix);
      rest := rest / BitsKey.KeyRadix;
    }
  }

  lemma Assoc(a: string, b: string, c: string)
    ensures a + (b + c) == (a + b) + c
  {
  }

  // ---------------------------------------------------------------------
  // What the tables print

  /** The tiles of a group with one copy of x taken out. */
  function Without(ts: seq<int>, x: int): (r: seq<int>)
    ensures |r| == if x in ts then |ts| - 1 else |ts|
  {
    if ts == [] then [] else if ts[0] == x then ts[1..] else [ts[0]] + Without(ts[1..], x)
  }

  /** The base character of tile t is the character before its digit. */
  lemma BaseOf(t: int)
    requires IsTile(t)
    ensures (5 * t) / 4 < 16 && BaseTable[(5 * t) / 4] as int + 1 == '0' as int + t
  {
  }

  /**
   * A group whose lowest tile, pattern bits and glyphs are known prints its
   * glyphs between its brackets.
   */
  lemma SlotPrints(s: TileSet, low: int, p: nat, chars: string)
    requires IsTile(low) && p < 32 && s.tileMap[low] != 0 && (forall u :: 0 <= u < low ==> s.tileMap[u] == 0)
    requires KeyPattern(s.tileMap, low) == p
    requires (5 * low) / 4 < 16 && Glyphs(p, BaseTable[(5 * low) / 4]) == chars
    ensures s.tileMap != EmptyMap()
    ensures SlotString(GroupKey(s)) == (if s.open then "[" else "(") + chars + (if s.open then "]" else ")")
  {
    LowestIs(s.tileMap, low);
    var o := if s.open then 1 else 0;
    FieldsPrint(GroupKey(s), o, p, (5 * low) / 4);
  }

  /** A key made of an open bit, pattern bits and position bits prints from those. */
  lemma FieldsPrint(k: nat, o: nat, p: nat, q: nat)
    requires o <= 1 && p < 32 && q < 16 && k == (o * 32 + p) * 16 + q
    ensures SlotString(k) == SlotOf(o == 1, p, q)
  {
    KeyFields(o, p, q);
    assert k % 16 == q && (k / 16) % 32 == p;
    assert (k / OpenKey) % 2 == 1 <==> o == 1;
  }

  /**
   * The rows of the six patterns a group or an opened group has print its
   * tiles as ascending digits: one copy, two, three, a tile and the next, a
   * tile and the one after next, and a run of three.
   */
  lemma GlyphsOf(p: nat, t: int, ts: seq<int>)
    requires IsTile(t) && (5 * t) / 4 < 16
    requires p == 1 ==> ts == [t]
    requires p == 3 ==> ts == [t, t]
    requires p == 7 ==> ts == [t, t, t]
    requires p == 9 ==> t + 1 <= TileMax && ts == [t, t + 1]
    requires p == 17 ==> t + 2 <= TileMax && ts == [t, t + 2]
    requires p == 25 ==> t + 2 <= TileMax && ts == [t, t + 1, t + 2]
    requires p == 1 || p == 3 || p == 7 || p == 9 || p == 17 || p == 25
    ensures Glyphs(p, BaseTable[(5 * t) / 4]) == TileSets.TileChars(ts)
  {
    BaseOf(t);
    var b := BaseTable[(5 * t) / 4];
    var d := TileSets.ConvertToChar(t);
    if p == 1 {
      assert Glyphs(1, b) == [d];
      assert TileSets.TileChars(ts) == [d];
    } else if p == 3 {
      assert Glyphs(3, b) == [d, d];
      assert TileSets.TileChars(ts) == [d, d];
    } else if p == 7 {
      assert Glyphs(7, b) == [d, d, d];
      assert TileSets.TileChars(ts) == [d, d, d];
    } else if p == 9 {
      assert Glyphs(9, b) == [d, TileSets.ConvertToChar(t + 1)];
      assert TileSets.TileChars(ts) == [d, TileSets.ConvertToChar(t + 1)];
    } else if p == 17 {
      assert Glyphs(17, b) == [d, TileSets.ConvertToChar(t + 2)];
      assert TileSets.TileChars(ts) == [d, TileSets.ConvertToChar(t + 2)];
    } else {
      assert Glyphs(25, b) == [d, TileSets.ConvertToChar(t + 1), TileSets.ConvertToChar(t + 2)];
      assert TileSets.TileChars(ts) == [d, TileSets.ConvertToChar(t + 1), TileSets.ConvertToChar(t + 2)];
    }
  }

  /** A closed group prints as its tiles in ascending order, in round brackets. */
  lemma ClosedSlot(g: Group)
    requires ValidGroup(g)
    ensures GroupMap(g) != EmptyMap()
    ensures SlotString(GroupKey(TileSet(GroupMap(g), false))) == "(" + TileSets.TileChars(TilesOf(g)) + ")"
  {
    match g
    case Pair(t) => ClosedAt(g, 3, [t, t]);
    case Triple(t) => ClosedAt(g, 7, [t, t, t]);
    case Run(t) => ClosedAt(g, 25, [t, t + 1, t + 2]);
  }

  /** ClosedSlot for one kind of group: p is its pattern and ts its tiles. */
  lemma ClosedAt(g: Group, p: nat, ts: seq<int>)
    requires ValidGroup(g) && ts == TilesOf(g)
    requires p == (if g.Pair? then 3 else if g.Triple? then 7 else 25)
    ensures GroupMap(g) != EmptyMap()
    ensures SlotString(GroupKey(TileSet(GroupMap(g), false))) == "(" + TileSets.TileChars(ts) + ")"
  {
    var t := g.tile;
    BaseOf(t);
    ClosedPattern(g, p);
    GlyphsOf(p, t, ts);
    SlotPrints(TileSet(GroupMap(g), false), t, p, TileSets.TileChars(ts));
  }

  /** The bits the key reads at the lowest tile of a group's map. */
  lemma ClosedPattern(g: Group, p: nat)
    requires ValidGroup(g) && p == (if g.Pair? then 3 else if g.Triple? then 7 else 25)
    ensures GroupMap(g)[g.tile] != 0 && forall u :: 0 <= u < g.tile ==> GroupMap(g)[u] == 0
    ensures KeyPattern(GroupMap(g), g.tile) == p
  {
    match g
    case Pair(t) =>
    case Triple(t) =>
    case Run(t) =>
  }

  /** The group opened on x prints as its other tiles in ascending order, in square brackets. */
  lemma OpenSlot(g: Group, x: int)
    requires ValidGroup(g) && IsMember(g, x)
    ensures RemoveOne(GroupMap(g), x) != EmptyMap()
    ensures SlotString(GroupKey(TileSet(RemoveOne(GroupMap(g), x), true))) ==
      "[" + TileSets.TileChars(Without(TilesOf(g), x)) + "]"
  {
    var t := g.tile;
    match g
    case Pair(_) => OpenPairSlot(t);
    case Triple(_) => OpenTripleSlot(t);
    case Run(_) =>
      if x == t {
        OpenRunSlot(t, t, t + 1, 9, [t + 1, t + 2]);
      } else if x == t + 1 {
        OpenRunSlot(t, t + 1, t, 17, [t, t + 2]);
      } else {
        OpenRunSlot(t, t + 2, t, 9, [t, t + 1]);
      }
  }

  lemma OpenPairSlot(t: int)
    requires IsTile(t)
    ensures RemoveOne(GroupMap(Pair(t)), t) != EmptyMap()
    ensures SlotString(GroupKey(TileSet(RemoveOne(GroupMap(Pair(t)), t), true))) ==
      "[" + TileSets.TileChars(Without(TilesOf(Pair(t)), t)) + "]"
  {
    var r := RemoveOne(GroupMap(Pair(t)), t);
    assert r == EmptyMap()[t := 1];
    assert KeyPattern(r, t) == 1;
    BaseOf(t);
    GlyphsOf(1, t, [t]);
    assert Without(TilesOf(Pair(t)), t) == [t];
    SlotPrints(TileSet(r, true), t, 1, TileSets.TileChars([t]));
  }

  lemma OpenTripleSlot(t: int)
    requires IsTile(t)
    ensures RemoveOne(GroupMap(Triple(t)), t) != EmptyMap()
    ensures SlotString(GroupKey(TileSet(RemoveOne(GroupMap(Triple(t)), t), true))) ==
      "[" + TileSets.TileChars(Without(TilesOf(Triple(t)), t)) + "]"
  {
    var r := RemoveOne(GroupMap(Triple(t)), t);
    assert r == EmptyMap()[t := 3];
    assert KeyPattern(r, t) == 3;
    BaseOf(t);
    GlyphsOf(3, t, [t, t]);
    assert Without(TilesOf(Triple(t)), t) == [t, t];
    SlotPrints(TileSet(r, true), t, 3, TileSets.TileChars([t, t]));
  }

  /** The run from t opened on x; `rest` is what is left of it, from `low` on. */
  lemma OpenRunSlot(t: int, x: int, low: int, p: nat, rest: seq<int>)
    requires ValidGroup(Run(t)) && t <= x <= t + 2
    requires low == (if x == t then t + 1 else t) && p == (if x == t + 1 then 17 else 9)
    requires rest == (if x == t then [t + 1, t + 2] else if x == t + 1 then [t, t + 2] else [t, t + 1])
    ensures RemoveOne(GroupMap(Run(t)), x) != EmptyMap()
    ensures SlotString(GroupKey(TileSet(RemoveOne(GroupMap(Run(t)), x), true))) ==
      "[" + TileSets.TileChars(Without(TilesOf(Run(t)), x)) + "]"
  {
    var r := RemoveOne(GroupMap(Run(t)), x);
    OpenRunMap(t, x);
    BaseOf(low);
    GlyphsOf(p, low, rest);
    assert Without(TilesOf(Run(t)), x) == rest;
    SlotPrints(TileSet(r, true), low, p, TileSets.TileChars(rest));
  }

  /** The map of a run opened on x, and the pattern bits of what is left. */
  lemma OpenRunMap(t: int, x: int)
    requires ValidGroup(Run(t)) && t <= x <= t + 2
    ensures var r := RemoveOne(GroupMap(Run(t)), x);
      var low := if x == t then t + 1 else t;
      && r[low] != 0 && (forall u :: 0 <= u < low ==> r[u] == 0)
      && KeyPattern(r, low) == if x == t + 1 then 17 else 9
  {
    var r := RemoveOne(GroupMap(Run(t)), x);
    if x == t {
      assert r == EmptyMap()[t + 1 := 1][t + 2 := 1];
    } else if x == t + 1 {
      assert r == EmptyMap()[t := 1][t + 2 := 1];
    } else {
      assert r == EmptyMap()[t := 1][t + 1 := 1];
    }
  }
}
