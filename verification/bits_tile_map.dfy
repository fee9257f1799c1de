/**
 * The tile map of the bit-packed engine (countTilesBitsSolver.cpp): a
 * 64-bit word read as fields of five bits, field t (bits 5t..5t+4) holding
 * the copies of tile t in unary (n copies are the n low bits). The word is
 * modelled as its ten fields 0..9; field 0 is never set and the fields
 * above 9 are zero. Every mask operation of the engine acts on whole
 * fields, so it is stated field by field and tied to the per-tile count
 * table of the other engines by CountsOf.
 */
module BitsTileMap {
  import opened Tiles
  import opened TileSets
  import CountTilesSearch

  /** Bits per tile field: four copies plus one bit of padding. */
  const SizeOfBitsPerTile: nat := 5
  /** Bits per group in a full key. */
  const SizeOfKeyBits: nat := 10
  /** The bit of a group key that marks the open (waiting) group. */
  const OpenKey: nat := 512

  type TileMap = m: seq<bv5> | |m| == 10 witness [0, 0, 0, 0, 0, 0, 0, 0, 0, 0]

  function EmptyMap(): TileMap {
    [0, 0, 0, 0, 0, 0, 0, 0, 0, 0]
  }

  /** Field t of the word: zero above the last tile. */
  function Field(m: TileMap, t: int): bv5
    requires 0 <= t
  {
    if t < 10 then m[t] else 0
  }

  /** The value of the fields from i on, as bits 5i.. of the 64-bit word shifted down. */
  function WordFrom(fs: seq<bv5>, i: nat): nat
    decreases |fs| - i
  {
    if i >= |fs| then 0 else fs[i] as nat + 32 * WordFrom(fs, i + 1)
  }

  /** The value of the 64-bit word, field 0 lowest. */
  function Word(fs: seq<bv5>): nat {
    WordFrom(fs, 0)
  }

  /** A field holding zero to four copies in unary. */
  predicate IsCount(f: bv5) {
    f == 0 || f == 1 || f == 3 || f == 7 || f == 15
  }

  /** n copies in unary: the n low bits set. */
  function Unary(n: nat): bv5
    requires n <= 5
  {
    if n == 0 then 0 else if n == 1 then 1 else if n == 2 then 3
    else if n == 3 then 7 else if n == 4 then 15 else 31
  }

  /** The number of low bits set below the first clear one. */
  function CountOf(f: bv5): (n: nat)
    ensures n <= 5
  {
    if f & 1 == 0 then 0
    else if f & 2 == 0 then 1
    else if f & 4 == 0 then 2
    else if f & 8 == 0 then 3
    else if f & 16 == 0 then 4
    else 5
  }

  /** The tile map of a hand: every field unary with at most four copies, field 0 empty. */
  predicate WellFormed(m: TileMap) {
    m[0] == 0 && forall t :: 0 < t < 10 ==> IsCount(m[t])
  }

  /** The count table a tile map stands for. */
  function CountsOf(m: TileMap): Counts {
    seq(10, t requires 0 <= t < 10 => CountOf(m[t]))
  }

  /** A count table with at most four copies of a value, no tile 0. */
  predicate Bounded(c: Counts) {
    c[0] == 0 && forall t :: 0 < t < 10 ==> c[t] <= SizeOfOneTile
  }

  /** The tile map of a count table. */
  function MapOf(c: Counts): TileMap
    requires Bounded(c)
  {
    seq(10, t requires 0 <= t < 10 => Unary(c[t]))
  }

  lemma UnaryCount(n: nat)
    requires n <= SizeOfOneTile
    ensures CountOf(Unary(n)) == n && IsCount(Unary(n))
  {
  }

  lemma CountUnary(f: bv5)
    requires IsCount(f)
    ensures Unary(CountOf(f)) == f && CountOf(f) <= SizeOfOneTile
  {
  }

  /** The abstraction is a bijection between well-formed maps and bounded tables. */
  lemma MapCountsRoundTrip(m: TileMap, c: Counts)
    ensures WellFormed(m) ==> Bounded(CountsOf(m)) && MapOf(CountsOf(m)) == m
    ensures Bounded(c) ==> WellFormed(MapOf(c)) && CountsOf(MapOf(c)) == c
  {
    if WellFormed(m) {
      forall t | 0 <= t < 10 ensures CountOf(m[t]) <= SizeOfOneTile && Unary(CountOf(m[t])) == m[t] {
        CountUnary(m[t]);
      }
    }
    if Bounded(c) {
      forall t | 0 <= t < 10 ensures CountOf(Unary(c[t])) == c[t] && IsCount(Unary(c[t])) {
        UnaryCount(c[t]);
      }
    }
  }

  /** The run masks of splitWithMask and the key mask of TileSet::GetKey are whole-field masks. */
  lemma MaskFields()
    ensures Word([1, 1, 1]) == 0x421 && Word([15, 15, 15]) == 0x3def && Word([30, 30, 30]) == 0x7bde
    ensures Word([7, 1, 1]) == 0x427
  {
  }

  /** The fifth-copy mask of findAll is bit 4 of the fields of tiles 1..9. */
  lemma FifthCopyMask(fs: seq<bv5>)
    requires fs == [0, 16, 16, 16, 16, 16, 16, 16, 16, 16]
    ensures Word(fs) == 0x2108421084200
  {
    assert WordFrom(fs, 9) == 0x10;
    assert WordFrom(fs, 8) == 0x210;
    assert WordFrom(fs, 7) == 0x4210;
    assert WordFrom(fs, 6) == 0x84210;
    assert WordFrom(fs, 5) == 0x1084210;
    assert WordFrom(fs, 4) == 0x21084210;
    assert WordFrom(fs, 3) == 0x421084210;
    assert WordFrom(fs, 2) == 0x8421084210;
    assert WordFrom(fs, 1) == 0x108421084210;
  }

  // ---------------------------------------------------------------------
  // Adding the completing tile (findAll)

  /** Some tile's field has bit 4 set: a fifth copy. */
  predicate HasFifthCopy(m: TileMap) {
    exists t :: TileMin <= t <= TileMax && m[t] & 0x10 != 0
  }

  /**
   * One more copy of `extra`: its field shifted left with the low bit set;
   * the empty map when that makes a fifth copy.
   */
  function AddTile(m: TileMap, extra: int): (r: TileMap)
    requires WellFormed(m) && IsTile(extra)
    ensures r == EmptyMap() <==> CountsOf(m)[extra] == SizeOfOneTile
    ensures r != EmptyMap() ==> WellFormed(r) && CountsOf(r) == CountsOf(m)[extra := CountsOf(m)[extra] + 1]
  {
    var added := m[extra := (m[extra] << 1) | 1];
    AddTileFacts(m, extra, added);
    if HasFifthCopy(added) then EmptyMap() else added
  }

  lemma AddTileFacts(m: TileMap, extra: int, added: TileMap)
    requires WellFormed(m) && IsTile(extra) && added == m[extra := (m[extra] << 1) | 1]
    ensures added != EmptyMap()
    ensures HasFifthCopy(added) <==> CountOf(m[extra]) == SizeOfOneTile
    ensures !HasFifthCopy(added) ==> WellFormed(added)
    ensures CountsOf(added) == CountsOf(m)[extra := CountsOf(m)[extra] + 1]
  {
    assert added[extra] != 0;
    if CountOf(m[extra]) == SizeOfOneTile {
      assert added[extra] & 0x10 != 0;
    }
    if HasFifthCopy(added) {
      var t :| TileMin <= t <= TileMax && added[t] & 0x10 != 0;
      assert t == extra;
    }
  }

  // ---------------------------------------------------------------------
  // Taking groups out (findWithExtra, splitWithMask)

  /** What a mask step gives: the tiles taken (empty when none) and what is left. */
  datatype Extraction = Extraction(extracted: TileMap, rest: TileMap)

  /** The tile map of one group. */
  function GroupMap(g: Group): TileMap
    requires ValidGroup(g)
  {
    match g
    case Pair(t) => EmptyMap()[t := 3]
    case Triple(t) => EmptyMap()[t := 7]
    case Run(t) => EmptyMap()[t := 1][t + 1 := 1][t + 2 := 1]
  }

  lemma GroupMapWellFormed(g: Group)
    requires ValidGroup(g)
    ensures WellFormed(GroupMap(g)) && GroupMap(g) != EmptyMap()
  {
    assert GroupMap(g)[g.tile] != 0;
  }

  /** A group's map counts exactly the group's tiles. */
  lemma GroupMapCounts(g: Group)
    requires ValidGroup(g)
    ensures Bag(CountsOf(GroupMap(g))) == multiset(TilesOf(g))
  {
    var m := GroupMap(g);
    forall x ensures Bag(CountsOf(m))[x] == multiset(TilesOf(g))[x] {
      GroupMapCount(g, x);
    }
  }

  lemma GroupMapCount(g: Group, x: int)
    requires ValidGroup(g)
    ensures Bag(CountsOf(GroupMap(g)))[x] == multiset(TilesOf(g))[x]
  {
    var c := CountsOf(GroupMap(g));
    BagCount(c, x);
    TilesOfCount(g, x);
    if 0 <= x < 10 {
      assert c[x] == CountOf(GroupMap(g)[x]);
    }
  }

  /**
   * The pair step of findWithExtra: tile i forms a pair when the two low
   * bits of its field are set; the rest is the field shifted right by two.
   */
  function StripPair(m: TileMap, i: int): (r: Extraction)
    requires WellFormed(m) && IsTile(i)
    ensures r.extracted != EmptyMap() <==> CountsOf(m)[i] >= 2
    ensures r.extracted != EmptyMap() ==> && r.extracted == GroupMap(Pair(i)) && WellFormed(r.rest)
                                           && CountsOf(r.rest) == Take(CountsOf(m), Pair(i))
  {
    var rest := m[i := m[i] >> 2];
    assert EmptyMap()[i := 3][i] != 0;
    Extraction(if m[i] & 3 == 3 then EmptyMap()[i := 3] else EmptyMap(), rest)
  }

  /** The two patterns splitWithMask looks for. */
  datatype Pattern = TriplePattern | SequencePattern

  /** The pattern's low bits are all set at field `pos` (and the next two for a run). */
  predicate Matches(m: TileMap, p: Pattern, pos: int)
    requires 0 <= pos
  {
    match p
    case TriplePattern => Field(m, pos) & 7 == 7
    case SequencePattern => Field(m, pos) & 1 == 1 && Field(m, pos + 1) & 1 == 1 && Field(m, pos + 2) & 1 == 1
  }

  /** The group the pattern stands for at `pos`. */
  function PatternGroup(p: Pattern, pos: int): Group {
    if p == TriplePattern then Triple(pos) else Run(pos)
  }

  /** A field with its fifth bit kept and the next `n` bits dropped from the bottom (pext then pdep). */
  function Drop(f: bv5, p: Pattern): bv5 {
    if p == TriplePattern then (f & 0x10) | ((f >> 3) & 1) else (f & 0x10) | (f >> 1)
  }

  /** The map once the pattern at `pos` has been taken out. */
  function Lowered(m: TileMap, p: Pattern, pos: int): TileMap
    requires 1 <= pos && Matches(m, p, pos)
  {
    if p == TriplePattern then m[pos := Drop(m[pos], p)]
    else m[pos := Drop(m[pos], p)][pos + 1 := Drop(m[pos + 1], p)][pos + 2 := Drop(m[pos + 2], p)]
  }

  /** The scan of splitWithMask over the fields pos..10. */
  function SplitFrom(m: TileMap, p: Pattern, pos: int): Extraction
    requires 1 <= pos
    decreases 11 - pos
  {
    if pos > 10 then Extraction(EmptyMap(), m)
    else if Matches(m, p, pos) then
      (assert ValidGroup(PatternGroup(p, pos)); Extraction(GroupMap(PatternGroup(p, pos)), Lowered(m, p, pos)))
    else SplitFrom(m, p, pos + 1)
  }

  /** The lowest group of the pattern the count table holds, from tile `from` on. */
  function LowestGroup(c: Counts, p: Pattern, from: int): Option<Group>
    requires TileMin <= from
  {
    if p == TriplePattern then
      match CountTilesSearch.FirstTriple(c, from)
      case None => None
      case Some(t) => Some(Triple(t))
    else
      match CountTilesSearch.FirstRun(c, from)
      case None => None
      case Some(t) => Some(Run(t))
  }

  /**
   * splitWithMask: the lowest tile where the pattern is held. The pattern's
   * tiles are extracted and taken out of the rest; with no match, nothing is
   * extracted and the map is unchanged.
   */
  function SplitWithMask(m: TileMap, p: Pattern): (r: Extraction)
    requires WellFormed(m)
    ensures LowestGroup(CountsOf(m), p, TileMin).None? ==> r == Extraction(EmptyMap(), m)
    ensures LowestGroup(CountsOf(m), p, TileMin).Some? ==>
      var g := LowestGroup(CountsOf(m), p, TileMin).value;
      && ValidGroup(g) && Holds(CountsOf(m), g)
      && r.extracted == GroupMap(g) && WellFormed(r.rest) && CountsOf(r.rest) == Take(CountsOf(m), g)
  {
    SplitFromSpec(m, p, TileMin);
    SplitFrom(m, p, TileMin)
  }

  lemma {:induction false} SplitFromSpec(m: TileMap, p: Pattern, pos: int)
    requires WellFormed(m) && 1 <= pos
    ensures LowestGroup(CountsOf(m), p, pos).None? ==> SplitFrom(m, p, pos) == Extraction(EmptyMap(), m)
    ensures LowestGroup(CountsOf(m), p, pos).Some? ==>
      var g := LowestGroup(CountsOf(m), p, pos).value;
      && ValidGroup(g) && Holds(CountsOf(m), g)
      && SplitFrom(m, p, pos).extracted == GroupMap(g) && WellFormed(SplitFrom(m, p, pos).rest)
      && CountsOf(SplitFrom(m, p, pos).rest) == Take(CountsOf(m), g)
    decreases 11 - pos
  {
    var c := CountsOf(m);
    if pos > 10 {
      assert LowestGroup(c, p, pos).None?;
    } else {
      MatchesCounts(m, p, pos);
      if Matches(m, p, pos) {
        assert LowestGroup(c, p, pos) == Some(PatternGroup(p, pos));
        LoweredCounts(m, p, pos);
      } else {
        SplitFromSpec(m, p, pos + 1);
        if pos <= TileMax {
          assert LowestGroup(c, p, pos) == LowestGroup(c, p, pos + 1);
        } else {
          assert LowestGroup(c, p, pos).None? && LowestGroup(c, p, pos + 1).None?;
        }
      }
    }
  }

  /** A match in the fields is a held group in the count table. */
  lemma MatchesCounts(m: TileMap, p: Pattern, pos: int)
    requires WellFormed(m) && 1 <= pos
    ensures p == TriplePattern ==> (Matches(m, p, pos) <==> pos <= TileMax && CountsOf(m)[pos] >= 3)
    ensures p == SequencePattern ==> (Matches(m, p, pos) <==> CountTilesSearch.RunAt(CountsOf(m), pos))
  {
    var c := CountsOf(m);
    if pos < 10 {
      assert c[pos] == CountOf(m[pos]);
    }
    if pos + 2 < 10 {
      assert c[pos + 1] == CountOf(m[pos + 1]) && c[pos + 2] == CountOf(m[pos + 2]);
    }
    if p == SequencePattern && Matches(m, p, pos) {
      assert Field(m, pos + 2) != 0;
    }
  }

  /** Dropping the pattern's bits takes exactly the group's tiles out of the count table. */
  lemma LoweredCounts(m: TileMap, p: Pattern, pos: int)
    requires WellFormed(m) && 1 <= pos && Matches(m, p, pos)
    ensures ValidGroup(PatternGroup(p, pos)) && Holds(CountsOf(m), PatternGroup(p, pos))
    ensures WellFormed(Lowered(m, p, pos))
    ensures CountsOf(Lowered(m, p, pos)) == Take(CountsOf(m), PatternGroup(p, pos))
  {
    MatchesCounts(m, p, pos);
    var c := CountsOf(m);
    var r := Lowered(m, p, pos);
    var g := PatternGroup(p, pos);
    forall t | 0 <= t < 10 ensures CountOf(r[t]) == Take(c, g)[t] && (t > 0 ==> IsCount(r[t])) {
      assert c[t] == CountOf(m[t]);
    }
  }

  // ---------------------------------------------------------------------
  // Opening a group (TileFullSet::Filter)

  /** One copy of `extra` taken out: its field shifted right, bit 4 kept. */
  function RemoveOne(m: TileMap, extra: int): TileMap
    requires IsTile(extra)
  {
    m[extra := (m[extra] & 0x10) | ((m[extra] >> 1) & 0xf)]
  }

  /** The map changes exactly when it holds `extra`, and then loses one copy of it. */
  lemma RemoveOneCounts(m: TileMap, extra: int)
    requires WellFormed(m) && IsTile(extra)
    ensures RemoveOne(m, extra) != m <==> CountsOf(m)[extra] > 0
    ensures WellFormed(RemoveOne(m, extra))
    ensures CountsOf(m)[extra] > 0 ==> CountsOf(RemoveOne(m, extra)) == CountsOf(m)[extra := CountsOf(m)[extra] - 1]
  {
    var r := RemoveOne(m, extra);
    assert CountsOf(m)[extra] == CountOf(m[extra]);
    if CountsOf(m)[extra] > 0 {
      assert r[extra] != m[extra];
    }
    if CountsOf(m)[extra] > 0 {
      forall t | 0 <= t < 10 ensures CountsOf(r)[t] == CountsOf(m)[extra := CountsOf(m)[extra] - 1][t] {
      }
    }
  }

  // ---------------------------------------------------------------------
  // Group keys (TileSet::GetKey)

  /** A group of the engine: its tile map and whether it is the open one. */
  datatype TileSet = TileSet(tileMap: TileMap, open: bool)

  /** The first nonzero field from `from` on. */
  function LowestFrom(m: TileMap, from: nat): (t: nat)
    requires from < 10 && exists u :: from <= u < 10 && m[u] != 0
    ensures from <= t < 10 && m[t] != 0 && forall u :: from <= u < t ==> m[u] == 0
    decreases 10 - from
  {
    if m[from] != 0 then from else LowestFrom(m, from + 1)
  }

  /** The lowest tile of a nonempty map (its lowest set bit, divided by five). */
  function LowestTile(m: TileMap): (t: nat)
    requires m != EmptyMap()
    ensures t < 10 && m[t] != 0 && forall u :: 0 <= u < t ==> m[u] == 0
  {
    assert exists u :: 0 <= u < 10 && m[u] != EmptyMap()[u];
    LowestFrom(m, 0)
  }

  /** The five bits the key reads at the lowest tile: its three low bits and bit 0 of the next two fields. */
  function KeyPattern(m: TileMap, low: nat): (p: nat)
    requires low < 10
    ensures p < 32
  {
    LowBits(m[low]) + (if Field(m, low + 1) & 1 == 1 then 8 else 0)
    + (if Field(m, low + 2) & 1 == 1 then 16 else 0)
  }

  /** The three low bits of a field, as a number. */
  function LowBits(f: bv5): (n: nat)
    ensures n < 8
  {
    (if f & 1 == 1 then 1 else 0) + (if f & 2 == 2 then 2 else 0) + (if f & 4 == 4 then 4 else 0)
  }

  /** The field whose three low bits are n. */
  function BitsField(n: nat): bv5 {
    (if n % 2 == 1 then 1 else 0) | (if (n / 2) % 2 == 1 then 2 else 0) | (if (n / 4) % 2 == 1 then 4 else 0)
  }

  /**
   * The 10-bit key of a group: the open bit, then the five pattern bits,
   * then the lowest set bit position divided by four.
   */
  function GroupKey(s: TileSet): (k: nat)
    requires s.tileMap != EmptyMap()
    ensures k < 1024 && (k >= OpenKey <==> s.open)
  {
    var low := LowestTile(s.tileMap);
    ((if s.open then 32 else 0) + KeyPattern(s.tileMap, low)) * 16 + (5 * low) / 4
  }

  /** The tile whose lowest bit position divided by four is q (0 for none). */
  function TileOfPosition(q: nat): int {
    if q == 1 then 1 else if q == 2 then 2 else if q == 3 then 3 else if q == 5 then 4
    else if q == 6 then 5 else if q == 7 then 6 else if q == 8 then 7 else if q == 10 then 8
    else if q == 11 then 9 else 0
  }

  lemma TilePosition(t: nat)
    requires TileMin <= t <= TileMax
    ensures (5 * t) / 4 < 16 && TileOfPosition((5 * t) / 4) == t
  {
  }

  /**
   * The group maps a key can stand for: at most three copies of the lowest
   * tile, at most one of each of the next two, nothing above.
   */
  predicate Compact(m: TileMap) {
    && m != EmptyMap()
    && var low := LowestTile(m);
       && 0 < low && (m[low] == 1 || m[low] == 3 || m[low] == 7)
       && Field(m, low + 1) <= 1 && Field(m, low + 2) <= 1
       && forall u :: low + 2 < u < 10 ==> m[u] == 0
  }

  /** The map of a key's lowest tile and pattern bits. */
  function PatternMap(low: int, pattern: nat): TileMap {
    var m := if 0 < low < 10 then EmptyMap()[low := BitsField(pattern % 8)] else EmptyMap();
    var m1 := if 0 <= low + 1 < 10 && (pattern / 8) % 2 == 1 then m[low + 1 := 1] else m;
    if 0 <= low + 2 < 10 && pattern / 16 == 1 then m1[low + 2 := 1] else m1
  }

  /** The group a key stands for. */
  function DecodeKey(k: nat): TileSet {
    TileSet(PatternMap(TileOfPosition(k % 16), (k / 16) % 32), k >= OpenKey)
  }

  /** Decoding a group's key gives the group back. */
  lemma KeyRoundTrip(s: TileSet)
    requires Compact(s.tileMap)
    ensures DecodeKey(GroupKey(s)) == s
  {
    var low := LowestTile(s.tileMap);
    DecodeParts(s.open, KeyPattern(s.tileMap, low), low);
    PatternRoundTrip(s.tileMap);
  }

  /** Decoding a key taken apart into its open bit, pattern and lowest tile. */
  lemma DecodeParts(open: bool, pattern: nat, low: nat)
    requires pattern < 32 && TileMin <= low <= TileMax
    ensures DecodeKey(((if open then 32 else 0) + pattern) * 16 + (5 * low) / 4) == TileSet(PatternMap(low, pattern), open)
  {
    var o := if open then 1 else 0;
    var q := (5 * low) / 4;
    assert (if open then 32 else 0) + pattern == o * 32 + pattern;
    TilePosition(low);
    KeyFields(o, pattern, q);
  }

  lemma KeyFields(o: nat, pattern: nat, q: nat)
    requires o <= 1 && pattern < 32 && q < 16
    ensures ((o * 32 + pattern) * 16 + q) % 16 == q
    ensures (((o * 32 + pattern) * 16 + q) / 16) % 32 == pattern
    ensures ((o * 32 + pattern) * 16 + q >= OpenKey) <==> o == 1
  {
  }

  /** A compact map is rebuilt from its lowest tile and its pattern bits. */
  lemma PatternRoundTrip(m: TileMap)
    requires Compact(m)
    ensures PatternMap(LowestTile(m), KeyPattern(m, LowestTile(m))) == m
  {
    var low := LowestTile(m);
    var p := KeyPattern(m, low);
    PatternBits(m, low);
    var d := PatternMap(low, p);
    forall u | 0 <= u < 10 ensures d[u] == m[u] {
      PatternMapAt(low, p, u);
      if u < low {
        assert m[u] == 0;
      } else if u == low + 1 || u == low + 2 {
        assert Field(m, u) == m[u];
      }
    }
  }

  /** The pattern's bits: the lowest field's three low bits, then bit 0 of the next two fields. */
  lemma PatternBits(m: TileMap, low: nat)
    requires 0 < low < 10 && (m[low] == 1 || m[low] == 3 || m[low] == 7)
    ensures BitsField(KeyPattern(m, low) % 8) == m[low]
    ensures (KeyPattern(m, low) / 8) % 2 == 1 <==> Field(m, low + 1) & 1 == 1
    ensures KeyPattern(m, low) / 16 == 1 <==> Field(m, low + 2) & 1 == 1
  {
  }

  /** The fields of a decoded pattern. */
  lemma PatternMapAt(low: int, p: nat, u: int)
    requires 0 < low < 10 && 0 <= u < 10
    ensures PatternMap(low, p)[u] ==
      if u == low then BitsField(p % 8)
      else if u == low + 1 && (p / 8) % 2 == 1 then 1
      else if u == low + 2 && p / 16 == 1 then 1
      else 0
  {
  }

  /** Different groups (or the same tiles open and closed) have different keys. */
  lemma KeyInjective(a: TileSet, b: TileSet)
    requires Compact(a.tileMap) && Compact(b.tileMap) && GroupKey(a) == GroupKey(b)
    ensures a == b
  {
    KeyRoundTrip(a);
    KeyRoundTrip(b);
  }

  /** Every closed group is compact, with its start tile lowest. */
  lemma ClosedCompact(g: Group)
    requires ValidGroup(g)
    ensures Compact(GroupMap(g)) && LowestTile(GroupMap(g)) == g.tile
  {
    var t := g.tile;
    match g
    case Pair(_) => CompactAt(EmptyMap()[t := 3], t);
    case Triple(_) => CompactAt(EmptyMap()[t := 7], t);
    case Run(_) => CompactAt(EmptyMap()[t := 1][t + 1 := 1][t + 2 := 1], t);
  }

  lemma LowestIs(m: TileMap, t: nat)
    requires t < 10 && m[t] != 0 && forall u :: 0 <= u < t ==> m[u] == 0
    ensures m != EmptyMap() && LowestTile(m) == t
  {
    assert m[t] != EmptyMap()[t];
  }

  /** A group with one of its tiles taken out is compact. */
  lemma OpenCompact(g: Group, x: int)
    requires ValidGroup(g) && IsTile(x) && IsMember(g, x)
    ensures Compact(RemoveOne(GroupMap(g), x))
  {
    var t := g.tile;
    match g
    case Pair(_) => OpenSingle(t, 3);
    case Triple(_) => OpenSingle(t, 7);
    case Run(_) =>
      if x == t {
        OpenRunLow(t);
      } else if x == t + 1 {
        OpenRunMid(t);
      } else {
        OpenRunHigh(t);
      }
  }

  lemma OpenSingle(t: int, f: bv5)
    requires IsTile(t) && (f == 3 || f == 7)
    ensures Compact(RemoveOne(EmptyMap()[t := f], t))
  {
    var r := RemoveOne(EmptyMap()[t := f], t);
    assert r == EmptyMap()[t := f >> 1];
    CompactAt(r, t);
  }

  lemma OpenRunLow(t: int)
    requires IsTile(t) && t + 2 <= TileMax
    ensures Compact(RemoveOne(EmptyMap()[t := 1][t + 1 := 1][t + 2 := 1], t))
  {
    var r := RemoveOne(EmptyMap()[t := 1][t + 1 := 1][t + 2 := 1], t);
    assert r == EmptyMap()[t + 1 := 1][t + 2 := 1];
    CompactAt(r, t + 1);
  }

  lemma OpenRunMid(t: int)
    requires IsTile(t) && t + 2 <= TileMax
    ensures Compact(RemoveOne(EmptyMap()[t := 1][t + 1 := 1][t + 2 := 1], t + 1))
  {
    var r := RemoveOne(EmptyMap()[t := 1][t + 1 := 1][t + 2 := 1], t + 1);
    assert r == EmptyMap()[t := 1][t + 2 := 1];
    CompactAt(r, t);
  }

  lemma OpenRunHigh(t: int)
    requires IsTile(t) && t + 2 <= TileMax
    ensures Compact(RemoveOne(EmptyMap()[t := 1][t + 1 := 1][t + 2 := 1], t + 2))
  {
    var r := RemoveOne(EmptyMap()[t := 1][t + 1 := 1][t + 2 := 1], t + 2);
    assert r == EmptyMap()[t := 1][t + 1 := 1];
    CompactAt(r, t);
  }

  /** The conditions of `Compact`, stated for a known lowest tile. */
  lemma CompactAt(m: TileMap, low: nat)
    requires 0 < low < 10 && (m[low] == 1 || m[low] == 3 || m[low] == 7)
    requires forall u :: 0 <= u < low ==> m[u] == 0
    requires Field(m, low + 1) <= 1 && Field(m, low + 2) <= 1
    requires forall u :: low + 2 < u < 10 ==> m[u] == 0
    ensures Compact(m) && LowestTile(m) == low
  {
    LowestIs(m, low);
  }
}
