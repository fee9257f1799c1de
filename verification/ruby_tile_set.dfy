/**
 * The hand as the Ruby solver reads it (countTiles.rb): the first word of
 * the input line, one tile per character, sorted, with every value outside
 * 1..9 dropped; thirteen tiles must remain. And the check for five copies
 * of one tile in a row.
 */
module RubyTileSet {
  import opened Tiles
  import opened Text
  import opened RubySearch

  // ---------------------------------------------------------------------
  // Array#sort on integers

  /** x put before the first element that is not below it. */
  function InsertTile(x: int, s: seq<int>): (r: seq<int>)
    ensures multiset(r) == multiset(s) + multiset{x}
    ensures Sorted(s) ==> Sorted(r)
  {
    if s == [] then [x]
    else if s[0] < x then
      var t := InsertTile(x, s[1..]);
      assert s == [s[0]] + s[1..];
      InsertAfter(x, s, t);
      [s[0]] + t
    else
      [x] + s
  }

  lemma InsertAfter(x: int, s: seq<int>, t: seq<int>)
    requires s != [] && s[0] < x
    requires multiset(t) == multiset(s[1..]) + multiset{x}
    requires Sorted(s[1..]) ==> Sorted(t)
    ensures Sorted(s) ==> Sorted([s[0]] + t)
  {
    if Sorted(s) {
      forall j | 0 <= j < |t| ensures s[0] <= t[j] {
        assert t[j] in multiset(t);
        if t[j] != x {
          assert t[j] in multiset(s[1..]);
          var k :| 0 <= k < |s[1..]| && s[1..][k] == t[j];
          assert s[k + 1] == t[j];
        }
      }
    }
  }

  /** The integers in ascending order. */
  function SortTiles(s: seq<int>): (r: seq<int>)
    ensures multiset(r) == multiset(s) && Sorted(r)
  {
    if s == [] then []
    else
      assert s == s[..|s| - 1] + [s[|s| - 1]];
      InsertTile(s[|s| - 1], SortTiles(s[..|s| - 1]))
  }

  /** Two sorted sequences of the same integers are the same sequence. */
  lemma {:induction false} SortedEqual(a: seq<int>, b: seq<int>)
    requires Sorted(a) && Sorted(b) && multiset(a) == multiset(b)
    ensures a == b
  {
    if a != [] {
      assert b != [] by {
        assert a[0] in multiset(a);
      }
      SameLeast(a, b);
      MultisetTail(a);
      MultisetTail(b);
      SortedEqual(a[1..], b[1..]);
      assert a == [a[0]] + a[1..] && b == [b[0]] + b[1..];
    } else {
      assert |b| == |multiset(b)|;
    }
  }

  /** Two sorted nonempty sequences of the same integers start with the same one. */
  lemma SameLeast(a: seq<int>, b: seq<int>)
    requires a != [] && b != [] && Sorted(a) && Sorted(b) && multiset(a) == multiset(b)
    ensures a[0] == b[0]
  {
    assert a[0] in multiset(b);
    var j :| 0 <= j < |b| && b[j] == a[0];
    assert b[0] in multiset(a);
    var i :| 0 <= i < |a| && a[i] == b[0];
  }

  // ---------------------------------------------------------------------
  // TileSet.new

  /** The tile values among s, as a multiset. */
  ghost function TileBag(s: seq<int>): multiset<int> {
    if s == [] then multiset{}
    else TileBag(s[..|s| - 1]) + (if IsTile(s[|s| - 1]) then multiset{s[|s| - 1]} else multiset{})
  }

  /** Array#reject of the values outside 1..9. */
  function Reject(s: seq<int>): (r: seq<int>)
    ensures multiset(r) == TileBag(s)
    ensures forall i :: 0 <= i < |r| ==> IsTile(r[i])
    ensures Sorted(s) ==> Sorted(r)
  {
    if s == [] then []
    else
      var front := Reject(s[..|s| - 1]);
      var x := s[|s| - 1];
      if IsTile(x) then
        assert Sorted(s) ==> Sorted(front + [x]) by {
          if Sorted(s) {
            forall j | 0 <= j < |front| ensures front[j] <= x {
              assert front[j] in multiset(front);
              assert front[j] in s[..|s| - 1] by {
                TileBagWithin(s[..|s| - 1], front[j]);
              }
            }
          }
        }
        front + [x]
      else front
  }

  lemma {:induction false} TileBagWithin(s: seq<int>, v: int)
    requires v in TileBag(s)
    ensures v in s
  {
    if s != [] && v !in (if IsTile(s[|s| - 1]) then multiset{s[|s| - 1]} else multiset{}) {
      TileBagWithin(s[..|s| - 1], v);
    }
  }

  /** String#to_i of a one-character string: its digit, or 0 for anything else. */
  function ToI(c: char): (n: nat)
    ensures n <= 9
  {
    if IsDigit(c) then DigitValue(c) else 0
  }

  /** The number of leading characters that are not white space. */
  function WordLength(s: string): (n: nat)
    ensures n <= |s|
    ensures forall k :: 0 <= k < n ==> !IsSpace(s[k])
    ensures n < |s| ==> IsSpace(s[n])
  {
    if s != [] && !IsSpace(s[0]) then 1 + WordLength(s[1..]) else 0
  }

  datatype Error = NoMethodError | InvalidInputError

  datatype Result<T> = Ok(value: T) | Err(error: Error)

  /** String#to_i of each character of a word. */
  function Values(w: string): (r: seq<int>)
    ensures |r| == |w| && forall i :: 0 <= i < |w| ==> r[i] == ToI(w[i])
  {
    seq(|w|, i requires 0 <= i < |w| => ToI(w[i]))
  }

  /**
   * The first word of the line: the characters up to the first white
   * space after the leading white space, which is what the match of
   * /^(\S+)/ captures of the stripped line; None when there is none.
   */
  function FirstWord(line: string): (r: Option<string>)
    ensures r.Some? ==> r.value != [] && forall k :: 0 <= k < |r.value| ==> !IsSpace(r.value[k])
  {
    var t := SkipSpaces(line);
    if t == [] then None else Some(t[..WordLength(t)])
  }

  /**
   * TileSet.new: the first word of the line is the hand; a line with no
   * word makes the match fail, a NoMethodError on nil.
   */
  function NewTileSet(line: string): (r: Result<seq<int>>)
    ensures r.Ok? ==> TileList(r.value) && |r.value| == SizeOfCompleteTiles - 1
  {
    match FirstWord(line)
    case None => Err(NoMethodError)
    case Some(w) => FromWord(w)
  }

  /**
   * The hand of a word: each character read with to_i, the values sorted
   * and those outside 1..9 dropped; other than thirteen tiles is an
   * InvalidInputError.
   */
  function FromWord(w: string): (r: Result<seq<int>>)
    ensures r.Ok? ==> TileList(r.value) && |r.value| == SizeOfCompleteTiles - 1
    ensures r.Err? ==> r.error == InvalidInputError
  {
    var tiles := Reject(SortTiles(Values(w)));
    if |tiles| != SizeOfCompleteTiles - 1 then Err(InvalidInputError) else Ok(tiles)
  }

  /** The tiles a word stands for: its characters from '1' to '9'. */
  ghost function WordBag(w: string): multiset<int> {
    if w == [] then multiset{}
    else WordBag(w[..|w| - 1]) + (if '1' <= w[|w| - 1] <= '9' then multiset{DigitValue(w[|w| - 1])} else multiset{})
  }

  lemma {:induction false} WordValues(w: string)
    ensures TileBag(Values(w)) == WordBag(w)
  {
    if w != [] {
      var f := w[..|w| - 1];
      assert Values(w)[..|w| - 1] == Values(f);
      WordValues(f);
    }
  }

  /** Tiles of the same values, in any order, have the same tiles among them. */
  lemma {:induction false} TileBagOfPermutation(a: seq<int>, b: seq<int>)
    requires multiset(a) == multiset(b)
    ensures TileBag(a) == TileBag(b)
  {
    TileBagCount(a);
    TileBagCount(b);
    forall v ensures TileBag(a)[v] == TileBag(b)[v] {
    }
  }

  lemma {:induction false} TileBagCount(s: seq<int>)
    ensures forall v :: TileBag(s)[v] == if IsTile(v) then multiset(s)[v] else 0
  {
    if s != [] {
      TileBagCount(s[..|s| - 1]);
      assert s == s[..|s| - 1] + [s[|s| - 1]];
    }
  }

  /** A word reads as the sorted tiles '1'..'9' among its characters, when there are thirteen. */
  lemma FromWordBag(w: string)
    ensures FromWord(w).Ok? <==> |WordBag(w)| == SizeOfCompleteTiles - 1
    ensures FromWord(w).Ok? ==> multiset(FromWord(w).value) == WordBag(w)
  {
    WordValues(w);
    TileBagOfPermutation(SortTiles(Values(w)), Values(w));
  }

  /**
   * A line made of white space, a word and then nothing or white space
   * has that word first, whatever follows it.
   */
  lemma ParseWord(pre: string, w: string, post: string)
    requires forall k :: 0 <= k < |pre| ==> IsSpace(pre[k])
    requires w != [] && forall k :: 0 <= k < |w| ==> !IsSpace(w[k])
    requires post == [] || IsSpace(post[0])
    ensures FirstWord(pre + w + post) == Some(w)
  {
    SkipPrefix(pre, w + post);
    assert pre + w + post == pre + (w + post);
    WordOf(w, post);
    assert (w + post)[..|w|] == w;
  }

  lemma {:induction false} SkipPrefix(pre: string, rest: string)
    requires forall k :: 0 <= k < |pre| ==> IsSpace(pre[k])
    requires rest == [] || !IsSpace(rest[0])
    ensures SkipSpaces(pre + rest) == rest
  {
    if pre != [] {
      assert (pre + rest)[1..] == pre[1..] + rest;
      SkipPrefix(pre[1..], rest);
    } else {
      assert pre + rest == rest;
    }
  }

  lemma {:induction false} WordOf(w: string, post: string)
    requires forall k :: 0 <= k < |w| ==> !IsSpace(w[k])
    requires post == [] || IsSpace(post[0])
    ensures WordLength(w + post) == |w|
  {
    if w != [] {
      assert (w + post)[1..] == w[1..] + post;
      WordOf(w[1..], post);
    } else {
      assert w + post == post;
    }
  }

  /** A line of nothing but white space has no hand. */
  lemma ParseBlank(line: string)
    requires forall k :: 0 <= k < |line| ==> IsSpace(line[k])
    ensures FirstWord(line) == None && NewTileSet(line) == Err(NoMethodError)
  {
    SkipPrefix(line, []);
    assert line + [] == line;
  }

  /** A word holds no more tiles than characters. */
  lemma {:induction false} WordBagSize(w: string)
    ensures |WordBag(w)| <= |w|
  {
    if w != [] {
      WordBagSize(w[..|w| - 1]);
    }
  }

  lemma {:induction false} WordBagAppend(a: string, b: string)
    ensures WordBag(a + b) == WordBag(a) + WordBag(b)
  {
    if b != [] {
      var b' := b[..|b| - 1];
      assert (a + b)[..|a + b| - 1] == a + b';
      WordBagAppend(a, b');
    } else {
      assert a + b == a;
    }
  }

  /** A line that is one word is read as that word. */
  lemma ParseLone(w: string)
    requires w != [] && forall k :: 0 <= k < |w| ==> !IsSpace(w[k])
    ensures FirstWord(w) == Some(w)
  {
    ParseWord([], w, []);
    assert [] + w + [] == w;
  }

  /** Twelve tiles are too few. */
  lemma ParseTwelve()
    ensures NewTileSet("111222458889") == Err(InvalidInputError)
  {
    var a := "111222458889";
    ParseLone(a);
    FromWordBag(a);
    WordBagSize(a);
  }

  /** A character other than a digit does not count as a tile. */
  lemma ParseLetter()
    ensures NewTileSet("111222458889" + "x") == Err(InvalidInputError)
  {
    var a := "111222458889";
    var x := "x";
    ParseLone(a + x);
    FromWordBag(a + x);
    WordBagAppend(a, x);
    WordBagSize(a);
    WordBagNone(x);
  }

  /** Nor does the digit 0. */
  lemma ParseZeros()
    ensures NewTileSet("000" + "1112223334") == Err(InvalidInputError)
  {
    var z := "000";
    WordBagNone(z);
    var d := "1112223334";
    ParseLone(z + d);
    FromWordBag(z + d);
    WordBagAppend(z, d);
    WordBagSize(d);
  }

  lemma {:induction false} WordBagNone(w: string)
    requires forall k :: 0 <= k < |w| ==> !('1' <= w[k] <= '9')
    ensures WordBag(w) == multiset{}
  {
    if w != [] {
      WordBagNone(w[..|w| - 1]);
    }
  }

  // ---------------------------------------------------------------------
  // TooManyTilesForKind

  /** The tiles written one digit each, as map(&:to_s).join writes them. */
  function DigitsOf(tiles: seq<int>): (s: string)
    requires forall i :: 0 <= i < |tiles| ==> 0 <= tiles[i] <= 9
    ensures |s| == |tiles| && forall i :: 0 <= i < |tiles| ==> IsDigit(s[i]) && DigitValue(s[i]) == tiles[i]
  {
    seq(|tiles|, i requires 0 <= i < |tiles| => DigitChar(tiles[i]))
  }

  /** A match of /(\d)\1{4,}/ starts at i: a digit and at least four more copies of it. */
  predicate RepeatAt(s: string, i: nat) {
    i + SizeOfOneTile + 1 <= |s| && IsDigit(s[i]) && forall k :: i < k <= i + SizeOfOneTile ==> s[k] == s[i]
  }

  /** The leftmost match from position i on. */
  function MatchFrom(s: string, i: nat): (r: Option<nat>)
    ensures r.Some? ==> i <= r.value && RepeatAt(s, r.value)
    ensures r.Some? ==> forall j :: i <= j < r.value ==> !RepeatAt(s, j)
    ensures r.None? ==> forall j :: i <= j ==> !RepeatAt(s, j)
    decreases |s| - i
  {
    if i + SizeOfOneTile + 1 > |s| then None
    else if RepeatAt(s, i) then Some(i)
    else MatchFrom(s, i + 1)
  }

  /** TooManyTilesForKind#value: the joined digits hold five equal digits in a row. */
  function TooManyTilesForKind(tiles: seq<int>): bool
    requires forall i :: 0 <= i < |tiles| ==> 0 <= tiles[i] <= 9
  {
    MatchFrom(DigitsOf(tiles), 0).Some?
  }

  /** In sorted tiles the check fires exactly when some tile is held more than four times. */
  lemma TooManyIffCount(tiles: seq<int>)
    requires TileList(tiles)
    ensures TooManyTilesForKind(tiles) <==> exists v :: IsTile(v) && multiset(tiles)[v] > SizeOfOneTile
  {
    var m := MatchFrom(DigitsOf(tiles), 0);
    if m.Some? {
      MatchCount(tiles, m.value);
    }
    if v :| IsTile(v) && multiset(tiles)[v] > SizeOfOneTile {
      CountMatch(tiles, v);
    }
  }

  /** Five equal digits in a row are five copies of one tile. */
  lemma MatchCount(tiles: seq<int>, i: nat)
    requires TileList(tiles) && RepeatAt(DigitsOf(tiles), i)
    ensures IsTile(tiles[i]) && multiset(tiles)[tiles[i]] > SizeOfOneTile
  {
    var s := DigitsOf(tiles);
    forall k | 0 <= k < SizeOfOneTile + 1 ensures tiles[i..][k] == tiles[i..][0] {
      assert s[i + k] == s[i];
    }
    FlushCount(tiles[i..], SizeOfOneTile + 1);
    assert tiles == tiles[..i] + tiles[i..];
  }

  /** Five copies of one tile in sorted tiles sit in a row, from its first index on. */
  lemma CountMatch(tiles: seq<int>, v: int)
    requires TileList(tiles) && multiset(tiles)[v] > SizeOfOneTile
    ensures MatchFrom(DigitsOf(tiles), 0).Some?
  {
    var p := FirstRun(tiles, v);
    var s := DigitsOf(tiles);
    assert RepeatAt(s, p);
  }

  lemma FirstRun(tiles: seq<int>, v: int) returns (p: nat)
    requires TileList(tiles) && multiset(tiles)[v] > SizeOfOneTile
    ensures p + SizeOfOneTile + 1 <= |tiles| && forall k :: p <= k <= p + SizeOfOneTile ==> tiles[k] == v
  {
    assert v in multiset(tiles);
    p := Index(tiles, v).value;
    var rest := tiles[p..];
    RestCount(tiles, v, p);
    FlushCount(rest, SizeOfOneTile + 1);
    forall k | p <= k <= p + SizeOfOneTile ensures tiles[k] == v {
      assert rest[k - p] == rest[0];
    }
  }

  lemma RestCount(tiles: seq<int>, v: int, p: nat)
    requires p <= |tiles| && forall j :: 0 <= j < p ==> tiles[j] != v
    ensures multiset(tiles[p..])[v] == multiset(tiles)[v]
  {
    assert tiles == tiles[..p] + tiles[p..];
    assert v !in tiles[..p];
  }

  /** The script's own check: "1234", n fives, "6789" is flagged exactly when n is five or more. */
  lemma FivesFlagged(n: nat)
    ensures MatchFrom("1234" + Fives(n) + "6789", 0).Some? <==> n > SizeOfOneTile
  {
    var s := "1234" + Fives(n) + "6789";
    if n > SizeOfOneTile {
      assert RepeatAt(s, 4);
    } else {
      forall j | 0 <= j && j + SizeOfOneTile + 1 <= |s| ensures !RepeatAt(s, j) {
        if j < 4 {
          assert s[j + 1] != s[j];
        } else {
          assert s[j + SizeOfOneTile] != s[j];
        }
      }
    }
  }

  /** n copies of the digit 5. */
  function Fives(n: nat): (s: string)
    ensures |s| == n && forall k :: 0 <= k < n ==> s[k] == '5'
  {
    if n == 0 then "" else "5" + Fives(n - 1)
  }
}
