/**
 * Text as the scripts and the command line see it: characters classed as
 * white space or decimal digits, the byte-wise order of strings, and the
 * sort, uniq and join of arrays of strings.
 */
module Text {

  predicate IsSpace(c: char) {
    c == ' ' || c == '\t' || c == '\n' || c == '\r' || c == '\U{000B}' || c == '\U{000C}'
  }

  predicate IsDigit(c: char) {
    '0' <= c <= '9'
  }

  function DigitValue(c: char): (d: nat)
    requires IsDigit(c)
    ensures d < 10
  {
    c as int - '0' as int
  }

  function DigitChar(d: nat): (c: char)
    requires d < 10
    ensures IsDigit(c) && DigitValue(c) == d
  {
    '0' + d as char
  }

  /** The number of leading decimal digits. */
  function LeadingDigits(s: string): (n: nat)
    ensures n <= |s|
    ensures forall k :: 0 <= k < n ==> IsDigit(s[k])
    ensures n < |s| ==> !IsDigit(s[n])
  {
    if s != [] && IsDigit(s[0]) then 1 + LeadingDigits(s[1..]) else 0
  }

  /** The digits of d + rest end where d ends when rest does not start with a digit. */
  lemma {:induction false} LeadingDigitsOf(d: string, rest: string)
    requires forall k :: 0 <= k < |d| ==> IsDigit(d[k])
    requires rest == [] || !IsDigit(rest[0])
    ensures LeadingDigits(d + rest) == |d|
  {
    if d != [] {
      LeadingDigitsOf(d[1..], rest);
      assert (d + rest)[1..] == d[1..] + rest;
    } else {
      assert d + rest == rest;
    }
  }

  /** The text after the leading white space. */
  function SkipSpaces(s: string): (t: string)
    ensures |t| <= |s| && t == s[|s| - |t|..]
    ensures t != [] ==> !IsSpace(t[0])
  {
    if s != [] && IsSpace(s[0]) then SkipSpaces(s[1..]) else s
  }

  // ---------------------------------------------------------------------
  // The order of strings

  /** Byte-wise order: the first differing character decides, and a proper prefix comes first. */
  predicate StrLess(a: string, b: string) {
    if a == [] then b != []
    else if b == [] then false
    else if a[0] != b[0] then a[0] < b[0]
    else StrLess(a[1..], b[1..])
  }

  lemma {:induction false} StrLessIrreflexive(a: string)
    ensures !StrLess(a, a)
  {
    if a != [] {
      StrLessIrreflexive(a[1..]);
    }
  }

  lemma {:induction false} StrLessTransitive(a: string, b: string, c: string)
    requires StrLess(a, b) && StrLess(b, c)
    ensures StrLess(a, c)
  {
    if a != [] && a[0] == b[0] && b[0] == c[0] {
      StrLessTransitive(a[1..], b[1..], c[1..]);
    }
  }

  lemma {:induction false} StrLessTotal(a: string, b: string)
    ensures a == b || StrLess(a, b) || StrLess(b, a)
  {
    if a != [] && b != [] && a[0] == b[0] {
      StrLessTotal(a[1..], b[1..]);
      if a[1..] == b[1..] {
        assert a == [a[0]] + a[1..] && b == [b[0]] + b[1..];
      }
    }
  }

  /** Non-decreasing in the byte-wise order. */
  ghost predicate StrSorted(s: seq<string>) {
    forall i, j :: 0 <= i < j < |s| ==> !StrLess(s[j], s[i])
  }

  /** Increasing in the byte-wise order, so with no repeated string. */
  ghost predicate StrIncreasing(s: seq<string>) {
    forall i, j :: 0 <= i < j < |s| ==> StrLess(s[i], s[j])
  }

  // ---------------------------------------------------------------------
  // Array#sort

  /** x put before the first element it is less than. */
  function Insert(x: string, s: seq<string>): (r: seq<string>)
    ensures multiset(r) == multiset(s) + multiset{x}
    ensures StrSorted(s) ==> StrSorted(r)
  {
    if s == [] then [x]
    else if StrLess(s[0], x) then
      var t := Insert(x, s[1..]);
      assert s == [s[0]] + s[1..];
      InsertFront(x, s, t);
      [s[0]] + t
    else
      InsertHere(x, s);
      [x] + s
  }

  lemma InsertHere(x: string, s: seq<string>)
    requires s != [] && !StrLess(s[0], x)
    ensures StrSorted(s) ==> StrSorted([x] + s)
  {
    if StrSorted(s) {
      var r := [x] + s;
      forall i, j | 0 <= i < j < |r| ensures !StrLess(r[j], r[i]) {
        if i == 0 && j > 1 {
          NotBelowTransitive(x, s[0], s[j - 1]);
        }
      }
    }
  }

  lemma InsertFront(x: string, s: seq<string>, t: seq<string>)
    requires s != [] && StrLess(s[0], x)
    requires multiset(t) == multiset(s[1..]) + multiset{x}
    requires StrSorted(s[1..]) ==> StrSorted(t)
    ensures StrSorted(s) ==> StrSorted([s[0]] + t)
  {
    if StrSorted(s) {
      SortedTail(s);
      var r := [s[0]] + t;
      forall j | 0 < j < |r| ensures !StrLess(r[j], s[0]) {
        assert r[j] in multiset(t);
        if r[j] != x {
          assert r[j] in multiset(s[1..]);
          var k :| 0 <= k < |s[1..]| && s[1..][k] == r[j];
          assert s[k + 1] == r[j];
        } else {
          StrLessAsymmetric(s[0], x);
        }
      }
    }
  }

  lemma SortedTail(s: seq<string>)
    requires s != [] && StrSorted(s)
    ensures StrSorted(s[1..])
  {
    forall i, j | 0 <= i < j < |s| - 1 ensures !StrLess(s[1..][j], s[1..][i]) {
      assert s[1..][j] == s[j + 1] && s[1..][i] == s[i + 1];
    }
  }

  lemma StrLessAsymmetric(a: string, b: string)
    ensures StrLess(a, b) ==> !StrLess(b, a)
  {
    if StrLess(a, b) && StrLess(b, a) {
      StrLessTransitive(a, b, a);
      StrLessIrreflexive(a);
    }
  }

  /** Two strings neither of which is below the other are equal. */
  lemma StrAntisymmetric(a: string, b: string)
    requires !StrLess(a, b) && !StrLess(b, a)
    ensures a == b
  {
    StrLessTotal(a, b);
  }

  /** x not above y and y not above z: x not above z. */
  lemma NotBelowTransitive(x: string, y: string, z: string)
    requires !StrLess(y, x) && !StrLess(z, y)
    ensures !StrLess(z, x)
  {
    StrLessTotal(x, y);
    StrLessTotal(y, z);
    if x != y && y != z {
      StrLessTransitive(x, y, z);
      StrLessAsymmetric(x, z);
    }
  }

  /** The strings in byte-wise order. */
  function SortStrings(s: seq<string>): (r: seq<string>)
    ensures multiset(r) == multiset(s) && StrSorted(r)
  {
    if s == [] then []
    else
      assert s == s[..|s| - 1] + [s[|s| - 1]];
      Insert(s[|s| - 1], SortStrings(s[..|s| - 1]))
  }

  /**
   * A sorted array is determined by its elements: whichever way the strings
   * are sorted, the result is the same.
   */
  lemma {:induction false} SortedUnique(a: seq<string>, b: seq<string>)
    requires StrSorted(a) && StrSorted(b) && multiset(a) == multiset(b)
    ensures a == b
  {
    if a != [] {
      assert b != [] by {
        assert a[0] in multiset(a);
      }
      LeastFirst(a, b);
      MultisetTail(a);
      MultisetTail(b);
      SortedTail(a);
      SortedTail(b);
      SortedUnique(a[1..], b[1..]);
      assert a == [a[0]] + a[1..] && b == [b[0]] + b[1..];
    } else {
      assert |b| == |multiset(b)|;
    }
  }

  /** Two sorted arrays of the same strings start with the same string. */
  lemma LeastFirst(a: seq<string>, b: seq<string>)
    requires a != [] && b != [] && StrSorted(a) && StrSorted(b) && multiset(a) == multiset(b)
    ensures a[0] == b[0]
  {
    assert a[0] in multiset(b);
    var j :| 0 <= j < |b| && b[j] == a[0];
    assert b[0] in multiset(a);
    var i :| 0 <= i < |a| && a[i] == b[0];
    StrLessIrreflexive(a[0]);
    StrLessIrreflexive(b[0]);
    assert !StrLess(b[j], b[0]) && !StrLess(a[i], a[0]);
    StrAntisymmetric(a[0], b[0]);
  }

  lemma MultisetTail<T>(s: seq<T>)
    requires s != []
    ensures multiset(s[1..]) == multiset(s) - multiset{s[0]}
  {
    assert s == [s[0]] + s[1..];
    assert multiset(s) == multiset{s[0]} + multiset(s[1..]);
  }

  /** Dropping the element at k takes one copy of it out of the multiset. */
  lemma RemoveOne<T>(s: seq<T>, k: nat)
    requires k < |s|
    ensures multiset(s[..k] + s[k + 1..]) == multiset(s) - multiset{s[k]}
  {
    assert s == s[..k] + [s[k]] + s[k + 1..];
  }

  // ---------------------------------------------------------------------
  // Array#uniq and Array#join

  /** The strings with each repeat after its first occurrence dropped. */
  function Uniq(s: seq<string>): (r: seq<string>)
    ensures forall x :: x in r <==> x in s
    ensures |r| <= |s|
  {
    if s == [] then []
    else
      var front := s[..|s| - 1];
      var x := s[|s| - 1];
      assert s == front + [x];
      if x in front then Uniq(front) else Uniq(front) + [x]
  }

  /** Dropping the repeats of a sorted array leaves it increasing. */
  lemma {:induction false} UniqIncreasing(s: seq<string>)
    requires StrSorted(s)
    ensures StrIncreasing(Uniq(s))
  {
    if s != [] {
      var front := s[..|s| - 1];
      var x := s[|s| - 1];
      UniqIncreasing(front);
      if x !in front {
        var r := Uniq(s);
        forall i | 0 <= i < |r| - 1 ensures StrLess(r[i], x) {
          assert r[i] in front;
          var k :| 0 <= k < |front| && front[k] == r[i];
          assert !StrLess(x, s[k]);
          StrLessTotal(x, r[i]);
        }
      }
    }
  }

  /** The strings with sep between each two. */
  function Join(ss: seq<string>, sep: string): string {
    if ss == [] then ""
    else if |ss| == 1 then ss[0]
    else Join(ss[..|ss| - 1], sep) + sep + ss[|ss| - 1]
  }

  // ---------------------------------------------------------------------
  // Array#concat

  /** The sequences one after another. */
  function Concat<T>(ss: seq<seq<T>>): seq<T> {
    if ss == [] then [] else Concat(ss[..|ss| - 1]) + ss[|ss| - 1]
  }

  /** Whatever is in the concatenation is in one of the sequences. */
  lemma {:induction false} ConcatFrom<T>(ss: seq<seq<T>>, x: T) returns (k: nat)
    requires x in Concat(ss)
    ensures k < |ss| && x in ss[k]
  {
    var n := |ss| - 1;
    if x in Concat(ss[..n]) {
      k := ConcatFrom(ss[..n], x);
      assert ss[..n][k] == ss[k];
    } else {
      k := n;
    }
  }

  /** Whatever is in one of the sequences is in the concatenation. */
  lemma {:induction false} ConcatHas<T>(ss: seq<seq<T>>, k: nat, x: T)
    requires k < |ss| && x in ss[k]
    ensures x in Concat(ss)
  {
    var n := |ss| - 1;
    if k < n {
      assert ss[..n][k] == ss[k];
      ConcatHas(ss[..n], k, x);
    }
  }

  /** One more sequence at the end of a prefix. */
  lemma ConcatStep<T>(ss: seq<seq<T>>, i: nat)
    requires i < |ss|
    ensures Concat(ss[..i + 1]) == Concat(ss[..i]) + ss[i]
  {
    assert ss[..i + 1][..i] == ss[..i];
  }

  /** One more sequence at the end. */
  lemma ConcatLast<T>(ss: seq<seq<T>>, x: seq<T>)
    ensures Concat(ss + [x]) == Concat(ss) + x
  {
    assert (ss + [x])[..|ss|] == ss;
  }

  /** The concatenation of two lists of sequences. */
  lemma {:induction false} ConcatAppend<T>(a: seq<seq<T>>, b: seq<seq<T>>)
    ensures Concat(a + b) == Concat(a) + Concat(b)
    decreases |b|
  {
    if b == [] {
      assert a + b == a;
    } else {
      var front, last := b[..|b| - 1], b[|b| - 1];
      assert (a + b)[..|a + b| - 1] == a + front;
      ConcatAppend(a, front);
      calc {
        Concat(a + b);
        Concat(a + front) + last;
        (Concat(a) + Concat(front)) + last;
        Concat(a) + (Concat(front) + last);
      }
    }
  }

  /** One more sequence at the front. */
  lemma ConcatFront<T>(x: seq<T>, ss: seq<seq<T>>)
    ensures Concat([x] + ss) == x + Concat(ss)
  {
    ConcatAppend([x], ss);
    assert [x][..0] == [];
  }
}
