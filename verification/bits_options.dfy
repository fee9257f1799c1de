/**
 * The command line of the bit-packed program: the first argument "-N<n>"
 * asks for n worker threads, a bare "-N" for as many as the hardware runs
 * at once, and anything else (or no argument) for a single thread.
 */
module BitsOptions {
  import opened Tiles
  import opened Text

  // ---------------------------------------------------------------------
  // std::string::find

  /** p occurs in s at position j. */
  predicate OccursAt(s: string, p: string, j: nat) {
    j + |p| <= |s| && s[j..j + |p|] == p
  }

  /** The first position from i on where p occurs in s, as std::string::find reports it. */
  function FindFrom(s: string, p: string, i: nat): (r: Option<nat>)
    ensures r.Some? ==> i <= r.value && OccursAt(s, p, r.value)
    ensures r.Some? ==> forall j :: i <= j < r.value ==> !OccursAt(s, p, j)
    ensures r.None? ==> forall j :: i <= j ==> !OccursAt(s, p, j)
    decreases |s| - i
  {
    if i + |p| > |s| then None
    else if s[i..i + |p|] == p then Some(i)
    else FindFrom(s, p, i + 1)
  }

  function Find(s: string, p: string): Option<nat> {
    FindFrom(s, p, 0)
  }

  /** The first occurrence is at position 0 exactly when s starts with p. */
  lemma FindAtStart(s: string, p: string)
    ensures Find(s, p) == Some(0) <==> (|p| <= |s| && s[..|p|] == p)
  {
    if |p| <= |s| && s[..|p|] == p {
      assert OccursAt(s, p, 0);
    }
  }

  // ---------------------------------------------------------------------
  // atoi

  /** The value of a string of decimal digits, most significant first. */
  function DigitsValue(ds: string): nat
    requires forall k :: 0 <= k < |ds| ==> IsDigit(ds[k])
  {
    if ds == [] then 0
    else DigitsValue(ds[..|ds| - 1]) * 10 + DigitValue(ds[|ds| - 1])
  }

  /**
   * atoi: white space, an optional sign, then as many digits as follow; a
   * string that does not start so reads as 0. The value is not bounded here.
   */
  function Atoi(s: string): int {
    var t := SkipSpaces(s);
    if t != [] && (t[0] == '-' || t[0] == '+') then
      var u := t[1..];
      var v: int := DigitsValue(u[..LeadingDigits(u)]);
      if t[0] == '-' then -v else v
    else
      DigitsValue(t[..LeadingDigits(t)])
  }

  /** The decimal text of a number, with no leading zero. */
  function Decimal(n: nat): (s: string)
    ensures |s| > 0 && forall k :: 0 <= k < |s| ==> IsDigit(s[k])
    ensures |s| > 1 ==> s[0] != '0'
  {
    if n < 10 then [DigitChar(n)] else Decimal(n / 10) + [DigitChar(n % 10)]
  }

  lemma {:induction false} DecimalValue(n: nat)
    ensures DigitsValue(Decimal(n)) == n
  {
    var s := Decimal(n);
    if n >= 10 {
      DecimalValue(n / 10);
      assert s[..|s| - 1] == Decimal(n / 10);
    } else {
      assert s[..|s| - 1] == [];
    }
  }

  /** A string starting with a digit reads as its leading digits. */
  lemma AtoiDigits(s: string)
    requires s != [] && IsDigit(s[0])
    ensures Atoi(s) == DigitsValue(s[..LeadingDigits(s)])
  {
    assert SkipSpaces(s) == s;
  }

  /** atoi reads back the decimal text of a number, whatever non-digit follows it. */
  lemma AtoiDecimal(n: nat, rest: string)
    requires rest == [] || !IsDigit(rest[0])
    ensures Atoi(Decimal(n) + rest) == n
  {
    var d := Decimal(n);
    var s := d + rest;
    assert s[0] == d[0];
    AtoiDigits(s);
    LeadingDigitsOf(d, rest);
    assert s[..|d|] == d;
    DecimalValue(n);
  }

  /** A minus sign in front negates the number read. */
  lemma AtoiNegative(n: nat)
    ensures Atoi(['-'] + Decimal(n)) == 0 - n as int
  {
    var d := Decimal(n);
    var s := ['-'] + d;
    assert SkipSpaces(s) == s;
    assert s[1..] == d;
    LeadingDigitsOf(d, []);
    assert d + [] == d;
    assert d[..|d|] == d;
    DecimalValue(n);
  }

  // ---------------------------------------------------------------------
  // The thread count

  const Opt: string := "-N"

  /**
   * GetSizeOfThreads: one thread on Cygwin or for an argument that does
   * not start with "-N"; the number after "-N" when it reads as positive;
   * otherwise the hardware's count.
   */
  function GetSizeOfThreads(cygwin: bool, arg: string, hardware: nat): (n: nat)
    ensures cygwin ==> n == 1
    ensures !cygwin && !(|Opt| <= |arg| && arg[..|Opt|] == Opt) ==> n == 1
    ensures !cygwin && |Opt| < |arg| && arg[..|Opt|] == Opt && Atoi(arg[|Opt|..]) > 0 ==> n == Atoi(arg[|Opt|..])
    ensures !cygwin && |Opt| <= |arg| && arg[..|Opt|] == Opt && !(|Opt| < |arg| && Atoi(arg[|Opt|..]) > 0)
            ==> n == hardware
  {
    FindAtStart(arg, Opt);
    if cygwin then 1
    else if Find(arg, Opt) != Some(0) then 1
    else if |arg| > |Opt| && Atoi(arg[|Opt|..]) > 0 then Atoi(arg[|Opt|..]) as nat
    else hardware
  }

  /** The forms of the argument and the count each asks for. */
  lemma SizeOfThreadsOptions(arg: string, n: nat, hardware: nat)
    ensures GetSizeOfThreads(false, Opt, hardware) == hardware
    ensures GetSizeOfThreads(false, Opt + Decimal(n), hardware) == if n > 0 then n else hardware
    ensures GetSizeOfThreads(false, Opt + ['-'] + Decimal(n), hardware) == hardware
    ensures !(|Opt| <= |arg| && arg[..|Opt|] == Opt) ==> GetSizeOfThreads(false, arg, hardware) == 1
  {
    FindAtStart(Opt, Opt);
    OptNumber(n, hardware);
    OptNegative(n, hardware);
    FindAtStart(arg, Opt);
  }

  /** "-N" and a number asks for that number, or the hardware's count for 0. */
  lemma OptNumber(n: nat, hardware: nat)
    ensures GetSizeOfThreads(false, Opt + Decimal(n), hardware) == if n > 0 then n else hardware
  {
    var a := Opt + Decimal(n);
    FindAtStart(a, Opt);
    assert a[..|Opt|] == Opt;
    assert a[|Opt|..] == Decimal(n) + [];
    AtoiDecimal(n, []);
  }

  /** "-N" and a negative number asks for the hardware's count. */
  lemma OptNegative(n: nat, hardware: nat)
    ensures GetSizeOfThreads(false, Opt + ['-'] + Decimal(n), hardware) == hardware
  {
    var b := Opt + ['-'] + Decimal(n);
    FindAtStart(b, Opt);
    assert b[..|Opt|] == Opt;
    assert b[|Opt|..] == ['-'] + Decimal(n);
    AtoiNegative(n);
  }
}
