/**
 * The part of JavaScript's `parseInt` the product handlers rely on (radix 10):
 * an optional sign, then the longest run of decimal digits; no digit at all is NaN.
 */
module JsNumbers {
  import opened Wrappers

  predicate IsDigit(c: char) { '0' <= c <= '9' }

  ghost predicate AllDigits(s: string) { forall i :: 0 <= i < |s| ==> IsDigit(s[i]) }

  function DigitValue(c: char): (d: nat)
    requires IsDigit(c)
    ensures d < 10
  {
    c as int - '0' as int
  }

  function DigitChar(d: nat): (c: char)
    requires d < 10
    ensures IsDigit(c) && DigitValue(c) == d
  {
    (d + '0' as int) as char
  }

  /** Length of the run of digits `s` starts with. */
  function DigitRun(s: string): (n: nat)
    ensures n <= |s| && AllDigits(s[..n])
    ensures n < |s| ==> !IsDigit(s[n])
  {
    if s != [] && IsDigit(s[0]) then 1 + DigitRun(s[1..]) else 0
  }

  /** The value of a string of decimal digits, most significant first. */
  function DigitsValue(d: string): nat
    requires AllDigits(d)
  {
    if d == [] then 0 else 10 * DigitsValue(d[..|d| - 1]) + DigitValue(d[|d| - 1])
  }

  /** The run of digits `s` starts with, as a number; `None` when there is none. */
  function LeadingDigits(s: string): (r: Option<nat>)
    ensures r.None? <==> (s == [] || !IsDigit(s[0]))
  {
    var n := DigitRun(s);
    if n == 0 then None else Some(DigitsValue(s[..n]))
  }

  /** `parseInt(s)`; `None` stands for NaN. */
  function ParseInt(s: string): (r: Option<int>)
    ensures var body := if s != [] && (s[0] == '-' || s[0] == '+') then s[1..] else s;
            r.None? <==> (body == [] || !IsDigit(body[0]))
  {
    var negative := s != [] && s[0] == '-';
    var body := if s != [] && (s[0] == '-' || s[0] == '+') then s[1..] else s;
    match LeadingDigits(body)
    case None => None
    case Some(v) => Some(if negative then -(v as int) else v as int)
  }

  /** `String(n)` for a non-negative integer. */
  function NatDecimal(n: nat): (s: string)
    ensures s != [] && AllDigits(s)
  {
    if n < 10 then [DigitChar(n)] else NatDecimal(n / 10) + [DigitChar(n % 10)]
  }

  /** `String(n)`: the decimal form of an integer, with a leading `-` when negative. */
  function Decimal(n: int): string {
    if n < 0 then "-" + NatDecimal(-n) else NatDecimal(n)
  }

  lemma {:induction false} DigitsValueOfNatDecimal(n: nat)
    ensures DigitsValue(NatDecimal(n)) == n
  {
    if n >= 10 {
      var s := NatDecimal(n);
      assert s[..|s| - 1] == NatDecimal(n / 10);
      DigitsValueOfNatDecimal(n / 10);
    }
  }

  lemma {:induction false} DigitRunOfDigitsThen(d: string, rest: string)
    requires AllDigits(d)
    requires rest == [] || !IsDigit(rest[0])
    ensures DigitRun(d + rest) == |d|
  {
    if d != [] {
      assert (d + rest)[1..] == d[1..] + rest;
      DigitRunOfDigitsThen(d[1..], rest);
    }
  }

  /** The digits of a number, followed by a non-digit or nothing, read back as that number. */
  lemma LeadingDigitsOfNatDecimal(m: nat, rest: string)
    requires rest == [] || !IsDigit(rest[0])
    ensures LeadingDigits(NatDecimal(m) + rest) == Some(m)
  {
    var digits := NatDecimal(m);
    DigitRunOfDigitsThen(digits, rest);
    assert (digits + rest)[..|digits|] == digits;
    DigitsValueOfNatDecimal(m);
  }

  /** A leading `-` negates what the digits after it read as. */
  lemma ParseIntAfterMinus(d: string, rest: string, v: nat)
    requires LeadingDigits(d + rest) == Some(v)
    ensures ParseInt("-" + d + rest) == Some(-(v as int))
  {
    var s := "-" + d + rest;
    assert s[0] == '-';
    assert s[1..] == d + rest;
  }

  /** Without a sign, the digits read as they are. */
  lemma ParseIntUnsigned(t: string, v: nat)
    requires LeadingDigits(t) == Some(v)
    ensures ParseInt(t) == Some(v)
  {
    assert IsDigit(t[0]);
  }

  /**
   * `parseInt` reads back the decimal form of any integer, also when other
   * characters follow it (a partial parse such as `parseInt("12abc") == 12`).
   */
  lemma ParseIntOfDecimal(n: int, rest: string)
    requires rest == [] || !IsDigit(rest[0])
    ensures ParseInt(Decimal(n) + rest) == Some(n)
  {
    if n < 0 {
      var d := NatDecimal(-n);
      assert Decimal(n) == "-" + d;
      LeadingDigitsOfNatDecimal(-n, rest);
      ParseIntAfterMinus(d, rest, -n);
    } else {
      var d := NatDecimal(n);
      assert Decimal(n) == d;
      LeadingDigitsOfNatDecimal(n, rest);
      ParseIntUnsigned(d + rest, n);
    }
  }
}

/** POSIX `path.basename` (one argument), which the handlers use to locate an image file. */
module NodePath {

  /** The path without its trailing `/` characters. */
  function TrimTrailingSlashes(p: string): (r: string)
    ensures |r| <= |p| && r == p[..|r|]
    ensures r == [] || r[|r| - 1] != '/'
    ensures forall i :: |r| <= i < |p| ==> p[i] == '/'
  {
    if p != [] && p[|p| - 1] == '/' then TrimTrailingSlashes(p[..|p| - 1]) else p
  }

  /** What follows the last `/` of the path (all of it when it has none). */
  function LastSegment(p: string): (r: string)
    ensures |r| <= |p| && r == p[|p| - |r|..]
    ensures '/' !in r
    ensures |r| == |p| || p[|p| - |r| - 1] == '/'
  {
    if p == [] || p[|p| - 1] == '/' then []
    else LastSegment(p[..|p| - 1]) + [p[|p| - 1]]
  }

  function BaseName(p: string): string {
    LastSegment(TrimTrailingSlashes(p))
  }

  /** What follows a directory's closing `/` is the last segment. */
  lemma {:induction false} LastSegmentAfterSlash(dir: string, file: string)
    requires dir != [] && dir[|dir| - 1] == '/'
    requires '/' !in file
    ensures LastSegment(dir + file) == file
  {
    if file == [] {
      assert dir + file == dir;
    } else {
      var p := dir + file;
      var n := |file| - 1;
      var init, last := file[..n], file[n];
      assert file == init + [last];
      assert last != '/' by { assert last in file; }
      assert '/' !in init by {
        assert forall x :: x in init ==> x in file;
      }
      assert p[|p| - 1] == last;
      assert p[..|p| - 1] == dir + init;
      LastSegmentAfterSlash(dir, init);
    }
  }

  /** The base name of a file placed in a directory is the file's own name. */
  lemma BaseNameInDirectory(dir: string, file: string)
    requires dir != [] && dir[|dir| - 1] == '/'
    requires file != [] && '/' !in file
    ensures BaseName(dir + file) == file
  {
    var p := dir + file;
    assert p[|p| - 1] == file[|file| - 1] && file[|file| - 1] in file;
    assert TrimTrailingSlashes(p) == p;
    LastSegmentAfterSlash(dir, file);
  }
}
