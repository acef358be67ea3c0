/** PHP's conversions between strings and integers, as the special page uses them:
    `intval` on a posted string, and the decimal text PHP writes when it puts an
    integer into a string. PHP 5 / 7.0 on a 64-bit platform: `intval` of a string
    is C's `strtol` in base 10, which saturates at the integer bounds. */
module PhpInt {

  /** Bounds of a PHP integer on a 64-bit platform (PHP_INT_MAX, PHP_INT_MIN). */
  const IntMax: int := 0x7fff_ffff_ffff_ffff
  const IntMin: int := -0x8000_0000_0000_0000

  predicate InRange(n: int) {
    IntMin <= n <= IntMax
  }

  /** The characters `strtol` skips before the number (C's isspace). */
  predicate IsSpace(c: char) {
    c == ' ' || c == '\t' || c == '\n' || c == '\r' || c == '\U{0B}' || c == '\U{0C}'
  }

  predicate IsDigit(c: char) {
    '0' <= c <= '9'
  }

  predicate AllDigits(s: string) {
    forall i :: 0 <= i < |s| ==> IsDigit(s[i])
  }

  predicate NoDigits(s: string) {
    forall i :: 0 <= i < |s| ==> !IsDigit(s[i])
  }

  function DigitValue(c: char): (d: nat)
    requires IsDigit(c)
    ensures d < 10
  {
    (c as int) - ('0' as int)
  }

  function DigitChar(d: nat): (c: char)
    requires d < 10
    ensures IsDigit(c) && DigitValue(c) == d
  {
    (('0' as int) + d) as char
  }

  /** What is left of `s` once its leading white space is skipped. */
  function TrimStart(s: string): string {
    if |s| > 0 && IsSpace(s[0]) then TrimStart(s[1..]) else s
  }

  /** `strtol`'s digit loop: the digit run that `b` starts with, read into
      `acc` most significant digit first. */
  function Accumulate(b: string, acc: nat): nat {
    if |b| > 0 && IsDigit(b[0]) then Accumulate(b[1..], acc * 10 + DigitValue(b[0])) else acc
  }

  /** The value of an optional sign followed by a digit run (0 without digits). */
  function SignedValue(t: string): int {
    if |t| > 0 && t[0] == '-' then -(Accumulate(t[1..], 0) as int)
    else if |t| > 0 && t[0] == '+' then Accumulate(t[1..], 0)
    else Accumulate(t, 0)
  }

  /** `strtol`'s answer to a value outside the integer range: the nearer bound. */
  function Saturate(n: int): (r: int)
    ensures InRange(r)
    ensures InRange(n) ==> r == n
    ensures n > IntMax ==> r == IntMax
    ensures n < IntMin ==> r == IntMin
  {
    if n > IntMax then IntMax else if n < IntMin then IntMin else n
  }

  /** PHP `intval` of a string: white space is skipped, then an optional sign
      and the longest run of digits are read; whatever follows is ignored, a
      string with no such digits gives 0, and nothing is clamped to be
      non-negative. */
  function Intval(s: string): (n: int)
    ensures InRange(n)
  {
    Saturate(SignedValue(TrimStart(s)))
  }

  /** Decimal digits of a natural number, without leading zeros. */
  function NatDigits(n: nat): string
    decreases n
  {
    if n < 10 then [DigitChar(n)] else NatDigits(n / 10) + [DigitChar(n % 10)]
  }

  /** The text PHP produces for an integer put into a string ("${start}"):
      a minus sign for a negative number, then at least one digit, and
      nothing else. */
  function Decimal(n: int): (s: string)
    ensures n >= 0 ==> |s| >= 1 && AllDigits(s)
    ensures n < 0 ==> |s| >= 2 && s[0] == '-' && AllDigits(s[1..])
  {
    NatDigitsShape(if n < 0 then -n else n);
    if n < 0 then "-" + NatDigits(-n) else NatDigits(n)
  }

  /** The digits of a number form a non-empty digit string. */
  lemma {:induction false} NatDigitsShape(n: nat)
    ensures |NatDigits(n)| >= 1 && AllDigits(NatDigits(n))
    decreases n
  {
    if n >= 10 {
      NatDigitsShape(n / 10);
    }
  }

  /** Reading one more digit multiplies what was read by ten and adds the digit. */
  lemma {:induction false} AccumulateSnoc(ds: string, d: char, acc: nat)
    requires AllDigits(ds) && IsDigit(d)
    ensures Accumulate(ds + [d], acc) == Accumulate(ds, acc) * 10 + DigitValue(d)
    decreases |ds|
  {
    if ds == [] {
      assert ds + [d] == [d];
      assert [d][1..] == [];
    } else {
      assert (ds + [d])[1..] == ds[1..] + [d];
      AccumulateSnoc(ds[1..], d, acc * 10 + DigitValue(ds[0]));
    }
  }

  /** The digit loop stops at the first character that is not a digit. */
  lemma {:induction false} AccumulateStops(ds: string, rest: string, acc: nat)
    requires AllDigits(ds)
    requires rest == [] || !IsDigit(rest[0])
    ensures Accumulate(ds + rest, acc) == Accumulate(ds, acc)
    decreases |ds|
  {
    if ds == [] {
      assert ds + rest == rest;
    } else {
      assert (ds + rest)[1..] == ds[1..] + rest;
      AccumulateStops(ds[1..], rest, acc * 10 + DigitValue(ds[0]));
    }
  }

  /** The digit loop reads a number's digits back as the number. */
  lemma {:induction false} AccumulateNatDigits(m: nat)
    ensures Accumulate(NatDigits(m), 0) == m
    decreases m
  {
    if m >= 10 {
      NatDigitsShape(m / 10);
      AccumulateNatDigits(m / 10);
      AccumulateSnoc(NatDigits(m / 10), DigitChar(m % 10), 0);
    } else {
      assert [DigitChar(m)][1..] == [];
    }
  }

  /** A number's digits followed by anything but a digit are read as the number. */
  lemma LeadingValueOfDigits(m: nat, rest: string)
    requires rest == [] || !IsDigit(rest[0])
    ensures Accumulate(NatDigits(m) + rest, 0) == m
  {
    NatDigitsShape(m);
    AccumulateStops(NatDigits(m), rest, 0);
    AccumulateNatDigits(m);
  }

  /** Reading back what PHP wrote: `intval` of an integer's decimal text, with
      anything but a digit after it, is that integer, for every integer in range
      (negative ones included). */
  lemma IntvalOfDecimal(n: int, rest: string)
    requires InRange(n)
    requires rest == [] || !IsDigit(rest[0])
    ensures Intval(Decimal(n) + rest) == n
  {
    var m: nat := if n < 0 then -n else n;
    var ds := NatDigits(m);
    NatDigitsShape(m);
    LeadingValueOfDigits(m, rest);
    var s := Decimal(n) + rest;
    if n < 0 {
      assert s == ['-'] + (ds + rest);
      assert s[0] == '-' && s[1..] == ds + rest;
    } else {
      assert s == ds + rest;
      assert IsDigit(s[0]);
    }
    assert TrimStart(s) == s;
    assert SignedValue(s) == n;
  }

  /** Skipping white space keeps a string free of digits. */
  lemma {:induction false} TrimStartNoDigits(s: string)
    requires NoDigits(s)
    ensures NoDigits(TrimStart(s))
    decreases |s|
  {
    if |s| > 0 && IsSpace(s[0]) {
      assert NoDigits(s[1..]) by {
        forall i | 0 <= i < |s[1..]| ensures !IsDigit(s[1..][i]) {
          assert s[1..][i] == s[i + 1];
        }
      }
      TrimStartNoDigits(s[1..]);
    }
  }

  /** `s` holds no number for `strtol` to read: after the white space and an
      optional sign there is no digit, as in "abc5", " -x9", "+-3" or "". */
  predicate NoLeadingNumber(s: string) {
    var t := TrimStart(s);
    var u := if |t| > 0 && (t[0] == '-' || t[0] == '+') then t[1..] else t;
    u == [] || !IsDigit(u[0])
  }

  /** A string that holds no number for `strtol` reads as 0. */
  lemma IntvalWithoutNumber(s: string)
    requires NoLeadingNumber(s)
    ensures Intval(s) == 0
  {
  }

  /** A string with no digit in it at all holds no number. */
  lemma NoDigitsNoLeadingNumber(s: string)
    requires NoDigits(s)
    ensures NoLeadingNumber(s)
  {
    var t := TrimStart(s);
    TrimStartNoDigits(s);
    assert |t| > 1 ==> t[1..][0] == t[1];
  }

  /** A string with no digit in it, such as "abc", "-" or "", is read as 0. */
  lemma NonNumericIntval(s: string)
    requires NoDigits(s)
    ensures Intval(s) == 0
  {
    NoDigitsNoLeadingNumber(s);
    IntvalWithoutNumber(s);
  }
}
