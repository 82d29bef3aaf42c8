/** The parts of PHP's value semantics the transaction library relies on.
    Strings are PHP byte strings: one `char` per byte. */
module Php {

  datatype Option<T> = None | Some(value: T)

  /** A scalar a caller can hand to the library: PHP `null`, a string or an integer.
      (Floats are not modelled; a caller's float is represented by its decimal string.) */
  datatype Scalar = Null | Str(s: string) | Int(i: int)

  /** A node of the decoded response tree, as `json_decode(json_encode(simplexml))` yields it:
      `null`, a text value or an array. Integer keys are stored as their canonical decimal
      string, which is how PHP's array normalises numeric string keys anyway. */
  datatype Node = Nil | Text(s: string) | Arr(m: map<string, Node>)

  /** The result of a step that PHP 8 may abort with an uncaught `Error`. */
  datatype Php<T> = Ok(value: T) | Fatal(reason: string)

  /** PHP's boolean conversion of a scalar. */
  predicate Truthy(v: Scalar)
  {
    match v
    case Null => false
    case Str(s) => s != "" && s != "0"
    case Int(i) => i != 0
  }

  predicate IsDigit(c: char)
  {
    '0' <= c <= '9'
  }

  predicate AllDigits(s: string)
  {
    forall k :: 0 <= k < |s| ==> IsDigit(s[k])
  }

  function DigitChar(d: nat): (c: char)
    requires d < 10
    ensures IsDigit(c)
  {
    (d + '0' as int) as char
  }

  /** The decimal rendering PHP uses when a non-negative integer becomes a string. */
  function NatToString(n: nat): (s: string)
    ensures |s| >= 1 && AllDigits(s)
    ensures n < 10 <==> |s| == 1
  {
    if n < 10 then [DigitChar(n)] else NatToString(n / 10) + [DigitChar(n % 10)]
  }

  /** The decimal rendering of any integer (`(string)$i`). */
  function IntToString(i: int): (s: string)
    ensures |s| >= 1
    ensures (s[0] == '-') <==> i < 0
  {
    if i < 0 then "-" + NatToString(-i) else NatToString(i)
  }

  /** The value of a string of decimal digits; characters other than digits count as 0. */
  function DigitsValue(s: string): nat
  {
    if s == [] then 0
    else DigitsValue(s[..|s| - 1]) * 10 + (if IsDigit(s[|s| - 1]) then s[|s| - 1] as int - '0' as int else 0)
  }

  function Pow10(k: nat): (p: nat)
    ensures p >= 1
  {
    if k == 0 then 1 else 10 * Pow10(k - 1)
  }

  /** PHP's string conversion of a scalar (`null` becomes the empty string). */
  function ToStr(v: Scalar): string
  {
    match v
    case Null => ""
    case Str(s) => s
    case Int(i) => IntToString(i)
  }

  /** `strlen` of a scalar, after PHP's conversion to string. */
  function Strlen(v: Scalar): nat
  {
    |ToStr(v)|
  }

  function Repeat(c: char, k: nat): (s: string)
    ensures |s| == k
    ensures forall j :: 0 <= j < k ==> s[j] == c
  {
    if k == 0 then "" else [c] + Repeat(c, k - 1)
  }

  /** `str_pad($s, $len, $c, STR_PAD_LEFT)`. */
  function PadLeft(s: string, len: nat, c: char): (r: string)
    ensures |r| == if |s| >= len then |s| else len
    ensures r[|r| - |s|..] == s
    ensures forall j :: 0 <= j < |r| - |s| ==> r[j] == c
  {
    if |s| >= len then s else Repeat(c, len - |s|) + s
  }

  /** `strtolower` (ASCII only, as in PHP 8). */
  function LowerAscii(s: string): (r: string)
    ensures |r| == |s|
  {
    if s == [] then ""
    else [if 'A' <= s[0] <= 'Z' then (s[0] as int + 32) as char else s[0]] + LowerAscii(s[1..])
  }

  /** Appending a digit string multiplies the value of what precedes it by a power of ten. */
  lemma {:induction false} DigitsValueAppend(a: string, b: string)
    ensures DigitsValue(a + b) == DigitsValue(a) * Pow10(|b|) + DigitsValue(b)
    decreases |b|
  {
    if b == [] {
      assert a + b == a;
    } else {
      var b' := b[..|b| - 1];
      var c := b[|b| - 1];
      var d := if IsDigit(c) then c as int - '0' as int else 0;
      assert (a + b)[..|a + b| - 1] == a + b';
      assert (a + b)[|a + b| - 1] == c;
      DigitsValueAppend(a, b');
      assert DigitsValue(a + b) == DigitsValue(a + b') * 10 + d;
      assert Pow10(|b|) == 10 * Pow10(|b'|);
      assert DigitsValue(b) == DigitsValue(b') * 10 + d;
      Shift(DigitsValue(a), Pow10(|b'|), DigitsValue(b'), d);
    }
  }

  lemma Shift(x: int, p: int, y: int, d: int)
    ensures (x * p + y) * 10 + d == x * (10 * p) + (y * 10 + d)
  {
  }

  /** Leading zeros do not change a digit string's value. */
  lemma {:induction false} DigitsValueLeadingZeros(k: nat, s: string)
    ensures DigitsValue(Repeat('0', k) + s) == DigitsValue(s)
  {
    DigitsValueAppend(Repeat('0', k), s);
    ZerosValue(k);
  }

  lemma {:induction false} ZerosValue(k: nat)
    ensures DigitsValue(Repeat('0', k)) == 0
  {
    if k > 0 {
      assert Repeat('0', k) == Repeat('0', k - 1) + ['0'] by {
        RepeatSnoc('0', k);
      }
      assert Repeat('0', k)[..k - 1] == Repeat('0', k - 1);
      ZerosValue(k - 1);
    }
  }

  lemma {:induction false} RepeatSnoc(c: char, k: nat)
    requires k > 0
    ensures Repeat(c, k) == Repeat(c, k - 1) + [c]
  {
    if k > 1 {
      RepeatSnoc(c, k - 1);
    }
  }

  /** Reading back PHP's decimal rendering gives the number: the two are inverse. */
  lemma {:induction false} NatToStringRoundTrip(n: nat)
    ensures DigitsValue(NatToString(n)) == n
  {
    if n >= 10 {
      var s := NatToString(n / 10) + [DigitChar(n % 10)];
      assert s[..|s| - 1] == NatToString(n / 10);
      NatToStringRoundTrip(n / 10);
    }
  }

  /** Zero-padding a rendered number on the left keeps its value: what the library does to the
      authorization number. */
  lemma PadLeftRoundTrip(n: nat, len: nat)
    ensures DigitsValue(PadLeft(NatToString(n), len, '0')) == n
    ensures AllDigits(PadLeft(NatToString(n), len, '0'))
  {
    var s := NatToString(n);
    NatToStringRoundTrip(n);
    if |s| < len {
      DigitsValueLeadingZeros(len - |s|, s);
    }
    PadLeftDigits(s, len);
  }

  lemma PadLeftDigits(s: string, len: nat)
    requires AllDigits(s)
    ensures AllDigits(PadLeft(s, len, '0'))
  {
    var r := PadLeft(s, len, '0');
    forall j | 0 <= j < |r|
      ensures IsDigit(r[j])
    {
      if j >= |r| - |s| {
        assert r[j] == r[|r| - |s|..][j - (|r| - |s|)];
      }
    }
  }

  /** A number below 10^k renders in at most k digits. */
  lemma {:induction false} NatToStringLength(n: nat, k: nat)
    requires n < Pow10(k)
    ensures |NatToString(n)| <= k || (n == 0 && k == 0)
  {
    if n >= 10 {
      assert Pow10(0) == 1 && Pow10(1) == 10;
      NatToStringLength(n / 10, k - 1);
    }
  }
}
