/** `FormatC`: the numeric and string normalisers the validator relies on
    (format.class.php). All of them are pure string-to-value functions. */
module Format {
  import opened Php

  /** The character classes of the `preg_replace('/[^...]/', '', ...)` filters the
      library uses: `[^\d]` / `[^\d\.]` in `number`, `[^\w\.\-]` in `username`,
      `[\W]` in `word`, and `[\s]+` (deleting white space) in the credential checks.
      PCRE without the `u` flag: `\d` and `\w` are ASCII, `\s` is space and `\t`..`\r`. */
  datatype CharClass = NumberChars(float: bool) | UsernameChars | WordChars | NonSpace

  predicate IsWordChar(c: char)
  {
    'A' <= c <= 'Z' || 'a' <= c <= 'z' || IsDigit(c) || c == '_'
  }

  predicate IsSpace(c: char)
  {
    c == ' ' || '\t' <= c <= '\r'
  }

  predicate InClass(c: char, k: CharClass)
  {
    match k
    case NumberChars(float) => IsDigit(c) || (float && c == '.')
    case UsernameChars => IsWordChar(c) || c == '.' || c == '-'
    case WordChars => IsWordChar(c)
    case NonSpace => !IsSpace(c)
  }

  /** Deletes every character outside the class, keeping the order of the rest. */
  function Filter(s: string, k: CharClass): (r: string)
    ensures |r| <= |s|
    ensures forall j :: 0 <= j < |r| ==> InClass(r[j], k)
  {
    if s == [] then "" else (if InClass(s[0], k) then [s[0]] else "") + Filter(s[1..], k)
  }

  predicate HasDigit(s: string)
  {
    exists j :: 0 <= j < |s| && IsDigit(s[j])
  }

  function DotCount(s: string): nat
  {
    if s == [] then 0 else (if s[0] == '.' then 1 else 0) + DotCount(s[1..])
  }

  /** The characters after the first '.', or "" when there is none. */
  function FracPart(s: string): string
  {
    if s == [] then "" else if s[0] == '.' then s[1..] else FracPart(s[1..])
  }

  /** `$number[0] == '-'`: an integer has no string offsets, so this reads null for it. */
  predicate StartsWithMinus(v: Scalar)
  {
    v.Str? && |v.s| > 0 && v.s[0] == '-'
  }

  /** The string `number` tests with `is_numeric` (format.class.php:39): a '-' when negatives are
      allowed and the input starts with one, followed by the input's digits (and, in float mode,
      its dots); every other character is dropped. */
  function Kept(v: Scalar, float: bool, negative: bool): string
  {
    (if negative && Truthy(v) && StartsWithMinus(v) then "-" else "") + Filter(ToStr(v), NumberChars(float))
  }

  function Unsigned(k: string): string
  {
    if |k| > 0 && k[0] == '-' then k[1..] else k
  }

  /** PHP 8's `is_numeric` on strings made of '-', '.' and digits, the only ones `Kept`
      produces: an optional leading '-', then at least one digit and at most one dot. */
  predicate IsNumeric(k: string)
  {
    var b := Unsigned(k);
    && (forall j :: 0 <= j < |b| ==> IsDigit(b[j]) || b[j] == '.')
    && HasDigit(b)
    && DotCount(b) <= 1
  }

  function Sign(k: string): int
  {
    if |k| > 0 && k[0] == '-' then -1 else 1
  }

  /** The digits of a kept string read as one number, the dot ignored. */
  function Magnitude(k: string): nat
  {
    DigitsValue(Filter(k, NumberChars(false)))
  }

  const PHP_INT_MAX: int := 0x7FFF_FFFF_FFFF_FFFF
  const PHP_INT_MIN: int := -0x8000_0000_0000_0000

  /** `(int)` of a numeric string: values outside the 64-bit range saturate. */
  function IntCast(x: int): (r: int)
    ensures PHP_INT_MIN <= r <= PHP_INT_MAX
    ensures PHP_INT_MIN <= x <= PHP_INT_MAX ==> r == x
  {
    if x > PHP_INT_MAX then PHP_INT_MAX else if x < PHP_INT_MIN then PHP_INT_MIN else x
  }

  /** An exact decimal `units / 10^scale`; the model's stand-in for a PHP float. */
  datatype Decimal = Decimal(units: int, scale: nat)

  /** `FormatC::number($v, false, $negative, $default)`, scalar branch. */
  function NumberInt(v: Scalar, negative: bool, default: Option<int>): Option<int>
  {
    var k := Kept(v, false, negative);
    if IsNumeric(k) then Some(IntCast(Sign(k) * Magnitude(k))) else default
  }

  /** `FormatC::number($v, true, $negative)`, scalar branch, default null. */
  function NumberFloat(v: Scalar, negative: bool): Option<Decimal>
  {
    var k := Kept(v, true, negative);
    if IsNumeric(k) then Some(Decimal(Sign(k) * Magnitude(k), |FracPart(k)|)) else None
  }

  function Abs(x: int): nat
  {
    if x < 0 then -x else x
  }

  /** The integer and fractional parts of `a / 10^places`. */
  function Quot(a: nat, places: nat): nat
  {
    var p := Pow10(places);
    DivisionOfNat(a, p);
    a / p
  }

  lemma DivisionOfNat(a: nat, p: nat)
    requires p >= 1
    ensures a / p >= 0
  {
  }

  function Rem(a: nat, places: nat): (r: nat)
    ensures r < Pow10(places)
  {
    a % Pow10(places)
  }

  /** `d * 10^places` rounded half away from zero, as `number_format` rounds. */
  function Round(d: Decimal, places: nat): int
  {
    if places >= d.scale then d.units * Pow10(places - d.scale)
    else
      var q := Quot(Abs(d.units), d.scale - places);
      var m := if 2 * Rem(Abs(d.units), d.scale - places) >= Pow10(d.scale - places) then q + 1 else q;
      if d.units < 0 then -m else m
  }

  /** Inserts ',' between groups of three digits, counted from the right. */
  function Group(s: string, thousands: bool): string
    decreases |s|
  {
    if !thousands || |s| <= 3 then s else Group(s[..|s| - 3], true) + "," + s[|s| - 3..]
  }

  /** `number_format` of a value already rounded to `r / 10^places`, decimal point '.'.
      A zero result carries no sign (PHP 7.2 and later). */
  function FormatRounded(r: int, places: nat, thousands: bool): string
  {
    (if r < 0 then "-" else "")
    + Group(NatToString(Quot(Abs(r), places)), thousands)
    + (if places > 0 then "." + PadLeft(NatToString(Rem(Abs(r), places)), places, '0') else "")
  }

  /** `FormatC::currency($amount, $change, $thousands, $symbol, $default)` (format.class.php:22-30);
      a null `$symbol` is the empty string. It never returns null. */
  function Currency(amount: Scalar, change: bool, thousands: bool, symbol: string, default: string): string
  {
    match NumberFloat(amount, true)
    case None => default
    case Some(d) =>
      if d.units == 0 then default
      else
        var places := if change then 2 else 0;
        symbol + FormatRounded(Round(d, places), places, thousands)
  }

  /** `FormatC::currency($amount)` with every default, as the validator calls it. */
  function CurrencyDefault(amount: Scalar): string
  {
    Currency(amount, true, false, "", "0.00")
  }

  /** The value, in cents, of the string `CurrencyDefault` returns (see CurrencyCents). */
  function AmountCents(amount: Scalar): int
  {
    match NumberFloat(amount, true)
    case None => 0
    case Some(d) => if d.units == 0 then 0 else Round(d, 2)
  }

  /** `FormatC::username` (format.class.php:50-58). */
  function Username(u: Scalar): Option<string>
  {
    var r := Filter(ToStr(u), UsernameChars);
    if |r| > 0 then Some(r) else None
  }

  /** `FormatC::word` (format.class.php:60-68). `$default` is accepted and ignored: the
      function returns null, not the default, when nothing usable is left. */
  function Word(w: Scalar, default: Scalar): Option<string>
  {
    var r := Filter(ToStr(w), WordChars);
    if r != "" && r != "0" then Some(r) else None
  }

  // ---------------------------------------------------------------------------------------
  // Properties of the filters

  lemma {:induction false} FilterAppend(a: string, b: string, k: CharClass)
    ensures Filter(a + b, k) == Filter(a, k) + Filter(b, k)
  {
    if a != [] {
      assert (a + b)[1..] == a[1..] + b;
      FilterAppend(a[1..], b, k);
    } else {
      assert a + b == b;
    }
  }

  /** A string already inside the class passes the filter unchanged. */
  lemma {:induction false} FilterKeepsClass(s: string, k: CharClass)
    requires forall j :: 0 <= j < |s| ==> InClass(s[j], k)
    ensures Filter(s, k) == s
  {
    if s != [] {
      FilterKeepsClass(s[1..], k);
    }
  }

  /** Filtering is idempotent. */
  lemma FilterIdempotent(s: string, k: CharClass)
    ensures Filter(Filter(s, k), k) == Filter(s, k)
  {
    FilterKeepsClass(Filter(s, k), k);
  }

  /** The filter leaves something exactly when some character of the input is in the class. */
  lemma {:induction false} FilterEmptyIff(s: string, k: CharClass)
    ensures Filter(s, k) == "" <==> forall j :: 0 <= j < |s| ==> !InClass(s[j], k)
  {
    if s != [] {
      FilterEmptyIff(s[1..], k);
      assert forall j :: 1 <= j < |s| ==> s[j] == s[1..][j - 1];
    }
  }

  /** A filter keeps every occurrence of each character of its class and none of the others. */
  lemma {:induction false} FilterCounts(s: string, k: CharClass, c: char)
    ensures multiset(Filter(s, k))[c] == if InClass(c, k) then multiset(s)[c] else 0
  {
    if s != [] {
      FilterCounts(s[1..], k, c);
      var head := if InClass(s[0], k) then [s[0]] else "";
      assert s == [s[0]] + s[1..];
      assert multiset(s) == multiset([s[0]]) + multiset(s[1..]);
      assert multiset(Filter(s, k)) == multiset(head) + multiset(Filter(s[1..], k));
    }
  }

  /** Stripping to digits (and dots) keeps a digit exactly when the input has one. */
  lemma {:induction false} FilterHasDigit(s: string, float: bool)
    ensures HasDigit(Filter(s, NumberChars(float))) <==> HasDigit(s)
  {
    if s != [] {
      FilterHasDigit(s[1..], float);
      var head := if InClass(s[0], NumberChars(float)) then [s[0]] else "";
      var rest := Filter(s[1..], NumberChars(float));
      assert Filter(s, NumberChars(float)) == head + rest;
      if HasDigit(s) {
        var j :| 0 <= j < |s| && IsDigit(s[j]);
        if j == 0 {
          assert (head + rest)[0] == s[0];
        } else {
          assert s[1..][j - 1] == s[j];
          var i :| 0 <= i < |rest| && IsDigit(rest[i]);
          assert (head + rest)[|head| + i] == rest[i];
        }
      }
      if HasDigit(head + rest) {
        var i :| 0 <= i < |head + rest| && IsDigit((head + rest)[i]);
        if i < |head| {
          assert IsDigit(s[0]);
        } else {
          assert rest[i - |head|] == (head + rest)[i];
          var j :| 0 <= j < |s[1..]| && IsDigit(s[1..][j]);
          assert s[j + 1] == s[1..][j];
        }
      }
    }
  }

  lemma {:induction false} DigitsHaveNoDots(s: string)
    requires forall j :: 0 <= j < |s| ==> IsDigit(s[j])
    ensures DotCount(s) == 0
  {
    if s != [] {
      DigitsHaveNoDots(s[1..]);
    }
  }

  // ---------------------------------------------------------------------------------------
  // Properties of `number`

  /** Integer mode: the input is numeric exactly when at least one digit survives stripping,
      and then the result is the value of the kept digits with the kept sign, saturated;
      every other character is silently dropped. Otherwise the result is the default. */
  lemma NumberIntDigits(v: Scalar, negative: bool, default: Option<int>)
    ensures IsNumeric(Kept(v, false, negative)) <==> HasDigit(ToStr(v))
    ensures NumberInt(v, negative, default) ==
      if HasDigit(ToStr(v))
      then Some(IntCast((if negative && StartsWithMinus(v) then -1 else 1)
                        * DigitsValue(Filter(ToStr(v), NumberChars(false)))))
      else default
  {
    var digits := Filter(ToStr(v), NumberChars(false));
    KeptParts(v, false, negative);
    FilterHasDigit(ToStr(v), false);
    DigitsHaveNoDots(digits);
    FilterIdempotent(ToStr(v), NumberChars(false));
  }

  /** Removing dots from the digits-and-dots of a string leaves its digits. */
  lemma {:induction false} FilterNarrow(s: string, float: bool)
    ensures Filter(Filter(s, NumberChars(float)), NumberChars(false)) == Filter(s, NumberChars(false))
  {
    if s != [] {
      FilterNarrow(s[1..], float);
      var head := if InClass(s[0], NumberChars(float)) then [s[0]] else "";
      FilterAppend(head, Filter(s[1..], NumberChars(float)), NumberChars(false));
    }
  }

  /** The kept string is the sign followed by the stripped input. */
  lemma KeptParts(v: Scalar, float: bool, negative: bool)
    ensures Unsigned(Kept(v, float, negative)) == Filter(ToStr(v), NumberChars(float))
    ensures Sign(Kept(v, float, negative)) == if negative && StartsWithMinus(v) then -1 else 1
    ensures Filter(Kept(v, float, negative), NumberChars(false)) == Filter(ToStr(v), NumberChars(false))
  {
    assert StartsWithMinus(v) ==> Truthy(v);
    SignedParts(if negative && StartsWithMinus(v) then "-" else "", Filter(ToStr(v), NumberChars(float)), float);
    FilterNarrow(ToStr(v), float);
  }

  lemma SignedParts(sign: string, f: string, float: bool)
    requires sign == "-" || sign == ""
    requires forall j :: 0 <= j < |f| ==> InClass(f[j], NumberChars(float))
    ensures Unsigned(sign + f) == f
    ensures Sign(sign + f) == if sign == "-" then -1 else 1
    ensures Filter(sign + f, NumberChars(false)) == Filter(f, NumberChars(false))
  {
    if sign == "-" {
      assert (sign + f)[1..] == f;
    } else {
      assert sign + f == f;
      if |f| > 0 {
        assert InClass(f[0], NumberChars(float));
      }
    }
    FilterAppend(sign, f, NumberChars(false));
    assert Filter(sign, NumberChars(false)) == "" by {
      if sign == "-" {
        assert Filter(sign, NumberChars(false)) == "" + Filter("", NumberChars(false));
      }
    }
  }

  /** With negatives disallowed the result is never negative (or it is the default). */
  lemma NumberIntNonNegative(v: Scalar, default: Option<int>)
    ensures var r := NumberInt(v, false, default); r == default || (r.Some? && r.value >= 0)
  {
    NumberIntDigits(v, false, default);
  }

  /** A leading '-' is kept only when negatives are allowed and the input string starts with it. */
  lemma NumberIntNegative(v: Scalar, default: Option<int>)
    requires HasDigit(ToStr(v))
    ensures NumberInt(v, true, default).Some?
    ensures NumberInt(v, true, default).value < 0
        <==> StartsWithMinus(v) && DigitsValue(Filter(ToStr(v), NumberChars(false))) > 0
  {
    NumberIntDigits(v, true, default);
  }

  /** Non-digits are dropped, not rejected. */
  lemma NumberIntDropsLetters()
    ensures NumberInt(Str("1x234"), true, None) == Some(1234)
  {
    NumberIntDigits(Str("1x234"), true, None);
    LettersDropped();
  }

  lemma LettersDropped()
    ensures HasDigit("1x234") && !StartsWithMinus(Str("1x234"))
    ensures DigitsValue(Filter("1x234", NumberChars(false))) == 1234
  {
    assert IsDigit("1x234"[0]);
    assert Filter("1x234", NumberChars(false)) == "1234";
    assert "1234"[..3] == "123" && "123"[..2] == "12" && "12"[..1] == "1";
  }

  /** Null (and the empty string) give the default in either mode. */
  lemma NumberNull(negative: bool, default: Option<int>)
    ensures NumberInt(Null, negative, default) == default
    ensures NumberFloat(Null, negative) == None
  {
    assert !HasDigit("");
  }

  /** Float mode: a stripped string with two or more dots is not numeric. */
  lemma NumberFloatTwoDots(v: Scalar, negative: bool)
    requires DotCount(Filter(ToStr(v), NumberChars(true))) >= 2
    ensures NumberFloat(v, negative) == None
  {
    var sign := if negative && Truthy(v) && StartsWithMinus(v) then "-" else "";
    var f := Filter(ToStr(v), NumberChars(true));
    var k := Kept(v, true, negative);
    assert k == sign + f;
    if sign == "-" {
      assert k[1..] == f;
    } else if |f| > 0 {
      assert InClass(f[0], NumberChars(true));
    }
    assert Unsigned(k) == f;
  }

  /** Float mode: what is only a dot or only a minus sign is not numeric. */
  lemma NumberFloatNoDigit()
    ensures NumberFloat(Str("."), true) == None
    ensures NumberFloat(Str("-"), true) == None
    ensures NumberFloat(Str("abc"), true) == None
  {
    assert Filter(".", NumberChars(true)) == ".";
    assert !HasDigit(".");
    assert Filter("-", NumberChars(true)) == "";
    assert Unsigned("-") == "";
    assert Filter("abc", NumberChars(true)) == "";
  }

  // ---------------------------------------------------------------------------------------
  // Properties of `currency`

  /** `currency` never returns null: it is the rendering of `AmountCents`, which is zero when
      `number` gave null or zero, and it is '0.00' exactly when those cents are zero (so also
      for a small amount that rounds to zero). A non-numeric amount such as "abc" therefore
      passes as "0.00". */
  lemma CurrencyCents(amount: Scalar)
    ensures CurrencyDefault(amount) == FormatRounded(AmountCents(amount), 2, false)
    ensures CurrencyDefault(amount) == "0.00" <==> AmountCents(amount) == 0
    ensures CurrencyDefault(Str("abc")) == "0.00"
  {
    ZeroRendering();
    NumberFloatNoDigit();
    CurrencyRoundTrip(AmountCents(amount));
    CurrencyRoundTrip(0);
  }

  lemma ZeroRendering()
    ensures FormatRounded(0, 2, false) == "0.00"
  {
    assert PadLeft("0", 2, '0') == "00";
  }

  /** Reading back what `currency` renders gives exactly the rounded amount: the string the
      validator compares with its bounds has the value `AmountCents / 100`. */
  lemma CurrencyRoundTrip(c: int)
    ensures NumberFloat(Str(FormatRounded(c, 2, false)), true) == Some(Decimal(c, 2))
  {
    var ip, fp, sign := RenderedParts(c);
    ReadBack(sign, ip, fp);
    CentsDigits(c, ip, fp);
  }

  /** `number` in float mode reads a signed `ip.fp` back as its digits over `10^|fp|`. */
  lemma ReadBack(sign: string, ip: string, fp: string)
    requires sign == "-" || sign == ""
    requires |ip| >= 1 && AllDigits(ip) && AllDigits(fp)
    ensures NumberFloat(Str(sign + (ip + "." + fp)), true)
      == Some(Decimal((if sign == "-" then -1 else 1) * DigitsValue(ip + fp), |fp|))
  {
    KeptSigned(sign, ip, fp);
    KeptBody(sign, ip, fp);
  }

  /** The integer digits followed by the two decimals of a rendering spell out the cents. */
  lemma CentsDigits(c: int, ip: string, fp: string)
    requires DigitsValue(ip) == Quot(Abs(c), 2) && DigitsValue(fp) == Rem(Abs(c), 2) && |fp| == 2
    ensures DigitsValue(ip + fp) == Abs(c)
  {
    DigitsValueAppend(ip, fp);
    QuotRem(Abs(c), 2);
  }

  /** A signed two-decimal body is numeric, and its sign, digits and decimals are the parts. */
  lemma KeptBody(sign: string, ip: string, fp: string)
    requires sign == "-" || sign == ""
    requires |ip| >= 1 && AllDigits(ip) && AllDigits(fp)
    ensures IsNumeric(sign + (ip + "." + fp))
    ensures Sign(sign + (ip + "." + fp)) == if sign == "-" then -1 else 1
    ensures Magnitude(sign + (ip + "." + fp)) == DigitsValue(ip + fp)
    ensures FracPart(sign + (ip + "." + fp)) == fp
  {
    var body := ip + "." + fp;
    BodyParts(ip, fp);
    SignedParts(sign, body, true);
    if sign == "-" {
      assert (sign + body)[0] == '-' && (sign + body)[1..] == body;
    } else {
      assert sign + body == body;
    }
  }

  /** The pieces of `FormatRounded(c, 2, false)`: sign, integer digits, '.', two digits. */
  lemma RenderedParts(c: int) returns (ip: string, fp: string, sign: string)
    ensures ip == NatToString(Quot(Abs(c), 2)) && DigitsValue(ip) == Quot(Abs(c), 2)
    ensures fp == PadLeft(NatToString(Rem(Abs(c), 2)), 2, '0') && DigitsValue(fp) == Rem(Abs(c), 2)
    ensures |ip| >= 1 && AllDigits(ip) && AllDigits(fp) && |fp| == 2
    ensures sign == if c < 0 then "-" else ""
    ensures FormatRounded(c, 2, false) == sign + (ip + "." + fp)
  {
    var q, r := Quot(Abs(c), 2), Rem(Abs(c), 2);
    ip := NatToString(q);
    sign := if c < 0 then "-" else "";
    fp := TwoDigits(r);
    NatToStringRoundTrip(q);
    TwoPlaces(c);
  }

  /** `FormatRounded` with two places and no grouping, unfolded. */
  lemma TwoPlaces(c: int)
    ensures FormatRounded(c, 2, false)
      == (if c < 0 then "-" else "") + (NatToString(Quot(Abs(c), 2)) + "." + PadLeft(NatToString(Rem(Abs(c), 2)), 2, '0'))
  {
  }

  lemma TwoDigits(r: nat) returns (fp: string)
    requires r < Pow10(2)
    ensures fp == PadLeft(NatToString(r), 2, '0') && DigitsValue(fp) == r
    ensures AllDigits(fp) && |fp| == 2
  {
    fp := PadLeft(NatToString(r), 2, '0');
    NatToStringLength(r, 2);
    PadLeftRoundTrip(r, 2);
  }

  /** A signed `ip.fp` survives `number`'s stripping unchanged, its '-' included. */
  lemma KeptSigned(sign: string, ip: string, fp: string)
    requires sign == "-" || sign == ""
    requires |ip| >= 1 && AllDigits(ip) && AllDigits(fp)
    ensures Kept(Str(sign + (ip + "." + fp)), true, true) == sign + (ip + "." + fp)
  {
    var body := ip + "." + fp;
    BodyClass(ip, fp);
    if sign == "-" {
      KeptMinus(body);
    } else {
      assert sign + body == body;
      assert body[0] == ip[0];
      KeptPlain(body);
    }
  }

  lemma KeptPlain(body: string)
    requires forall j :: 0 <= j < |body| ==> InClass(body[j], NumberChars(true))
    requires |body| > 0 && IsDigit(body[0])
    ensures Kept(Str(body), true, true) == body
  {
    FilterKeepsClass(body, NumberChars(true));
  }

  lemma KeptMinus(body: string)
    requires forall j :: 0 <= j < |body| ==> InClass(body[j], NumberChars(true))
    requires |body| > 1
    ensures Kept(Str("-" + body), true, true) == "-" + body
  {
    var s := "-" + body;
    assert s[0] == '-' && s[1..] == body;
    FilterKeepsClass(body, NumberChars(true));
    assert Filter(s, NumberChars(true)) == "" + body;
  }

  lemma QuotRem(a: nat, places: nat)
    ensures Quot(a, places) * Pow10(places) + Rem(a, places) == a
  {
  }

  /** The unsigned body `ip.fp` of a two-decimal rendering. */
  lemma BodyParts(ip: string, fp: string)
    requires |ip| >= 1 && AllDigits(ip) && AllDigits(fp)
    ensures forall j :: 0 <= j < |ip + "." + fp| ==> InClass((ip + "." + fp)[j], NumberChars(true))
    ensures Filter(ip + "." + fp, NumberChars(true)) == ip + "." + fp
    ensures Filter(ip + "." + fp, NumberChars(false)) == ip + fp
    ensures IsNumeric(ip + "." + fp)
    ensures FracPart(ip + "." + fp) == fp
  {
    BodyClass(ip, fp);
    BodyDigits(ip, fp);
    BodyNumeric(ip, fp);
    FracPartAfterDigits(ip, fp);
  }

  lemma BodyClass(ip: string, fp: string)
    requires AllDigits(ip) && AllDigits(fp)
    ensures forall j :: 0 <= j < |ip + "." + fp| ==> InClass((ip + "." + fp)[j], NumberChars(true))
    ensures Filter(ip + "." + fp, NumberChars(true)) == ip + "." + fp
  {
    var body := ip + "." + fp;
    forall j | 0 <= j < |body| ensures InClass(body[j], NumberChars(true)) {
      if j < |ip| {
        assert body[j] == ip[j];
      } else if j > |ip| {
        assert body[j] == fp[j - |ip| - 1];
      }
    }
    FilterKeepsClass(body, NumberChars(true));
  }

  lemma BodyDigits(ip: string, fp: string)
    requires AllDigits(ip) && AllDigits(fp)
    ensures Filter(ip + "." + fp, NumberChars(false)) == ip + fp
  {
    var k := NumberChars(false);
    FilterAppend(ip + ".", fp, k);
    FilterAppend(ip, ".", k);
    assert Filter(".", k) == "" + Filter("", k);
    FilterKeepsClass(ip, k);
    FilterKeepsClass(fp, k);
    assert ip + "" == ip;
  }

  lemma BodyNumeric(ip: string, fp: string)
    requires |ip| >= 1 && AllDigits(ip) && AllDigits(fp)
    requires forall j :: 0 <= j < |ip + "." + fp| ==> InClass((ip + "." + fp)[j], NumberChars(true))
    ensures IsNumeric(ip + "." + fp)
  {
    var body := ip + "." + fp;
    DigitsHaveNoDots(ip);
    DigitsHaveNoDots(fp);
    assert body == ip + (['.'] + fp);
    DotCountAppend(ip, ['.'] + fp);
    assert (['.'] + fp)[1..] == fp;
    assert IsDigit(body[0]);
  }

  lemma {:induction false} DotCountAppend(a: string, b: string)
    ensures DotCount(a + b) == DotCount(a) + DotCount(b)
  {
    if a != [] {
      assert (a + b)[1..] == a[1..] + b;
      DotCountAppend(a[1..], b);
    } else {
      assert a + b == b;
    }
  }

  lemma {:induction false} FracPartAfterDigits(ip: string, fp: string)
    requires AllDigits(ip)
    ensures FracPart(ip + "." + fp) == fp
  {
    if ip == [] {
      assert ip + "." + fp == ['.'] + fp;
    } else {
      assert (ip + "." + fp)[1..] == ip[1..] + "." + fp;
      FracPartAfterDigits(ip[1..], fp);
    }
  }

  // ---------------------------------------------------------------------------------------
  // Properties of `username` and `word`

  /** `username` keeps only `[A-Za-z0-9_.-]`, returns null when nothing remains, and applying
      it to its own result changes nothing. */
  lemma UsernameFilter(u: Scalar)
    ensures Username(u).None? <==> forall j :: 0 <= j < |ToStr(u)| ==> !InClass(ToStr(u)[j], UsernameChars)
    ensures Username(u).Some? ==> forall j :: 0 <= j < |Username(u).value| ==> InClass(Username(u).value[j], UsernameChars)
    ensures Username(u).Some? ==> Username(Str(Username(u).value)) == Username(u)
  {
    FilterEmptyIff(ToStr(u), UsernameChars);
    FilterIdempotent(ToStr(u), UsernameChars);
  }

  /** `word` keeps only `[A-Za-z0-9_]` and returns null exactly when the result is empty or
      "0" (PHP's `empty("0")`); applying it to its own result changes nothing. */
  lemma WordFilter(w: Scalar, default: Scalar)
    ensures Word(w, default).None? <==>
      (forall j :: 0 <= j < |ToStr(w)| ==> !InClass(ToStr(w)[j], WordChars)) || Filter(ToStr(w), WordChars) == "0"
    ensures Word(w, default).Some? ==>
      forall j :: 0 <= j < |Word(w, default).value| ==> InClass(Word(w, default).value[j], WordChars)
    ensures Word(w, default).Some? ==> Word(w, default).value != "0" && Word(w, default).value != ""
    ensures Word(w, default).Some? ==> Word(Str(Word(w, default).value), default) == Word(w, default)
    ensures Word(Str("a-0"), default) == Some("a0") && Word(Str("-0-"), default) == None
  {
    FilterEmptyIff(ToStr(w), WordChars);
    FilterIdempotent(ToStr(w), WordChars);
    assert Filter("a-0", WordChars) == "a0";
    assert Filter("-0-", WordChars) == "0";
  }
}
