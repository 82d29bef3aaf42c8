/** The checks `WellsFargoC` runs before it sends anything: the four transaction fields of
    `prepareRequestData` (wells-fargo.class.php:250-311) and the account-level fields of
    `requiredDataIsSet` (wells-fargo.class.php:351-415), as functions from the inputs to the
    normalised values and the error messages, keyed as the source keys them. */
module Validation {
  import opened Php
  import opened Format

  /** A checked value: what the source stores or passes on, and the message, if any. */
  datatype Check = Check(value: Scalar, error: Option<string>)

  /** The largest amount, `99999999.99`, in cents. Comparing the two-decimal string `currency`
      returns with the float bounds is a numeric comparison that agrees with comparing cents. */
  const AmountMaxCents: int := 9999999999

  /** The amount check (wells-fargo.class.php:253-265). The branch for a null `currency`
      result is absent: `currency` always returns a string (see `Format.CurrencyCents`). */
  function AmountCheck(amount: Scalar): Check
  {
    if !Truthy(amount) then Check(amount, Some("An amount must be supplied."))
    else
      var cents := AmountCents(amount);
      Check(Str(CurrencyDefault(amount)),
        if cents < 0 then Some("Amount must be greater than 0.")
        else if cents > AmountMaxCents then Some("Amount must be less than 99999999.99.")
        else None)
  }

  /** The shape shared by the integer checks: the messages for a missing and an unparsable
      value, the name used in the range messages, whether those show the value, and the bounds. */
  datatype IntRule = IntRule(title: string, showValue: bool, missing: string, invalid: string, min: int, max: int)

  const AuthorizationRule: IntRule :=
    IntRule("Authorization number", false, "An authorization number must be supplied.",
      "Invalid authorization number.", 0, 999999)
  const PlanRule: IntRule :=
    IntRule("Plan number", true, "A plan number must be supplied.", "Invalid plan number.", 1000, 9999)
  const AccountRule: IntRule :=
    IntRule("Account number", true, "An account number must be supplied.", "Invalid account number.",
      1000000000000000, 9999999999999999)
  const MerchantRule: IntRule :=
    IntRule("Merchant number", true, "A merchant number must be supplied.", "Invalid merchant number.",
      100000000000000, 999999999999999)

  function RangeMessage(rule: IntRule, n: int, relation: string, limit: int): string
  {
    rule.title + (if rule.showValue then " " + IntToString(n) else "") + " must be " + relation
      + " than " + IntToString(limit) + "."
  }

  /** One integer check: a falsy value is missing and kept as it is; otherwise it becomes
      `FormatC::number($v)` (null when no digit survives), which is then range-checked. */
  function IntCheck(v: Scalar, rule: IntRule): Check
  {
    if !Truthy(v) then Check(v, Some(rule.missing))
    else match NumberInt(v, true, None)
      case None => Check(Null, Some(rule.invalid))
      case Some(n) =>
        Check(Int(n),
          if n < rule.min then Some(RangeMessage(rule, n, "greater", rule.min))
          else if n > rule.max then Some(RangeMessage(rule, n, "less", rule.max))
          else None)
  }

  const TicketMax: nat := 12

  /** The ticket check (wells-fargo.class.php:298-299): only its length, as a string, counts. */
  function TicketError(ticket: Scalar): Option<string>
  {
    if Strlen(ticket) > TicketMax
    then Some("Ticket number " + ToStr(ticket) + " must be less than 12 characters.")
    else None
  }

  /** The assignment `errors[requestI][key] = message` when there is a message. */
  function Entry(key: string, error: Option<string>): seq<(string, string)>
  {
    if error.Some? then [(key, error.value)] else []
  }

  /** What `prepareRequestData` returns when no field failed. `transactionCode` is an undefined
      variable at that point, so it is always null. */
  datatype RequestData = RequestData(amount: Scalar, authorizationNumber: string, planNumber: Scalar,
    transactionCode: Scalar)

  datatype Prepared = Prepared(errors: seq<(string, string)>, data: Option<RequestData>)

  /** `prepareRequestData` for a request whose error row starts empty: all four fields are
      checked in one pass, in this order, and the data is returned when none failed. */
  function PrepareRequestData(amount: Scalar, plan: Scalar, ticket: Scalar, authorization: Scalar): Prepared
  {
    var errors := FieldErrors(amount, plan, ticket, authorization);
    if errors != [] then Prepared(errors, None) else Prepared([], Some(RequestValues(amount, plan, authorization)))
  }

  /** The messages of the four field checks, in the order they are made. */
  function FieldErrors(amount: Scalar, plan: Scalar, ticket: Scalar, authorization: Scalar): seq<(string, string)>
  {
    Entry("amount", AmountCheck(amount).error)
      + Entry("authorizationNumber", IntCheck(authorization, AuthorizationRule).error)
      + Entry("planNumber", IntCheck(plan, PlanRule).error)
      + Entry("ticketNumber", TicketError(ticket))
  }

  /** The array `prepareRequestData` builds from the normalised fields once its error row is
      empty; the authorization number is left-padded with '0' to six characters. */
  function RequestValues(amount: Scalar, plan: Scalar, authorization: Scalar): RequestData
  {
    RequestData(AmountCheck(amount).value, PadLeft(ToStr(IntCheck(authorization, AuthorizationRule).value), 6, '0'),
      IntCheck(plan, PlanRule).value, Null)
  }

  /** The settable properties of a `WellsFargoC` object. */
  datatype Props = Props(
    accountNumber: Scalar,
    dealerId: Scalar,
    locale: Scalar,
    merchantNumber: Scalar,
    password: Scalar,
    recordRequest: Scalar,
    recordResponse: Scalar,
    username: Scalar,
    wsdlUrlToUse: Scalar)

  const LocaleDefault: string := "en_US"
  const LocaleMessage: string := "Invalid locale.  Possible locale's are en_CA, en_US, fr_CA."

  /** `in_array($locale, ['en_CA', 'en_US', 'fr_CA'])`; an integer never equals one of those
      non-numeric strings under PHP 8's loose comparison. */
  predicate IsLocaleOption(v: Scalar)
  {
    v.Str? && (v.s == "en_CA" || v.s == "en_US" || v.s == "fr_CA")
  }

  /** The locale check: empty becomes the default, anything else must be an option. */
  function LocaleCheck(v: Scalar): Check
  {
    if Strlen(v) == 0 then Check(Str(LocaleDefault), None)
    else if IsLocaleOption(v) then Check(v, None)
    else Check(v, Some(LocaleMessage))
  }

  /** The value the merchant check works on: the property when it is truthy, else the value of
      `WELLS_FARGO_MERCHANT_NUMBER` when it is defined (it is assigned to the property even when
      it is falsy), else the property. */
  function MerchantSource(merchant: Scalar, constant: Option<Scalar>): Scalar
  {
    if Truthy(merchant) then merchant else if constant.Some? then constant.value else merchant
  }

  /** The password and username checks: empty, or nothing but white space. */
  function SecretError(v: Scalar, name: string): Option<string>
  {
    if Strlen(v) == 0 then Some("A " + name + " has not been set.")
    else if Filter(ToStr(v), NonSpace) == "" then Some("Invalid " + name + ".")
    else None
  }

  const WsdlUrlTest: string := "https://retailservices-uat.wellsfargo.com/services/SubmitTransactionService"
  const WsdlUrlProduction: string := "https://retailservices.wellsfargo.com/services/SubmitTransactionService"

  /** The endpoint: production exactly when `strtolower($wsdlUrlToUse) == 'production'`. */
  function Endpoint(wsdlUrlToUse: Scalar): string
  {
    if LowerAscii(ToStr(wsdlUrlToUse)) == "production" then WsdlUrlProduction else WsdlUrlTest
  }

  /** What `requiredDataIsSet` leaves behind: the properties with the account number, the
      locale and the merchant number overwritten, the endpoint, and the messages in order. */
  datatype Account = Account(props: Props, wsdlUrl: string, errors: seq<(string, string)>)

  function RequiredDataIsSet(p: Props, merchantConstant: Option<Scalar>): Account
  {
    var a := IntCheck(p.accountNumber, AccountRule);
    var l := LocaleCheck(p.locale);
    var m := IntCheck(MerchantSource(p.merchantNumber, merchantConstant), MerchantRule);
    Account(
      p.(accountNumber := a.value, locale := l.value, merchantNumber := m.value),
      Endpoint(p.wsdlUrlToUse),
      Entry("accountNumber", a.error) + Entry("locale", l.error) + Entry("merchantNumber", m.error)
        + Entry("password", SecretError(p.password, "password"))
        + Entry("username", SecretError(p.username, "username")))
  }

  /** The keys of a list of messages. */
  function Keys(errors: seq<(string, string)>): seq<string>
  {
    seq(|errors|, i requires 0 <= i < |errors| => errors[i].0)
  }

  const FieldKeys: set<string> := {"amount", "authorizationNumber", "planNumber", "ticketNumber"}
  const AccountKeys: set<string> := {"accountNumber", "locale", "merchantNumber", "password", "username"}

  // ---------------------------------------------------------------------------------------
  // Properties of the field checks

  /** An amount passes exactly when it is truthy and `currency` renders it between 0.00 and
      99999999.99; a missing amount is reported as missing, and the value passed on is the
      rendered string, which reads back as the cents compared with the bounds. */
  lemma AmountCheckIff(amount: Scalar)
    ensures AmountCheck(amount).error.None? <==> Truthy(amount) && 0 <= AmountCents(amount) <= AmountMaxCents
    ensures AmountCheck(amount).error == Some("An amount must be supplied.") <==> !Truthy(amount)
    ensures Truthy(amount) ==>
      && AmountCheck(amount).value == Str(CurrencyDefault(amount))
      && NumberFloat(AmountCheck(amount).value, true) == Some(Decimal(AmountCents(amount), 2))
  {
    if Truthy(amount) {
      CurrencyCents(amount);
      CurrencyRoundTrip(AmountCents(amount));
    }
  }

  /** A non-numeric amount passes as "0.00". */
  lemma AmountNotANumber()
    ensures AmountCheck(Str("abc")) == Check(Str("0.00"), None)
  {
    CurrencyCents(Str("abc"));
    NumberFloatNoDigit();
  }

  /** An integer field passes exactly when it is truthy, has a digit, and the number it
      normalises to is within the bounds; each failure has its own message. */
  lemma IntCheckIff(v: Scalar, rule: IntRule)
    ensures IntCheck(v, rule).error.None? <==>
      Truthy(v) && NumberInt(v, true, None).Some? && rule.min <= NumberInt(v, true, None).value <= rule.max
    ensures IntCheck(v, rule).error == Some(rule.missing) <== !Truthy(v)
    ensures Truthy(v) && !HasDigit(ToStr(v)) ==> IntCheck(v, rule) == Check(Null, Some(rule.invalid))
    ensures NumberInt(v, true, None).Some? <==> HasDigit(ToStr(v))
    ensures Truthy(v) && NumberInt(v, true, None).Some? ==> IntCheck(v, rule).value == Int(NumberInt(v, true, None).value)
  {
    NumberIntDigits(v, true, None);
  }

  /** The default authorization number '000000' passes and is sent as "000000". */
  lemma DefaultAuthorization()
    ensures IntCheck(Str("000000"), AuthorizationRule) == Check(Int(0), None)
    ensures PadLeft(ToStr(Int(0)), 6, '0') == "000000"
  {
    SixZeros();
    ZerosParse(6);
    ZerosPadded(6);
  }

  lemma SixZeros()
    ensures Repeat('0', 6) == "000000"
  {
  }

  /** A run of zeros normalises to 0. */
  lemma ZerosParse(k: nat)
    requires k > 0
    ensures NumberInt(Str(Repeat('0', k)), true, None) == Some(0)
  {
    var s := Repeat('0', k);
    FilterKeepsClass(s, NumberChars(false));
    ZerosValue(k);
    NumberIntDigits(Str(s), true, None);
    assert IsDigit(s[0]);
  }

  /** Zero padded to a width is a run of zeros of that width. */
  lemma ZerosPadded(k: nat)
    requires k > 0
    ensures PadLeft(ToStr(Int(0)), k, '0') == Repeat('0', k)
  {
    assert ToStr(Int(0)) == "0";
    RepeatSnoc('0', k);
  }

  /** A ticket fails exactly when it is longer than 12 characters; no ticket never fails. */
  lemma TicketIff(ticket: Scalar)
    ensures TicketError(ticket).None? <==> Strlen(ticket) <= 12
    ensures TicketError(Null).None?
  {
  }

  /** The field messages: one per failing field and only for failing fields, in the order
      amount, authorization number, plan number, ticket number. */
  lemma FieldErrorKeys(amount: Scalar, plan: Scalar, ticket: Scalar, authorization: Scalar)
    ensures var e := PrepareRequestData(amount, plan, ticket, authorization).errors;
      Keys(e) == (if AmountCheck(amount).error.Some? then ["amount"] else [])
        + (if IntCheck(authorization, AuthorizationRule).error.Some? then ["authorizationNumber"] else [])
        + (if IntCheck(plan, PlanRule).error.Some? then ["planNumber"] else [])
        + (if TicketError(ticket).Some? then ["ticketNumber"] else [])
    ensures var e := PrepareRequestData(amount, plan, ticket, authorization).errors;
      forall i :: 0 <= i < |e| ==> e[i].0 in FieldKeys
  {
    FourKeys(AmountCheck(amount).error, IntCheck(authorization, AuthorizationRule).error,
      IntCheck(plan, PlanRule).error, TicketError(ticket));
  }

  /** The keys of the four field entries, whatever the four checks report. */
  lemma FourKeys(ea: Option<string>, ez: Option<string>, ep: Option<string>, et: Option<string>)
    ensures var e := if Entry("amount", ea) + Entry("authorizationNumber", ez) + Entry("planNumber", ep)
        + Entry("ticketNumber", et) != [] then Entry("amount", ea) + Entry("authorizationNumber", ez)
        + Entry("planNumber", ep) + Entry("ticketNumber", et) else [];
      Keys(e) == (if ea.Some? then ["amount"] else []) + (if ez.Some? then ["authorizationNumber"] else [])
        + (if ep.Some? then ["planNumber"] else []) + (if et.Some? then ["ticketNumber"] else [])
      && forall i :: 0 <= i < |e| ==> e[i].0 in FieldKeys
  {
    var a, z, p, t := Entry("amount", ea), Entry("authorizationNumber", ez), Entry("planNumber", ep),
      Entry("ticketNumber", et);
    FourEntries(a, z, p, t);
    var e := a + z + p + t;
    forall i | 0 <= i < |e|
      ensures e[i].0 in FieldKeys
    {
      assert e[i].0 == Keys(e)[i];
    }
  }

  lemma KeysAppend(a: seq<(string, string)>, b: seq<(string, string)>)
    ensures Keys(a + b) == Keys(a) + Keys(b)
  {
  }


  lemma FourEntries(a: seq<(string, string)>, z: seq<(string, string)>, p: seq<(string, string)>,
    t: seq<(string, string)>)
    ensures Keys(a + z + p + t) == Keys(a) + Keys(z) + Keys(p) + Keys(t)
  {
    KeysAppend(a, z);
    KeysAppend(a + z, p);
    KeysAppend(a + z + p, t);
  }

  /** The data is returned exactly when no field failed, and it is then the normalised values. */
  lemma PreparedData(amount: Scalar, plan: Scalar, ticket: Scalar, authorization: Scalar)
    ensures var r := PrepareRequestData(amount, plan, ticket, authorization);
      (r.data.Some? <==> r.errors == []) && r.errors == FieldErrors(amount, plan, ticket, authorization)
    ensures var r := PrepareRequestData(amount, plan, ticket, authorization);
      r.data.Some? ==> r.data.value == RequestValues(amount, plan, authorization)
  {
  }

  /** With all three checks passed, the amount is the rendered amount, the authorization number
      is six digits whose value is the normalised number, the plan number is within 1000..9999,
      and the transaction code is null. */
  lemma RequestValuesSound(amount: Scalar, plan: Scalar, authorization: Scalar)
    requires AmountCheck(amount).error.None?
    requires IntCheck(authorization, AuthorizationRule).error.None?
    requires IntCheck(plan, PlanRule).error.None?
    ensures var d := RequestValues(amount, plan, authorization);
      && d.amount == Str(CurrencyDefault(amount))
      && |d.authorizationNumber| == 6
      && AllDigits(d.authorizationNumber)
      && DigitsValue(d.authorizationNumber) == NumberInt(authorization, true, None).value
      && 0 <= NumberInt(authorization, true, None).value <= 999999
      && d.planNumber == Int(NumberInt(plan, true, None).value)
      && 1000 <= NumberInt(plan, true, None).value <= 9999
      && d.transactionCode == Null
  {
    AmountCheckIff(amount);
    IntCheckIff(plan, PlanRule);
    AuthorizationPadded(authorization);
  }

  /** A passing authorization number is sent as its value in six digits. */
  lemma AuthorizationPadded(authorization: Scalar)
    requires IntCheck(authorization, AuthorizationRule).error.None?
    ensures var a := PadLeft(ToStr(IntCheck(authorization, AuthorizationRule).value), 6, '0');
      && |a| == 6 && AllDigits(a)
      && DigitsValue(a) == NumberInt(authorization, true, None).value
      && 0 <= NumberInt(authorization, true, None).value <= 999999
  {
    IntCheckIff(authorization, AuthorizationRule);
    var n := NumberInt(authorization, true, None).value;
    PadLeftRoundTrip(n, 6);
    assert Pow10(6) == 1000000 by {
      assert Pow10(1) == 10 && Pow10(2) == 100 && Pow10(3) == 1000;
    }
    NatToStringLength(n, 6);
  }

  // ---------------------------------------------------------------------------------------
  // Properties of the account checks

  /** An empty locale becomes en_US without complaint; any other value outside the three
      options is reported, and the locale is otherwise left as it is. */
  lemma LocaleIff(v: Scalar)
    ensures LocaleCheck(v).error.Some? <==> Strlen(v) > 0 && !IsLocaleOption(v)
    ensures LocaleCheck(v).value == if Strlen(v) == 0 then Str("en_US") else v
  {
  }

  /** A password or username is reported as not set exactly when it is empty, and as invalid
      exactly when it is non-empty but all white space. */
  lemma SecretIff(v: Scalar, name: string)
    ensures SecretError(v, name) == Some("A " + name + " has not been set.") <==> Strlen(v) == 0
    ensures SecretError(v, name) == Some("Invalid " + name + ".") <==>
      Strlen(v) > 0 && forall j :: 0 <= j < |ToStr(v)| ==> IsSpace(ToStr(v)[j])
    ensures SecretError(v, name).None? <==>
      exists j :: 0 <= j < |ToStr(v)| && !IsSpace(ToStr(v)[j])
  {
    FilterEmptyIff(ToStr(v), NonSpace);
    if SecretError(v, name) == Some("A " + name + " has not been set.") {
      assert |"A " + name + " has not been set."| != |"Invalid " + name + "."|;
    }
  }

  /** The endpoint is production exactly when the setting is 'production' in any letter case;
      every other setting, including none, selects the test endpoint. */
  lemma EndpointIff(v: Scalar)
    ensures Endpoint(v) == WsdlUrlProduction <==> LowerAscii(ToStr(v)) == "production"
    ensures Endpoint(v) == WsdlUrlProduction || Endpoint(v) == WsdlUrlTest
  {
    assert |WsdlUrlProduction| != |WsdlUrlTest|;
  }

  /** The account's messages use only their own keys, one per failing field; the endpoint and
      the other properties are never reported. */
  lemma AccountKeysOnly(p: Props, merchantConstant: Option<Scalar>)
    ensures var r := RequiredDataIsSet(p, merchantConstant);
      forall i :: 0 <= i < |r.errors| ==> r.errors[i].0 in AccountKeys
  {
    var a := IntCheck(p.accountNumber, AccountRule);
    var l := LocaleCheck(p.locale);
    var m := IntCheck(MerchantSource(p.merchantNumber, merchantConstant), MerchantRule);
    var e1 := Entry("accountNumber", a.error);
    var e2 := Entry("locale", l.error);
    var e3 := Entry("merchantNumber", m.error);
    var e4 := Entry("password", SecretError(p.password, "password"));
    var e5 := Entry("username", SecretError(p.username, "username"));
    KeysWithin(e1, e2, AccountKeys);
    KeysWithin(e1 + e2, e3, AccountKeys);
    KeysWithin(e1 + e2 + e3, e4, AccountKeys);
    KeysWithin(e1 + e2 + e3 + e4, e5, AccountKeys);
  }

  lemma KeysWithin(a: seq<(string, string)>, b: seq<(string, string)>, keys: set<string>)
    requires forall i :: 0 <= i < |a| ==> a[i].0 in keys
    requires forall i :: 0 <= i < |b| ==> b[i].0 in keys
    ensures forall i :: 0 <= i < |a + b| ==> (a + b)[i].0 in keys
  {
  }

  /** Only the account number, the locale and the merchant number are overwritten. The account
      number becomes its normalised value when it is given; when it is not, it is kept and
      reported as missing. */
  lemma AccountNormalised(p: Props, merchantConstant: Option<Scalar>)
    ensures var r := RequiredDataIsSet(p, merchantConstant);
      r.props == p.(accountNumber := r.props.accountNumber, locale := r.props.locale,
        merchantNumber := r.props.merchantNumber)
    ensures var r := RequiredDataIsSet(p, merchantConstant);
      Truthy(p.accountNumber) ==> r.props.accountNumber == (match NumberInt(p.accountNumber, true, None)
        case None => Null case Some(n) => Int(n))
    ensures var r := RequiredDataIsSet(p, merchantConstant);
      !Truthy(p.accountNumber) ==>
        && r.props.accountNumber == p.accountNumber
        && |r.errors| > 0 && r.errors[0] == ("accountNumber", "An account number must be supplied.")
  {
  }

  /** No account message is ever a field message: the two kinds can be told apart by key. */
  lemma KeysDisjoint()
    ensures FieldKeys * AccountKeys == {}
  {
  }

  /** An account passes exactly when every one of its checks passes. */
  lemma AccountPassesIff(p: Props, merchantConstant: Option<Scalar>)
    ensures RequiredDataIsSet(p, merchantConstant).errors == [] <==>
      && IntCheck(p.accountNumber, AccountRule).error.None?
      && LocaleCheck(p.locale).error.None?
      && IntCheck(MerchantSource(p.merchantNumber, merchantConstant), MerchantRule).error.None?
      && SecretError(p.password, "password").None?
      && SecretError(p.username, "username").None?
  {
  }

  /** The account check normalises the merchant number property while it is truthy, and the
      value of the constant in its place once it is falsy; with neither, the number is
      reported missing. */
  lemma MerchantFallback(p: Props, constant: Option<Scalar>)
    ensures var r := RequiredDataIsSet(p, constant);
      !Truthy(p.merchantNumber) && constant.Some? ==>
        r.props.merchantNumber == IntCheck(constant.value, MerchantRule).value
    ensures var r := RequiredDataIsSet(p, constant);
      Truthy(p.merchantNumber) ==> r.props.merchantNumber == IntCheck(p.merchantNumber, MerchantRule).value
    ensures var r := RequiredDataIsSet(p, constant);
      !Truthy(p.merchantNumber) && constant.None? ==>
        && r.props.merchantNumber == p.merchantNumber
        && ("merchantNumber", "A merchant number must be supplied.") in r.errors
  {
  }
}
