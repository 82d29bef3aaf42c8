/** The SOAP 1.1 request `sendRequest` builds (wells-fargo.class.php:437-471): a fixed envelope
    with `Body`, a `submitTransaction` call whose argument is an `href` to a `multiRef`
    element (section 5 encoding of the SOAP 1.1 W3C Note), fifteen `xsd:string` fields, and
    six HTTP headers. Values are spliced in as they are, without XML escaping. */
module Soap {
  import opened Php

  /** The values spliced into the envelope, already rendered as strings. The ticket is absent
      when the caller's ticket number is falsy. */
  datatype Transaction = Transaction(
    uuid: string,
    setupPassword: string,
    amount: string,
    userName: string,
    accountNumber: string,
    ticketNumber: Option<string>,
    planNumber: string,
    merchantNumber: string,
    localeString: string,
    transactionCode: string,
    authorizationNumber: string)

  const TypeAttr: string := " xsi:type=\"xsd:string\""

  /** `<name xsi:type="xsd:string">` */
  function Open(name: string): string
  {
    "<" + name + TypeAttr + ">"
  }

  /** `</name>` */
  function Close(name: string): string
  {
    "</" + name + ">"
  }

  /** `<name xsi:type="xsd:string">value</name>` */
  function Element(name: string, value: string): string
  {
    Open(name) + value + Close(name)
  }

  /** `<name xsi:type="xsd:string"/>` */
  function EmptyElement(name: string): string
  {
    "<" + name + TypeAttr + "/>"
  }

  /** The ticket element is self-closing when there is no ticket. */
  function TicketElement(ticket: Option<string>): string
  {
    match ticket
    case None => EmptyElement("ticketNumber")
    case Some(t) => Element("ticketNumber", t)
  }

  const EnvelopeOpen: string :=
    "<soapenv:Envelope xmlns:soapenv=\"http://schemas.xmlsoap.org/soap/envelope/\" xmlns:xsd=\"http://www.w3.org/2001/XMLSchema\" xmlns:xsi=\"http://www.w3.org/2001/XMLSchema-instance\">"
    + "<soapenv:Body>"
    + "<ns1:submitTransaction xmlns:ns1=\"http://services.webservices.retaildealer.wff.com\" soapenv:encodingStyle=\"http://schemas.xmlsoap.org/soap/encoding/\">"
    + "<trans href=\"#id0\"/>"
    + "</ns1:submitTransaction>"
    + "<multiRef xmlns:ns2=\"http://model.webservices.retaildealer.wff.com\" xmlns:soapenc=\"http://schemas.xmlsoap.org/soap/encoding/\" id=\"id0\" soapenc:root=\"0\" soapenv:encodingStyle=\"http://schemas.xmlsoap.org/soap/encoding/\" xsi:type=\"ns2:Transaction\">"

  const EnvelopeClose: string := "</multiRef>" + "</soapenv:Body>" + "</soapenv:Envelope>"

  /** The terminal number is fixed. */
  const Terminal: string := Element("terminalNumber", "0000")

  /** The fields of the `multiRef` element, in document order. */
  function Fields(t: Transaction): seq<string>
  {
    [ EmptyElement("systemCode"),
      Element("uuid", t.uuid),
      EmptyElement("manufacturerNumber"),
      Element("setupPassword", t.setupPassword),
      Element("amount", t.amount),
      Element("userName", t.userName),
      Element("accountNumber", t.accountNumber),
      TicketElement(t.ticketNumber),
      EmptyElement("dealerId"),
      Element("planNumber", t.planNumber),
      Element("merchantNumber", t.merchantNumber),
      Element("localeString", t.localeString),
      Element("transactionCode", t.transactionCode),
      Terminal,
      Element("authorizationNumber", t.authorizationNumber) ]
  }

  function Concat(parts: seq<string>): string
  {
    if parts == [] then "" else Concat(parts[..|parts| - 1]) + parts[|parts| - 1]
  }

  function Envelope(t: Transaction): string
  {
    EnvelopeOpen + Concat(Fields(t)) + EnvelopeClose
  }

  /** The header list sent with the envelope. */
  function Headers(xml: string): seq<string>
  {
    [ "Content-type: text/xml;charset=\"utf-8\"",
      "Accept: text/xml",
      "Cache-Control: no-cache",
      "Pragma: no-cache",
      "SOAPAction: \"run\"",
      "Content-length: " + NatToString(|xml|) ]
  }

  // ---------------------------------------------------------------------------------------
  // Properties

  /** The `Content-length` header is the sixth and last header, and the number it carries
      reads back as the length of the envelope. */
  lemma ContentLengthRoundTrip(xml: string)
    ensures |Headers(xml)| == 6
    ensures Headers(xml)[5][..16] == "Content-length: "
    ensures AllDigits(Headers(xml)[5][16..]) && DigitsValue(Headers(xml)[5][16..]) == |xml|
  {
    var h := "Content-length: " + NatToString(|xml|);
    assert h[16..] == NatToString(|xml|);
    NatToStringRoundTrip(|xml|);
  }

  /** The first five headers do not depend on the request. */
  lemma HeadersFixed(x: string, y: string)
    ensures Headers(x)[..5] == Headers(y)[..5]
    ensures Headers(x) == Headers(y) <==> |x| == |y|
  {
    if Headers(x) == Headers(y) {
      assert Headers(x)[5][16..] == Headers(y)[5][16..];
      ContentLengthRoundTrip(x);
      ContentLengthRoundTrip(y);
    }
  }

  lemma ElementLength(name: string, value: string)
    ensures |Element(name, value)| == 2 * |name| + |value| + 27
  {
  }

  /** The ticket element is self-closing exactly when there is no ticket. */
  lemma TicketSelfClosing(ticket: Option<string>)
    ensures TicketElement(ticket) == EmptyElement("ticketNumber") <==> ticket.None?
  {
    if ticket.Some? {
      ElementLength("ticketNumber", ticket.value);
    }
  }

  /** Every envelope ends with the terminal number 0000, the authorization number and the
      fixed closing tags. */
  lemma TerminalFixed(t: Transaction)
    ensures var tail := Terminal + Element("authorizationNumber", t.authorizationNumber) + EnvelopeClose;
      |tail| <= |Envelope(t)| && Envelope(t)[|Envelope(t)| - |tail|..] == tail
  {
    var f := Fields(t);
    assert f[13] == Terminal && f[14] == Element("authorizationNumber", t.authorizationNumber);
    EnvelopeTail(EnvelopeOpen, f, EnvelopeClose);
  }

  /** The last two fields followed by the closing text end the whole envelope. */
  lemma EnvelopeTail(o: string, f: seq<string>, z: string)
    requires |f| >= 2
    ensures var e := o + Concat(f) + z; var tail := f[|f| - 2] + f[|f| - 1] + z;
      |tail| <= |e| && e[|e| - |tail|..] == tail
  {
    LastTwo(f);
    Suffix(o, Concat(f[..|f| - 2]), f[|f| - 2], f[|f| - 1], z);
  }

  lemma LastTwo(f: seq<string>)
    requires |f| >= 2
    ensures Concat(f) == Concat(f[..|f| - 2]) + f[|f| - 2] + f[|f| - 1]
  {
    assert f[..|f| - 1][..|f| - 2] == f[..|f| - 2];
  }

  lemma Suffix(o: string, c: string, x: string, y: string, z: string)
    ensures var e := o + (c + x + y) + z; var tail := x + y + z;
      |tail| <= |e| && e[|e| - |tail|..] == tail
  {
    var e := o + (c + x + y) + z;
    assert e == (o + c) + (x + y + z);
  }

  /** The password and amount elements run into each other without a separator, so the
      boundary between the two values can be forged from inside either one. */
  lemma Splice(a: string, b: string, c: string)
    ensures var mark := Close("setupPassword") + Open("amount");
      Element("setupPassword", a + mark + b) + Element("amount", c)
      == Element("setupPassword", a) + Element("amount", b + mark + c)
  {
    Reassociate(Open("setupPassword"), a, b, c, Close("setupPassword"), Open("amount"), Close("amount"));
  }

  lemma Reassociate(s: string, a: string, b: string, c: string, c1: string, am: string, e: string)
    ensures s + (a + (c1 + am) + b) + c1 + (am + c + e) == s + a + c1 + (am + (b + (c1 + am) + c) + e)
  {
  }

  lemma {:induction false} ConcatAppend(a: seq<string>, b: seq<string>)
    ensures Concat(a + b) == Concat(a) + Concat(b)
    decreases |b|
  {
    if b == [] {
      assert a + b == a;
    } else {
      var b' := b[..|b| - 1];
      assert (a + b)[..|a + b| - 1] == a + b';
      ConcatAppend(a, b');
      assert Concat(a) + Concat(b') + b[|b| - 1] == Concat(a) + (Concat(b') + b[|b| - 1]);
    }
  }

  /** A field list cut around two neighbours. */
  lemma ConcatAround(f: seq<string>, i: nat)
    requires i + 2 <= |f|
    ensures Concat(f) == Concat(f[..i]) + (f[i] + f[i + 1]) + Concat(f[i + 2..])
  {
    assert f[..i + 2] + f[i + 2..] == f;
    ConcatAppend(f[..i + 2], f[i + 2..]);
    ConcatPrefixPair(f, i);
  }

  lemma ConcatPrefixPair(f: seq<string>, i: nat)
    requires i + 2 <= |f|
    ensures Concat(f[..i + 2]) == Concat(f[..i]) + (f[i] + f[i + 1])
  {
    var g, h := f[..i + 2], f[..i + 1];
    assert g[..i + 1] == h && h[..i] == f[..i];
    assert Concat(g) == Concat(h) + f[i + 1];
    assert Concat(h) == Concat(f[..i]) + f[i];
    Associate(Concat(f[..i]), f[i], f[i + 1]);
  }

  lemma Associate(a: string, b: string, c: string)
    ensures a + b + c == a + (b + c)
  {
  }

  /** Concatenating fields that differ only in two neighbours with the same joint text. */
  lemma ConcatNeighbours(f: seq<string>, g: seq<string>, i: nat)
    requires |f| == |g| && i + 2 <= |f|
    requires f[..i] == g[..i] && f[i + 2..] == g[i + 2..]
    requires f[i] + f[i + 1] == g[i] + g[i + 1]
    ensures Concat(f) == Concat(g)
  {
    ConcatAround(f, i);
    ConcatAround(g, i);
  }

  /** Values are not escaped: two different transactions, where markup inside the password
      imitates the element boundary, produce the same envelope. */
  lemma EnvelopeNotEscaped(t: Transaction)
    ensures var mark := Close("setupPassword") + Open("amount");
      var t1 := t.(setupPassword := "a" + mark + "b", amount := "c");
      var t2 := t.(setupPassword := "a", amount := "b" + mark + "c");
      t1 != t2 && Envelope(t1) == Envelope(t2)
  {
    var mark := Close("setupPassword") + Open("amount");
    var t1 := t.(setupPassword := "a" + mark + "b", amount := "c");
    var t2 := t.(setupPassword := "a", amount := "b" + mark + "c");
    assert |t1.setupPassword| != |t2.setupPassword|;
    Splice("a", "b", "c");
    ConcatNeighbours(Fields(t1), Fields(t2), 3);
  }
}
