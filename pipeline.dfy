/** The state a `WellsFargoC` object carries between calls, and what one `sendRequest` does to
    it (wells-fargo.class.php:428-508): take the next ledger index, check the transaction
    fields, then the account fields, build and record the envelope, hand it to the transport,
    record the reply and classify it. The class in module `WellsFargo` performs these steps
    on its fields one assignment at a time and is proved to end in the state computed here. */
module Pipeline {
  import opened Php
  import Format
  import opened Validation
  import Soap
  import Response

  /** The `WELLS_FARGO_*` constants the constructor reads, when defined. */
  datatype Env = Env(
    password: Option<Scalar>,
    recordRequest: Option<Scalar>,
    recordResponse: Option<Scalar>,
    requestDirectory: Option<Scalar>,
    responseDirectory: Option<Scalar>,
    username: Option<Scalar>,
    wsdlUrlToUse: Option<Scalar>)

  /** An entry of `requests`: the envelope and the header list. */
  datatype RequestEntry = RequestEntry(request: string, headers: seq<string>)

  /** An entry of `responses`: the body (or the transport's error text) and the transfer
      information the transport reported. */
  datatype ResponseEntry = ResponseEntry(response: string, headers: Node)

  /** What the transport gives back: `curl_exec` returned false, with the error text, or a
      body with the reported content type, if any. */
  datatype Transport =
    | Failure(error: string, info: Node)
    | Delivered(body: string, contentType: Option<string>, info: Node)

  /** The object's fields. `requestI` is never declared (the declared property is the unused,
      misspelled `requrestI`), so it starts out null. */
  datatype State = State(
    props: Props,
    requestDirectory: Scalar,
    responseDirectory: Scalar,
    wsdlUrl: Option<string>,
    errors: map<int, map<string, Node>>,
    requests: map<int, RequestEntry>,
    responses: map<int, ResponseEntry>,
    requestI: Option<int>,
    unique: Scalar)

  datatype Step = Step(state: State, outcome: Response.Outcome)

  // ---------------------------------------------------------------------------------------
  // Construction and the setter

  const Defaults: Props := Props(Null, Null, Null, Null, Null, Str("directory"), Str("directory"), Null, Null)

  function Or(constant: Option<Scalar>, otherwise: Scalar): Scalar
  {
    if constant.Some? then constant.value else otherwise
  }

  /** The properties that `setter` may assign: the allow-list entries that are properties
      (`recordRequestDirectory` and `recordResponseDirectory` are listed but do not exist). */
  const Settable: set<string> :=
    {"accountNumber", "dealerId", "locale", "merchantNumber", "password", "recordRequest",
     "recordResponse", "username", "wsdlUrlToUse"}

  /** `$this->{$property} = $value` for one allowed name; any other name changes nothing. */
  function SetProperty(p: Props, name: string, v: Scalar): Props
  {
    if name == "accountNumber" then p.(accountNumber := v)
    else if name == "dealerId" then p.(dealerId := v)
    else if name == "locale" then p.(locale := v)
    else if name == "merchantNumber" then p.(merchantNumber := v)
    else if name == "password" then p.(password := v)
    else if name == "recordRequest" then p.(recordRequest := v)
    else if name == "recordResponse" then p.(recordResponse := v)
    else if name == "username" then p.(username := v)
    else if name == "wsdlUrlToUse" then p.(wsdlUrlToUse := v)
    else p
  }

  /** The `foreach` of `setter` over the given properties, in order. */
  function ApplyProperties(p: Props, properties: seq<(string, Scalar)>): Props
  {
    if properties == [] then p
    else
      var last := properties[|properties| - 1];
      SetProperty(ApplyProperties(p, properties[..|properties| - 1]), last.0, last.1)
  }

  /** `setter`: anything but an array is ignored. */
  function Setter(p: Props, properties: Option<seq<(string, Scalar)>>): Props
  {
    if properties.Some? then ApplyProperties(p, properties.value) else p
  }

  /** The value of a settable property by name. */
  function Field(p: Props, name: string): Option<Scalar>
  {
    if name == "accountNumber" then Some(p.accountNumber)
    else if name == "dealerId" then Some(p.dealerId)
    else if name == "locale" then Some(p.locale)
    else if name == "merchantNumber" then Some(p.merchantNumber)
    else if name == "password" then Some(p.password)
    else if name == "recordRequest" then Some(p.recordRequest)
    else if name == "recordResponse" then Some(p.recordResponse)
    else if name == "username" then Some(p.username)
    else if name == "wsdlUrlToUse" then Some(p.wsdlUrlToUse)
    else None
  }

  /** The properties after the constructor has read the constants. */
  function Configured(env: Env): Props
  {
    Defaults.(
      password := Or(env.password, Null),
      recordRequest := Or(env.recordRequest, Str("directory")),
      recordResponse := Or(env.recordResponse, Str("directory")),
      username := Or(env.username, Null),
      wsdlUrlToUse := Or(env.wsdlUrlToUse, Null))
  }

  /** The constructor: read the constants, then run the setter. */
  function Initial(env: Env, properties: Option<seq<(string, Scalar)>>): State
  {
    State(Setter(Configured(env), properties), Or(env.requestDirectory, Null),
      Or(env.responseDirectory, Null), None, map[], map[], map[], None, Null)
  }

  // ---------------------------------------------------------------------------------------
  // The steps of `sendRequest`

  /** `++$this->requestI`: null becomes 1. */
  function NextIndex(i: Option<int>): int
  {
    if i.None? then 1 else i.value + 1
  }

  /** The error row of the current index, empty when there is none. */
  function Row(s: State): map<string, Node>
    requires s.requestI.Some?
  {
    if s.requestI.value in s.errors then s.errors[s.requestI.value] else map[]
  }

  /** The assignments `errors[requestI][key] = value`, in order; the row springs into
      existence with the first of them. */
  function Write(s: State, writes: seq<(string, Node)>): State
    requires s.requestI.Some?
  {
    if writes == [] then s
    else s.(errors := s.errors[s.requestI.value := Response.ApplyWrites(Row(s), writes)])
  }

  /** `if($this->errors[$this->requestI])`: a missing row reads as null. */
  predicate Filled(s: State)
    requires s.requestI.Some?
  {
    s.requestI.value in s.errors && s.errors[s.requestI.value] != map[]
  }

  function Texts(messages: seq<(string, string)>): seq<(string, Node)>
  {
    seq(|messages|, j requires 0 <= j < |messages| => (messages[j].0, Text(messages[j].1)))
  }

  function Begin(s: State, unique: string): State
  {
    s.(requestI := Some(NextIndex(s.requestI)), unique := Str(unique))
  }

  datatype Staged = Staged(state: State, data: Option<RequestData>)

  /** `prepareRequestData` on the object: write the field messages, then return the data
      unless the row is filled. */
  function PrepareStep(s: State, amount: Scalar, plan: Scalar, ticket: Scalar, authorization: Scalar): Staged
    requires s.requestI.Some?
  {
    var s' := Write(s, Texts(FieldErrors(amount, plan, ticket, authorization)));
    Staged(s', if Filled(s') then None else Some(RequestValues(amount, plan, authorization)))
  }

  datatype Checked = Checked(state: State, passed: bool)

  /** `requiredDataIsSet` on the object: overwrite the normalised properties, choose the
      endpoint, write the account messages, and pass unless the row is filled. */
  function AccountStep(s: State, merchantConstant: Option<Scalar>): Checked
    requires s.requestI.Some?
  {
    var a := RequiredDataIsSet(s.props, merchantConstant);
    var s' := Write(s.(props := a.props, wsdlUrl := Some(a.wsdlUrl)), Texts(a.errors));
    Checked(s', !Filled(s'))
  }

  /** The values `sendRequest` splices into the envelope. The transaction code is the
      `$transationCode` parameter, not the null `transactionCode` of the extracted data. */
  function TransactionOf(p: Props, unique: Scalar, code: int, d: RequestData, ticket: Scalar): Soap.Transaction
  {
    Soap.Transaction(
      uuid := ToStr(unique),
      setupPassword := ToStr(p.password),
      amount := ToStr(d.amount),
      userName := ToStr(p.username),
      accountNumber := ToStr(p.accountNumber),
      ticketNumber := if Truthy(ticket) then Some(ToStr(ticket)) else None,
      planNumber := ToStr(d.planNumber),
      merchantNumber := ToStr(p.merchantNumber),
      localeString := ToStr(p.locale),
      transactionCode := IntToString(code),
      authorizationNumber := d.authorizationNumber)
  }

  /** The URL handed to the transport; a null `wsdlUrl` is the empty string. */
  function Url(s: State): string
  {
    if s.wsdlUrl.Some? then s.wsdlUrl.value else ""
  }

  /** The in-memory half of `recordRequest`. */
  function RecordRequest(s: State, request: string, headers: seq<string>): State
    requires s.requestI.Some?
  {
    s.(requests := s.requests[s.requestI.value := RequestEntry(request, headers)])
  }

  /** The in-memory half of `recordResponse`. */
  function RecordResponse(s: State, response: string, headers: Node): State
    requires s.requestI.Some?
  {
    s.(responses := s.responses[s.requestI.value := ResponseEntry(response, headers)])
  }

  /** `xml2Dictionary` on the object: its writes go to the current row. */
  function Decode(s: State, body: string, parse: string -> Node): Step
    requires s.requestI.Some?
  {
    var d := Response.Xml2Dictionary(parse(Response.StripTagColons(body)));
    Step(Write(s, d.writes), d.outcome)
  }

  /** What `sendRequest` does with the transport's reply, the request being recorded: a
      failure records the error and writes `soap`, a body that is not `text/xml` writes
      `response`, and an XML body is handed to `xml2Dictionary`. */
  function Receive(s: State, reply: Transport, parse: string -> Node): Step
    requires s.requestI.Some?
  {
    match reply
    case Failure(error, info) =>
      Step(Write(RecordResponse(s, error, info), [("soap", Text(error))]), Response.Rejected)
    case Delivered(body, contentType, info) =>
      var s2 := RecordResponse(s, body, info);
      if Response.IsXmlContentType(contentType) then Decode(s2, body, parse)
      else Step(Write(s2, [("response", Text(body))]), Response.Rejected)
  }

  /** Everything after both checks passed: the envelope, the transport and the reply. */
  function Exchange(s: State, code: int, d: RequestData, ticket: Scalar,
    send: (string, string, seq<string>) -> Transport, parse: string -> Node): Step
    requires s.requestI.Some?
  {
    var xml := Soap.Envelope(TransactionOf(s.props, s.unique, code, d, ticket));
    var headers := Soap.Headers(xml);
    Receive(RecordRequest(s, xml, headers), send(Url(s), xml, headers), parse)
  }

  /** Where the condition of `sendRequest` leaves the object: stopped with the messages
      written, or cleared to send with the normalised field values. */
  datatype Gate = Stopped(state: State) | Cleared(state: State, data: RequestData)

  /** The start of `sendRequest`: the next index, the unique id, then the field check and,
      only when that passed, the account check (the `&&` short-circuits). */
  function Checks(s: State, amount: Scalar, plan: Scalar, ticket: Scalar, authorization: Scalar,
    merchantConstant: Option<Scalar>, unique: string): Gate
  {
    var p := PrepareStep(Begin(s, unique), amount, plan, ticket, authorization);
    if p.data.None? then Stopped(p.state)
    else
      var c := AccountStep(p.state, merchantConstant);
      if c.passed then Cleared(c.state, p.data.value) else Stopped(c.state)
  }

  /** One `sendRequest($code, $amount, $planNumber, $ticketNumber, $authorizationNumber)`:
      false when a check failed, the exchange otherwise. */
  function Attempt(s: State, code: int, amount: Scalar, plan: Scalar, ticket: Scalar, authorization: Scalar,
    merchantConstant: Option<Scalar>, unique: string,
    send: (string, string, seq<string>) -> Transport, parse: string -> Node): Step
  {
    match Checks(s, amount, plan, ticket, authorization, merchantConstant, unique)
    case Stopped(t) => Step(t, Response.Rejected)
    case Cleared(t, d) => Exchange(t, code, d, ticket, send, parse)
  }

  // ---------------------------------------------------------------------------------------
  // The lookups

  datatype Lookup<T> = Found(value: T) | NotFound(message: string)

  /** `FormatC::number($i, false, false, $this->requestI)`: no argument means the latest index. */
  function LookupIndex(i: Scalar, requestI: Option<int>): Option<int>
  {
    Format.NumberInt(i, false, requestI)
  }

  /** The index as it is concatenated into a message; null prints as nothing. */
  function IndexText(k: Option<int>): string
  {
    if k.Some? then IntToString(k.value) else ""
  }

  /** `getErrors($i)`. */
  function ErrorsFor(s: State, i: Scalar): Lookup<map<string, Node>>
  {
    var k := LookupIndex(i, s.requestI);
    if k.Some? && k.value in s.errors then Found(s.errors[k.value])
    else NotFound("Error set for request " + IndexText(k) + " not found.")
  }

  /** `getRequest($i)`. */
  function RequestFor(s: State, i: Scalar): Lookup<RequestEntry>
  {
    var k := LookupIndex(i, s.requestI);
    if k.Some? && k.value in s.requests then Found(s.requests[k.value])
    else NotFound("Request for request " + IndexText(k) + " not found.")
  }

  /** `getResponse($i)`. */
  function ResponseFor(s: State, i: Scalar): Lookup<ResponseEntry>
  {
    var k := LookupIndex(i, s.requestI);
    if k.Some? && k.value in s.responses then Found(s.responses[k.value])
    else NotFound("Response for request " + IndexText(k) + " not found.")
  }

  // ---------------------------------------------------------------------------------------
  // The ledger invariant

  /** Every ledger entry belongs to an index already handed out, indices start at 1, and a
      response is only recorded for a request that was. */
  predicate LedgerValid(s: State)
  {
    && (s.requestI.Some? ==> s.requestI.value >= 1)
    && (forall k :: k in s.errors ==> s.requestI.Some? && 1 <= k <= s.requestI.value)
    && (forall k :: k in s.requests ==> s.requestI.Some? && 1 <= k <= s.requestI.value)
    && (forall k :: k in s.responses ==> k in s.requests)
  }

  // ---------------------------------------------------------------------------------------
  // Properties of construction and the setter

  /** Setting a property by name changes that property and no other; a name outside the
      allow-list, or one listed that is not a property, changes nothing. */
  lemma SetPropertyEffect(p: Props, name: string, v: Scalar, other: string)
    ensures Field(SetProperty(p, name, v), other) == if other == name && name in Settable then Some(v) else Field(p, other)
    ensures name !in Settable ==> SetProperty(p, name, v) == p
    ensures Field(p, other).Some? <==> other in Settable
  {
  }

  /** After the setter, a settable property holds the value of its last occurrence in the
      list, or its old value when it does not occur. */
  lemma {:induction false} SetterLastWins(p: Props, properties: seq<(string, Scalar)>, name: string)
    requires name in Settable
    ensures (exists j :: 0 <= j < |properties| && properties[j].0 == name) ==>
      Field(ApplyProperties(p, properties), name) == Some(properties[Response.LastIndex(properties, name)].1)
    ensures (forall j :: 0 <= j < |properties| ==> properties[j].0 != name) ==>
      Field(ApplyProperties(p, properties), name) == Field(p, name)
  {
    if properties != [] {
      var front := properties[..|properties| - 1];
      var last := properties[|properties| - 1];
      SetterLastWins(p, front, name);
      SetPropertyEffect(ApplyProperties(p, front), last.0, last.1, name);
      if last.0 != name {
        assert forall j :: 0 <= j < |front| ==> front[j] == properties[j];
        if exists j :: 0 <= j < |properties| && properties[j].0 == name {
          var j :| 0 <= j < |properties| && properties[j].0 == name;
          assert front[j].0 == name;
        }
      }
    }
  }

  /** A new object has an empty ledger and no index, so the first request gets index 1 and
      a lookup before it reports an empty index; without constants or properties, only the
      two recording modes are set, to 'directory'. */
  lemma InitialState(env: Env, properties: Option<seq<(string, Scalar)>>)
    ensures LedgerValid(Initial(env, properties))
    ensures NextIndex(Initial(env, properties).requestI) == 1
    ensures ErrorsFor(Initial(env, properties), Null) == NotFound("Error set for request  not found.")
    ensures Initial(Env(None, None, None, None, None, None, None), None).props
      == Props(Null, Null, Null, Null, Null, Str("directory"), Str("directory"), Null, Null)
  {
    LookupLatest(Initial(env, properties));
  }

  // ---------------------------------------------------------------------------------------
  // Properties of the error row

  lemma {:induction false} ApplyWritesAppend(row: map<string, Node>, a: seq<(string, Node)>, b: seq<(string, Node)>)
    ensures Response.ApplyWrites(Response.ApplyWrites(row, a), b) == Response.ApplyWrites(row, a + b)
    decreases |b|
  {
    if b == [] {
      assert a + b == a;
    } else {
      var b' := b[..|b| - 1];
      assert (a + b)[..|a + b| - 1] == a + b';
      assert (a + b)[|a + b| - 1] == b[|b| - 1];
      ApplyWritesAppend(row, a, b');
    }
  }

  /** The keys of a row after some writes: its old keys and the written ones. */
  lemma {:induction false} ApplyWritesKeys(row: map<string, Node>, writes: seq<(string, Node)>)
    ensures Response.ApplyWrites(row, writes).Keys == row.Keys + (set j | 0 <= j < |writes| :: writes[j].0)
    decreases |writes|
  {
    if writes != [] {
      var front := writes[..|writes| - 1];
      ApplyWritesKeys(row, front);
      assert (set j | 0 <= j < |writes| :: writes[j].0)
        == (set j | 0 <= j < |front| :: front[j].0) + {writes[|writes| - 1].0} by {
        assert forall j :: 0 <= j < |front| ==> front[j] == writes[j];
      }
    }
  }

  /** Writes made one after the other are the writes made together. */
  lemma WriteAppend(s: State, a: seq<(string, Node)>, b: seq<(string, Node)>)
    requires s.requestI.Some?
    ensures Write(Write(s, a), b) == Write(s, a + b)
  {
    if a == [] {
      assert a + b == b;
    } else if b == [] {
      assert a + b == a;
    } else {
      ApplyWritesAppend(Row(s), a, b);
    }
  }

  /** One write sets one key of the current row, creating the row if need be. */
  lemma WriteOne(s: State, key: string, value: Node)
    requires s.requestI.Some?
    ensures Write(s, [(key, value)]) == s.(errors := s.errors[s.requestI.value := Row(s)[key := value]])
  {
    var w := [(key, value)];
    assert w[..0] == [];
    assert Response.ApplyWrites(Row(s), w[..0]) == Row(s);
    assert Response.ApplyWrites(Row(s), w) == Row(s)[key := value];
  }

  /** Writes touch the error rows only. */
  lemma WriteElsewhere(s: State, writes: seq<(string, Node)>, p: Props, url: Option<string>)
    requires s.requestI.Some?
    ensures Write(s.(props := p, wsdlUrl := url), writes) == Write(s, writes).(props := p, wsdlUrl := url)
  {
  }

  /** On an index without a row, the writes create the row exactly when there are any, and
      the row is then filled. */
  lemma WriteFresh(s: State, writes: seq<(string, Node)>)
    requires s.requestI.Some? && s.requestI.value !in s.errors
    ensures Write(s, writes).errors == if writes == [] then s.errors
      else s.errors[s.requestI.value := Response.ApplyWrites(map[], writes)]
    ensures Filled(Write(s, writes)) <==> writes != []
  {
    if writes != [] {
      ApplyWritesKeys(map[], writes);
      assert writes[0].0 in Response.ApplyWrites(map[], writes);
    }
  }

  /** The keys of the messages, as a set. */
  function KeySet(messages: seq<(string, string)>): set<string>
  {
    set j | 0 <= j < |messages| :: messages[j].0
  }

  lemma TextsKeys(messages: seq<(string, string)>)
    ensures (set j | 0 <= j < |Texts(messages)| :: Texts(messages)[j].0) == KeySet(messages)
    ensures Texts(messages) == [] <==> messages == []
  {
    var t := Texts(messages);
    forall k | k in KeySet(messages)
      ensures k in (set j | 0 <= j < |t| :: t[j].0)
    {
      var j :| 0 <= j < |messages| && messages[j].0 == k;
      assert t[j].0 == k;
    }
  }

  lemma TextsAppend(a: seq<(string, string)>, b: seq<(string, string)>)
    ensures Texts(a + b) == Texts(a) + Texts(b)
  {
  }

  lemma TextsEntry(key: string, error: Option<string>)
    ensures Texts(Entry(key, error)) == if error.Some? then [(key, Text(error.value))] else []
  {
  }

  // ---------------------------------------------------------------------------------------
  // Properties of one attempt

  /** The next index is 1 for the first attempt and one more than the last otherwise, and it
      has no ledger entry yet. */
  lemma FreshIndex(s: State)
    requires LedgerValid(s)
    ensures NextIndex(s.requestI) == if s.requestI.None? then 1 else s.requestI.value + 1
    ensures var i := NextIndex(s.requestI);
      i >= 1 && i !in s.errors && i !in s.requests && i !in s.responses
  {
  }

  /** When a transaction field fails, the attempt stops there: only the field messages are
      written, under the field keys, the account properties are not touched (the account check
      is skipped) and nothing is recorded. */
  lemma FieldErrorsStop(s: State, amount: Scalar, plan: Scalar, ticket: Scalar, authorization: Scalar,
    merchantConstant: Option<Scalar>, unique: string)
    requires LedgerValid(s)
    requires FieldErrors(amount, plan, ticket, authorization) != []
    ensures var i := NextIndex(s.requestI);
      var row := Response.ApplyWrites(map[], Texts(FieldErrors(amount, plan, ticket, authorization)));
      && Checks(s, amount, plan, ticket, authorization, merchantConstant, unique)
        == Stopped(Begin(s, unique).(errors := s.errors[i := row]))
      && row.Keys == KeySet(FieldErrors(amount, plan, ticket, authorization)) <= FieldKeys
  {
    var e := FieldErrors(amount, plan, ticket, authorization);
    FreshIndex(s);
    WriteFresh(Begin(s, unique), Texts(e));
    TextsKeys(e);
    ApplyWritesKeys(map[], Texts(e));
    FieldErrorKeys(amount, plan, ticket, authorization);
    PreparedData(amount, plan, ticket, authorization);
  }

  /** With clean fields, the field check writes nothing and hands on the normalised values. */
  lemma PrepareClean(b: State, amount: Scalar, plan: Scalar, ticket: Scalar, authorization: Scalar)
    requires b.requestI.Some? && b.requestI.value !in b.errors
    requires FieldErrors(amount, plan, ticket, authorization) == []
    ensures PrepareStep(b, amount, plan, ticket, authorization) == Staged(b, Some(RequestValues(amount, plan, authorization)))
  {
    assert Texts([]) == [];
  }

  /** On an index without a row, the account check keeps the normalised properties and the
      endpoint, and writes its messages into a fresh row, failing exactly when there are any. */
  lemma AccountOnFreshRow(b: State, merchantConstant: Option<Scalar>)
    requires b.requestI.Some? && b.requestI.value !in b.errors
    ensures var a := RequiredDataIsSet(b.props, merchantConstant);
      var b' := b.(props := a.props, wsdlUrl := Some(a.wsdlUrl));
      var c := AccountStep(b, merchantConstant);
      && c.state.errors == (if a.errors == [] then b.errors
                            else b.errors[b.requestI.value := Response.ApplyWrites(map[], Texts(a.errors))])
      && c.state == b'.(errors := c.state.errors)
      && (c.passed <==> a.errors == [])
  {
    var a := RequiredDataIsSet(b.props, merchantConstant);
    var b' := b.(props := a.props, wsdlUrl := Some(a.wsdlUrl));
    WriteFresh(b', Texts(a.errors));
    TextsKeys(a.errors);
  }

  /** When the fields pass but an account field fails, the normalised properties and the
      endpoint are kept, only the account messages are written, under the account keys, and
      nothing is recorded. */
  lemma AccountErrorsStop(s: State, amount: Scalar, plan: Scalar, ticket: Scalar, authorization: Scalar,
    merchantConstant: Option<Scalar>, unique: string)
    requires LedgerValid(s)
    requires FieldErrors(amount, plan, ticket, authorization) == []
    requires RequiredDataIsSet(s.props, merchantConstant).errors != []
    ensures var i := NextIndex(s.requestI);
      var a := RequiredDataIsSet(s.props, merchantConstant);
      var row := Response.ApplyWrites(map[], Texts(a.errors));
      && Checks(s, amount, plan, ticket, authorization, merchantConstant, unique)
        == Stopped(Begin(s, unique).(props := a.props, wsdlUrl := Some(a.wsdlUrl), errors := s.errors[i := row]))
      && row.Keys == KeySet(a.errors) <= AccountKeys
  {
    var a := RequiredDataIsSet(s.props, merchantConstant);
    FreshIndex(s);
    PrepareClean(Begin(s, unique), amount, plan, ticket, authorization);
    AccountOnFreshRow(Begin(s, unique), merchantConstant);
    TextsKeys(a.errors);
    ApplyWritesKeys(map[], Texts(a.errors));
    AccountKeysOnly(s.props, merchantConstant);
  }

  /** When both checks pass, the attempt goes on to the exchange with the normalised
      properties, the chosen endpoint and the normalised field values, and nothing is written
      to the error row before it. */
  lemma ChecksPass(s: State, amount: Scalar, plan: Scalar, ticket: Scalar, authorization: Scalar,
    merchantConstant: Option<Scalar>, unique: string)
    requires LedgerValid(s)
    requires FieldErrors(amount, plan, ticket, authorization) == []
    requires RequiredDataIsSet(s.props, merchantConstant).errors == []
    ensures var a := RequiredDataIsSet(s.props, merchantConstant);
      Checks(s, amount, plan, ticket, authorization, merchantConstant, unique)
        == Cleared(Begin(s, unique).(props := a.props, wsdlUrl := Some(a.wsdlUrl)),
                   RequestValues(amount, plan, authorization))
  {
    FreshIndex(s);
    PrepareClean(Begin(s, unique), amount, plan, ticket, authorization);
    AccountOnFreshRow(Begin(s, unique), merchantConstant);
  }

  /** Whichever way the checks go, they take the next index, store the unique id, change
      nothing but the properties, the endpoint and the current error row, and record nothing;
      they clear the attempt exactly when both checks pass, and then with no row written. */
  lemma ChecksFrame(s: State, amount: Scalar, plan: Scalar, ticket: Scalar, authorization: Scalar,
    merchantConstant: Option<Scalar>, unique: string)
    requires LedgerValid(s)
    ensures var g := Checks(s, amount, plan, ticket, authorization, merchantConstant, unique);
      var i := NextIndex(s.requestI);
      && g.state == Begin(s, unique).(props := g.state.props, wsdlUrl := g.state.wsdlUrl, errors := g.state.errors)
      && g.state.errors.Keys <= s.errors.Keys + {i}
      && (g.Cleared? <==>
            FieldErrors(amount, plan, ticket, authorization) == [] && RequiredDataIsSet(s.props, merchantConstant).errors == [])
      && (g.Cleared? ==> g.state.errors == s.errors)
  {
    if FieldErrors(amount, plan, ticket, authorization) != [] {
      FieldErrorsStop(s, amount, plan, ticket, authorization, merchantConstant, unique);
    } else if RequiredDataIsSet(s.props, merchantConstant).errors != [] {
      AccountErrorsStop(s, amount, plan, ticket, authorization, merchantConstant, unique);
    } else {
      ChecksPass(s, amount, plan, ticket, authorization, merchantConstant, unique);
    }
  }

  /** Every attempt takes the next index before anything is checked, whatever happens next,
      and stores the unique id. */
  lemma AttemptIndex(s: State, code: int, amount: Scalar, plan: Scalar, ticket: Scalar, authorization: Scalar,
    merchantConstant: Option<Scalar>, unique: string,
    send: (string, string, seq<string>) -> Transport, parse: string -> Node)
    requires LedgerValid(s)
    ensures var st := Attempt(s, code, amount, plan, ticket, authorization, merchantConstant, unique, send, parse);
      st.state.requestI == Some(NextIndex(s.requestI)) && st.state.unique == Str(unique)
  {
    var g := Checks(s, amount, plan, ticket, authorization, merchantConstant, unique);
    ChecksFrame(s, amount, plan, ticket, authorization, merchantConstant, unique);
    if g.Cleared? {
      FreshIndex(s);
      ExchangeGrows(g.state, code, g.data, ticket, send, parse);
      assert Attempt(s, code, amount, plan, ticket, authorization, merchantConstant, unique, send, parse)
        == Exchange(g.state, code, g.data, ticket, send, parse);
    }
  }

  /** Handling the reply records what the transport gave back: a failure writes `soap`, a
      body that is not `text/xml` writes `response`, and an XML body is classified, its writes
      going to a row that exists only if there are any. Nothing but the errors and the
      responses changes. */
  lemma ReceiveOutcomes(s: State, reply: Transport, parse: string -> Node)
    requires s.requestI.Some? && s.requestI.value !in s.errors
    ensures var i := s.requestI.value;
      var e := Receive(s, reply, parse);
      && e.state == s.(errors := e.state.errors, responses := e.state.responses)
      && match reply
        case Failure(error, info) =>
          && e.outcome == Response.Rejected
          && e.state.responses == s.responses[i := ResponseEntry(error, info)]
          && e.state.errors == s.errors[i := map["soap" := Text(error)]]
        case Delivered(body, contentType, info) =>
          && e.state.responses == s.responses[i := ResponseEntry(body, info)]
          && if !Response.IsXmlContentType(contentType) then
               && e.outcome == Response.Rejected
               && e.state.errors == s.errors[i := map["response" := Text(body)]]
             else
               var dd := Response.Xml2Dictionary(parse(Response.StripTagColons(body)));
               && e.outcome == dd.outcome
               && e.state.errors == if dd.writes == [] then s.errors
                  else s.errors[i := Response.ApplyWrites(map[], dd.writes)]
  {
    match reply
    case Failure(error, info) =>
      WriteFresh(RecordResponse(s, error, info), [("soap", Text(error))]);
      assert Response.ApplyWrites(map[], [("soap", Text(error))]) == map["soap" := Text(error)] by {
        assert [("soap", Text(error))][..0] == [];
      }
    case Delivered(body, contentType, info) =>
      var s2 := RecordResponse(s, body, info);
      if Response.IsXmlContentType(contentType) {
        var dd := Response.Xml2Dictionary(parse(Response.StripTagColons(body)));
        WriteFresh(s2, dd.writes);
      } else {
        WriteFresh(s2, [("response", Text(body))]);
        assert Response.ApplyWrites(map[], [("response", Text(body))]) == map["response" := Text(body)] by {
          assert [("response", Text(body))][..0] == [];
        }
      }
  }

  /** The exchange records the envelope with its headers, then handles the reply to it;
      nothing but the three ledgers changes. */
  lemma ExchangeOutcomes(s: State, code: int, d: RequestData, ticket: Scalar,
    send: (string, string, seq<string>) -> Transport, parse: string -> Node)
    requires s.requestI.Some? && s.requestI.value !in s.errors
    ensures var xml := Soap.Envelope(TransactionOf(s.props, s.unique, code, d, ticket));
      var s1 := RecordRequest(s, xml, Soap.Headers(xml));
      var e := Exchange(s, code, d, ticket, send, parse);
      && s1 == s.(requests := s.requests[s.requestI.value := RequestEntry(xml, Soap.Headers(xml))])
      && e == Receive(s1, send(Url(s), xml, Soap.Headers(xml)), parse)
  {
  }

  /** The ledgers of `t` are those of `s` plus at most index `i`, which `t` holds as its
      index, with a response at `i` only next to a request at `i`. */
  predicate Grows(s: State, t: State, i: int)
  {
    && t.requestI == Some(i)
    && t.errors.Keys <= s.errors.Keys + {i}
    && s.requests.Keys <= t.requests.Keys <= s.requests.Keys + {i}
    && t.responses.Keys <= s.responses.Keys + {i}
    && (i in t.responses ==> i in t.requests)
  }

  lemma GrowsKeepsLedger(s: State, t: State, i: int)
    requires LedgerValid(s) && Grows(s, t, i)
    requires i >= 1 && (s.requestI.Some? ==> s.requestI.value <= i)
    ensures LedgerValid(t)
  {
  }

  /** A state whose index has no ledger entry yet. */
  predicate FreshRow(t: State)
  {
    t.requestI.Some? && t.requestI.value !in t.errors && t.requestI.value !in t.requests
      && t.requestI.value !in t.responses
  }

  /** The checks keep the ledger invariant, and clear the attempt only on a fresh row. */
  lemma ChecksKeepLedger(s: State, amount: Scalar, plan: Scalar, ticket: Scalar, authorization: Scalar,
    merchantConstant: Option<Scalar>, unique: string)
    requires LedgerValid(s)
    ensures var g := Checks(s, amount, plan, ticket, authorization, merchantConstant, unique);
      LedgerValid(g.state) && (g.Cleared? ==> FreshRow(g.state))
  {
    var g := Checks(s, amount, plan, ticket, authorization, merchantConstant, unique);
    var i := NextIndex(s.requestI);
    FreshIndex(s);
    ChecksFrame(s, amount, plan, ticket, authorization, merchantConstant, unique);
    assert Grows(s, g.state, i);
    GrowsKeepsLedger(s, g.state, i);
  }

  /** The exchange keeps the ledger invariant when it starts on a fresh row. */
  lemma ExchangeKeepsLedger(s: State, code: int, d: RequestData, ticket: Scalar,
    send: (string, string, seq<string>) -> Transport, parse: string -> Node)
    requires LedgerValid(s) && FreshRow(s)
    ensures LedgerValid(Exchange(s, code, d, ticket, send, parse).state)
  {
    ExchangeGrows(s, code, d, ticket, send, parse);
    GrowsKeepsLedger(s, Exchange(s, code, d, ticket, send, parse).state, s.requestI.value);
  }

  /** The ledger invariant holds for every object: the constructor establishes it and every
      attempt keeps it. */
  lemma AttemptKeepsLedger(s: State, code: int, amount: Scalar, plan: Scalar, ticket: Scalar, authorization: Scalar,
    merchantConstant: Option<Scalar>, unique: string,
    send: (string, string, seq<string>) -> Transport, parse: string -> Node)
    requires LedgerValid(s)
    ensures LedgerValid(Attempt(s, code, amount, plan, ticket, authorization, merchantConstant, unique, send, parse).state)
  {
    var g := Checks(s, amount, plan, ticket, authorization, merchantConstant, unique);
    ChecksKeepLedger(s, amount, plan, ticket, authorization, merchantConstant, unique);
    if g.Cleared? {
      ExchangeKeepsLedger(g.state, code, g.data, ticket, send, parse);
      assert Attempt(s, code, amount, plan, ticket, authorization, merchantConstant, unique, send, parse)
        == Exchange(g.state, code, g.data, ticket, send, parse);
    }
  }

  /** The exchange only adds ledger entries at the current index, and changes nothing else. */
  lemma ExchangeGrows(s: State, code: int, d: RequestData, ticket: Scalar,
    send: (string, string, seq<string>) -> Transport, parse: string -> Node)
    requires s.requestI.Some? && s.requestI.value !in s.errors
    ensures var e := Exchange(s, code, d, ticket, send, parse);
      && Grows(s, e.state, s.requestI.value)
      && e.state == s.(errors := e.state.errors, requests := e.state.requests, responses := e.state.responses)
  {
    ExchangeOutcomes(s, code, d, ticket, send, parse);
    var xml := Soap.Envelope(TransactionOf(s.props, s.unique, code, d, ticket));
    ReceiveOutcomes(RecordRequest(s, xml, Soap.Headers(xml)), send(Url(s), xml, Soap.Headers(xml)), parse);
  }

  /** An approved exchange leaves no row behind and has both its request and its response
      recorded. */
  lemma ExchangeApproved(s: State, code: int, d: RequestData, ticket: Scalar,
    send: (string, string, seq<string>) -> Transport, parse: string -> Node)
    requires s.requestI.Some? && s.requestI.value !in s.errors
    requires Exchange(s, code, d, ticket, send, parse).outcome.Approved?
    ensures var t := Exchange(s, code, d, ticket, send, parse).state;
      && t.requestI == s.requestI
      && s.requestI.value !in t.errors && s.requestI.value in t.requests && s.requestI.value in t.responses
  {
    ExchangeOutcomes(s, code, d, ticket, send, parse);
    var xml := Soap.Envelope(TransactionOf(s.props, s.unique, code, d, ticket));
    var s1 := RecordRequest(s, xml, Soap.Headers(xml));
    ReceiveOutcomes(s1, send(Url(s), xml, Soap.Headers(xml)), parse);
    ReceiveApproved(s1, send(Url(s), xml, Soap.Headers(xml)), parse);
  }

  /** An approved reply leaves no row behind and has its response recorded. */
  lemma ReceiveApproved(s: State, reply: Transport, parse: string -> Node)
    requires s.requestI.Some? && s.requestI.value !in s.errors
    requires Receive(s, reply, parse).outcome.Approved?
    ensures var t := Receive(s, reply, parse).state;
      s.requestI.value !in t.errors && s.requestI.value in t.responses
  {
    ReceiveOutcomes(s, reply, parse);
    match reply
    case Failure(_, _) =>
    case Delivered(body, contentType, _) =>
      Response.DecodedShapes(parse(Response.StripTagColons(body)));
  }

  /** An approved attempt passed both checks, left no error set behind and recorded both the
      request and the response; the lookups without an argument then find them, and report
      the error set as not found. */
  lemma ApprovedIsClean(s: State, code: int, amount: Scalar, plan: Scalar, ticket: Scalar, authorization: Scalar,
    merchantConstant: Option<Scalar>, unique: string,
    send: (string, string, seq<string>) -> Transport, parse: string -> Node)
    requires LedgerValid(s)
    requires Attempt(s, code, amount, plan, ticket, authorization, merchantConstant, unique, send, parse).outcome.Approved?
    ensures FieldErrors(amount, plan, ticket, authorization) == []
    ensures RequiredDataIsSet(s.props, merchantConstant).errors == []
    ensures var t := Attempt(s, code, amount, plan, ticket, authorization, merchantConstant, unique, send, parse).state;
      var i := NextIndex(s.requestI);
      && i !in t.errors && i in t.requests && i in t.responses
      && ErrorsFor(t, Null) == NotFound("Error set for request " + IntToString(i) + " not found.")
      && RequestFor(t, Null) == Found(t.requests[i])
      && ResponseFor(t, Null) == Found(t.responses[i])
  {
    ChecksFrame(s, amount, plan, ticket, authorization, merchantConstant, unique);
    match Checks(s, amount, plan, ticket, authorization, merchantConstant, unique)
    case Stopped(_) =>
    case Cleared(t, d) =>
      ExchangeApproved(t, code, d, ticket, send, parse);
      LookupLatest(Exchange(t, code, d, ticket, send, parse).state);
  }

  /** The envelope of a checked attempt carries the unique id, the rendered amount, the
      transaction code passed in, the padded authorization number and the ticket exactly as the
      caller gave it (self-closing when falsy), next to the normalised account fields. */
  lemma EnvelopeValues(p: Props, unique: string, code: int, amount: Scalar, plan: Scalar, authorization: Scalar,
    ticket: Scalar)
    requires AmountCheck(amount).error.None?
    requires IntCheck(authorization, AuthorizationRule).error.None?
    requires IntCheck(plan, PlanRule).error.None?
    ensures var t := TransactionOf(p, Str(unique), code, RequestValues(amount, plan, authorization), ticket);
      && t.uuid == unique
      && t.amount == Format.CurrencyDefault(amount)
      && t.transactionCode == IntToString(code)
      && t.planNumber == IntToString(Format.NumberInt(plan, true, None).value)
      && |t.authorizationNumber| == 6 && AllDigits(t.authorizationNumber)
      && DigitsValue(t.authorizationNumber) == Format.NumberInt(authorization, true, None).value
      && (t.ticketNumber.None? <==> !Truthy(ticket))
      && (Truthy(ticket) ==> t.ticketNumber == Some(ToStr(ticket)))
      && t.accountNumber == ToStr(p.accountNumber) && t.merchantNumber == ToStr(p.merchantNumber)
  {
    RequestValuesSound(amount, plan, authorization);
  }

  // ---------------------------------------------------------------------------------------
  // Properties of the lookups

  /** Without an argument, the lookups read the latest index. */
  lemma LookupLatest(s: State)
    ensures LookupIndex(Null, s.requestI) == s.requestI
    ensures ErrorsFor(s, Null) == if s.requestI.Some? && s.requestI.value in s.errors
      then Found(s.errors[s.requestI.value])
      else NotFound("Error set for request " + IndexText(s.requestI) + " not found.")
    ensures RequestFor(s, Null) == if s.requestI.Some? && s.requestI.value in s.requests
      then Found(s.requests[s.requestI.value])
      else NotFound("Request for request " + IndexText(s.requestI) + " not found.")
    ensures ResponseFor(s, Null) == if s.requestI.Some? && s.requestI.value in s.responses
      then Found(s.responses[s.requestI.value])
      else NotFound("Response for request " + IndexText(s.requestI) + " not found.")
  {
    Format.NumberNull(false, s.requestI);
  }

  /** An explicit index reads that index. */
  lemma LookupExplicit(k: nat, latest: Option<int>)
    requires k <= Format.PHP_INT_MAX
    ensures LookupIndex(Int(k), latest) == Some(k)
  {
    var s := NatToString(k);
    Format.FilterKeepsClass(s, Format.NumberChars(false));
    NatToStringRoundTrip(k);
    assert IsDigit(s[0]);
    Format.NumberIntDigits(Int(k), false, latest);
  }

  /** The sign of an index is dropped, so -k reads k. */
  lemma LookupNegative(k: nat, latest: Option<int>)
    requires 0 < k <= Format.PHP_INT_MAX
    ensures LookupIndex(Int(-(k as int)), latest) == Some(k)
  {
    var s := NatToString(k);
    assert ToStr(Int(-(k as int))) == "-" + s;
    Format.FilterAppend("-", s, Format.NumberChars(false));
    assert Format.Filter("-", Format.NumberChars(false)) == "";
    Format.FilterKeepsClass(s, Format.NumberChars(false));
    NatToStringRoundTrip(k);
    assert IsDigit(("-" + s)[1]);
    assert Format.HasDigit("-" + s);
    assert Format.Filter("-" + s, Format.NumberChars(false)) == s;
    Format.NumberIntDigits(Int(-(k as int)), false, latest);
    assert Format.NumberInt(Int(-(k as int)), false, latest) == Some(Format.IntCast(DigitsValue(s)));
  }
}
