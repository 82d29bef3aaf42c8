/** `WellsFargoC` (wells-fargo.class.php:23-573) as a class whose fields are the object's
    properties and whose methods assign them one statement at a time, as the source does.
    Each method is proved to leave the object in the state the matching function of module
    `Pipeline` computes from the state before the call; the properties of those functions are
    proved there. The transport (cURL) and the XML parser are parameters. */
module WellsFargo {
  import opened Php
  import opened Validation
  import opened Pipeline
  import Soap
  import Response
  import Arrays

  class Client {
    // settable properties
    var accountNumber: Scalar
    var dealerId: Scalar
    var locale: Scalar
    var merchantNumber: Scalar
    var password: Scalar
    var recordRequest: Scalar
    var recordResponse: Scalar
    var username: Scalar
    var wsdlUrlToUse: Scalar
    // set from the constants only
    var requestDirectory: Scalar
    var responseDirectory: Scalar
    // set by the checks and the requests
    var wsdlUrl: Option<string>
    var errors: map<int, map<string, Node>>
    var requests: map<int, RequestEntry>
    var responses: map<int, ResponseEntry>
    var requestI: Option<int>
    var unique: Scalar

    function Properties(): Props
      reads this
    {
      Props(accountNumber, dealerId, locale, merchantNumber, password, recordRequest, recordResponse,
        username, wsdlUrlToUse)
    }

    /** The object's fields as one value. */
    function Snapshot(): State
      reads this
    {
      State(Properties(), requestDirectory, responseDirectory, wsdlUrl, errors, requests, responses,
        requestI, unique)
    }

    /** `__construct($properties)`: the defaults, then the defined constants, then `setter`. */
    constructor(env: Env, properties: Option<seq<(string, Scalar)>>)
      ensures Snapshot() == Initial(env, properties)
      ensures LedgerValid(Snapshot())
    {
      // the declared defaults, each overridden by its constant when that is defined
      accountNumber := Null;
      dealerId := Null;
      locale := Null;
      merchantNumber := Null;
      password := Or(env.password, Null);
      recordRequest := Or(env.recordRequest, Str("directory"));
      recordResponse := Or(env.recordResponse, Str("directory"));
      username := Or(env.username, Null);
      wsdlUrlToUse := Or(env.wsdlUrlToUse, Null);
      requestDirectory := Or(env.requestDirectory, Null);
      responseDirectory := Or(env.responseDirectory, Null);
      wsdlUrl := None;
      errors := map[];
      requests := map[];
      responses := map[];
      requestI := None;
      unique := Null;
      new;
      Setter(properties);
      InitialState(env, properties);
    }

    /** `setter($properties)`: assigns each allowed property in the list, in order. */
    method Setter(properties: Option<seq<(string, Scalar)>>)
      modifies this
      ensures Snapshot() == old(Snapshot()).(props := Pipeline.Setter(old(Properties()), properties))
    {
      if properties.Some? {
        var list := properties.value;
        for k := 0 to |list|
          invariant Snapshot() == old(Snapshot()).(props := ApplyProperties(old(Properties()), list[..k]))
        {
          assert list[..k + 1][..k] == list[..k];
          Assign(list[k].0, list[k].1);
        }
        assert list[..|list|] == list;
      }
    }

    /** `$this->{$property} = $value` for a property that passed the allow-list test. */
    method Assign(name: string, value: Scalar)
      modifies this
      ensures Snapshot() == old(Snapshot()).(props := SetProperty(old(Properties()), name, value))
    {
      if name == "accountNumber" {
        accountNumber := value;
      } else if name == "dealerId" {
        dealerId := value;
      } else if name == "locale" {
        locale := value;
      } else if name == "merchantNumber" {
        merchantNumber := value;
      } else if name == "password" {
        password := value;
      } else if name == "recordRequest" {
        recordRequest := value;
      } else if name == "recordResponse" {
        recordResponse := value;
      } else if name == "username" {
        username := value;
      } else if name == "wsdlUrlToUse" {
        wsdlUrlToUse := value;
      }
    }

    /** `charge($amount, $planNumber, $ticketNumber)`: transaction code 1 with the default
        authorization number '000000'. */
    method Charge(amount: Scalar, plan: Scalar, ticket: Scalar, merchantConstant: Option<Scalar>, uniqueId: string,
      send: (string, string, seq<string>) -> Transport, parse: string -> Node) returns (r: Response.Outcome)
      modifies this
      ensures Step(Snapshot(), r)
        == Attempt(old(Snapshot()), 1, amount, plan, ticket, Str("000000"), merchantConstant, uniqueId, send, parse)
      ensures LedgerValid(old(Snapshot())) ==> LedgerValid(Snapshot())
    {
      r := SendRequest(1, amount, plan, ticket, Str("000000"), merchantConstant, uniqueId, send, parse);
      if LedgerValid(old(Snapshot())) {
        AttemptKeepsLedger(old(Snapshot()), 1, amount, plan, ticket, Str("000000"), merchantConstant, uniqueId, send, parse);
      }
    }

    /** `refund($amount, $planNumber, $ticketNumber)`: transaction code 4 with the default
        authorization number '000000'. */
    method Refund(amount: Scalar, plan: Scalar, ticket: Scalar, merchantConstant: Option<Scalar>, uniqueId: string,
      send: (string, string, seq<string>) -> Transport, parse: string -> Node) returns (r: Response.Outcome)
      modifies this
      ensures Step(Snapshot(), r)
        == Attempt(old(Snapshot()), 4, amount, plan, ticket, Str("000000"), merchantConstant, uniqueId, send, parse)
      ensures LedgerValid(old(Snapshot())) ==> LedgerValid(Snapshot())
    {
      r := SendRequest(4, amount, plan, ticket, Str("000000"), merchantConstant, uniqueId, send, parse);
      if LedgerValid(old(Snapshot())) {
        AttemptKeepsLedger(old(Snapshot()), 4, amount, plan, ticket, Str("000000"), merchantConstant, uniqueId, send, parse);
      }
    }

    /** `sendRequest`. `merchantConstant` is `WELLS_FARGO_MERCHANT_NUMBER` when defined,
        `uniqueId` the id derived from the clock, `send` the cURL call and `parse` the XML
        decoder. */
    method SendRequest(code: int, amount: Scalar, plan: Scalar, ticket: Scalar, authorization: Scalar,
      merchantConstant: Option<Scalar>, uniqueId: string,
      send: (string, string, seq<string>) -> Transport, parse: string -> Node) returns (r: Response.Outcome)
      modifies this
      ensures Step(Snapshot(), r)
        == Attempt(old(Snapshot()), code, amount, plan, ticket, authorization, merchantConstant, uniqueId, send, parse)
    {
      var data := CheckRequest(amount, plan, ticket, authorization, merchantConstant, uniqueId);
      if data.None? {
        return Response.Rejected;
      }
      r := Transmit(code, data.value, ticket, send, parse);
    }

    /** The first half of `sendRequest`: the next index, the unique id, and the condition
        `prepareRequestData(...) && requiredDataIsSet()`. The data is returned when both
        checks passed. */
    method CheckRequest(amount: Scalar, plan: Scalar, ticket: Scalar, authorization: Scalar,
      merchantConstant: Option<Scalar>, uniqueId: string) returns (data: Option<RequestData>)
      modifies this
      ensures var g := Checks(old(Snapshot()), amount, plan, ticket, authorization, merchantConstant, uniqueId);
        Snapshot() == g.state && data == (if g.Cleared? then Some(g.data) else None)
      ensures requestI == Some(NextIndex(old(requestI)))
    {
      ghost var s := Snapshot();
      requestI := Some(NextIndex(requestI));
      unique := Str(uniqueId);
      data := PrepareRequestData(amount, plan, ticket, authorization);
      ghost var p := PrepareStep(Begin(s, uniqueId), amount, plan, ticket, authorization);
      if data.None? {
        return;
      }
      var ok := RequiredDataIsSet(merchantConstant);
      ghost var c := AccountStep(p.state, merchantConstant);
      if !ok {
        data := None;
      }
    }

    /** The second half of `sendRequest`, once both checks passed: build the envelope and the
        headers, record them, call the transport and handle what it returns. */
    method Transmit(code: int, d: RequestData, ticket: Scalar,
      send: (string, string, seq<string>) -> Transport, parse: string -> Node) returns (r: Response.Outcome)
      requires requestI.Some?
      modifies this
      ensures Step(Snapshot(), r) == Exchange(old(Snapshot()), code, d, ticket, send, parse)
    {
      var xml := Soap.Envelope(TransactionOf(Properties(), unique, code, d, ticket));
      var headers := Soap.Headers(xml);
      var url := Url(Snapshot());
      RecordRequest(xml, headers);
      r := Receive(send(url, xml, headers), parse);
    }

    /** What `sendRequest` does with the transport's reply once the request is recorded. */
    method Receive(reply: Transport, parse: string -> Node) returns (r: Response.Outcome)
      requires requestI.Some?
      modifies this
      ensures Step(Snapshot(), r) == Pipeline.Receive(old(Snapshot()), reply, parse)
    {
      match reply
      case Failure(error, info) =>
        RecordResponse(error, info);
        AddError("soap", Text(error));
        r := Response.Rejected;
      case Delivered(body, contentType, info) =>
        RecordResponse(body, info);
        if Response.IsXmlContentType(contentType) {
          r := Xml2Dictionary(body, parse);
        } else {
          AddError("response", Text(body));
          r := Response.Rejected;
        }
    }

    /** `$this->errors[$this->requestI][$key] = $value`. */
    method AddError(key: string, value: Node)
      requires requestI.Some?
      modifies this
      ensures Snapshot() == Write(old(Snapshot()), [(key, value)])
      ensures requestI == old(requestI)
    {
      var i := requestI.value;
      var row := if i in errors then errors[i] else map[];
      errors := errors[i := row[key := value]];
      WriteOne(old(Snapshot()), key, value);
    }

    /** `if(<message>) $this->errors[$this->requestI][$key] = <message>`: one check's message,
        if it has one. */
    method Report(key: string, error: Option<string>)
      requires requestI.Some?
      modifies this
      ensures Snapshot() == Write(old(Snapshot()), Texts(Entry(key, error)))
      ensures requestI == old(requestI)
    {
      TextsEntry(key, error);
      if error.Some? {
        AddError(key, Text(error.value));
      }
    }

    /** `prepareRequestData`: the four field checks, each writing its message, then the data
        unless the row is filled. */
    method PrepareRequestData(amount: Scalar, plan: Scalar, ticket: Scalar, authorization: Scalar)
      returns (data: Option<RequestData>)
      requires requestI.Some?
      modifies this
      ensures Staged(Snapshot(), data) == PrepareStep(old(Snapshot()), amount, plan, ticket, authorization)
      ensures requestI == old(requestI)
    {
      FieldSteps(Snapshot(), amount, plan, ticket, authorization);
      var a := AmountCheck(amount);
      Report("amount", a.error);
      var z := IntCheck(authorization, AuthorizationRule);
      Report("authorizationNumber", z.error);
      var p := IntCheck(plan, PlanRule);
      Report("planNumber", p.error);
      var t := TicketError(ticket);
      Report("ticketNumber", t);
      if requestI.value in errors && errors[requestI.value] != map[] {
        return None;
      }
      return Some(RequestData(a.value, PadLeft(ToStr(z.value), 6, '0'), p.value, Null));
    }

    /** `requiredDataIsSet`: the account checks, in order, overwriting the account number, the
        locale and the merchant number, then the endpoint; passes unless the row is filled. */
    method RequiredDataIsSet(merchantConstant: Option<Scalar>) returns (ok: bool)
      requires requestI.Some?
      modifies this
      ensures Checked(Snapshot(), ok) == AccountStep(old(Snapshot()), merchantConstant)
    {
      AccountSteps(Snapshot(), merchantConstant);
      CheckAccountNumberAndLocale();
      CheckMerchantNumber(merchantConstant);
      CheckSecrets();
      wsdlUrl := Some(Endpoint(wsdlUrlToUse));
      ok := !(requestI.value in errors && errors[requestI.value] != map[]);
    }

    /** The account number and locale checks of `requiredDataIsSet`. */
    method CheckAccountNumberAndLocale()
      requires requestI.Some?
      modifies this
      ensures var a := IntCheck(old(accountNumber), AccountRule);
        var l := LocaleCheck(old(locale));
        Snapshot() == Write(old(Snapshot()), Texts(Entry("accountNumber", a.error)) + Texts(Entry("locale", l.error)))
          .(props := old(Properties()).(accountNumber := a.value, locale := l.value))
    {
      ghost var s := Snapshot();
      var a := IntCheck(accountNumber, AccountRule);
      accountNumber := a.value;
      Report("accountNumber", a.error);
      ghost var w := Texts(Entry("accountNumber", a.error));
      WriteElsewhere(s, w, s.props.(accountNumber := a.value), s.wsdlUrl);
      var l := LocaleCheck(locale);
      locale := l.value;
      ghost var p := s.props.(accountNumber := a.value, locale := l.value);
      WriteElsewhere(s, w, p, s.wsdlUrl);
      Report("locale", l.error);
      WriteElsewhere(Write(s, w), Texts(Entry("locale", l.error)), p, s.wsdlUrl);
      WriteAppend(s, w, Texts(Entry("locale", l.error)));
    }

    /** The merchant number check of `requiredDataIsSet`, with the constant as fallback. */
    method CheckMerchantNumber(merchantConstant: Option<Scalar>)
      requires requestI.Some?
      modifies this
      ensures var m := IntCheck(MerchantSource(old(merchantNumber), merchantConstant), MerchantRule);
        Snapshot() == Write(old(Snapshot()), Texts(Entry("merchantNumber", m.error)))
          .(props := old(Properties()).(merchantNumber := m.value))
    {
      ghost var s := Snapshot();
      merchantNumber := MerchantSource(merchantNumber, merchantConstant);
      var m := IntCheck(merchantNumber, MerchantRule);
      merchantNumber := m.value;
      WriteElsewhere(s, [], s.props.(merchantNumber := m.value), s.wsdlUrl);
      Report("merchantNumber", m.error);
      WriteElsewhere(s, Texts(Entry("merchantNumber", m.error)), s.props.(merchantNumber := m.value), s.wsdlUrl);
    }

    /** The password and username checks of `requiredDataIsSet`. */
    method CheckSecrets()
      requires requestI.Some?
      modifies this
      ensures Snapshot() == Write(old(Snapshot()), Texts(Entry("password", SecretError(old(password), "password")))
        + Texts(Entry("username", SecretError(old(username), "username"))))
    {
      ghost var s := Snapshot();
      Report("password", SecretError(password, "password"));
      Report("username", SecretError(username, "username"));
      WriteAppend(s, Texts(Entry("password", SecretError(password, "password"))),
        Texts(Entry("username", SecretError(username, "username"))));
    }

    /** The in-memory half of `recordRequest($request, $headers)`. */
    method RecordRequest(request: string, headers: seq<string>)
      requires requestI.Some?
      modifies this
      ensures Snapshot() == Pipeline.RecordRequest(old(Snapshot()), request, headers)
    {
      requests := requests[requestI.value := RequestEntry(request, headers)];
    }

    /** The in-memory half of `recordResponse($response, $headers)`. */
    method RecordResponse(response: string, headers: Node)
      requires requestI.Some?
      modifies this
      ensures Snapshot() == Pipeline.RecordResponse(old(Snapshot()), response, headers)
    {
      responses := responses[requestI.value := ResponseEntry(response, headers)];
    }

    /** `xml2Dictionary($response)`: strip the tag colons, decode, extract the payload with
        `array_value`, then read the status or the faults, writing to the current row. */
    method Xml2Dictionary(body: string, parse: string -> Node) returns (r: Response.Outcome)
      requires requestI.Some?
      modifies this
      ensures Step(Snapshot(), r) == Decode(old(Snapshot()), body, parse)
    {
      var tree := parse(Response.StripTagColons(body));
      Arrays.ReturnPath();
      var extracted := Arrays.ArrayValue(Arrays.ReturnPathString, tree, Nil);
      if extracted.Fatal? {
        return Response.Thrown(extracted.reason);
      }
      var response := extracted.value;
      if Response.FaultsEmpty(response) {
        r := StatusSwitch(response);
      } else {
        r := FaultRows(response);
      }
    }

    /** The `switch` on `transactionStatus` when there are no faults. */
    method StatusSwitch(response: Node) returns (r: Response.Outcome)
      requires requestI.Some?
      modifies this
      ensures Snapshot() == Write(old(Snapshot()), Response.StatusVerdict(response).writes)
      ensures r == Response.StatusVerdict(response).outcome
    {
      Arrays.StatusPath();
      Response.StatusRead(response);
      var status := Arrays.ArrayValue("transactionStatus", response, Nil);
      if status.value == Text("A1") {
        return Response.Approved(response);
      } else if status.value == Text("A0") {
        AddError("returnStatus", Text(Response.DeclineMessage));
      } else if status.value == Text("A2") || status.value == Text("A3") {
        Arrays.MessagePath();
        var message := Arrays.ArrayValue("transactionMessage", response, Nil);
        AddError("returnStatus", message.value);
      }
      return Response.Rejected;
    }

    /** The faults: a list is walked element by element, anything else is one fault. */
    method FaultRows(response: Node) returns (r: Response.Outcome)
      requires requestI.Some?
      modifies this
      ensures Snapshot() == Write(old(Snapshot()), Response.FaultVerdict(response).writes)
      ensures r == Response.FaultVerdict(response).outcome
    {
      Arrays.FaultsPath();
      var faults := Arrays.ArrayValue("[faults][faults]", response, Nil);
      if faults.Fatal? {
        return Response.Thrown(faults.reason);
      }
      var f := faults.value;
      if !Response.IssetFirst(f) {
        var entry := Response.FaultEntry(f);
        if entry.Fatal? {
          return Response.Thrown(entry.reason);
        }
        AddError(entry.value.0, entry.value.1);
        return Response.Rejected;
      }
      if !f.Arr? {
        return Response.Thrown("count(): Argument #1 ($value) must be of type Countable|array, string given");
      }
      r := FaultList(f.m);
    }

    /** `for($i=0, $len=count($faults); $i<$len; ++$i)` over a list of faults. */
    method FaultList(m: map<string, Node>) returns (r: Response.Outcome)
      requires requestI.Some?
      modifies this
      ensures Snapshot() == Write(old(Snapshot()), Response.ScanFaults(m, |m|).writes)
      ensures r == Response.ScanFaults(m, |m|).outcome
    {
      ghost var s := Snapshot();
      var len := |m|;
      for i := 0 to len
        invariant requestI == s.requestI
        invariant !Response.ScanFaults(m, i).outcome.Thrown?
        invariant Snapshot() == Write(s, Response.ScanFaults(m, i).writes)
      {
        var entry := Response.FaultEntry(Response.Element(m, i));
        if entry.Fatal? {
          Response.ScanStaysThrown(m, i + 1, len);
          return Response.Thrown(entry.reason);
        }
        AddError(entry.value.0, entry.value.1);
        WriteAppend(s, Response.ScanFaults(m, i).writes, [entry.value]);
      }
      return Response.Rejected;
    }

    /** `getErrors($i)`: without an argument the row of the latest request, with an index
        that row; the not-found text carries the index looked up. */
    function GetErrors(i: Scalar): (r: Lookup<map<string, Node>>)
      reads this
      ensures i == Null ==> r == if requestI.Some? && requestI.value in errors
        then Found(errors[requestI.value])
        else NotFound("Error set for request " + IndexText(requestI) + " not found.")
      ensures i.Int? && 0 <= i.i <= Format.PHP_INT_MAX ==> r == if i.i in errors
        then Found(errors[i.i])
        else NotFound("Error set for request " + IntToString(i.i) + " not found.")
    {
      LookupLatest(Snapshot());
      if i.Int? && 0 <= i.i <= Format.PHP_INT_MAX then
        LookupExplicit(i.i, requestI);
        ErrorsFor(Snapshot(), i)
      else ErrorsFor(Snapshot(), i)
    }

    /** `getRequest($i)`: the request and headers recorded for the latest or the given index. */
    function GetRequest(i: Scalar): (r: Lookup<RequestEntry>)
      reads this
      ensures i == Null ==> r == if requestI.Some? && requestI.value in requests
        then Found(requests[requestI.value])
        else NotFound("Request for request " + IndexText(requestI) + " not found.")
      ensures i.Int? && 0 <= i.i <= Format.PHP_INT_MAX ==> r == if i.i in requests
        then Found(requests[i.i])
        else NotFound("Request for request " + IntToString(i.i) + " not found.")
    {
      LookupLatest(Snapshot());
      if i.Int? && 0 <= i.i <= Format.PHP_INT_MAX then
        LookupExplicit(i.i, requestI);
        RequestFor(Snapshot(), i)
      else RequestFor(Snapshot(), i)
    }

    /** `getResponse($i)`: the response and transfer information recorded for the latest or
        the given index. */
    function GetResponse(i: Scalar): (r: Lookup<ResponseEntry>)
      reads this
      ensures i == Null ==> r == if requestI.Some? && requestI.value in responses
        then Found(responses[requestI.value])
        else NotFound("Response for request " + IndexText(requestI) + " not found.")
      ensures i.Int? && 0 <= i.i <= Format.PHP_INT_MAX ==> r == if i.i in responses
        then Found(responses[i.i])
        else NotFound("Response for request " + IntToString(i.i) + " not found.")
    {
      LookupLatest(Snapshot());
      if i.Int? && 0 <= i.i <= Format.PHP_INT_MAX then
        LookupExplicit(i.i, requestI);
        ResponseFor(Snapshot(), i)
      else ResponseFor(Snapshot(), i)
    }
  }

  /** The field messages as the writes `prepareRequestData` makes. */
  lemma FieldTexts(amount: Scalar, plan: Scalar, ticket: Scalar, authorization: Scalar)
    ensures Texts(FieldErrors(amount, plan, ticket, authorization))
      == Texts(Entry("amount", AmountCheck(amount).error))
       + Texts(Entry("authorizationNumber", IntCheck(authorization, AuthorizationRule).error))
       + Texts(Entry("planNumber", IntCheck(plan, PlanRule).error))
       + Texts(Entry("ticketNumber", TicketError(ticket)))
  {
    var e1 := Entry("amount", AmountCheck(amount).error);
    var e2 := Entry("authorizationNumber", IntCheck(authorization, AuthorizationRule).error);
    var e3 := Entry("planNumber", IntCheck(plan, PlanRule).error);
    var e4 := Entry("ticketNumber", TicketError(ticket));
    TextsAppend(e1, e2);
    TextsAppend(e1 + e2, e3);
    TextsAppend(e1 + e2 + e3, e4);
  }

  /** `prepareRequestData` performed one field at a time, as the class does it, arrives where
      the field step does. */
  lemma FieldSteps(s: State, amount: Scalar, plan: Scalar, ticket: Scalar, authorization: Scalar)
    requires s.requestI.Some?
    ensures var w1 := Texts(Entry("amount", AmountCheck(amount).error));
      var w2 := Texts(Entry("authorizationNumber", IntCheck(authorization, AuthorizationRule).error));
      var w3 := Texts(Entry("planNumber", IntCheck(plan, PlanRule).error));
      var w4 := Texts(Entry("ticketNumber", TicketError(ticket)));
      Write(Write(Write(Write(s, w1), w2), w3), w4) == Write(s, Texts(FieldErrors(amount, plan, ticket, authorization)))
  {
    var w1 := Texts(Entry("amount", AmountCheck(amount).error));
    var w2 := Texts(Entry("authorizationNumber", IntCheck(authorization, AuthorizationRule).error));
    var w3 := Texts(Entry("planNumber", IntCheck(plan, PlanRule).error));
    var w4 := Texts(Entry("ticketNumber", TicketError(ticket)));
    WriteAppend(s, w1, w2);
    WriteAppend(s, w1 + w2, w3);
    WriteAppend(s, w1 + w2 + w3, w4);
    FieldTexts(amount, plan, ticket, authorization);
  }

  /** The account messages as the writes `requiredDataIsSet` makes, grouped as its three
      steps make them. */
  lemma AccountTexts(p: Props, merchantConstant: Option<Scalar>)
    ensures Texts(Validation.RequiredDataIsSet(p, merchantConstant).errors)
      == (Texts(Entry("accountNumber", IntCheck(p.accountNumber, AccountRule).error))
          + Texts(Entry("locale", LocaleCheck(p.locale).error)))
       + Texts(Entry("merchantNumber", IntCheck(MerchantSource(p.merchantNumber, merchantConstant), MerchantRule).error))
       + (Texts(Entry("password", SecretError(p.password, "password")))
          + Texts(Entry("username", SecretError(p.username, "username"))))
  {
    var e1 := Entry("accountNumber", IntCheck(p.accountNumber, AccountRule).error);
    var e2 := Entry("locale", LocaleCheck(p.locale).error);
    var e3 := Entry("merchantNumber", IntCheck(MerchantSource(p.merchantNumber, merchantConstant), MerchantRule).error);
    var e4 := Entry("password", SecretError(p.password, "password"));
    var e5 := Entry("username", SecretError(p.username, "username"));
    TextsAppend(e1, e2);
    TextsAppend(e1 + e2, e3);
    TextsAppend(e1 + e2 + e3, e4);
    TextsAppend(e1 + e2 + e3 + e4, e5);
    var t1, t2, t3, t4, t5 := Texts(e1), Texts(e2), Texts(e3), Texts(e4), Texts(e5);
    assert t1 + t2 + t3 + t4 + t5 == (t1 + t2) + t3 + (t4 + t5);
  }

  /** `requiredDataIsSet` performed one check at a time, as the class does it, arrives where
      the account step does. */
  lemma AccountSteps(s: State, merchantConstant: Option<Scalar>)
    requires s.requestI.Some?
    ensures var p := s.props;
      var a := IntCheck(p.accountNumber, AccountRule);
      var l := LocaleCheck(p.locale);
      var m := IntCheck(MerchantSource(p.merchantNumber, merchantConstant), MerchantRule);
      var w1 := Texts(Entry("accountNumber", a.error)) + Texts(Entry("locale", l.error));
      var w2 := Texts(Entry("merchantNumber", m.error));
      var w3 := Texts(Entry("password", SecretError(p.password, "password")))
        + Texts(Entry("username", SecretError(p.username, "username")));
      var p1 := p.(accountNumber := a.value, locale := l.value);
      var s2 := Write(Write(s, w1).(props := p1), w2).(props := p1.(merchantNumber := m.value));
      AccountStep(s, merchantConstant).state == Write(s2, w3).(wsdlUrl := Some(Endpoint(p.wsdlUrlToUse)))
  {
    var p := s.props;
    var target := Validation.RequiredDataIsSet(p, merchantConstant);
    var a := IntCheck(p.accountNumber, AccountRule);
    var l := LocaleCheck(p.locale);
    var m := IntCheck(MerchantSource(p.merchantNumber, merchantConstant), MerchantRule);
    var w1 := Texts(Entry("accountNumber", a.error)) + Texts(Entry("locale", l.error));
    var w2 := Texts(Entry("merchantNumber", m.error));
    var w3 := Texts(Entry("password", SecretError(p.password, "password")))
      + Texts(Entry("username", SecretError(p.username, "username")));
    var p1 := p.(accountNumber := a.value, locale := l.value);
    WriteElsewhere(Write(s, w1), w2, p1, s.wsdlUrl);
    WriteAppend(s, w1, w2);
    WriteElsewhere(Write(s, w1 + w2), w3, target.props, s.wsdlUrl);
    WriteAppend(s, w1 + w2, w3);
    AccountTexts(p, merchantConstant);
    WriteElsewhere(s, w1 + w2 + w3, target.props, Some(target.wsdlUrl));
  }
}
