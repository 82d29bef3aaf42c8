/** How `WellsFargoC::sendRequest` and `xml2Dictionary` read a delivered response
    (wells-fargo.class.php:500-503, 517-572): the content-type test, the regex that removes
    namespace colons from tag names, and the classification of the decoded payload into
    approved, declined, a status message or a list of faults. The XML parser itself is not
    modelled: it is a function from the rewritten text to a `Node` tree, given by the caller. */
module Response {
  import opened Php
  import Format
  import opened Arrays

  // ---------------------------------------------------------------------------------------
  // preg_replace('/(<\/?)(\w+):([^>]*>)/', '$1$2$3', $response)

  /** The end of the run of word characters starting at `i`. */
  function WordEnd(s: string, i: nat): (r: nat)
    requires i <= |s|
    ensures i <= r <= |s|
    ensures forall j :: i <= j < r ==> Format.IsWordChar(s[j])
    ensures r == |s| || !Format.IsWordChar(s[r])
    decreases |s| - i
  {
    if i < |s| && Format.IsWordChar(s[i]) then WordEnd(s, i + 1) else i
  }

  /** The first '>' at or after `i`. */
  function NextGt(s: string, i: nat): (r: Option<nat>)
    requires i <= |s|
    ensures r.Some? ==> i <= r.value < |s| && s[r.value] == '>'
    ensures r.Some? ==> forall j :: i <= j < r.value ==> s[j] != '>'
    ensures r.None? ==> forall j :: i <= j < |s| ==> s[j] != '>'
    decreases |s| - i
  {
    if i == |s| then None else if s[i] == '>' then Some(i) else NextGt(s, i + 1)
  }

  /** Where the pattern matches at the start of `s`: the index of the colon after the tag
      name and of the first '>' after it. The name is a maximal run of word characters
      after '<' or '</', so backtracking cannot find a shorter one that a colon follows. */
  function TagColon(s: string): (r: Option<(nat, nat)>)
    ensures r.Some? ==> 0 < r.value.0 < r.value.1 < |s| && s[r.value.0] == ':' && s[r.value.1] == '>'
  {
    if |s| == 0 || s[0] != '<' then None
    else
      var start := if |s| > 1 && s[1] == '/' then 2 else 1;
      var w := WordEnd(s, start);
      if w == start || w == |s| || s[w] != ':' then None
      else match NextGt(s, w + 1)
        case None => None
        case Some(g) => Some((w, g))
  }

  /** The rewrite applied to the response text before it is parsed: in every tag, the colon
      after the namespace prefix of the element name is deleted (`soapenv:Body` becomes
      `soapenvBody`); colons in attributes are left alone. Matching resumes after each match. */
  function StripTagColons(s: string): string
    decreases |s|
  {
    if s == [] then []
    else match TagColon(s)
      case Some((w, g)) => s[..w] + s[w + 1..g + 1] + StripTagColons(s[g + 1..])
      case None => [s[0]] + StripTagColons(s[1..])
  }

  /** The text with every colon erased. */
  function Uncolon(s: string): (r: string)
    ensures |r| <= |s|
  {
    if s == [] then [] else (if s[0] == ':' then [] else [s[0]]) + Uncolon(s[1..])
  }

  lemma {:induction false} UncolonAppend(a: string, b: string)
    ensures Uncolon(a + b) == Uncolon(a) + Uncolon(b)
  {
    if a == [] {
      assert a + b == b;
    } else {
      assert (a + b)[1..] == a[1..] + b;
      UncolonAppend(a[1..], b);
    }
  }

  /** The rewrite only ever deletes colons: with colons erased, input and output agree. */
  lemma {:induction false} StripOnlyColons(s: string)
    ensures Uncolon(StripTagColons(s)) == Uncolon(s)
    ensures |StripTagColons(s)| <= |s|
    decreases |s|
  {
    if s != [] {
      match TagColon(s)
      case Some((w, g)) =>
        var rest := s[g + 1..];
        StripOnlyColons(rest);
        UncolonAppend(s[..w] + s[w + 1..g + 1], StripTagColons(rest));
        UncolonDrop(s[..g + 1], w);
        assert s[..g + 1][..w] == s[..w] && s[..g + 1][w + 1..] == s[w + 1..g + 1];
        UncolonAppend(s[..g + 1], rest);
        assert s == s[..g + 1] + rest;
      case None =>
        StripOnlyColons(s[1..]);
        assert s == [s[0]] + s[1..];
        UncolonAppend([s[0]], StripTagColons(s[1..]));
        UncolonAppend([s[0]], s[1..]);
    }
  }

  /** Deleting one colon does not change the colon-free text. */
  lemma UncolonDrop(s: string, w: nat)
    requires w < |s| && s[w] == ':'
    ensures Uncolon(s[..w] + s[w + 1..]) == Uncolon(s)
  {
    assert s == s[..w] + ([':'] + s[w + 1..]);
    UncolonAppend(s[..w], [':'] + s[w + 1..]);
    UncolonAppend([':'], s[w + 1..]);
    UncolonAppend(s[..w], s[w + 1..]);
  }

  /** Text without any '<' is left unchanged. */
  lemma {:induction false} StripNoTags(s: string)
    requires '<' !in s
    ensures StripTagColons(s) == s
    decreases |s|
  {
    if s != [] {
      assert s == [s[0]] + s[1..];
      StripNoTags(s[1..]);
    }
  }

  /** The namespace colon of an element name goes. */
  lemma StripOpenTag()
    ensures StripTagColons("<a:b>") == "<ab>"
  {
    assert WordEnd("<a:b>", 1) == 2;
    assert NextGt("<a:b>", 3) == Some(4);
    assert "<a:b>"[..2] + "<a:b>"[3..5] == "<ab>";
    StripNoTags("<a:b>"[5..]);
  }

  lemma StripCloseTag()
    ensures StripTagColons("</a:b>") == "</ab>"
  {
    assert WordEnd("</a:b>", 2) == 3;
    assert NextGt("</a:b>", 4) == Some(5);
    assert "</a:b>"[..3] + "</a:b>"[4..6] == "</ab>";
    StripNoTags("</a:b>"[6..]);
  }

  /** `WordEnd` stops at the end of a given run of word characters. */
  lemma {:induction false} WordEndAt(s: string, i: nat, e: nat)
    requires i <= e <= |s|
    requires forall j :: i <= j < e ==> Format.IsWordChar(s[j])
    requires e == |s| || !Format.IsWordChar(s[e])
    ensures WordEnd(s, i) == e
    decreases e - i
  {
    if i < e {
      WordEndAt(s, i + 1, e);
    }
  }

  /** `NextGt` finds the first '>' of a given stretch. */
  lemma {:induction false} NextGtAt(s: string, i: nat, g: nat)
    requires i <= g < |s| && s[g] == '>'
    requires forall j :: i <= j < g ==> s[j] != '>'
    ensures NextGt(s, i) == Some(g)
    decreases g - i
  {
    if i < g {
      NextGtAt(s, i + 1, g);
    }
  }

  /** Where the pattern matches a tag whose element name is followed by a colon. */
  lemma TagColonAt(s: string, open: string, name: string, rest: string)
    requires open == "<" || open == "</"
    requires |name| > 0 && forall j :: 0 <= j < |name| ==> Format.IsWordChar(name[j])
    requires forall j :: 0 <= j < |rest| ==> rest[j] != '>'
    requires |s| > |open| + |name| + |rest| + 1
    requires s[..|open| + |name| + |rest| + 2] == open + name + ":" + rest + ">"
    ensures TagColon(s) == Some((|open| + |name|, |open| + |name| + 1 + |rest|))
  {
    var w := |open| + |name|;
    var g := w + 1 + |rest|;
    var p := s[..g + 1];
    assert forall j :: 0 <= j <= g ==> s[j] == p[j];
    assert forall j :: |open| <= j < w ==> p[j] == name[j - |open|];
    assert forall j :: w + 1 <= j < g ==> p[j] == rest[j - w - 1];
    assert p[w] == ':' && p[g] == '>' && p[0] == '<';
    assert |s| > 1 && s[1] == '/' <==> open == "</";
    WordEndAt(s, |open|, w);
    NextGtAt(s, w + 1, g);
  }

  /** One match of the pattern at the start of the text. */
  lemma StripAt(s: string, w: nat, g: nat)
    requires TagColon(s) == Some((w, g))
    ensures StripTagColons(s) == s[..w] + s[w + 1..g + 1] + StripTagColons(s[g + 1..])
  {
  }

  /** The pieces of a tag followed by more text. */
  lemma TagPieces(pre: string, rest: string, t: string)
    ensures (pre + ":" + rest + ">" + t)[..|pre|] == pre
    ensures (pre + ":" + rest + ">" + t)[|pre| + 1..|pre| + |rest| + 2] == rest + ">"
    ensures (pre + ":" + rest + ">" + t)[|pre| + |rest| + 2..] == t
    ensures (pre + ":" + rest + ">" + t)[..|pre| + |rest| + 2] == pre + ":" + rest + ">"
  {
  }

  /** In a tag whose element name is followed by a colon, exactly that colon goes: the colons
      in the rest of the tag (its attributes) stay, and matching resumes after the tag's '>'. */
  lemma StripKeepsAttributes(open: string, name: string, rest: string, t: string)
    requires open == "<" || open == "</"
    requires |name| > 0 && forall j :: 0 <= j < |name| ==> Format.IsWordChar(name[j])
    requires forall j :: 0 <= j < |rest| ==> rest[j] != '>'
    ensures StripTagColons(open + name + ":" + rest + ">" + t) == open + name + rest + ">" + StripTagColons(t)
  {
    var pre := open + name;
    var s := pre + ":" + rest + ">" + t;
    TagPieces(pre, rest, t);
    TagColonAt(s, open, name, rest);
    StripAt(s, |pre|, |pre| + |rest| + 1);
    assert pre + (rest + ">") == pre + rest + ">";
  }

  /** Text with no '>' is never rewritten: every match ends with one. */
  lemma {:induction false} StripUnclosed(s: string)
    requires forall j :: 0 <= j < |s| ==> s[j] != '>'
    ensures StripTagColons(s) == s
    decreases |s|
  {
    if s != [] {
      assert TagColon(s).None?;
      assert s == [s[0]] + s[1..];
      StripUnclosed(s[1..]);
    }
  }

  // ---------------------------------------------------------------------------------------
  // preg_match('/text\/xml/i', $contentType)

  predicate TextXmlAt(s: string, i: nat)
  {
    i + 8 <= |s| && LowerAscii(s[i..i + 8]) == "text/xml"
  }

  /** The left-to-right search `preg_match` performs, from position `i`. */
  function SearchTextXml(s: string, i: nat): (r: bool)
    ensures r <==> exists j :: i <= j && TextXmlAt(s, j)
    decreases |s| - i
  {
    if i + 8 > |s| then false
    else if TextXmlAt(s, i) then true
    else
      var r := SearchTextXml(s, i + 1);
      assert forall j :: i <= j && TextXmlAt(s, j) ==> j == i || i + 1 <= j;
      r
  }

  /** Whether the content type reported by the transport mentions `text/xml` in any letter
      case. An absent content type (`null`) never matches. */
  predicate IsXmlContentType(contentType: Option<string>)
  {
    contentType.Some? && SearchTextXml(contentType.value, 0)
  }

  /** The test looks anywhere in the header value and ignores letter case. */
  lemma XmlContentTypeAnywhere(prefix: string, suffix: string)
    ensures IsXmlContentType(Some(prefix + "TEXT/XML" + suffix))
    ensures !IsXmlContentType(None)
  {
    var s := prefix + "TEXT/XML" + suffix;
    assert s[|prefix|..|prefix| + 8] == "TEXT/XML";
    assert LowerAscii("TEXT/XML") == "text/xml";
    assert TextXmlAt(s, |prefix|);
  }

  // ---------------------------------------------------------------------------------------
  // Classification of the decoded payload

  /** How `xml2Dictionary` ends: it returns the payload, returns false, or PHP 8 throws. */
  datatype Outcome = Approved(payload: Node) | Rejected | Thrown(reason: string)

  /** The assignments to `errors[requestI][key]` in the order they happen, and the outcome. */
  datatype Decoded = Decoded(writes: seq<(string, Node)>, outcome: Outcome)

  const DeclineMessage: string :=
    "Transaction was declined.  Please verify the account number or use a different one and try again."

  /** PHP's `empty()` of a decoded node. */
  predicate IsEmpty(n: Node)
  {
    match n
    case Nil => true
    case Text(s) => s == "" || s == "0"
    case Arr(m) => |m| == 0
  }

  /** `empty($response['faults'])`; `empty` never complains about a missing key or a
      non-array. */
  predicate FaultsEmpty(response: Node)
  {
    match response
    case Arr(m) => "faults" !in m || IsEmpty(m["faults"])
    case _ => true
  }

  /** `isset($faults[0])`: an array with a non-null element 0, or a non-empty string. */
  predicate IssetFirst(f: Node)
  {
    match f
    case Nil => false
    case Text(s) => |s| > 0
    case Arr(m) => "0" in m && m["0"] != Nil
  }

  /** `$faults[$i]`: an absent element reads as null. */
  function Element(m: map<string, Node>, i: nat): Node
  {
    if NatToString(i) in m then m[NatToString(i)] else Nil
  }

  /** `$m[$k]` on a decoded array, null when absent. */
  function Get(m: map<string, Node>, k: string): Node
  {
    if k in m then m[k] else Nil
  }

  /** The assignment `errors[...][$fault['faultString']] = $fault['faultDetailString']` for one
      fault. Reading a key of null gives null and a null key is "", while a string offset named
      by a string and an array used as a key are TypeErrors. */
  function FaultEntry(fault: Node): Php<(string, Node)>
  {
    match fault
    case Nil => Ok(("", Nil))
    case Text(_) => Fatal("Cannot access offset of type string on string")
    case Arr(m) =>
      match Get(m, "faultString")
      case Nil => Ok(("", Get(m, "faultDetailString")))
      case Text(k) => Ok((k, Get(m, "faultDetailString")))
      case Arr(_) => Fatal("Illegal offset type")
  }

  /** The fault loop over elements `0 .. n-1`, stopping at the first one that throws. */
  function ScanFaults(m: map<string, Node>, n: nat): Decoded
  {
    if n == 0 then Decoded([], Rejected)
    else
      var d := ScanFaults(m, n - 1);
      if d.outcome.Thrown? then d
      else match FaultEntry(Element(m, n - 1))
        case Fatal(e) => Decoded(d.writes, Thrown(e))
        case Ok(w) => Decoded(d.writes + [w], Rejected)
  }

  /** One fault given as a single dictionary (or whatever `[faults][faults]` held instead). */
  function SingleFault(f: Node): Decoded
  {
    match FaultEntry(f)
    case Fatal(e) => Decoded([], Thrown(e))
    case Ok(w) => Decoded([w], Rejected)
  }

  /** The branch for a non-empty `faults` element (wells-fargo.class.php:563-571). */
  function FaultVerdict(response: Node): Decoded
  {
    match ValueAt(["faults", "faults"], response, Nil)
    case Fatal(e) => Decoded([], Thrown(e))
    case Ok(f) =>
      if !IssetFirst(f) then SingleFault(f)
      else match f
        case Arr(m) => ScanFaults(m, |m|)
        case _ => Decoded([], Thrown("count(): Argument #1 ($value) must be of type Countable|array, string given"))
  }

  /** The switch on `transactionStatus` (wells-fargo.class.php:536-560); `switch` compares
      loosely, which for these non-numeric strings is string equality. */
  function StatusVerdict(response: Node): Decoded
  {
    match ValueAt(["transactionStatus"], response, Nil)
    case Fatal(e) => Decoded([], Thrown(e))
    case Ok(status) =>
      if status == Text("A1") then Decoded([], Approved(response))
      else if status == Text("A0") then Decoded([("returnStatus", Text(DeclineMessage))], Rejected)
      else if status == Text("A2") || status == Text("A3") then
        match ValueAt(["transactionMessage"], response, Nil)
        case Fatal(e) => Decoded([], Thrown(e))
        case Ok(message) => Decoded([("returnStatus", message)], Rejected)
      else Decoded([], Rejected)
  }

  /** The keys of the payload inside a SOAP response (see `Arrays.ReturnPath`). */
  const ReturnKeys: seq<string> := ["soapenvBody", "ns1submitTransactionResponse", "submitTransactionReturn"]

  /** What `xml2Dictionary` does with the payload `$response` it has extracted. */
  function Classify(response: Node): Decoded
  {
    if FaultsEmpty(response) then StatusVerdict(response) else FaultVerdict(response)
  }

  /** `xml2Dictionary` on the parsed tree: extract the payload, then classify it. */
  function Xml2Dictionary(tree: Node): Decoded
  {
    match ValueAt(ReturnKeys, tree, Nil)
    case Fatal(e) => Decoded([], Thrown(e))
    case Ok(response) => Classify(response)
  }

  /** The status of a payload, when it has one. */
  function Status(response: Node): Node
  {
    if response.Arr? then Get(response.m, "transactionStatus") else Nil
  }

  /** The row of errors after a sequence of assignments `row[k] = v`, in order. */
  function ApplyWrites(row: map<string, Node>, writes: seq<(string, Node)>): map<string, Node>
  {
    if writes == [] then row
    else ApplyWrites(row, writes[..|writes| - 1])[writes[|writes| - 1].0 := writes[|writes| - 1].1]
  }

  // ---------------------------------------------------------------------------------------
  // Properties of the classification

  lemma StatusRead(response: Node)
    ensures ValueAt(["transactionStatus"], response, Nil) == Ok(Status(response))
    ensures ValueAt(["transactionMessage"], response, Nil)
         == Ok(if response.Arr? then Get(response.m, "transactionMessage") else Nil)
  {
    OneKey("transactionStatus", response);
    OneKey("transactionMessage", response);
  }

  lemma OneKey(k: string, response: Node)
    ensures ValueAt([k], response, Nil) == Ok(if response.Arr? then Get(response.m, k) else Nil)
  {
    if response.Arr? {
      assert [k][1..] == [];
      if k in response.m {
        assert Walk([], response.m[k], Nil) == Ok(response.m[k]);
        assert Walk([k], response, Nil) == Walk([], response.m[k], Nil);
      }
    }
  }

  /** A response is approved exactly when it has no faults and its status is 'A1'; the
      payload itself is returned and no error is written. */
  lemma ApprovedIff(response: Node)
    ensures Classify(response).outcome.Approved?
        <==> FaultsEmpty(response) && Status(response) == Text("A1")
    ensures Classify(response).outcome.Approved? ==>
        Classify(response).outcome.payload == response && Classify(response).writes == []
  {
    StatusRead(response);
    if !FaultsEmpty(response) {
      FaultVerdictNeverApproves(response);
    }
  }

  lemma FaultVerdictNeverApproves(response: Node)
    ensures !FaultVerdict(response).outcome.Approved?
  {
    match ValueAt(["faults", "faults"], response, Nil)
    case Fatal(_) =>
    case Ok(f) =>
      if IssetFirst(f) && f.Arr? {
        ScanNeverApproves(f.m, |f.m|);
      }
  }

  lemma {:induction false} ScanNeverApproves(m: map<string, Node>, n: nat)
    ensures !ScanFaults(m, n).outcome.Approved?
  {
    if n > 0 {
      ScanNeverApproves(m, n - 1);
    }
  }

  /** Once the fault loop has thrown, later iterations do not change the result. */
  lemma {:induction false} ScanStaysThrown(m: map<string, Node>, j: nat, n: nat)
    requires j <= n && ScanFaults(m, j).outcome.Thrown?
    ensures ScanFaults(m, n) == ScanFaults(m, j)
  {
    if n > j {
      ScanStaysThrown(m, j, n - 1);
    }
  }

  /** Without faults: 'A0' records the fixed decline message, 'A2' and 'A3' record the
      payload's `transactionMessage` (null when it has none), and any other status
      records nothing; in all three cases the result is false. */
  lemma StatusOutcomes(response: Node)
    requires FaultsEmpty(response)
    ensures Status(response) == Text("A0") ==>
      Classify(response) == Decoded([("returnStatus", Text(DeclineMessage))], Rejected)
    ensures Status(response) == Text("A2") || Status(response) == Text("A3") ==>
      Classify(response) == Decoded([("returnStatus", Get(response.m, "transactionMessage"))], Rejected)
    ensures Status(response) !in {Text("A0"), Text("A1"), Text("A2"), Text("A3")} ==>
      Classify(response) == Decoded([], Rejected)
  {
    StatusRead(response);
  }

  /** An unknown status is neither approved nor reported: no error is written for it. */
  lemma UnknownStatusSilent()
    ensures Classify(Arr(map["transactionStatus" := Text("B7")])) == Decoded([], Rejected)
  {
    StatusOutcomes(Arr(map["transactionStatus" := Text("B7")]));
  }

  /** With faults given as a list, the i-th write is made from the i-th fault, in order, as
      long as none of them throws; otherwise the loop stops at the first that does. */
  lemma {:induction false} ScanWrites(m: map<string, Node>, n: nat)
    ensures ScanFaults(m, n).outcome.Thrown? <==> exists i :: 0 <= i < n && FaultEntry(Element(m, i)).Fatal?
    ensures !ScanFaults(m, n).outcome.Thrown? ==>
      ScanFaults(m, n) == Decoded(seq(n, i requires 0 <= i < n => FaultEntry(Element(m, i)).value), Rejected)
  {
    if n > 0 {
      ScanWrites(m, n - 1);
      if !ScanFaults(m, n).outcome.Thrown? {
        var ws := seq(n, i requires 0 <= i < n => FaultEntry(Element(m, i)).value);
        assert ws[..n - 1] == seq(n - 1, i requires 0 <= i < n - 1 => FaultEntry(Element(m, i)).value);
        assert ws == ws[..n - 1] + [ws[n - 1]];
      }
    }
  }

  /** A single fault dictionary writes `faultDetailString` under `faultString`. */
  lemma SingleFaultWrite(fields: map<string, Node>, key: string)
    requires "0" !in fields
    requires Get(fields, "faultString") == Text(key)
    ensures SingleFault(Arr(fields)) == Decoded([(key, Get(fields, "faultDetailString"))], Rejected)
    ensures !IssetFirst(Arr(fields))
  {
  }

  /** After the writes, a key holds the value of its last write, and keys never written keep
      their old value: a later fault with the same `faultString` overwrites an earlier one. */
  lemma {:induction false} LastWriteWins(row: map<string, Node>, writes: seq<(string, Node)>, k: string)
    ensures (exists i :: 0 <= i < |writes| && writes[i].0 == k) ==>
      k in ApplyWrites(row, writes) && ApplyWrites(row, writes)[k] == writes[LastIndex(writes, k)].1
    ensures (forall i :: 0 <= i < |writes| ==> writes[i].0 != k) ==>
      (k in ApplyWrites(row, writes) <==> k in row) && (k in row ==> ApplyWrites(row, writes)[k] == row[k])
  {
    if writes != [] {
      var front := writes[..|writes| - 1];
      LastWriteWins(row, front, k);
      if writes[|writes| - 1].0 != k {
        assert forall i :: 0 <= i < |front| ==> front[i] == writes[i];
        if exists i :: 0 <= i < |writes| && writes[i].0 == k {
          var i :| 0 <= i < |writes| && writes[i].0 == k;
          assert front[i].0 == k;
        }
      }
    }
  }

  /** The position of the last write to `k`. */
  function LastIndex<V>(writes: seq<(string, V)>, k: string): (r: nat)
    requires exists i :: 0 <= i < |writes| && writes[i].0 == k
    ensures r < |writes| && writes[r].0 == k
    ensures forall i :: r < i < |writes| ==> writes[i].0 != k
  {
    if writes[|writes| - 1].0 == k then |writes| - 1
    else
      var front := writes[..|writes| - 1];
      assert exists i :: 0 <= i < |front| && front[i].0 == k by {
        var i :| 0 <= i < |writes| && writes[i].0 == k;
        assert front[i] == writes[i];
      }
      LastIndex(front, k)
  }

  /** An approved payload never comes with errors, and a transaction that throws did so while
      reading faults or descending into the envelope. */
  lemma DecodedShapes(tree: Node)
    ensures Xml2Dictionary(tree).outcome.Approved? ==> Xml2Dictionary(tree).writes == []
    ensures |Xml2Dictionary(tree).writes| <= 1 || !FaultsEmpty(ValueAt(ReturnKeys, tree, Nil).value)
    ensures Xml2Dictionary(tree).outcome.Thrown? ==>
      ValueAt(ReturnKeys, tree, Nil).Fatal? || !FaultsEmpty(ValueAt(ReturnKeys, tree, Nil).value)
  {
    match ValueAt(ReturnKeys, tree, Nil)
    case Fatal(_) =>
    case Ok(response) =>
      ApprovedIff(response);
      StatusRead(response);
  }
}
