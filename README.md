# WellsFargoC — a verified model of the transaction pipeline

This project models two parts of a small PHP library that submits retail financing transactions to Wells Fargo's SOAP service.

- The `WellsFargoC` class (wells-fargo.class.php). `charge` and `refund` both go through `sendRequest`. Each call does these steps in order:
  - take the next ledger index;
  - check the four transaction fields (`prepareRequestData`);
  - only if those all pass, check and normalise the account fields stored on the object (`requiredDataIsSet`);
  - build the SOAP 1.1 envelope and its six HTTP headers;
  - record the request in memory and hand it to the transport;
  - record the reply and classify it (`xml2Dictionary`): approved, declined, a status message, or a list of faults.

  Errors collect in `errors[requestI][field]`. Requests and responses are kept in maps keyed by the same index, and `getErrors`, `getRequest` and `getResponse` read them back.
- The normalisers of `FormatC` (format.class.php) that decide what the checks see: `number`, `currency`, `username` and `word`.

## Modules

- `Php`: the PHP value semantics the library relies on.
  - Scalars: `null`, string or integer.
  - Truthiness, `strlen`, string conversion.
  - Decimal rendering and reading of naturals, `str_pad` and `strtolower` on ASCII.
  - The decoded response tree `Node`.
- `Format`: `FormatC`'s filters as pure functions.
  - `number` (scalar branch) in integer and float mode.
  - `currency`, with `number_format` on an exact decimal.
  - `username` and `word`.
- `Validation`: the field checks of `prepareRequestData` and the account checks of `requiredDataIsSet`. These are pure functions returning the normalised values and the messages, in the order the source writes them.
- `Arrays`: `array_value` and `array_test`.
  - `array_value` is a method whose loop follows the source's loop.
  - It is proved equal to a recursive walk `Walk`.
  - The facts about the walk are proved against the reachability function `Reach`.
- `Response`, the reply handling:
  - the `text/xml` content-type test;
  - the tag regex that removes namespace colons;
  - the classification of the decoded payload, including the loop over a list of faults.
- `Soap`: the envelope text and the header list.
- `Pipeline`: the object's state as a value `State`, and one attempt as the function `Attempt` = `Checks` followed by `Exchange`.
  - `Checks` covers index, fields and account.
  - `Exchange` covers record, transport and `Receive`.
  - The properties of the whole attempt are lemmas here.
- `WellsFargo`: the class `Client`.
  - Its fields are the object's properties and its three ledgers.
  - Its methods assign them one statement at a time, as the source does.
  - Each state-changing method is proved to end in the state the matching `Pipeline` function computes from the state before the call.

The transport and the XML parser are parameters of the attempt:
- `send(url, xml, headers)` returns either `Failure(error, info)` or `Delivered(body, contentType, info)`;
- `parse(text)` returns a `Node`.

The unique id (made from `microtime` in the source) is an input string. The `WELLS_FARGO_*` constants are an `Env` value for the constructor. The merchant-number constant is an optional value passed to the account check.

Two behaviours of the code are easy to miss, and the model follows the code in both:
- An attempt that is not approved does not always leave an error behind. A decoded reply with empty `faults` and a status other than `A0`–`A3` returns `false` and writes nothing (`Response.StatusOutcomes`, `Pipeline.ReceiveOutcomes`).
- Errors are not all collected in one pass. The four field checks are all made, but the account checks are skipped as soon as one field fails, because of the short-circuit `&&` at wells-fargo.class.php:433 (`Pipeline.FieldErrorsStop`).

## Model

| member | source | states |
|---|---|---|
| WellsFargo.Client.constructor | wells-fargo.class.php:67-116 | the fields start at their declared defaults, each overridden by its constant when that is defined, and the setter then runs; the result is `Initial(env, properties)` and the ledger is consistent |
| Pipeline.InitialState | wells-fargo.class.php:80-84 | a new object has empty ledgers; its first index is 1, because the undeclared `requestI` starts as null (the declared property is the misspelled `requrestI`); `getErrors()` before any request answers "Error set for request  not found." |
| WellsFargo.Client.Setter | wells-fargo.class.php:193-202 | the loop assigns each listed property in order; the state is the old one with the properties replaced by `Pipeline.Setter` |
| WellsFargo.Client.Assign | wells-fargo.class.php:196-201 | one allowed property is assigned and nothing else changes |
| Pipeline.SetPropertyEffect | wells-fargo.class.php:196-201 | setting a property changes exactly that field when the name is settable and nothing otherwise; exactly the settable names have a field |
| Pipeline.SetterLastWins | wells-fargo.class.php:195-201 | after the setter, each listed property holds its listed value and an unlisted one keeps its old value; the properties are an ordered list of pairs, which is more general than a PHP array (whose keys are distinct), and for a repeated name the last value holds |
| WellsFargo.Client.Charge | wells-fargo.class.php:127-130 | a charge is the attempt with transaction code 1 and authorization '000000', and it keeps the ledger consistent |
| WellsFargo.Client.Refund | wells-fargo.class.php:154-157 | a refund is the attempt with transaction code 4 and authorization '000000', and it keeps the ledger consistent |
| WellsFargo.Client.SendRequest | wells-fargo.class.php:428-508 | the new state and the outcome are exactly `Attempt` applied to the state before the call |
| WellsFargo.Client.CheckRequest | wells-fargo.class.php:430-433 | increments the index once, stores the unique id, runs the field checks and, only if they pass, the account checks; the state and the data are those of `Checks`, and the index is the next one |
| WellsFargo.Client.Transmit | wells-fargo.class.php:437-505 | builds the envelope and headers, records the request, sends it and handles the reply; the state and the outcome are those of `Exchange` |
| WellsFargo.Client.Receive | wells-fargo.class.php:488-504 | the transport branch on the object; state and outcome equal `Pipeline.Receive` |
| WellsFargo.Client.PrepareRequestData | wells-fargo.class.php:250-311 | the four checks write their messages in order, and the data is returned exactly when the row stayed empty; the result equals `PrepareStep` |
| WellsFargo.Client.RequiredDataIsSet | wells-fargo.class.php:351-415 | the account checks overwrite the account number, locale and merchant number, select the endpoint and report whether the row is empty; the result equals `AccountStep` |
| WellsFargo.Client.CheckAccountNumberAndLocale | wells-fargo.class.php:354-373 | the account number is replaced by its normalised value, the locale by `en_US` when it is empty, and their messages are written |
| WellsFargo.Client.CheckMerchantNumber | wells-fargo.class.php:376-389 | the merchant number, which falls back to the constant when it is falsy, is replaced by its normalised value and its message is written |
| WellsFargo.Client.CheckSecrets | wells-fargo.class.php:392-401 | the password and username messages are written in that order |
| WellsFargo.Client.AddError | wells-fargo.class.php:258-299 | `errors[requestI][key] = value` on the current row only |
| WellsFargo.Client.Report | wells-fargo.class.php:258-299 | writes the message of one check when there is one, and nothing otherwise |
| WellsFargo.Client.RecordRequest | wells-fargo.class.php:317-323 | `requests[requestI]` becomes the request and its headers; nothing else changes |
| WellsFargo.Client.RecordResponse | wells-fargo.class.php:333-339 | `responses[requestI]` becomes the response and its transfer information; nothing else changes |
| WellsFargo.Client.Xml2Dictionary | wells-fargo.class.php:517-572 | decoding a delivered XML body ends in the state and outcome of `Pipeline.Decode` |
| WellsFargo.Client.StatusSwitch | wells-fargo.class.php:534-561 | the status switch writes exactly the `StatusVerdict` writes and returns its outcome |
| WellsFargo.Client.FaultRows | wells-fargo.class.php:563-571 | a list of faults or a single fault writes exactly the `FaultVerdict` writes and returns its outcome |
| WellsFargo.Client.FaultList | wells-fargo.class.php:565-567 | the loop over a fault list writes one entry per fault in order (the `ScanFaults` writes) |
| WellsFargo.FieldSteps | wells-fargo.class.php:252-299 | the four one-field writes together are one write of all field messages in the order amount, authorization number, plan number, ticket number |
| WellsFargo.FieldTexts | wells-fargo.class.php:252-299 | the field messages are the four one-field messages in that order |
| WellsFargo.AccountTexts | wells-fargo.class.php:354-401 | the account messages are those of the account number, locale, merchant number, password and username, in that order |
| WellsFargo.AccountSteps | wells-fargo.class.php:354-409 | the account checks done one field at a time end in the state `AccountStep` computes |
| Pipeline.FreshIndex | wells-fargo.class.php:430 | in a consistent ledger the next index is null+1 = 1 or the old index + 1, is at least 1, and is not yet a key of the errors, requests or responses |
| Pipeline.AttemptIndex | wells-fargo.class.php:430-431 | after any attempt the index is the next one, whatever the outcome, and the unique id is the one given |
| Pipeline.ChecksFrame | wells-fargo.class.php:430-433 | the checks change only the index, the unique id, the properties, the endpoint and the new row; they let the request through exactly when neither the field checks nor the account checks produced a message; a request that passes leaves the errors unchanged |
| Pipeline.FieldErrorsStop | wells-fargo.class.php:433 | when a field fails, the account checks do not run (properties and endpoint unchanged), no request or response is recorded, and the new row holds exactly the field messages under field keys |
| Pipeline.AccountErrorsStop | wells-fargo.class.php:411-412 | when the fields pass but an account check fails, nothing is sent; the row holds exactly the account messages under account keys |
| Pipeline.ChecksPass | wells-fargo.class.php:301-310 | when both checks pass, no error is written and the data is the normalised field values |
| Pipeline.PrepareClean | wells-fargo.class.php:301-310 | with no field message, the field step leaves the state as it is and returns the normalised values |
| Pipeline.AccountOnFreshRow | wells-fargo.class.php:351-412 | on a fresh row, the account step writes its messages as the new row (or nothing), sets the normalised properties and the endpoint, and passes exactly when there is no message |
| Pipeline.ReceiveOutcomes | wells-fargo.class.php:486-504 | a transport failure records the error text as the response and sets `soap`; a non-XML reply sets `response` to the raw body; an XML reply is decoded and its writes form the new row; the response is recorded every time; only the errors and responses change |
| Pipeline.ExchangeGrows | wells-fargo.class.php:485-504 | sending changes only the three ledgers, and only at the current index |
| Pipeline.ExchangeApproved | wells-fargo.class.php:485-501 | an approved exchange keeps the index, records both the request and the response, and leaves no error row |
| Pipeline.ReceiveApproved | wells-fargo.class.php:496-501 | an approved reply leaves no error row and records the response |
| Pipeline.GrowsKeepsLedger | wells-fargo.class.php:430 | adding entries only at an index no older than the current one keeps every ledger key within 1..requestI |
| Pipeline.ChecksKeepLedger | wells-fargo.class.php:430-433 | the checks keep the ledger consistent, and a request that passes them still has a fresh row |
| Pipeline.ExchangeKeepsLedger | wells-fargo.class.php:485-504 | sending on a fresh row keeps the ledger consistent |
| Pipeline.AttemptKeepsLedger | wells-fargo.class.php:428-508 | every attempt keeps the ledger consistent: all keys lie between 1 and the current index |
| Pipeline.ApprovedIsClean | wells-fargo.class.php:433-501 | an approved attempt had no field or account message, has no error row, has both request and response recorded, and the argument-less getters then answer "not found" for its errors and return its request and response |
| Pipeline.EnvelopeValues | wells-fargo.class.php:437-460 | the envelope carries the unique id, the rendered amount, the `$transationCode` parameter (not the undefined `transactionCode` of the data), the plan number, a six-digit authorization number worth the normalised number, the raw ticket exactly when it is truthy, and the account and merchant numbers |
| Pipeline.LookupLatest | wells-fargo.class.php:136-185 | without an argument all three lookups use the latest index, and answer the stored entry or "Error set for request i not found.", "Request for request i not found." and "Response for request i not found." |
| WellsFargo.Client.GetErrors | wells-fargo.class.php:136-144 | on the object, the error row of the latest request (no argument) or of a given index up to `PHP_INT_MAX`, or the not-found text carrying that index |
| WellsFargo.Client.GetRequest | wells-fargo.class.php:163-171 | the recorded request and headers of the latest or a given index, or "Request for request i not found." |
| WellsFargo.Client.GetResponse | wells-fargo.class.php:177-185 | the recorded response and transfer information of the latest or a given index, or "Response for request i not found." |
| Pipeline.LookupExplicit | wells-fargo.class.php:138 | an explicit non-negative index is used as it is |
| Pipeline.LookupNegative | wells-fargo.class.php:138 | a negative index is read with its sign dropped (`number(..., false, false)`) |
| Arrays.ArrayValue | wells-fargo.class.php:584-604 | the loop that reassigns `$value` returns exactly `ValueAt` of the split path |
| Arrays.ValueAtNonArray | wells-fargo.class.php:589-620 | a root that is not an array gives the default |
| Arrays.ValueAtFound | wells-fargo.class.php:594-603 | a path that is present gives the value at its end |
| Arrays.ValueAtMissing | wells-fargo.class.php:595-598 | a key missing at any depth gives the default |
| Arrays.ValueAtFatal | wells-fargo.class.php:595 | the walk aborts only where a present key leads to a non-array and the path goes on |
| Arrays.ExplodeJoin | wells-fargo.class.php:592 | `explode('][', ...)` of a string joins back to that string |
| Arrays.ReturnPath | wells-fargo.class.php:521 | the response path splits into `soapenvBody`, `ns1submitTransactionResponse`, `submitTransactionReturn` |
| Arrays.FaultsPath | wells-fargo.class.php:563 | `'[faults][faults]'` splits into two `faults` keys |
| Arrays.StatusPath | wells-fargo.class.php:536 | `'transactionStatus'` is a one-key path |
| Arrays.MessagePath | wells-fargo.class.php:553-556 | `'transactionMessage'` is a one-key path |
| Response.StripOnlyColons | wells-fargo.class.php:527 | the tag regex only deletes colons, never more than the input has |
| Response.StripOpenTag | wells-fargo.class.php:527 | `<a:b>` becomes `<ab>`: the colon goes and the prefix stays |
| Response.StripCloseTag | wells-fargo.class.php:527 | `</a:b>` becomes `</ab>` |
| Response.StripKeepsAttributes | wells-fargo.class.php:527 | in any opening or closing tag whose element name is followed by a colon, exactly that colon is deleted: the name, the rest of the tag with its attribute colons, and its `>` stay, and matching resumes after the `>` |
| Response.StripUnclosed | wells-fargo.class.php:527 | any text without a `>` is left as it is, since every match ends with one |
| Response.StripNoTags | wells-fargo.class.php:527 | text without `<` is left as it is |
| Response.XmlContentTypeAnywhere | wells-fargo.class.php:500 | `text/xml` matches anywhere in the content type and in any case; a missing content type does not match |
| Response.SearchTextXml | wells-fargo.class.php:500 | the search succeeds exactly when `text/xml` occurs, ignoring case, at or after the start position |
| Response.ApprovedIff | wells-fargo.class.php:534-539 | a reply is approved exactly when `faults` is empty and the status is `A1`; the payload is then returned and nothing is written |
| Response.StatusOutcomes | wells-fargo.class.php:536-560 | `A0` writes the fixed decline message, `A2` and `A3` write `transactionMessage` under `returnStatus`, any other status writes nothing; all of them return false |
| Response.FaultVerdictNeverApproves | wells-fargo.class.php:563-571 | a reply with faults is never approved |
| Response.ScanWrites | wells-fargo.class.php:565-567 | the list loop aborts exactly when some fault is not an array; otherwise it writes `faultString => faultDetailString` for each fault in order |
| Response.ScanStaysThrown | wells-fargo.class.php:565-567 | once the loop has aborted, it stays aborted |
| Response.SingleFaultWrite | wells-fargo.class.php:568-569 | a single fault map, one without key 0, writes its one entry |
| Response.LastWriteWins | wells-fargo.class.php:567 | when writes repeat a key, the last one holds; keys not written keep their old value |
| Response.DecodedShapes | wells-fargo.class.php:536-569 | an approved reply writes nothing; more than one write happens only when there are faults |
| Response.StatusRead | wells-fargo.class.php:536 | reading `transactionStatus` and `transactionMessage` is a plain one-key lookup |
| Soap.ContentLengthRoundTrip | wells-fargo.class.php:463-471 | there are six headers; the last is `Content-length: ` followed by digits that read back as the length of the envelope |
| Soap.HeadersFixed | wells-fargo.class.php:463-471 | the first five headers are fixed; two header lists are equal exactly when the envelopes have the same length |
| Soap.TicketSelfClosing | wells-fargo.class.php:451 | the ticket element is self-closing exactly when there is no ticket |
| Soap.TerminalFixed | wells-fargo.class.php:457-461 | every envelope ends with terminal number `0000`, the authorization number and the fixed closing tags |
| Soap.EnvelopeNotEscaped | wells-fargo.class.php:447-448 | values are not escaped: two different transactions can produce the same envelope text by moving a forged `</setupPassword><amount>` boundary |
| Validation.AmountCheckIff | wells-fargo.class.php:253-265 | an amount passes exactly when it is truthy and renders between 0.00 and 99999999.99; a falsy amount is reported as missing; the value passed on is the rendered string, which reads back as the checked cents |
| Validation.AmountNotANumber | wells-fargo.class.php:255-258 | `"abc"` passes as `"0.00"`: the "Invalid amount value." branch cannot be reached |
| Validation.IntCheckIff | wells-fargo.class.php:268-295 | an integer field passes exactly when it is truthy, has a digit and lies within the bounds; falsy is missing, digitless is invalid; the value kept is the normalised number |
| Validation.DefaultAuthorization | wells-fargo.class.php:428 | the default authorization `'000000'` passes and is sent as `"000000"` |
| Validation.TicketIff | wells-fargo.class.php:298-299 | a ticket fails exactly when it is longer than 12 characters; a missing ticket never fails |
| Validation.FieldErrorKeys | wells-fargo.class.php:252-299 | the field messages are keyed, in order, `amount`, `authorizationNumber`, `planNumber`, `ticketNumber`, one for each failing field and only those |
| Validation.RequestValuesSound | wells-fargo.class.php:303-310 | the data holds the rendered amount, a six-digit authorization number worth its normalised number (0..999999), the plan number in 1000..9999, and a null transaction code |
| Validation.LocaleIff | wells-fargo.class.php:370-373 | an empty locale becomes `en_US` silently; any other value outside the three options is reported, and the locale is otherwise kept |
| Validation.SecretIff | wells-fargo.class.php:392-401 | empty means "has not been set", all white space means "Invalid", and any other character means no message |
| Validation.EndpointIff | wells-fargo.class.php:404-409 | the endpoint is production exactly when the lower-cased setting is `production`, and the test endpoint otherwise |
| Validation.AccountKeysOnly | wells-fargo.class.php:354-401 | the account messages use only account keys |
| Validation.AccountNormalised | wells-fargo.class.php:354-367 | only the account number, locale and merchant number change; a truthy account number becomes its normalised number or null, and a falsy one is reported first |
| Validation.AccountPassesIff | wells-fargo.class.php:354-412 | the account checks pass exactly when all five fields pass |
| Validation.MerchantFallback | wells-fargo.class.php:376-389 | the account check stores the normalised property while that is truthy, and the normalised constant in its place when the property is falsy and the constant is defined; with neither, the number is kept and reported missing |
| Format.NumberIntDigits | format.class.php:39-44 | integer mode is numeric exactly when a digit survives stripping; the result is then the value of the kept digits with the kept sign, saturated to 64 bits, and the default otherwise |
| Format.NumberIntNonNegative | format.class.php:39 | with negatives disallowed the result is the default or non-negative |
| Format.NumberIntNegative | format.class.php:39 | a '-' is kept only when negatives are allowed and the input starts with it |
| Format.NumberIntDropsLetters | format.class.php:39-44 | `"1x234"` becomes 1234 |
| Format.NumberNull | format.class.php:39-42 | null gives the default in both modes |
| Format.NumberFloatTwoDots | format.class.php:39-42 | in float mode two or more dots are not numeric |
| Format.NumberFloatNoDigit | format.class.php:39-42 | `"."`, `"-"` and `"abc"` are not numeric in float mode |
| Format.CurrencyCents | format.class.php:22-30 | `currency` never returns null: it is the two-decimal rendering of `AmountCents`, which is 0 when `number` gave null or zero; it is `0.00` exactly when those cents are 0, so also for an amount such as `0.001` that rounds to zero; `"abc"` gives `0.00` |
| Format.CurrencyRoundTrip | format.class.php:22-44 | `number` in float mode reads the rendering of any cents value back as exactly that value |
| Format.FilterIdempotent | format.class.php:52 | the character filters are idempotent |
| Format.FilterEmptyIff | format.class.php:52-57 | a filter leaves nothing exactly when no character is in the class |
| Format.FilterHasDigit | format.class.php:39 | in either mode, a digit survives the stripping exactly when the input has one |
| Format.FilterCounts | format.class.php:39 | each character of a filter's class occurs in the result exactly as often as in the input, and no other character occurs |
| Format.UsernameFilter | format.class.php:50-58 | `username` keeps only `[A-Za-z0-9_.-]`, is null exactly when nothing remains, and applying it twice changes nothing |
| Format.WordFilter | format.class.php:60-68 | `word` keeps only word characters; it is null exactly when the input has no word character or the kept characters are `"0"`; otherwise its result is neither `""` nor `"0"`, and applying it twice changes nothing |
| Php.NatToStringRoundTrip | wells-fargo.class.php:470 | reading back the decimal rendering of a natural gives the natural |
| Php.PadLeftRoundTrip | wells-fargo.class.php:307 | left-padding the rendering of a number with '0' keeps it all digits and keeps its value |

## Left out

- File I/O: `FileC` (file.class.php) and the file-writing half of `recordRequest`/`recordResponse` (wells-fargo.class.php:325-326, 341-342). The in-memory assignments are modelled. `getRequestDirectory` and `getResponseDirectory` are used only for those writes and are left out with them.
- The cURL transport (wells-fargo.class.php:473-483, 486-498) is the parameter `send`. Timeouts, TLS options and `curl_getinfo` are not modelled; the transfer information is an opaque `Node`.
- The XML parser (`simplexml_load_string` plus the JSON round trip, wells-fargo.class.php:519-531) is the parameter `parse`. The colon-removing regex applied before it is modelled.
- The clock: the unique id built from `microtime(true)` (wells-fargo.class.php:431) is an input string. As written, that line calls `\FormatC::number`, a class in the global namespace; both files declare `namespace WellsFargo`, so unless some other file defines a global `FormatC`, the call throws before any check runs. The model takes the id as given, as if the call succeeded.
- Floating point: PHP floats are modelled as exact decimals `units / 10^scale`. `number_format` rounds half away from zero, with no binary rounding error. Callers' floats are passed as their decimal strings.
- The array branch of `FormatC::number` (format.class.php:34-36) is not called by the class.
- `Format.Currency`: the thousands separator and symbol are modelled, but only the default call is used and proved about.
- The `rtrim` branch of `setter` (wells-fargo.class.php:198-199) is dead: the two directory names are not in the allow-list of settable properties.
- PHP array order: error rows are maps. The order in which their keys were written is not kept. The writes are stated as ordered lists, and `Response.LastWriteWins` shows what a map keeps of them.
- Integer widths: `requestI` is unbounded, while PHP would turn it into a float past `PHP_INT_MAX`. `(int)` of an overflowing numeric string saturates (`Format.IntCast`).
- Warnings: `array_test`'s `E_USER_WARNING` and PHP notices are not modelled. A PHP `TypeError` that would end the script is the outcome `Response.Thrown`.
- The misspelled `requrestI = -1` property is never read, so it has no field. `requestI` is `Option<int>` and starts as null.
- Non-scalar property values and caller arguments (arrays, objects, booleans, floats) are not modelled: a `Scalar` is null, a string or an integer. PHP 8 comparison and conversion rules are assumed.
- Pipeline.FieldErrorsStop and Pipeline.AccountErrorsStop are stated on `Checks`; that a stopped check makes `Attempt` return `false` with no request or response recorded follows from the definition of `Attempt`.
