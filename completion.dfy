/** The chat-completion adapter of `sendToOpenAI`: the request body it posts
    and the way it turns the HTTP outcome into an answer or an exception. */
module Completion {
  import opened Wrappers
  import opened Json
  import Text

  const ModelId: string := "gpt-3.5-turbo"
  const MaxTokens: nat := 300

  /** The single entry of the `messages` list. */
  function UserMessage(userText: string): Value {
    JObj(map["role" := JStr("user"), "content" := JStr(userText)])
  }

  /** The map handed to Gson for the request body. */
  function BuildRequest(userText: string): (body: Value)
    ensures RequestUserText(body) == Some(userText)
  {
    JObj(map[
      "model" := JStr(ModelId),
      "messages" := JArr([UserMessage(userText)]),
      "max_tokens" := JNum(MaxTokens as real)])
  }

  /** Reads the user text back from a request body, accepting exactly the
      shape `BuildRequest` produces and nothing else. */
  function RequestUserText(body: Value): Option<string> {
    if !body.JObj? then None
    else
      var f := body.fields;
      if f.Keys != {"model", "messages", "max_tokens"} then None
      else if f["model"] != JStr(ModelId) || f["max_tokens"] != JNum(MaxTokens as real) then None
      else if !f["messages"].JArr? || |f["messages"].items| != 1 then None
      else
        var m := f["messages"].items[0];
        if !m.JObj? || m.fields.Keys != {"role", "content"} then None
        else if m.fields["role"] != JStr("user") || !m.fields["content"].JStr? then None
        else Some(m.fields["content"].s)
  }

  lemma RequestShape(userText: string)
    ensures BuildRequest(userText).JObj?
    ensures BuildRequest(userText).fields.Keys == {"model", "messages", "max_tokens"}
    ensures BuildRequest(userText).fields["model"] == JStr("gpt-3.5-turbo")
    ensures BuildRequest(userText).fields["max_tokens"] == JNum(300 as real)
    ensures BuildRequest(userText).fields["messages"] == JArr([UserMessage(userText)])
    ensures UserMessage(userText).fields.Keys == {"role", "content"}
    ensures UserMessage(userText).fields["role"] == JStr("user")
    ensures UserMessage(userText).fields["content"] == JStr(userText)
  {
  }

  /** A body is read back as `t` exactly when it is the request built from `t`. */
  lemma RequestRoundTrip(body: Value, t: string)
    ensures RequestUserText(body) == Some(t) <==> body == BuildRequest(t)
  {
    if RequestUserText(body) == Some(t) {
      var f := body.fields;
      var m := f["messages"].items[0];
      assert m.fields == UserMessage(t).fields;
      assert f["messages"] == JArr([UserMessage(t)]);
      assert f == BuildRequest(t).fields;
    }
    if body == BuildRequest(t) {
      RequestShape(t);
    }
  }

  /** What Gson's `fromJson(respStr, Map::class.java)` made of the body text:
      a document (`JNull` when Gson returned null) or a syntax error. */
  datatype Body = Parsed(doc: Value) | Unparsable

  /** The OkHttp response: status code, reason phrase and the body, if any. */
  datatype HttpResponse = HttpResponse(code: nat, message: string, body: Option<Body>) {
    /** OkHttp's `isSuccessful`. */
    predicate IsSuccessful() {
      200 <= code <= 299
    }
  }

  /** The outcome of `client.newCall(request).execute()` and reading the body. */
  datatype Exchange = TransportError | Delivered(response: HttpResponse)

  /** The exceptions `sendToOpenAI` ends with. */
  datatype RequestError =
    | Transport                             // IOException from the call or from reading the body
    | HttpError(code: nat, message: string) // thrown for a non-2xx status
    | EmptyResponse                         // thrown when the body is null
    | BodyNotObject                         // the parsed document is not an object: Gson returned null, or threw
    | NoChoices                             // `choices.get(0)` on an empty list threw

  /** The exception message the source itself writes; the others come from
      the platform and are not modelled. */
  function AuthoredMessage(e: RequestError): (m: Option<string>)
    ensures m.Some? <==> e.HttpError? || e.EmptyResponse?
  {
    match e
    case HttpError(code, message) => Some("HTTP error: " + Text.Decimal(code) + " " + message)
    case EmptyResponse => Some("Empty response")
    case _ => None
  }

  /** The part of `sendToOpenAI` after the call: status check, body, parse,
      `choices[0].message.content` with its defaults, then `trim()`. */
  function Reply(x: Exchange): (r: Result<string, RequestError>)
    ensures r.Success? ==> Text.IsTrimmed(r.value)
  {
    match x
    case TransportError => Failure(Transport)
    case Delivered(resp) =>
      if !resp.IsSuccessful() then Failure(HttpError(resp.code, resp.message))
      else if resp.body.None? then Failure(EmptyResponse)
      else if resp.body.value.Unparsable? || !resp.body.value.doc.JObj? then Failure(BodyNotObject)
      else Answer(resp.body.value.doc.fields)
  }

  /** The extraction chain on a top-level object. */
  function Answer(fields: map<string, Value>): (r: Result<string, RequestError>)
    ensures r.Success? ==> Text.IsTrimmed(r.value)
  {
    var choices := AsArray(Lookup(fields, "choices"));
    if choices.Some? && |choices.value| == 0 then Failure(NoChoices)
    else Success(Text.Trim(Content(fields).GetOr("")))
  }

  /** `choices?.get(0) as? Map`, then `message`, then `content as? String`,
      on an object whose `choices` is not an empty list. */
  function Content(fields: map<string, Value>): (r: Option<string>)
    ensures r.Some? ==> HasContent(JObj(fields), r.value)
  {
    var choices := AsArray(Lookup(fields, "choices"));
    var first := AsObject(if choices.Some? && |choices.value| > 0 then Some(choices.value[0]) else None);
    var message := AsObject(Member(first, "message"));
    AsString(Member(message, "content"))
  }

  /** The exchange delivered a successful response whose body parsed to `doc`. */
  ghost predicate ParsedReply(x: Exchange, doc: Value) {
    x.Delivered? && x.response.IsSuccessful() && x.response.body == Some(Parsed(doc))
  }

  /** `doc` holds the string `c` at `choices[0].message.content`. */
  ghost predicate HasContent(doc: Value, c: string) {
    && doc.JObj?
    && "choices" in doc.fields
    && doc.fields["choices"].JArr?
    && |doc.fields["choices"].items| > 0
    && (var first := doc.fields["choices"].items[0];
        && first.JObj?
        && "message" in first.fields
        && first.fields["message"].JObj?
        && "content" in first.fields["message"].fields
        && first.fields["message"].fields["content"] == JStr(c))
  }

  /** `doc` is an object whose `choices` is an empty array. */
  ghost predicate EmptyChoices(doc: Value) {
    doc.JObj? && "choices" in doc.fields && doc.fields["choices"] == JArr([])
  }

  /** Every way of failing before an answer, and the error each one gives. */
  lemma ReplyFailures(x: Exchange)
    ensures x.TransportError? ==> Reply(x) == Failure(Transport)
    ensures x.Delivered? && !x.response.IsSuccessful() ==>
              Reply(x) == Failure(HttpError(x.response.code, x.response.message))
    ensures x.Delivered? && x.response.IsSuccessful() && x.response.body.None? ==>
              Reply(x) == Failure(EmptyResponse)
    ensures x.Delivered? && x.response.IsSuccessful() && x.response.body == Some(Unparsable) ==>
              Reply(x) == Failure(BodyNotObject)
    ensures forall doc :: ParsedReply(x, doc) && !doc.JObj? ==> Reply(x) == Failure(BodyNotObject)
    ensures forall doc :: ParsedReply(x, doc) && EmptyChoices(doc) ==> Reply(x) == Failure(NoChoices)
  {
  }

  /** An answer is produced exactly for a successful response whose body is
      an object and whose `choices` is not an empty array. */
  lemma ReplySucceedsIff(x: Exchange)
    ensures Reply(x).Success? <==>
              exists doc :: ParsedReply(x, doc) && doc.JObj? && !EmptyChoices(doc)
  {
    if Reply(x).Success? {
      var doc := x.response.body.value.doc;
      assert ParsedReply(x, doc);
    } else if x.Delivered? && x.response.IsSuccessful() && x.response.body.Some? && x.response.body.value.Parsed? {
      var doc := x.response.body.value.doc;
      assert !(doc.JObj? && !EmptyChoices(doc));
    }
  }

  /** A well-shaped body gives its content, trimmed. */
  lemma ReplyWithContent(x: Exchange, doc: Value, c: string)
    requires ParsedReply(x, doc) && HasContent(doc, c)
    ensures Reply(x) == Success(Text.Trim(c))
  {
    ContentIff(doc.fields, c);
  }

  /** The safe-cast chain finds `c` exactly when the path holds `c`. */
  lemma ContentIff(fields: map<string, Value>, c: string)
    ensures Content(fields) == Some(c) <==> HasContent(JObj(fields), c)
  {
  }

  /** A missing or ill-typed field on the path reads as the empty answer. */
  lemma ReplyDefaultsToEmpty(x: Exchange, doc: Value)
    requires ParsedReply(x, doc) && doc.JObj? && !EmptyChoices(doc)
    requires forall c :: !HasContent(doc, c)
    ensures Reply(x) == Success("")
  {
    if Content(doc.fields).Some? {
      assert false;
    }
    assert Text.LeadingWhitespace("") == 0;
  }

  /** A non-empty answer always comes from a content string on the path. */
  lemma AnswerHasContent(x: Exchange, a: string)
    requires Reply(x) == Success(a) && a != ""
    ensures exists doc, c :: ParsedReply(x, doc) && HasContent(doc, c) && a == Text.Trim(c)
  {
    var doc := x.response.body.value.doc;
    var content := Content(doc.fields);
    if content.Some? {
      ContentIff(doc.fields, content.value);
      assert ParsedReply(x, doc) && HasContent(doc, content.value);
    }
  }

  /** The message of an HTTP error carries the status code, readable back
      from its digits, and ends with the reason phrase. */
  lemma HttpErrorMessage(code: nat, message: string)
    ensures AuthoredMessage(HttpError(code, message)).Some?
    ensures var text := AuthoredMessage(HttpError(code, message)).value;
            var digits := Text.Decimal(code);
            && text[..12] == "HTTP error: "
            && text[12..12 + |digits|] == digits
            && Text.ParseDecimal(text[12..12 + |digits|]) == code
            && text[12 + |digits|..] == " " + message
  {
    var digits := Text.Decimal(code);
    var text := "HTTP error: " + digits + " " + message;
    assert text[12..12 + |digits|] == digits;
    Text.DecimalRoundTrip(code);
  }

  /** An HTTP 200 response whose body parsed to `doc`. */
  function Ok(doc: Value): Exchange {
    Delivered(HttpResponse(200, "OK", Some(Parsed(doc))))
  }

  lemma HelloTherePadding()
    ensures Text.IsTrimmed("Hello there") && Text.AllWhitespace(" ")
    ensures " Hello there " == " " + "Hello there" + " "
  {
    assert !Text.IsWhitespace('H') && !Text.IsWhitespace('e');
    var padded := " Hello there ";
    assert padded == padded[..1] + padded[1..12] + padded[12..];
  }

  lemma TrimHelloThere()
    ensures Text.Trim(" Hello there ") == "Hello there"
  {
    HelloTherePadding();
    Text.TrimPadded(" ", "Hello there", " ");
  }

  /** The mock endpoint answering `{"choices":[{"message":{"content":" Hello there "}}]}`. */
  lemma HelloThereExample()
    ensures var message := JObj(map["content" := JStr(" Hello there ")]);
            var doc := JObj(map["choices" := JArr([JObj(map["message" := message])])]);
            Reply(Ok(doc)) == Success("Hello there")
  {
    var message := JObj(map["content" := JStr(" Hello there ")]);
    var doc := JObj(map["choices" := JArr([JObj(map["message" := message])])]);
    assert HasContent(doc, " Hello there ");
    ReplyWithContent(Ok(doc), doc, " Hello there ");
    TrimHelloThere();
  }

  lemma Decimal401()
    ensures Text.Decimal(401) == "401"
  {
    assert Text.DigitChar(4) == '4' && Text.DigitChar(0) == '0' && Text.DigitChar(1) == '1';
  }

  /** HTTP 401 gives the HTTP error with its code and reason phrase. */
  lemma UnauthorizedExample()
    ensures Reply(Delivered(HttpResponse(401, "Unauthorized", None)))
            == Failure(HttpError(401, "Unauthorized"))
    ensures AuthoredMessage(HttpError(401, "Unauthorized")) == Some("HTTP error: 401 Unauthorized")
  {
    Decimal401();
    var text := "HTTP error: 401 Unauthorized";
    assert text[..12] == "HTTP error: " && text[12..15] == "401";
    assert text[15..16] == " " && text[16..] == "Unauthorized";
    assert text == text[..12] + text[12..15] + text[15..16] + text[16..];
  }

  /** `{"choices":[]}` throws from `get(0)`. */
  lemma EmptyChoicesExample()
    ensures Reply(Ok(JObj(map["choices" := JArr([])]))) == Failure(NoChoices)
  {
    var doc := JObj(map["choices" := JArr([])]);
    assert ParsedReply(Ok(doc), doc) && EmptyChoices(doc);
    ReplyFailures(Ok(doc));
  }
}
