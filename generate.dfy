/**
 * The generation endpoint's own logic: cleaning the model's raw text of a markdown code
 * fence, checking the parsed reply's shape, and classifying the request's outcome into
 * the reply the endpoint sends. The model call and `JSON.parse` are parameters.
 */
module Generate {
  import opened Wrappers
  import opened JsValues
  import opened JsStrings

  // ---------------------------------------------------------------------------
  // Cleaning: /```(?:json)?\s*([\s\S]*?)\s*```/

  /** Three backticks start at `i`. */
  predicate FenceAt(s: string, i: int) {
    0 <= i && i + 3 <= |s| && s[i] == '`' && s[i + 1] == '`' && s[i + 2] == '`'
  }

  ghost predicate NoFence(s: string) {
    forall k :: !FenceAt(s, k)
  }

  /** The first fence at or after `from`, if any. */
  function FindFence(s: string, from: nat): (r: Option<nat>)
    ensures r.Some? ==> from <= r.value && FenceAt(s, r.value)
    ensures r.Some? ==> forall k :: from <= k < r.value ==> !FenceAt(s, k)
    ensures r.None? ==> forall k :: from <= k ==> !FenceAt(s, k)
    decreases |s| - from
  {
    if |s| < from + 3 then None
    else if FenceAt(s, from) then Some(from)
    else FindFence(s, from + 1)
  }

  /** Where the optional `json` tag after the opening fence at `open` ends. */
  function TagEnd(s: string, open: nat): (t: nat)
    requires FenceAt(s, open)
    ensures open + 3 <= t <= |s|
    ensures forall k :: open + 3 <= k < t ==> !FenceAt(s, k)
  {
    if open + 7 <= |s| && s[open + 3] == 'j' && s[open + 4] == 's' && s[open + 5] == 'o' && s[open + 6] == 'n'
    then open + 7
    else open + 3
  }

  /** The text holds a complete fenced block: an opening fence and a closing fence that
      starts after it (an empty body between them is allowed). */
  ghost predicate HasBlock(s: string) {
    exists p, q :: FenceAt(s, p) && FenceAt(s, q) && p + 3 <= q
  }

  /** `jsonMatch[1]` for the match whose opening fence is at `open` and whose closing
      fence is at `close`. The leading `\s*` is greedy and the group lazy, so the group
      ends where the white space before the closing fence starts: it is the text between
      the tag and the closing fence without its outer white space. */
  function Captured(s: string, tagEnd: nat, close: nat): string
    requires tagEnd <= close <= |s|
  {
    Trim(s[tagEnd..close])
  }

  /** `cleanJsonString`: the trimmed capture of the leftmost fenced block, or the whole
      text trimmed when there is none. The leftmost match starts at the first fence, and
      closes at the first fence after its tag. */
  function CleanJsonString(text: string): (r: string)
    ensures NoOuterSpace(r)
    ensures !HasBlock(text) ==> r == Trim(text)
  {
    match FindFence(text, 0)
    case None => Trim(text)
    case Some(open) =>
      var tagEnd := TagEnd(text, open);
      match FindFence(text, tagEnd)
      case None => Trim(text)
      case Some(close) => Trim(Captured(text, tagEnd, close))
  }

  /** With a complete fenced block, the result is the trimmed text between the tag of
      the first fence and the next fence after that tag. */
  lemma CleanOfBlock(text: string) returns (open: nat, close: nat)
    requires HasBlock(text)
    ensures FenceAt(text, open) && forall k :: 0 <= k < open ==> !FenceAt(text, k)
    ensures TagEnd(text, open) <= close && FenceAt(text, close)
    ensures forall k :: TagEnd(text, open) <= k < close ==> !FenceAt(text, k)
    ensures CleanJsonString(text) == Trim(text[TagEnd(text, open)..close])
  {
    var p, q :| FenceAt(text, p) && FenceAt(text, q) && p + 3 <= q;
    open := FindFence(text, 0).value;
    var tagEnd := TagEnd(text, open);
    assert q >= tagEnd;
    close := FindFence(text, tagEnd).value;
    CapturedIsTrim(text, tagEnd, close);
  }

  /** The capture is already trimmed, so the `.trim()` after it changes nothing. */
  lemma CapturedIsTrim(s: string, tagEnd: nat, close: nat)
    requires tagEnd <= close <= |s|
    ensures Trim(Captured(s, tagEnd, close)) == Captured(s, tagEnd, close) == Trim(s[tagEnd..close])
  {
    TrimKeeps(Trim(s[tagEnd..close]));
  }

  /** A fence inside a slice is a fence of the whole text, inside the slice's bounds. */
  lemma FenceOfSlice(s: string, i: nat, j: nat, k: int)
    requires i <= j <= |s| && FenceAt(s[i..j], k)
    ensures FenceAt(s, i + k) && i + k + 3 <= j
  {
    assert s[i..j][k] == s[i + k] && s[i..j][k + 1] == s[i + k + 1] && s[i..j][k + 2] == s[i + k + 2];
  }

  /** Trimming never creates a fenced block. */
  lemma TrimKeepsNoBlock(s: string)
    requires !HasBlock(s)
    ensures !HasBlock(Trim(s))
  {
    var i, j := TrimInfix(s);
    forall p, q | FenceAt(s[i..j], p) && FenceAt(s[i..j], q)
      ensures q < p + 3
    {
      FenceOfSlice(s, i, j, p);
      FenceOfSlice(s, i, j, q);
    }
  }

  /** The body of the first block holds no fence at all. */
  lemma BlockBodyHasNoFence(text: string, tagEnd: nat, close: nat)
    requires tagEnd <= close <= |text|
    requires forall k :: tagEnd <= k < close ==> !FenceAt(text, k)
    ensures NoFence(Trim(text[tagEnd..close]))
  {
    var body := text[tagEnd..close];
    var i, j := TrimInfix(body);
    var r := Trim(body);
    forall k | FenceAt(r, k)
      ensures false
    {
      FenceOfSlice(body, i, j, k);
      FenceOfSlice(text, tagEnd, close, i + k);
    }
  }

  /** The cleaned text never holds a complete fenced block; when the input had one, it
      holds no fence at all. */
  lemma CleanHasNoBlock(text: string)
    ensures !HasBlock(CleanJsonString(text))
    ensures HasBlock(text) ==> NoFence(CleanJsonString(text))
  {
    if HasBlock(text) {
      var open, close := CleanOfBlock(text);
      BlockBodyHasNoFence(text, TagEnd(text, open), close);
    } else {
      TrimKeepsNoBlock(text);
    }
  }

  /** Cleaning twice is cleaning once. */
  lemma CleanIdempotent(text: string)
    ensures CleanJsonString(CleanJsonString(text)) == CleanJsonString(text)
  {
    var r := CleanJsonString(text);
    CleanHasNoBlock(text);
    TrimKeeps(r);
  }

  /** A body wrapped in a `json`-tagged fence on lines of their own cleans to what the
      bare body cleans to, when the body holds no fence of its own. */
  lemma CleanJsonWrapped(body: string)
    requires NoFence(body)
    ensures CleanJsonString("```json\n" + body + "\n```") == CleanJsonString(body) == Trim(body)
  {
    var text := "```json\n" + body + "\n```";
    var n := |body|;
    assert FenceAt(text, 0);
    assert FindFence(text, 0) == Some(0);
    assert TagEnd(text, 0) == 7;
    WrappedFences(body, text);
    assert FindFence(text, 7) == Some(n + 9);
    assert text[7..n + 9] == "\n" + body + "\n";
    CapturedIsTrim(text, 7, n + 9);
    TrimPadded(body, "\n", "\n");
    assert FindFence(body, 0) == None;
  }

  lemma WrappedFences(body: string, text: string)
    requires NoFence(body) && text == "```json\n" + body + "\n```"
    ensures FenceAt(text, |body| + 9)
    ensures forall k :: 7 <= k < |body| + 9 ==> !FenceAt(text, k)
  {
    var n := |body|;
    assert forall i :: 0 <= i < n ==> text[8 + i] == body[i];
    assert text[7] == '\n' && text[n + 8] == '\n';
    forall k | 8 <= k < n + 6
      ensures !FenceAt(text, k)
    {
      if k + 3 <= n + 8 {
        assert !FenceAt(body, k - 8);
      }
    }
  }

  // ---------------------------------------------------------------------------
  // Validation

  /** `typeof c === 'object' && 'citation_number' in c && 'text' in c && 'source_index' in c`:
      `in` on null throws, and an array has none of these keys. */
  function CitationCheck(c: Json): (r: Eval<bool>)
    ensures r.Thrown? <==> c == JNull
    ensures r == Value(true) <==> CitationOk(c)
  {
    match c
    case JNull => Thrown
    case JObject(f) => Value("citation_number" in f && "text" in f && "source_index" in f)
    case _ => Value(false)
  }

  /** A citation that passes: an object with the three keys, whatever their values. */
  predicate CitationOk(c: Json) {
    c.JObject? && "citation_number" in c.fields && "text" in c.fields && "source_index" in c.fields
  }

  /** `citations.every(check)`: stops at the first citation that fails or throws. */
  function Every(items: seq<Json>): (r: Eval<bool>)
    ensures r == Value(true) <==> forall i :: 0 <= i < |items| ==> CitationOk(items[i])
    ensures r.Thrown? <==>
      exists i :: 0 <= i < |items| && items[i] == JNull && forall j :: 0 <= j < i ==> CitationOk(items[j])
  {
    if |items| == 0 then Value(true)
    else
      var rest := Every(items[1..]);
      assert forall i :: 1 <= i < |items| ==> items[i] == items[1..][i - 1];
      match CitationCheck(items[0])
      case Thrown => Thrown
      case Value(ok) =>
        if ok then
          assert forall i :: 0 < i < |items| && items[i] == JNull ==> items[1..][i - 1] == JNull;
          rest
        else Value(false)
  }

  /** The reply shape the endpoint accepts. */
  ghost predicate WellFormedResponse(v: Json) {
    && v.JObject?
    && "answer" in v.fields && v.fields["answer"].JString?
    && "citations" in v.fields && v.fields["citations"].JArray?
    && forall i :: 0 <= i < |v.fields["citations"].items| ==> CitationOk(v.fields["citations"].items[i])
  }

  /** The check throws on a null reply, and on a null citation that the check reaches. */
  predicate ValidationThrows(v: Json) {
    || v.JNull?
    || (&& v.JObject?
        && "answer" in v.fields && v.fields["answer"].JString?
        && "citations" in v.fields && v.fields["citations"].JArray?
        && Every(v.fields["citations"].items).Thrown?)
  }

  /** `validateResponseFormat` on a parsed value. */
  function ValidateResponseFormat(v: Json): (r: Eval<bool>)
    ensures r == Value(true) <==> WellFormedResponse(v)
    ensures r.Thrown? <==> ValidationThrows(v)
  {
    match v
    case JNull => Thrown
    case JObject(f) =>
      if "answer" in f && f["answer"].JString? && "citations" in f && f["citations"].JArray?
      then Every(f["citations"].items)
      else Value(false)
    case _ => Value(false)
  }

  /** An empty citation list passes, and citation values are not checked. */
  lemma ValidationIgnoresCitationValues(answer: string, fields: map<string, Json>)
    ensures ValidateResponseFormat(JObject(map["answer" := JString(answer), "citations" := JArray([])])) == Value(true)
    ensures ValidateResponseFormat(JObject(map["answer" := JString(answer), "citations" := JArray([
      JObject(map["citation_number" := JNull, "text" := JBool(false), "source_index" := JString("")])])])) == Value(true)
  {
    var c := JObject(map["citation_number" := JNull, "text" := JBool(false), "source_index" := JString("")]);
    assert CitationOk(c);
  }

  /** A null citation after passing ones throws; a failing one before it stops the check
      first. */
  lemma NullCitationThrows(answer: string, ok: Json, bad: Json)
    requires CitationOk(ok) && !bad.JNull? && !CitationOk(bad)
    ensures ValidateResponseFormat(JObject(map["answer" := JString(answer), "citations" := JArray([ok, JNull])])).Thrown?
    ensures ValidateResponseFormat(JObject(map["answer" := JString(answer), "citations" := JArray([bad, JNull])])) == Value(false)
  {
    assert [ok, JNull][1] == JNull;
    assert [bad, JNull][0] == bad;
  }

  // ---------------------------------------------------------------------------
  // The handler

  /** The parts of an incoming request the handler reads. */
  datatype Request = Request(verb: string, body: Option<Json>)

  /** What the model call gave: its text, or a failure (a rejected call or a throw). */
  datatype Generation = Text(raw: string) | Failed

  /** The reply the handler sends. */
  datatype Reply =
    | MethodNotAllowed
    | PromptRequired
    | InternalError
    | InvalidFormat(rawResponse: string)
    | JsonParseError(rawResponse: string, cleanedResponse: string)
    | Success(text: string)

  function Status(reply: Reply): (code: int)
    ensures code == 200 <==> reply.Success?
  {
    match reply
    case MethodNotAllowed => 405
    case PromptRequired => 400
    case InternalError => 500
    case InvalidFormat(_) => 500
    case JsonParseError(_, _) => 500
    case Success(_) => 200
  }

  /** What `const { prompt } = req.body` reads: destructuring null or undefined throws. */
  function Prompt(body: Option<Json>): Eval<Option<Json>> {
    if body.None? || body.value.JNull? then Thrown else Value(Member(body.value, "prompt"))
  }

  /** The request passes the checks made before the model is called. */
  predicate Admitted(req: Request) {
    req.verb == "POST" && Prompt(req.body).Value? && Truthy(Prompt(req.body).v)
  }

  /** The reply once the model has produced `raw`; `parse` is `JSON.parse`, `None` being
      a syntax error. A throw from the check lands in the same `catch` as a parse error. */
  function Classify(raw: string, parse: string -> Option<Json>): (r: Reply)
    ensures r.Success? || r.InvalidFormat? || r.JsonParseError?
    ensures r.Success? ==> NoOuterSpace(r.text) && parse(r.text).Some? && WellFormedResponse(parse(r.text).value)
  {
    var cleaned := CleanJsonString(raw);
    match parse(cleaned)
    case None => JsonParseError(raw, cleaned)
    case Some(parsed) =>
      match ValidateResponseFormat(parsed)
      case Thrown => JsonParseError(raw, cleaned)
      case Value(ok) => if ok then Success(cleaned) else InvalidFormat(raw)
  }

  /** The handler; `generate` is the model call on the prompt. */
  function Handle(req: Request, generate: Json -> Generation, parse: string -> Option<Json>): (r: Reply)
    ensures r == MethodNotAllowed <==> req.verb != "POST"
    ensures r == PromptRequired <==> req.verb == "POST" && Prompt(req.body).Value? && !Truthy(Prompt(req.body).v)
    ensures r.Success? || r.InvalidFormat? || r.JsonParseError? ==> Admitted(req)
    ensures Admitted(req) && generate(Prompt(req.body).v.value).Text? ==>
      r == Classify(generate(Prompt(req.body).v.value).raw, parse)
    ensures Admitted(req) && generate(Prompt(req.body).v.value).Failed? ==> r == InternalError
  {
    if req.verb != "POST" then MethodNotAllowed
    else
      match Prompt(req.body)
      case Thrown => InternalError
      case Value(prompt) =>
        if !Truthy(prompt) then PromptRequired
        else
          match generate(prompt.value)
          case Failed => InternalError
          case Text(raw) => Classify(raw, parse)
  }

  /** A request refused before the model call gets the same reply whatever the model and
      the parser would do: 405 for any method but POST, 400 for a missing or falsy
      prompt, 500 for a body that cannot be destructured. */
  lemma EarlyReplies(req: Request, g1: Json -> Generation, g2: Json -> Generation,
                     p1: string -> Option<Json>, p2: string -> Option<Json>)
    requires !Admitted(req)
    ensures Handle(req, g1, p1) == Handle(req, g2, p2)
    ensures req.verb != "POST" ==> Status(Handle(req, g1, p1)) == 405
    ensures req.verb == "POST" && Prompt(req.body).Value? ==> Status(Handle(req, g1, p1)) == 400
    ensures req.verb == "POST" && Prompt(req.body).Thrown? ==> Status(Handle(req, g1, p1)) == 500
  {
  }

  /** A missing or empty prompt is refused with 400. */
  lemma MissingPromptRefused(fields: map<string, Json>, g: Json -> Generation, p: string -> Option<Json>)
    requires "prompt" !in fields || fields["prompt"] == JString("")
    ensures Handle(Request("POST", Some(JObject(fields))), g, p) == PromptRequired
  {
  }

  /** After generation: unparsable cleaned text is a parse error, a parsed value the check
      throws on is a parse error too, a parsed value that fails the check is an invalid
      format, and otherwise the reply's text is exactly the cleaned text, which parses to
      a well-formed reply. */
  lemma ClassifyOutcomes(raw: string, parse: string -> Option<Json>)
    ensures var cleaned := CleanJsonString(raw);
      && (parse(cleaned).None? ==> Classify(raw, parse) == JsonParseError(raw, cleaned))
      && (parse(cleaned).Some? && ValidationThrows(parse(cleaned).value) ==>
            Classify(raw, parse) == JsonParseError(raw, cleaned))
      && (parse(cleaned).Some? && !ValidationThrows(parse(cleaned).value) && !WellFormedResponse(parse(cleaned).value) ==>
            Classify(raw, parse) == InvalidFormat(raw))
      && (Classify(raw, parse).Success? <==> parse(cleaned).Some? && WellFormedResponse(parse(cleaned).value))
      && (Classify(raw, parse).Success? ==> Classify(raw, parse).text == cleaned)
  {
  }

  /** A successful reply is an admitted request whose model text cleans to the reply's
      text, which is trimmed, holds no fenced block and parses to a well-formed reply. */
  lemma SuccessReply(req: Request, generate: Json -> Generation, parse: string -> Option<Json>)
    requires Handle(req, generate, parse).Success?
    ensures Admitted(req)
    ensures var t := Handle(req, generate, parse).text;
      && generate(Prompt(req.body).v.value).Text?
      && t == CleanJsonString(generate(Prompt(req.body).v.value).raw)
      && NoOuterSpace(t) && !HasBlock(t)
      && parse(t).Some? && WellFormedResponse(parse(t).value)
  {
    CleanHasNoBlock(generate(Prompt(req.body).v.value).raw);
  }

  /** A `null` reply from the model is reported as a parse error, not as an invalid
      format. */
  lemma NullReplyIsParseError(raw: string, parse: string -> Option<Json>)
    requires parse(CleanJsonString(raw)) == Some(JNull)
    ensures Classify(raw, parse) == JsonParseError(raw, CleanJsonString(raw))
  {
  }
}
