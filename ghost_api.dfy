/**
  The Admin API client (src/services/ghost-api.ts): the payload cleaning done
  before every write, the extraction of a readable message from a failed
  request, the fail-soft lookup of an existing post, and the create and
  update requests. `requestUrl` is a transport function from a request to
  the parsed response body or the thrown error.
 */
module GhostApi {

  import opened Wrappers
  import opened Text
  import opened Settings
  import opened JsValues
  import opened GhostTypes
  import opened Jwt

  /** A plain JavaScript object: its own properties and their values. */
  type JsObject = map<string, Value>

  /** `o[key]`: `undefined` when the property is absent. */
  function Prop(o: JsObject, key: string): Value {
    if key in o then o[key] else Undefined
  }

  // ---------------------------------------------------------------------
  // `cleanPostData`

  /** The values the cleaning drops: `undefined`, `null`, `''` and `[]`. */
  predicate Dropped(v: Value) {
    v.Undefined? || v.Null? || v == Str("") || v == Arr([])
  }

  /** A value that is still truthy once the cleaning has dropped `[]`. */
  predicate Filled(v: Value) {
    Truthy(v) && v != Arr([])
  }

  const PostStatuses: seq<string> := ["draft", "published", "scheduled"]
  const PostVisibilities: seq<string> := ["public", "members", "paid"]

  const TitleRequired := "Post title is required"
  const ContentRequired := "Post content (html or mobiledoc) is required"

  /** The entries among `keys` that the cleaning keeps. */
  function KeptAmong(post: JsObject, keys: set<string>): (clean: JsObject)
    ensures forall k :: k in clean <==> k in keys && k in post && !Dropped(post[k])
    ensures forall k :: k in clean ==> clean[k] == post[k]
  {
    map k | k in keys && k in post && !Dropped(post[k]) :: post[k]
  }

  /** Every entry of the post whose value is not dropped. */
  function Kept(post: JsObject): JsObject {
    KeptAmong(post, post.Keys)
  }

  /** The status a cleaned post is sent with: its own when that is truthy and
      names one of the three statuses, else "draft". */
  function CleanStatus(clean: JsObject): Value {
    var status := Prop(clean, "status");
    if !Truthy(status) || ToJsString(status) !in PostStatuses then Str("draft") else status
  }

  /** The overwrites after the checks: the status always, the visibility
      when it is truthy but not one of the three. */
  function Normalised(clean: JsObject): JsObject {
    var withStatus := clean["status" := CleanStatus(clean)];
    var visibility := Prop(withStatus, "visibility");
    if Truthy(visibility) && ToJsString(visibility) !in PostVisibilities then withStatus["visibility" := Str("public")]
    else withStatus
  }

  /** What `cleanPostData` returns, or the message it throws. */
  function Cleaned(post: JsObject): Result<JsObject, string> {
    var clean := Kept(post);
    if !Truthy(Prop(clean, "title")) then Failure(TitleRequired)
    else if !Truthy(Prop(clean, "html")) && !Truthy(Prop(clean, "mobiledoc")) then Failure(ContentRequired)
    else Success(Normalised(clean))
  }

  /** Keeping one more key adds its entry exactly when its value is not dropped. */
  lemma KeptStep(post: JsObject, done: set<string>, key: string)
    requires key in post
    ensures KeptAmong(post, done + {key}) == if Dropped(post[key]) then KeptAmong(post, done) else KeptAmong(post, done)[key := post[key]]
  {
    var next := KeptAmong(post, done + {key});
    var expected := if Dropped(post[key]) then KeptAmong(post, done) else KeptAmong(post, done)[key := post[key]];
    assert next.Keys == expected.Keys;
    MapsAgree(next, expected);
  }

  /** `cleanPostData`: copies every entry that is not dropped, checks the
      title and the content, then overwrites the status and the visibility. */
  method CleanPostData(post: JsObject) returns (r: Result<JsObject, string>)
    ensures r == Cleaned(post)
  {
    var clean: JsObject := map[];
    var remaining := post.Keys;
    while remaining != {}
      invariant remaining <= post.Keys
      invariant clean == KeptAmong(post, post.Keys - remaining)
      decreases |remaining|
    {
      var key :| key in remaining;
      var value := post[key];
      KeptStep(post, post.Keys - remaining, key);
      assert post.Keys - (remaining - {key}) == (post.Keys - remaining) + {key};
      remaining := remaining - {key};
      if value.Undefined? || value.Null? || value == Str("") {
        continue;
      }
      if value.Arr? && |value.items| == 0 {
        continue;
      }
      clean := clean[key := value];
    }
    assert post.Keys - remaining == post.Keys;
    assert clean == Kept(post);
    if !Truthy(Prop(clean, "title")) {
      return Failure(TitleRequired);
    }
    if !Truthy(Prop(clean, "html")) && !Truthy(Prop(clean, "mobiledoc")) {
      return Failure(ContentRequired);
    }
    var status := Prop(clean, "status");
    if !Truthy(status) || ToJsString(status) !in PostStatuses {
      clean := clean["status" := Str("draft")];
    } else {
      assert clean == clean["status" := CleanStatus(clean)];
    }
    var visibility := Prop(clean, "visibility");
    if Truthy(visibility) && ToJsString(visibility) !in PostVisibilities {
      clean := clean["visibility" := Str("public")];
    }
    r := Success(clean);
  }

  /** A property of the kept entries is truthy exactly when the original one
      is truthy and not an empty array. */
  lemma KeptTruthy(post: JsObject, key: string)
    ensures Truthy(Prop(Kept(post), key)) <==> Filled(Prop(post, key))
  {
  }

  /** The cleaning fails for a missing title first, then for missing
      content, and succeeds otherwise. */
  lemma CleanedFailures(post: JsObject)
    ensures Cleaned(post) == Failure(TitleRequired) <==> !Filled(Prop(post, "title"))
    ensures Cleaned(post) == Failure(ContentRequired)
      <==> Filled(Prop(post, "title")) && !Filled(Prop(post, "html")) && !Filled(Prop(post, "mobiledoc"))
    ensures Cleaned(post).Success? <==> Filled(Prop(post, "title")) && (Filled(Prop(post, "html")) || Filled(Prop(post, "mobiledoc")))
  {
    KeptTruthy(post, "title");
    KeptTruthy(post, "html");
    KeptTruthy(post, "mobiledoc");
  }

  /** What a cleaned post holds: every entry of the input that is not
      dropped, unchanged (`false` and `0` included), apart from the status,
      which is always present and valid, and the visibility, which is
      replaced by "public" when it is truthy and invalid. */
  lemma CleanedEntries(post: JsObject)
    requires Cleaned(post).Success?
    ensures var c := Cleaned(post).value;
      && (forall k :: k != "status" ==> (k in c <==> k in post && !Dropped(post[k])))
      && (forall k :: k in c && k != "status" && k != "visibility" ==> c[k] == post[k])
      && "status" in c && Truthy(c["status"]) && ToJsString(c["status"]) in PostStatuses
      && c["status"] == (if Truthy(Prop(post, "status")) && ToJsString(Prop(post, "status")) in PostStatuses then post["status"] else Str("draft"))
      && ("visibility" in c ==>
            (c["visibility"] == if Truthy(post["visibility"]) && ToJsString(post["visibility"]) !in PostVisibilities then Str("public") else post["visibility"]))
  {
    var kept := Kept(post);
    var c := Cleaned(post).value;
    assert c == Normalised(kept);
    assert Prop(kept, "status") == Prop(post, "status") || (Prop(kept, "status") == Undefined && Dropped(Prop(post, "status")));
    assert ToJsString(Str("draft")) == "draft";
    if "visibility" in c {
      assert "visibility" in kept;
      assert ToJsString(Str("public")) == "public";
    }
  }

  /** No value of a cleaned post is one the cleaning drops. */
  lemma CleanedHoldsNothingDropped(post: JsObject)
    requires Cleaned(post).Success?
    ensures forall k :: k in Cleaned(post).value ==> !Dropped(Cleaned(post).value[k])
  {
    var c := Cleaned(post).value;
    CleanedEntries(post);
    forall k | k in c
      ensures !Dropped(c[k])
    {
      if k != "status" && k != "visibility" {
        assert c[k] == post[k];
      } else if k == "visibility" {
        assert "visibility" in post && !Dropped(post["visibility"]);
      }
    }
  }

  /** Cleaning a cleaned post changes nothing. */
  lemma CleanedIdempotent(post: JsObject)
    requires Cleaned(post).Success?
    ensures Cleaned(Cleaned(post).value) == Cleaned(post)
  {
    var c := Cleaned(post).value;
    var kept := Kept(post);
    CleanedEntries(post);
    assert Kept(c) == c by {
      CleanedHoldsNothingDropped(post);
      MapsAgree(Kept(c), c);
    }
    assert Truthy(Prop(c, "title")) && (Truthy(Prop(c, "html")) || Truthy(Prop(c, "mobiledoc"))) by {
      assert Prop(c, "title") == Prop(kept, "title");
      assert Prop(c, "html") == Prop(kept, "html");
      assert Prop(c, "mobiledoc") == Prop(kept, "mobiledoc");
    }
    assert Normalised(c) == c by {
      assert CleanStatus(c) == c["status"];
      assert c["status" := CleanStatus(c)] == c;
      if "visibility" in c {
        assert Truthy(c["visibility"]) ==> ToJsString(c["visibility"]) in PostVisibilities;
      }
    }
  }

  /** An object with a non-empty title, some HTML and a valid status cleans
      without error and keeps that status and a valid visibility. */
  lemma ValidObjectCleans(o: JsObject, title: string, html: string, status: PublishStatus, visibility: Option<PostVisibility>)
    requires "title" in o && o["title"] == Str(title) && title != ""
    requires "html" in o && o["html"] == Str(html) && html != ""
    requires "status" in o && o["status"] == Str(StatusName(status))
    requires visibility.Some? ==> "visibility" in o && o["visibility"] == Str(VisibilityName(visibility.value))
    ensures Cleaned(o).Success?
    ensures Prop(Cleaned(o).value, "status") == Str(StatusName(status))
    ensures visibility.Some? ==> Prop(Cleaned(o).value, "visibility") == Str(VisibilityName(visibility.value))
  {
    CleanedFailures(o);
    CleanedEntries(o);
    assert ToJsString(Str(StatusName(status))) == StatusName(status);
    if visibility.Some? {
      assert ToJsString(Str(VisibilityName(visibility.value))) == VisibilityName(visibility.value);
    }
  }

  /** A post the builder prepared, with a title and some HTML, cleans
      without error and keeps its status and visibility. */
  lemma PreparedPostCleans(p: GhostPost)
    requires p.title != "" && p.html.Some? && p.html.value != ""
    ensures Cleaned(PostToObject(p)).Success?
    ensures Prop(Cleaned(PostToObject(p)).value, "status") == Str(StatusName(p.status))
    ensures p.visibility.Some? ==> Prop(Cleaned(PostToObject(p)).value, "visibility") == Str(VisibilityName(p.visibility.value))
  {
    ValidObjectCleans(PostToObject(p), p.title, p.html.value, p.status, p.visibility);
  }

  // ---------------------------------------------------------------------
  // `getDetailedError`

  /** `entry.message ?? entry.type` as `join` renders it; `None` when the
      entry is `null` or `undefined`, where reading a property throws. */
  function EntryText(entry: Value): Option<string> {
    if entry.Null? || entry.Undefined? then None
    else
      var message := Get(entry, "message");
      var shown := if message.Null? || message.Undefined? then Get(entry, "type") else message;
      Some(if shown.Null? || shown.Undefined? then "" else ToJsString(shown))
  }

  /** The texts of all entries, or `None` when one of them throws. */
  function EntryTexts(entries: seq<Value>): (r: Option<seq<string>>)
    ensures r.Some? <==> forall k :: 0 <= k < |entries| ==> EntryText(entries[k]).Some?
    ensures r.Some? ==> |r.value| == |entries| && forall k :: 0 <= k < |entries| ==> r.value[k] == EntryText(entries[k]).value
  {
    if entries == [] then Some([])
    else
      match (EntryText(entries[0]), EntryTexts(entries[1..]))
      case (Some(t), Some(ts)) => Some([t] + ts)
      case _ => None
  }

  const UnknownValidationError := "Unknown validation error"

  /** `error?.message ?? fallback`. */
  function MessageOr(error: Value, fallback: string): string {
    var message := Get(error, "message");
    if message.Null? || message.Undefined? then fallback else ToJsString(message)
  }

  /** `error?.message ?? 'Unknown validation error'`. */
  function ErrorMessage(error: Value): string {
    MessageOr(error, UnknownValidationError)
  }

  /** `getDetailedError(error)`, with `JSON.parse` as `parseJson` (`None`
      when it throws). */
  function DetailedError(error: Value, parseJson: string -> Option<Value>): string {
    var text := Get(Get(error, "response"), "text");
    if !Truthy(text) then ErrorMessage(error)
    else
      var raw := ToJsString(text);
      match parseJson(raw)
      case None => raw
      case Some(data) =>
        if data.Null? || data.Undefined? then raw
        else
          var errors := Get(data, "errors");
          if errors.Arr? && |errors.items| > 0 then
            match EntryTexts(errors.items)
            case None => raw
            case Some(texts) => JoinWith(texts, ", ")
          else ErrorMessage(error)
  }

  /** The Ghost error shape: every entry's message, joined by ", ". */
  lemma DetailedErrorListsMessages(error: Value, parseJson: string -> Option<Value>, data: Value, entries: seq<Value>, messages: seq<string>)
    requires Truthy(Get(Get(error, "response"), "text"))
    requires parseJson(ToJsString(Get(Get(error, "response"), "text"))) == Some(data)
    requires data.Obj? && Get(data, "errors") == Arr(entries)
    requires entries != [] && |entries| == |messages|
    requires forall k :: 0 <= k < |entries| ==> entries[k].Obj? && Get(entries[k], "message") == Str(messages[k])
    ensures DetailedError(error, parseJson) == JoinWith(messages, ", ")
  {
    EntriesWithMessages(entries, messages);
    DetailedErrorJoinsTexts(error, parseJson, data, messages);
  }

  /** A non-empty error list whose entries all render is shown joined. */
  lemma DetailedErrorJoinsTexts(error: Value, parseJson: string -> Option<Value>, data: Value, texts: seq<string>)
    requires Truthy(Get(Get(error, "response"), "text"))
    requires parseJson(ToJsString(Get(Get(error, "response"), "text"))) == Some(data)
    requires data.Obj? && Get(data, "errors").Arr? && |Get(data, "errors").items| > 0
    requires EntryTexts(Get(data, "errors").items) == Some(texts)
    ensures DetailedError(error, parseJson) == JoinWith(texts, ", ")
  {
  }

  /** Entries that carry a string message are shown by it. */
  lemma EntriesWithMessages(entries: seq<Value>, messages: seq<string>)
    requires |entries| == |messages|
    requires forall k :: 0 <= k < |entries| ==> entries[k].Obj? && Get(entries[k], "message") == Str(messages[k])
    ensures EntryTexts(entries) == Some(messages)
  {
    forall k | 0 <= k < |entries|
      ensures EntryText(entries[k]) == Some(messages[k])
    {
      StringOfString(messages[k]);
    }
    assert EntryTexts(entries).value == messages;
  }

  /** An entry without a message is shown by its type. */
  lemma EntryTextFallsBackToType(entry: Value)
    requires entry.Obj? && "message" !in entry.fields && "type" in entry.fields && entry.fields["type"].Str?
    ensures EntryText(entry) == Some(entry.fields["type"].s)
  {
  }

  /** A body that does not parse, or parses to `null`, or has an entry that
      is `null`, is returned as it is. */
  lemma DetailedErrorRawBody(error: Value, parseJson: string -> Option<Value>)
    requires Truthy(Get(Get(error, "response"), "text"))
    requires var raw := ToJsString(Get(Get(error, "response"), "text"));
      || parseJson(raw).None?
      || parseJson(raw) == Some(Null)
      || (parseJson(raw).Some? && Get(parseJson(raw).value, "errors").Arr?
          && exists k :: 0 <= k < |Get(parseJson(raw).value, "errors").items| && Get(parseJson(raw).value, "errors").items[k] == Null)
    ensures DetailedError(error, parseJson) == ToJsString(Get(Get(error, "response"), "text"))
  {
  }

  /** Without a response body, or with a body that carries no error list,
      the result is the error's own message or the fixed fallback. */
  lemma DetailedErrorFallback(error: Value, parseJson: string -> Option<Value>)
    requires var text := Get(Get(error, "response"), "text");
      || !Truthy(text)
      || (parseJson(ToJsString(text)).Some? && !parseJson(ToJsString(text)).value.Null?
          && !parseJson(ToJsString(text)).value.Undefined? && !Get(parseJson(ToJsString(text)).value, "errors").Arr?)
    ensures DetailedError(error, parseJson) == ErrorMessage(error)
    ensures Get(error, "message").Str? ==> DetailedError(error, parseJson) == Get(error, "message").s
    ensures !error.Obj? ==> DetailedError(error, parseJson) == UnknownValidationError
  {
  }

  // ---------------------------------------------------------------------
  // Requests

  /** What `requestUrl` is given: method, URL, the Authorization header and
      the body before `JSON.stringify`. */
  datatype Request = Request(verb: string, url: string, authorization: string, body: Option<Value>)

  /** `requestUrl`: the parsed response body, or the error it throws. */
  type Transport = Request -> Result<Value, Value>

  /** The error object a `throw new Error(message)` raises. */
  function ErrorValue(message: string): (v: Value)
    ensures ErrorMessage(v) == message
  {
    Obj(map["message" := Str(message)])
  }

  /** `v?.length`. */
  function LengthOf(v: Value): Value {
    match v
    case Arr(items) => Num(|items|)
    case Str(s) => Num(|s|)
    case Obj(_) => Get(v, "length")
    case _ => Undefined
  }

  /** `v[0]`. */
  function ElementZero(v: Value): Value {
    match v
    case Arr(items) => if items == [] then Undefined else items[0]
    case Str(s) => if s == [] then Undefined else Str([s[0]])
    case Obj(_) => Get(v, "0")
    case _ => Undefined
  }

  /** The lookup's decision on a response body: `posts[0]` when `posts` has
      a truthy length, else `null`. */
  function FoundPost(json: Value): Value {
    var posts := Get(json, "posts");
    if Truthy(LengthOf(posts)) then ElementZero(posts) else Null
  }

  /** On the API's answer shape the lookup is the first post, or `null` for
      an empty or absent list. */
  lemma FoundPostIs(json: Value)
    ensures Get(json, "posts").Arr? ==> FoundPost(json) == (if Get(json, "posts").items == [] then Null else Get(json, "posts").items[0])
    ensures Get(json, "posts").Undefined? || Get(json, "posts").Null? ==> FoundPost(json) == Null
  {
  }

  function Authorization(token: string): string {
    "Ghost " + token
  }

  function PostsUrl(settings: WitchSettings): string {
    settings.ghostSiteUrl + "/ghost/api/admin/posts/"
  }

  function LookupRequest(settings: WitchSettings, slugOrTitle: string, token: string): Request {
    Request("GET", PostsUrl(settings) + "?filter=slug:" + slugOrTitle, Authorization(token), None)
  }

  /** What `findExistingPost` returns and the request it sends: the
      first post whose slug matches, or `null` when there is none or when
      anything throws (the token or the request). */
  function LookupResult(settings: WitchSettings, slugOrTitle: string, clock: Clock, hmac: Hmac, transport: Transport): (Value, Option<Request>) {
    match AdminToken(settings.adminApiKey, clock, hmac)
    case Failure(_) => (Null, None)
    case Success(token) =>
      var request := LookupRequest(settings, slugOrTitle, token);
      match transport(request)
      case Failure(_) => (Null, Some(request))
      case Success(json) => (FoundPost(json), Some(request))
  }

  /** The lookup fails soft: a token or transport failure gives `null`, and
      a request carries a freshly signed token. */
  lemma LookupFailsSoft(settings: WitchSettings, slugOrTitle: string, clock: Clock, hmac: Hmac, transport: Transport)
    ensures var (post, sent) := LookupResult(settings, slugOrTitle, clock, hmac, transport);
      && (AdminToken(settings.adminApiKey, clock, hmac).Failure? <==> sent.None?)
      && (sent.None? ==> post == Null)
      && (sent.Some? ==>
            && sent.value.verb == "GET" && sent.value.body.None?
            && sent.value.authorization == "Ghost " + AdminToken(settings.adminApiKey, clock, hmac).value
            && sent.value.url == PostsUrl(settings) + "?filter=slug:" + slugOrTitle)
      && (sent.Some? && transport(sent.value).Failure? ==> post == Null)
      && (sent.Some? && transport(sent.value).Success? ==> post == FoundPost(transport(sent.value).value))
  {
    var token := AdminToken(settings.adminApiKey, clock, hmac);
    if token.Success? {
      var request := LookupRequest(settings, slugOrTitle, token.value);
      assert LookupResult(settings, slugOrTitle, clock, hmac, transport).1 == Some(request);
    }
  }

  method FindExistingPost(settings: WitchSettings, slugOrTitle: string, clock: Clock, hmac: Hmac, transport: Transport)
    returns (post: Value, sent: Option<Request>)
    ensures (post, sent) == LookupResult(settings, slugOrTitle, clock, hmac, transport)
  {
    var token := AdminToken(settings.adminApiKey, clock, hmac);
    if token.Failure? {
      return Null, None;
    }
    var request := LookupRequest(settings, slugOrTitle, token.value);
    sent := Some(request);
    var response := transport(request);
    if response.Failure? {
      return Null, sent;
    }
    var posts := Get(response.value, "posts");
    if Truthy(LengthOf(posts)) {
      post := ElementZero(posts);
    } else {
      post := Null;
    }
  }

  /** The body of a write: `{ posts: [clean] }`. */
  function WriteBody(clean: JsObject): Value {
    Obj(map["posts" := Arr([Obj(clean)])])
  }

  /** The request a write sends once the token is signed and the payload cleaned. */
  function WriteRequest(verb: string, url: string, token: string, clean: JsObject): Request {
    Request(verb, url, Authorization(token), Some(WriteBody(clean)))
  }

  /** What a write returns or throws, and the request it sends: a token is
      signed and the payload cleaned first, and a throw from either ends
      the call before anything is sent. */
  function WriteResult(settings: WitchSettings, verb: string, url: string, post: JsObject, clock: Clock, hmac: Hmac, transport: Transport)
    : (Result<Value, Value>, Option<Request>)
  {
    match AdminToken(settings.adminApiKey, clock, hmac)
    case Failure(e) => (Failure(ErrorValue(e)), None)
    case Success(token) =>
      match Cleaned(post)
      case Failure(e) => (Failure(ErrorValue(e)), None)
      case Success(clean) =>
        var request := WriteRequest(verb, url, token, clean);
        (transport(request), Some(request))
  }

  /** A write sends exactly when a fresh token is signed and the payload
      cleans; it then sends the cleaned payload alone, under that token, and
      returns what the transport returns. Otherwise it throws the message
      of the first failure. */
  lemma WriteSendsCleaned(settings: WitchSettings, verb: string, url: string, post: JsObject, clock: Clock, hmac: Hmac, transport: Transport)
    ensures var token := AdminToken(settings.adminApiKey, clock, hmac);
      var (outcome, sent) := WriteResult(settings, verb, url, post, clock, hmac, transport);
      && (sent.Some? <==> token.Success? && Cleaned(post).Success?)
      && (sent.Some? ==>
            && sent.value.verb == verb && sent.value.url == url
            && sent.value.authorization == "Ghost " + token.value
            && sent.value.body == Some(Obj(map["posts" := Arr([Obj(Cleaned(post).value)])]))
            && outcome == transport(sent.value))
      && (token.Failure? ==> outcome == Failure(ErrorValue(token.error)))
      && (token.Success? && Cleaned(post).Failure? ==> outcome == Failure(ErrorValue(Cleaned(post).error)))
  {
  }

  /** The shared part of `createGhostPost` and `updateGhostPost`. */
  method Write(settings: WitchSettings, verb: string, url: string, post: JsObject, clock: Clock, hmac: Hmac, transport: Transport)
    returns (outcome: Result<Value, Value>, sent: Option<Request>)
    ensures (outcome, sent) == WriteResult(settings, verb, url, post, clock, hmac, transport)
  {
    var token := AdminToken(settings.adminApiKey, clock, hmac);
    if token.Failure? {
      return Failure(ErrorValue(token.error)), None;
    }
    var clean := CleanPostData(post);
    if clean.Failure? {
      return Failure(ErrorValue(clean.error)), None;
    }
    var request := WriteRequest(verb, url, token.value, clean.value);
    sent := Some(request);
    outcome := transport(request);
  }

  function CreateUrl(settings: WitchSettings): string {
    PostsUrl(settings) + "?source=html"
  }

  function UpdateUrl(settings: WitchSettings, postId: string): string {
    PostsUrl(settings) + postId + "/?source=html"
  }

  /** `createGhostPost`: a POST of the cleaned payload to the posts collection. */
  method CreateGhostPost(settings: WitchSettings, post: JsObject, clock: Clock, hmac: Hmac, transport: Transport)
    returns (outcome: Result<Value, Value>, sent: Option<Request>)
    ensures (outcome, sent) == WriteResult(settings, "POST", CreateUrl(settings), post, clock, hmac, transport)
  {
    outcome, sent := Write(settings, "POST", CreateUrl(settings), post, clock, hmac, transport);
  }

  /** `updateGhostPost`: a PUT of the cleaned payload to the post's own URL. */
  method UpdateGhostPost(settings: WitchSettings, postId: string, post: JsObject, clock: Clock, hmac: Hmac, transport: Transport)
    returns (outcome: Result<Value, Value>, sent: Option<Request>)
    ensures (outcome, sent) == WriteResult(settings, "PUT", UpdateUrl(settings, postId), post, clock, hmac, transport)
  {
    outcome, sent := Write(settings, "PUT", UpdateUrl(settings, postId), post, clock, hmac, transport);
  }
}
