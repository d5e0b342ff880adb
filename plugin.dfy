// The plugin's two commands (`main.ts`): publishing the active note to
// Ghost, and uploading a note's local images to R2 and writing the note
// back. Both are modelled as written, and beside them as evidently
// intended: the image pass is called with its options object in the place
// of the post title, so the options it reads are `undefined`.

module Plugin {

  import opened Wrappers
  import opened Text
  import opened Settings
  import opened JsValues
  import opened Media
  import opened FileResolver
  import opened FrontmatterParser
  import opened R2Storage
  import opened MarkdownProcessor
  import opened PostBuilder
  import opened GhostTypes
  import opened Jwt
  import opened GhostApi

  /** What the commands work with: the settings, `vault.read` (the note's
      text, or what it throws), the YAML loader of the front-matter parser,
      the R2 service and the Markdown processor (built over the same
      settings), the date check of the post builder, and what the Ghost
      client needs to sign and send requests and to parse error bodies. */
  datatype Host = Host(
    settings: WitchSettings,
    read: TFile -> Result<string, Value>,
    yamlLoad: YamlLoader,
    svc: R2Service,
    processor: Processor,
    parsesAsDate: string -> bool,
    hmac: Hmac,
    transport: Transport,
    parseJson: string -> Option<Value>)

  /** The clock readings of the two tokens a publish signs: one for the
      lookup, one for the write. */
  datatype Clocks = Clocks(lookup: Clock, write: Clock)

  /** The notice a publish ends with. */
  datatype Report =
    | NotConfigured
    | Created(title: string)
    | Updated(title: string)
    | ValidationFailed(details: string)
    | Failed(message: string)

  /** The notice the upload command ends with. */
  datatype UploadReport =
    | R2NotConfigured
    | Replaced(count: nat)
    | NothingUploaded
    | UploadFailed(message: string)

  /** `String({ uploadToR2: ..., replaceInOriginal: ... })`: what the image
      pass receives as the post title from both commands. */
  const ObjectTitle := "[object Object]"

  /** The options both commands evidently meant to pass. */
  const PublishOptions := ProcessOptions(true, false)
  const UploadOptions := ProcessOptions(true, true)

  const UnknownError := "Unknown error"

  predicate GhostConfigured(s: WitchSettings) {
    s.ghostSiteUrl != "" && s.adminApiKey != ""
  }

  // ---------------------------------------------------------------------
  // The error notice

  /** The `catch` of `publishToGhost`: a message mentioning 422 is a Ghost
      validation error, explained from the response body; anything else is
      reported by its message. */
  function ErrorReport(error: Value, parseJson: string -> Option<Value>): Report {
    var message := Get(error, "message");
    if message.Str? && Contains(message.s, "422") then ValidationFailed(DetailedError(error, parseJson))
    else Failed(MessageOr(error, UnknownError))
  }

  /** A validation report exactly for a message mentioning 422; an error the
      plugin throws itself is reported by its own message; an error without
      a message by the fixed fallback. */
  lemma ErrorReportCases(error: Value, parseJson: string -> Option<Value>, message: string)
    ensures ErrorReport(error, parseJson).ValidationFailed?
        <==> Get(error, "message").Str? && Contains(Get(error, "message").s, "422")
    ensures !Contains(message, "422") ==> ErrorReport(ErrorValue(message), parseJson) == Failed(message)
    ensures Contains(message, "422") ==>
              ErrorReport(ErrorValue(message), parseJson) == ValidationFailed(DetailedError(ErrorValue(message), parseJson))
    ensures !error.Obj? ==> ErrorReport(error, parseJson) == Failed(UnknownError)
  {
    var v := ErrorValue(message);
    assert Get(v, "message") == Str(message);
    StringOfString(message);
  }

  // ---------------------------------------------------------------------
  // Publishing

  /** The image pass of a publish: only when R2 is configured. */
  function ImagesProcessed(h: Host, file: TFile, markdown: string, postTitle: string, options: Option<ProcessOptions>): string {
    if ShouldUseR2(h.svc.settings) then ProcessAll(h.svc, markdown, file, postTitle, options).content
    else markdown
  }

  /** The post built from the note's text: the front matter split off, the
      images processed, the body converted to HTML, the post prepared
      (with no known tags). */
  function PostFor(h: Host, file: TFile, raw: string, postTitle: string, options: Option<ProcessOptions>): Result<GhostPost, string> {
    var parsed := ParseFrontmatter(raw, h.yamlLoad);
    var processed := ImagesProcessed(h, file, parsed.markdownContent, postTitle, options);
    var html := ConvertedHtml(h.processor, processed, Some(file));
    PreparedPost(h.settings, file, parsed.metadata, html, [], h.parsesAsDate)
  }

  /** `ghostPost.slug ?? ghostPost.title`. */
  function Identifier(p: GhostPost): string {
    if p.slug.Some? then p.slug.value else p.title
  }

  /** `{ ...ghostPost, updated_at: existingPost.updated_at }`. */
  function UpdatePayload(p: GhostPost, existing: Value): JsObject {
    PostToObject(p)["updated_at" := Get(existing, "updated_at")]
  }

  /** `existingPost.id!`, as the URL template renders it. */
  function ExistingId(existing: Value): string {
    ToJsString(Get(existing, "id"))
  }

  function Sent(r: Option<Request>): seq<Request> {
    if r.Some? then [r.value] else []
  }

  /** The write of a publish: an update of the post found, or a creation. */
  function WriteFor(h: Host, p: GhostPost, existing: Value, clock: Clock): (Result<Value, Value>, Option<Request>) {
    if Truthy(existing) then
      WriteResult(h.settings, "PUT", UpdateUrl(h.settings, ExistingId(existing)), UpdatePayload(p, existing), clock, h.hmac, h.transport)
    else
      WriteResult(h.settings, "POST", CreateUrl(h.settings), PostToObject(p), clock, h.hmac, h.transport)
  }

  /** The Ghost side of a publish: the lookup, then an update of the post
      found or a creation, and the notice that follows. */
  function Delivery(h: Host, p: GhostPost, clocks: Clocks): (Report, seq<Request>) {
    var (existing, lookup) := LookupResult(h.settings, Identifier(p), clocks.lookup, h.hmac, h.transport);
    var (outcome, write) := WriteFor(h, p, existing, clocks.write);
    var report :=
      if outcome.Failure? then ErrorReport(outcome.error, h.parseJson)
      else if Truthy(existing) then Updated(p.title)
      else Created(p.title);
    (report, Sent(lookup) + Sent(write))
  }

  /** A publish with a given title and options for the image pass: its
      notice and the requests it sends. */
  function Publication(h: Host, file: TFile, clocks: Clocks, postTitle: string, options: Option<ProcessOptions>): (Report, seq<Request>) {
    if !GhostConfigured(h.settings) then (NotConfigured, [])
    else
      match h.read(file)
      case Failure(e) => (ErrorReport(e, h.parseJson), [])
      case Success(raw) =>
        match PostFor(h, file, raw, postTitle, options)
        case Failure(message) => (ErrorReport(ErrorValue(message), h.parseJson), [])
        case Success(p) => Delivery(h, p, clocks)
  }

  /** The note's text to the post: parsing, the image pass, conversion,
      assembly. */
  method BuildPost(h: Host, file: TFile, raw: string, postTitle: string, options: Option<ProcessOptions>)
    returns (ghostPost: Result<GhostPost, string>)
    ensures ghostPost == PostFor(h, file, raw, postTitle, options)
  {
    var parsed := ParseFrontmatter(raw, h.yamlLoad);
    var processedMarkdown := parsed.markdownContent;
    if ShouldUseR2(h.svc.settings) {
      var processedContent, uploadedCount := ProcessAllImagesInContent(h.svc, parsed.markdownContent, file, postTitle, options);
      processedMarkdown := processedContent;
    }
    var htmlContent := ConvertMarkdownToHtml(h.processor, processedMarkdown, Some(file));
    ghostPost := PrepareGhostPost(h.settings, file, parsed.metadata, htmlContent, [], h.parsesAsDate);
  }

  /** The lookup and the write of a prepared post. */
  method Deliver(h: Host, p: GhostPost, clocks: Clocks) returns (report: Report, sent: seq<Request>)
    ensures (report, sent) == Delivery(h, p, clocks)
  {
    var existingPost, lookup := FindExistingPost(h.settings, Identifier(p), clocks.lookup, h.hmac, h.transport);
    var outcome, write;
    if Truthy(existingPost) {
      outcome, write := UpdateGhostPost(h.settings, ExistingId(existingPost), UpdatePayload(p, existingPost), clocks.write, h.hmac, h.transport);
      report := Updated(p.title);
    } else {
      outcome, write := CreateGhostPost(h.settings, PostToObject(p), clocks.write, h.hmac, h.transport);
      report := Created(p.title);
    }
    if outcome.Failure? {
      report := ErrorReport(outcome.error, h.parseJson);
    }
    sent := Sent(lookup) + Sent(write);
  }

  /** The steps of `publishToGhost`, for a given title and options of the
      image pass. */
  method Publish(h: Host, file: TFile, clocks: Clocks, postTitle: string, options: Option<ProcessOptions>)
    returns (report: Report, sent: seq<Request>)
    ensures (report, sent) == Publication(h, file, clocks, postTitle, options)
  {
    if h.settings.ghostSiteUrl == "" || h.settings.adminApiKey == "" {
      return NotConfigured, [];
    }
    var raw := h.read(file);
    if raw.Failure? {
      return ErrorReport(raw.error, h.parseJson), [];
    }
    var ghostPost := BuildPost(h, file, raw.value, postTitle, options);
    if ghostPost.Failure? {
      return ErrorReport(ErrorValue(ghostPost.error), h.parseJson), [];
    }
    report, sent := Deliver(h, ghostPost.value, clocks);
  }

  /** `publishToGhost` as written: the image pass gets the options object as
      its post title and no options. */
  method PublishToGhost(h: Host, file: TFile, clocks: Clocks) returns (report: Report, sent: seq<Request>)
    ensures (report, sent) == Publication(h, file, clocks, ObjectTitle, None)
  {
    report, sent := Publish(h, file, clocks, ObjectTitle, None);
  }

  /** `publishToGhost` as evidently intended: the note's name as the post
      title and uploads on. */
  method PublishToGhostIntended(h: Host, file: TFile, clocks: Clocks) returns (report: Report, sent: seq<Request>)
    ensures (report, sent) == Publication(h, file, clocks, file.basename, Some(PublishOptions))
  {
    report, sent := Publish(h, file, clocks, file.basename, Some(PublishOptions));
  }

  /** What the post builder guarantees the Ghost side: a slug, a non-empty
      title and non-empty HTML. */
  predicate Sendable(p: GhostPost) {
    p.slug.Some? && p.title != "" && p.html.Some? && p.html.value != ""
  }

  /** Every post the publish flow builds is sendable. */
  lemma PostForIsSendable(h: Host, file: TFile, raw: string, postTitle: string, options: Option<ProcessOptions>)
    requires PostFor(h, file, raw, postTitle, options).Success?
    ensures Sendable(PostFor(h, file, raw, postTitle, options).value)
  {
    var parsed := ParseFrontmatter(raw, h.yamlLoad);
    var html := ConvertedHtml(h.processor, ImagesProcessed(h, file, parsed.markdownContent, postTitle, options), Some(file));
    PreparedIsSendable(h.settings, file, parsed.metadata, html, h.parsesAsDate);
  }

  lemma PreparedIsSendable(settings: WitchSettings, file: TFile, metadata: PostMetadata, html: string, parsesAsDate: string -> bool)
    requires PreparedPost(settings, file, metadata, html, [], parsesAsDate).Success?
    ensures Sendable(PreparedPost(settings, file, metadata, html, [], parsesAsDate).value)
  {
    PreparedDefaults(settings, file, metadata, html, [], parsesAsDate);
  }

  /** A sendable post is looked up by its slug, and its payload, and the
      update payload built from it, clean without error. */
  lemma SendablePayloadsClean(p: GhostPost, existing: Value)
    requires Sendable(p)
    ensures Identifier(p) == p.slug.value
    ensures Cleaned(PostToObject(p)).Success? && Cleaned(UpdatePayload(p, existing)).Success?
  {
    PreparedPostCleans(p);
    UpdatePayloadCleans(p, existing);
  }

  lemma UpdatePayloadCleans(p: GhostPost, existing: Value)
    requires Sendable(p)
    ensures Cleaned(UpdatePayload(p, existing)).Success?
  {
    var o := PostToObject(p);
    var u := UpdatePayload(p, existing);
    assert u["title"] == o["title"] && u["html"] == o["html"] && u["status"] == o["status"];
    ValidObjectCleans(u, p.title, p.html.value, p.status, p.visibility);
  }

  /** The write of a sendable post is sent exactly when its token is signed:
      a PUT of the cleaned update payload to the found post's URL when the
      lookup found one, a POST of the cleaned payload otherwise; it returns
      what the transport returns, or the token error. */
  lemma WriteForSends(h: Host, p: GhostPost, existing: Value, clock: Clock)
    requires Sendable(p)
    ensures var token := AdminToken(h.settings.adminApiKey, clock, h.hmac);
      var (outcome, write) := WriteFor(h, p, existing, clock);
      && (write.Some? <==> token.Success?)
      && (token.Failure? ==> outcome == Failure(ErrorValue(token.error)))
      && (write.Some? ==>
            && write.value.authorization == "Ghost " + token.value
            && outcome == h.transport(write.value)
            && (Truthy(existing) ==>
                  && write.value.verb == "PUT" && write.value.url == UpdateUrl(h.settings, ExistingId(existing))
                  && write.value.body == Some(WriteBody(Cleaned(UpdatePayload(p, existing)).value)))
            && (!Truthy(existing) ==>
                  && write.value.verb == "POST" && write.value.url == CreateUrl(h.settings)
                  && write.value.body == Some(WriteBody(Cleaned(PostToObject(p)).value))))
  {
    SendablePayloadsClean(p, existing);
    if Truthy(existing) {
      WriteSendsCleaned(h.settings, "PUT", UpdateUrl(h.settings, ExistingId(existing)), UpdatePayload(p, existing), clock, h.hmac, h.transport);
    } else {
      WriteSendsCleaned(h.settings, "POST", CreateUrl(h.settings), PostToObject(p), clock, h.hmac, h.transport);
    }
  }

  /** Nothing is sent unless the site is configured, the note reads and the
      post is prepared; what is sent is then the Ghost side of that post. */
  lemma PublicationSendsOnlyPrepared(h: Host, file: TFile, clocks: Clocks, postTitle: string, options: Option<ProcessOptions>)
    ensures var (report, sent) := Publication(h, file, clocks, postTitle, options);
      && (!GhostConfigured(h.settings) ==> report == NotConfigured && sent == [])
      && (sent != [] ==>
            && GhostConfigured(h.settings) && h.read(file).Success?
            && PostFor(h, file, h.read(file).value, postTitle, options).Success?
            && Sendable(PostFor(h, file, h.read(file).value, postTitle, options).value)
            && (report, sent) == Delivery(h, PostFor(h, file, h.read(file).value, postTitle, options).value, clocks))
  {
    if GhostConfigured(h.settings) && h.read(file).Success? && PostFor(h, file, h.read(file).value, postTitle, options).Success? {
      PostForIsSendable(h, file, h.read(file).value, postTitle, options);
    }
  }

  /** For a sendable post, the first request is the lookup by its slug and
      at most one write follows it; a write is sent whenever both tokens
      are signed. */
  lemma DeliverySendsLookupFirst(h: Host, p: GhostPost, clocks: Clocks)
    requires Sendable(p)
    ensures var (report, sent) := Delivery(h, p, clocks);
      var lookupToken := AdminToken(h.settings.adminApiKey, clocks.lookup, h.hmac);
      && |sent| <= 2
      && (sent != [] <==> lookupToken.Success?)
      && (sent != [] ==>
            && sent[0] == LookupRequest(h.settings, Identifier(p), lookupToken.value)
            && sent[0].url == PostsUrl(h.settings) + "?filter=slug:" + p.slug.value)
      && (|sent| == 2 <==> lookupToken.Success? && AdminToken(h.settings.adminApiKey, clocks.write, h.hmac).Success?)
  {
    var (existing, lookup) := LookupResult(h.settings, Identifier(p), clocks.lookup, h.hmac, h.transport);
    LookupFailsSoft(h.settings, Identifier(p), clocks.lookup, h.hmac, h.transport);
    WriteForSends(h, p, existing, clocks.write);
    AdminTokenClockIndependent(h.settings.adminApiKey, clocks.lookup, clocks.write, h.hmac);
    var write := WriteFor(h, p, existing, clocks.write).1;
    assert Delivery(h, p, clocks).1 == Sent(lookup) + Sent(write);
    assert |Sent(lookup) + Sent(write)| == |Sent(lookup)| + |Sent(write)|;
  }

  /** With both tokens signed, a sendable post is written: an update of the
      post the lookup found, at its id and carrying its `updated_at`, or else
      a creation; the notice follows the write's outcome. */
  lemma DeliveryReconciles(h: Host, p: GhostPost, clocks: Clocks)
    requires Sendable(p)
    requires AdminToken(h.settings.adminApiKey, clocks.lookup, h.hmac).Success?
    requires AdminToken(h.settings.adminApiKey, clocks.write, h.hmac).Success?
    ensures var (report, sent) := Delivery(h, p, clocks);
      var existing := LookupResult(h.settings, Identifier(p), clocks.lookup, h.hmac, h.transport).0;
      var token := AdminToken(h.settings.adminApiKey, clocks.write, h.hmac).value;
      && |sent| == 2
      && sent[1].authorization == "Ghost " + token
      && (Truthy(existing) ==>
            && sent[1].verb == "PUT" && sent[1].url == UpdateUrl(h.settings, ExistingId(existing))
            && sent[1].body == Some(WriteBody(Cleaned(UpdatePayload(p, existing)).value)))
      && (!Truthy(existing) ==>
            && sent[1].verb == "POST" && sent[1].url == CreateUrl(h.settings)
            && sent[1].body == Some(WriteBody(Cleaned(PostToObject(p)).value)))
      && (h.transport(sent[1]).Failure? ==> report == ErrorReport(h.transport(sent[1]).error, h.parseJson))
      && (h.transport(sent[1]).Success? ==> report == (if Truthy(existing) then Updated(p.title) else Created(p.title)))
  {
    var existing := LookupResult(h.settings, Identifier(p), clocks.lookup, h.hmac, h.transport).0;
    LookupFailsSoft(h.settings, Identifier(p), clocks.lookup, h.hmac, h.transport);
    WriteForSends(h, p, existing, clocks.write);
  }

  /** The update payload of a sendable post cleans, keeps the post's own
      properties, and carries the found post's `updated_at`, which Ghost
      checks for conflicting edits, unless that is missing or empty. */
  lemma UpdatePayloadCarriesVersion(p: GhostPost, existing: Value)
    requires Sendable(p)
    ensures var stamp := Get(existing, "updated_at");
      var clean := Cleaned(UpdatePayload(p, existing));
      && clean.Success?
      && ("updated_at" in clean.value <==> !Dropped(stamp))
      && (!Dropped(stamp) ==> clean.value["updated_at"] == stamp)
    ensures forall key :: key in PostToObject(p) && key != "updated_at" ==> UpdatePayload(p, existing)[key] == PostToObject(p)[key]
  {
    UpdatePayloadCleans(p, existing);
    CleanedKeepsStamp(PostToObject(p), Get(existing, "updated_at"));
  }

  lemma CleanedKeepsStamp(o: JsObject, stamp: Value)
    requires Cleaned(o["updated_at" := stamp]).Success?
    ensures var c := Cleaned(o["updated_at" := stamp]).value;
      ("updated_at" in c <==> !Dropped(stamp)) && (!Dropped(stamp) ==> c["updated_at"] == stamp)
  {
    CleanedEntries(o["updated_at" := stamp]);
  }

  // ---------------------------------------------------------------------
  // Uploading a note's images

  /** The upload command with a given title and options for the image pass:
      its notice and the note's new text, when it writes one back. */
  function UploadCommand(h: Host, file: TFile, postTitle: string, options: Option<ProcessOptions>): (UploadReport, Option<string>) {
    if !ShouldUseR2(h.svc.settings) then (R2NotConfigured, None)
    else
      match h.read(file)
      case Failure(e) => (UploadFailed(MessageOr(e, UnknownError)), None)
      case Success(content) =>
        var r := ProcessAll(h.svc, content, file, postTitle, options);
        if r.uploaded > 0 then (Replaced(r.uploaded), Some(r.content))
        else (NothingUploaded, None)
  }

  /** The steps of `uploadEmbedsInNoteToR2`. */
  method UploadEmbeds(h: Host, file: TFile, postTitle: string, options: Option<ProcessOptions>)
    returns (report: UploadReport, written: Option<string>)
    ensures (report, written) == UploadCommand(h, file, postTitle, options)
  {
    if !ShouldUseR2(h.svc.settings) {
      return R2NotConfigured, None;
    }
    var content := h.read(file);
    if content.Failure? {
      return UploadFailed(MessageOr(content.error, UnknownError)), None;
    }
    var processedContent, uploadedCount := ProcessAllImagesInContent(h.svc, content.value, file, postTitle, options);
    if uploadedCount > 0 {
      report, written := Replaced(uploadedCount), Some(processedContent);
    } else {
      report, written := NothingUploaded, None;
    }
  }

  /** `uploadEmbedsInNoteToR2` as written: with no options the pass uploads
      nothing, so the note is never written back. */
  method UploadEmbedsInNoteToR2(h: Host, file: TFile) returns (report: UploadReport, written: Option<string>)
    ensures (report, written) == UploadCommand(h, file, ObjectTitle, None)
    ensures written.None? && !report.Replaced?
  {
    report, written := UploadEmbeds(h, file, ObjectTitle, None);
    if ShouldUseR2(h.svc.settings) && h.read(file).Success? {
      ProcessAllWithoutUploads(h.svc, h.read(file).value, file, ObjectTitle, None);
    }
  }

  /** `uploadEmbedsInNoteToR2` as evidently intended: the note's name as the
      post title, uploads on and the original paths kept in fallbacks. The
      note is written back exactly when an image was uploaded, with the
      rewritten text, and the count reported is the number of images
      uploaded. */
  method UploadEmbedsInNoteToR2Intended(h: Host, file: TFile) returns (report: UploadReport, written: Option<string>)
    ensures (report, written) == UploadCommand(h, file, file.basename, Some(UploadOptions))
    ensures written.Some? <==>
              ShouldUseR2(h.svc.settings) && h.read(file).Success?
              && ProcessAll(h.svc, h.read(file).value, file, file.basename, Some(UploadOptions)).uploaded > 0
    ensures written.Some? ==>
              var r := ProcessAll(h.svc, h.read(file).value, file, file.basename, Some(UploadOptions));
              written.value == r.content && report == Replaced(|r.cache|)
  {
    report, written := UploadEmbeds(h, file, file.basename, Some(UploadOptions));
    if written.Some? {
      ProcessAllBookkeeping(h.svc, h.read(file).value, file, file.basename, Some(UploadOptions));
    }
  }

  // ---------------------------------------------------------------------
  // The argument mix-up

  /** As written, a publish never uploads an image, even with R2
      configured: the pass makes no upload call. */
  lemma PublishPassUploadsNothing(h: Host, file: TFile, markdown: string)
    ensures var r := ProcessAll(h.svc, markdown, file, ObjectTitle, None);
      r.uploads == [] && r.uploaded == 0
  {
    ProcessAllWithoutUploads(h.svc, markdown, file, ObjectTitle, None);
  }

  /** As written, each local image the pass rewrites becomes the error
      marker, since reading the undefined options throws. */
  lemma ImageBecomesErrorMarker(svc: R2Service, st: ImagePass, fullMatch: string, file: TFile,
                                heading: string, caption: string, marker: string, target: string, honourOriginal: bool)
    requires IsImageExtension(file.extension)
    ensures var next := RewriteImage(svc, None, st, fullMatch, Some(file), heading, caption, marker, target, honourOriginal);
      next.content == ReplaceFirst(st.content, fullMatch, marker) && SameLedger(next, st)
  {
    RewriteImageOff(svc, None, st, fullMatch, Some(file), heading, caption, marker, target, honourOriginal);
  }

  /** With uploads on, as both intended option objects have them, and R2
      configured, a local image not yet uploaded is sent with the next image
      index, and when the upload is accepted the reference becomes a figure
      pointing at the public URL. */
  lemma ImageUploadedAsIntended(svc: R2Service, opts: ProcessOptions, st: ImagePass, fullMatch: string, file: TFile,
                                heading: string, caption: string, marker: string, target: string, honourOriginal: bool)
    requires opts.uploadToR2
    requires ShouldUseR2(svc.settings) && IsImageExtension(file.extension) && file.path !in st.cache
    ensures var next := RewriteImage(svc, Some(opts), st, fullMatch, Some(file), heading, caption, marker, target, honourOriginal);
      var key := BuildObjectKey(svc.settings, heading, LowerStr(file.extension), st.imageCounter + 1);
      && |next.uploads| == |st.uploads| + 1
      && next.uploads[|st.uploads|].result.request.Some?
      && next.uploads[|st.uploads|].result.request.value.key == key
      && (svc.put(next.uploads[|st.uploads|].result.request.value) ==>
            next.content == ReplaceFirst(st.content, fullMatch, Figure(BuildPublicUrl(svc.settings, key), caption))
            && next.uploaded == st.uploaded + 1)
  {
    FreshImageUploaded(svc, opts, st, file, heading, caption);
  }
}
