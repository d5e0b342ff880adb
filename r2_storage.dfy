/**
  The Cloudflare R2 image pipeline (src/services/r2-storage.ts): the switch
  that enables it, object keys and public URLs, the single upload, and the
  two-pass rewrite of a note's image references (Obsidian embeds first, then
  Markdown images) that uploads each local image at most once per call.

  The vault, the file read and the `PutObject` call are outside the model:
  the vault is a `Vault` value and `put` says whether reading the file and
  sending the request succeeded.
 */
module R2Storage {

  import opened Wrappers
  import opened Text
  import opened Matching
  import opened Settings
  import opened Media
  import opened FileResolver

  // ---------------------------------------------------------------------
  // Configuration

  /** `shouldUseR2`: the switch is on and none of the four credentials is
      blank, that is, only whitespace (see `ShouldUseR2Iff`). */
  predicate ShouldUseR2(s: WitchSettings) {
    s.enableR2Upload
    && !AllSpace(s.r2AccountId) && !AllSpace(s.r2AccessKeyId)
    && !AllSpace(s.r2SecretAccessKey) && !AllSpace(s.r2BucketName)
  }

  /** The switch agrees with the source's test, each credential trimmed and
      compared with the empty string; the shipped defaults leave it off. */
  lemma ShouldUseR2Iff(s: WitchSettings)
    ensures ShouldUseR2(s) <==> s.enableR2Upload && Trim(s.r2AccountId) != "" && Trim(s.r2AccessKeyId) != ""
                                && Trim(s.r2SecretAccessKey) != "" && Trim(s.r2BucketName) != ""
    ensures !ShouldUseR2(DefaultSettings)
  {
    BlankIffAllSpace(s.r2AccountId);
    BlankIffAllSpace(s.r2AccessKeyId);
    BlankIffAllSpace(s.r2SecretAccessKey);
    BlankIffAllSpace(s.r2BucketName);
  }

  // ---------------------------------------------------------------------
  // Object keys and URLs

  /** `.replace(/\.[^/.]+$/, '')`: a final `.ext` with no '/' in it is dropped. */
  function DropExtension(s: string): (r: string)
    ensures r == s || (exists i :: 0 <= i < |s| && r == s[..i] && s[i] == '.')
    ensures r != s ==> |r| < |s| && '.' !in s[|r| + 1..] && '/' !in s[|r| + 1..] && |r| + 1 < |s|
  {
    match LastIndex(s, '.')
    case None => s
    case Some(i) =>
      if i + 1 < |s| && '/' !in s[i + 1..] then
        assert '.' !in s[i + 1..] by { LastIndexAfter(s, i); }
        s[..i]
      else s
  }

  lemma LastIndexAfter(s: string, i: nat)
    requires LastIndex(s, '.') == Some(i)
    ensures '.' !in s[i + 1..]
    decreases |s|
  {
    if s[|s| - 1] != '.' {
      LastIndexAfter(s[..|s| - 1], i);
      assert s[i + 1..] == s[..|s| - 1][i + 1..] + [s[|s| - 1]];
    }
  }

  predicate IsSlugChar(c: char) {
    IsAsciiLower(c) || IsDigit(c) || c == '-' || c == '_' || c == '.'
  }

  /** `.replace(/[^a-z0-9\-_.]/g, '-')` on one character. */
  function SlugChar(c: char): (r: char)
    ensures IsSlugChar(r)
    ensures IsSlugChar(c) ==> r == c
  {
    if IsSlugChar(c) then c else '-'
  }

  /** `.replace(/^-|-$/g, '')`: one hyphen off each end. */
  function StripEdgeHyphen(s: string): (r: string)
    ensures forall k :: 0 <= k < |r| ==> r[k] in s
    ensures NoDoubled(s, '-') ==> NoDoubled(r, '-') && (r == [] || (r[0] != '-' && r[|r| - 1] != '-'))
  {
    if s == "-" then ""
    else
      var a := if s != [] && s[0] == '-' then 1 else 0;
      var b := if |s| >= 2 && s[|s| - 1] == '-' then |s| - 1 else |s|;
      var r := s[a..b];
      assert forall k :: 0 <= k < |r| ==> r[k] == s[a + k];
      r
  }

  /** `generateSlug` of the R2 service: lower-cased, a file extension dropped,
      other characters mapped to '-', hyphen runs collapsed and one hyphen
      stripped from each end. */
  function R2Slug(title: string): (r: string)
    ensures forall k :: 0 <= k < |r| ==> IsSlugChar(r[k])
    ensures NoDoubled(r, '-')
    ensures r == [] || (r[0] != '-' && r[|r| - 1] != '-')
  {
    var mapped := Map(DropExtension(LowerStr(title)), SlugChar);
    var collapsed := CollapseRuns(mapped, '-');
    assert forall k :: 0 <= k < |collapsed| ==> IsSlugChar(collapsed[k]) by {
      forall k | 0 <= k < |collapsed| ensures IsSlugChar(collapsed[k]) {
        var j :| 0 <= j < |mapped| && mapped[j] == collapsed[k];
      }
    }
    StripEdgeHyphen(collapsed)
  }

  /** The folder prefix of `buildObjectKey`: `r2ImagePath` with leading and
      trailing slashes removed and slash runs collapsed. */
  function KeyPrefix(s: WitchSettings): (p: string)
    ensures NoDoubled(p, '/')
    ensures p == [] || (p[0] != '/' && p[|p| - 1] != '/')
  {
    var lead := DropLeading(s.r2ImagePath, '/');
    var collapsed := CollapseRuns(lead, '/');
    assert collapsed == [] || collapsed[0] != '/';
    var p := DropTrailing(collapsed, '/');
    assert p == [] || p[0] == collapsed[0];
    p
  }

  /** The file part of an object key: `${slug}-${imageIndex}.${extension}`. */
  function ObjectFileName(title: string, extension: string, imageIndex: nat): string {
    R2Slug(title) + "-" + NatToString(imageIndex) + "." + extension
  }

  /** `buildObjectKey`: the file name, under the folder prefix when there is one. */
  function BuildObjectKey(s: WitchSettings, title: string, extension: string, imageIndex: nat): string
  {
    var fileName := ObjectFileName(title, extension, imageIndex);
    var prefix := KeyPrefix(s);
    if prefix != "" then prefix + "/" + fileName else fileName
  }

  /** The image index read back from an object key: the decimal digits
      between the key's last '-' and its last '.'. */
  function KeyIndex(key: string): Option<nat> {
    match LastIndex(key, '.')
    case None => None
    case Some(d) =>
      match LastIndex(key[..d], '-')
      case None => None
      case Some(h) => Some(DigitsValue(key[..d][h + 1..]))
  }

  /** `KeyIndex` reads the index back from any key of the form
      `<front>-<digits of n>.<extension>`. */
  lemma KeyIndexOfShape(front: string, n: nat, extension: string)
    requires '.' !in extension
    ensures KeyIndex(front + ['-'] + NatToString(n) + ['.'] + extension) == Some(n)
  {
    var digits := NatToString(n);
    var a := front + ['-'] + digits;
    LastIndexIs(a, extension, '.');
    assert (a + ['.'] + extension)[..|a|] == a;
    assert '-' !in digits;
    LastIndexIs(front, digits, '-');
    assert a[|front| + 1..] == digits;
    NatToStringRoundTrip(n);
  }

  /** The same under a folder prefix. */
  lemma KeyIndexUnderPrefix(p: string, slug: string, n: nat, extension: string)
    requires '.' !in extension
    ensures KeyIndex(p + (slug + ['-'] + NatToString(n) + ['.'] + extension)) == Some(n)
  {
    var digits := NatToString(n);
    var w := slug + ['-'] + digits;
    ConcatAssoc(p, w + ['.'], extension);
    ConcatAssoc(p, w, ['.']);
    ConcatAssoc(p, slug + ['-'], digits);
    ConcatAssoc(p, slug, ['-']);
    KeyIndexOfShape(p + slug, n, extension);
  }

  /** A key gives back the image index it was built with, whatever the title
      and prefix, when the extension holds no '.'. */
  lemma KeyIndexRoundTrip(s: WitchSettings, title: string, extension: string, n: nat)
    requires '.' !in extension
    ensures KeyIndex(BuildObjectKey(s, title, extension, n)) == Some(n)
  {
    var slug, digits := R2Slug(title), NatToString(n);
    var fileName := ObjectFileName(title, extension, n);
    assert fileName == slug + ['-'] + digits + ['.'] + extension;
    var prefix := KeyPrefix(s);
    if prefix != "" {
      var p := prefix + "/";
      assert BuildObjectKey(s, title, extension, n) == p + fileName;
      KeyIndexUnderPrefix(p, slug, n, extension);
    } else {
      assert BuildObjectKey(s, title, extension, n) == fileName;
      KeyIndexOfShape(slug, n, extension);
    }
  }

  /** Two keys built with different image indices differ, whatever the
      titles, as long as the extensions hold no '.'. */
  lemma ObjectKeysDistinct(s: WitchSettings, t1: string, e1: string, n1: nat, t2: string, e2: string, n2: nat)
    requires '.' !in e1 && '.' !in e2
    requires n1 != n2
    ensures BuildObjectKey(s, t1, e1, n1) != BuildObjectKey(s, t2, e2, n2)
  {
    KeyIndexRoundTrip(s, t1, e1, n1);
    KeyIndexRoundTrip(s, t2, e2, n2);
  }

  /** Lower-casing keeps an extension free of '.'. */
  lemma LowerKeepsNoDot(e: string)
    requires '.' !in e
    ensures '.' !in LowerStr(e)
  {
  }

  /** The part of a public URL in front of the object key. */
  function UrlBase(s: WitchSettings): (b: string)
    ensures StartsWith(b, "https://") && b[|b| - 1] == '/'
  {
    if Trim(s.r2CustomDomain) != "" then "https://" + s.r2CustomDomain + "/"
    else "https://" + s.r2BucketName + "." + s.r2AccountId + ".r2.dev/"
  }

  /** `buildPublicUrl`: the custom domain when it is not blank (used as
      written, untrimmed), else the bucket's `r2.dev` host; the key follows
      the host's '/'. */
  function BuildPublicUrl(s: WitchSettings, key: string): (url: string)
    ensures StartsWith(url, "https://") && EndsWith(url, "/" + key)
    ensures url == UrlBase(s) + key
  {
    var b := UrlBase(s);
    assert (b + key)[..8] == b[..8];
    assert (b + key)[|b| - 1..] == "/" + key;
    b + key
  }

  /** Distinct keys give distinct URLs, so distinct uploads are served apart. */
  lemma PublicUrlInjective(s: WitchSettings, k1: string, k2: string)
    requires BuildPublicUrl(s, k1) == BuildPublicUrl(s, k2)
    ensures k1 == k2
  {
    var b := UrlBase(s);
    assert k1 == (b + k1)[|b|..];
    assert k2 == (b + k2)[|b|..];
  }

  lemma ObjectKeyExample()
    ensures R2Slug("-x-") == "x"
  {
  }

  // ---------------------------------------------------------------------
  // One upload

  /** The `PutObject` request: bucket, key, the file whose bytes are sent,
      content type, cache policy and the `caption` metadata entry if any. */
  datatype UploadRequest = UploadRequest(
    bucket: string, key: string, filePath: string,
    contentType: string, cacheControl: string, caption: Option<string>)

  /** The service: its settings, the vault, and whether reading a file and
      sending a request for it succeeds. */
  datatype R2Service = R2Service(settings: WitchSettings, vault: Vault, put: UploadRequest -> bool)

  /** What `uploadToR2` did: the request it sent, if it got that far, and the URL it returned. */
  datatype UploadResult = UploadResult(request: Option<UploadRequest>, url: Option<string>)

  const ImmutableCacheControl := "public, max-age=31536000"

  /** `uploadToR2`: refuses when R2 is off or the lower-cased extension is not
      an image; otherwise sends one request and returns the public URL of the
      key on success, null on failure. */
  function UploadToR2(svc: R2Service, file: TFile, title: string, altText: string, imageIndex: nat): (r: UploadResult)
    ensures r.request.Some? <==> ShouldUseR2(svc.settings) && IsImageExtension(file.extension)
    ensures r.request.Some? ==>
      var q := r.request.value;
      q.bucket == svc.settings.r2BucketName && q.filePath == file.path
      && q.key == BuildObjectKey(svc.settings, title, LowerStr(file.extension), imageIndex)
      && StartsWith(q.contentType, "image/") && q.cacheControl == ImmutableCacheControl
      && (q.caption.Some? <==> altText != "") && (q.caption.Some? ==> q.caption.value == altText)
    ensures r.url.Some? <==> r.request.Some? && svc.put(r.request.value)
    ensures r.url.Some? ==> r.url.value == BuildPublicUrl(svc.settings, r.request.value.key)
  {
    var extension := LowerStr(file.extension);
    CaseInsensitive(file.extension);
    if !ShouldUseR2(svc.settings) || !IsImageExtension(extension) then UploadResult(None, None)
    else
      ImageIffKnownMime(extension);
      var key := BuildObjectKey(svc.settings, title, extension, imageIndex);
      var request := UploadRequest(svc.settings.r2BucketName, key, file.path, GetMimeType(extension),
                                   ImmutableCacheControl, if altText != "" then Some(altText) else None);
      if svc.put(request) then UploadResult(Some(request), Some(BuildPublicUrl(svc.settings, key)))
      else UploadResult(Some(request), None)
  }

  // ---------------------------------------------------------------------
  // Headings

  /** A heading line `/^#+\s+(.*)/gm`: its text and the index where its line starts. */
  datatype Heading = Heading(text: string, position: nat)

  /** The heading regex tried at `i`: a line start, one or more '#', at least
      one whitespace character (which may run over line breaks), then the rest
      of the line as the text. */
  function HeadingAt(s: string, i: nat): Option<Hit> {
    if i < |s| && (i == 0 || IsLineTerminator(s[i - 1])) && s[i] == '#' then
      var b := RunEnd(s, i, '#');
      if b < |s| && IsSpace(s[b]) then
        var c := SpaceRunEnd(s, b);
        var t := LineEnd(s, c);
        Some(Hit(i, t, [s[c..t]]))
      else None
    else None
  }

  /** The headings of a note, in order. */
  function Headings(content: string): (hs: seq<Heading>)
    ensures Ascending(hs)
  {
    var hits := Scan(content, 0, HeadingAt);
    forall k | 0 <= k < |hits|
      ensures hits[k].start < hits[k].end
    {
      assert ValidHit(content, hits[k].start, hits[k]);
    }
    seq(|hits|, k requires 0 <= k < |hits| => Heading(Group(hits[k], 0), hits[k].start))
  }

  predicate Ascending(hs: seq<Heading>) {
    forall i, j :: 0 <= i < j < |hs| ==> hs[i].position < hs[j].position
  }

  /** The loop of `findHeadingForPosition` from some point on: take each
      heading that starts before `position`, stop at the first that does not. */
  function HeadingBefore(hs: seq<Heading>, position: nat, current: string): string
    decreases |hs|
  {
    if hs == [] || hs[0].position >= position then current
    else HeadingBefore(hs[1..], position, hs[0].text)
  }

  function HeadingFor(hs: seq<Heading>, position: nat, postTitle: string): string {
    HeadingBefore(hs, position, postTitle)
  }

  /** With headings in document order, an image falls under the last heading
      that starts before it, or under the post title when none does. */
  lemma {:induction false} HeadingForIsLastBefore(hs: seq<Heading>, position: nat, postTitle: string, n: nat)
    requires Ascending(hs)
    requires n <= |hs|
    requires forall k :: 0 <= k < n ==> hs[k].position < position
    requires n < |hs| ==> hs[n].position >= position
    ensures HeadingFor(hs, position, postTitle) == if n == 0 then postTitle else hs[n - 1].text
    decreases n
  {
    if n > 0 {
      HeadingBeforeFrom(hs, position, postTitle, n);
    }
  }

  lemma {:induction false} HeadingBeforeFrom(hs: seq<Heading>, position: nat, current: string, n: nat)
    requires Ascending(hs)
    requires 0 < n <= |hs|
    requires forall k :: 0 <= k < n ==> hs[k].position < position
    requires n < |hs| ==> hs[n].position >= position
    ensures HeadingBefore(hs, position, current) == hs[n - 1].text
    decreases n
  {
    if n > 1 {
      HeadingBeforeFrom(hs[1..], position, hs[0].text, n - 1);
    }
  }

  /** `findHeadingForPosition`. */
  method FindHeadingForPosition(headings: seq<Heading>, position: nat, postTitle: string) returns (currentHeading: string)
    ensures currentHeading == HeadingFor(headings, position, postTitle)
  {
    currentHeading := postTitle;
    for i := 0 to |headings|
      invariant HeadingFor(headings, position, postTitle) == HeadingBefore(headings[i..], position, currentHeading)
    {
      if headings[i].position < position {
        assert headings[i..][1..] == headings[i + 1..];
        currentHeading := headings[i].text;
      } else {
        break;
      }
    }
  }

  /** The matches of a scan, latest first, as the source's `.reverse()` gives them. */
  function Reversed(s: string, m: Matcher): (hits: seq<Hit>)
    ensures HitsWithin(hits, |s|)
  {
    ScanWithin(s, 0, m);
    Reverse(Scan(s, 0, m))
  }

  // ---------------------------------------------------------------------
  // The rewrite of one image reference

  /** The options of `processAllImagesInContent`. */
  datatype ProcessOptions = ProcessOptions(uploadToR2: bool, replaceInOriginal: bool)

  /** One call of `uploadToR2` made by the pass: its arguments and what it did. */
  datatype Upload = Upload(file: TFile, title: string, caption: string, index: nat, result: UploadResult)

  /** The pass's mutable state: the text so far, the path-to-URL cache, the
      success count, the image counter, and the log of upload calls. */
  datatype ImagePass = ImagePass(content: string, cache: map<string, string>, uploaded: nat, imageCounter: nat, uploads: seq<Upload>)

  /** What stays fixed during a pass. `options` is `None` when the caller passed
      `undefined`: every read of a field of it then throws a `TypeError`. */
  datatype PassContext = PassContext(currentFile: TFile, headings: seq<Heading>, postTitle: string, options: Option<ProcessOptions>)

  function Figure(url: string, caption: string): string {
    "<figure><img src=\"" + url + "\" alt=\"" + caption + "\"><figcaption>" + caption + "</figcaption></figure>"
  }

  function MarkdownImage(caption: string, src: string): string {
    "![" + caption + "](" + src + ")"
  }

  function EmbedErrorMarker(pathOrName: string): string {
    "*[Error processing: " + pathOrName + "]*"
  }

  function ImageErrorMarker(shown: string): string {
    "*[Image error: " + shown + "]*"
  }

  /** `alt || `${heading} image``. */
  function Caption(alt: string, heading: string): string {
    if alt != "" then alt else heading + " image"
  }

  /** The shared cache-or-upload step for a resolved image file. */
  function ImageUrl(svc: R2Service, opts: ProcessOptions, st: ImagePass, file: TFile, heading: string, caption: string): (ImagePass, string) {
    var url := if file.path in st.cache then st.cache[file.path] else "";
    if opts.uploadToR2 && ShouldUseR2(svc.settings) && url == "" then
      var n := st.imageCounter + 1;
      AfterUpload(st, file, heading, caption, n, UploadToR2(svc, file, heading, caption, n))
    else (st, url)
  }

  /** The bookkeeping after upload `n` returned `res`. */
  function AfterUpload(st: ImagePass, file: TFile, heading: string, caption: string, n: nat, res: UploadResult): (ImagePass, string) {
    var log := st.uploads + (if res.request.Some? then [Upload(file, heading, caption, n, res)] else []);
    if res.url.Some? && res.url.value != "" then
      (st.(cache := st.cache[file.path := res.url.value], uploaded := st.uploaded + 1, imageCounter := n, uploads := log), res.url.value)
    else (st.(imageCounter := n, uploads := log), "")
  }

  /** `embedPathRaw.split('|').map(trim)`: the target and the optional alt text. */
  function EmbedTarget(raw: string): (string, string) {
    var parts := Map(Split(raw, '|'), Trim);
    (parts[0], if |parts| > 1 then parts[1] else "")
  }

  /** The rewrite of one reference once its target is resolved: nothing for
      a missing or non-image file; the error marker when reading `options`
      throws; otherwise a figure with the cached or uploaded URL, or a
      Markdown image pointing at the fallback target. The embed loop honours
      `replaceInOriginal` (the fallback is then the file's vault path), the
      Markdown-image loop does not. */
  function RewriteImage(svc: R2Service, options: Option<ProcessOptions>, st: ImagePass, fullMatch: string,
                        file: Option<TFile>, heading: string, caption: string, marker: string,
                        target: string, honourOriginal: bool): ImagePass
  {
    if file.None? || !IsImageExtension(file.value.extension) then st
    else if options.None? then st.(content := ReplaceFirst(st.content, fullMatch, marker))
    else
      var (st1, url) := ImageUrl(svc, options.value, st, file.value, heading, caption);
      var fallback := if honourOriginal && options.value.replaceInOriginal then file.value.path else target;
      var replacement := if url != "" then Figure(url, caption) else MarkdownImage(caption, fallback);
      st1.(content := ReplaceFirst(st1.content, fullMatch, replacement))
  }

  /** `replaceEmbed` for one `![[...]]` match of the text `scanned`. */
  function EmbedStep(svc: R2Service, ctx: PassContext, scanned: string, st: ImagePass, h: Hit): ImagePass
    requires h.start <= h.end <= |scanned|
  {
    var (pathOrName, altFromEmbed) := EmbedTarget(Group(h, 0));
    var heading := HeadingFor(ctx.headings, h.start, ctx.postTitle);
    RewriteImage(svc, ctx.options, st, scanned[h.start..h.end], Resolve(svc.vault, pathOrName, Some(ctx.currentFile)),
                 heading, Caption(altFromEmbed, heading), EmbedErrorMarker(pathOrName), pathOrName, true)
  }

  /** `src.slice(1, -1).trim()` when the source is wrapped in angle brackets. */
  function Unbracket(src: string): string {
    if StartsWith(src, "<") && EndsWith(src, ">") then Trim(if |src| >= 2 then src[1..|src| - 1] else "")
    else src
  }

  /** `/^(https?:|data:)/i`. */
  predicate IsRemote(src: string) {
    var l := LowerStr(src);
    StartsWith(l, "http:") || StartsWith(l, "https:") || StartsWith(l, "data:")
  }

  /** The body of the Markdown-image loop for one `![alt](src)` match of `scanned`. */
  function MarkdownImageStep(svc: R2Service, ctx: PassContext, scanned: string, st: ImagePass, h: Hit): ImagePass
    requires h.start <= h.end <= |scanned|
  {
    var alt := Trim(Group(h, 0));
    var heading := HeadingFor(ctx.headings, h.start, ctx.postTitle);
    var src := Unbracket(Trim(Group(h, 1)));
    if IsRemote(src) then st
    else
      RewriteImage(svc, ctx.options, st, scanned[h.start..h.end], Resolve(svc.vault, src, Some(ctx.currentFile)),
                   heading, Caption(alt, heading), ImageErrorMarker(if alt != "" then alt else src), src, false)
  }

  // ---------------------------------------------------------------------
  // The whole pass

  /** The embed loop over `hits` in the order given. */
  function EmbedPass(svc: R2Service, ctx: PassContext, scanned: string, st: ImagePass, hits: seq<Hit>): ImagePass
    requires HitsWithin(hits, |scanned|)
    decreases |hits|
  {
    if hits == [] then st
    else EmbedStep(svc, ctx, scanned, EmbedPass(svc, ctx, scanned, st, hits[..|hits| - 1]), hits[|hits| - 1])
  }

  /** The Markdown-image loop over `hits` in the order given. */
  function MarkdownPass(svc: R2Service, ctx: PassContext, scanned: string, st: ImagePass, hits: seq<Hit>): ImagePass
    requires HitsWithin(hits, |scanned|)
    decreases |hits|
  {
    if hits == [] then st
    else MarkdownImageStep(svc, ctx, scanned, MarkdownPass(svc, ctx, scanned, st, hits[..|hits| - 1]), hits[|hits| - 1])
  }

  function InitialPass(content: string): ImagePass {
    ImagePass(content, map[], 0, 0, [])
  }

  /** `processAllImagesInContent`: embeds of the original text, latest first,
      then Markdown images of the result, latest first. Headings are always
      those of the original text. */
  function ProcessAll(svc: R2Service, content: string, currentFile: TFile, postTitle: string, options: Option<ProcessOptions>): ImagePass {
    var ctx := PassContext(currentFile, Headings(content), postTitle, options);
    var afterEmbeds := EmbedPass(svc, ctx, content, InitialPass(content), Reversed(content, EmbedAt));
    MarkdownPass(svc, ctx, afterEmbeds.content, afterEmbeds, Reversed(afterEmbeds.content, MarkdownImageAt))
  }

  // ---------------------------------------------------------------------
  // The pass as the source runs it

  /** The cache-or-upload block shared by both loops. */
  method LookupOrUpload(svc: R2Service, opts: ProcessOptions, st: ImagePass, file: TFile, heading: string, caption: string)
    returns (next: ImagePass, url: string)
    ensures (next, url) == ImageUrl(svc, opts, st, file, heading, caption)
  {
    next := st;
    url := if file.path in st.cache then st.cache[file.path] else "";
    if opts.uploadToR2 && ShouldUseR2(svc.settings) {
      if url == "" {
        next := next.(imageCounter := next.imageCounter + 1);
        var uploadedUrl := UploadToR2(svc, file, heading, caption, next.imageCounter);
        if uploadedUrl.request.Some? {
          next := next.(uploads := next.uploads + [Upload(file, heading, caption, next.imageCounter, uploadedUrl)]);
        }
        if uploadedUrl.url.Some? && uploadedUrl.url.value != "" {
          next := next.(cache := next.cache[file.path := uploadedUrl.url.value], uploaded := next.uploaded + 1);
        }
        url := if uploadedUrl.url.Some? then uploadedUrl.url.value else "";
        var spec := AfterUpload(st, file, heading, caption, st.imageCounter + 1, uploadedUrl);
        assert url == spec.1;
        assert next.cache == spec.0.cache;
        assert next.uploads == spec.0.uploads;
        assert next.content == spec.0.content;
        assert next.uploaded == spec.0.uploaded;
        assert next.imageCounter == spec.0.imageCounter;
        assert next == spec.0;
      }
    }
  }

  /** The `try` block shared by both loops, from the resolved file on. */
  method RewriteResolvedImage(svc: R2Service, options: Option<ProcessOptions>, st: ImagePass, fullMatch: string,
                              file: Option<TFile>, heading: string, caption: string, marker: string,
                              target: string, honourOriginal: bool) returns (next: ImagePass)
    ensures next == RewriteImage(svc, options, st, fullMatch, file, heading, caption, marker, target, honourOriginal)
  {
    next := st;
    if file.Some? && IsImageExtension(file.value.extension) {
      match options
      case None =>
        next := next.(content := ReplaceFirst(next.content, fullMatch, marker));
      case Some(opts) =>
        var url;
        next, url := LookupOrUpload(svc, opts, next, file.value, heading, caption);
        var replacementUrl := if url != "" then url else if honourOriginal && opts.replaceInOriginal then file.value.path else target;
        if url != "" {
          next := next.(content := ReplaceFirst(next.content, fullMatch, Figure(replacementUrl, caption)));
        } else {
          next := next.(content := ReplaceFirst(next.content, fullMatch, MarkdownImage(caption, replacementUrl)));
        }
    }
  }

  /** `replaceEmbed`. */
  method ReplaceEmbed(svc: R2Service, ctx: PassContext, scanned: string, st: ImagePass, h: Hit) returns (next: ImagePass)
    requires h.start <= h.end <= |scanned|
    ensures next == EmbedStep(svc, ctx, scanned, st, h)
  {
    var fullMatch := scanned[h.start..h.end];
    var (pathOrName, altFromEmbed) := EmbedTarget(Group(h, 0));
    var heading := FindHeadingForPosition(ctx.headings, h.start, ctx.postTitle);
    var caption := Caption(altFromEmbed, heading);
    var file := ResolveFileByPath(svc.vault, pathOrName, Some(ctx.currentFile));
    next := RewriteResolvedImage(svc, ctx.options, st, fullMatch, file, heading, caption, EmbedErrorMarker(pathOrName), pathOrName, true);
  }

  /** One iteration of the Markdown-image loop. */
  method ReplaceMarkdownImage(svc: R2Service, ctx: PassContext, scanned: string, st: ImagePass, h: Hit) returns (next: ImagePass)
    requires h.start <= h.end <= |scanned|
    ensures next == MarkdownImageStep(svc, ctx, scanned, st, h)
  {
    var fullMatch := scanned[h.start..h.end];
    var alt := Trim(Group(h, 0));
    var src := Unbracket(Trim(Group(h, 1)));
    var heading := FindHeadingForPosition(ctx.headings, h.start, ctx.postTitle);
    var caption := Caption(alt, heading);
    next := st;
    if IsRemote(src) {
      return;
    }
    var file := ResolveFileByPath(svc.vault, src, Some(ctx.currentFile));
    next := RewriteResolvedImage(svc, ctx.options, st, fullMatch, file, heading, caption,
                                 ImageErrorMarker(if alt != "" then alt else src), src, false);
  }

  /** The embed loop: `replaceEmbed` for each match, in the order given. */
  method RewriteEmbeds(svc: R2Service, ctx: PassContext, scanned: string, st0: ImagePass, embedMatches: seq<Hit>) returns (st: ImagePass)
    requires HitsWithin(embedMatches, |scanned|)
    ensures st == EmbedPass(svc, ctx, scanned, st0, embedMatches)
  {
    st := st0;
    for k := 0 to |embedMatches|
      invariant st == EmbedPass(svc, ctx, scanned, st0, embedMatches[..k])
    {
      assert embedMatches[..k + 1][..k] == embedMatches[..k];
      st := ReplaceEmbed(svc, ctx, scanned, st, embedMatches[k]);
    }
    assert embedMatches[..|embedMatches|] == embedMatches;
  }

  /** The Markdown-image loop, for each match in the order given. */
  method RewriteMarkdownImages(svc: R2Service, ctx: PassContext, scanned: string, st0: ImagePass, mdMatches: seq<Hit>) returns (st: ImagePass)
    requires HitsWithin(mdMatches, |scanned|)
    ensures st == MarkdownPass(svc, ctx, scanned, st0, mdMatches)
  {
    st := st0;
    for k := 0 to |mdMatches|
      invariant st == MarkdownPass(svc, ctx, scanned, st0, mdMatches[..k])
    {
      assert mdMatches[..k + 1][..k] == mdMatches[..k];
      st := ReplaceMarkdownImage(svc, ctx, scanned, st, mdMatches[k]);
    }
    assert mdMatches[..|mdMatches|] == mdMatches;
  }

  /** `processAllImagesInContent`: the rewritten text and the number of
      successful uploads. The embeds of the original text are rewritten
      latest first, then the Markdown images of the result, latest first. */
  method ProcessAllImagesInContent(svc: R2Service, content: string, currentFile: TFile, postTitle: string, options: Option<ProcessOptions>)
    returns (processedContent: string, uploadedCount: nat)
    ensures processedContent == ProcessAll(svc, content, currentFile, postTitle, options).content
    ensures uploadedCount == ProcessAll(svc, content, currentFile, postTitle, options).uploaded
  {
    var ctx := PassContext(currentFile, Headings(content), postTitle, options);
    var st := RewriteEmbeds(svc, ctx, content, InitialPass(content), Reversed(content, EmbedAt));
    var scanned := st.content;
    st := RewriteMarkdownImages(svc, ctx, scanned, st, Reversed(scanned, MarkdownImageAt));
    processedContent, uploadedCount := st.content, st.uploaded;
  }

  // ---------------------------------------------------------------------
  // What the pass guarantees

  /** An upload that returned a (truthy) URL. */
  predicate Succeeded(u: Upload) {
    u.result.url.Some? && u.result.url.value != ""
  }

  /** The `n`-th logged call used image index `n`, sent a request, and the
      request's key carries that index. */
  predicate LoggedCall(u: Upload, n: nat) {
    u.index == n && u.result.request.Some? && KeyIndex(u.result.request.value.key) == Some(n)
  }

  /** The bookkeeping every step keeps: the counter counts upload calls, the
      success count is the cache size, each cached URL is truthy, each
      successful upload is cached under its path, and no path was uploaded
      successfully twice. */
  predicate Bookkeeping(st: ImagePass) {
    st.imageCounter == |st.uploads|
    && st.uploaded == |st.cache|
    && (forall p :: p in st.cache ==> st.cache[p] != "")
    && (forall k :: 0 <= k < |st.uploads| ==> LoggedCall(st.uploads[k], k + 1))
    && (forall k :: 0 <= k < |st.uploads| && Succeeded(st.uploads[k]) ==>
          st.uploads[k].file.path in st.cache && st.cache[st.uploads[k].file.path] == st.uploads[k].result.url.value)
    && DistinctSuccessPaths(st.uploads)
  }

  predicate DistinctSuccessPaths(uploads: seq<Upload>) {
    forall i, j :: 0 <= i < j < |uploads| && Succeeded(uploads[i]) && Succeeded(uploads[j]) ==>
      uploads[i].file.path != uploads[j].file.path
  }

  lemma DistinctSuccessPathsExtend(uploads: seq<Upload>, u: Upload, cache: map<string, string>)
    requires DistinctSuccessPaths(uploads)
    requires forall k :: 0 <= k < |uploads| && Succeeded(uploads[k]) ==> uploads[k].file.path in cache
    requires u.file.path !in cache
    ensures DistinctSuccessPaths(uploads + [u])
  {
    var all := uploads + [u];
    forall i, j | 0 <= i < j < |all| && Succeeded(all[i]) && Succeeded(all[j])
      ensures all[i].file.path != all[j].file.path
    {
      assert all[i] == uploads[i];
      if j < |uploads| {
        assert all[j] == uploads[j];
      } else {
        assert all[i].file.path in cache;
      }
    }
  }

  /** A request sent by `uploadToR2` is logged as call `n`. */
  lemma UploadLogged(svc: R2Service, file: TFile, heading: string, caption: string, n: nat)
    requires ShouldUseR2(svc.settings) && IsImageExtension(file.extension)
    ensures LoggedCall(Upload(file, heading, caption, n, UploadToR2(svc, file, heading, caption, n)), n)
  {
    LowerKeepsNoDot(file.extension);
    KeyIndexRoundTrip(svc.settings, heading, LowerStr(file.extension), n);
  }

  /** Recording upload call `n` keeps the bookkeeping. */
  lemma AfterUploadKeeps(st: ImagePass, file: TFile, heading: string, caption: string, res: UploadResult)
    requires Bookkeeping(st)
    requires LoggedCall(Upload(file, heading, caption, st.imageCounter + 1, res), st.imageCounter + 1)
    requires file.path !in st.cache
    ensures Bookkeeping(AfterUpload(st, file, heading, caption, st.imageCounter + 1, res).0)
  {
    var n := st.imageCounter + 1;
    var u := Upload(file, heading, caption, n, res);
    var uploads := st.uploads + [u];
    if Succeeded(u) {
      var cache := st.cache[file.path := res.url.value];
      assert AfterUpload(st, file, heading, caption, n, res).0 == st.(cache := cache, uploaded := st.uploaded + 1, imageCounter := n, uploads := uploads);
      LogExtends(st, u, cache);
    } else {
      assert AfterUpload(st, file, heading, caption, n, res).0 == st.(imageCounter := n, uploads := uploads);
      LogExtends(st, u, st.cache);
    }
  }

  /** Appending the next logged call keeps the bookkeeping, given the cache it leaves. */
  lemma LogExtends(st: ImagePass, u: Upload, cache: map<string, string>)
    requires Bookkeeping(st)
    requires LoggedCall(u, |st.uploads| + 1)
    requires u.file.path !in st.cache
    requires Succeeded(u) ==> cache == st.cache[u.file.path := u.result.url.value]
    requires !Succeeded(u) ==> cache == st.cache
    ensures Bookkeeping(ImagePass(st.content, cache, |cache|, |st.uploads| + 1, st.uploads + [u]))
  {
    var uploads := st.uploads + [u];
    forall k | 0 <= k < |uploads|
      ensures LoggedCall(uploads[k], k + 1)
    {
      if k < |st.uploads| { assert uploads[k] == st.uploads[k]; }
    }
    forall k | 0 <= k < |uploads| && Succeeded(uploads[k])
      ensures uploads[k].file.path in cache && cache[uploads[k].file.path] == uploads[k].result.url.value
    {
      if k < |st.uploads| { assert uploads[k] == st.uploads[k]; }
    }
    DistinctSuccessPathsExtend(st.uploads, u, st.cache);
  }

  /** The cache-or-upload step keeps the bookkeeping and leaves the text alone. */
  lemma ImageUrlKeeps(svc: R2Service, opts: ProcessOptions, st: ImagePass, file: TFile, heading: string, caption: string)
    requires Bookkeeping(st) && IsImageExtension(file.extension)
    ensures Bookkeeping(ImageUrl(svc, opts, st, file, heading, caption).0)
    ensures ImageUrl(svc, opts, st, file, heading, caption).0.content == st.content
  {
    var url := if file.path in st.cache then st.cache[file.path] else "";
    if opts.uploadToR2 && ShouldUseR2(svc.settings) && url == "" {
      var n := st.imageCounter + 1;
      var res := UploadToR2(svc, file, heading, caption, n);
      assert ImageUrl(svc, opts, st, file, heading, caption) == AfterUpload(st, file, heading, caption, n, res);
      UploadLogged(svc, file, heading, caption, n);
      AfterUploadKeeps(st, file, heading, caption, res);
    }
  }

  lemma RewriteImageKeeps(svc: R2Service, options: Option<ProcessOptions>, st: ImagePass, fullMatch: string,
                          file: Option<TFile>, heading: string, caption: string, marker: string,
                          target: string, honourOriginal: bool)
    requires Bookkeeping(st)
    ensures Bookkeeping(RewriteImage(svc, options, st, fullMatch, file, heading, caption, marker, target, honourOriginal))
  {
    if file.Some? && IsImageExtension(file.value.extension) && options.Some? {
      ImageUrlKeeps(svc, options.value, st, file.value, heading, caption);
    }
  }

  lemma {:induction false} EmbedPassKeeps(svc: R2Service, ctx: PassContext, scanned: string, st: ImagePass, hits: seq<Hit>)
    requires HitsWithin(hits, |scanned|)
    requires Bookkeeping(st)
    ensures Bookkeeping(EmbedPass(svc, ctx, scanned, st, hits))
    decreases |hits|
  {
    if hits != [] {
      EmbedPassKeeps(svc, ctx, scanned, st, hits[..|hits| - 1]);
      var before := EmbedPass(svc, ctx, scanned, st, hits[..|hits| - 1]);
      var h := hits[|hits| - 1];
      var (pathOrName, altFromEmbed) := EmbedTarget(Group(h, 0));
      var heading := HeadingFor(ctx.headings, h.start, ctx.postTitle);
      RewriteImageKeeps(svc, ctx.options, before, scanned[h.start..h.end], Resolve(svc.vault, pathOrName, Some(ctx.currentFile)),
                        heading, Caption(altFromEmbed, heading), EmbedErrorMarker(pathOrName), pathOrName, true);
    }
  }

  lemma {:induction false} MarkdownPassKeeps(svc: R2Service, ctx: PassContext, scanned: string, st: ImagePass, hits: seq<Hit>)
    requires HitsWithin(hits, |scanned|)
    requires Bookkeeping(st)
    ensures Bookkeeping(MarkdownPass(svc, ctx, scanned, st, hits))
    decreases |hits|
  {
    if hits != [] {
      MarkdownPassKeeps(svc, ctx, scanned, st, hits[..|hits| - 1]);
      var before := MarkdownPass(svc, ctx, scanned, st, hits[..|hits| - 1]);
      var h := hits[|hits| - 1];
      var alt := Trim(Group(h, 0));
      var heading := HeadingFor(ctx.headings, h.start, ctx.postTitle);
      var src := Unbracket(Trim(Group(h, 1)));
      if !IsRemote(src) {
        RewriteImageKeeps(svc, ctx.options, before, scanned[h.start..h.end], Resolve(svc.vault, src, Some(ctx.currentFile)),
                          heading, Caption(alt, heading), ImageErrorMarker(if alt != "" then alt else src), src, false);
      }
    }
  }

  /** Upload calls at different positions in the log used different object keys. */
  lemma LoggedKeysDistinct(st: ImagePass, i: nat, j: nat)
    requires Bookkeeping(st)
    requires i < j < |st.uploads|
    ensures st.uploads[i].result.request.value.key != st.uploads[j].result.request.value.key
  {
    assert LoggedCall(st.uploads[i], i + 1) && LoggedCall(st.uploads[j], j + 1);
  }

  /** What the bookkeeping says about the upload log as a whole. */
  lemma BookkeepingLog(st: ImagePass)
    requires Bookkeeping(st)
    ensures st.uploaded == |st.cache| && st.imageCounter == |st.uploads|
    ensures forall k :: 0 <= k < |st.uploads| ==> st.uploads[k].index == k + 1 && st.uploads[k].result.request.Some?
    ensures forall i, j :: 0 <= i < j < |st.uploads| ==>
      st.uploads[i].result.request.value.key != st.uploads[j].result.request.value.key
    ensures forall i, j :: 0 <= i < j < |st.uploads| && Succeeded(st.uploads[i]) && Succeeded(st.uploads[j]) ==>
      st.uploads[i].file.path != st.uploads[j].file.path
  {
    forall k | 0 <= k < |st.uploads|
      ensures st.uploads[k].index == k + 1 && st.uploads[k].result.request.Some?
    {
      assert LoggedCall(st.uploads[k], k + 1);
    }
    forall i, j | 0 <= i < j < |st.uploads|
      ensures st.uploads[i].result.request.value.key != st.uploads[j].result.request.value.key
    {
      LoggedKeysDistinct(st, i, j);
    }
  }

  /** What one call of `processAllImagesInContent` guarantees about its
      uploads: the returned count is the number of cached paths; the image
      counter numbers the upload calls 1, 2, ... (so it restarts with every
      call, and a second call on the same note reuses the same keys); the
      calls used pairwise different object keys; and no file was uploaded
      successfully twice. */
  lemma ProcessAllBookkeeping(svc: R2Service, content: string, currentFile: TFile, postTitle: string, options: Option<ProcessOptions>)
    ensures var r := ProcessAll(svc, content, currentFile, postTitle, options);
      r.uploaded == |r.cache| && r.imageCounter == |r.uploads|
      && (forall k :: 0 <= k < |r.uploads| ==> r.uploads[k].index == k + 1 && r.uploads[k].result.request.Some?)
      && (forall i, j :: 0 <= i < j < |r.uploads| ==>
            r.uploads[i].result.request.value.key != r.uploads[j].result.request.value.key)
      && (forall i, j :: 0 <= i < j < |r.uploads| && Succeeded(r.uploads[i]) && Succeeded(r.uploads[j]) ==>
            r.uploads[i].file.path != r.uploads[j].file.path)
  {
    var ctx := PassContext(currentFile, Headings(content), postTitle, options);
    var afterEmbeds := EmbedPass(svc, ctx, content, InitialPass(content), Reversed(content, EmbedAt));
    EmbedPassKeeps(svc, ctx, content, InitialPass(content), Reversed(content, EmbedAt));
    MarkdownPassKeeps(svc, ctx, afterEmbeds.content, afterEmbeds, Reversed(afterEmbeds.content, MarkdownImageAt));
    BookkeepingLog(ProcessAll(svc, content, currentFile, postTitle, options));
  }

  // ---------------------------------------------------------------------
  // One image

  /** A path cached with a URL is not uploaded again: the step returns the
      cached URL and changes nothing. */
  lemma CachedImageReused(svc: R2Service, opts: ProcessOptions, st: ImagePass, file: TFile, heading: string, caption: string)
    requires file.path in st.cache && st.cache[file.path] != ""
    ensures ImageUrl(svc, opts, st, file, heading, caption) == (st, st.cache[file.path])
  {
  }

  /** An image with no cached URL while uploads are on: the step makes the
      upload call with the next image index, whose key is built from the
      heading and the lower-cased extension; the URL is truthy exactly when
      the request is accepted, and is then the key's public URL, cached
      under the file's path and counted; a refused request leaves cache and
      count alone. */
  lemma FreshImageUploaded(svc: R2Service, opts: ProcessOptions, st: ImagePass, file: TFile, heading: string, caption: string)
    requires opts.uploadToR2 && ShouldUseR2(svc.settings) && IsImageExtension(file.extension)
    requires file.path !in st.cache
    ensures var (next, url) := ImageUrl(svc, opts, st, file, heading, caption);
      var n := st.imageCounter + 1;
      var key := BuildObjectKey(svc.settings, heading, LowerStr(file.extension), n);
      next.content == st.content && next.imageCounter == n
      && |next.uploads| == |st.uploads| + 1 && next.uploads[..|st.uploads|] == st.uploads
      && next.uploads[|st.uploads|].result.request.Some?
      && next.uploads[|st.uploads|].result.request.value.key == key
      && (url != "" <==> svc.put(next.uploads[|st.uploads|].result.request.value))
      && (url != "" ==> url == BuildPublicUrl(svc.settings, key)
                        && next.cache == st.cache[file.path := url] && next.uploaded == st.uploaded + 1)
      && (url == "" ==> next.cache == st.cache && next.uploaded == st.uploaded)
  {
    var n := st.imageCounter + 1;
    ImageUrlUploads(svc, opts, st, file, heading, caption);
    AfterUploadOutcome(st, file, heading, caption, n, UploadToR2(svc, file, heading, caption, n));
    UploadOutcome(svc, file, heading, caption, n);
  }

  lemma ImageUrlUploads(svc: R2Service, opts: ProcessOptions, st: ImagePass, file: TFile, heading: string, caption: string)
    requires opts.uploadToR2 && ShouldUseR2(svc.settings)
    requires file.path !in st.cache
    ensures ImageUrl(svc, opts, st, file, heading, caption)
         == AfterUpload(st, file, heading, caption, st.imageCounter + 1, UploadToR2(svc, file, heading, caption, st.imageCounter + 1))
  {
  }

  /** A request sent for an image: its key, and a truthy URL exactly when it
      is accepted. */
  lemma UploadOutcome(svc: R2Service, file: TFile, heading: string, caption: string, n: nat)
    requires ShouldUseR2(svc.settings) && IsImageExtension(file.extension)
    ensures var res := UploadToR2(svc, file, heading, caption, n);
      res.request.Some?
      && res.request.value.key == BuildObjectKey(svc.settings, heading, LowerStr(file.extension), n)
      && (res.url.Some? && res.url.value != "" <==> svc.put(res.request.value))
      && (res.url.Some? ==> res.url.value == BuildPublicUrl(svc.settings, res.request.value.key))
  {
    var res := UploadToR2(svc, file, heading, caption, n);
    if res.url.Some? {
      assert StartsWith(BuildPublicUrl(svc.settings, res.request.value.key), "https://");
    }
  }

  /** What recording a sent request does to the state. */
  lemma AfterUploadOutcome(st: ImagePass, file: TFile, heading: string, caption: string, n: nat, res: UploadResult)
    requires res.request.Some?
    ensures var (next, url) := AfterUpload(st, file, heading, caption, n, res);
      next.content == st.content && next.imageCounter == n
      && |next.uploads| == |st.uploads| + 1 && next.uploads[..|st.uploads|] == st.uploads
      && next.uploads[|st.uploads|].result == res
      && (url != "" <==> res.url.Some? && res.url.value != "")
      && (url != "" ==> url == res.url.value && next.cache == st.cache[file.path := url] && next.uploaded == st.uploaded + 1)
      && (url == "" ==> next.cache == st.cache && next.uploaded == st.uploaded)
  {
    var log := st.uploads + [Upload(file, heading, caption, n, res)];
    assert log[..|st.uploads|] == st.uploads;
  }

  // ---------------------------------------------------------------------
  // Passes that upload nothing

  /** No upload can happen: `options` is undefined, `uploadToR2` is off, or
      R2 is not configured. */
  predicate UploadsOff(svc: R2Service, options: Option<ProcessOptions>) {
    options.None? || !options.value.uploadToR2 || !ShouldUseR2(svc.settings)
  }

  /** Two states with the same cache, counts and upload log. */
  predicate SameLedger(a: ImagePass, b: ImagePass) {
    a.cache == b.cache && a.uploaded == b.uploaded && a.imageCounter == b.imageCounter && a.uploads == b.uploads
  }

  lemma RewriteImageOff(svc: R2Service, options: Option<ProcessOptions>, st: ImagePass, fullMatch: string,
                        file: Option<TFile>, heading: string, caption: string, marker: string,
                        target: string, honourOriginal: bool)
    requires UploadsOff(svc, options)
    ensures SameLedger(RewriteImage(svc, options, st, fullMatch, file, heading, caption, marker, target, honourOriginal), st)
  {
  }

  lemma {:induction false} EmbedPassOff(svc: R2Service, ctx: PassContext, scanned: string, st: ImagePass, hits: seq<Hit>)
    requires HitsWithin(hits, |scanned|)
    requires UploadsOff(svc, ctx.options)
    ensures SameLedger(EmbedPass(svc, ctx, scanned, st, hits), st)
    decreases |hits|
  {
    if hits != [] {
      EmbedPassOff(svc, ctx, scanned, st, hits[..|hits| - 1]);
      var before := EmbedPass(svc, ctx, scanned, st, hits[..|hits| - 1]);
      var h := hits[|hits| - 1];
      var (pathOrName, altFromEmbed) := EmbedTarget(Group(h, 0));
      var heading := HeadingFor(ctx.headings, h.start, ctx.postTitle);
      RewriteImageOff(svc, ctx.options, before, scanned[h.start..h.end], Resolve(svc.vault, pathOrName, Some(ctx.currentFile)),
                      heading, Caption(altFromEmbed, heading), EmbedErrorMarker(pathOrName), pathOrName, true);
    }
  }

  lemma {:induction false} MarkdownPassOff(svc: R2Service, ctx: PassContext, scanned: string, st: ImagePass, hits: seq<Hit>)
    requires HitsWithin(hits, |scanned|)
    requires UploadsOff(svc, ctx.options)
    ensures SameLedger(MarkdownPass(svc, ctx, scanned, st, hits), st)
    decreases |hits|
  {
    if hits != [] {
      MarkdownPassOff(svc, ctx, scanned, st, hits[..|hits| - 1]);
      var before := MarkdownPass(svc, ctx, scanned, st, hits[..|hits| - 1]);
      var h := hits[|hits| - 1];
      var alt := Trim(Group(h, 0));
      var heading := HeadingFor(ctx.headings, h.start, ctx.postTitle);
      var src := Unbracket(Trim(Group(h, 1)));
      if !IsRemote(src) {
        RewriteImageOff(svc, ctx.options, before, scanned[h.start..h.end], Resolve(svc.vault, src, Some(ctx.currentFile)),
                        heading, Caption(alt, heading), ImageErrorMarker(if alt != "" then alt else src), src, false);
      }
    }
  }

  /** With uploads off the pass makes no upload call and reports zero. */
  lemma ProcessAllWithoutUploads(svc: R2Service, content: string, currentFile: TFile, postTitle: string, options: Option<ProcessOptions>)
    requires UploadsOff(svc, options)
    ensures var r := ProcessAll(svc, content, currentFile, postTitle, options);
      r.uploads == [] && r.uploaded == 0 && r.cache == map[] && r.imageCounter == 0
  {
    var ctx := PassContext(currentFile, Headings(content), postTitle, options);
    var afterEmbeds := EmbedPass(svc, ctx, content, InitialPass(content), Reversed(content, EmbedAt));
    EmbedPassOff(svc, ctx, content, InitialPass(content), Reversed(content, EmbedAt));
    MarkdownPassOff(svc, ctx, afterEmbeds.content, afterEmbeds, Reversed(afterEmbeds.content, MarkdownImageAt));
  }
}
