/**
  The note-to-HTML conversion of src/services/markdown-processor.ts: Obsidian
  wiki links rewritten to Markdown links, the embed-inlining loop, the source
  footer, rendering (markdown-it, or the regex fallback when it throws), and
  the post-processing that turns lone images and video links into Ghost cards.

  markdown-it is the `render` function of a `Processor`, `None` when it throws;
  reading a note is `read`, `None` when it throws.
 */
module MarkdownProcessor {

  import opened Wrappers
  import opened Text
  import opened Matching
  import opened Settings
  import opened Media
  import opened FileResolver
  import opened FrontmatterParser

  // ---------------------------------------------------------------------
  // Wiki links

  /** `/\[\[([^\]]+?)\]\]/` tried at `i`: the lazy group stops at the first ']',
      which must be followed by another. */
  function WikiLinkAt(s: string, i: nat): Option<Hit> {
    if At(s, i, "[[") then
      var j := FirstIndex(s, i + 2, ']');
      if i + 2 < j && j + 1 < |s| && s[j + 1] == ']' then Some(Hit(i, j + 2, [s[i + 2..j]])) else None
    else None
  }

  /** `/\s+/` tried at `i`: the whole whitespace run. */
  function SpaceRunAt(s: string, i: nat): Option<Hit> {
    if i < |s| && IsSpace(s[i]) then Some(Hit(i, SpaceRunEnd(s, i), [])) else None
  }

  function Dash(h: Hit): string { "-" }

  /** `fileName.toLowerCase().replace(/\s+/g, '-')`. */
  function LinkSlug(fileName: string): string {
    ReplaceAll(LowerStr(fileName), SpaceRunAt, Dash)
  }

  /** The file name and the display text of `[[linkText]]`: the trimmed first
      '|' piece, and the trimmed second piece when it is non-empty before
      trimming, else the file name. */
  function WikiTarget(linkText: string): (string, string) {
    var parts := Split(linkText, '|');
    var fileName := Trim(parts[0]);
    (fileName, if |parts| > 1 && parts[1] != "" then Trim(parts[1]) else fileName)
  }

  function LinkMarkdown(display: string, slug: string): string {
    "[" + display + "](/" + slug + ")"
  }

  /** The replacement callback of the wiki-link rewrite. */
  function WikiLink(h: Hit): string {
    var (fileName, display) := WikiTarget(Group(h, 0));
    LinkMarkdown(display, LinkSlug(fileName))
  }

  /** The slug of a link holds no whitespace, and no ']' unless the name had one. */
  lemma LinkSlugChars(fileName: string)
    ensures forall k :: 0 <= k < |LinkSlug(fileName)| ==> !IsSpace(LinkSlug(fileName)[k])
    ensures ']' !in fileName ==> ']' !in LinkSlug(fileName)
  {
    var l := LowerStr(fileName);
    ReplaceAvoids(l, 0, SpaceRunAt, Dash, IsSpace);
    if ']' !in fileName {
      ReplaceAvoids(l, 0, SpaceRunAt, Dash, c => c == ']');
    }
  }

  /** A name without whitespace is only lower-cased. */
  lemma LinkSlugOfWord(fileName: string)
    requires forall k :: 0 <= k < |fileName| ==> !IsSpace(fileName[k])
    ensures LinkSlug(fileName) == LowerStr(fileName)
  {
    var l := LowerStr(fileName);
    forall j | 0 <= j < |l| ensures MatchAt(SpaceRunAt, l, j).None? {
      assert !IsSpace(fileName[j]);
    }
    ReplaceNoMatch(l, SpaceRunAt, Dash);
  }

  /** `[[t]]` and `[[t|d]]`: the name is the trimmed `t`; the display is the
      trimmed `d` when `d` is non-empty, else the name. */
  lemma WikiTargetParts(t: string, d: string)
    requires '|' !in t && '|' !in d
    ensures WikiTarget(t) == (Trim(t), Trim(t))
    ensures WikiTarget(t + "|" + d) == (Trim(t), if d != "" then Trim(d) else Trim(t))
  {
    SplitWithout(t, '|');
    SplitJoin([t, d], '|');
    assert Join([t, d], '|') == t + "|" + d;
  }

  lemma {:induction false} SplitLacks(s: string, sep: char, c: char)
    requires c !in s
    ensures forall k :: 0 <= k < |Split(s, sep)| ==> c !in Split(s, sep)[k]
    decreases |s|
  {
    var i := FirstIndex(s, 0, sep);
    if i < |s| {
      SplitLacks(s[i + 1..], sep, c);
    }
  }

  /** Neither part of a link target holds a ']' that the text does not. */
  lemma WikiTargetLacks(x: string)
    requires ']' !in x
    ensures ']' !in WikiTarget(x).0 && ']' !in WikiTarget(x).1
  {
    var parts := Split(x, '|');
    SplitLacks(x, '|', ']');
    TrimLacks(parts[0], ']');
    if |parts| > 1 {
      TrimLacks(parts[1], ']');
    }
  }

  /** `[[x]]` alone is rewritten to `[display](/slug)`. */
  lemma WikiLinkToken(x: string)
    requires x != "" && ']' !in x
    ensures ReplaceAll("[[" + x + "]]", WikiLinkAt, WikiLink)
            == LinkMarkdown(WikiTarget(x).1, LinkSlug(WikiTarget(x).0))
  {
    var s := "[[" + x + "]]";
    FirstIndexIs(s, 2, ']', |x| + 2);
    assert s[2..|x| + 2] == x;
    ReplaceWhole(s, 0, WikiLinkAt, WikiLink, Hit(0, |s|, [x]));
  }

  // ---------------------------------------------------------------------
  // The embed loop

  /** What `convertInternalLinks` reads besides the text: the vault, the note
      reader, the YAML loader and the note being converted. */
  datatype LinkContext = LinkContext(vault: Vault, read: TFile -> Option<string>, yamlLoad: YamlLoader, currentFile: Option<TFile>)

  function InlineErrorMarker(pathOrName: string): string {
    "*[Error processing: " + pathOrName + "]*"
  }

  /** One pass of the embed loop for the match `h` of the text `scanned`: a
      resolved note that is not an image has its first occurrence replaced by
      its body (front matter removed); a failed read leaves the error marker. */
  function InlineStep(ctx: LinkContext, scanned: string, output: string, h: Hit): string
    requires h.start <= h.end <= |scanned|
  {
    var pathOrName := Trim(Split(Group(h, 0), '|')[0]);
    var fullMatch := scanned[h.start..h.end];
    match Resolve(ctx.vault, pathOrName, ctx.currentFile)
    case None => output
    case Some(file) =>
      if IsImageExtension(file.extension) then output
      else match ctx.read(file)
        case None => ReplaceFirst(output, fullMatch, InlineErrorMarker(pathOrName))
        case Some(raw) => ReplaceFirst(output, fullMatch, "\n\n" + ParseFrontmatter(raw, ctx.yamlLoad).markdownContent + "\n\n")
  }

  /** The embed loop over `hits`, first to last. */
  function InlinePass(ctx: LinkContext, scanned: string, output: string, hits: seq<Hit>): string
    requires HitsWithin(hits, |scanned|)
    decreases |hits|
  {
    if hits == [] then output
    else InlineStep(ctx, scanned, InlinePass(ctx, scanned, output, hits[..|hits| - 1]), hits[|hits| - 1])
  }

  /** `convertInternalLinks`: the wiki-link rewrite, then the embed loop over the
      `![[...]]` matches of the rewritten text. */
  function ConvertLinks(ctx: LinkContext, markdown: string): string {
    var output := ReplaceAll(markdown, WikiLinkAt, WikiLink);
    ScanWithin(output, 0, EmbedAt);
    InlinePass(ctx, output, output, Scan(output, 0, EmbedAt))
  }

  /** The body of the embed loop. */
  method InlineEmbed(ctx: LinkContext, scanned: string, output: string, h: Hit) returns (next: string)
    requires h.start <= h.end <= |scanned|
    ensures next == InlineStep(ctx, scanned, output, h)
  {
    next := output;
    var pathOrName := Trim(Split(Group(h, 0), '|')[0]);
    var file := ResolveFileByPath(ctx.vault, pathOrName, ctx.currentFile);
    if file.Some? && !IsImageExtension(file.value.extension) {
      var raw := ctx.read(file.value);
      if raw.None? {
        next := ReplaceFirst(output, scanned[h.start..h.end], InlineErrorMarker(pathOrName));
      } else {
        var parsed := ParseFrontmatter(raw.value, ctx.yamlLoad);
        next := ReplaceFirst(output, scanned[h.start..h.end], "\n\n" + parsed.markdownContent + "\n\n");
      }
    }
  }

  method ConvertInternalLinks(ctx: LinkContext, markdown: string) returns (output: string)
    ensures output == ConvertLinks(ctx, markdown)
  {
    output := ReplaceAll(markdown, WikiLinkAt, WikiLink);
    var scanned := output;
    ScanWithin(scanned, 0, EmbedAt);
    output := InlineEmbeds(ctx, scanned, Scan(scanned, 0, EmbedAt));
  }

  /** The embed loop over the matches of `scanned`, latest text carried along. */
  method InlineEmbeds(ctx: LinkContext, scanned: string, embeds: seq<Hit>) returns (output: string)
    requires HitsWithin(embeds, |scanned|)
    ensures output == InlinePass(ctx, scanned, scanned, embeds)
  {
    output := scanned;
    for k := 0 to |embeds|
      invariant output == InlinePass(ctx, scanned, scanned, embeds[..k])
    {
      assert embeds[..k + 1][..k] == embeds[..k];
      output := InlineEmbed(ctx, scanned, output, embeds[k]);
    }
    assert embeds[..|embeds|] == embeds;
  }

  /** In `![display](/slug)`, with no ']' in the display or the slug, the only
      ']' is the one closing the display, and a '(' follows it. */
  lemma LinkNoEmbed(display: string, slug: string)
    requires ']' !in display && ']' !in slug
    ensures NoMatchIn(EmbedAt, "!" + LinkMarkdown(display, slug), 0, |"!" + LinkMarkdown(display, slug)|)
  {
    var t := "!" + LinkMarkdown(display, slug);
    var p := 2 + |display|;
    assert t == "![" + display + "](/" + slug + ")";
    assert t[p] == ']' && t[p + 1] == '(';
    assert forall j :: 0 <= j < |t| && t[j] == ']' ==> j == p;
    forall i | 0 <= i < |t|
      ensures MatchAt(EmbedAt, t, i).None?
    {
      if At(t, i, "![[") {
        var j := FirstIndex(t, i + 3, ']');
        assert j < |t| ==> j == p;
      }
    }
  }

  /** The wiki-link rewrite of `![[x]]` keeps the '!' and rewrites the rest. */
  lemma EmbedRewritten(x: string)
    requires x != "" && ']' !in x
    ensures ReplaceAll("![[" + x + "]]", WikiLinkAt, WikiLink) == "!" + WikiLink(Hit(1, |x| + 5, [x]))
  {
    var s := "![[" + x + "]]";
    FirstIndexIs(s, 3, ']', |x| + 3);
    assert s[3..|x| + 3] == x;
    var h := Hit(1, |s|, [x]);
    assert WikiLinkAt(s, 1) == Some(h);
    assert s[0] == '!';
    assert !At(s, 0, "[[");
    assert MatchAt(WikiLinkAt, s, 0).None?;
    ReplaceWhole(s, 1, WikiLinkAt, WikiLink, h);
    var w := WikiLink(h);
    assert ReplaceFrom(s, 1, WikiLinkAt, WikiLink) == w;
    assert ReplaceFrom(s, 0, WikiLinkAt, WikiLink) == [s[0]] + w;
  }

  /** `![[x]]` is rewritten as a wiki link with a '!' in front, so the embed
      loop finds no match and nothing is inlined. */
  lemma PlainEmbedNotInlined(ctx: LinkContext, x: string)
    requires x != "" && ']' !in x
    ensures ConvertLinks(ctx, "![[" + x + "]]") == "!" + LinkMarkdown(WikiTarget(x).1, LinkSlug(WikiTarget(x).0))
  {
    EmbedRewritten(x);
    var (fileName, display) := WikiTarget(x);
    var t := "!" + LinkMarkdown(display, LinkSlug(fileName));
    WikiTargetLacks(x);
    LinkSlugChars(fileName);
    LinkNoEmbed(display, LinkSlug(fileName));
    ScanNoMatch(t, EmbedAt);
  }

  /** A name that the wiki-link rewrite keeps whole: no ']', no '|', no whitespace. */
  predicate Bare(x: string) {
    forall k :: 0 <= k < |x| ==> x[k] != ']' && x[k] != '|' && !IsSpace(x[k])
  }

  /** A bare name links to its lower-cased self. */
  lemma BareLink(f: string)
    requires f != [] && Bare(f)
    ensures WikiLink(Hit(0, |f| + 4, [f])) == LinkMarkdown(f, LowerStr(f))
  {
    assert '|' !in f by {
      forall k | 0 <= k < |f| ensures f[k] != '|' { }
    }
    WikiTargetParts(f, "");
    TrimOfTrimmed(f);
    LinkSlugOfWord(f);
  }

  /** `[[f]]` at the start of a text is one wiki-link match when `f` has no ']'. */
  lemma WikiLinkHead(f: string, c: string)
    requires f != [] && ']' !in f
    ensures WikiLinkAt("[[" + f + "]]" + c, 0) == Some(Hit(0, |f| + 4, [f]))
  {
    var s := "[[" + f + "]]" + c;
    forall k | 2 <= k < |f| + 2 ensures s[k] != ']' {
      assert s[k] == f[k - 2];
    }
    FirstIndexIs(s, 2, ']', |f| + 2);
    assert s[2..|f| + 2] == f;
  }

  /** Text without '[' holds no wiki link and is copied unchanged. */
  lemma WikiFreeTail(s: string, e: nat)
    requires e <= |s|
    requires forall j :: e <= j < |s| ==> s[j] != '['
    ensures ReplaceFrom(s, e, WikiLinkAt, WikiLink) == s[e..]
  {
    forall j | e <= j < |s| ensures MatchAt(WikiLinkAt, s, j).None? {
      assert s[j] != '[';
    }
    ReplaceSkip(s, e, |s|, WikiLinkAt, WikiLink);
  }

  /** `[[f]]` followed by text without '[': the link is rewritten and the rest copied. */
  lemma WikiLinkThenText(f: string, c: string)
    requires f != [] && Bare(f) && '[' !in c
    ensures ReplaceAll("[[" + f + "]]" + c, WikiLinkAt, WikiLink) == LinkMarkdown(f, LowerStr(f)) + c
  {
    var s := "[[" + f + "]]" + c;
    var e := |f| + 4;
    assert ']' !in f by {
      forall k | 0 <= k < |f| ensures f[k] != ']' { }
    }
    WikiLinkHead(f, c);
    var h := Hit(0, e, [f]);
    assert MatchAt(WikiLinkAt, s, 0) == Some(h);
    forall j | e <= j < |s| ensures s[j] != '[' {
      assert s[j] == c[j - e];
      assert c[j - e] in c;
    }
    WikiFreeTail(s, e);
    assert s[e..] == c;
    BareLink(f);
  }

  /** Where the slug sits in a Markdown link. */
  lemma LinkMarkdownSlug(display: string, slug: string)
    ensures |LinkMarkdown(display, slug)| == |display| + |slug| + 5
    ensures forall k :: 0 <= k < |slug| ==> LinkMarkdown(display, slug)[|display| + 4 + k] == slug[k]
    ensures LinkMarkdown(display, slug)[|display| + |slug| + 4] == ')'
  {
  }

  /** Lower-casing `a![[b` keeps the `![[` and adds no ']' after it. */
  lemma LowerKeepsEmbed(a: string, b: string)
    requires Bare(b)
    ensures var l := LowerStr(a + "![[" + b);
      |l| == |a| + 3 + |b| && l[|a|] == '!' && l[|a| + 1] == '[' && l[|a| + 2] == '[' &&
      forall k :: |a| + 3 <= k < |l| ==> l[k] != ']'
  {
    var f := a + "![[" + b;
    assert f[|a|] == '!' && f[|a| + 1] == '[' && f[|a| + 2] == '[';
    forall k | |a| + 3 <= k < |f| ensures Lower(f[k]) != ']' {
      assert f[k] == b[k - |a| - 3];
    }
  }

  /** `![[` at `p` and a first ']' at `j` that opens `]]`: the embed regex matches. */
  lemma EmbedAtFirstClose(t: string, p: nat, j: nat)
    requires p + 3 < j && j + 1 < |t|
    requires t[p] == '!' && t[p + 1] == '[' && t[p + 2] == '[' && t[j] == ']' && t[j + 1] == ']'
    requires forall k :: p + 3 <= k < j ==> t[k] != ']'
    ensures MatchAt(EmbedAt, t, p).Some?
  {
    FirstIndexIs(t, p + 3, ']', j);
    assert At(t, p, "![[");
  }

  /** A slug holding `![[` at `q`, with no ']' after it, followed by text whose
      first ']' opens a closing `]]`: the embed regex matches there. */
  lemma EmbedInSlug(display: string, slug: string, q: nat, tail: string)
    requires q + 3 <= |slug| && slug[q] == '!' && slug[q + 1] == '[' && slug[q + 2] == '['
    requires forall k :: q + 3 <= k < |slug| ==> slug[k] != ']'
    requires |tail| >= 2 && tail[|tail| - 2] == ']' && tail[|tail| - 1] == ']'
    requires forall k :: 0 <= k < |tail| - 2 ==> tail[k] != ']'
    ensures MatchAt(EmbedAt, LinkMarkdown(display, slug) + tail, |display| + 4 + q).Some?
  {
    var link := LinkMarkdown(display, slug);
    LinkMarkdownSlug(display, slug);
    var t := link + tail;
    var p := |display| + 4 + q;
    var j := |link| + |tail| - 2;
    assert t[p] == slug[q] && t[p + 1] == slug[q + 1] && t[p + 2] == slug[q + 2];
    forall k | p + 3 <= k < j ensures t[k] != ']' {
      if k < |link| - 1 {
        assert t[k] == slug[k - |display| - 4];
      } else if k >= |link| {
        assert t[k] == tail[k - |link|];
      }
    }
    assert t[j] == tail[|tail| - 2] && t[j + 1] == tail[|tail| - 1];
    EmbedAtFirstClose(t, p, j);
  }

  /** The loop is not dead code: a wiki link whose name holds `![[`, followed
      by text and `]]`, leaves an embed match in the rewritten text. */
  lemma EmbedLoopReachable(a: string, b: string, c: string)
    requires Bare(a) && Bare(b) && '[' !in c && ']' !in c
    ensures Scan(ReplaceAll("[[" + a + "![[" + b + "]]" + c + "]]", WikiLinkAt, WikiLink), 0, EmbedAt) != []
  {
    var f := a + "![[" + b;
    assert Bare(f) by {
      forall k | 0 <= k < |f| ensures f[k] != ']' && f[k] != '|' && !IsSpace(f[k]) {
        if k < |a| { assert f[k] == a[k]; }
        else if k >= |a| + 3 { assert f[k] == b[k - |a| - 3]; }
      }
    }
    var tail := c + "]]";
    forall k | 0 <= k < |tail| ensures tail[k] != '[' && (k < |tail| - 2 ==> tail[k] != ']') {
      if k < |c| { assert tail[k] == c[k]; assert c[k] in c; }
    }
    assert '[' !in tail;
    assert "[[" + a + "![[" + b + "]]" + c + "]]" == "[[" + f + "]]" + tail;
    WikiLinkThenText(f, tail);
    LowerKeepsEmbed(a, b);
    EmbedInSlug(f, LowerStr(f), |a|, tail);
    ScanFirst(LinkMarkdown(f, LowerStr(f)) + tail, 0, EmbedAt);
  }

  // ---------------------------------------------------------------------
  // Ghost cards

  /** `/alt="([^"]*)"/` tried at `i`: the value runs to the next '"'. */
  function AltAt(s: string, i: nat): Option<Hit> {
    if At(s, i, "alt=\"") then
      var q := FirstIndex(s, i + 5, '"');
      if q < |s| then Some(Hit(i, q + 1, [s[i + 5..q]])) else None
    else None
  }

  /** `extractAlt`: the value of the first `alt="..."` of the attributes, else "". */
  function ExtractAlt(attrs: string): string {
    match FirstMatch(attrs, AltAt)
    case Some(h) => Group(h, 0)
    case None => ""
  }

  /** The image card built around `<img attrs>`, captioned with a non-empty alt. */
  function ImageCard(attrs: string): string {
    var alt := ExtractAlt(attrs);
    "<figure class=\"kg-card kg-image-card\"><img" + attrs + ">"
      + (if alt != "" then "<figcaption>" + alt + "</figcaption>" else "") + "</figure>"
  }

  /** `<img([^>]+?)>` tried at `i`: the lazy attributes cannot pass a '>', so
      they end at the first one. */
  function ImgTagAt(s: string, i: nat): (r: Option<Hit>)
    ensures r.Some? ==> ValidHit(s, i, r.value)
  {
    if At(s, i, "<img") then
      var e := FirstIndex(s, i + 4, '>');
      if i + 4 < e < |s| then Some(Hit(i, e + 1, [s[i + 4..e]])) else None
    else None
  }

  /** `/<p>\s*<img([^>]+?)>\s*<\/p>/` tried at `i`. Neither `\s*` can give a
      character back, since what follows each starts with '<'. */
  function ImageParagraphAt(s: string, i: nat): Option<Hit> {
    if At(s, i, "<p>") then
      var a := SpaceRunEnd(s, i + 3);
      match ImgTagAt(s, a)
      case Some(tag) =>
        var b := SpaceRunEnd(s, tag.end);
        if At(s, b, "</p>") then Some(Hit(i, b + 4, tag.groups)) else None
      case None => None
    else None
  }

  function ImageParagraphCard(h: Hit): string {
    ImageCard(Group(h, 0))
  }

  /** `/(^|\n)(\s*)<img([^>]+?)>(?=\n|$)/` tried at `i`: at 0 the `^` branch
      (the `\n` branch would find the same spaces and the same tag), elsewhere a
      '\n'; the tag must end the text or stand before a '\n'. The groups are
      the prefix, the indentation and the attributes. */
  function LoneImageAt(s: string, i: nat): Option<Hit> {
    if i == 0 || (i < |s| && s[i] == '\n') then
      var from := if i == 0 then 0 else i + 1;
      var c := SpaceRunEnd(s, from);
      match ImgTagAt(s, c)
      case Some(tag) =>
        if tag.end == |s| || s[tag.end] == '\n' then
          Some(Hit(i, tag.end, [s[i..from], s[from..c], Group(tag, 0)]))
        else None
      case None => None
    else None
  }

  function LoneImageCard(h: Hit): string {
    Group(h, 0) + Group(h, 1) + ImageCard(Group(h, 2))
  }

  /** The whole of `url` matches `https?:\/\/[^"]+` once it holds no '"'. */
  predicate IsHttpUrl(url: string) {
    (At(url, 0, "https://") && |url| > 8) || (At(url, 0, "http://") && |url| > 7)
  }

  /** `<a href="(https?:\/\/[^"]+)">\1<\/a>` tried at `i`: the address runs to
      the next '"' and must come back as the link text. */
  function SelfLinkAt(s: string, i: nat): (r: Option<Hit>)
    ensures r.Some? ==> ValidHit(s, i, r.value)
  {
    if At(s, i, "<a href=\"") then
      var q := FirstIndex(s, i + 9, '"');
      var url := s[i + 9..q];
      if IsHttpUrl(url) && At(s, q, "\">") && At(s, q + 2, url + "</a>") then
        Some(Hit(i, q + 6 + |url|, [url]))
      else None
    else None
  }

  /** `/<p>\s*<a href="(https?:\/\/[^\"]+)">\1<\/a>\s*<\/p>/` tried at `i`. The
      groups are the address and the whole match, the replacement's arguments. */
  function EmbedParagraphAt(s: string, i: nat): Option<Hit> {
    if At(s, i, "<p>") then
      var a := SpaceRunEnd(s, i + 3);
      match SelfLinkAt(s, a)
      case Some(link) =>
        var b := SpaceRunEnd(s, link.end);
        if At(s, b, "</p>") then Some(Hit(i, b + 4, [Group(link, 0), s[i..b + 4]])) else None
      case None => None
    else None
  }

  predicate IsIdChar(c: char) {
    'a' <= c <= 'z' || 'A' <= c <= 'Z' || '0' <= c <= '9' || c == '_' || c == '-'
  }

  /** `prefix([a-zA-Z0-9_-]{6,})` tried at `i`: the greedy run of id
      characters after the prefix, when it has at least six. */
  function IdAfter(s: string, i: nat, prefix: string): Option<Hit>
    requires prefix != ""
  {
    if At(s, i, prefix) then
      var e := RunWhile(s, i + |prefix|, IsIdChar);
      if e >= i + |prefix| + 6 then Some(Hit(i, e, [s[i + |prefix|..e]])) else None
    else None
  }

  const WatchPrefix := "youtube.com/watch?v="
  const ShortLinkPrefix := "youtu.be/"
  const ShortsPrefix := "youtube.com/shorts/"

  function WatchAt(s: string, i: nat): Option<Hit> { IdAfter(s, i, WatchPrefix) }
  function ShortLinkAt(s: string, i: nat): Option<Hit> { IdAfter(s, i, ShortLinkPrefix) }
  function ShortsAt(s: string, i: nat): Option<Hit> { IdAfter(s, i, ShortsPrefix) }

  /** The id `youtubeEmbed` finds: from a watch link, else a short link, else a shorts link. */
  function YoutubeId(url: string): Option<string> {
    match FirstMatch(url, WatchAt)
    case Some(h) => Some(Group(h, 0))
    case None =>
      match FirstMatch(url, ShortLinkAt)
      case Some(h) => Some(Group(h, 0))
      case None =>
        match FirstMatch(url, ShortsAt)
        case Some(h) => Some(Group(h, 0))
        case None => None
  }

  function YoutubeFrame(id: string): string {
    "<iframe width=\"560\" height=\"315\" src=\"https://www.youtube.com/embed/" + id
      + "\" frameborder=\"0\" allow=\"accelerometer; autoplay; clipboard-write; encrypted-media; gyroscope; picture-in-picture; web-share\" allowfullscreen></iframe>"
  }

  /** `/vimeo\.com\/(?:video\/)?([0-9]+)/` tried at `i`: the greedy digit run
      after `video/` when that is present (giving it back cannot help, since
      'v' is no digit), else right after the slash. */
  function VimeoAt(s: string, i: nat): Option<Hit> {
    if At(s, i, "vimeo.com/") then
      var d := if At(s, i + 10, "video/") then i + 16 else i + 10;
      var e := RunWhile(s, d, IsDigit);
      if d < e then Some(Hit(i, e, [s[d..e]])) else None
    else None
  }

  function VimeoId(url: string): Option<string> {
    match FirstMatch(url, VimeoAt)
    case Some(h) => Some(Group(h, 0))
    case None => None
  }

  function VimeoFrame(id: string): string {
    "<iframe src=\"https://player.vimeo.com/video/" + id
      + "\" width=\"640\" height=\"360\" frameborder=\"0\" allow=\"autoplay; fullscreen; picture-in-picture\" allowfullscreen></iframe>"
  }

  function EmbedFigure(frame: string): string {
    "<figure class=\"kg-card kg-embed-card\">" + frame + "</figure>"
  }

  /** The replacement of a link paragraph: a YouTube card, else a Vimeo card,
      else the paragraph unchanged. */
  function EmbedCard(h: Hit): string {
    var url := Group(h, 0);
    match YoutubeId(url)
    case Some(id) => EmbedFigure(YoutubeFrame(id))
    case None =>
      match VimeoId(url)
      case Some(id) => EmbedFigure(VimeoFrame(id))
      case None => Group(h, 1)
  }

  /** `postProcessHtmlForGhostCards`: the three rewrites, in order. */
  function PostProcessForGhostCards(html: string): string {
    var figures := ReplaceAll(html, ImageParagraphAt, ImageParagraphCard);
    var lone := ReplaceAll(figures, LoneImageAt, LoneImageCard);
    ReplaceAll(lone, EmbedParagraphAt, EmbedCard)
  }

  /** An image tag: `<img`, attributes without '>', then '>'. */
  lemma ImgTagAtIs(s: string, i: nat, e: nat)
    requires i + 4 < e < |s| && At(s, i, "<img") && s[e] == '>'
    requires forall j :: i + 4 <= j < e ==> s[j] != '>'
    ensures ImgTagAt(s, i) == Some(Hit(i, e + 1, [s[i + 4..e]]))
  {
    FirstIndexIs(s, i + 4, '>', e);
  }

  /** A paragraph holding only an image tag (from `a`, with the attributes
      `attrs`) between spaces becomes that image's card. */
  lemma ImageParagraphBecomesCard(s: string, a: nat, attrs: string)
    requires 3 <= a && At(s, 0, "<p>") && At(s, |s| - 4, "</p>")
    requires ImgTagAt(s, a) == Some(Hit(a, a + |attrs| + 5, [attrs])) && a + |attrs| + 5 <= |s| - 4
    requires forall j :: 3 <= j < a ==> IsSpace(s[j])
    requires forall j :: a + |attrs| + 5 <= j < |s| - 4 ==> IsSpace(s[j])
    ensures ReplaceAll(s, ImageParagraphAt, ImageParagraphCard) == ImageCard(attrs)
  {
    assert s[a] == '<';
    SpaceRunEndIs(s, 3, a);
    SpaceRunEndIs(s, a + |attrs| + 5, |s| - 4);
    ReplaceWhole(s, 0, ImageParagraphAt, ImageParagraphCard, Hit(0, |s|, [attrs]));
  }

  /** An image tag at `c` with the attributes `attrs`, at the start of the text
      or of a line (the break at `i`), after whitespace: a lone image exactly
      when the line ends with the tag; the card keeps what precedes the tag. */
  lemma LoneImageLine(s: string, i: nat, c: nat, attrs: string)
    requires c + |attrs| + 5 <= |s|
    requires i == 0 || (i < c && s[i] == '\n')
    requires ImgTagAt(s, c) == Some(Hit(c, c + |attrs| + 5, [attrs]))
    requires forall j :: i <= j < c ==> IsSpace(s[j])
    ensures var e := c + |attrs| + 5;
      MatchAt(LoneImageAt, s, i).Some? <==> e == |s| || s[e] == '\n'
    ensures MatchAt(LoneImageAt, s, i).Some? ==>
      MatchAt(LoneImageAt, s, i).value.end == c + |attrs| + 5 &&
      LoneImageCard(MatchAt(LoneImageAt, s, i).value) == s[i..c] + ImageCard(attrs)
  {
    var from := if i == 0 then 0 else i + 1;
    assert s[c] == '<';
    SpaceRunEndIs(s, from, c);
    assert s[i..from] + s[from..c] == s[i..c];
  }

  /** A link whose text is its own http(s) address `url`. */
  lemma SelfLinkAtIs(s: string, i: nat, url: string)
    requires IsHttpUrl(url) && '"' !in url
    requires At(s, i, "<a href=\"") && At(s, i + 9, url) && At(s, i + 9 + |url|, "\">")
    requires At(s, i + 11 + |url|, url) && At(s, i + 11 + 2 * |url|, "</a>")
    ensures SelfLinkAt(s, i) == Some(Hit(i, i + 15 + 2 * |url|, [url]))
  {
    var q := i + 9 + |url|;
    forall j | i + 9 <= j < q ensures s[j] != '"' {
      assert s[j] == url[j - i - 9];
    }
    FirstIndexIs(s, i + 9, '"', q);
    AtJoin(s, q + 2, url, "</a>");
    assert s[i + 9..q] == url;
  }

  /** A paragraph holding only a link (from `a`) whose text is its own address
      `url`, between spaces, becomes a YouTube card when the address has a
      YouTube id, else a Vimeo card when it has a Vimeo id, else stays as it is. */
  lemma LinkParagraphCard(s: string, a: nat, url: string)
    requires 3 <= a && At(s, 0, "<p>") && At(s, |s| - 4, "</p>")
    requires SelfLinkAt(s, a) == Some(Hit(a, a + 15 + 2 * |url|, [url])) && a + 15 + 2 * |url| <= |s| - 4
    requires forall j :: 3 <= j < a ==> IsSpace(s[j])
    requires forall j :: a + 15 + 2 * |url| <= j < |s| - 4 ==> IsSpace(s[j])
    ensures ReplaceAll(s, EmbedParagraphAt, EmbedCard) ==
      if YoutubeId(url).Some? then EmbedFigure(YoutubeFrame(YoutubeId(url).value))
      else if VimeoId(url).Some? then EmbedFigure(VimeoFrame(VimeoId(url).value))
      else s
  {
    assert s[a] == '<';
    SpaceRunEndIs(s, 3, a);
    SpaceRunEndIs(s, a + 15 + 2 * |url|, |s| - 4);
    assert s[0..|s|] == s;
    var h := Hit(0, |s|, [url, s]);
    ReplaceWhole(s, 0, EmbedParagraphAt, EmbedCard, h);
    assert Group(h, 0) == url && Group(h, 1) == s;
  }

  /** A match at `i` with none before it is what `match` without `/g` finds. */
  lemma FirstMatchIs(s: string, m: Matcher, i: nat)
    requires i < |s| && MatchAt(m, s, i).Some? && NoMatchIn(m, s, 0, i)
    ensures FirstMatch(s, m) == MatchAt(m, s, i)
  {
    FirstMatchFinds(s, m, i);
  }

  /** The alt is the value of the first `alt="`, up to the next '"'. */
  lemma ExtractAltFirst(attrs: string, i: nat, alt: string)
    requires '"' !in alt && i + 5 + |alt| < |attrs|
    requires At(attrs, i, "alt=\"") && At(attrs, i + 5, alt) && attrs[i + 5 + |alt|] == '"'
    requires forall j :: 0 <= j < i ==> !At(attrs, j, "alt=\"")
    ensures ExtractAlt(attrs) == alt
  {
    var q := i + 5 + |alt|;
    forall j | i + 5 <= j < q ensures attrs[j] != '"' {
      assert attrs[j] == alt[j - i - 5];
    }
    FirstIndexIs(attrs, i + 5, '"', q);
    assert attrs[i + 5..q] == alt;
    FirstMatchIs(attrs, AltAt, i);
  }

  /** Attributes with no `alt="` have no alt, so their card has no caption. */
  lemma ExtractAltAbsent(attrs: string)
    requires forall j :: 0 <= j < |attrs| ==> !At(attrs, j, "alt=\"")
    ensures ExtractAlt(attrs) == ""
    ensures ImageCard(attrs) == "<figure class=\"kg-card kg-image-card\"><img" + attrs + "></figure>"
  {
  }

  /** `id` is a run of characters satisfying `p` right after `prefix` somewhere
      in `url`, and the run ends there. */
  predicate RunAfter(url: string, prefix: string, id: string, p: char -> bool) {
    (forall k :: 0 <= k < |id| ==> p(id[k])) &&
    exists i :: 0 <= i <= |url| && At(url, i, prefix + id) && (i + |prefix| + |id| == |url| || !p(url[i + |prefix| + |id|]))
  }

  /** What a YouTube pattern captures: at least six id characters after its prefix. */
  predicate IdFollows(url: string, prefix: string, id: string) {
    |id| >= 6 && RunAfter(url, prefix, id, IsIdChar)
  }

  lemma IdAfterFollows(s: string, i: nat, prefix: string)
    requires prefix != "" && IdAfter(s, i, prefix).Some?
    ensures IdFollows(s, prefix, Group(IdAfter(s, i, prefix).value, 0))
  {
    var e := RunWhile(s, i + |prefix|, IsIdChar);
    var id := s[i + |prefix|..e];
    assert Group(IdAfter(s, i, prefix).value, 0) == id;
    AtJoin(s, i, prefix, id);
  }

  lemma IdAfterFinds(s: string, i: nat, prefix: string, id: string)
    requires prefix != "" && At(s, i, prefix + id) && |id| >= 6
    requires forall k :: 0 <= k < |id| ==> IsIdChar(id[k])
    ensures IdAfter(s, i, prefix).Some?
  {
    assert s[i..i + |prefix|] == (prefix + id)[..|prefix|];
    var from := i + |prefix|;
    forall j | from <= j < from + 6 ensures IsIdChar(s[j]) {
      assert s[j] == s[i..i + |prefix| + |id|][j - i] == id[j - from];
    }
  }

  /** Whatever id `youtubeEmbed` finds follows one of its three prefixes. */
  lemma YoutubeIdSound(url: string)
    requires YoutubeId(url).Some?
    ensures var id := YoutubeId(url).value;
      IdFollows(url, WatchPrefix, id) || IdFollows(url, ShortLinkPrefix, id) || IdFollows(url, ShortsPrefix, id)
  {
    match FirstMatch(url, WatchAt)
    case Some(h) => IdAfterFollows(url, h.start, WatchPrefix);
    case None =>
      match FirstMatch(url, ShortLinkAt)
      case Some(h) => IdAfterFollows(url, h.start, ShortLinkPrefix);
      case None =>
        var h := FirstMatch(url, ShortsAt).value;
        IdAfterFollows(url, h.start, ShortsPrefix);
  }

  /** No id exactly when none of the three patterns matches anywhere. */
  lemma YoutubeIdNone(url: string)
    ensures YoutubeId(url).None? <==>
      NoMatchIn(WatchAt, url, 0, |url|) && NoMatchIn(ShortLinkAt, url, 0, |url|) && NoMatchIn(ShortsAt, url, 0, |url|)
  {
  }

  /** A watch link with an id wins over the other two forms. */
  lemma YoutubeIdPrefersWatch(url: string, i: nat, id: string)
    requires At(url, i, WatchPrefix + id) && |id| >= 6
    requires forall k :: 0 <= k < |id| ==> IsIdChar(id[k])
    ensures YoutubeId(url).Some? && IdFollows(url, WatchPrefix, YoutubeId(url).value)
  {
    IdAfterFinds(url, i, WatchPrefix, id);
    FirstMatchFinds(url, WatchAt, i);
    IdAfterFollows(url, FirstMatch(url, WatchAt).value.start, WatchPrefix);
  }

  /** Without a watch link, a short link with an id wins over a shorts link. */
  lemma YoutubeIdPrefersShortLink(url: string, i: nat, id: string)
    requires NoMatchIn(WatchAt, url, 0, |url|)
    requires At(url, i, ShortLinkPrefix + id) && |id| >= 6
    requires forall k :: 0 <= k < |id| ==> IsIdChar(id[k])
    ensures YoutubeId(url).Some? && IdFollows(url, ShortLinkPrefix, YoutubeId(url).value)
  {
    IdAfterFinds(url, i, ShortLinkPrefix, id);
    FirstMatchFinds(url, ShortLinkAt, i);
    IdAfterFollows(url, FirstMatch(url, ShortLinkAt).value.start, ShortLinkPrefix);
  }

  /** With neither of the others, a shorts link with an id gives its id. */
  lemma YoutubeIdShorts(url: string, i: nat, id: string)
    requires NoMatchIn(WatchAt, url, 0, |url|) && NoMatchIn(ShortLinkAt, url, 0, |url|)
    requires At(url, i, ShortsPrefix + id) && |id| >= 6
    requires forall k :: 0 <= k < |id| ==> IsIdChar(id[k])
    ensures YoutubeId(url).Some? && IdFollows(url, ShortsPrefix, YoutubeId(url).value)
  {
    IdAfterFinds(url, i, ShortsPrefix, id);
    FirstMatchFinds(url, ShortsAt, i);
    IdAfterFollows(url, FirstMatch(url, ShortsAt).value.start, ShortsPrefix);
  }

  /** A Vimeo match captures a maximal digit run after `vimeo.com/`, or after
      `vimeo.com/video/`. */
  lemma VimeoAtFollows(s: string, i: nat)
    requires VimeoAt(s, i).Some?
    ensures var id := Group(VimeoAt(s, i).value, 0);
      id != "" && (RunAfter(s, "vimeo.com/", id, IsDigit) || RunAfter(s, "vimeo.com/video/", id, IsDigit))
  {
    var video := At(s, i + 10, "video/");
    var d := if video then i + 16 else i + 10;
    var e := RunWhile(s, d, IsDigit);
    var id := s[d..e];
    assert Group(VimeoAt(s, i).value, 0) == id;
    var prefix := if video then "vimeo.com/video/" else "vimeo.com/";
    if video {
      AtJoin(s, i, "vimeo.com/", "video/");
      assert "vimeo.com/" + "video/" == prefix;
    }
    AtJoin(s, i, prefix, id);
    assert i + |prefix| + |id| == e;
  }

  /** Whatever id `vimeoEmbed` finds is a maximal digit run after `vimeo.com/`,
      or after `vimeo.com/video/`. */
  lemma VimeoIdSound(url: string)
    requires VimeoId(url).Some?
    ensures var id := VimeoId(url).value;
      id != "" && (RunAfter(url, "vimeo.com/", id, IsDigit) || RunAfter(url, "vimeo.com/video/", id, IsDigit))
  {
    VimeoAtFollows(url, FirstMatch(url, VimeoAt).value.start);
  }

  /** A Vimeo address with digits after `vimeo.com/` or `vimeo.com/video/` has an id. */
  lemma VimeoIdFinds(url: string, i: nat, id: string)
    requires id != "" && forall k :: 0 <= k < |id| ==> IsDigit(id[k])
    requires At(url, i, "vimeo.com/" + id) || At(url, i, "vimeo.com/video/" + id)
    ensures VimeoId(url).Some?
  {
    if At(url, i, "vimeo.com/" + id) {
      AtSplit(url, i, "vimeo.com/", id);
      assert url[i + 10] == id[0];
    } else {
      AtSplit(url, i, "vimeo.com/video/", id);
      assert "vimeo.com/video/" == "vimeo.com/" + "video/";
      AtSplit(url, i, "vimeo.com/", "video/");
      assert url[i + 16] == id[0];
    }
    FirstMatchFinds(url, VimeoAt, i);
  }

  // ---------------------------------------------------------------------
  // The fallback renderer

  /** `^` of a multiline regex at `i`: the start of the text or of a line. */
  predicate LineStart(s: string, i: nat) {
    i == 0 || (0 < i <= |s| && IsLineTerminator(s[i - 1]))
  }

  /** `/^<marker> (.*$)/gim` tried at `i`: a line opening with the marker and a
      space; the group is the rest of the line, where `$` holds. */
  function HeadingAt(s: string, i: nat, marker: string): Option<Hit> {
    if LineStart(s, i) && At(s, i, marker + " ") then
      var e := LineEnd(s, i + |marker| + 1);
      Some(Hit(i, e, [s[i + |marker| + 1..e]]))
    else None
  }

  function H3At(s: string, i: nat): Option<Hit> { HeadingAt(s, i, "###") }
  function H2At(s: string, i: nat): Option<Hit> { HeadingAt(s, i, "##") }
  function H1At(s: string, i: nat): Option<Hit> { HeadingAt(s, i, "#") }

  function Tagged(tag: string, inner: string): string {
    "<" + tag + ">" + inner + "</" + tag + ">"
  }

  function H3(h: Hit): string { Tagged("h3", Group(h, 0)) }
  function H2(h: Hit): string { Tagged("h2", Group(h, 0)) }
  function H1(h: Hit): string { Tagged("h1", Group(h, 0)) }

  /** Where a lazy `(.*?)` followed by `close` stops, from `from`: the first
      occurrence of `close`, unless a line terminator or the end comes first. */
  function LazyClose(s: string, from: nat, close: string): (r: Option<nat>)
    requires from <= |s|
    decreases |s| - from
    ensures r.Some? ==> from <= r.value && At(s, r.value, close)
  {
    if At(s, from, close) then Some(from)
    else if from == |s| || IsLineTerminator(s[from]) then None
    else LazyClose(s, from + 1, close)
  }

  /** `/<d>(.*?)<d>/g` tried at `i`, for the delimiters `**` and `*`. */
  function DelimitedAt(s: string, i: nat, d: string): Option<Hit>
    requires d != ""
  {
    if At(s, i, d) then
      match LazyClose(s, i + |d|, d)
      case Some(k) => Some(Hit(i, k + |d|, [s[i + |d|..k]]))
      case None => None
    else None
  }

  function StrongAt(s: string, i: nat): Option<Hit> { DelimitedAt(s, i, "**") }
  function EmphasisAt(s: string, i: nat): Option<Hit> { DelimitedAt(s, i, "*") }
  function Strong(h: Hit): string { Tagged("strong", Group(h, 0)) }
  function Emphasis(h: Hit): string { Tagged("em", Group(h, 0)) }

  /** `/\[([^\]]+)\]\(([^)]+)\)/g` tried at `i`: a non-empty text up to the
      first ']', then '(' and a non-empty target up to the first ')'. */
  function LinkAt(s: string, i: nat): Option<Hit> {
    if i < |s| && s[i] == '[' then
      var j := FirstIndex(s, i + 1, ']');
      if i + 1 < j && j + 1 < |s| && s[j + 1] == '(' then
        var k := FirstIndex(s, j + 2, ')');
        if j + 2 < k < |s| then Some(Hit(i, k + 1, [s[i + 1..j], s[j + 2..k]])) else None
      else None
    else None
  }

  function LinkHtml(h: Hit): string {
    "<a href=\"" + Group(h, 1) + "\">" + Group(h, 0) + "</a>"
  }

  function ImageHtml(h: Hit): string {
    "<img src=\"" + Group(h, 1) + "\" alt=\"" + Group(h, 0) + "\" />"
  }

  /** `/```([^`]+)```/g` tried at `i`: the body runs to the next '`', where the
      closing fence must stand. */
  function FenceAt(s: string, i: nat): Option<Hit> {
    if At(s, i, "```") then
      var j := FirstIndex(s, i + 3, '`');
      if i + 3 < j && At(s, j, "```") then Some(Hit(i, j + 3, [s[i + 3..j]])) else None
    else None
  }

  function FenceHtml(h: Hit): string { "<pre><code>" + Group(h, 0) + "</code></pre>" }

  /** `/`([^`]+)`/g` tried at `i`. */
  function CodeAt(s: string, i: nat): Option<Hit> {
    if i < |s| && s[i] == '`' then
      var j := FirstIndex(s, i + 1, '`');
      if i + 1 < j < |s| then Some(Hit(i, j + 1, [s[i + 1..j]])) else None
    else None
  }

  function CodeHtml(h: Hit): string { Tagged("code", Group(h, 0)) }

  /** A regex that is a plain non-empty string. */
  function LiteralAt(s: string, i: nat, p: string): Option<Hit> {
    if p != "" && At(s, i, p) then Some(Hit(i, i + |p|, [])) else None
  }

  function ParagraphBreakAt(s: string, i: nat): Option<Hit> { LiteralAt(s, i, "\n\n") }
  function NewlineAt(s: string, i: nat): Option<Hit> { LiteralAt(s, i, "\n") }
  function EmptyParagraphAt(s: string, i: nat): Option<Hit> { LiteralAt(s, i, "<p></p>") }
  function ParagraphBreak(h: Hit): string { "</p><p>" }
  function LineBreak(h: Hit): string { "<br>" }
  function Removed(h: Hit): string { "" }

  /** The first nine rules of `markdownToHtml`, in order: headings, emphasis,
      links, images, code. */
  function InlineMarkup(markdown: string): string {
    var h3 := ReplaceAll(markdown, H3At, H3);
    var h2 := ReplaceAll(h3, H2At, H2);
    var h1 := ReplaceAll(h2, H1At, H1);
    var strong := ReplaceAll(h1, StrongAt, Strong);
    var em := ReplaceAll(strong, EmphasisAt, Emphasis);
    var links := ReplaceAll(em, LinkAt, LinkHtml);
    var images := ReplaceAll(links, MarkdownImageAt, ImageHtml);
    var fences := ReplaceAll(images, FenceAt, FenceHtml);
    ReplaceAll(fences, CodeAt, CodeHtml)
  }

  /** The rest of `markdownToHtml`: blank lines end paragraphs, other line
      breaks become `<br>`, the whole is wrapped, and empty paragraphs go. */
  function Paragraphs(html: string): string {
    var paragraphs := ReplaceAll(html, ParagraphBreakAt, ParagraphBreak);
    var breaks := ReplaceAll(paragraphs, NewlineAt, LineBreak);
    ReplaceAll("<p>" + breaks + "</p>", EmptyParagraphAt, Removed)
  }

  /** `markdownToHtml`, the regex renderer used when markdown-it throws. */
  function MarkdownToHtml(markdown: string): string {
    Paragraphs(InlineMarkup(markdown))
  }

  predicate IsLineFeed(c: char) { c == '\n' }

  /** After the `<br>` rule no line feed is left. */
  lemma LineBreaksRemoveLineFeeds(text: string)
    ensures forall k :: 0 <= k < |ReplaceAll(text, NewlineAt, LineBreak)| ==>
      ReplaceAll(text, NewlineAt, LineBreak)[k] != '\n'
  {
    forall j | 0 <= j < |text| && IsLineFeed(text[j])
      ensures MatchAt(NewlineAt, text, j).Some?
    {
      assert text[j..j + 1] == "\n";
    }
    forall h: Hit, k | 0 <= k < |LineBreak(h)| ensures !IsLineFeed(LineBreak(h)[k]) {
      assert k == 0 || k == 1 || k == 2 || k == 3;
    }
    ReplaceAvoids(text, 0, NewlineAt, LineBreak, IsLineFeed);
  }

  /** The fallback output holds no line feed: each one became a paragraph
      break or a `<br>`. */
  lemma MarkdownToHtmlOneLine(markdown: string)
    ensures forall k :: 0 <= k < |MarkdownToHtml(markdown)| ==> MarkdownToHtml(markdown)[k] != '\n'
  {
    var paragraphs := ReplaceAll(InlineMarkup(markdown), ParagraphBreakAt, ParagraphBreak);
    var breaks := ReplaceAll(paragraphs, NewlineAt, LineBreak);
    LineBreaksRemoveLineFeeds(paragraphs);
    var wrapped := "<p>" + breaks + "</p>";
    assert '\n' !in breaks;
    assert '\n' !in wrapped;
    ReplaceAvoids(wrapped, 0, EmptyParagraphAt, Removed, IsLineFeed);
  }

  /** Empty Markdown renders as nothing: its lone empty paragraph is removed. */
  lemma MarkdownToHtmlEmpty()
    ensures MarkdownToHtml("") == ""
  {
    assert InlineMarkup("") == "";
    var w := "<p>" + "" + "</p>";
    assert w == "<p></p>";
    ReplaceWhole(w, 0, EmptyParagraphAt, Removed, Hit(0, 7, []));
  }

  lemma LinkAtBracketed(s: string, a: string, b: string)
    requires s == "![" + a + "](" + b + ")"
    requires a != "" && b != "" && ']' !in a && ')' !in b
    ensures LinkAt(s, 1) == Some(Hit(1, |s|, [a, b]))
  {
    var j := 2 + |a|;
    var k := j + 2 + |b|;
    forall m | 2 <= m < j ensures s[m] != ']' {
      assert s[m] == a[m - 2];
    }
    FirstIndexIs(s, 2, ']', j);
    forall m | j + 2 <= m < k ensures s[m] != ')' {
      assert s[m] == b[m - j - 2];
    }
    FirstIndexIs(s, j + 2, ')', k);
    assert s[2..j] == a && s[j + 2..k] == b;
  }

  /** Text without '[' holds no markdown image. */
  lemma ImageRuleIdle(t: string)
    requires '[' !in t
    ensures ReplaceAll(t, MarkdownImageAt, ImageHtml) == t
  {
    forall m | 0 <= m < |t| ensures MatchAt(MarkdownImageAt, t, m).None? {
      if m + 1 < |t| {
        assert t[m + 1] in t;
      }
    }
    ReplaceNoMatch(t, MarkdownImageAt, ImageHtml);
  }

  /** The link rule runs before the image rule, so `![a](b)` becomes a '!'
      before a link, and the image rule then finds nothing. */
  lemma LinkRuleBeforeImageRule(a: string, b: string)
    requires a != "" && b != ""
    requires ']' !in a && '[' !in a && ')' !in b && '[' !in b
    ensures var links := ReplaceAll("![" + a + "](" + b + ")", LinkAt, LinkHtml);
      links == "!" + LinkHtml(Hit(1, |a| + |b| + 5, [a, b])) &&
      ReplaceAll(links, MarkdownImageAt, ImageHtml) == links
  {
    var s := "![" + a + "](" + b + ")";
    var h := Hit(1, |s|, [a, b]);
    LinkAtBracketed(s, a, b);
    ReplaceWhole(s, 1, LinkAt, LinkHtml, h);
    assert s[0] == '!' && MatchAt(LinkAt, s, 0).None?;
    var links := "!" + LinkHtml(h);
    assert ReplaceAll(s, LinkAt, LinkHtml) == links;
    assert '[' !in LinkHtml(h);
    ImageRuleIdle(links);
  }

  /** A line `## t` is left alone by the `###` rule and becomes an `h2`
      heading under the `##` rule. */
  lemma SecondLevelHeading(t: string)
    requires forall k :: 0 <= k < |t| ==> !IsLineTerminator(t[k])
    ensures ReplaceAll(ReplaceAll("## " + t, H3At, H3), H2At, H2) == Tagged("h2", t)
  {
    var s := "## " + t;
    forall k | 0 <= k < |s| ensures !IsLineTerminator(s[k]) {
      if k >= 3 {
        assert s[k] == t[k - 3];
      }
    }
    forall m | 0 <= m < |s| ensures MatchAt(H3At, s, m).None? {
      if m == 0 {
        assert s[2] == ' ';
      }
    }
    ReplaceNoMatch(s, H3At, H3);
    LineEndIs(s, 3);
    assert s[3..|s|] == t;
    ReplaceWhole(s, 0, H2At, H2, Hit(0, |s|, [t]));
  }

  // ---------------------------------------------------------------------
  // The conversion

  /** What a processor is built with: the plugin settings, the vault with its
      note reader and YAML loader, the vault's name (`None` where the vault
      has no `getName`), and markdown-it's `render` (`None` where it throws). */
  datatype Processor = Processor(
    settings: WitchSettings,
    vault: Vault,
    read: TFile -> Option<string>,
    yamlLoad: YamlLoader,
    vaultName: Option<string>,
    render: string -> Option<string>)

  function SourceFooter(vaultName: string): string {
    "\n\n---\n*Originally published from " + vaultName + " vault*"
  }

  /** The footer is appended only when the setting asks for it and the vault
      has a non-empty name. */
  predicate AddsFooter(p: Processor) {
    p.settings.addSourceLink && p.vaultName.Some? && p.vaultName.value != ""
  }

  /** The markdown after the optional wiki-link conversion. */
  function Linked(p: Processor, markdown: string, currentFile: Option<TFile>): string {
    if p.settings.convertObsidianLinks then
      ConvertLinks(LinkContext(p.vault, p.read, p.yamlLoad, currentFile), markdown)
    else markdown
  }

  /** The markdown handed to the renderer. */
  function Prepared(p: Processor, markdown: string, currentFile: Option<TFile>): (r: string)
    ensures !p.settings.convertObsidianLinks ==> StartsWith(r, markdown)
    ensures AddsFooter(p) ==> EndsWith(r, SourceFooter(p.vaultName.value))
    ensures !AddsFooter(p) ==> r == Linked(p, markdown, currentFile)
  {
    var linked := Linked(p, markdown, currentFile);
    if AddsFooter(p) then
      var footer := SourceFooter(p.vaultName.value);
      assert (linked + footer)[..|linked|] == linked;
      assert (linked + footer)[|linked|..] == footer;
      linked + footer
    else linked
  }

  /** `convertMarkdownToHtml`: markdown-it's output, or the regex renderer's
      where markdown-it throws, then the Ghost card rewrites. */
  function ConvertedHtml(p: Processor, markdown: string, currentFile: Option<TFile>): string {
    var prepared := Prepared(p, markdown, currentFile);
    match p.render(prepared)
    case Some(html) => PostProcessForGhostCards(html)
    case None => PostProcessForGhostCards(MarkdownToHtml(prepared))
  }

  method ConvertMarkdownToHtml(p: Processor, markdown: string, currentFile: Option<TFile>) returns (html: string)
    ensures html == ConvertedHtml(p, markdown, currentFile)
  {
    var processed := markdown;
    if p.settings.convertObsidianLinks {
      processed := ConvertInternalLinks(LinkContext(p.vault, p.read, p.yamlLoad, currentFile), processed);
    }
    if p.settings.addSourceLink && p.vaultName.Some? && p.vaultName.value != "" {
      processed := processed + SourceFooter(p.vaultName.value);
    }
    assert processed == Prepared(p, markdown, currentFile);
    var rendered := p.render(processed);
    if rendered.Some? {
      html := PostProcessForGhostCards(rendered.value);
    } else {
      html := PostProcessForGhostCards(MarkdownToHtml(processed));
    }
  }

  /** An empty note without a footer converts to the post-processed rendering
      of the empty text, and to nothing at all where markdown-it throws. */
  lemma EmptyNoteConverts(p: Processor, currentFile: Option<TFile>)
    requires !AddsFooter(p)
    ensures Prepared(p, "", currentFile) == ""
    ensures p.render("").None? ==> ConvertedHtml(p, "", currentFile) == ""
  {
    if p.settings.convertObsidianLinks {
      var ctx := LinkContext(p.vault, p.read, p.yamlLoad, currentFile);
      assert ReplaceAll("", WikiLinkAt, WikiLink) == "";
      assert Scan("", 0, EmbedAt) == [];
      assert ConvertLinks(ctx, "") == "";
    }
    MarkdownToHtmlEmpty();
    assert PostProcessForGhostCards("") == "";
  }
}
