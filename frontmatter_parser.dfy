/**
  Front-matter handling (src/utils/frontmatter-parser.ts): the split of a note
  into a YAML block and a body, the coercion of the loaded YAML mapping into
  post metadata, and three small parsers for string, boolean and list values.
 */
module FrontmatterParser {

  import opened Wrappers
  import opened Text
  import opened JsValues
  import opened Settings
  import opened GhostTypes

  // ---------------------------------------------------------------------------
  // The delimiter regex `^---\s*\n([\s\S]*?)\n---\s*\n([\s\S]*)$`
  // ---------------------------------------------------------------------------

  /** A note cut by the delimiter regex: `---`, whitespace, a line break, the
      front matter, a line break, `---`, whitespace, a line break, the body. */
  datatype Delimited = Delimited(openPad: string, front: string, closePad: string, body: string)

  function Assemble(d: Delimited): string {
    "---" + d.openPad + "\n" + d.front + "\n---" + d.closePad + "\n" + d.body
  }

  predicate Padded(d: Delimited) {
    AllSpace(d.openPad) && AllSpace(d.closePad)
  }

  /** The regex matches somewhere: some padded decomposition rebuilds the text. */
  ghost predicate HasDelimiters(s: string) {
    exists d :: Padded(d) && Assemble(d) == s
  }

  /** A line break at `i`. */
  function NewlineAt(s: string): nat -> bool {
    (i: nat) => i < |s| && s[i] == '\n'
  }

  /** The opening `---`. */
  predicate OpenMark(s: string) {
    |s| >= 3 && s[0] == '-' && s[1] == '-' && s[2] == '-'
  }

  /** The closing `\n---` at `e`. */
  predicate CloseMark(s: string, e: nat) {
    e + 4 <= |s| && s[e] == '\n' && s[e + 1] == '-' && s[e + 2] == '-' && s[e + 3] == '-'
  }

  /** `\n---` at `e`, then whitespace up to a line break at `p`. */
  predicate CloseFits(s: string, e: nat, p: nat) {
    CloseMark(s, e) && e + 4 <= p < |s| && s[p] == '\n' && forall k :: e + 4 <= k < p ==> IsSpace(s[k])
  }

  /** The closing line tried at `e`: the greedy `\s*` backs off to the last line
      break of the whitespace run after `\n---`. */
  function CloseAt(s: string, e: nat): (r: Option<nat>)
    requires e <= |s|
    ensures r.Some? ==> CloseFits(s, e, r.value)
  {
    if CloseMark(s, e) then LastWhere(NewlineAt(s), e + 4, SpaceRunEnd(s, e + 4)) else None
  }

  /** Any closing line that fits at `e` is found, and the one chosen ends last. */
  lemma CloseAtBest(s: string, e: nat, p: nat)
    requires e <= |s| && CloseFits(s, e, p)
    ensures CloseAt(s, e).Some? && p <= CloseAt(s, e).value
  {
    var q := SpaceRunEnd(s, e + 4);
    assert NewlineAt(s)(p);
    LastWhereIsLast(NewlineAt(s), e + 4, q, p);
  }

  datatype Close = Close(at: nat, end: nat)

  /** A closing line fits at `i`. */
  function ClosesAt(s: string): nat -> bool {
    (i: nat) => i <= |s| && CloseAt(s, i).Some?
  }

  /** The lazy `([\s\S]*?)`: the first closing line at or after `e`. */
  function FindClose(s: string, e: nat): (r: Option<Close>)
    requires e <= |s|
    ensures r.Some? ==> e <= r.value.at <= |s| && CloseAt(s, r.value.at) == Some(r.value.end)
  {
    match FirstWhere(ClosesAt(s), e, |s| + 1)
    case None => None
    case Some(i) => Some(Close(i, CloseAt(s, i).value))
  }

  lemma FindCloseFirst(s: string, e: nat, k: nat)
    requires e <= k <= |s| && CloseAt(s, k).Some?
    ensures FindClose(s, e).Some? && FindClose(s, e).value.at <= k
  {
    assert ClosesAt(s)(k);
    FirstWhereIsFirst(ClosesAt(s), e, |s| + 1, k);
  }

  datatype Open = Open(newline: nat, close: Close)

  predicate OpenCloses(s: string, open: Open) {
    open.newline < |s| && FindClose(s, open.newline + 1) == Some(open.close)
  }

  /** A line break at `i` after which a closing line is found. */
  function OpensAt(s: string): nat -> bool {
    (i: nat) => i < |s| && s[i] == '\n' && FindClose(s, i + 1).Some?
  }

  /** The greedy `\s*\n` after the opening `---`: line breaks below `k` tried from the last one down. */
  function FindOpen(s: string, k: nat): (r: Option<Open>)
    requires 3 <= k <= |s|
    ensures r.Some? ==> 3 <= r.value.newline < k && s[r.value.newline] == '\n' && OpenCloses(s, r.value)
  {
    match LastWhere(OpensAt(s), 3, k)
    case None => None
    case Some(i) => Some(Open(i, FindClose(s, i + 1).value))
  }

  lemma FindOpenLast(s: string, k: nat, o: nat)
    requires 3 <= o < k <= |s| && s[o] == '\n' && FindClose(s, o + 1).Some?
    ensures FindOpen(s, k).Some? && o <= FindOpen(s, k).value.newline
  {
    assert OpensAt(s)(o);
    LastWhereIsLast(OpensAt(s), 3, k, o);
  }

  /** `content.match(FRONTMATTER_REGEX)`. */
  function MatchFrontmatter(s: string): Option<Delimited>
  {
    if !OpenMark(s) then None
    else
      match FindOpen(s, SpaceRunEnd(s, 3))
      case None => None
      case Some(open) => Some(Cut(s, open.newline, open.close.at, open.close.end))
  }

  /** The captures between the line breaks at `o` and `p` and the closing line at `e`. */
  function Cut(s: string, o: nat, e: nat, p: nat): Delimited
    requires 3 <= o < e && e + 4 <= p < |s|
  {
    Delimited(s[3..o], s[o + 1..e], s[e + 4..p], s[p + 1..])
  }

  /** Where the match found by the search sits in the text. */
  lemma MatchIndices(s: string) returns (o: nat, e: nat, p: nat)
    requires OpenMark(s) && FindOpen(s, SpaceRunEnd(s, 3)).Some?
    ensures FindOpen(s, SpaceRunEnd(s, 3)) == Some(Open(o, Close(e, p)))
    ensures 3 <= o < e && e + 4 <= p < |s| && s[o] == '\n' && CloseFits(s, e, p)
    ensures forall k :: 3 <= k < o ==> IsSpace(s[k])
  {
    var k := SpaceRunEnd(s, 3);
    var open := FindOpen(s, k).value;
    o, e, p := open.newline, open.close.at, open.close.end;
    assert 3 <= o < k && s[o] == '\n' && OpenCloses(s, open);
    var close := FindClose(s, o + 1).value;
    assert close == Close(e, p);
    assert CloseAt(s, e) == Some(p);
  }

  lemma MatchIs(s: string, o: nat, e: nat, p: nat)
    requires OpenMark(s) && FindOpen(s, SpaceRunEnd(s, 3)) == Some(Open(o, Close(e, p)))
    requires 3 <= o < e && e + 4 <= p < |s|
    ensures MatchFrontmatter(s) == Some(Cut(s, o, e, p))
  {
  }

  /** Slices cut at a line break after blank padding and at a closing line rebuild the text. */
  lemma SlicesDecompose(s: string, o: nat, e: nat, p: nat)
    requires OpenMark(s) && 3 <= o < e && e + 4 <= p < |s| && s[o] == '\n' && CloseFits(s, e, p)
    requires forall k :: 3 <= k < o ==> IsSpace(s[k])
    ensures var d := Delimited(s[3..o], s[o + 1..e], s[e + 4..p], s[p + 1..]);
      Padded(d) && Assemble(d) == s
  {
    SliceAllSpace(s, 3, o);
    SliceAllSpace(s, e + 4, p);
    AssembleSlices(s, o, e, p);
  }

  /** A match is a decomposition: padding that is whitespace, and parts that rebuild the text. */
  lemma MatchSound(s: string)
    ensures MatchFrontmatter(s).Some? ==> Padded(MatchFrontmatter(s).value) && Assemble(MatchFrontmatter(s).value) == s
  {
    if MatchFrontmatter(s).Some? {
      var o, e, p := MatchIndices(s);
      MatchIs(s, o, e, p);
      SlicesDecompose(s, o, e, p);
    }
  }

  lemma AssembleSlices(s: string, o: nat, e: nat, p: nat)
    requires OpenMark(s) && 3 <= o < e && e + 4 <= p < |s|
    requires s[o] == '\n' && CloseMark(s, e) && s[p] == '\n'
    ensures Assemble(Delimited(s[3..o], s[o + 1..e], s[e + 4..p], s[p + 1..])) == s
  {
    assert s[..3] == "---";
    assert s[e..e + 4] == "\n---";
    assert s == s[..3] + s[3..o] + [s[o]] + s[o + 1..e] + s[e..e + 4] + s[e + 4..p] + [s[p]] + s[p + 1..];
  }

  /** Where the parts of a decomposition sit in the text. */
  lemma DecompositionIndices(d: Delimited)
    requires Padded(d)
    ensures var s, o := Assemble(d), 3 + |d.openPad|;
      var e := o + 1 + |d.front|;
      OpenMark(s) && o < |s| && s[o] == '\n'
      && (forall k :: 3 <= k <= o ==> IsSpace(s[k]))
      && e + 4 <= |s| && CloseFits(s, e, e + 4 + |d.closePad|)
  {
    var s, o := Assemble(d), 3 + |d.openPad|;
    var e := o + 1 + |d.front|;
    var p := e + 4 + |d.closePad|;
    assert s[..3] == "---";
    assert s[0] == '-' && s[1] == '-' && s[2] == '-';
    assert s[3..o] == d.openPad;
    assert s[e..e + 4] == "\n---";
    assert s[e] == '\n' && s[e + 1] == '-' && s[e + 2] == '-' && s[e + 3] == '-';
    assert s[e + 4..p] == d.closePad;
    assert s[o] == '\n' && s[p] == '\n';
    forall k | 3 <= k < o ensures IsSpace(s[k]) { assert s[k] == d.openPad[k - 3]; }
    forall k | e + 4 <= k < p ensures IsSpace(s[k]) { assert s[k] == d.closePad[k - e - 4]; }
  }

  /** The parts of a decomposition, read back from the text by their lengths. */
  lemma AssembleParts(d: Delimited)
    ensures var s, o := Assemble(d), 3 + |d.openPad|;
      var e := o + 1 + |d.front|;
      var p := e + 4 + |d.closePad|;
      p < |s| && s[3..o] == d.openPad && s[o + 1..e] == d.front && s[e + 4..p] == d.closePad && s[p + 1..] == d.body
  {
    var s, o := Assemble(d), 3 + |d.openPad|;
    var e := o + 1 + |d.front|;
    var p := e + 4 + |d.closePad|;
    assert s == (((("---" + d.openPad) + "\n") + d.front) + "\n---") + d.closePad + "\n" + d.body;
    assert s[3..o] == d.openPad;
    assert s[o + 1..e] == d.front;
    assert s[e + 4..p] == d.closePad;
    assert s[p + 1..] == d.body;
  }

  /** Two decompositions of one text with parts of equal length are equal. */
  lemma DecompositionsAgree(d: Delimited, m: Delimited)
    requires Assemble(d) == Assemble(m)
    requires |d.openPad| == |m.openPad| && |d.front| == |m.front| && |d.closePad| == |m.closePad|
    ensures d == m
  {
    AssembleParts(d);
    AssembleParts(m);
  }

  /** The lengths of the parts of a match, read off the search's indices. */
  lemma MatchShape(s: string)
    requires OpenMark(s) && FindOpen(s, SpaceRunEnd(s, 3)).Some?
    ensures var open := FindOpen(s, SpaceRunEnd(s, 3)).value;
      MatchFrontmatter(s).Some?
      && |MatchFrontmatter(s).value.openPad| == open.newline - 3
      && |MatchFrontmatter(s).value.front| == open.close.at - open.newline - 1
      && |MatchFrontmatter(s).value.closePad| == open.close.end - open.close.at - 4
  {
    var o, e, p := MatchIndices(s);
    MatchIs(s, o, e, p);
  }

  /** The opening line break of a decomposition lies in the whitespace run after `---`. */
  lemma OpenInRun(d: Delimited)
    requires Padded(d)
    ensures 3 + |d.openPad| < SpaceRunEnd(Assemble(d), 3)
  {
    var s, o := Assemble(d), 3 + |d.openPad|;
    DecompositionIndices(d);
  }

  /** The search's choice, in indices: the opening line break is at or after the
      decomposition's; at the same one, the closing line is at or before its; at the same
      two, the closing line break is at or after its. */
  lemma SearchChoice(d: Delimited)
    requires Padded(d)
    ensures var s := Assemble(d);
      OpenMark(s) && FindOpen(s, SpaceRunEnd(s, 3)).Some?
      && var open := FindOpen(s, SpaceRunEnd(s, 3)).value;
      var o := 3 + |d.openPad|;
      var e := o + 1 + |d.front|;
      o <= open.newline
      && (open.newline == o ==> open.close.at <= e)
      && (open.newline == o && open.close.at == e ==> e + 4 + |d.closePad| <= open.close.end)
  {
    var s, o := Assemble(d), 3 + |d.openPad|;
    var e := o + 1 + |d.front|;
    DecompositionIndices(d);
    OpenInRun(d);
    SearchChoiceAt(s, o, e, e + 4 + |d.closePad|);
  }

  /** The search's choice against any candidate cut of the text. */
  lemma SearchChoiceAt(s: string, o: nat, e: nat, p: nat)
    requires OpenMark(s) && 3 <= o < SpaceRunEnd(s, 3) && s[o] == '\n' && o < e && CloseFits(s, e, p)
    ensures FindOpen(s, SpaceRunEnd(s, 3)).Some?
    ensures var open := FindOpen(s, SpaceRunEnd(s, 3)).value;
      o <= open.newline
      && (open.newline == o ==> open.close.at <= e)
      && (open.newline == o && open.close.at == e ==> p <= open.close.end)
  {
    FirstCloseUpTo(s, o + 1, e, p);
    FindOpenLast(s, SpaceRunEnd(s, 3), o);
    var open := FindOpen(s, SpaceRunEnd(s, 3)).value;
    if open.newline == o {
      OpenAtChoice(s, open, e, p);
    }
  }

  /** The lazy search from `i` stops at or before any closing line that fits at `e`. */
  lemma FirstCloseUpTo(s: string, i: nat, e: nat, p: nat)
    requires i <= e <= |s| && CloseFits(s, e, p)
    ensures FindClose(s, i).Some? && FindClose(s, i).value.at <= e
  {
    CloseAtBest(s, e, p);
    FindCloseFirst(s, i, e);
  }

  /** An opening whose search stops at `e` closes at the last line break of the run there. */
  lemma OpenAtChoice(s: string, open: Open, e: nat, p: nat)
    requires OpenCloses(s, open) && open.newline < e <= |s| && CloseFits(s, e, p)
    ensures open.close.at <= e
    ensures open.close.at == e ==> p <= open.close.end
  {
    FirstCloseUpTo(s, open.newline + 1, e, p);
    CloseAtBest(s, e, p);
  }

  /**
    The match the regex engine returns among all decompositions: the opening
    whitespace is the longest possible; given it, the front matter is the
    shortest; given both, the closing whitespace is the longest. In particular
    the regex matches whenever some decomposition exists.
   */
  lemma MatchIsBacktrackingChoice(d: Delimited)
    requires Padded(d)
    ensures MatchFrontmatter(Assemble(d)).Some?
    ensures |d.openPad| <= |MatchFrontmatter(Assemble(d)).value.openPad|
    ensures |d.openPad| == |MatchFrontmatter(Assemble(d)).value.openPad| ==>
      |MatchFrontmatter(Assemble(d)).value.front| <= |d.front|
    ensures (|d.openPad| == |MatchFrontmatter(Assemble(d)).value.openPad|
      && |d.front| == |MatchFrontmatter(Assemble(d)).value.front|) ==>
      |d.closePad| <= |MatchFrontmatter(Assemble(d)).value.closePad|
  {
    SearchChoice(d);
    MatchShape(Assemble(d));
  }

  lemma MatchIffDelimiters(s: string)
    ensures MatchFrontmatter(s).Some? <==> HasDelimiters(s)
  {
    MatchSound(s);
    if HasDelimiters(s) {
      var d :| Padded(d) && Assemble(d) == s;
      MatchIsBacktrackingChoice(d);
    }
  }

  // ---------------------------------------------------------------------------
  // Coercion of the loaded YAML mapping
  // ---------------------------------------------------------------------------

  /** `yaml.load`, an outside library: the loaded value, or `None` when it throws. */
  type YamlLoader = string -> Option<Value>

  datatype Parsed = Parsed(metadata: PostMetadata, markdownContent: string)

  /** A string property copied, stringified, only when truthy. */
  function StringField(parsed: Value, key: string): (r: Option<string>)
    ensures r.Some? <==> Truthy(Get(parsed, key))
    ensures r.Some? ==> r.value == ToJsString(Get(parsed, key))
    ensures Get(parsed, key).Str? ==> r == if Get(parsed, key).s != "" then Some(Get(parsed, key).s) else None
  {
    var v := Get(parsed, key);
    if Truthy(v) then Some(ToJsString(v)) else None
  }

  /** The thirteen free-text fields, each copied when truthy. */
  function TextFields(parsed: Value): (text: map<TextField, string>)
    ensures forall f :: f in text <==> Truthy(Get(parsed, FieldKey(f)))
    ensures forall f :: f in text ==> text[f] == ToJsString(Get(parsed, FieldKey(f)))
  {
    var text := map f | f in AllTextFields && Truthy(Get(parsed, FieldKey(f))) :: ToJsString(Get(parsed, FieldKey(f)));
    assert forall f :: f in text <==> Truthy(Get(parsed, FieldKey(f))) by {
      forall f ensures f in text <==> Truthy(Get(parsed, FieldKey(f))) { AllTextFieldsComplete(f); }
    }
    text
  }

  /** `status` kept only when it is one of the three status names. */
  function StatusField(v: Value): (r: Option<PublishStatus>)
    ensures r.Some? <==> v in {Str("draft"), Str("published"), Str("scheduled")}
    ensures r.Some? ==> v == Str(StatusName(r.value))
  {
    match v
    case Str(x) => ParseStatus(x)
    case _ => None
  }

  /** `visibility` kept only when it is one of the three visibility names. */
  function VisibilityField(v: Value): (r: Option<PostVisibility>)
    ensures r.Some? <==> v in {Str("public"), Str("members"), Str("paid")}
    ensures r.Some? ==> v == Str(VisibilityName(r.value))
  {
    match v
    case Str(x) => ParseVisibility(x)
    case _ => None
  }

  /** `featured` kept only when it is a boolean. */
  function FeaturedField(v: Value): (r: Option<bool>)
    ensures r.Some? <==> v.Bool?
    ensures r.Some? ==> v == Bool(r.value)
  {
    match v
    case Bool(b) => Some(b)
    case _ => None
  }

  /** `tags`: an array is stringified element by element; a non-empty string is one tag. */
  function TagsField(v: Value): (r: Option<seq<string>>)
    ensures r.Some? <==> v.Arr? || (v.Str? && v.s != "")
    ensures v.Arr? ==> r.Some? && |r.value| == |v.items|
    ensures v.Arr? ==> forall k :: 0 <= k < |v.items| ==> r.value[k] == ToJsString(v.items[k])
    ensures v.Str? && v.s != "" ==> r == Some([v.s])
  {
    match v
    case Arr(items) => Some(Map(items, ToJsString))
    case Str(x) => if x != "" then Some([x]) else None
    case _ => None
  }

  /**
    The metadata built from the loaded mapping. `yaml.load(...) || {}` and a
    property read off a non-object both give `undefined` for every key, so a
    non-object loads as empty metadata.
   */
  function CoerceMetadata(parsed: Value): PostMetadata {
    PostMetadata(
      title := StringField(parsed, "title"),
      slug := StringField(parsed, "slug"),
      publishedAt := StringField(parsed, "published_at"),
      text := TextFields(parsed),
      status := StatusField(Get(parsed, "status")),
      tags := TagsField(Get(parsed, "tags")),
      featured := FeaturedField(Get(parsed, "featured")),
      visibility := VisibilityField(Get(parsed, "visibility")))
  }

  /** `parseFrontmatter`: no match, or a loader failure, leaves the whole input as the body. */
  function ParseFrontmatter(content: string, yamlLoad: YamlLoader): (r: Parsed)
    ensures !HasDelimiters(content) ==> r == Parsed(EmptyMetadata, content)
  {
    MatchIffDelimiters(content);
    match MatchFrontmatter(content)
    case None => Parsed(EmptyMetadata, content)
    case Some(d) =>
      match yamlLoad(d.front)
      case None => Parsed(EmptyMetadata, content)
      case Some(v) => Parsed(CoerceMetadata(v), d.body)
  }

  /** When the loader throws, the content returned is the whole note, not the body after the block. */
  lemma LoaderFailureKeepsWholeInput(content: string, yamlLoad: YamlLoader, d: Delimited)
    requires MatchFrontmatter(content) == Some(d)
    requires yamlLoad(d.front).None?
    ensures ParseFrontmatter(content, yamlLoad) == Parsed(EmptyMetadata, content)
    ensures ParseFrontmatter(content, yamlLoad).markdownContent != d.body
  {
  }

  const CoreKeys: set<string> := {"title", "slug", "published_at", "status", "visibility", "featured", "tags"}

  /** The value front matter written from `m` holds under one of the core keys. */
  function WrittenValue(m: PostMetadata, key: string): Option<Value> {
    if key == "title" then StrOf(m.title)
    else if key == "slug" then StrOf(m.slug)
    else if key == "published_at" then StrOf(m.publishedAt)
    else if key == "status" then (if m.status.Some? then Some(Str(StatusName(m.status.value))) else None)
    else if key == "visibility" then (if m.visibility.Some? then Some(Str(VisibilityName(m.visibility.value))) else None)
    else if key == "featured" then BoolOf(m.featured)
    else if key == "tags" then (if m.tags.Some? then Some(Arr(Map(m.tags.value, (t: string) => Str(t)))) else None)
    else None
  }

  /** The YAML mapping that metadata written back as front matter loads as. */
  function MetadataObject(m: PostMetadata): Value {
    Obj(TextObject(m.text) + map k | k in CoreKeys && WrittenValue(m, k).Some? :: WrittenValue(m, k).value)
  }

  /** Metadata whose strings are non-empty, and whose tags do not form a lone string. */
  predicate Storable(m: PostMetadata) {
    (m.title.Some? ==> m.title.value != "")
    && (m.slug.Some? ==> m.slug.value != "")
    && (m.publishedAt.Some? ==> m.publishedAt.value != "")
    && (forall f :: f in m.text ==> m.text[f] != "")
  }

  lemma FieldKeyNotCore(f: TextField)
    ensures FieldKey(f) !in CoreKeys
  {
    match f
    case _ =>
  }

  lemma ObjectTextFields(m: PostMetadata, f: TextField)
    ensures Get(MetadataObject(m), FieldKey(f)) == if f in m.text then Str(m.text[f]) else Undefined
  {
    FieldKeyNotCore(f);
  }

  /** A field read back from a mapping whose key holds `x`. */
  lemma TextFieldAt(v: Value, f: TextField, x: Option<string>)
    requires Get(v, FieldKey(f)) == if x.Some? then Str(x.value) else Undefined
    requires x.Some? ==> x.value != ""
    ensures f in TextFields(v) <==> x.Some?
    ensures x.Some? ==> TextFields(v)[f] == x.value
  {
  }

  lemma ObjectTextRoundTrip(m: PostMetadata)
    requires forall f :: f in m.text ==> m.text[f] != ""
    ensures TextFields(MetadataObject(m)) == m.text
  {
    var v := MetadataObject(m);
    var t := TextFields(v);
    forall f ensures (f in t <==> f in m.text) && (f in m.text ==> t[f] == m.text[f]) {
      ObjectTextFields(m, f);
      TextFieldAt(v, f, if f in m.text then Some(m.text[f]) else None);
    }
    MapsAgree(t, m.text);
  }

  /** The properties a mapping holds when it was written from `m`. */
  predicate WrittenFrom(v: Value, m: PostMetadata) {
    forall key :: key in CoreKeys ==> Get(v, key) == if WrittenValue(m, key).Some? then WrittenValue(m, key).value else Undefined
  }

  lemma ObjectCoreFields(m: PostMetadata)
    ensures WrittenFrom(MetadataObject(m), m)
  {
    var text := TextObject(m.text);
    forall key | key in CoreKeys
      ensures key !in text
    {
      if key in text {
        var f := FieldOfKey(key).value;
        FieldKeyNotCore(f);
      }
    }
  }

  lemma WrittenStrings(v: Value, m: PostMetadata)
    requires Storable(m) && WrittenFrom(v, m)
    ensures StringField(v, "title") == m.title
    ensures StringField(v, "slug") == m.slug
    ensures StringField(v, "published_at") == m.publishedAt
  {
    assert Get(v, "title") == if m.title.Some? then Str(m.title.value) else Undefined;
    assert Get(v, "slug") == if m.slug.Some? then Str(m.slug.value) else Undefined;
    assert Get(v, "published_at") == if m.publishedAt.Some? then Str(m.publishedAt.value) else Undefined;
  }

  lemma WrittenChoices(v: Value, m: PostMetadata)
    requires WrittenFrom(v, m)
    ensures StatusField(Get(v, "status")) == m.status
    ensures VisibilityField(Get(v, "visibility")) == m.visibility
    ensures FeaturedField(Get(v, "featured")) == m.featured
  {
    assert Get(v, "status") == if m.status.Some? then Str(StatusName(m.status.value)) else Undefined;
    assert Get(v, "visibility") == if m.visibility.Some? then Str(VisibilityName(m.visibility.value)) else Undefined;
    assert Get(v, "featured") == if m.featured.Some? then Bool(m.featured.value) else Undefined;
    if m.status.Some? {
      EnumerationsAreClosed(m.status.value, Public, "");
    }
    if m.visibility.Some? {
      EnumerationsAreClosed(Draft, m.visibility.value, "");
    }
  }

  lemma WrittenTags(v: Value, m: PostMetadata)
    requires WrittenFrom(v, m)
    ensures TagsField(Get(v, "tags")) == m.tags
  {
    assert Get(v, "tags") == if m.tags.Some? then Arr(Map(m.tags.value, (t: string) => Str(t))) else Undefined;
    if m.tags.Some? {
      assert TagsField(Get(v, "tags")).value == m.tags.value;
    }
  }

  lemma CoerceWritten(v: Value, m: PostMetadata)
    requires Storable(m) && WrittenFrom(v, m) && TextFields(v) == m.text
    ensures CoerceMetadata(v) == m
  {
    WrittenStrings(v, m);
    WrittenChoices(v, m);
    WrittenTags(v, m);
  }

  /** Coercion loses nothing from metadata that was itself written as front matter. */
  lemma CoerceRoundTrip(m: PostMetadata)
    requires Storable(m)
    ensures CoerceMetadata(MetadataObject(m)) == m
  {
    ObjectTextRoundTrip(m);
    ObjectCoreFields(m);
    CoerceWritten(MetadataObject(m), m);
  }

  /** A string `tags` value is one tag, commas and all. */
  lemma TagStringNotSplit(t: string)
    requires t != ""
    ensures CoerceMetadata(Obj(map["tags" := Str(t)])).tags == Some([t])
  {
  }

  // ---------------------------------------------------------------------------
  // Value parsers
  // ---------------------------------------------------------------------------

  predicate IsQuote(c: char) { c == '\'' || c == '"' }

  /** `value.replace(/^['"]|['"]$/g, '')`: one quote removed from each end. */
  function ParseStringValue(value: string): (r: string)
    ensures |value| - 2 <= |r| <= |value|
    ensures exists i {:trigger value[i..i + |r|]} :: 0 <= i <= |value| - |r| && r == value[i..i + |r|]
  {
    var t := if value != [] && IsQuote(value[0]) then value[1..] else value;
    var r := if t != [] && IsQuote(t[|t| - 1]) then t[..|t| - 1] else t;
    var i := |value| - |t|;
    assert r == value[i..i + |r|];
    r
  }

  /** Quoting a text with either quote and stripping gives it back, whatever quotes it holds. */
  lemma ParseStringValueUnquotes(q1: char, x: string, q2: char)
    requires IsQuote(q1) && IsQuote(q2)
    ensures ParseStringValue([q1] + x + [q2]) == x
  {
    var s := [q1] + x + [q2];
    assert s[1..] == x + [q2];
  }

  lemma ParseStringValueKeepsUnquoted(x: string)
    requires x == [] || (!IsQuote(x[0]) && !IsQuote(x[|x| - 1]))
    ensures ParseStringValue(x) == x
  {
  }

  /** `value.toLowerCase().trim()` is one of "true", "yes", "1". */
  function ParseBooleanValue(value: string): (b: bool)
  {
    Trim(LowerStr(value)) in {"true", "yes", "1"}
  }

  lemma LowerSpace(ws: string)
    requires AllSpace(ws)
    ensures AllSpace(LowerStr(ws)) && LowerStr(ws) == ws
  {
  }

  /** Letter case and surrounding whitespace do not matter. */
  lemma ParseBooleanValueNormalises(ws1: string, s: string, ws2: string)
    requires AllSpace(ws1) && AllSpace(ws2)
    ensures ParseBooleanValue(ws1 + s + ws2) == ParseBooleanValue(s)
    ensures ParseBooleanValue(s) == ParseBooleanValue(LowerStr(s))
  {
    LowerStrAppend(ws1 + s, ws2);
    LowerStrAppend(ws1, s);
    LowerSpace(ws1);
    LowerSpace(ws2);
    TrimPadded(ws1, LowerStr(s), ws2);
    assert LowerStr(LowerStr(s)) == LowerStr(s);
  }

  /** An item of a list value: trimmed, then one quote stripped from each end. */
  function CleanItem(item: string): string {
    ParseStringValue(Trim(item))
  }

  function NonEmpty(s: string): bool { s != "" }

  /** `line.substring(2).trim()` after the `- ` marker, then the quotes. */
  function CleanListLine(line: string): string {
    if |line| >= 2 then ParseStringValue(Trim(line[2..])) else ParseStringValue(Trim(""))
  }

  function IsListLine(line: string): bool { StartsWith(line, "- ") }

  /** `parseArrayValue`: a bracketed comma list, a multi-line `- ` list, or a plain comma list. */
  function ParseArrayValue(value: string): (r: seq<string>)
    ensures forall k :: 0 <= k < |r| ==> r[k] != ""
  {
    if StartsWith(value, "[") && EndsWith(value, "]") then
      var inner := if |value| >= 2 then value[1..|value| - 1] else "";
      Filter(Map(Split(inner, ','), CleanItem), NonEmpty)
    else
      var lines := Split(value, '\n');
      if |lines| > 1 then
        Filter(Map(Filter(Map(lines, Trim), IsListLine), CleanListLine), NonEmpty)
      else
        Filter(Map(Split(value, ','), CleanItem), NonEmpty)
  }

  /** A list item that survives cleaning unchanged. */
  predicate CleanTag(x: string) {
    x != [] && !IsSpace(x[0]) && !IsSpace(x[|x| - 1]) && !IsQuote(x[0]) && !IsQuote(x[|x| - 1]) && ',' !in x
  }

  lemma CleanItemOfClean(x: string)
    requires CleanTag(x)
    ensures CleanItem(x) == x
  {
    TrimOfTrimmed(x);
    ParseStringValueKeepsUnquoted(x);
  }

  lemma CleanItemsKept(xs: seq<string>)
    requires forall k :: 0 <= k < |xs| ==> CleanTag(xs[k])
    ensures Filter(Map(xs, CleanItem), NonEmpty) == xs
  {
    forall k | 0 <= k < |xs| ensures CleanItem(xs[k]) == xs[k] {
      CleanItemOfClean(xs[k]);
    }
    assert Map(xs, CleanItem) == xs;
    FilterKeepsAll(xs, NonEmpty);
  }

  /** A bracketed list written from clean items reads back as those items. */
  lemma BracketListRoundTrip(xs: seq<string>)
    requires forall k :: 0 <= k < |xs| ==> CleanTag(xs[k])
    ensures ParseArrayValue("[" + Join(xs, ',') + "]") == xs
  {
    var v := "[" + Join(xs, ',') + "]";
    assert StartsWith(v, "[") && EndsWith(v, "]");
    assert v[1..|v| - 1] == Join(xs, ',');
    if xs == [] {
      assert Split("", ',') == [""];
      EmptyItemDropped();
    } else {
      SplitJoin(xs, ',');
      CleanItemsKept(xs);
    }
  }

  /** A line of a multi-line list: the `- ` marker, then the item. */
  function DashLine(x: string): string { "- " + x }

  /** `line` is a one-line, trimmed list line whose item cleans to `x`. */
  predicate ListLineOf(line: string, x: string) {
    '\n' !in line && Trimmed(line) && IsListLine(line) && CleanListLine(line) == x
  }

  /** A clean item's list line is such a line. */
  lemma DashLineCleans(x: string)
    requires CleanTag(x) && '\n' !in x
    ensures ListLineOf(DashLine(x), x)
  {
    var l := DashLine(x);
    assert l[|l| - 1] == x[|x| - 1];
    assert l[2..] == x;
    CleanItemOfClean(x);
  }

  lemma NoOpenBracket(v: string)
    requires v != [] && v[0] != '['
    ensures !StartsWith(v, "[")
  {
  }

  /** A value that does not open with '[' and spans several lines is read as a `- ` list. */
  lemma MultiLineArray(v: string)
    requires !StartsWith(v, "[") && |Split(v, '\n')| > 1
    ensures ParseArrayValue(v) == Filter(Map(Filter(Map(Split(v, '\n'), Trim), IsListLine), CleanListLine), NonEmpty)
  {
  }

  /** A one-line value that does not open with '[' is read as a comma list. */
  lemma OneLineArray(v: string)
    requires !StartsWith(v, "[") && '\n' !in v
    ensures ParseArrayValue(v) == Filter(Map(Split(v, ','), CleanItem), NonEmpty)
  {
    SplitWithout(v, '\n');
  }

  /** A multi-line `- ` list of two or more clean items reads back as those items. */
  lemma DashListRoundTrip(xs: seq<string>)
    requires |xs| >= 2
    requires forall k :: 0 <= k < |xs| ==> CleanTag(xs[k]) && '\n' !in xs[k]
    ensures ParseArrayValue(Join(Map(xs, DashLine), '\n')) == xs
  {
    var lines := Map(xs, DashLine);
    forall k | 0 <= k < |lines| ensures ListLineOf(lines[k], xs[k]) {
      DashLineCleans(xs[k]);
    }
    JoinedLinesRead(xs, lines);
  }

  /** Two or more list lines joined by line feeds read back as their items. */
  lemma JoinedLinesRead(xs: seq<string>, lines: seq<string>)
    requires |lines| == |xs| >= 2
    requires forall k :: 0 <= k < |lines| ==> ListLineOf(lines[k], xs[k])
    requires forall k :: 0 <= k < |xs| ==> xs[k] != ""
    ensures ParseArrayValue(Join(lines, '\n')) == xs
  {
    forall k | 0 <= k < |lines| ensures '\n' !in lines[k] {
      assert ListLineOf(lines[k], xs[k]);
    }
    ListLineHead(lines[0], xs[0]);
    JoinedLinesShape(lines);
    MultiLineArray(Join(lines, '\n'));
    DashLinesRead(xs, lines);
  }

  lemma ListLineHead(line: string, x: string)
    requires ListLineOf(line, x)
    ensures line != [] && line[0] == '-'
  {
    assert line[..2] == "- ";
  }

  /** Lines joined by line feeds split back into those lines, and the text opens with the first line. */
  lemma JoinedLinesShape(lines: seq<string>)
    requires |lines| >= 2 && lines[0] != [] && lines[0][0] == '-'
    requires forall k :: 0 <= k < |lines| ==> '\n' !in lines[k]
    ensures Split(Join(lines, '\n'), '\n') == lines
    ensures !StartsWith(Join(lines, '\n'), "[")
  {
    JoinFirst(lines, '\n');
    NoOpenBracket(Join(lines, '\n'));
    SplitJoin(lines, '\n');
  }

  lemma DashLinesRead(xs: seq<string>, lines: seq<string>)
    requires |lines| == |xs|
    requires forall k :: 0 <= k < |lines| ==> ListLineOf(lines[k], xs[k])
    requires forall k :: 0 <= k < |xs| ==> xs[k] != ""
    ensures Filter(Map(Filter(Map(lines, Trim), IsListLine), CleanListLine), NonEmpty) == xs
  {
    forall k | 0 <= k < |lines| ensures Trim(lines[k]) == lines[k] && IsListLine(lines[k]) && CleanListLine(lines[k]) == xs[k] {
      assert ListLineOf(lines[k], xs[k]);
      TrimOfTrimmed(lines[k]);
    }
    assert Map(lines, Trim) == lines;
    FilterKeepsAll(lines, IsListLine);
    assert Map(lines, CleanListLine) == xs;
    FilterKeepsAll(xs, NonEmpty);
  }

  /** A plain comma list of clean one-line items, not opening with '[', reads back as those items. */
  lemma CommaListRoundTrip(xs: seq<string>)
    requires forall k :: 0 <= k < |xs| ==> CleanTag(xs[k]) && '\n' !in xs[k]
    requires xs != [] && !StartsWith(xs[0], "[")
    ensures ParseArrayValue(Join(xs, ',')) == xs
  {
    var v := Join(xs, ',');
    JoinFirst(xs, ',');
    assert xs[0][..1] != "[";
    assert v[0] != '[';
    NoOpenBracket(v);
    JoinLacks(xs, ',', '\n');
    OneLineArray(v);
    SplitJoin(xs, ',');
    CleanItemsKept(xs);
  }

  lemma EmptyItemDropped()
    ensures Filter(Map([""], CleanItem), NonEmpty) == []
  {
    TrimOfTrimmed("");
    assert Map([""], CleanItem) == [""];
  }
}
