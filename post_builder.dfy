/**
  Assembly of the post sent to the CMS (src/services/post-builder.ts): the
  title and content checks, the defaults, the slug, the whitelisted optional
  fields, the merged tag list and the default authors.

  Date parsing is outside the model: `parsesAsDate` says whether
  `new Date(text)` gives a valid date.
 */
module PostBuilder {

  import opened Wrappers
  import opened Text
  import opened Settings
  import opened FileResolver
  import opened GhostTypes

  // ---------------------------------------------------------------------
  // Slugs

  predicate IsPostSlugChar(c: char) {
    IsAsciiLower(c) || IsDigit(c) || c == '-'
  }

  predicate IsSlugText(s: string) {
    forall k :: 0 <= k < |s| ==> IsPostSlugChar(s[k])
  }

  /** What `.replace(/[^a-z0-9\s-]/g, '')` leaves in place. */
  predicate KeptBySlug(c: char) {
    IsPostSlugChar(c) || IsSpace(c)
  }

  /** `.replace(/\s+/g, '-')`: each whitespace run becomes one hyphen. */
  function SpaceRunsToHyphen(s: string): (r: string)
    decreases |s|
    ensures (r == []) == (s == [])
    ensures s != [] ==> r[0] == (if IsSpace(s[0]) then '-' else s[0])
    ensures s != [] ==> r[|r| - 1] == (if IsSpace(s[|s| - 1]) then '-' else s[|s| - 1])
    ensures (forall k :: 0 <= k < |s| ==> KeptBySlug(s[k])) ==> IsSlugText(r)
  {
    if s == [] then []
    else if IsSpace(s[0]) then "-" + SpaceRunsToHyphen(s[SpaceRunEnd(s, 0)..])
    else [s[0]] + SpaceRunsToHyphen(s[1..])
  }

  /** Text without whitespace goes through the run replacement unchanged. */
  lemma {:induction false} SpaceRunsToHyphenIdle(s: string)
    requires forall k :: 0 <= k < |s| ==> !IsSpace(s[k])
    ensures SpaceRunsToHyphen(s) == s
    decreases |s|
  {
    if s != [] {
      SpaceRunsToHyphenIdle(s[1..]);
    }
  }

  /** `generateSlug` of the post builder: lower-cased, characters outside
      `[a-z0-9\s-]` removed, whitespace runs and then hyphen runs turned into
      one hyphen, then trimmed (which leaves edge hyphens in place). */
  function GenerateSlug(input: string): (r: string)
    ensures IsSlugText(r)
    ensures NoDoubled(r, '-')
  {
    var kept := Filter(LowerStr(input), KeptBySlug);
    var dashed := SpaceRunsToHyphen(kept);
    var collapsed := CollapseRuns(dashed, '-');
    assert IsSlugText(collapsed) by {
      forall k | 0 <= k < |collapsed| ensures IsPostSlugChar(collapsed[k]) {
        var j :| 0 <= j < |dashed| && dashed[j] == collapsed[k];
      }
    }
    TrimOfTrimmed(collapsed);
    Trim(collapsed)
  }

  lemma SlugTextNoSpace(s: string)
    requires IsSlugText(s)
    ensures forall k :: 0 <= k < |s| ==> !IsSpace(s[k])
  {
  }

  lemma SlugTextLower(s: string)
    requires IsSlugText(s)
    ensures LowerStr(s) == s
  {
    forall k | 0 <= k < |s| ensures LowerStr(s)[k] == s[k] {
      assert IsPostSlugChar(s[k]);
    }
  }

  lemma SlugTextKept(s: string)
    requires IsSlugText(s)
    ensures Filter(s, KeptBySlug) == s
  {
    forall k | 0 <= k < |s| ensures KeptBySlug(s[k]) {
      assert IsPostSlugChar(s[k]);
    }
    FilterKeepsAll(s, KeptBySlug);
  }

  /** Slug text without doubled hyphens is its own slug. */
  lemma SlugFixedPoint(s: string)
    requires IsSlugText(s) && NoDoubled(s, '-')
    ensures GenerateSlug(s) == s
  {
    SlugTextLower(s);
    SlugTextKept(s);
    SlugTextNoSpace(s);
    SpaceRunsToHyphenIdle(s);
    CollapseRunsIdle(s, '-');
    TrimOfTrimmed(s);
  }

  /** A slug is its own slug. */
  lemma GenerateSlugIdempotent(input: string)
    ensures GenerateSlug(GenerateSlug(input)) == GenerateSlug(input)
  {
    SlugFixedPoint(GenerateSlug(input));
  }

  /** The slug is the hyphen-collapsed form of the run-replaced text: the
      final trim finds no whitespace to remove. */
  lemma SlugIsCollapsed(input: string)
    ensures var dashed := SpaceRunsToHyphen(Filter(LowerStr(input), KeptBySlug));
      IsSlugText(dashed) && GenerateSlug(input) == CollapseRuns(dashed, '-')
  {
    var dashed := SpaceRunsToHyphen(Filter(LowerStr(input), KeptBySlug));
    var collapsed := CollapseRuns(dashed, '-');
    if collapsed != [] {
      assert IsPostSlugChar(collapsed[0]) && IsPostSlugChar(collapsed[|collapsed| - 1]);
    }
    TrimOfTrimmed(collapsed);
  }

  /** A title opening with whitespace or a hyphen gives a slug opening with a
      hyphen: the final trim does not remove it. */
  lemma SlugKeepsLeadingHyphen(input: string)
    requires input != [] && (input[0] == '-' || IsSpace(input[0]))
    ensures GenerateSlug(input) != [] && GenerateSlug(input)[0] == '-'
  {
    var lowered := LowerStr(input);
    assert KeptBySlug(lowered[0]);
    assert Filter(lowered, KeptBySlug)[0] == lowered[0];
    SlugIsCollapsed(input);
  }

  /** Likewise at the end. */
  lemma SlugKeepsTrailingHyphen(input: string)
    requires input != [] && (input[|input| - 1] == '-' || IsSpace(input[|input| - 1]))
    ensures GenerateSlug(input) != [] && GenerateSlug(input)[|GenerateSlug(input)| - 1] == '-'
  {
    var lowered := LowerStr(input);
    assert KeptBySlug(lowered[|lowered| - 1]);
    FilterKeepsLast(lowered, KeptBySlug);
    SlugIsCollapsed(input);
  }

  // ---------------------------------------------------------------------
  // Comma lists

  predicate NonEmpty(s: string) {
    s != ""
  }

  /** The comma-separated entries of a text, trimmed, blank ones dropped. */
  function CommaEntries(s: string): (r: seq<string>)
    ensures forall k :: 0 <= k < |r| ==> r[k] != "" && ',' !in r[k] && Trimmed(r[k])
  {
    var parts := Split(s, ',');
    var trimmed := Map(parts, Trim);
    forall k | 0 <= k < |trimmed| ensures ',' !in trimmed[k] && Trimmed(trimmed[k]) {
      TrimLacks(parts[k], ',');
    }
    Filter(trimmed, NonEmpty)
  }

  /** Entries that are non-empty, trimmed and comma-free come back from
      their comma-joined text. */
  lemma CommaEntriesJoin(entries: seq<string>)
    requires |entries| >= 1
    requires forall k :: 0 <= k < |entries| ==> entries[k] != "" && ',' !in entries[k] && Trimmed(entries[k])
    ensures CommaEntries(Join(entries, ',')) == entries
  {
    SplitJoin(entries, ',');
    forall k | 0 <= k < |entries| ensures Trim(entries[k]) == entries[k] {
      TrimOfTrimmed(entries[k]);
    }
    assert Map(entries, Trim) == entries;
    FilterKeepsAll(entries, NonEmpty);
  }

  /** `startsWith('[') && endsWith(']')`: a one-character text cannot do both. */
  predicate Bracketed(t: string) {
    |t| >= 2 && t[0] == '[' && t[|t| - 1] == ']'
  }

  lemma BracketedIff(t: string)
    ensures Bracketed(t) <==> StartsWith(t, "[") && EndsWith(t, "]")
  {
    if StartsWith(t, "[") && EndsWith(t, "]") {
      assert t[..1] == "[" && t[|t| - 1..] == "]";
      assert t[0] == '[' && t[|t| - 1] == ']';
    }
    if Bracketed(t) {
      assert t[..1] == "[" && t[|t| - 1..] == "]";
    }
  }

  /** `.slice(1, -1)` on a bracketed text. */
  function Unbracketed(t: string): (r: string)
    ensures Bracketed(t) ==> r == t[1..|t| - 1]
    ensures !Bracketed(t) ==> r == t
  {
    if Bracketed(t) then t[1..|t| - 1] else t
  }

  /** The entries of an already trimmed tag text: none when it is empty,
      else the comma-separated entries with one pair of brackets dropped. */
  function SplitTrimmed(trimmed: string): (r: seq<string>)
    ensures forall k :: 0 <= k < |r| ==> r[k] != "" && ',' !in r[k] && Trimmed(r[k])
  {
    if trimmed == "" then [] else CommaEntries(Unbracketed(trimmed))
  }

  /** `splitTagString`: a missing or blank value gives no tags; otherwise
      the entries of the trimmed value. */
  function SplitTagString(value: Option<string>): (r: seq<string>)
    ensures forall k :: 0 <= k < |r| ==> r[k] != "" && ',' !in r[k] && Trimmed(r[k])
  {
    if value.None? || value.value == "" then [] else SplitTrimmed(Trim(value.value))
  }

  /** A missing or blank value gives no tags. */
  lemma SplitTagStringBlank(value: Option<string>)
    requires value.None? || AllSpace(value.value)
    ensures SplitTagString(value) == []
  {
    if value.Some? {
      BlankIffAllSpace(value.value);
    }
  }

  /** A text with non-blank edges is split without trimming. */
  lemma SplitTagStringTrimmed(text: string)
    requires Trimmed(text)
    ensures SplitTagString(Some(text)) == SplitTrimmed(text)
  {
    TrimOfTrimmed(text);
  }

  /** A text with non-blank edges that does not open with a bracket is split as is. */
  lemma SplitTagStringBare(text: string)
    requires text != [] && !IsSpace(text[0]) && !IsSpace(text[|text| - 1]) && text[0] != '['
    ensures SplitTagString(Some(text)) == CommaEntries(text)
  {
    assert SplitTrimmed(text) == CommaEntries(text);
    TrimOfTrimmed(text);
  }

  /** A text in brackets is split without them. */
  lemma SplitTagStringUnwraps(text: string)
    requires Bracketed(text)
    ensures SplitTagString(Some(text)) == CommaEntries(text[1..|text| - 1])
  {
    assert !IsSpace(text[0]) && !IsSpace(text[|text| - 1]);
    SplitTagStringTrimmed(text);
  }

  /** Tags joined with commas, bare or in brackets, split back into the same
      tags, provided the first does not open with a bracket. */
  lemma SplitTagStringJoin(tags: seq<string>)
    requires |tags| >= 1
    requires forall k :: 0 <= k < |tags| ==> tags[k] != "" && ',' !in tags[k] && Trimmed(tags[k])
    requires tags[0][0] != '['
    ensures SplitTagString(Some(Join(tags, ','))) == tags
    ensures SplitTagString(Some("[" + Join(tags, ',') + "]")) == tags
  {
    JoinFirst(tags, ',');
    JoinLast(tags, ',');
    SplitTagStringBare(Join(tags, ','));
    var bracketed := "[" + Join(tags, ',') + "]";
    assert bracketed[1..|bracketed| - 1] == Join(tags, ',');
    SplitTagStringUnwraps(bracketed);
    CommaEntriesJoin(tags);
  }

  // ---------------------------------------------------------------------
  // Authors

  /** An entry with an '@' is passed as is; any other names an author by slug. */
  function AuthorOf(entry: string): AuthorRef {
    if '@' in entry then AuthorId(entry) else AuthorRecord(None, Some(GenerateSlug(entry)), None)
  }

  /** `getAuthorReferences`: one reference per comma-separated entry of the
      default author setting. */
  function AuthorReferences(defaultAuthor: string): (r: seq<AuthorRef>)
    ensures defaultAuthor == "" ==> r == []
    ensures |r| == |CommaEntries(defaultAuthor)|
    ensures forall k :: 0 <= k < |r| ==> r[k] == AuthorOf(CommaEntries(defaultAuthor)[k])
  {
    if defaultAuthor == "" then []
    else Map(CommaEntries(defaultAuthor), AuthorOf)
  }

  /** Authors listed with commas come back one reference each, emails as
      text and names as slugs. */
  lemma AuthorReferencesJoin(names: seq<string>)
    requires |names| >= 1
    requires forall k :: 0 <= k < |names| ==> names[k] != "" && ',' !in names[k] && Trimmed(names[k])
    ensures var r := AuthorReferences(Join(names, ','));
      |r| == |names| &&
      forall k :: 0 <= k < |names| ==>
        ('@' in names[k] ==> r[k] == AuthorId(names[k])) &&
        ('@' !in names[k] ==> r[k] == AuthorRecord(None, Some(GenerateSlug(names[k])), None))
  {
    CommaEntriesJoin(names);
    JoinFirst(names, ',');
  }

  // ---------------------------------------------------------------------
  // Tags

  /** A tag already on the site, as the API lists it. */
  datatype ExistingTag = ExistingTag(id: string, name: string, slug: string)

  /** The index of the first tag whose lower-cased name is `key`, or the length. */
  function FirstTagIndex(existing: seq<ExistingTag>, key: string, from: nat): (i: nat)
    requires from <= |existing|
    decreases |existing| - from
    ensures from <= i <= |existing|
    ensures forall j :: from <= j < i ==> LowerStr(existing[j].name) != key
    ensures i < |existing| ==> LowerStr(existing[i].name) == key
  {
    if from == |existing| || LowerStr(existing[from].name) == key then from
    else FirstTagIndex(existing, key, from + 1)
  }

  /** `existingTags.find(...)`: the first tag whose lower-cased name is `key`. */
  function FindTag(existing: seq<ExistingTag>, key: string): (r: Option<ExistingTag>)
    ensures r.Some? ==> LowerStr(r.value.name) == key
    ensures r.Some? ==> exists i :: (0 <= i < |existing| && existing[i] == r.value
      && forall j :: 0 <= j < i ==> LowerStr(existing[j].name) != key)
    ensures r.None? ==> forall i :: 0 <= i < |existing| ==> LowerStr(existing[i].name) != key
  {
    var i := FirstTagIndex(existing, key, 0);
    if i < |existing| then Some(existing[i]) else None
  }

  /** The tag entry for a cleaned value: an existing tag with the same
      lower-cased name lends its name and slug; otherwise the value is the
      name and its slug is generated. */
  function TagFor(clean: string, existing: seq<ExistingTag>): (r: TagRef)
    ensures LowerStr(r.name) == LowerStr(clean)
    ensures r.slug.Some?
  {
    match FindTag(existing, LowerStr(clean))
    case Some(t) => TagRef(t.name, Some(t.slug))
    case None => TagRef(clean, Some(GenerateSlug(clean)))
  }

  /** The lower-cased forms of `names`: the `seen` set of the merge. */
  function Lowered(names: seq<string>): set<string> {
    set k | 0 <= k < |names| :: LowerStr(names[k])
  }

  lemma LoweredAppend(names: seq<string>, x: string)
    ensures Lowered(names + [x]) == Lowered(names) + {LowerStr(x)}
  {
    var both := names + [x];
    assert LowerStr(both[|names|]) in Lowered(both);
    forall y | y in Lowered(names) ensures y in Lowered(both) {
      var k :| 0 <= k < |names| && y == LowerStr(names[k]);
      assert both[k] == names[k];
    }
  }

  predicate DistinctIgnoringCase(names: seq<string>) {
    forall i, j :: 0 <= i < j < |names| ==> LowerStr(names[i]) != LowerStr(names[j])
  }

  /** The trimmed values the merge keeps, in first-seen order: a value is
      skipped when it is empty or when one equal to it ignoring case came
      before. */
  function Accepted(cleaned: seq<string>): (r: seq<string>)
    decreases |cleaned|
    ensures forall k :: 0 <= k < |r| ==> r[k] != "" && r[k] in cleaned
  {
    if cleaned == [] then []
    else
      var init := cleaned[..|cleaned| - 1];
      var prev := Accepted(init);
      var clean := cleaned[|cleaned| - 1];
      assert forall k :: 0 <= k < |prev| ==> prev[k] in cleaned by {
        forall k | 0 <= k < |prev| ensures prev[k] in cleaned {
          var j :| 0 <= j < |init| && init[j] == prev[k];
          assert cleaned[j] == prev[k];
        }
      }
      if clean == "" || LowerStr(clean) in Lowered(prev) then prev else prev + [clean]
  }

  /** No two accepted values are equal ignoring case. */
  lemma {:induction false} AcceptedDistinct(cleaned: seq<string>)
    ensures DistinctIgnoringCase(Accepted(cleaned))
    decreases |cleaned|
  {
    if cleaned != [] {
      var init := cleaned[..|cleaned| - 1];
      var prev := Accepted(init);
      var clean := cleaned[|cleaned| - 1];
      AcceptedDistinct(init);
      if !(clean == "" || LowerStr(clean) in Lowered(prev)) {
        forall i | 0 <= i < |prev| ensures LowerStr(prev[i]) != LowerStr(clean) {
          assert LowerStr(prev[i]) in Lowered(prev);
        }
      }
    }
  }

  /** One value more: the step of the merge loop. */
  lemma AcceptedStep(cleaned: seq<string>, k: nat)
    requires k < |cleaned|
    ensures var prev := Accepted(cleaned[..k]);
      Accepted(cleaned[..k + 1])
        == (if cleaned[k] == "" || LowerStr(cleaned[k]) in Lowered(prev) then prev else prev + [cleaned[k]])
  {
    assert cleaned[..k + 1][..k] == cleaned[..k];
  }

  /** Every non-empty value is represented, ignoring case. */
  lemma {:induction false} AcceptedCovers(cleaned: seq<string>, k: nat)
    requires k < |cleaned| && cleaned[k] != ""
    ensures LowerStr(cleaned[k]) in Lowered(Accepted(cleaned))
    decreases |cleaned|
  {
    var init := cleaned[..|cleaned| - 1];
    var prev := Accepted(init);
    var clean := cleaned[|cleaned| - 1];
    if k < |cleaned| - 1 {
      assert init[k] == cleaned[k];
      AcceptedCovers(init, k);
    }
    if !(clean == "" || LowerStr(clean) in Lowered(prev)) {
      LoweredAppend(prev, clean);
    }
  }

  /** Earlier results are a prefix of later ones. */
  lemma {:induction false} AcceptedGrows(cleaned: seq<string>, n: nat)
    requires n <= |cleaned|
    ensures Accepted(cleaned[..n]) <= Accepted(cleaned)
    decreases |cleaned| - n
  {
    if n < |cleaned| {
      AcceptedGrows(cleaned, n + 1);
      AcceptedStep(cleaned, n);
    } else {
      assert cleaned[..n] == cleaned;
    }
  }

  /** The first value of each case-insensitive group is the one kept. */
  lemma AcceptedKeepsFirst(cleaned: seq<string>, k: nat)
    requires k < |cleaned| && cleaned[k] != ""
    requires forall i :: 0 <= i < k ==> LowerStr(cleaned[i]) != LowerStr(cleaned[k])
    ensures cleaned[k] in Accepted(cleaned)
  {
    var init := cleaned[..k];
    var prev := Accepted(init);
    forall i | 0 <= i < |prev| ensures LowerStr(prev[i]) != LowerStr(cleaned[k]) {
      var j :| 0 <= j < |init| && init[j] == prev[i];
    }
    assert LowerStr(cleaned[k]) !in Lowered(prev);
    AcceptedStep(cleaned, k);
    AcceptedGrows(cleaned, k + 1);
    assert Accepted(cleaned[..k + 1])[|prev|] == cleaned[k];
  }

  /** The values the merge reads: the front-matter tags, then the entries
      of the default tags setting. */
  function TagValues(frontmatterTags: Option<seq<string>>, defaultTags: string): seq<string> {
    (if frontmatterTags.Some? then frontmatterTags.value else []) + SplitTagString(Some(defaultTags))
  }

  /** The tag entries for the accepted values, in order. */
  function TagsFor(accepted: seq<string>, existing: seq<ExistingTag>): seq<TagRef> {
    Map(accepted, c => TagFor(c, existing))
  }

  /** The merged tag list: each value trimmed, then merged. */
  function CollectedTags(values: seq<string>, existing: seq<ExistingTag>): seq<TagRef> {
    TagsFor(Accepted(Map(values, Trim)), existing)
  }

  /** The merged tags have names pairwise distinct ignoring case. */
  lemma CollectedTagsDistinct(values: seq<string>, existing: seq<ExistingTag>)
    ensures var tags := CollectedTags(values, existing);
      forall i, j :: 0 <= i < j < |tags| ==> LowerStr(tags[i].name) != LowerStr(tags[j].name)
  {
    var accepted := Accepted(Map(values, Trim));
    AcceptedDistinct(Map(values, Trim));
    var tags := CollectedTags(values, existing);
    forall i, j | 0 <= i < j < |tags| ensures LowerStr(tags[i].name) != LowerStr(tags[j].name) {
      assert LowerStr(tags[i].name) == LowerStr(accepted[i]);
      assert LowerStr(tags[j].name) == LowerStr(accepted[j]);
    }
  }

  /** What the `append` closure does to the accepted names and the `seen`
      set once it has trimmed a value to `clean`: a non-empty, unseen value
      is recorded and added, anything else changes nothing. */
  function Appended(names: seq<string>, seen: set<string>, clean: string): (seq<string>, set<string>)
  {
    if clean == "" || LowerStr(clean) in seen then (names, seen)
    else (names + [clean], seen + {LowerStr(clean)})
  }

  lemma TagsForAppend(accepted: seq<string>, clean: string, existing: seq<ExistingTag>)
    ensures TagsFor(accepted + [clean], existing) == TagsFor(accepted, existing) + [TagFor(clean, existing)]
  {
  }

  /** The `append` closure of `collectTagList`: `names` are the values
      accepted so far, one per entry of `tags`. */
  method AppendTag(tags: seq<TagRef>, seen: set<string>, value: string, existing: seq<ExistingTag>,
                   ghost names: seq<string>)
    returns (tags': seq<TagRef>, seen': set<string>, ghost names': seq<string>)
    requires tags == TagsFor(names, existing)
    ensures (names', seen') == Appended(names, seen, Trim(value))
    ensures tags' == TagsFor(names', existing)
  {
    tags', seen', names' := tags, seen, names;
    if value == "" {
      return;
    }
    var clean := Trim(value);
    var lowercased := LowerStr(clean);
    if clean == "" || lowercased in seen {
      return;
    }
    seen' := seen + {lowercased};
    names' := names + [clean];
    TagsForAppend(names, clean, existing);
    var existingTag := FindTag(existing, lowercased);
    if existingTag.Some? {
      tags' := tags + [TagRef(existingTag.value.name, Some(existingTag.value.slug))];
    } else {
      tags' := tags + [TagRef(clean, Some(GenerateSlug(clean)))];
    }
  }

  /** The names and `seen` set reached from `(names, seen)` once `append`
      has seen each of the trimmed values `cleaned` in turn. */
  function MergeFrom(names: seq<string>, seen: set<string>, cleaned: seq<string>): (seq<string>, set<string>)
    decreases |cleaned|
  {
    if cleaned == [] then (names, seen)
    else
      var (names', seen') := Appended(names, seen, cleaned[0]);
      MergeFrom(names', seen', cleaned[1..])
  }

  /** Seeing `a + b` is seeing `a`, then `b`. */
  lemma {:induction false} MergeFromConcat(names: seq<string>, seen: set<string>, a: seq<string>, b: seq<string>)
    ensures var (names', seen') := MergeFrom(names, seen, a);
      MergeFrom(names, seen, a + b) == MergeFrom(names', seen', b)
    decreases |a|
  {
    if a != [] {
      var (names', seen') := Appended(names, seen, a[0]);
      assert (a + b)[0] == a[0] && (a + b)[1..] == a[1..] + b;
      MergeFromConcat(names', seen', a[1..], b);
    } else {
      assert a + b == b;
    }
  }

  /** One `append` call takes the declarative merge of `done` to that of
      `done + [clean]`. */
  lemma AppendedAccepted(done: seq<string>, clean: string)
    ensures var accepted := Accepted(done);
      var accepted' := Accepted(done + [clean]);
      Appended(accepted, Lowered(accepted), clean) == (accepted', Lowered(accepted'))
  {
    var k := |done|;
    assert (done + [clean])[..k] == done;
    assert (done + [clean])[..k + 1] == done + [clean];
    AcceptedStep(done + [clean], k);
    LoweredAppend(Accepted(done), clean);
  }

  /** Continuing the merge after the trimmed values `done` with the trimmed
      values `rest` reaches the declarative merge of `done + rest`. */
  lemma {:induction false} MergeFromAccepted(done: seq<string>, rest: seq<string>)
    ensures var accepted := Accepted(done);
      var all := Accepted(done + rest);
      MergeFrom(accepted, Lowered(accepted), rest) == (all, Lowered(all))
    decreases |rest|
  {
    if rest == [] {
      assert done + rest == done;
    } else {
      var done' := done + [rest[0]];
      AppendedAccepted(done, rest[0]);
      MergeFromAccepted(done', rest[1..]);
      assert done' + rest[1..] == done + rest;
    }
  }

  /** Merging from the empty state accepts exactly the values of the
      declarative merge. */
  lemma MergeIsAccepted(cleaned: seq<string>)
    ensures MergeFrom([], {}, cleaned).0 == Accepted(cleaned)
  {
    assert Accepted([]) == [];
    assert Lowered([]) == {};
    MergeFromAccepted([], cleaned);
    assert [] + cleaned == cleaned;
  }

  /** `append` applied to each of `more` in turn. */
  method AppendAll(tags: seq<TagRef>, seen: set<string>, more: seq<string>, existing: seq<ExistingTag>,
                   ghost names: seq<string>)
    returns (tags': seq<TagRef>, seen': set<string>, ghost names': seq<string>)
    requires tags == TagsFor(names, existing)
    ensures (names', seen') == MergeFrom(names, seen, Map(more, Trim))
    ensures tags' == TagsFor(names', existing)
  {
    ghost var cleaned := Map(more, Trim);
    tags', seen', names' := tags, seen, names;
    for k := 0 to |more|
      invariant MergeFrom(names', seen', cleaned[k..]) == MergeFrom(names, seen, cleaned)
      invariant tags' == TagsFor(names', existing)
    {
      assert cleaned[k..][0] == Trim(more[k]) && cleaned[k..][1..] == cleaned[k + 1..];
      tags', seen', names' := AppendTag(tags', seen', more[k], existing, names');
    }
    assert cleaned[|more|..] == [];
  }

  /** `collectTagList`: the front-matter tags, then the default tags, each
      passed through `append`. */
  method CollectTagList(frontmatterTags: Option<seq<string>>, defaultTags: string, existing: seq<ExistingTag>)
    returns (tags: seq<TagRef>)
    ensures tags == CollectedTags(TagValues(frontmatterTags, defaultTags), existing)
  {
    var fromFrontmatter := if frontmatterTags.Some? then frontmatterTags.value else [];
    var fromDefaults := SplitTagString(Some(defaultTags));
    var seen: set<string>;
    ghost var names: seq<string>;
    assert TagsFor([], existing) == [];
    tags, seen, names := AppendAll([], {}, fromFrontmatter, existing, []);
    tags, seen, names := AppendAll(tags, seen, fromDefaults, existing, names);
    MapConcat(fromFrontmatter, fromDefaults, Trim);
    MergeFromConcat([], {}, Map(fromFrontmatter, Trim), Map(fromDefaults, Trim));
    MergeIsAccepted(Map(fromFrontmatter + fromDefaults, Trim));
  }

  // ---------------------------------------------------------------------
  // Optional fields

  /** The whitelist of `assignOptionalFields`, in its order. */
  const OptionalFields: seq<TextField> := [
    Excerpt, FeatureImage, MetaTitle, MetaDescription, OgTitle, OgDescription, OgImage,
    TwitterTitle, TwitterDescription, TwitterImage, CustomExcerpt, CodeinjectionHead, CodeinjectionFoot
  ]

  /** The whitelist names every free-text field once. */
  lemma OptionalFieldsComplete(f: TextField)
    ensures f in OptionalFields
    ensures forall i, j :: 0 <= i < j < |OptionalFields| ==> OptionalFields[i] != OptionalFields[j]
  {
  }

  /** The text fields of a post after the fields `fields` of `text` have
      been visited in turn: a present, non-blank value is set, trimmed. */
  function CopiedOnto(base: map<TextField, string>, text: map<TextField, string>, fields: seq<TextField>)
    : map<TextField, string>
    decreases |fields|
  {
    if fields == [] then base
    else
      var before := CopiedOnto(base, text, fields[..|fields| - 1]);
      var key := fields[|fields| - 1];
      if key in text && Trim(text[key]) != "" then before[key := Trim(text[key])] else before
  }

  /** After the visit a field holds the trimmed metadata value when it was
      visited and is present and not blank, and its old value otherwise. */
  lemma {:induction false} CopiedOntoIff(base: map<TextField, string>, text: map<TextField, string>,
                                         fields: seq<TextField>, f: TextField)
    ensures var r := CopiedOnto(base, text, fields);
      var copied := f in fields && f in text && !AllSpace(text[f]);
      (f in r <==> copied || f in base)
      && (copied ==> r[f] == Trim(text[f]))
      && (!copied && f in base ==> r[f] == base[f])
    decreases |fields|
  {
    if f in text {
      BlankIffAllSpace(text[f]);
    }
    if fields != [] {
      var init := fields[..|fields| - 1];
      CopiedOntoIff(base, text, init, f);
      assert f in fields <==> f in init || f == fields[|fields| - 1];
    }
  }

  /** `assignOptionalFields`: each whitelisted field holding a non-blank
      text is set on the post, trimmed; nothing else changes. */
  method AssignOptionalFields(post: GhostPost, metadata: PostMetadata) returns (updated: GhostPost)
    ensures updated == post.(text := CopiedOnto(post.text, metadata.text, OptionalFields))
  {
    var fields := OptionalFields;
    var text := post.text;
    for i := 0 to |fields|
      invariant text == CopiedOnto(post.text, metadata.text, fields[..i])
    {
      var key := fields[i];
      assert fields[..i + 1][..i] == fields[..i];
      if key in metadata.text && Trim(metadata.text[key]) != "" {
        text := text[key := Trim(metadata.text[key])];
      }
    }
    assert fields[..|fields|] == fields;
    updated := post.(text := text);
  }

  /** Every whitelisted field of the metadata that is present and not blank
      reaches the post trimmed; the post's other text fields are kept. */
  lemma AssignedFields(base: map<TextField, string>, text: map<TextField, string>, f: TextField)
    ensures var r := CopiedOnto(base, text, OptionalFields);
      (f in r <==> (f in text && !AllSpace(text[f])) || f in base)
      && (f in text && !AllSpace(text[f]) ==> r[f] == Trim(text[f]) && Trimmed(r[f]))
  {
    OptionalFieldsComplete(f);
    CopiedOntoIff(base, text, OptionalFields, f);
  }

  // ---------------------------------------------------------------------
  // The post

  /** `metadata.title || file.basename`: an empty metadata title falls back,
      a blank one does not. */
  function TitleOf(file: TFile, metadata: PostMetadata): string {
    if metadata.title.Some? && metadata.title.value != "" then metadata.title.value else file.basename
  }

  /** `published_at` as copied: trimmed, when that is not blank and parses
      as a date. */
  function PublishedAt(metadata: PostMetadata, parsesAsDate: string -> bool): (r: Option<string>)
    ensures r.Some? ==> (metadata.publishedAt.Some? && r.value == Trim(metadata.publishedAt.value)
                         && r.value != "" && parsesAsDate(r.value))
  {
    if metadata.publishedAt.Some? && Trim(metadata.publishedAt.value) != ""
      && parsesAsDate(Trim(metadata.publishedAt.value))
    then Some(Trim(metadata.publishedAt.value))
    else None
  }

  /** The post object literal of `prepareGhostPost`: trimmed title, the
      content, status and visibility with their defaults, the slug, and
      `featured` defaulting to false. */
  function BasePost(settings: WitchSettings, title: string, htmlContent: string, metadata: PostMetadata): GhostPost {
    GhostPost(
      id := None,
      title := Trim(title),
      slug := Some(if metadata.slug.Some? && metadata.slug.value != "" then metadata.slug.value else GenerateSlug(title)),
      html := Some(htmlContent),
      mobiledoc := None,
      status := if metadata.status.Some? then metadata.status.value else settings.defaultStatus,
      createdAt := None,
      updatedAt := None,
      publishedAt := None,
      tags := None,
      authors := None,
      featured := Some(metadata.featured == Some(true)),
      text := map[],
      visibility := Some(if metadata.visibility.Some? then metadata.visibility.value else Public),
      newsletter := None,
      emailOnly := None,
      emailRecipientFilter := None)
  }

  /** The post `prepareGhostPost` returns, or the error it throws. */
  function PreparedPost(settings: WitchSettings, file: TFile, metadata: PostMetadata, htmlContent: string,
                        existing: seq<ExistingTag>, parsesAsDate: string -> bool): Result<GhostPost, string>
  {
    var title := TitleOf(file, metadata);
    if Trim(title) == "" then Failure("Post title cannot be empty")
    else if Trim(htmlContent) == "" then Failure("Post content cannot be empty")
    else
      var authors := AuthorReferences(settings.defaultAuthor);
      Success(BasePost(settings, title, htmlContent, metadata).(
        text := CopiedOnto(map[], metadata.text, OptionalFields),
        publishedAt := PublishedAt(metadata, parsesAsDate),
        tags := Some(CollectedTags(TagValues(metadata.tags, settings.defaultTags), existing)),
        authors := if authors == [] then None else Some(authors)))
  }

  /** `prepareGhostPost`: the checks, then the post built field by field. */
  method PrepareGhostPost(settings: WitchSettings, file: TFile, metadata: PostMetadata, htmlContent: string,
                          existing: seq<ExistingTag>, parsesAsDate: string -> bool)
    returns (r: Result<GhostPost, string>)
    ensures r == PreparedPost(settings, file, metadata, htmlContent, existing, parsesAsDate)
  {
    var title := if metadata.title.Some? && metadata.title.value != "" then metadata.title.value else file.basename;
    if Trim(title) == "" {
      return Failure("Post title cannot be empty");
    }
    if Trim(htmlContent) == "" {
      return Failure("Post content cannot be empty");
    }
    var post := BasePost(settings, title, htmlContent, metadata);
    ghost var base := post;
    post := AssignOptionalFields(post, metadata);
    if metadata.publishedAt.Some? && Trim(metadata.publishedAt.value) != "" {
      var date := Trim(metadata.publishedAt.value);
      if parsesAsDate(date) {
        post := post.(publishedAt := Some(date));
      }
    }
    assert post == base.(text := CopiedOnto(map[], metadata.text, OptionalFields),
                         publishedAt := PublishedAt(metadata, parsesAsDate));
    var tags := CollectTagList(metadata.tags, settings.defaultTags, existing);
    post := post.(tags := Some(tags));
    var authors := AuthorReferences(settings.defaultAuthor);
    if |authors| > 0 {
      post := post.(authors := Some(authors));
    }
    return Success(post);
  }

  /** The title error is thrown exactly when the chosen title is blank. */
  lemma PreparedTitleError(settings: WitchSettings, file: TFile, metadata: PostMetadata, htmlContent: string,
                           existing: seq<ExistingTag>, parsesAsDate: string -> bool)
    ensures (PreparedPost(settings, file, metadata, htmlContent, existing, parsesAsDate)
               == Failure("Post title cannot be empty"))
        <==> AllSpace(TitleOf(file, metadata))
  {
    BlankIffAllSpace(TitleOf(file, metadata));
  }

  /** A blank but non-empty metadata title is not replaced by the file name:
      the post is refused whatever the file is called. */
  lemma BlankTitleHasNoFallback(settings: WitchSettings, file: TFile, metadata: PostMetadata, htmlContent: string,
                                existing: seq<ExistingTag>, parsesAsDate: string -> bool)
    requires metadata.title.Some? && metadata.title.value != "" && AllSpace(metadata.title.value)
    ensures PreparedPost(settings, file, metadata, htmlContent, existing, parsesAsDate)
      == Failure("Post title cannot be empty")
  {
    PreparedTitleError(settings, file, metadata, htmlContent, existing, parsesAsDate);
  }

  /** With a usable title, the content error is thrown exactly when the
      content is blank. */
  lemma PreparedContentError(settings: WitchSettings, file: TFile, metadata: PostMetadata, htmlContent: string,
                             existing: seq<ExistingTag>, parsesAsDate: string -> bool)
    requires !AllSpace(TitleOf(file, metadata))
    ensures (PreparedPost(settings, file, metadata, htmlContent, existing, parsesAsDate)
               == Failure("Post content cannot be empty"))
        <==> AllSpace(htmlContent)
  {
    BlankIffAllSpace(TitleOf(file, metadata));
    BlankIffAllSpace(htmlContent);
  }

  /** A prepared post has a trimmed non-empty title, the content as given,
      the defaults for status, visibility and `featured`, and a slug that is
      the metadata slug or one generated from the untrimmed title. */
  lemma PreparedDefaults(settings: WitchSettings, file: TFile, metadata: PostMetadata, htmlContent: string,
                         existing: seq<ExistingTag>, parsesAsDate: string -> bool)
    requires PreparedPost(settings, file, metadata, htmlContent, existing, parsesAsDate).Success?
    ensures var p := PreparedPost(settings, file, metadata, htmlContent, existing, parsesAsDate).value;
      var title := TitleOf(file, metadata);
      p.title == Trim(title) && p.title != "" && Trimmed(p.title)
      && p.html == Some(htmlContent) && p.id.None? && p.mobiledoc.None?
      && p.status == (if metadata.status.Some? then metadata.status.value else settings.defaultStatus)
      && p.visibility == Some(if metadata.visibility.Some? then metadata.visibility.value else Public)
      && p.featured == Some(metadata.featured == Some(true))
      && (metadata.slug.Some? && metadata.slug.value != "" ==> p.slug == metadata.slug)
      && (metadata.slug.None? || metadata.slug.value == "" ==> p.slug == Some(GenerateSlug(title)) && IsSlugText(p.slug.value))
  {
    var title := TitleOf(file, metadata);
    assert Trim(title) != "";
    assert Trimmed(Trim(title));
  }

  /** The prepared tags carry names pairwise distinct ignoring case, each
      with a slug. */
  lemma PreparedTagsDistinct(settings: WitchSettings, file: TFile, metadata: PostMetadata, htmlContent: string,
                             existing: seq<ExistingTag>, parsesAsDate: string -> bool)
    requires PreparedPost(settings, file, metadata, htmlContent, existing, parsesAsDate).Success?
    ensures var p := PreparedPost(settings, file, metadata, htmlContent, existing, parsesAsDate).value;
      p.tags.Some?
      && (forall i, j :: 0 <= i < j < |p.tags.value| ==> LowerStr(p.tags.value[i].name) != LowerStr(p.tags.value[j].name))
      && (forall i :: 0 <= i < |p.tags.value| ==> p.tags.value[i].slug.Some?)
  {
    var values := TagValues(metadata.tags, settings.defaultTags);
    CollectedTagsDistinct(values, existing);
  }

  /** The prepared post's free-text fields are the present, non-blank
      metadata fields, trimmed; authors are set only when there are some. */
  lemma PreparedOptionalFields(settings: WitchSettings, file: TFile, metadata: PostMetadata, htmlContent: string,
                               existing: seq<ExistingTag>, parsesAsDate: string -> bool, f: TextField)
    requires PreparedPost(settings, file, metadata, htmlContent, existing, parsesAsDate).Success?
    ensures var p := PreparedPost(settings, file, metadata, htmlContent, existing, parsesAsDate).value;
      (f in p.text <==> f in metadata.text && !AllSpace(metadata.text[f]))
      && (f in p.text ==> p.text[f] == Trim(metadata.text[f]))
      && (p.authors.Some? <==> CommaEntries(settings.defaultAuthor) != [])
  {
    AssignedFields(map[], metadata.text, f);
    var authors := AuthorReferences(settings.defaultAuthor);
    assert authors == [] <==> |CommaEntries(settings.defaultAuthor)| == 0;
  }
}
