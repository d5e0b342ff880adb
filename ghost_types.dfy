/**
  The post records exchanged with the CMS (src/types/ghost.ts): the metadata a
  note's front matter yields, and the post the Admin API receives. Every
  metadata field is optional; a post always has a title and a status.
 */
module GhostTypes {

  import opened Wrappers
  import opened Settings
  import opened JsValues

  /** The thirteen free-text fields copied from metadata to post. */
  datatype TextField =
    | Excerpt | FeatureImage | MetaTitle | MetaDescription
    | OgTitle | OgDescription | OgImage
    | TwitterTitle | TwitterDescription | TwitterImage
    | CustomExcerpt | CodeinjectionHead | CodeinjectionFoot

  function FieldKey(f: TextField): string {
    match f
    case Excerpt => "excerpt"
    case FeatureImage => "feature_image"
    case MetaTitle => "meta_title"
    case MetaDescription => "meta_description"
    case OgTitle => "og_title"
    case OgDescription => "og_description"
    case OgImage => "og_image"
    case TwitterTitle => "twitter_title"
    case TwitterDescription => "twitter_description"
    case TwitterImage => "twitter_image"
    case CustomExcerpt => "custom_excerpt"
    case CodeinjectionHead => "codeinjection_head"
    case CodeinjectionFoot => "codeinjection_foot"
  }

  /** The field a property name denotes, if it is one of the thirteen. */
  function FieldOfKey(key: string): (r: Option<TextField>)
    ensures r.Some? ==> FieldKey(r.value) == key
  {
    if key == "excerpt" then Some(Excerpt)
    else if key == "feature_image" then Some(FeatureImage)
    else if key == "meta_title" then Some(MetaTitle)
    else if key == "meta_description" then Some(MetaDescription)
    else if key == "og_title" then Some(OgTitle)
    else if key == "og_description" then Some(OgDescription)
    else if key == "og_image" then Some(OgImage)
    else if key == "twitter_title" then Some(TwitterTitle)
    else if key == "twitter_description" then Some(TwitterDescription)
    else if key == "twitter_image" then Some(TwitterImage)
    else if key == "custom_excerpt" then Some(CustomExcerpt)
    else if key == "codeinjection_head" then Some(CodeinjectionHead)
    else if key == "codeinjection_foot" then Some(CodeinjectionFoot)
    else None
  }

  /** Property names identify fields: distinct fields have distinct names. */
  lemma FieldKeyRoundTrip(f: TextField)
    ensures FieldOfKey(FieldKey(f)) == Some(f)
  {
  }

  lemma FieldKeyInjective(f: TextField, g: TextField)
    requires FieldKey(f) == FieldKey(g)
    ensures f == g
  {
    FieldKeyRoundTrip(f);
    FieldKeyRoundTrip(g);
  }

  const AllTextFields: set<TextField> := {
    Excerpt, FeatureImage, MetaTitle, MetaDescription, OgTitle, OgDescription, OgImage,
    TwitterTitle, TwitterDescription, TwitterImage, CustomExcerpt, CodeinjectionHead, CodeinjectionFoot
  }

  lemma AllTextFieldsComplete(f: TextField)
    ensures f in AllTextFields
  {
  }

  datatype PostMetadata = PostMetadata(
    title: Option<string>,
    slug: Option<string>,
    publishedAt: Option<string>,
    text: map<TextField, string>,
    status: Option<PublishStatus>,
    tags: Option<seq<string>>,
    featured: Option<bool>,
    visibility: Option<PostVisibility>
  )

  const EmptyMetadata := PostMetadata(None, None, None, map[], None, None, None, None)

  datatype TagRef = TagRef(name: string, slug: Option<string>)

  datatype AuthorRef =
    | AuthorId(text: string)
    | AuthorRecord(id: Option<string>, slug: Option<string>, email: Option<string>)

  datatype GhostPost = GhostPost(
    id: Option<string>,
    title: string,
    slug: Option<string>,
    html: Option<string>,
    mobiledoc: Option<string>,
    status: PublishStatus,
    createdAt: Option<string>,
    updatedAt: Option<string>,
    publishedAt: Option<string>,
    tags: Option<seq<TagRef>>,
    authors: Option<seq<AuthorRef>>,
    featured: Option<bool>,
    text: map<TextField, string>,
    visibility: Option<PostVisibility>,
    newsletter: Option<string>,
    emailOnly: Option<bool>,
    emailRecipientFilter: Option<string>
  )

  /** The property names of each record. */
  function MetadataKeys(): set<string> {
    {"title", "status", "tags", "featured", "published_at", "slug", "visibility"}
      + set f | f in AllTextFields :: FieldKey(f)
  }

  function PostKeys(): set<string> {
    {"id", "title", "slug", "html", "mobiledoc", "status", "created_at", "updated_at", "published_at",
     "tags", "authors", "featured", "visibility", "newsletter", "email_only", "email_recipient_filter"}
      + set f | f in AllTextFields :: FieldKey(f)
  }

  /** Every metadata property also exists on the post (tags change type on the way). */
  lemma MetadataKeysOnPost()
    ensures MetadataKeys() <= PostKeys()
    ensures "html" in PostKeys() - MetadataKeys()
  {
  }

  /** Sets `key` when a value is present; an absent optional property is simply not there. */
  function Put(m: map<string, Value>, key: string, v: Option<Value>): map<string, Value> {
    if v.Some? then m[key := v.value] else m
  }

  function StrOf(v: Option<string>): Option<Value> {
    if v.Some? then Some(Str(v.value)) else None
  }

  function BoolOf(v: Option<bool>): Option<Value> {
    if v.Some? then Some(Bool(v.value)) else None
  }

  function TagValue(t: TagRef): Value {
    Obj(Put(map["name" := Str(t.name)], "slug", StrOf(t.slug)))
  }

  function AuthorValue(a: AuthorRef): Value {
    match a
    case AuthorId(text) => Str(text)
    case AuthorRecord(id, slug, email) => Obj(Put(Put(Put(map[], "id", StrOf(id)), "slug", StrOf(slug)), "email", StrOf(email)))
  }

  /** The thirteen free-text fields as object properties. */
  function TextObject(text: map<TextField, string>): (o: map<string, Value>)
    ensures forall f :: FieldKey(f) in o <==> f in text
    ensures forall f :: f in text ==> o[FieldKey(f)] == Str(text[f])
    ensures forall k :: k in o ==> FieldOfKey(k).Some?
  {
    var o := map k | k in (set f | f in text.Keys :: FieldKey(f)) && FieldOfKey(k).Some? && FieldOfKey(k).value in text
      :: Str(text[FieldOfKey(k).value]);
    assert forall f :: f in text ==> FieldKey(f) in o by {
      forall f | f in text ensures FieldKey(f) in o { FieldKeyRoundTrip(f); }
    }
    assert forall f :: FieldKey(f) in o ==> f in text by {
      forall f | FieldKey(f) in o ensures f in text { FieldKeyRoundTrip(f); }
    }
    assert forall f :: f in text ==> o[FieldKey(f)] == Str(text[f]) by {
      forall f | f in text ensures o[FieldKey(f)] == Str(text[f]) { FieldKeyRoundTrip(f); }
    }
    o
  }

  /** The properties set last: the body, the visibility, the title and the status. */
  function WithBody(m: map<string, Value>, p: GhostPost): (o: map<string, Value>)
    ensures "title" in o && o["title"] == Str(p.title)
    ensures "status" in o && o["status"] == Str(StatusName(p.status))
    ensures p.html.Some? ==> "html" in o && o["html"] == Str(p.html.value)
    ensures p.visibility.Some? ==> "visibility" in o && o["visibility"] == Str(VisibilityName(p.visibility.value))
  {
    var visibility := if p.visibility.Some? then Some(Str(VisibilityName(p.visibility.value))) else None;
    Put(Put(m, "html", StrOf(p.html)), "visibility", visibility)["title" := Str(p.title)]["status" := Str(StatusName(p.status))]
  }

  /** The post as the JavaScript object the API client receives: one property per
      present field, and always `title` and `status`. */
  function PostToObject(p: GhostPost): (o: map<string, Value>)
    ensures "title" in o && o["title"] == Str(p.title)
    ensures "status" in o && o["status"] == Str(StatusName(p.status))
    ensures p.html.Some? ==> "html" in o && o["html"] == Str(p.html.value)
    ensures p.visibility.Some? ==> "visibility" in o && o["visibility"] == Str(VisibilityName(p.visibility.value))
  {
    var texts := TextObject(p.text);
    var tags := if p.tags.Some? then Some(Arr(seq(|p.tags.value|, k requires 0 <= k < |p.tags.value| => TagValue(p.tags.value[k])))) else None;
    var authors := if p.authors.Some? then Some(Arr(seq(|p.authors.value|, k requires 0 <= k < |p.authors.value| => AuthorValue(p.authors.value[k])))) else None;
    var newsletter := if p.newsletter.Some? then Some(Obj(map["id" := Str(p.newsletter.value)])) else None;
    var m := Put(Put(Put(texts, "id", StrOf(p.id)), "slug", StrOf(p.slug)), "mobiledoc", StrOf(p.mobiledoc));
    var m := Put(Put(Put(m, "created_at", StrOf(p.createdAt)), "updated_at", StrOf(p.updatedAt)), "published_at", StrOf(p.publishedAt));
    var m := Put(Put(Put(m, "tags", tags), "authors", authors), "featured", BoolOf(p.featured));
    var m := Put(Put(Put(m, "newsletter", newsletter), "email_only", BoolOf(p.emailOnly)), "email_recipient_filter", StrOf(p.emailRecipientFilter));
    WithBody(m, p)
  }
}
