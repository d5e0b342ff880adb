/** The plugin's settings record, its two enumerations and its defaults (src/types/settings.ts). */
module Settings {

  import opened Wrappers

  datatype PublishStatus = Draft | Published | Scheduled

  datatype PostVisibility = Public | Members | Paid

  function StatusName(s: PublishStatus): string {
    match s
    case Draft => "draft"
    case Published => "published"
    case Scheduled => "scheduled"
  }

  function VisibilityName(v: PostVisibility): string {
    match v
    case Public => "public"
    case Members => "members"
    case Paid => "paid"
  }

  /** Membership in `['draft', 'published', 'scheduled']`. */
  function ParseStatus(name: string): (r: Option<PublishStatus>)
    ensures r.Some? ==> StatusName(r.value) == name
  {
    if name == "draft" then Some(Draft)
    else if name == "published" then Some(Published)
    else if name == "scheduled" then Some(Scheduled)
    else None
  }

  /** Membership in `['public', 'members', 'paid']`. */
  function ParseVisibility(name: string): (r: Option<PostVisibility>)
    ensures r.Some? ==> VisibilityName(r.value) == name
  {
    if name == "public" then Some(Public)
    else if name == "members" then Some(Members)
    else if name == "paid" then Some(Paid)
    else None
  }

  /** Each enumeration has exactly three values, each with its own name, and the
      parsers accept exactly those names. */
  lemma EnumerationsAreClosed(s: PublishStatus, v: PostVisibility, name: string)
    ensures s == Draft || s == Published || s == Scheduled
    ensures v == Public || v == Members || v == Paid
    ensures ParseStatus(StatusName(s)) == Some(s)
    ensures ParseVisibility(VisibilityName(v)) == Some(v)
    ensures ParseStatus(name).Some? <==> name in {"draft", "published", "scheduled"}
    ensures ParseVisibility(name).Some? <==> name in {"public", "members", "paid"}
  {
  }

  datatype WitchSettings = WitchSettings(
    ghostSiteUrl: string,
    adminApiKey: string,
    defaultStatus: PublishStatus,
    convertObsidianLinks: bool,
    addSourceLink: bool,
    debugMode: bool,
    defaultAuthor: string,
    defaultTags: string,
    r2AccountId: string,
    r2AccessKeyId: string,
    r2SecretAccessKey: string,
    r2BucketName: string,
    r2CustomDomain: string,
    enableR2Upload: bool,
    r2ImagePath: string
  )

  const DefaultSettings := WitchSettings(
    ghostSiteUrl := "",
    adminApiKey := "",
    defaultStatus := Draft,
    convertObsidianLinks := true,
    addSourceLink := false,
    debugMode := false,
    defaultAuthor := "",
    defaultTags := "",
    r2AccountId := "",
    r2AccessKeyId := "",
    r2SecretAccessKey := "",
    r2BucketName := "",
    r2CustomDomain := "",
    enableR2Upload := false,
    r2ImagePath := "images"
  )

  lemma DefaultSettingsFacts()
    ensures DefaultSettings.defaultStatus == Draft
    ensures DefaultSettings.convertObsidianLinks && !DefaultSettings.addSourceLink && !DefaultSettings.debugMode
    ensures !DefaultSettings.enableR2Upload
    ensures DefaultSettings.r2AccountId == DefaultSettings.r2AccessKeyId == DefaultSettings.r2SecretAccessKey == ""
    ensures DefaultSettings.r2BucketName == DefaultSettings.r2CustomDomain == ""
    ensures DefaultSettings.r2ImagePath == "images"
  {
  }
}
