# Witch publishing core, modelled in Dafny

Witch is an Obsidian plugin that publishes a note to a Ghost blog. A publish
reads the note and splits off its YAML front matter. When Cloudflare R2 is
configured, it uploads the note's local images to an R2 bucket and points
the note at their public URLs. It then converts the Markdown to HTML in the
shape of Ghost cards, builds the Ghost post from the front matter and the
plugin settings, signs a Ghost Admin API token, looks the post up by its
slug, and updates it or creates it. A second command uploads a note's
images to R2 and writes the rewritten note back into the vault.

This project models that core as Dafny functions, methods and lemmas, one
module per source file:

- `Settings` and `GhostTypes`: the settings, their defaults, and the post
  metadata and Ghost post records (`src/types/`).
- `Media`: the image extensions and the MIME table (`src/utils/media.ts`).
- `FileResolver`: how a link target becomes a vault file
  (`src/utils/file-resolver.ts`).
- `FrontmatterParser`: the front-matter split and the coercion of the YAML
  values into post metadata (`src/utils/frontmatter-parser.ts`).
- `Jwt`: the Admin API key, base64url, the HS256 token and `hexToBytes`
  (`src/utils/jwt.ts`).
- `MarkdownProcessor`: wiki links, the embed loop, the Ghost card rewrites,
  the YouTube and Vimeo ids, and the fallback regex renderer
  (`src/services/markdown-processor.ts`).
- `R2Storage`: object keys, public URLs, the upload request and the image
  pass with its cache and counters (`src/services/r2-storage.ts`).
- `PostBuilder`: the post assembled from metadata, settings and HTML, with
  its slug, tags, authors and optional fields
  (`src/services/post-builder.ts`).
- `GhostApi`: the lookup, create and update requests, the payload cleaning
  and the error details (`src/services/ghost-api.ts`).
- `Plugin`: the two commands of `main.ts`.

Three support modules model the JavaScript runtime the source relies on:

- `Text`: strings, trimming, splitting, lower-casing and number formatting.
- `JsValues`: values, truthiness and `String()`.
- `Matching`: a regular expression tried at a position, scanned with the
  `g` flag, and `String.prototype.replace`.

`Wrappers` holds `Option` and `Result`.

Each regular expression of the source is modelled by a matcher that says
what the expression matches at a given position. The loops of the source
are methods whose postconditions tie them to specification functions, and
the properties the source relies on are lemmas about those functions.

What the model takes as parameters, because it happens outside the core:

- the vault's files, lookups and reads;
- the YAML loader and markdown-it's renderer;
- the date check;
- HMAC-SHA256;
- the clock;
- the transports to Ghost and R2;
- JSON parsing of error bodies.

## Model

| member | source | states |
|---|---|---|
| Settings.ParseStatus | src/types/settings.ts:1 | a name is accepted only as the status whose name it is |
| Settings.ParseVisibility | src/types/settings.ts:2 | a name is accepted only as the visibility whose name it is |
| Settings.EnumerationsAreClosed | src/types/settings.ts:1-2 | each enumeration has exactly three values; the parsers accept exactly the listed names and invert the naming |
| Settings.DefaultSettingsFacts | src/types/settings.ts:24-41 | the defaults: draft status, link conversion on, source link and debug off, R2 off with empty credentials, image path `images` |
| Media.GetMimeType | src/utils/media.ts:7-22 | the result is one of the table's MIME types or `application/octet-stream` |
| Media.CaseInsensitive | src/utils/media.ts:3-22 | both the image test and the MIME lookup give the same answer for an extension and its lower-cased form |
| Media.ImageIffKnownMime | src/utils/media.ts:1-22 | an extension is an image extension exactly when the MIME table knows it, and then its type starts with `image/`; otherwise the type is the octet stream |
| Media.MimeExamples | src/utils/media.ts:9-21 | the table on sample inputs: `JPG` and `jpeg` are `image/jpeg`, `TIFF` and `tif` are `image/tiff`, `svg`, `ico`, and `pdf` is no image |
| GhostTypes.FieldOfKey | src/types/ghost.ts:3-24 | a property name maps only to the free-text field it names |
| GhostTypes.FieldKeyRoundTrip | src/types/ghost.ts:3-24 | every free-text field's property name maps back to that field |
| GhostTypes.FieldKeyInjective | src/types/ghost.ts:3-24 | distinct free-text fields have distinct property names |
| GhostTypes.MetadataKeysOnPost | src/types/ghost.ts:3-56 | every metadata property is also a post property, and `html` exists only on the post |
| GhostTypes.TextObject | src/types/ghost.ts:26-56 | the free-text properties of the object are exactly the fields present, each holding its string, and no other key |
| GhostTypes.PostToObject | src/types/ghost.ts:26-56 | the post as an object always carries `title` and `status`, and carries `html` and `visibility` whenever the post has them, with their values |
| FileResolver.FindFrom | src/utils/file-resolver.ts:39-46 | a file found by the fallback scan is one of the scanned files and passes the lower-cased name/path/containment test |
| FileResolver.ResolveFileByPath | src/utils/file-resolver.ts:5-47 | the early-return ladder returns what the specification function `Resolve` gives |
| FileResolver.ExactHitFirst | src/utils/file-resolver.ts:6-9 | an exact vault-path hit wins before any link resolution |
| FileResolver.LinkResolutionOrder | src/utils/file-resolver.ts:11-21 | the link resolver relative to the current file comes first, and only with a current file; the root-relative resolution comes next |
| FileResolver.TryExtensionsFirstHit | src/utils/file-resolver.ts:23-37 | extension completion returns the hit of the first extension that hits |
| FileResolver.TryExtensionsAllMiss | src/utils/file-resolver.ts:23-37 | when every completed path misses, extension completion yields nothing |
| FileResolver.ExtensionCompletionOrder | src/utils/file-resolver.ts:23-37 | after the link steps miss, the result is the first extension in the order png, jpg, jpeg, gif, webp, svg, bmp whose completed path the vault or the relative resolver knows |
| FileResolver.FallbackScan | src/utils/file-resolver.ts:39-46 | with every earlier step missing, the result is the fallback scan, and any file it returns is a vault file passing the test |
| FileResolver.FindFromFirst | src/utils/file-resolver.ts:40-44 | the scan returns the first file in vault order that passes the test |
| FileResolver.EmptyTargetGivesFirstFile | src/utils/file-resolver.ts:39-46 | with an empty target every path contains it, so the fallback returns the vault's first file |
| FileResolver.ResolveFromVault | src/utils/file-resolver.ts:5-47 | the resolver never invents a file: it returns a file the vault or its link resolver produced, or nothing |
| FileResolver.TryExtensionsFromVault | src/utils/file-resolver.ts:23-37 | a file found by extension completion comes from the vault's lookup or its link resolver |
| FileResolver.FallbackNotPriorityOrdered | src/utils/file-resolver.ts:40-44 | the fallback is not ordered by match quality: a file whose path merely contains the target wins over a later file whose path equals it |
| FrontmatterParser.CloseAt | src/utils/frontmatter-parser.ts:5 | the closing line tried at a position is `\n---`, whitespace, then a line break |
| FrontmatterParser.CloseAtBest | src/utils/frontmatter-parser.ts:5 | the greedy `\s*` after the closing `---` backs off to the last line break of the whitespace run |
| FrontmatterParser.FindClose | src/utils/frontmatter-parser.ts:5 | the lazy `([\s\S]*?)` stops at a position where a closing line fits |
| FrontmatterParser.FindCloseFirst | src/utils/frontmatter-parser.ts:5 | the lazy capture stops at the first closing line at or after its start |
| FrontmatterParser.FindOpen | src/utils/frontmatter-parser.ts:5 | the opening `\s*\n` ends at a line break inside the whitespace after `---` from which a closing line is found |
| FrontmatterParser.FindOpenLast | src/utils/frontmatter-parser.ts:5 | the greedy opening `\s*\n` takes the last such line break |
| FrontmatterParser.MatchIndices | src/utils/frontmatter-parser.ts:5-8 | the search's match sits at a line break after blank padding and at a closing line that fits |
| FrontmatterParser.MatchSound | src/utils/frontmatter-parser.ts:5-8 | a match is a decomposition: both paddings are whitespace and the parts rebuild the note |
| FrontmatterParser.SlicesDecompose | src/utils/frontmatter-parser.ts:5 | slices cut at such indices rebuild the text with whitespace padding |
| FrontmatterParser.DecompositionsAgree | src/utils/frontmatter-parser.ts:5 | two decompositions of one text whose parts have equal lengths are equal |
| FrontmatterParser.MatchShape | src/utils/frontmatter-parser.ts:5-8 | the lengths of the captured parts are read off the search's indices |
| FrontmatterParser.SearchChoice | src/utils/frontmatter-parser.ts:5 | against any decomposition, the search's opening line break is at or after it, its closing line at or before it, its closing line break at or after it |
| FrontmatterParser.MatchIsBacktrackingChoice | src/utils/frontmatter-parser.ts:5-8 | the regex matches whenever a decomposition exists, and picks the longest opening whitespace, then the shortest front matter, then the longest closing whitespace |
| FrontmatterParser.MatchIffDelimiters | src/utils/frontmatter-parser.ts:5-10 | the regex matches exactly when some padded decomposition rebuilds the note |
| FrontmatterParser.StringField | src/utils/frontmatter-parser.ts:34-35 | a string property is kept exactly when it is truthy, stringified; a non-empty string is kept as is |
| FrontmatterParser.TextFields | src/utils/frontmatter-parser.ts:36-48 | each of the thirteen free-text fields is present exactly when its property is truthy, holding `String(value)` |
| FrontmatterParser.StatusField | src/utils/frontmatter-parser.ts:50-52 | `status` is kept exactly when it is one of the three status names, and then it is that status |
| FrontmatterParser.VisibilityField | src/utils/frontmatter-parser.ts:53-55 | `visibility` is kept exactly when it is one of the three visibility names, and then it is that visibility |
| FrontmatterParser.FeaturedField | src/utils/frontmatter-parser.ts:56-58 | `featured` is kept exactly when it is a boolean, unchanged |
| FrontmatterParser.TagsField | src/utils/frontmatter-parser.ts:59-65 | `tags`: an array gives its elements stringified one by one; a non-empty string gives one tag; anything else gives none |
| FrontmatterParser.ParseFrontmatter | src/utils/frontmatter-parser.ts:7-69 | a note without the delimiters gives empty metadata and the whole note as content |
| FrontmatterParser.LoaderFailureKeepsWholeInput | src/utils/frontmatter-parser.ts:21-29 | when the YAML loader throws, the content returned is the whole note, not the body after the block |
| FrontmatterParser.CoerceRoundTrip | src/utils/frontmatter-parser.ts:31-68 | metadata whose strings are non-empty, written as a mapping and coerced back, is returned unchanged |
| FrontmatterParser.CoerceWritten | src/utils/frontmatter-parser.ts:31-68 | a mapping that holds a metadata record's values coerces to that record |
| FrontmatterParser.WrittenStrings | src/utils/frontmatter-parser.ts:34-35 | title, slug and publication date written as non-empty strings are read back unchanged |
| FrontmatterParser.WrittenChoices | src/utils/frontmatter-parser.ts:50-58 | status, visibility and featured written by name are read back unchanged |
| FrontmatterParser.WrittenTags | src/utils/frontmatter-parser.ts:59-65 | tags written as an array of strings are read back unchanged |
| FrontmatterParser.ObjectTextRoundTrip | src/utils/frontmatter-parser.ts:36-48 | the free-text fields written as properties are read back unchanged |
| FrontmatterParser.TagStringNotSplit | src/utils/frontmatter-parser.ts:62-63 | a string `tags` value is one tag, commas included |
| FrontmatterParser.ParseStringValue | src/utils/frontmatter-parser.ts:71-73 | the result is a contiguous part of the value at most two characters shorter |
| FrontmatterParser.ParseStringValueUnquotes | src/utils/frontmatter-parser.ts:71-73 | a text wrapped in any two quote characters comes back unwrapped, whatever quotes it holds inside |
| FrontmatterParser.ParseStringValueKeepsUnquoted | src/utils/frontmatter-parser.ts:71-73 | a value that neither starts nor ends with a quote is unchanged |
| FrontmatterParser.ParseBooleanValueNormalises | src/utils/frontmatter-parser.ts:75-78 | surrounding whitespace and letter case do not change the answer |
| FrontmatterParser.ParseArrayValue | src/utils/frontmatter-parser.ts:80-104 | no item of the result is empty |
| FrontmatterParser.CleanItemsKept | src/utils/frontmatter-parser.ts:100-103 | items with no edge whitespace, edge quotes or commas survive cleaning unchanged and in order |
| FrontmatterParser.BracketListRoundTrip | src/utils/frontmatter-parser.ts:81-87 | a bracketed list written from such items reads back as exactly those items |
| FrontmatterParser.DashListRoundTrip | src/utils/frontmatter-parser.ts:89-96 | two or more clean one-line items written as `- item` lines, one per line, read back as exactly those items |
| FrontmatterParser.CommaListRoundTrip | src/utils/frontmatter-parser.ts:98-103 | clean one-line items joined by commas, the first not opening with `[`, read back as exactly those items |
| Jwt.UrlValue | src/utils/jwt.ts:25-27 | a character has a six-bit value exactly when it is in the URL-safe alphabet |
| Jwt.UrlValueOfChar | src/utils/jwt.ts:25-27 | each URL-safe character decodes to the six-bit value it encodes |
| Jwt.Base64Url | src/utils/jwt.ts:25-27 | unpadded base64url text uses only the URL-safe alphabet |
| Jwt.QuadDecodes | src/utils/jwt.ts:25-27 | the four characters of a three-byte group decode back to the three bytes |
| Jwt.Base64UrlRoundTrip | src/utils/jwt.ts:25-27 | decoding unpadded base64url gives back the encoded bytes |
| Jwt.FirstGroupDecodes | src/utils/jwt.ts:25-27 | the first group of a longer encoding decodes to the first three bytes |
| Jwt.Base64UrlLength | src/utils/jwt.ts:25-27 | without padding, n bytes take (4n + 2) / 3 characters |
| Jwt.ReplaceChar | src/utils/jwt.ts:26 | a global one-character replacement keeps the length and swaps exactly that character |
| Jwt.Base64ToUrl | src/utils/jwt.ts:26 | the two replacements turn `btoa`'s alphabet into the URL-safe one and leave the padding |
| Jwt.DropPadding | src/utils/jwt.ts:26 | dropping the trailing run of `=` removes exactly the padding |
| Jwt.Latin1 | src/utils/jwt.ts:25-27 | `btoa` accepts a string exactly when every character is at most 0xFF, reading each as its code |
| Jwt.Latin1StringRoundTrip | src/utils/jwt.ts:44-48 | bytes turned into characters one by one read back as the same bytes |
| Jwt.Base64UrlEncodeIs | src/utils/jwt.ts:25-27 | `base64UrlEncode` fails exactly on a character above 0xFF; otherwise it is unpadded base64url of the character codes and decodes back to them |
| Jwt.HexDigitValue | src/utils/jwt.ts:59 | a hex digit's value is below 16 |
| Jwt.HexToBytes | src/utils/jwt.ts:52-63 | an odd-length secret is refused with the hex error; otherwise byte k is `parseInt` of the k-th pair, taken modulo 256 with NaN as 0 |
| Jwt.PairOfDigits | src/utils/jwt.ts:59 | `parseInt` of two hex digits, stored in a byte, is the byte they spell |
| Jwt.PairByteOfDigits | src/utils/jwt.ts:58-60 | a pair of hex digits in the secret decodes to the byte it spells |
| Jwt.HexChar | src/utils/jwt.ts:59 | the hex digit written for a value below 16 parses back to that value |
| Jwt.HexRoundTrip | src/utils/jwt.ts:52-63 | the lower-case hex text of any bytes decodes back to those bytes |
| Jwt.Utf8Char | src/utils/jwt.ts:43 | UTF-8 encodes an ASCII character as its own code |
| Jwt.Utf8OfAscii | src/utils/jwt.ts:43 | on ASCII text the UTF-8 bytes are the character codes |
| Jwt.Sign | src/utils/jwt.ts:29-50 | the signature is the unpadded base64url of the HMAC of the data's UTF-8 bytes under the hex-decoded secret, or the hex error |
| Jwt.KeyParts | src/utils/jwt.ts:4-8 | an accepted key yields a non-empty id and a non-empty secret, neither holding ':' |
| Jwt.KeyPartsOfKey | src/utils/jwt.ts:4-8 | a key `id:secret`, whatever ':'-separated segments follow, yields that id and secret |
| Jwt.KeyPartsShape | src/utils/jwt.ts:4-8 | a key that yields an id and a secret starts with `id:secret`, followed by the end or another ':' |
| Jwt.KeyPartsRefused | src/utils/jwt.ts:6-8 | a key without ':' or with an empty id is refused |
| Jwt.JsonEscape | src/utils/jwt.ts:10 | an escaped character is Latin-1 exactly when the character is |
| Jwt.JsonQuote | src/utils/jwt.ts:10 | a JSON string literal starts with a quote and is Latin-1 exactly when its contents are |
| Jwt.ClaimsAreLatin1 | src/utils/jwt.ts:11-17 | the claims are Latin-1 whatever the clock says, so `btoa` accepts them |
| Jwt.HeaderLatin1 | src/utils/jwt.ts:10 | the header is Latin-1 exactly when the key id is |
| Jwt.AdminTokenKeyError | src/utils/jwt.ts:3-23 | the key-format error is raised exactly for a key without a non-empty id and secret |
| Jwt.AdminTokenOutcome | src/utils/jwt.ts:3-23 | with a well-formed key, the token fails with `btoa`'s error when the id is not Latin-1, with the hex error when the secret has odd length, and succeeds otherwise |
| Jwt.AdminTokenClockIndependent | src/utils/jwt.ts:3-23 | whether a token can be made depends on the key alone, not on the clock |
| Jwt.AdminTokenStructure | src/utils/jwt.ts:19-22 | a token is three '.'-separated base64url segments: the header naming the key id, the claims, and the HMAC of the first two under the hex-decoded secret |
| Jwt.SplitThree | src/utils/jwt.ts:19-22 | three segments free of '.', joined by '.', split back into the three |
| Jwt.UrlHasNoDot | src/utils/jwt.ts:25-27 | base64url text holds no '.' |
| GhostApi.KeptAmong | src/services/ghost-api.ts:110-120 | an entry is kept exactly when its value is not `undefined`, `null`, `''` or an empty array, and it keeps its value |
| GhostApi.KeptStep | src/services/ghost-api.ts:110-120 | visiting one more entry adds it exactly when its value is not dropped |
| GhostApi.CleanPostData | src/services/ghost-api.ts:108-139 | the loop over the entries, the two checks and the two overwrites compute the specification function `Cleaned` |
| GhostApi.KeptTruthy | src/services/ghost-api.ts:122-128 | after dropping, a property is truthy exactly when it was truthy and not an empty array |
| GhostApi.CleanedFailures | src/services/ghost-api.ts:122-128 | the cleaning throws the title error exactly when the title is missing, the content error exactly when the title is there but html and mobiledoc are both missing, and succeeds otherwise |
| GhostApi.CleanedEntries | src/services/ghost-api.ts:108-139 | a cleaned post holds every entry that is not dropped, unchanged (`false` and `0` included); its status is always present and valid, its own when valid and else `draft`; a truthy invalid visibility becomes `public` |
| GhostApi.CleanedHoldsNothingDropped | src/services/ghost-api.ts:108-139 | no value of a cleaned post is one the cleaning drops |
| GhostApi.CleanedIdempotent | src/services/ghost-api.ts:108-139 | cleaning a cleaned post changes nothing |
| GhostApi.ValidObjectCleans | src/services/ghost-api.ts:108-139 | an object with a non-empty title, some HTML and a valid status cleans without error and keeps its status and visibility |
| GhostApi.PreparedPostCleans | src/services/ghost-api.ts:108-139 | a built post with a title and some HTML cleans without error and keeps its status and visibility |
| GhostApi.EntryTexts | src/services/ghost-api.ts:98 | every entry is rendered as `message ?? type`, and the list renders exactly when no entry is `null` or `undefined` |
| GhostApi.DetailedErrorListsMessages | src/services/ghost-api.ts:93-99 | a response whose body parses to a non-empty error list with string messages is shown as those messages joined by ", " |
| GhostApi.DetailedErrorJoinsTexts | src/services/ghost-api.ts:96-99 | a non-empty error list whose entries all render is shown joined by ", " |
| GhostApi.EntriesWithMessages | src/services/ghost-api.ts:98 | entries that carry a string message are shown by it |
| GhostApi.EntryTextFallsBackToType | src/services/ghost-api.ts:98 | an entry without a message is shown by its type |
| GhostApi.DetailedErrorRawBody | src/services/ghost-api.ts:94-102 | a body that does not parse, parses to `null`, or lists a `null` entry is returned as it is |
| GhostApi.DetailedErrorFallback | src/services/ghost-api.ts:94-105 | without a response text, or with a parsed body lacking an error list, the result is the error's message, or `Unknown validation error` when there is none |
| GhostApi.ErrorValue | src/services/ghost-api.ts:123 | a thrown `Error` carries the message it was made with |
| GhostApi.FoundPostIs | src/services/ghost-api.ts:23-26 | on the API's answer shape the lookup returns the first post, or `null` for an empty or absent list |
| GhostApi.LookupFailsSoft | src/services/ghost-api.ts:10-33 | the lookup sends exactly when a token is signed: a GET to the posts URL filtered by slug, under `Ghost <token>`, with no body; a token or transport failure gives `null`, a response gives its first post |
| GhostApi.FindExistingPost | src/services/ghost-api.ts:10-33 | the method returns the post and sends the request that the specification function `LookupResult` gives |
| GhostApi.WriteSendsCleaned | src/services/ghost-api.ts:35-87 | a write sends exactly when a token is signed and the payload cleans; it then sends `{posts: [clean]}` under that token and returns the transport's answer; otherwise it throws the first failure's message |
| GhostApi.Write | src/services/ghost-api.ts:35-87 | the shared body of both writes gives what the specification function `WriteResult` gives |
| GhostApi.CreateGhostPost | src/services/ghost-api.ts:35-60 | a POST to the posts collection with `?source=html` |
| GhostApi.UpdateGhostPost | src/services/ghost-api.ts:62-87 | a PUT to the post's own URL with `?source=html` |
| PostBuilder.SpaceRunsToHyphen | src/services/post-builder.ts:55 | each whitespace run becomes one hyphen: empty stays empty, the first and last characters become hyphens exactly when they were whitespace, and text of kept characters turns into slug text |
| PostBuilder.SpaceRunsToHyphenIdle | src/services/post-builder.ts:55 | text without whitespace goes through the run replacement unchanged |
| PostBuilder.GenerateSlug | src/services/post-builder.ts:51-58 | a slug holds only lower-case ASCII letters, digits and hyphens, and never two hyphens in a row |
| PostBuilder.SlugFixedPoint | src/services/post-builder.ts:51-58 | slug text without doubled hyphens is its own slug |
| PostBuilder.GenerateSlugIdempotent | src/services/post-builder.ts:51-58 | the slug of a slug is the slug itself |
| PostBuilder.SlugIsCollapsed | src/services/post-builder.ts:52-57 | the slug is the hyphen-collapsed form of the run-replaced text, so the final trim removes nothing |
| PostBuilder.SlugKeepsLeadingHyphen | src/services/post-builder.ts:52-57 | a title opening with whitespace or a hyphen gives a slug opening with a hyphen, because the trim comes last |
| PostBuilder.SlugKeepsTrailingHyphen | src/services/post-builder.ts:52-57 | a title ending with whitespace or a hyphen gives a slug ending with a hyphen |
| PostBuilder.CommaEntries | src/services/post-builder.ts:69-72 | the comma-separated entries come out non-empty, trimmed and free of commas |
| PostBuilder.CommaEntriesJoin | src/services/post-builder.ts:69-72 | non-empty, trimmed, comma-free entries joined by commas split back into the same entries |
| PostBuilder.BracketedIff | src/services/post-builder.ts:68 | the bracket test holds exactly when the text starts with `[` and ends with `]` |
| PostBuilder.Unbracketed | src/services/post-builder.ts:68 | a bracketed text loses its first and last characters; any other text is unchanged |
| PostBuilder.SplitTagString | src/services/post-builder.ts:60-73 | every tag is non-empty, trimmed and free of commas |
| PostBuilder.SplitTagStringBlank | src/services/post-builder.ts:61-67 | a missing or blank value gives no tags |
| PostBuilder.SplitTagStringBare | src/services/post-builder.ts:60-73 | a text with non-blank edges that does not open with `[` is split as it is |
| PostBuilder.SplitTagStringUnwraps | src/services/post-builder.ts:68-72 | a text in brackets is split without them |
| PostBuilder.SplitTagStringJoin | src/services/post-builder.ts:60-73 | tags joined by commas, bare or in brackets, split back into the same tags |
| PostBuilder.AuthorReferences | src/services/post-builder.ts:130-146 | an empty setting gives no authors; otherwise one reference per comma-separated entry, an entry with `@` as text and any other as a slug |
| PostBuilder.AuthorReferencesJoin | src/services/post-builder.ts:130-146 | authors listed with commas come back one reference each, in order, emails as text and names as slugs |
| PostBuilder.FirstTagIndex | src/services/post-builder.ts:116 | the index found is the first whose lower-cased name matches, or the length when none does |
| PostBuilder.FindTag | src/services/post-builder.ts:116 | a tag found is one of the existing tags whose lower-cased name matches and none before it matches; none is found only when no name matches |
| PostBuilder.TagFor | src/services/post-builder.ts:115-121 | the entry for a value has the same name ignoring case, and always a slug |
| PostBuilder.Accepted | src/services/post-builder.ts:104-113 | every accepted value is non-empty and one of the inputs |
| PostBuilder.AcceptedDistinct | src/services/post-builder.ts:104-113 | no two accepted values are equal ignoring case |
| PostBuilder.AcceptedCovers | src/services/post-builder.ts:104-113 | every non-empty value is represented among the accepted ones, ignoring case |
| PostBuilder.AcceptedGrows | src/services/post-builder.ts:124-125 | the values accepted from a prefix are a prefix of those accepted from the whole |
| PostBuilder.AcceptedKeepsFirst | src/services/post-builder.ts:110-113 | the first value of each case-insensitive group is the one kept |
| PostBuilder.CollectedTagsDistinct | src/services/post-builder.ts:100-128 | the merged tags have names pairwise distinct ignoring case |
| PostBuilder.AppendTag | src/services/post-builder.ts:104-122 | the `append` closure: a trimmed, non-empty, unseen value is recorded in `seen` and gets its entry; anything else changes nothing |
| PostBuilder.MergeIsAccepted | src/services/post-builder.ts:104-125 | applying `append` to each value in turn from the empty state accepts exactly the values of the declarative merge |
| PostBuilder.AppendAll | src/services/post-builder.ts:124-125 | `forEach(append)` over a list continues the merge from the current state |
| PostBuilder.CollectTagList | src/services/post-builder.ts:100-128 | the tags are the front-matter tags, then the default tags, each trimmed and merged ignoring case, existing tags reused |
| PostBuilder.OptionalFieldsComplete | src/services/post-builder.ts:76-90 | the whitelist names every free-text field exactly once |
| PostBuilder.CopiedOntoIff | src/services/post-builder.ts:92-97 | after the visit a field holds the trimmed metadata value when it was visited and is present and not blank, and its old value otherwise |
| PostBuilder.AssignOptionalFields | src/services/post-builder.ts:75-98 | only the post's free-text fields change, as the specification function `CopiedOnto` over the whitelist says |
| PostBuilder.AssignedFields | src/services/post-builder.ts:75-98 | every whitelisted metadata field that is present and not blank reaches the post trimmed; the post's other text fields are kept |
| PostBuilder.PublishedAt | src/services/post-builder.ts:33-38 | a publication date is copied only when present, and then trimmed, non-blank and parseable as a date |
| PostBuilder.PrepareGhostPost | src/services/post-builder.ts:9-49 | the checks and the field-by-field construction give what the specification function `PreparedPost` gives |
| PostBuilder.PreparedTitleError | src/services/post-builder.ts:10-13 | the title error is thrown exactly when the chosen title is blank |
| PostBuilder.BlankTitleHasNoFallback | src/services/post-builder.ts:10-13 | a blank but non-empty metadata title is not replaced by the file name, so the post is refused |
| PostBuilder.PreparedContentError | src/services/post-builder.ts:15-17 | with a usable title, the content error is thrown exactly when the content is blank |
| PostBuilder.PreparedDefaults | src/services/post-builder.ts:19-29 | a prepared post has the trimmed non-empty title, the content as given, the metadata status or the default one, the metadata visibility or `public`, `featured` always set, true exactly when the metadata says true and false otherwise, and the metadata slug or one generated from the untrimmed title |
| PostBuilder.PreparedTagsDistinct | src/services/post-builder.ts:40-41 | the prepared tags have names pairwise distinct ignoring case, each with a slug |
| PostBuilder.PreparedOptionalFields | src/services/post-builder.ts:31-46 | the free-text fields are exactly the present non-blank metadata fields, trimmed; authors are set exactly when the setting lists some |
| MarkdownProcessor.LinkSlugChars | src/services/markdown-processor.ts:48 | a link slug holds no whitespace, and no `]` unless the name had one |
| MarkdownProcessor.LinkSlugOfWord | src/services/markdown-processor.ts:48 | a name without whitespace is only lower-cased |
| MarkdownProcessor.WikiTargetParts | src/services/markdown-processor.ts:45-47 | for `[[t]]` and `[[t\|d]]` the name is the trimmed `t`, and the display is the trimmed `d` when `d` is non-empty, else the name |
| MarkdownProcessor.WikiTargetLacks | src/services/markdown-processor.ts:45-47 | neither the name nor the display holds a `]` the link text does not |
| MarkdownProcessor.WikiLinkToken | src/services/markdown-processor.ts:44-50 | `[[x]]` alone is rewritten to `[display](/slug)` |
| MarkdownProcessor.BareLink | src/services/markdown-processor.ts:44-50 | a name without `]`, `\|` or whitespace links to its lower-cased self, shown as written |
| MarkdownProcessor.WikiLinkHead | src/services/markdown-processor.ts:44 | `[[f]]` at the start of a text is one wiki-link match when `f` has no `]` |
| MarkdownProcessor.WikiFreeTail | src/services/markdown-processor.ts:44 | text without `[` holds no wiki link and is copied unchanged |
| MarkdownProcessor.WikiLinkThenText | src/services/markdown-processor.ts:44-50 | `[[f]]` followed by text without `[`: the link is rewritten and the rest copied |
| MarkdownProcessor.InlineEmbed | src/services/markdown-processor.ts:54-68 | one pass of the embed loop: a resolved note that is not an image has the first occurrence of the match replaced by its body without front matter; a failed read leaves the error marker; anything else changes nothing |
| MarkdownProcessor.InlineEmbeds | src/services/markdown-processor.ts:52-69 | the loop visits the matches of the rewritten text first to last, carrying the latest text, as the specification function `InlinePass` says |
| MarkdownProcessor.ConvertInternalLinks | src/services/markdown-processor.ts:43-72 | the wiki-link rewrite, then the embed loop over the matches of the rewritten text, as the specification function `ConvertLinks` says |
| MarkdownProcessor.LinkNoEmbed | src/services/markdown-processor.ts:52 | `![display](/slug)` without `]` in either part holds no embed match |
| MarkdownProcessor.EmbedRewritten | src/services/markdown-processor.ts:44-50 | the wiki-link rewrite of `![[x]]` keeps the `!` and rewrites the rest as a link |
| MarkdownProcessor.PlainEmbedNotInlined | src/services/markdown-processor.ts:43-72 | `![[x]]` becomes `!` before a Markdown link, so the embed loop finds nothing to inline |
| MarkdownProcessor.EmbedLoopReachable | src/services/markdown-processor.ts:44-53 | a wiki link whose name holds `![[`, followed by text and `]]`, leaves an embed match in the rewritten text, so the loop can run |
| MarkdownProcessor.EmbedAtFirstClose | src/services/markdown-processor.ts:52 | `![[` followed by a first `]` that opens `]]` is an embed match |
| MarkdownProcessor.EmbedInSlug | src/services/markdown-processor.ts:52 | a slug holding `![[` with no `]` after it, followed by text whose first `]` opens `]]`, gives an embed match |
| MarkdownProcessor.ImgTagAt | src/services/markdown-processor.ts:77 | a match of `<img([^>]+?)>` is a well-formed match at its position |
| MarkdownProcessor.ImgTagAtIs | src/services/markdown-processor.ts:77 | an image tag is `<img`, attributes without `>`, then the first `>` |
| MarkdownProcessor.ImageParagraphBecomesCard | src/services/markdown-processor.ts:77-80 | a paragraph holding only an image tag between spaces becomes an image card with those attributes |
| MarkdownProcessor.LoneImageLine | src/services/markdown-processor.ts:82-85 | an image tag after whitespace at the start of a line is a lone image exactly when the line ends with the tag; the card keeps what precedes the tag |
| MarkdownProcessor.SelfLinkAt | src/services/markdown-processor.ts:87 | a match of the self-link pattern is a well-formed match at its position |
| MarkdownProcessor.SelfLinkAtIs | src/services/markdown-processor.ts:87 | a link whose text repeats its own http(s) address is a self link |
| MarkdownProcessor.LinkParagraphCard | src/services/markdown-processor.ts:87-97 | a paragraph holding only a self link becomes a YouTube card when the address has a YouTube id, else a Vimeo card when it has a Vimeo id, else stays unchanged |
| MarkdownProcessor.ExtractAltFirst | src/services/markdown-processor.ts:121-124 | the alt is the value of the first `alt="`, up to the next `"` |
| MarkdownProcessor.ExtractAltAbsent | src/services/markdown-processor.ts:79 | attributes without `alt="` give an empty alt and a card without a caption |
| MarkdownProcessor.IdAfterFollows | src/services/markdown-processor.ts:103-105 | a YouTube pattern captures a maximal run of at least six id characters after its prefix |
| MarkdownProcessor.IdAfterFinds | src/services/markdown-processor.ts:103-105 | a prefix followed by six or more id characters is a match |
| MarkdownProcessor.YoutubeIdSound | src/services/markdown-processor.ts:102-111 | any id found follows one of the three prefixes |
| MarkdownProcessor.YoutubeIdNone | src/services/markdown-processor.ts:106-109 | there is no id exactly when none of the three patterns matches anywhere |
| MarkdownProcessor.YoutubeIdPrefersWatch | src/services/markdown-processor.ts:106 | a watch link with an id wins over the other two forms |
| MarkdownProcessor.YoutubeIdPrefersShortLink | src/services/markdown-processor.ts:106 | without a watch link, a short link with an id wins over a shorts link |
| MarkdownProcessor.YoutubeIdShorts | src/services/markdown-processor.ts:106 | with neither of the others, a shorts link with an id gives its id |
| MarkdownProcessor.VimeoAtFollows | src/services/markdown-processor.ts:114 | a Vimeo match captures a maximal non-empty digit run after `vimeo.com/` or `vimeo.com/video/` |
| MarkdownProcessor.VimeoIdSound | src/services/markdown-processor.ts:113-119 | any Vimeo id found is such a digit run |
| MarkdownProcessor.VimeoIdFinds | src/services/markdown-processor.ts:113-119 | an address with digits after `vimeo.com/` or `vimeo.com/video/` has an id |
| MarkdownProcessor.LazyClose | src/services/markdown-processor.ts:131-132 | a lazy `(.*?)` stops at an occurrence of its closing delimiter |
| MarkdownProcessor.LineBreaksRemoveLineFeeds | src/services/markdown-processor.ts:138 | after the `<br>` rule no line feed is left |
| MarkdownProcessor.MarkdownToHtmlOneLine | src/services/markdown-processor.ts:126-141 | the fallback output holds no line feed: each became a paragraph break or a `<br>` |
| MarkdownProcessor.MarkdownToHtmlEmpty | src/services/markdown-processor.ts:139-140 | empty Markdown renders as nothing, its lone empty paragraph removed |
| MarkdownProcessor.LinkAtBracketed | src/services/markdown-processor.ts:133 | in `![a](b)` the link rule matches from the `[` |
| MarkdownProcessor.ImageRuleIdle | src/services/markdown-processor.ts:134 | text without `[` holds no Markdown image |
| MarkdownProcessor.LinkRuleBeforeImageRule | src/services/markdown-processor.ts:133-134 | the link rule runs first, so `![a](b)` becomes `!` before a link and the image rule finds nothing |
| MarkdownProcessor.SecondLevelHeading | src/services/markdown-processor.ts:128-129 | a line `## t` is left alone by the `###` rule and becomes an `h2` heading |
| MarkdownProcessor.Prepared | src/services/markdown-processor.ts:21-32 | without link conversion the markdown is kept as a prefix; with a setting and a vault name the footer ends the text; otherwise nothing is appended |
| MarkdownProcessor.ConvertMarkdownToHtml | src/services/markdown-processor.ts:20-41 | markdown-it's output, or the fallback renderer's where markdown-it throws, post-processed into cards, as the specification function `ConvertedHtml` says |
| MarkdownProcessor.EmptyNoteConverts | src/services/markdown-processor.ts:20-41 | an empty note without a footer stays empty before rendering, and converts to nothing where markdown-it throws |
| R2Storage.ShouldUseR2Iff | src/services/r2-storage.ts:16-25 | R2 is used exactly when it is enabled and the account, key id, secret and bucket are non-empty after trimming; the default settings leave it off |
| R2Storage.DropExtension | src/services/r2-storage.ts:208 | the title is kept, or cut before a last '.' after which neither '.' nor '/' appears and at least one character follows |
| R2Storage.SlugChar | src/services/r2-storage.ts:209 | every character becomes one of `a-z0-9-_.`, and those are kept |
| R2Storage.StripEdgeHyphen | src/services/r2-storage.ts:211 | the result keeps only characters of the input and, without doubled hyphens, neither starts nor ends with one |
| R2Storage.R2Slug | src/services/r2-storage.ts:205-212 | the slug holds only `a-z0-9-_.`, no doubled hyphen, and no hyphen at either end |
| R2Storage.KeyPrefix | src/services/r2-storage.ts:217 | the folder prefix has no doubled '/' and no '/' at either end |
| R2Storage.KeyIndexRoundTrip | src/services/r2-storage.ts:214-219 | the image index is read back from any object key built with it, with or without a prefix |
| R2Storage.KeyIndexOfShape | src/services/r2-storage.ts:216 | `<front>-<n>.<extension>` gives back `n` when the extension has no '.' |
| R2Storage.KeyIndexUnderPrefix | src/services/r2-storage.ts:218 | the same holds under a folder prefix |
| R2Storage.ObjectKeysDistinct | src/services/r2-storage.ts:214-219 | keys built with different image indices differ, whatever the titles and extensions |
| R2Storage.ObjectKeyExample | src/services/r2-storage.ts:211 | the slug of `-x-` is `x`: edge hyphens go |
| R2Storage.UrlBase | src/services/r2-storage.ts:221-226 | the public base is an https address ending in '/' |
| R2Storage.BuildPublicUrl | src/services/r2-storage.ts:221-226 | the URL is https, ends with `/` and the key, and is the base followed by the key |
| R2Storage.PublicUrlInjective | src/services/r2-storage.ts:221-226 | different keys give different public URLs |
| R2Storage.UploadToR2 | src/services/r2-storage.ts:141-181 | a request is sent exactly when R2 is on and the extension is an image; it names the bucket, the key for the title, lower-cased extension and index, an image content type, the one-year cache header, and a caption exactly when the alt text is non-empty; a URL comes back exactly when the request succeeds, and it is the key's public URL |
| R2Storage.Headings | src/services/r2-storage.ts:38-41 | the headings of a note come in strictly ascending position |
| R2Storage.HeadingForIsLastBefore | src/services/r2-storage.ts:43-53 | with ascending headings, a position falls under the last heading that starts before it, or under the post title when none does |
| R2Storage.FindHeadingForPosition | src/services/r2-storage.ts:43-53 | the loop computes that heading |
| R2Storage.Reversed | src/services/r2-storage.ts:91 | the reversed matches all lie within the text |
| R2Storage.LookupOrUpload | src/services/r2-storage.ts:64-75 | the cache-or-upload block, as the specification function `ImageUrl` says |
| R2Storage.RewriteResolvedImage | src/services/r2-storage.ts:63-87 | the rewrite of one resolved reference, as `RewriteImage` says |
| R2Storage.ReplaceEmbed | src/services/r2-storage.ts:55-89 | the embed callback, as `EmbedStep` says |
| R2Storage.ReplaceMarkdownImage | src/services/r2-storage.ts:96-135 | the body of the Markdown-image loop, as `MarkdownImageStep` says |
| R2Storage.RewriteEmbeds | src/services/r2-storage.ts:91-93 | the embed loop, latest match first, as `EmbedPass` says |
| R2Storage.RewriteMarkdownImages | src/services/r2-storage.ts:95-136 | the Markdown-image loop over the matches of the text after the embed loop, as `MarkdownPass` says |
| R2Storage.ProcessAllImagesInContent | src/services/r2-storage.ts:27-139 | the processed content and the upload count are those of `ProcessAll` |
| R2Storage.ProcessAllBookkeeping | src/services/r2-storage.ts:27-139 | after a pass the upload count equals the number of cached paths, the image counter the number of upload calls, the calls used indices 1, 2, … and distinct object keys, and no path was uploaded successfully twice |
| R2Storage.EmbedPassKeeps | src/services/r2-storage.ts:91-93 | the embed loop keeps that bookkeeping |
| R2Storage.MarkdownPassKeeps | src/services/r2-storage.ts:95-136 | the Markdown-image loop keeps it too |
| R2Storage.RewriteImageKeeps | src/services/r2-storage.ts:63-87 | one rewrite keeps it |
| R2Storage.ImageUrlKeeps | src/services/r2-storage.ts:64-75 | the cache-or-upload step keeps it and leaves the text alone |
| R2Storage.AfterUploadKeeps | src/services/r2-storage.ts:66-73 | recording an upload of an uncached path keeps it |
| R2Storage.LogExtends | src/services/r2-storage.ts:66-73 | adding one logged call with the matching cache update keeps it |
| R2Storage.DistinctSuccessPathsExtend | src/services/r2-storage.ts:64-71 | a call for an uncached path cannot repeat a successful path |
| R2Storage.UploadLogged | src/services/r2-storage.ts:156-166 | a call made with R2 on and an image sends a request whose key carries the index |
| R2Storage.LoggedKeysDistinct | src/services/r2-storage.ts:67-68 | two logged calls used different keys |
| R2Storage.BookkeepingLog | src/services/r2-storage.ts:67-71 | the bookkeeping spelled out: counts, indices, distinct keys and paths |
| R2Storage.CachedImageReused | src/services/r2-storage.ts:64-66 | a cached path reuses its URL: no upload and no change of state |
| R2Storage.FreshImageUploaded | src/services/r2-storage.ts:65-73 | an uncached image with uploads on is uploaded under the next index; on success its URL is cached and counted, on failure neither |
| R2Storage.ImageUrlUploads | src/services/r2-storage.ts:65-73 | an uncached path with uploads on takes the upload branch |
| R2Storage.UploadOutcome | src/services/r2-storage.ts:152-173 | with R2 on and an image, the request carries the built key and the URL is non-empty exactly when the request succeeds |
| R2Storage.AfterUploadOutcome | src/services/r2-storage.ts:66-73 | after a call the log grows by that call, the counter is its index, and the cache and count grow exactly on success |
| R2Storage.RewriteImageOff | src/services/r2-storage.ts:65 | with uploads off, one rewrite leaves cache, counts and log alone |
| R2Storage.EmbedPassOff | src/services/r2-storage.ts:91-93 | so does the embed loop |
| R2Storage.MarkdownPassOff | src/services/r2-storage.ts:95-136 | and the Markdown-image loop |
| R2Storage.ProcessAllWithoutUploads | src/services/r2-storage.ts:27-139 | with uploads off, a pass uploads nothing, counts nothing and caches nothing |
| Plugin.ErrorReportCases | main.ts:119-127 | the notice is a validation report exactly when the error message mentions 422; an error the plugin throws itself is reported by its own message, or explained from the response when it mentions 422; a non-object error gets `Unknown error` |
| Plugin.BuildPost | main.ts:81-100 | the note's text becomes a post by front-matter parsing, the image pass when R2 is on, conversion to HTML and preparation, as the specification function `PostFor` says |
| Plugin.Deliver | main.ts:106-118 | the lookup by slug or title, then an update of the post found or a creation, and the notice that follows, as `Delivery` says |
| Plugin.Publish | main.ts:74-128 | the whole command for a given title and image options: not configured without a site URL and key, else build and deliver, with failures reported, as `Publication` says |
| Plugin.PublishToGhost | main.ts:74-128 | the command as written: the image pass receives the options object as its post title and no options |
| Plugin.PublishToGhostIntended | main.ts:86-89 | the command as evidently intended: the note's name as the title, uploads on, original paths off |
| Plugin.PostForIsSendable | main.ts:81-100 | every post the flow builds has a slug, a non-empty title and non-empty HTML |
| Plugin.PreparedIsSendable | src/services/post-builder.ts:9-49 | every post prepared without known tags has a slug, a non-empty title and non-empty HTML |
| Plugin.SendablePayloadsClean | main.ts:106-116 | such a post is looked up by its slug, and both the creation and the update payload survive cleaning |
| Plugin.UpdatePayloadCleans | main.ts:110-113 | the update payload of such a post survives cleaning |
| Plugin.WriteForSends | main.ts:109-118 | a write is sent exactly when a token is signed; it carries that token, and it is a PUT of the cleaned update payload to the found post's URL when the lookup found one, else a POST of the cleaned post; a signing failure is the outcome |
| Plugin.PublicationSendsOnlyPrepared | main.ts:74-118 | without configuration nothing is sent; anything sent comes from a read note whose post was built, is sendable, and was delivered |
| Plugin.DeliverySendsLookupFirst | main.ts:106-118 | at most two requests; the first, sent exactly when the lookup token is signed, is the lookup filtered by the slug; the second is sent exactly when both tokens are signed |
| Plugin.DeliveryReconciles | main.ts:106-118 | with both tokens signed, the second request updates the found post or creates one with the cleaned payload, and the notice is the write's error report, or updated or published |
| Plugin.UpdatePayloadCarriesVersion | main.ts:110-113 | the cleaned update payload carries the found post's `updated_at` exactly when it is not dropped by cleaning, and every other field of the post is kept |
| Plugin.CleanedKeepsStamp | src/services/ghost-api.ts:108-139 | cleaning keeps an `updated_at` stamp exactly when it is not a dropped value |
| Plugin.UploadEmbeds | main.ts:130-153 | the upload command for a given title and options: refused without R2, a read failure reported, the note rewritten exactly when something was uploaded, as `UploadCommand` says |
| Plugin.UploadEmbedsInNoteToR2 | main.ts:130-153 | the command as written: with no options passed it never rewrites the note and never reports a replacement |
| Plugin.UploadEmbedsInNoteToR2Intended | main.ts:138-141 | the command as evidently intended: the note is rewritten exactly when R2 is on, the note is read and at least one image is uploaded; it then holds the processed text and the notice counts the uploaded images |
| Plugin.PublishPassUploadsNothing | main.ts:86-89 | the image pass as the publish command calls it uploads nothing |
| Plugin.ImageBecomesErrorMarker | src/services/r2-storage.ts:63-88 | without options, a resolved image is replaced by the error marker and cache, counts and log are unchanged |
| Plugin.ImageUploadedAsIntended | src/services/r2-storage.ts:63-80 | with uploads on, an uncached image is uploaded under the next index and, when the upload succeeds, replaced by a figure with its public URL |

## Left out

- Async behaviour and concurrency: every `await` is modelled as a call that returns in order.
- Notices, `console` logging and the debug-mode log of the prepared post: they change no state the core reads.
- markdown-it itself: its output is a parameter, and only the regex fallback renderer is modelled.
- YAML parsing: the loader is a parameter, and what it returns is modelled as JavaScript values.
- Date parsing in the post builder: `Date.parse` is abstracted as the predicate `parsesAsDate`.
- HMAC-SHA256, the network and the R2 client: all are parameters. The Ghost client's `requestUrl` throwing on a body that is not JSON is folded into the transport's result.
- JSON serialisation of request bodies: a body is modelled as the value that would be serialised.
- `vault.modify` failing in the upload command is not modelled. The command returns the text it would write.
- `Text.LowerStr`: lower-cases ASCII letters only, where `toLowerCase` also folds other scripts.
- JavaScript strings are modelled as sequences of characters, not UTF-16 code units, so characters outside the Basic Multilingual Plane count once.
- `JsValues.Value`: numbers are integers. Fractional numbers, `NaN` and the infinities are not modelled, so a YAML `1.5` or `.nan` has no exact value and the falsiness of `NaN` is lost.
- Replacement patterns: `Text.ReplaceFirst` inserts its replacement literally. `String.prototype.replace` would expand `$&`, `$$`, `` $` `` and `$'` when they occur in an inlined note's body, a caption or a path.
- `Media.GetMimeType`: an inherited property of the MIME table, such as `constructor`, is not modelled as a hit.
- `Plugin.ErrorReportCases`: for an `error.message` that is not a string, `null` or `undefined`, the model reports `Failed` with `String(message)`. The source differs there. An array message goes to the validation branch when one of its elements is the string `422`, because arrays have `includes`. A number, boolean or other object has no `includes`, so the `catch` itself throws and no notice is shown.
- The lookup filter is not URL-encoded by the source, so the model puts the slug into the URL as it is.
- The R2 service and the Markdown processor are assumed to hold the same settings object as the plugin, as `main.ts` builds them.
- The settings tab (`src/settings/tab.ts`) and plugin loading and unloading are not part of this model.

Behaviours of the code a reader might not expect, which the model keeps:

- `PostBuilder`'s post slug keeps hyphens at its edges.
- `published_at` is passed on as the front matter gives it, without widening.
- A post's visibility defaults to `public`, not to a setting.
- R2 object keys depend only on the heading and the image's index within one run, so they repeat across runs.
- The resolver's last fallback is one scan for a file matching any of its tests, not a scan per test.
- Inlining of embedded notes cannot happen for an ordinary `![[x]]`: the wiki-link rewrite runs first and turns it into `!` followed by a link. The loop sees an embed only when a wiki link's name itself contains `![[` (`MarkdownProcessor.PlainEmbedNotInlined`, `MarkdownProcessor.EmbedLoopReachable`).

## Findings

| source | as written | input that shows it | evidently intended | confidence | as-written member | corrected member |
|---|---|---|---|---|---|---|
| main.ts:86-89 | `processAllImagesInContent(markdownContent, file, { uploadToR2: true, replaceInOriginal: false })` passes the options object in the place of the post title and no options, so reading `options.uploadToR2` throws inside each image's `try` | any note with a local image embed, published with R2 configured | the note's name as the title and the options as the fourth argument, so local images are uploaded | high; not executed | Plugin.PublishPassUploadsNothing | Plugin.PublishToGhostIntended |
| main.ts:86-89 | the thrown `TypeError` is caught per image, so every resolved local image is replaced by `*[Error processing: …]*` in the published post | `![[photo.png]]` with `photo.png` in the vault | the image uploaded and shown as a figure with its R2 URL | high; not executed | Plugin.ImageBecomesErrorMarker | Plugin.ImageUploadedAsIntended |
| main.ts:138-141 | the upload command makes the same call with `replaceInOriginal: true`, so it uploads nothing and never rewrites the note | any note with local images, R2 configured | the images uploaded and the note rewritten with their URLs | high; not executed | Plugin.UploadEmbedsInNoteToR2 | Plugin.UploadEmbedsInNoteToR2Intended |
