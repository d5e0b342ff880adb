/** Image-extension membership and the MIME table (src/utils/media.ts). */
module Media {

  import opened Text

  const ImageExtensions: seq<string> := ["jpg", "jpeg", "png", "gif", "webp", "svg", "bmp", "tiff", "tif", "ico"]

  const OctetStream := "application/octet-stream"

  /** The MIME table's own keys (an inherited property such as `constructor` is not modelled). */
  const MimeTypes: map<string, string> := map[
    "jpg" := "image/jpeg",
    "jpeg" := "image/jpeg",
    "png" := "image/png",
    "gif" := "image/gif",
    "webp" := "image/webp",
    "svg" := "image/svg+xml",
    "bmp" := "image/bmp",
    "tiff" := "image/tiff",
    "tif" := "image/tiff",
    "ico" := "image/x-icon"
  ]

  predicate IsImageExtension(extension: string) {
    LowerStr(extension) in ImageExtensions
  }

  function GetMimeType(extension: string): (m: string)
    ensures m in MimeTypes.Values || m == OctetStream
  {
    var key := LowerStr(extension);
    if key in MimeTypes then MimeTypes[key] else OctetStream
  }

  lemma LowerStrIdempotent(s: string)
    ensures LowerStr(LowerStr(s)) == LowerStr(s)
  {
  }

  /** Both lookups ignore case. */
  lemma CaseInsensitive(extension: string)
    ensures IsImageExtension(extension) <==> IsImageExtension(LowerStr(extension))
    ensures GetMimeType(extension) == GetMimeType(LowerStr(extension))
  {
    LowerStrIdempotent(extension);
  }

  /** The image extensions are exactly the extensions the MIME table knows, and
      every one of them maps to a type under `image/`; anything else is an octet stream. */
  lemma ImageIffKnownMime(extension: string)
    ensures IsImageExtension(extension) <==> GetMimeType(extension) != OctetStream
    ensures IsImageExtension(extension) ==> StartsWith(GetMimeType(extension), "image/")
    ensures !IsImageExtension(extension) ==> GetMimeType(extension) == OctetStream
  {
    var key := LowerStr(extension);
    assert key in ImageExtensions <==> key in MimeTypes;
  }

  lemma MimeExamples()
    ensures GetMimeType("JPG") == GetMimeType("jpeg") == "image/jpeg"
    ensures GetMimeType("tif") == GetMimeType("TIFF") == "image/tiff"
    ensures GetMimeType("svg") == "image/svg+xml"
    ensures GetMimeType("ico") == "image/x-icon"
    ensures GetMimeType("pdf") == OctetStream && !IsImageExtension("pdf")
  {
    assert LowerStr("JPG") == "jpg";
    assert LowerStr("jpeg") == "jpeg";
    assert LowerStr("tif") == "tif";
    assert LowerStr("TIFF") == "tiff";
    assert LowerStr("svg") == "svg";
    assert LowerStr("ico") == "ico";
    assert LowerStr("pdf") == "pdf";
  }
}
