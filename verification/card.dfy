/** The embed card of `fetch_embed_url_card` and the MIME type choice of
    `upload_file`: a decision procedure over the answers of the network. */
module Card {
  import opened Wrappers
  import opened Bytes
  import opened Atproto
  import opened Network

  /** Images longer than this many bytes are not uploaded. */
  const MaxImageBytes := 950000

  /** Python's `sub in s` on strings. */
  predicate Contains(s: string, sub: string) {
    sub <= s || (|s| > 0 && Contains(s[1..], sub))
  }

  /** `s.split(".")[-1]`: the text after the last dot, or all of `s`. */
  function LastSegment(s: string): (r: string)
    ensures |r| <= |s| && s[|s| - |r|..] == r
    ensures '.' !in r
    ensures |r| < |s| ==> s[|s| - |r| - 1] == '.'
  {
    if |s| == 0 || s[|s| - 1] == '.' then []
    else LastSegment(s[..|s| - 1]) + [s[|s| - 1]]
  }

  /** The segment after the last dot of `stem.ext` is `ext` itself. */
  lemma {:induction false} LastSegmentOfName(stem: string, ext: string)
    requires '.' !in ext
    ensures LastSegment(stem + "." + ext) == ext
  {
    var s := stem + "." + ext;
    if |ext| > 0 {
      var e := ext[..|ext| - 1];
      assert s[..|s| - 1] == stem + "." + e;
      assert ext == e + [ext[|ext| - 1]];
      LastSegmentOfName(stem, e);
    }
  }

  /** Lower-cases ASCII letters and leaves every other character alone. */
  function LowerAscii(s: string): (r: string)
    ensures |r| == |s|
    ensures forall i :: 0 <= i < |s| ==>
      r[i] == if 'A' <= s[i] <= 'Z' then (s[i] as int + 32) as char else s[i]
  {
    if |s| == 0 then []
    else
      var c := s[0];
      [if 'A' <= c <= 'Z' then (c as int + 32) as char else c] + LowerAscii(s[1..])
  }

  /** The Content-Type that `upload_file` sends for a file name. */
  function MimeType(filename: string): (r: string)
    ensures r in {"image/png", "image/jpeg", "image/webp", "application/octet-stream"}
  {
    var suffix := LowerAscii(LastSegment(filename));
    if suffix == "png" then "image/png"
    else if suffix == "jpeg" || suffix == "jpg" then "image/jpeg"
    else if suffix == "webp" then "image/webp"
    else "application/octet-stream"
  }

  /** For a name `stem.ext`, the type is decided by the extension alone,
      whatever its letter case. */
  lemma MimeTypeOfName(stem: string, ext: string)
    requires '.' !in ext
    ensures MimeType(stem + "." + ext) == "image/png" <==> LowerAscii(ext) == "png"
    ensures MimeType(stem + "." + ext) == "image/jpeg" <==> LowerAscii(ext) in {"jpeg", "jpg"}
    ensures MimeType(stem + "." + ext) == "image/webp" <==> LowerAscii(ext) == "webp"
    ensures MimeType(stem + "." + ext) == "application/octet-stream" <==>
              LowerAscii(ext) !in {"png", "jpeg", "jpg", "webp"}
  {
    LastSegmentOfName(stem, ext);
  }

  /** A URL the page request is sent for: `requests.get` refuses the empty
      URL (it has no scheme) with an error the source does not catch. */
  predicate Sendable(url: string) {
    url != ""
  }

  /** A text that holds `sub` still holds it with more text after it. */
  lemma {:induction false} ContainsExtended(s: string, t: string, sub: string)
    requires Contains(s, sub)
    ensures Contains(s + t, sub)
  {
    if sub <= s {
      assert (s + t)[..|sub|] == s[..|sub|];
    } else {
      assert (s + t)[1..] == s[1..] + t;
      ContainsExtended(s[1..], t, sub);
    }
  }

  /** The image address: absolute when it holds `://`, else appended to the
      page URL; so it is absolute whenever the page URL is. */
  function ThumbUrl(url: string, img: string): (r: string)
    ensures Contains(img, "://") ==> r == img
    ensures !Contains(img, "://") ==> url <= r && r[|url|..] == img
    ensures Contains(img, "://") || Contains(url, "://") ==> Contains(r, "://")
  {
    if Contains(img, "://") then img
    else if Contains(url, "://") then
      ContainsExtended(url, img, "://");
      url + img
    else url + img
  }

  /** The address of the image that is fetched, when one is: the page was
      requested and has an `og:image` that does not mention
      `http://localhost`. */
  function ImageAt(url: string, net: Net): (r: Option<string>)
    ensures r.Some? <==>
              && Sendable(url)
              && net.getPage(url).Page?
              && net.getPage(url).meta.image.Some?
              && !Contains(net.getPage(url).meta.image.value, "http://localhost")
    ensures r.Some? ==> r.value == ThumbUrl(url, net.getPage(url).meta.image.value)
  {
    if !Sendable(url) then None
    else
      match net.getPage(url)
      case Page(OgMeta(_, _, Some(img))) =>
        if Contains(img, "http://localhost") then None else Some(ThumbUrl(url, img))
      case _ => None
  }

  function CardOf(url: string, meta: OgMeta, thumb: Option<Blob>): Embed {
    Embed(ExternalEmbedType,
          External(url, meta.title.GetOr(""), meta.description.GetOr(""), thumb))
  }

  /** `fetch_embed_url_card(url)`: `Success(None)` where the source returns
      nothing, `Failure` where an exception escapes it. */
  function FetchCard(url: string, net: Net): (r: Result<Option<Embed>, Fatal>)
    ensures !Sendable(url) ==> r == Failure(PageRequestError(url))
    ensures Sendable(url) && (net.getPage(url).PageHttpError? || net.getPage(url).PageConnectionError?) ==>
              r == Success(None)
    ensures Sendable(url) && net.getPage(url).PageRequestFailed? ==> r == Failure(PageRequestError(url))
    ensures r.Success? && r.value.Some? ==>
              && Sendable(url)
              && net.getPage(url).Page?
              && r.value.value.embedType == ExternalEmbedType
              && r.value.value.external.uri == url
              && r.value.value.external.title == net.getPage(url).meta.title.GetOr("")
              && r.value.value.external.description == net.getPage(url).meta.description.GetOr("")
    ensures Sendable(url) && net.getPage(url).Page? && net.getPage(url).meta.image.None? ==>
              r == Success(Some(CardOf(url, net.getPage(url).meta, None)))
    ensures Sendable(url) && net.getPage(url).Page? && net.getPage(url).meta.image.Some? &&
            Contains(net.getPage(url).meta.image.value, "http://localhost") ==>
              r == Success(None)
    ensures ImageAt(url, net).Some? && net.getImage(ImageAt(url, net).value).ImageHttpError? ==>
              r == Success(None)
    ensures ImageAt(url, net).Some? && net.getImage(ImageAt(url, net).value).ImageRequestFailed? ==>
              r == Failure(ImageRequestError(ImageAt(url, net).value))
    ensures ImageAt(url, net).Some? && net.getImage(ImageAt(url, net).value).Image? ==>
              var content := net.getImage(ImageAt(url, net).value).content;
              var upload := net.uploadBlob(content, MimeType(ImageAt(url, net).value));
              && (|content| > MaxImageBytes ==> r == Success(None))
              && (|content| <= MaxImageBytes && upload.UploadHttpError? ==> r == Success(None))
              && (|content| <= MaxImageBytes && upload.UploadRequestFailed? ==>
                    r == Failure(UploadRequestError(ImageAt(url, net).value)))
              && (|content| <= MaxImageBytes && upload.Uploaded? ==>
                    r == Success(Some(CardOf(url, net.getPage(url).meta, Some(upload.blob)))))
  {
    if !Sendable(url) then Failure(PageRequestError(url))
    else
      match net.getPage(url)
      case PageHttpError(_) => Success(None)
      case PageConnectionError => Success(None)
      case PageRequestFailed => Failure(PageRequestError(url))
      case Page(meta) =>
        match meta.image
        case None => Success(Some(CardOf(url, meta, None)))
        case Some(img) =>
          if Contains(img, "http://localhost") then Success(None)
          else
            var at := ThumbUrl(url, img);
            match net.getImage(at)
            case ImageHttpError(_) => Success(None)
            case ImageRequestFailed => Failure(ImageRequestError(at))
            case Image(content) =>
              if |content| > MaxImageBytes then Success(None)
              else
                match net.uploadBlob(content, MimeType(at))
                case UploadHttpError(_) => Success(None)
                case UploadRequestFailed => Failure(UploadRequestError(at))
                case Uploaded(blob) => Success(Some(CardOf(url, meta, Some(blob))))
  }

  /** An image over the ceiling ends the card without any upload: the
      answer of `uploadBlob` does not matter. */
  lemma OversizeImageNotUploaded(url: string, net: Net, upload: (seq<byte>, string) -> Upload)
    requires ImageAt(url, net).Some?
    requires net.getImage(ImageAt(url, net).value).Image?
    requires |net.getImage(ImageAt(url, net).value).content| > MaxImageBytes
    ensures FetchCard(url, net) == FetchCard(url, net.(uploadBlob := upload)) == Success(None)
  {
  }

  /** A `http://localhost` image ends the card before any image request or
      upload. */
  lemma LocalhostImageNotFetched(url: string, net: Net, get: string -> ImageFetch,
                                 upload: (seq<byte>, string) -> Upload)
    requires Sendable(url) && net.getPage(url).Page? && net.getPage(url).meta.image.Some?
    requires Contains(net.getPage(url).meta.image.value, "http://localhost")
    ensures FetchCard(url, net) == FetchCard(url, net.(getImage := get, uploadBlob := upload))
                                == Success(None)
  {
  }

  /** The only image requested is the one at `ThumbUrl`: a relative
      `og:image` (one without `://`) is looked up appended to the page URL. */
  lemma OnlyThumbUrlFetched(url: string, net: Net, get: string -> ImageFetch)
    requires ImageAt(url, net).Some? ==> get(ImageAt(url, net).value) == net.getImage(ImageAt(url, net).value)
    ensures FetchCard(url, net) == FetchCard(url, net.(getImage := get))
  {
  }
}
