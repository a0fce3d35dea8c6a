/** Everything the gateway asks of the network, as functions from request
    to answer.  Each answer type distinguishes the outcomes the source tells
    apart: the exceptions it catches, and those it lets propagate (which end
    the run, see `Fatal`). */
module Network {
  import opened Wrappers
  import opened Bytes
  import opened Atproto

  /** `com.atproto.identity.resolveHandle`: a body with a `did`, the status
      400 that the source skips, or any other failure (a body without `did`,
      a connection error), which propagates. */
  datatype Resolution = Resolved(did: string) | NotFound | ResolveFailed

  /** The `content` of the `og:title`, `og:description` and `og:image` meta
      tags of a page, each absent when the page has no such tag. */
  datatype OgMeta = OgMeta(title: Option<string>, description: Option<string>, image: Option<string>)

  /** `requests.get(url)` of the page: the parsed meta tags, an HTTP error
      status, a connection error, or any other request exception. */
  datatype PageFetch = Page(meta: OgMeta) | PageHttpError(status: int) | PageConnectionError | PageRequestFailed

  /** `requests.get(img_url)`: the content, an HTTP error status, or any
      other request exception (a connection error included). */
  datatype ImageFetch = Image(content: seq<byte>) | ImageHttpError(status: int) | ImageRequestFailed

  /** `com.atproto.repo.uploadBlob`: the blob, an HTTP error status, or any
      other request exception. */
  datatype Upload = Uploaded(blob: Blob) | UploadHttpError(status: int) | UploadRequestFailed

  /** `com.atproto.server.createSession`: a session for the account's
      repository, or a failure status. */
  datatype Login = Session(did: string) | LoginFailed(status: int)

  /** The body of a `com.atproto.repo.createRecord` request. */
  datatype CreateRecord = CreateRecord(repo: string, collection: string, record: Post)

  /** `com.atproto.repo.createRecord`: success, or a failure status. */
  datatype Publish = Published | PublishFailed(status: int)

  datatype Net = Net(
    resolveHandle: string -> Resolution,
    getPage: string -> PageFetch,
    getImage: string -> ImageFetch,
    uploadBlob: (seq<byte>, string) -> Upload,
    login: Login,
    createRecord: CreateRecord -> Publish)

  /** An exception that the source does not catch: it ends the run. */
  datatype Fatal =
    | HandleResolutionFailed(handle: string)
    | PageRequestError(url: string)
    | ImageRequestError(url: string)
    | UploadRequestError(url: string)
    | LoginRejected(status: int)
    | PublishRejected(status: int)
}
