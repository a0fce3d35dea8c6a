/** The records the gateway builds: a post (`app.bsky.feed.post`), its
    rich-text facets and its external embed card, with the JSON fields the
    source fills in. */
module Atproto {
  import opened Wrappers

  const PostType := "app.bsky.feed.post"
  const ExternalEmbedType := "app.bsky.embed.external"

  /** The feature of a facet: `app.bsky.richtext.facet#mention` with the
      resolved identifier, or `app.bsky.richtext.facet#link` with the URI. */
  datatype Feature = Mention(did: string) | Link(uri: string)

  /** A facet over the UTF-8 byte range `[byteStart, byteEnd)` of the text. */
  datatype Facet = Facet(byteStart: nat, byteEnd: nat, feature: Feature)

  /** The blob reference `uploadBlob` answers with, kept opaque. */
  type Blob = string

  /** The `external` object of an embed card. */
  datatype External = External(uri: string, title: string, description: string, thumb: Option<Blob>)

  datatype Embed = Embed(embedType: string, external: External)

  /** A post record; `facets` and `embed` are absent unless set. */
  datatype Post = Post(recordType: string, text: string, createdAt: string,
                       facets: Option<seq<Facet>>, embed: Option<Embed>)

  /** Facets in strictly increasing byte order, none touching the next. */
  predicate FacetsOrdered(fs: seq<Facet>) {
    forall k :: 0 <= k < |fs| - 1 ==> fs[k].byteEnd < fs[k + 1].byteStart
  }
}
