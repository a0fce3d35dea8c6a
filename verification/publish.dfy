/** `create_post`: log in, build the post record, add facets when the text
    is not empty, and create the record in the account's repository. */
module Publish {
  import opened Wrappers
  import opened Atproto
  import opened Network
  import Card
  import Facets
  import Mentions
  import Urls
  import Utf8

  /** The record as `create_post` builds it before adding facets. */
  function Draft(text: string, createdAt: string): Post {
    Post(PostType, text, createdAt, None, None)
  }

  /** The record `create_post` sends once the card step is corrected (see
      `Facets.AddFacets`): facets are parsed only for a text that is not
      empty.  It is built exactly when every handle lookup resolves or is
      skipped and, for a text with a URL, the card of its last URL does not
      fail. */
  function Record(text: string, createdAt: string, net: Net): (r: Result<Post, Fatal>)
    ensures var urls := Urls.ParseUrls(text);
            r.Success? <==>
              || |text| == 0
              || (&& Facets.NoResolveFailure(Mentions.ParseMentions(text), net.resolveHandle)
                  && (|urls| > 0 ==> Card.FetchCard(Facets.LastUrl(urls), net).Success?))
    ensures r.Success? ==>
              && r.value.recordType == PostType
              && r.value.text == text
              && r.value.createdAt == createdAt
    ensures r.Success? && |text| == 0 ==> r.value.facets.None? && r.value.embed.None?
    ensures r.Success? && |text| > 0 &&
            Facets.Produces(Mentions.ParseMentions(text), Urls.ParseUrls(text), net.resolveHandle) ==>
              r.value.facets.Some?
    ensures r.Success? &&
            !Facets.Produces(Mentions.ParseMentions(text), Urls.ParseUrls(text), net.resolveHandle) ==>
              r.value == Draft(text, createdAt)
  {
    if |text| > 0 then Facets.ParseFacets(Draft(text, createdAt), net) else Success(Draft(text, createdAt))
  }

  /** The post as `create_post` sends it, with the corrected card step;
      `createdAt` is the current time as the source formats it. */
  function CreatePost(text: string, createdAt: string, net: Net): (r: Result<Post, Fatal>)
    ensures net.login.LoginFailed? ==> r == Failure(LoginRejected(net.login.status))
    ensures net.login.Session? ==>
              var record := Record(text, createdAt, net);
              && (r.Success? <==>
                    record.Success? &&
                    net.createRecord(CreateRecord(net.login.did, PostType, record.value)).Published?)
              && (record.Failure? ==> r == Failure(record.error))
              && (record.Success? &&
                  net.createRecord(CreateRecord(net.login.did, PostType, record.value)).PublishFailed? ==>
                    r == Failure(PublishRejected(
                           net.createRecord(CreateRecord(net.login.did, PostType, record.value)).status)))
    ensures r.Success? ==> r == Record(text, createdAt, net)
    ensures r.Success? ==>
              && net.login.Session?
              && net.createRecord(CreateRecord(net.login.did, PostType, r.value)).Published?
    ensures r.Success? ==>
              && r.value.recordType == PostType
              && r.value.text == text
              && r.value.createdAt == createdAt
    ensures r.Success? && |text| == 0 ==> r.value.facets.None? && r.value.embed.None?
    ensures r.Success? && r.value.embed.Some? ==>
              && r.value.facets.Some?
              && r.value.embed.value.embedType == ExternalEmbedType
              && r.value.embed.value.external.uri == Facets.LastUrl(Urls.ParseUrls(text))
    ensures r.Success? && r.value.facets.Some? ==>
              forall i :: 0 <= i < |r.value.facets.value| ==>
                Facets.Faithful(Utf8.Encode(text), r.value.facets.value[i], net.resolveHandle)
  {
    match net.login
    case LoginFailed(status) => Failure(LoginRejected(status))
    case Session(did) =>
      var record :- Record(text, createdAt, net);
      match net.createRecord(CreateRecord(did, PostType, record))
      case Published => Success(record)
      case PublishFailed(status) => Failure(PublishRejected(status))
  }

  /** The record as `create_post` builds it as written, with
      `Facets.ParseFacetsAsWritten`: a text whose facets are only mentions
      asks for the card of `""`. */
  function RecordAsWritten(text: string, createdAt: string, net: Net): (r: Result<Post, Fatal>)
    ensures var ms := Mentions.ParseMentions(text);
            var urls := Urls.ParseUrls(text);
            r.Success? <==>
              || |text| == 0
              || (&& Facets.NoResolveFailure(ms, net.resolveHandle)
                  && (Facets.Produces(ms, urls, net.resolveHandle) ==>
                        Card.FetchCard(Facets.LastUrl(urls), net).Success?))
    ensures |text| == 0 || |Urls.ParseUrls(text)| > 0 ||
            !Facets.Produces(Mentions.ParseMentions(text), Urls.ParseUrls(text), net.resolveHandle) ==>
              r == Record(text, createdAt, net)
  {
    if |text| > 0 then Facets.ParseFacetsAsWritten(Draft(text, createdAt), net) else Success(Draft(text, createdAt))
  }

  /** `create_post` as written: after a login it posts exactly when the
      as-written record is built and `createRecord` accepts it. */
  function CreatePostAsWritten(text: string, createdAt: string, net: Net): (r: Result<Post, Fatal>)
    ensures net.login.LoginFailed? ==> r == Failure(LoginRejected(net.login.status))
    ensures net.login.Session? ==>
              var record := RecordAsWritten(text, createdAt, net);
              && (r.Success? <==>
                    record.Success? &&
                    net.createRecord(CreateRecord(net.login.did, PostType, record.value)).Published?)
              && (record.Failure? ==> r == Failure(record.error))
    ensures r.Success? ==> r == RecordAsWritten(text, createdAt, net)
  {
    match net.login
    case LoginFailed(status) => Failure(LoginRejected(status))
    case Session(did) =>
      var record :- RecordAsWritten(text, createdAt, net);
      match net.createRecord(CreateRecord(did, PostType, record))
      case Published => Success(record)
      case PublishFailed(status) => Failure(PublishRejected(status))
  }

  /** A non-empty text with a mention that resolves, none whose lookup
      fails, and no URL: as written `create_post` raises on the card request
      for `""` after the login, and the run ends; with the corrected card
      step the record is built with its mention facets and no embed. */
  lemma MentionOnlyPost(text: string, createdAt: string, net: Net)
    requires |text| > 0 && net.login.Session?
    requires Urls.ParseUrls(text) == []
    requires Facets.NoResolveFailure(Mentions.ParseMentions(text), net.resolveHandle)
    requires Facets.Produces(Mentions.ParseMentions(text), [], net.resolveHandle)
    ensures CreatePostAsWritten(text, createdAt, net) == Failure(PageRequestError(""))
    ensures var r := Record(text, createdAt, net);
            && r.Success?
            && r.value.facets.Some?
            && r.value.embed.None?
  {
    Facets.MentionOnlyText(Draft(text, createdAt), net);
  }
}
