/** `parse_facets`: mention facets for the handles that resolve, then one
    link facet per URL, and an embed card for the last URL. */
module Facets {
  import opened Wrappers
  import opened Bytes
  import opened Scan
  import opened Atproto
  import opened Network
  import Card
  import Mentions
  import Urls
  import Utf8

  function MentionFacet(s: Span, did: string): Facet {
    Facet(s.start, s.end, Mention(did))
  }

  function LinkFacet(s: Span): Facet {
    Facet(s.start, s.end, Link(s.text))
  }

  /** Every span covers at least one byte. */
  predicate NonEmptySpans(spans: seq<Span>) {
    forall k :: 0 <= k < |spans| ==> spans[k].start < spans[k].end
  }

  /** A mention span whose handle resolves, with the facet it yields. */
  predicate Resolves(s: Span, resolve: string -> Resolution, f: Facet) {
    resolve(s.text).Resolved? && f == MentionFacet(s, resolve(s.text).did)
  }

  /** The mention loop: a handle answered with 400 is skipped, any other
      answer without an identifier ends the run at the first such handle. */
  function MentionFacets(spans: seq<Span>, resolve: string -> Resolution): (r: Result<seq<Facet>, Fatal>)
    ensures r.Success? <==> forall k :: 0 <= k < |spans| ==> !resolve(spans[k].text).ResolveFailed?
    ensures r.Failure? ==>
              exists k :: 0 <= k < |spans| && resolve(spans[k].text).ResolveFailed?
                && r.error == HandleResolutionFailed(spans[k].text)
                && forall j :: 0 <= j < k ==> !resolve(spans[j].text).ResolveFailed?
    ensures r.Success? ==>
              forall f :: f in r.value <==> exists k :: 0 <= k < |spans| && Resolves(spans[k], resolve, f)
    ensures r.Success? && Ordered(spans) && NonEmptySpans(spans) ==> FacetsOrdered(r.value)
  {
    if |spans| == 0 then Success([])
    else
      match resolve(spans[0].text)
      case ResolveFailed => Failure(HandleResolutionFailed(spans[0].text))
      case NotFound =>
        var rest := MentionFacets(spans[1..], resolve);
        assert forall k :: 1 <= k < |spans| ==> spans[k] == spans[1..][k - 1];
        rest
      case Resolved(did) =>
        var rest :- MentionFacets(spans[1..], resolve);
        ConsMentionFacet(spans, resolve, did, rest);
        Success([MentionFacet(spans[0], did)] + rest)
  }

  /** A resolved first handle puts its facet in front of the rest's. */
  lemma ConsMentionFacet(spans: seq<Span>, resolve: string -> Resolution, did: string, rest: seq<Facet>)
    requires |spans| > 0 && resolve(spans[0].text) == Resolved(did)
    requires forall f :: f in rest <==> exists k :: 0 <= k < |spans[1..]| && Resolves(spans[1..][k], resolve, f)
    requires Ordered(spans[1..]) && NonEmptySpans(spans[1..]) ==> FacetsOrdered(rest)
    ensures var r := [MentionFacet(spans[0], did)] + rest;
            && (forall f :: f in r <==> exists k :: 0 <= k < |spans| && Resolves(spans[k], resolve, f))
            && (Ordered(spans) && NonEmptySpans(spans) ==> FacetsOrdered(r))
  {
    var r := [MentionFacet(spans[0], did)] + rest;
    assert forall k :: 1 <= k < |spans| ==> spans[k] == spans[1..][k - 1];
    forall f | f in r
      ensures exists k :: 0 <= k < |spans| && Resolves(spans[k], resolve, f)
    {
      if f != r[0] {
        var k :| 0 <= k < |spans[1..]| && Resolves(spans[1..][k], resolve, f);
        assert Resolves(spans[k + 1], resolve, f);
      } else {
        assert Resolves(spans[0], resolve, f);
      }
    }
    forall f | exists k :: 0 <= k < |spans| && Resolves(spans[k], resolve, f)
      ensures f in r
    {
      var k :| 0 <= k < |spans| && Resolves(spans[k], resolve, f);
      if k > 0 {
        assert Resolves(spans[1..][k - 1], resolve, f);
      }
    }
    if Ordered(spans) && NonEmptySpans(spans) && |rest| > 0 {
      assert rest[0] in rest;
      var k :| 0 <= k < |spans[1..]| && Resolves(spans[1..][k], resolve, rest[0]);
      OrderedApart(spans, 0, k + 1);
    }
  }

  /** The link loop: one facet per URL span, in order. */
  function LinkFacets(spans: seq<Span>): (r: seq<Facet>)
    ensures |r| == |spans|
    ensures forall k :: 0 <= k < |spans| ==>
              r[k].byteStart == spans[k].start && r[k].byteEnd == spans[k].end
              && r[k].feature == Link(spans[k].text)
  {
    if |spans| == 0 then [] else [LinkFacet(spans[0])] + LinkFacets(spans[1..])
  }

  /** The card target: the URL of the last link span, `""` without one. */
  function LastUrl(spans: seq<Span>): string {
    if |spans| == 0 then "" else spans[|spans| - 1].text
  }

  /** Something to add: a link, or a handle that resolves. */
  predicate Produces(ms: seq<Span>, urls: seq<Span>, resolve: string -> Resolution) {
    |urls| > 0 || exists k :: 0 <= k < |ms| && resolve(ms[k].text).Resolved?
  }

  /** The facet list: the mention facets, then the link facets. */
  function FacetList(ms: seq<Span>, urls: seq<Span>, resolve: string -> Resolution): (r: Result<seq<Facet>, Fatal>)
    ensures r.Success? <==> NoResolveFailure(ms, resolve)
    ensures r.Success? ==> (|r.value| > 0 <==> Produces(ms, urls, resolve))
    ensures r.Success? ==>
              var n := |r.value| - |urls|;
              && n >= 0
              && (Ordered(ms) && NonEmptySpans(ms) ==> FacetsOrdered(r.value[..n]))
              && (forall f :: f in r.value[..n] <==> exists k :: 0 <= k < |ms| && Resolves(ms[k], resolve, f))
              && (forall k :: 0 <= k < |urls| ==> r.value[n + k] == LinkFacet(urls[k]))
  {
    var mentions :- MentionFacets(ms, resolve);
    var facets := mentions + LinkFacets(urls);
    assert Produces(ms, urls, resolve) ==> |facets| > 0 by {
      if exists k :: 0 <= k < |ms| && resolve(ms[k].text).Resolved? {
        var k :| 0 <= k < |ms| && resolve(ms[k].text).Resolved?;
        assert Resolves(ms[k], resolve, MentionFacet(ms[k], resolve(ms[k].text).did));
        assert MentionFacet(ms[k], resolve(ms[k].text).did) in mentions;
      }
    }
    assert |mentions| > 0 ==> Produces(ms, urls, resolve) by {
      if |mentions| > 0 {
        assert mentions[0] in mentions;
      }
    }
    assert facets[..|mentions|] == mentions;
    Success(facets)
  }

  /** No handle lookup ends in an exception: every span's handle resolves
      or is skipped. */
  predicate NoResolveFailure(ms: seq<Span>, resolve: string -> Resolution) {
    forall k :: 0 <= k < |ms| ==> !resolve(ms[k].text).ResolveFailed?
  }

  /** The card step once facets exist: no card request at all when the
      text holds no URL; otherwise a card, if any, links the last URL, and
      a failure is that of the page, image or upload request. */
  function CardFor(urls: seq<Span>, net: Net): (r: Result<Option<Embed>, Fatal>)
    ensures |urls| == 0 ==> r == Success(None)
    ensures r.Success? && r.value.Some? ==>
              && |urls| > 0
              && r.value.value.embedType == ExternalEmbedType
              && r.value.value.external.uri == LastUrl(urls)
              && net.getPage(LastUrl(urls)).Page?
    ensures r.Failure? ==>
              && |urls| > 0
              && (r.error == PageRequestError(LastUrl(urls)) || r.error.ImageRequestError? || r.error.UploadRequestError?)
  {
    if |urls| == 0 then Success(None) else Card.FetchCard(LastUrl(urls), net)
  }

  /** The facets and card that the mention spans `ms` and the URL spans
      `urls` contribute to `post`, with the card asked for only when there
      is a URL. */
  function AddFacets(post: Post, ms: seq<Span>, urls: seq<Span>, net: Net): (r: Result<Post, Fatal>)
    ensures r.Success? <==>
              && NoResolveFailure(ms, net.resolveHandle)
              && (|urls| > 0 ==> Card.FetchCard(LastUrl(urls), net).Success?)
    ensures r.Success? ==>
              && r.value.recordType == post.recordType
              && r.value.text == post.text
              && r.value.createdAt == post.createdAt
    ensures r.Success? && !Produces(ms, urls, net.resolveHandle) ==> r.value == post
    ensures r.Success? && Produces(ms, urls, net.resolveHandle) ==>
              && FacetList(ms, urls, net.resolveHandle).Success?
              && r.value.facets == Some(FacetList(ms, urls, net.resolveHandle).value)
    ensures r.Success? && |urls| == 0 ==> r.value.embed == post.embed
    ensures r.Success? && |urls| > 0 ==>
              var card := Card.FetchCard(LastUrl(urls), net);
              && card.Success?
              && r.value.embed == (if card.value.Some? then card.value else post.embed)
  {
    var facets :- FacetList(ms, urls, net.resolveHandle);
    if |facets| == 0 then
      Success(post)
    else
      var card :- CardFor(urls, net);
      Success(post.(facets := Some(facets), embed := if card.Some? then card else post.embed))
  }

  /** `parse_facets` as written: once facets exist the card is asked for
      `LastUrl(urls)`, which is `""` when the text holds no URL.  It agrees
      with `AddFacets` except there, where it fails. */
  function AddFacetsAsWritten(post: Post, ms: seq<Span>, urls: seq<Span>, net: Net): (r: Result<Post, Fatal>)
    ensures r.Success? <==>
              && NoResolveFailure(ms, net.resolveHandle)
              && (Produces(ms, urls, net.resolveHandle) ==> Card.FetchCard(LastUrl(urls), net).Success?)
    ensures |urls| > 0 || !Produces(ms, urls, net.resolveHandle) ==> r == AddFacets(post, ms, urls, net)
  {
    var facets :- FacetList(ms, urls, net.resolveHandle);
    if |facets| == 0 then
      Success(post)
    else
      var card :- Card.FetchCard(LastUrl(urls), net);
      Success(post.(facets := Some(facets), embed := if card.Some? then card else post.embed))
  }

  /** With a handle that resolves, none whose lookup fails, and no URL, the
      code as written asks for the card of `""` and the request fails; the
      fixed step posts the mention facets and leaves the embed alone. */
  lemma MentionWithoutUrl(post: Post, ms: seq<Span>, net: Net)
    requires NoResolveFailure(ms, net.resolveHandle) && Produces(ms, [], net.resolveHandle)
    ensures AddFacetsAsWritten(post, ms, [], net) == Failure(PageRequestError(""))
    ensures var r := AddFacets(post, ms, [], net);
            && r.Success?
            && r.value.facets == Some(FacetList(ms, [], net.resolveHandle).value)
            && r.value.embed == post.embed
  {
  }

  /** A facet that marks what it claims in the UTF-8 bytes `b`: a URL that
      begins with a scheme, or `@` and a handle that resolves to its
      identifier. */
  ghost predicate Faithful(b: seq<byte>, f: Facet, resolve: string -> Resolution) {
    && f.byteStart < f.byteEnd <= |b|
    && match f.feature
       case Link(uri) =>
         && Utf8.Encode(uri) == b[f.byteStart..f.byteEnd]
         && ("http://" <= uri || "https://" <= uri)
       case Mention(did) =>
         exists h :: resolve(h) == Resolved(did) && Utf8.Encode("@" + h) == b[f.byteStart..f.byteEnd]
  }

  /** A facet that marks what it claims in the encoding of `text` starts on
      a character boundary: its byte offset is the length of the encoding of
      the characters before it, and the character there is the `@` of the
      mention or the `h` of the scheme. */
  lemma FacetStartsOnCharacter(text: string, f: Facet, resolve: string -> Resolution)
    requires Faithful(Utf8.Encode(text), f, resolve)
    ensures exists j :: && 0 <= j < |text|
                        && |Utf8.Encode(text[..j])| == f.byteStart
                        && text[j] == (if f.feature.Link? then 'h' else '@')
  {
    var b := Utf8.Encode(text);
    var lead: string;
    match f.feature {
      case Link(uri) =>
        lead := uri;
      case Mention(did) =>
        var h :| resolve(h) == Resolved(did) && Utf8.Encode("@" + h) == b[f.byteStart..f.byteEnd];
        lead := "@" + h;
    }
    assert Utf8.Encode(lead) == b[f.byteStart..f.byteEnd];
    assert lead[0] == (if f.feature.Link? then 'h' else '@');
    assert b[f.byteStart] == Utf8.Encode(lead)[0];
    var j := Utf8.AsciiByteIsCharacter(text, f.byteStart);
    assert text[j] == (if f.feature.Link? then 'h' else '@');
  }

  /** Every span's text, after `lead`, encodes exactly its bytes of `b`. */
  predicate SpansEncode(b: seq<byte>, spans: seq<Span>, lead: string) {
    forall k :: 0 <= k < |spans| ==>
      && spans[k].start < spans[k].end <= |b|
      && Utf8.Encode(lead + spans[k].text) == b[spans[k].start..spans[k].end]
  }

  lemma MentionFacetFaithful(b: seq<byte>, ms: seq<Span>, k: nat, f: Facet, resolve: string -> Resolution)
    requires SpansEncode(b, ms, "@") && k < |ms| && Resolves(ms[k], resolve, f)
    ensures Faithful(b, f, resolve)
  {
    assert resolve(ms[k].text) == Resolved(f.feature.did);
  }

  lemma LinkFacetFaithful(b: seq<byte>, urls: seq<Span>, k: nat, resolve: string -> Resolution)
    requires SpansEncode(b, urls, "") && k < |urls|
    requires "http://" <= urls[k].text || "https://" <= urls[k].text
    ensures Faithful(b, LinkFacet(urls[k]), resolve)
  {
    assert "" + urls[k].text == urls[k].text;
  }

  /** Mention facets drawn from resolving spans, followed by one link facet
      per URL span, all mark what they claim. */
  lemma FacetsFaithful(b: seq<byte>, ms: seq<Span>, urls: seq<Span>, fs: seq<Facet>, n: nat,
                       resolve: string -> Resolution)
    requires SpansEncode(b, ms, "@") && SpansEncode(b, urls, "")
    requires forall k :: 0 <= k < |urls| ==> "http://" <= urls[k].text || "https://" <= urls[k].text
    requires n + |urls| == |fs|
    requires forall f :: f in fs[..n] ==> exists k :: 0 <= k < |ms| && Resolves(ms[k], resolve, f)
    requires forall k :: 0 <= k < |urls| ==> fs[n + k] == LinkFacet(urls[k])
    ensures forall i :: 0 <= i < |fs| ==> Faithful(b, fs[i], resolve)
  {
    forall i | 0 <= i < |fs|
      ensures Faithful(b, fs[i], resolve)
    {
      if i < n {
        assert fs[i] in fs[..n];
        var k :| 0 <= k < |ms| && Resolves(ms[k], resolve, fs[i]);
        MentionFacetFaithful(b, ms, k, fs[i], resolve);
      } else {
        assert fs[n + (i - n)] == LinkFacet(urls[i - n]);
        LinkFacetFaithful(b, urls, i - n, resolve);
      }
    }
  }

  /** The facet list built from well-formed spans marks what it claims. */
  lemma FacetListFaithful(b: seq<byte>, ms: seq<Span>, urls: seq<Span>, resolve: string -> Resolution)
    requires SpansEncode(b, ms, "@") && SpansEncode(b, urls, "")
    requires forall k :: 0 <= k < |urls| ==> "http://" <= urls[k].text || "https://" <= urls[k].text
    requires FacetList(ms, urls, resolve).Success?
    ensures var fs := FacetList(ms, urls, resolve).value;
            forall i :: 0 <= i < |fs| ==> Faithful(b, fs[i], resolve)
  {
    var fs := FacetList(ms, urls, resolve).value;
    FacetsFaithful(b, ms, urls, fs, |fs| - |urls|, resolve);
  }

  lemma ScannedSpansEncode(text: string)
    ensures SpansEncode(Utf8.Encode(text), Mentions.ParseMentions(text), "@")
    ensures SpansEncode(Utf8.Encode(text), Urls.ParseUrls(text), "")
    ensures var urls := Urls.ParseUrls(text);
            forall k :: 0 <= k < |urls| ==> "http://" <= urls[k].text || "https://" <= urls[k].text
  {
    var urls := Urls.ParseUrls(text);
    forall k | 0 <= k < |urls| ensures "" + urls[k].text == urls[k].text { }
  }

  /** `parse_facets(post, text)`, with `text` the post's own text: mentions
      and URLs are scanned in the UTF-8 encoding of the text.  Whatever it
      changes is facets that mark what they claim, and a card for the last
      URL. */
  function ParseFacets(post: Post, net: Net): (r: Result<Post, Fatal>)
    ensures var urls := Urls.ParseUrls(post.text);
            r.Success? <==>
              && NoResolveFailure(Mentions.ParseMentions(post.text), net.resolveHandle)
              && (|urls| > 0 ==> Card.FetchCard(LastUrl(urls), net).Success?)
    ensures r.Success? &&
            !Produces(Mentions.ParseMentions(post.text), Urls.ParseUrls(post.text), net.resolveHandle) ==>
              r.value == post
    ensures r.Success? ==>
              && r.value.recordType == post.recordType
              && r.value.text == post.text
              && r.value.createdAt == post.createdAt
    ensures r.Success? &&
            Produces(Mentions.ParseMentions(post.text), Urls.ParseUrls(post.text), net.resolveHandle) ==>
              r.value.facets.Some?
    ensures r.Success? && r.value.facets != post.facets ==>
              && r.value.facets.Some?
              && forall i :: 0 <= i < |r.value.facets.value| ==>
                   Faithful(Utf8.Encode(post.text), r.value.facets.value[i], net.resolveHandle)
    ensures r.Success? && r.value.embed != post.embed ==>
              && r.value.facets.Some?
              && r.value.embed.Some?
              && r.value.embed.value.embedType == ExternalEmbedType
              && r.value.embed.value.external.uri == LastUrl(Urls.ParseUrls(post.text))
  {
    ScannedFacets(post, Mentions.ParseMentions(post.text), Urls.ParseUrls(post.text), net);
    AddFacets(post, Mentions.ParseMentions(post.text), Urls.ParseUrls(post.text), net)
  }

  /** The facets built from the spans the scanners find in a post's text
      mark what they claim in its encoding, and a changed embed is the card
      of the last URL. */
  lemma ScannedFacets(post: Post, ms: seq<Span>, urls: seq<Span>, net: Net)
    requires ms == Mentions.ParseMentions(post.text) && urls == Urls.ParseUrls(post.text)
    ensures var r := AddFacets(post, ms, urls, net);
            r.Success? && r.value.facets != post.facets ==>
              && r.value.facets.Some?
              && forall i :: 0 <= i < |r.value.facets.value| ==>
                   Faithful(Utf8.Encode(post.text), r.value.facets.value[i], net.resolveHandle)
    ensures var r := AddFacets(post, ms, urls, net);
            r.Success? && r.value.embed != post.embed ==>
              && r.value.facets.Some?
              && r.value.embed.Some?
              && r.value.embed.value.embedType == ExternalEmbedType
              && r.value.embed.value.external.uri == LastUrl(urls)
  {
    var r := AddFacets(post, ms, urls, net);
    if r.Success? && Produces(ms, urls, net.resolveHandle) {
      ScannedSpansEncode(post.text);
      FacetListFaithful(Utf8.Encode(post.text), ms, urls, net.resolveHandle);
    }
  }

  /** `parse_facets(post, text)` as written, on the spans scanned from the
      post's text. */
  function ParseFacetsAsWritten(post: Post, net: Net): (r: Result<Post, Fatal>)
    ensures var ms := Mentions.ParseMentions(post.text);
            var urls := Urls.ParseUrls(post.text);
            r.Success? <==>
              && NoResolveFailure(ms, net.resolveHandle)
              && (Produces(ms, urls, net.resolveHandle) ==> Card.FetchCard(LastUrl(urls), net).Success?)
    ensures |Urls.ParseUrls(post.text)| > 0 ||
            !Produces(Mentions.ParseMentions(post.text), Urls.ParseUrls(post.text), net.resolveHandle) ==>
              r == ParseFacets(post, net)
  {
    AddFacetsAsWritten(post, Mentions.ParseMentions(post.text), Urls.ParseUrls(post.text), net)
  }

  /** A text with a mention that resolves, none whose lookup fails, and no
      URL: as written the run ends with the failed card request for `""`;
      the fixed `ParseFacets` gives the post its mention facets and no
      embed. */
  lemma MentionOnlyText(post: Post, net: Net)
    requires Urls.ParseUrls(post.text) == []
    requires NoResolveFailure(Mentions.ParseMentions(post.text), net.resolveHandle)
    requires Produces(Mentions.ParseMentions(post.text), [], net.resolveHandle)
    ensures ParseFacetsAsWritten(post, net) == Failure(PageRequestError(""))
    ensures var r := ParseFacets(post, net);
            && r.Success?
            && r.value.facets.Some?
            && r.value.embed == post.embed
  {
    MentionWithoutUrl(post, Mentions.ParseMentions(post.text), net);
  }
}
