/** `parse_urls`: the URL pattern of gateway.py run over the UTF-8 bytes of
    a post.  The pattern is
      `[$|\W](https?://(www\.)?HOST{1,256}\.TLD{1,6}\b(PATH*END)?)` with
      HOST = `[-a-zA-Z0-9@:%._+~#=]`, TLD = `[a-zA-Z0-9()]`,
      PATH = `[-a-zA-Z0-9()@:%_+.~#?&/=]`, END = `[-a-zA-Z0-9@%_+~#/=]`.
    `UrlMatch` is the matching procedure of a backtracking engine written
    out by hand (greedy counts tried from the largest down); `UrlParts` is
    the language it accepts, stated as a decomposition into cut points. */
module Urls {
  import opened Wrappers
  import opened Bytes
  import opened Scan
  import Utf8

  predicate IsHostByte(c: byte) {
    IsAlnum(c) || IsChar(c, '-') || IsChar(c, '@') || IsChar(c, ':') || IsChar(c, '%') || IsChar(c, '.')
    || IsChar(c, '_') || IsChar(c, '+') || IsChar(c, '~') || IsChar(c, '#') || IsChar(c, '=')
  }

  predicate IsTldByte(c: byte) {
    IsAlnum(c) || IsChar(c, '(') || IsChar(c, ')')
  }

  predicate IsPathByte(c: byte) {
    IsAlnum(c) || IsChar(c, '-') || IsChar(c, '(') || IsChar(c, ')') || IsChar(c, '@') || IsChar(c, ':')
    || IsChar(c, '%') || IsChar(c, '_') || IsChar(c, '+') || IsChar(c, '.') || IsChar(c, '~') || IsChar(c, '#')
    || IsChar(c, '?') || IsChar(c, '&') || IsChar(c, '/') || IsChar(c, '=')
  }

  predicate IsPathEndByte(c: byte) {
    IsAlnum(c) || IsChar(c, '-') || IsChar(c, '@') || IsChar(c, '%') || IsChar(c, '_') || IsChar(c, '+')
    || IsChar(c, '~') || IsChar(c, '#') || IsChar(c, '/') || IsChar(c, '=')
  }

  /** `\b` of a byte pattern at position `x`: exactly one of the bytes
      around `x` is a word byte (outside `b` counts as non-word). */
  predicate IsWordBoundary(b: seq<byte>, x: nat)
    requires x <= |b|
  {
    (x > 0 && IsWordByte(b[x - 1])) != (x < |b| && IsWordByte(b[x]))
  }

  // ---------------------------------------------------------------------
  // The grammar

  /** `https?://` occupies `[s, h)`. */
  predicate SchemeAt(b: seq<byte>, s: nat, h: nat) {
    (h == s + 7 && LiteralAt(b, s, "http://")) || (h == s + 8 && LiteralAt(b, s, "https://"))
  }

  /** `https?://(www\.)?` occupies `[s, a)`. */
  predicate PrefixAt(b: seq<byte>, s: nat, a: nat) {
    SchemeAt(b, s, a) || (a >= s + 4 && SchemeAt(b, s, a - 4) && LiteralAt(b, a - 4, "www."))
  }

  /** The cut points after `https?://(www\.)?`, which ended at `a`: 1 to
      256 host bytes up to the dot at `d`, 1 to 6 top-level bytes up to `k`
      where a word boundary lies, then either nothing or path bytes ending
      with an END byte, up to `e`. */
  predicate HostParts(b: seq<byte>, a: nat, d: nat, k: nat, e: nat) {
    && a < d && d + 1 < k <= e <= |b|
    && d <= a + 256 && (forall x :: a <= x < d ==> IsHostByte(b[x]))
    && b[d] == DOT
    && k <= d + 7 && (forall x :: d < x < k ==> IsTldByte(b[x]))
    && IsWordBoundary(b, k)
    && (e == k || ((forall x :: k <= x < e ==> IsPathByte(b[x])) && IsPathEndByte(b[e - 1])))
  }

  /** The cut points of a URL at `[s, e)`. */
  predicate UrlParts(b: seq<byte>, s: nat, a: nat, d: nat, k: nat, e: nat) {
    PrefixAt(b, s, a) && HostParts(b, a, d, k, e)
  }

  /** A URL of the pattern occupies `[s, e)`. */
  ghost predicate IsUrlAt(b: seq<byte>, s: nat, e: nat) {
    exists a: nat, d: nat, k: nat :: UrlParts(b, s, a, d, k, e)
  }

  // ---------------------------------------------------------------------
  // The matching procedure

  /** `https?://` at `p`: the optional `s` is tried first, and without it
      the `:` would have to stand where the `s` is, so at most one applies. */
  function SchemeEnd(b: seq<byte>, p: nat): (r: Option<nat>)
    ensures r.Some? ==> SchemeAt(b, p, r.value)
  {
    if LiteralAt(b, p, "https://") then Some(p + 8)
    else if LiteralAt(b, p, "http://") then Some(p + 7)
    else None
  }

  function HostRunEnd(b: seq<byte>, p: nat): (q: nat)
    requires p <= |b|
    ensures p <= q <= |b|
    ensures forall i :: p <= i < q ==> IsHostByte(b[i])
    ensures q < |b| ==> !IsHostByte(b[q])
    decreases |b| - p
  {
    if p == |b| || !IsHostByte(b[p]) then p else HostRunEnd(b, p + 1)
  }

  function TldRunEnd(b: seq<byte>, p: nat): (q: nat)
    requires p <= |b|
    ensures p <= q <= |b|
    ensures forall i :: p <= i < q ==> IsTldByte(b[i])
    ensures q < |b| ==> !IsTldByte(b[q])
    decreases |b| - p
  {
    if p == |b| || !IsTldByte(b[p]) then p else TldRunEnd(b, p + 1)
  }

  function PathRunEnd(b: seq<byte>, p: nat): (q: nat)
    requires p <= |b|
    ensures p <= q <= |b|
    ensures forall i :: p <= i < q ==> IsPathByte(b[i])
    ensures q < |b| ==> !IsPathByte(b[q])
    decreases |b| - p
  {
    if p == |b| || !IsPathByte(b[p]) then p else PathRunEnd(b, p + 1)
  }

  function Min(x: int, y: int): int {
    if x < y then x else y
  }

  /** `TLD{1,6}\b` at `t` with `m` top-level bytes available: the greedy
      count backs off one byte at a time until `\b` holds. */
  function TldTry(b: seq<byte>, t: nat, m: nat): (r: Option<nat>)
    requires t + m <= |b|
    ensures r.Some? ==> t < r.value <= t + m && IsWordBoundary(b, r.value)
    ensures r.Some? ==> forall x :: r.value < x <= t + m ==> !IsWordBoundary(b, x)
    ensures r.None? ==> forall x :: t < x <= t + m ==> !IsWordBoundary(b, x)
  {
    if m == 0 then None
    else if IsWordBoundary(b, t + m) then Some(t + m)
    else TldTry(b, t, m - 1)
  }

  /** A dot at `d` followed by top-level bytes up to `k`, as many as
      `\.TLD{1,6}` allows. */
  predicate TldAfter(b: seq<byte>, d: nat, k: nat) {
    && d + 1 < k <= |b| && k <= d + 7
    && b[d] == DOT
    && forall x :: d < x < k ==> IsTldByte(b[x])
  }

  /** Where the dot and the end of the top-level part fall. */
  datatype Cut = Cut(dot: nat, tldEnd: nat)

  /** `HOST{1,256}\.TLD{1,6}\b` at `a`, with the host count at most `n`:
      the greedy count backs off one byte at a time until a dot and a
      top-level part ending on a word boundary follow. */
  function HostTry(b: seq<byte>, a: nat, n: nat): (r: Option<Cut>)
    requires a + n <= |b|
    ensures r.Some? ==>
              && a < r.value.dot <= a + n
              && r.value.dot + 1 < r.value.tldEnd <= r.value.dot + 7 && r.value.tldEnd <= |b|
              && b[r.value.dot] == DOT
              && (forall x :: r.value.dot < x < r.value.tldEnd ==> IsTldByte(b[x]))
              && IsWordBoundary(b, r.value.tldEnd)
    ensures r.Some? ==>
              forall k: nat :: r.value.tldEnd < k && TldAfter(b, r.value.dot, k) ==> !IsWordBoundary(b, k)
    ensures r.Some? ==>
              forall d: nat, k: nat :: r.value.dot < d <= a + n && TldAfter(b, d, k) ==> !IsWordBoundary(b, k)
  {
    if n == 0 then
      None
    else
      var q := a + n;
      if q < |b| && b[q] == DOT then
        var m := Min(6, TldRunEnd(b, q + 1) - (q + 1));
        match TldTry(b, q + 1, m)
        case Some(k) => Some(Cut(q, k))
        case None => HostTry(b, a, n - 1)
      else
        HostTry(b, a, n - 1)
  }

  /** `(PATH*END)?` at `k`: the longest run of path bytes that ends with an
      END byte, or nothing. */
  function LastPathEnd(b: seq<byte>, k: nat, x: nat): (e: nat)
    requires k <= x <= |b|
    ensures k <= e <= x
    ensures e > k ==> IsPathEndByte(b[e - 1])
    ensures forall y :: e <= y < x ==> !IsPathEndByte(b[y])
    decreases x
  {
    if x == k then k else if IsPathEndByte(b[x - 1]) then x else LastPathEnd(b, k, x - 1)
  }

  function TailEnd(b: seq<byte>, k: nat): (e: nat)
    requires k <= |b|
    ensures k <= e <= |b|
    ensures e == k || ((forall x :: k <= x < e ==> IsPathByte(b[x])) && IsPathEndByte(b[e - 1]))
  {
    LastPathEnd(b, k, PathRunEnd(b, k))
  }

  /** Everything after `https?://(www\.)?`, from `a`.  The tail is optional
      and always matches, so the first host count that works decides. */
  function HostFrom(b: seq<byte>, a: nat): (r: Option<nat>)
    requires a <= |b|
  {
    match HostTry(b, a, Min(256, HostRunEnd(b, a) - a))
    case Some(cut) => Some(TailEnd(b, cut.tldEnd))
    case None => None
  }

  /** The whole pattern tried at `i`: the end of the match, if any.  The
      optional `www.` is tried first. */
  function UrlMatch(b: seq<byte>, i: nat): (r: Option<nat>)
    ensures r.Some? ==> i + 1 < r.value <= |b|
  {
    if i < |b| && IsPrefixByte(b[i]) then
      match SchemeEnd(b, i + 1)
      case None => None
      case Some(h) =>
        if LiteralAt(b, h, "www.") then
          match HostFrom(b, h + 4)
          case Some(e) => Some(e)
          case None => HostFrom(b, h)
        else
          HostFrom(b, h)
    else
      None
  }

  // ---------------------------------------------------------------------
  // The matching procedure accepts exactly the grammar

  lemma HostFromSound(b: seq<byte>, a: nat) returns (d: nat, k: nat)
    requires a <= |b| && HostFrom(b, a).Some?
    ensures HostParts(b, a, d, k, HostFrom(b, a).value)
  {
    var cut := HostTry(b, a, Min(256, HostRunEnd(b, a) - a)).value;
    d, k := cut.dot, cut.tldEnd;
  }

  /** The cut points of what `UrlMatch` accepts. */
  lemma UrlMatchParts(b: seq<byte>, i: nat) returns (a: nat, d: nat, k: nat)
    requires UrlMatch(b, i).Some?
    ensures IsPrefixByte(b[i]) && UrlParts(b, i + 1, a, d, k, UrlMatch(b, i).value)
  {
    var h := SchemeEnd(b, i + 1).value;
    a := if LiteralAt(b, h, "www.") && HostFrom(b, h + 4).Some? then h + 4 else h;
    assert PrefixAt(b, i + 1, a);
    assert HostFrom(b, a) == UrlMatch(b, i);
    d, k := HostFromSound(b, a);
  }

  /** Whatever `UrlMatch` accepts is a URL behind a prefix byte. */
  lemma UrlMatchSound(b: seq<byte>, i: nat)
    requires UrlMatch(b, i).Some?
    ensures IsPrefixByte(b[i]) && IsUrlAt(b, i + 1, UrlMatch(b, i).value)
  {
    var a, d, k := UrlMatchParts(b, i);
  }

  /** A scheme in the text is always the one `SchemeEnd` reads. */
  lemma SchemeUnique(b: seq<byte>, s: nat, h: nat)
    requires SchemeAt(b, s, h)
    ensures SchemeEnd(b, s) == Some(h)
  {
    if h == s + 7 && LiteralAt(b, s, "http://") {
      assert IsChar(b[s + 4], "http://"[4]);
      assert !IsChar(b[s + 4], "https://"[4]);
    }
  }

  lemma {:induction false} HostTryComplete(b: seq<byte>, a: nat, n: nat, d: nat, k: nat)
    requires a + n <= |b| && a < d <= a + n && d + 1 < k <= |b| && k <= d + 7 && b[d] == DOT
    requires forall x :: d < x < k ==> IsTldByte(b[x])
    requires IsWordBoundary(b, k)
    ensures HostTry(b, a, n).Some?
    decreases n
  {
    if a + n == d {
      var run := TldRunEnd(b, d + 1);
      assert k <= run;
      assert TldTry(b, d + 1, Min(6, run - (d + 1))).Some?;
    } else {
      HostTryComplete(b, a, n - 1, d, k);
    }
  }

  lemma HostFromComplete(b: seq<byte>, a: nat, d: nat, k: nat, e: nat)
    requires HostParts(b, a, d, k, e)
    ensures HostFrom(b, a).Some?
  {
    var run := HostRunEnd(b, a);
    assert d <= run;
    HostTryComplete(b, a, Min(256, run - a), d, k);
  }

  /** A URL behind a prefix byte is always matched at that byte. */
  lemma UrlMatchComplete(b: seq<byte>, i: nat, e: nat)
    requires i < |b| && IsPrefixByte(b[i]) && IsUrlAt(b, i + 1, e)
    ensures UrlMatch(b, i).Some?
  {
    var a: nat, d: nat, k: nat :| UrlParts(b, i + 1, a, d, k, e);
    HostFromComplete(b, a, d, k, e);
    if SchemeAt(b, i + 1, a) {
      SchemeUnique(b, i + 1, a);
    } else {
      SchemeUnique(b, i + 1, a - 4);
    }
  }

  // ---------------------------------------------------------------------
  // The scanner

  lemma LiteralIsAscii(b: seq<byte>, p: nat, lit: string)
    requires LiteralAt(b, p, lit) && forall k :: 0 <= k < |lit| ==> lit[k] as int < 0x80
    ensures forall x :: p <= x < p + |lit| ==> IsAscii(b[x])
  {
    forall x | p <= x < p + |lit|
      ensures IsAscii(b[x])
    {
      assert IsChar(b[p + (x - p)], lit[x - p]);
    }
  }

  /** Every byte of a URL is ASCII. */
  lemma UrlIsAscii(b: seq<byte>, s: nat, a: nat, d: nat, k: nat, e: nat)
    requires UrlParts(b, s, a, d, k, e)
    ensures AllAscii(b[s..e])
  {
    var h := if SchemeAt(b, s, a) then a else a - 4;
    assert SchemeAt(b, s, h);
    if h == s + 7 && LiteralAt(b, s, "http://") {
      LiteralIsAscii(b, s, "http://");
    } else {
      LiteralIsAscii(b, s, "https://");
    }
    if h != a {
      LiteralIsAscii(b, h, "www.");
    }
    forall x | s <= x < e
      ensures IsAscii(b[x])
    {
      if x < h {
      } else if x < a {
      } else if x < d {
        assert IsHostByte(b[x]);
      } else if x == d {
      } else if x < k {
        assert IsTldByte(b[x]);
      } else {
        assert IsPathByte(b[x]);
      }
    }
  }

  /** The text of a URL starts with its scheme. */
  lemma SchemeStartsText(b: seq<byte>, s: nat, a: nat, e: nat)
    requires PrefixAt(b, s, a) && a <= e <= |b| && AllAscii(b[s..e])
    ensures "http://" <= AsciiDecode(b[s..e]) || "https://" <= AsciiDecode(b[s..e])
  {
    var url := AsciiDecode(b[s..e]);
    var h := if SchemeAt(b, s, a) then a else a - 4;
    assert SchemeAt(b, s, h);
    var lit := if h == s + 7 then "http://" else "https://";
    assert LiteralAt(b, s, lit);
    forall x | 0 <= x < |lit|
      ensures url[x] == lit[x]
    {
      assert IsChar(b[s + x], lit[x]);
      assert url[x] as int == b[s + x] as int;
    }
    assert lit <= url;
  }

  /** The bytes `[s, e)` are ASCII, and their text starts with a scheme and
      encodes back to them. */
  predicate IsUrlText(b: seq<byte>, s: nat, e: nat)
    requires s <= e <= |b|
  {
    && AllAscii(b[s..e])
    && var url := AsciiDecode(b[s..e]);
       && ("http://" <= url || "https://" <= url)
       && Utf8.Encode(url) == b[s..e]
  }

  /** The bytes of a URL of the pattern are ASCII, and their text starts
      with its scheme and encodes back to them. */
  lemma UrlAtText(b: seq<byte>, s: nat, e: nat)
    requires IsUrlAt(b, s, e)
    ensures s <= e <= |b| && IsUrlText(b, s, e)
  {
    var a: nat, d: nat, k: nat :| UrlParts(b, s, a, d, k, e);
    UrlPartsText(b, s, a, d, k, e);
  }

  lemma UrlPartsText(b: seq<byte>, s: nat, a: nat, d: nat, k: nat, e: nat)
    requires UrlParts(b, s, a, d, k, e)
    ensures s <= e <= |b| && IsUrlText(b, s, e)
  {
    UrlIsAscii(b, s, a, d, k, e);
    SchemeStartsText(b, s, a, e);
    Utf8.AsciiRoundTrip(b[s..e]);
  }

  /** A match behind its prefix byte: group 1 spans `[at + 1, end)`. */
  ghost predicate UrlMatched(b: seq<byte>, m: Match) {
    m.at < |b| && IsPrefixByte(b[m.at]) && IsUrlAt(b, m.at + 1, m.end)
  }

  /** A reported URL span: a URL behind a prefix byte, whose text starts
      with its scheme and encodes back to the span's bytes. */
  ghost predicate IsUrlSpan(b: seq<byte>, s: Span) {
    && 1 <= s.start < s.end <= |b|
    && IsPrefixByte(b[s.start - 1])
    && IsUrlAt(b, s.start, s.end)
    && ("http://" <= s.text || "https://" <= s.text)
    && Utf8.Encode(s.text) == b[s.start..s.end]
  }

  /** The span of one match: group 1 starts after the prefix byte. */
  function UrlSpan(b: seq<byte>, m: Match): (s: Span)
    requires UrlMatched(b, m)
    ensures s.start == m.at + 1 && s.end == m.end
    ensures IsUrlSpan(b, s)
  {
    UrlAtText(b, m.at + 1, m.end);
    Span(m.at + 1, m.end, AsciiDecode(b[m.at + 1..m.end]))
  }

  function UrlSpans(b: seq<byte>, ms: seq<Match>): (r: seq<Span>)
    requires forall k :: 0 <= k < |ms| ==> UrlMatched(b, ms[k])
    ensures |r| == |ms|
    ensures forall k :: 0 <= k < |ms| ==> r[k] == UrlSpan(b, ms[k])
  {
    seq(|ms|, k requires 0 <= k < |ms| => UrlSpan(b, ms[k]))
  }

  lemma UrlMatchConsumes(b: seq<byte>)
    ensures Consumes(UrlMatch, b)
  {
  }

  /** `parse_urls` on the UTF-8 bytes `b` of the text.  Every span is a URL
      behind a prefix byte starting with `http://` or `https://`, the spans
      come in order without touching, and encoding the URL reproduces the
      span's bytes. */
  function ScanUrls(b: seq<byte>): (r: seq<Span>)
    ensures Ordered(r)
    ensures forall k :: 0 <= k < |r| ==> IsUrlSpan(b, r[k])
  {
    UrlMatchConsumes(b);
    var ms := FindAll(b, UrlMatch, 0);
    assert forall k :: 0 <= k < |ms| ==> UrlMatched(b, ms[k]) by {
      forall k | 0 <= k < |ms|
        ensures UrlMatched(b, ms[k])
      {
        UrlMatchSound(b, ms[k].at);
      }
    }
    UrlSpans(b, ms)
  }

  /** The scanner misses no URL: a URL behind a prefix byte lies inside a
      reported span, or its prefix byte is the last byte of one. */
  lemma UrlsFound(b: seq<byte>, i: nat, e: nat)
    requires i < |b| && IsPrefixByte(b[i]) && IsUrlAt(b, i + 1, e)
    ensures exists k :: 0 <= k < |ScanUrls(b)| && ScanUrls(b)[k].start - 1 <= i < ScanUrls(b)[k].end
  {
    UrlMatchComplete(b, i, e);
    UrlMatchConsumes(b);
    var k := FindAllCovers(b, UrlMatch, 0, i);
    var ms := FindAll(b, UrlMatch, 0);
    var r := ScanUrls(b);
    assert r == UrlSpans(b, ms);
    assert r[k] == UrlSpan(b, ms[k]);
    assert r[k].start - 1 <= i < r[k].end;
  }

  /** `parse_urls(text)`: the scanner over `text.encode("UTF-8")`. */
  function ParseUrls(text: string): seq<Span>
  {
    ScanUrls(Utf8.Encode(text))
  }
}
