/** `parse_mentions`: the handle pattern of gateway.py run over the UTF-8
    bytes of a post.  The pattern is
      `[$|\W](@(LABEL\.)+TOP)` with
      LABEL = `[a-zA-Z0-9]([a-zA-Z0-9-]{0,61}[a-zA-Z0-9])?` and
      TOP   = `[a-zA-Z]([a-zA-Z0-9-]{0,61}[a-zA-Z0-9])?`,
    the handle syntax of the AT Protocol.  `MentionMatch` is the matching
    procedure of a backtracking engine written out by hand; `IsHandle` is the
    language it accepts, stated independently through the dot-split of the
    handle. */
module Mentions {
  import opened Wrappers
  import opened Bytes
  import opened Scan
  import Utf8

  /** `[a-zA-Z0-9-]` */
  predicate IsLabelByte(c: byte) {
    IsAlnum(c) || IsChar(c, '-')
  }

  // ---------------------------------------------------------------------
  // The grammar

  /** Index of the first `.` in `x`, or `|x|` when there is none. */
  function FirstDot(x: seq<byte>): (j: nat)
    ensures j <= |x|
    ensures j < |x| ==> x[j] == DOT
    ensures forall i :: 0 <= i < j ==> x[i] != DOT
  {
    if |x| == 0 then 0 else if x[0] == DOT then 0 else 1 + FirstDot(x[1..])
  }

  /** One label: 1 to 63 letters, digits and hyphens, starting and ending
      with a letter or digit. */
  predicate IsLabel(l: seq<byte>) {
    && 1 <= |l| <= 63
    && (forall i :: 0 <= i < |l| ==> IsLabelByte(l[i]))
    && IsAlnum(l[0])
    && IsAlnum(l[|l| - 1])
  }

  /** The last label of a handle must also start with a letter. */
  predicate IsTopLabel(l: seq<byte>) {
    IsLabel(l) && IsAlpha(l[0])
  }

  /** NAME = TOPLABEL | LABEL "." NAME: dot-separated labels, the last of
      them a top label.  Labels contain no dot, so the first label is
      everything before the first dot. */
  predicate IsDottedName(x: seq<byte>)
    decreases |x|
  {
    var j := FirstDot(x);
    if j == |x| then IsTopLabel(x) else IsLabel(x[..j]) && IsDottedName(x[j + 1..])
  }

  /** A handle: a dotted name of at least two labels, that is, with a dot. */
  predicate IsHandle(x: seq<byte>) {
    FirstDot(x) < |x| && IsDottedName(x)
  }

  /** A mention at `[start, end)` of `b`: `@` and a handle. */
  predicate IsMentionAt(b: seq<byte>, start: nat, end: nat) {
    start < end <= |b| && b[start] == AT && IsHandle(b[start + 1..end])
  }

  // ---------------------------------------------------------------------
  // The matching procedure

  /** End of the run of label bytes starting at `p`. */
  function LabelRunEnd(b: seq<byte>, p: nat): (q: nat)
    requires p <= |b|
    ensures p <= q <= |b|
    ensures forall i :: p <= i < q ==> IsLabelByte(b[i])
    ensures q < |b| ==> !IsLabelByte(b[q])
    decreases |b| - p
  {
    if p == |b| || !IsLabelByte(b[p]) then p else LabelRunEnd(b, p + 1)
  }

  /** One iteration of `(LABEL\.)` at `p`: the position after the dot.
      LABEL cannot contain a dot, so the label must be the whole run of
      label bytes at `p`, and that run must be followed by a dot. */
  function LabelDotAt(b: seq<byte>, p: nat): (r: Option<nat>)
    requires p <= |b|
    ensures r.Some? ==> p + 1 < r.value <= |b| && b[r.value - 1] == DOT && IsLabel(b[p..r.value - 1])
  {
    var q := LabelRunEnd(b, p);
    if q < |b| && b[q] == DOT && IsLabel(b[p..q]) then Some(q + 1) else None
  }

  /** The greedy `([a-zA-Z0-9-]{0,61}[a-zA-Z0-9])?` after a first byte at
      `p` backtracks to the last letter or digit at or before `x`. */
  function LastAlnumEnd(b: seq<byte>, p: nat, x: nat): (e: nat)
    requires p < x <= |b| && IsAlnum(b[p])
    ensures p < e <= x && IsAlnum(b[e - 1])
    ensures forall y :: e <= y < x ==> !IsAlnum(b[y])
    decreases x
  {
    if IsAlnum(b[x - 1]) then x else LastAlnumEnd(b, p, x - 1)
  }

  /** TOP at `p`: a letter, then the longest stretch of at most 62 more
      label bytes that ends with a letter or digit. */
  function TopEnd(b: seq<byte>, p: nat): (r: Option<nat>)
    requires p <= |b|
    ensures r.Some? <==> p < |b| && IsAlpha(b[p])
    ensures r.Some? ==> p < r.value <= |b| && IsTopLabel(b[p..r.value])
  {
    if p < |b| && IsAlpha(b[p]) then
      var q := LabelRunEnd(b, p);
      var e := LastAlnumEnd(b, p, if q < p + 63 then q else p + 63);
      assert forall i :: p <= i < e ==> IsLabelByte(b[i]);
      Some(e)
    else
      None
  }

  /** `(LABEL\.)+TOP` after at least one iteration, which ended at `p`:
      the greedy `+` first tries another iteration and, if what follows it
      fails, backtracks and tries TOP at `p`. */
  function MentionTail(b: seq<byte>, p: nat): (r: Option<nat>)
    requires p <= |b|
    ensures r.Some? ==> p < r.value <= |b|
    decreases |b| - p
  {
    match LabelDotAt(b, p)
    case Some(p') =>
      (match MentionTail(b, p')
       case Some(e) => Some(e)
       case None => TopEnd(b, p))
    case None => TopEnd(b, p)
  }

  /** The whole pattern tried at `i`: the end of the match, if any. */
  function MentionMatch(b: seq<byte>, i: nat): (r: Option<nat>)
    ensures r.Some? ==> i + 1 < r.value <= |b|
  {
    if i + 1 < |b| && IsPrefixByte(b[i]) && b[i + 1] == AT then
      match LabelDotAt(b, i + 2)
      case Some(p) => MentionTail(b, p)
      case None => None
    else
      None
  }

  // ---------------------------------------------------------------------
  // The matching procedure accepts exactly the grammar

  lemma {:induction false} MentionTailSound(b: seq<byte>, p: nat)
    requires p <= |b| && MentionTail(b, p).Some?
    ensures IsDottedName(b[p..MentionTail(b, p).value])
    decreases |b| - p
  {
    var e := MentionTail(b, p).value;
    match LabelDotAt(b, p)
    case Some(p') =>
      if MentionTail(b, p').Some? {
        MentionTailSound(b, p');
        IterationThenName(b, p, p', e);
      } else {
        TopIsName(b, p, e);
      }
    case None =>
      TopIsName(b, p, e);
  }

  lemma TopIsName(b: seq<byte>, p: nat, e: nat)
    requires p < e <= |b| && IsTopLabel(b[p..e])
    ensures IsDottedName(b[p..e])
  {
    var x := b[p..e];
    assert forall i :: 0 <= i < |x| ==> x[i] != DOT by {
      assert forall i :: 0 <= i < |x| ==> IsLabelByte(x[i]);
    }
    assert FirstDot(x) == |x|;
  }

  /** A label, a dot and a name make a handle. */
  lemma LabelDotName(l: seq<byte>, rest: seq<byte>)
    requires IsLabel(l) && IsDottedName(rest)
    ensures IsHandle(l + [DOT] + rest)
  {
    var x := l + [DOT] + rest;
    assert forall i :: 0 <= i < |l| ==> l[i] != DOT by {
      assert forall i :: 0 <= i < |l| ==> IsLabelByte(l[i]);
    }
    assert forall i :: 0 <= i < |l| ==> x[i] == l[i];
    assert x[|l|] == DOT;
    assert FirstDot(x) == |l|;
    assert x[..|l|] == l;
    assert x[|l| + 1..] == rest;
  }

  /** The name behind one iteration `(LABEL\.)` that ended at `p'`. */
  lemma IterationThenName(b: seq<byte>, p: nat, p': nat, e: nat)
    requires p <= |b| && LabelDotAt(b, p) == Some(p') && p' < e <= |b|
    requires IsDottedName(b[p'..e])
    ensures IsHandle(b[p..e])
  {
    assert b[p..e] == b[p..p' - 1] + [DOT] + b[p'..e];
    LabelDotName(b[p..p' - 1], b[p'..e]);
  }

  /** Whatever `MentionMatch` accepts is a mention behind a prefix byte. */
  lemma MentionMatchSound(b: seq<byte>, i: nat)
    requires MentionMatch(b, i).Some?
    ensures IsPrefixByte(b[i]) && IsMentionAt(b, i + 1, MentionMatch(b, i).value)
  {
    var p := LabelDotAt(b, i + 2).value;
    MentionPartsSound(b, i, p, MentionMatch(b, i).value);
  }

  /** A prefix byte, `@`, one `(LABEL\.)` iteration ending at `p`, and a
      tail the matcher accepts form a mention. */
  lemma MentionPartsSound(b: seq<byte>, i: nat, p: nat, e: nat)
    requires i + 1 < |b| && IsPrefixByte(b[i]) && b[i + 1] == AT
    requires LabelDotAt(b, i + 2) == Some(p) && MentionTail(b, p) == Some(e)
    ensures IsPrefixByte(b[i]) && IsMentionAt(b, i + 1, e)
  {
    MentionTailSound(b, p);
    IterationThenName(b, i + 2, p, e);
  }

  /** A label at `p` followed by a dot is one iteration of `(LABEL\.)`. */
  lemma LabelDotStep(b: seq<byte>, p: nat, j: nat)
    requires p + j < |b| && b[p + j] == DOT && IsLabel(b[p..p + j])
    ensures LabelDotAt(b, p) == Some(p + j + 1)
  {
    assert forall i :: p <= i < p + j ==> IsLabelByte(b[i]) by {
      forall i | p <= i < p + j
        ensures IsLabelByte(b[i])
      {
        assert b[i] == b[p..p + j][i - p];
      }
    }
    assert !IsLabelByte(b[p + j]);
    assert LabelRunEnd(b, p) == p + j;
  }

  lemma DottedNameNonEmpty(x: seq<byte>)
    requires IsDottedName(x)
    ensures |x| > 0
  {
  }

  /** `MentionTail` succeeds as soon as `TopEnd` would, or a further
      iteration leads to success. */
  lemma MentionTailCases(b: seq<byte>, p: nat)
    requires p <= |b|
    ensures TopEnd(b, p).Some? ==> MentionTail(b, p).Some?
    ensures LabelDotAt(b, p).Some? && MentionTail(b, LabelDotAt(b, p).value).Some? ==> MentionTail(b, p).Some?
  {
  }

  /** A dotted name starting at `p` is always matched by `MentionTail`
      (possibly by a longer name). */
  lemma {:induction false} MentionTailComplete(b: seq<byte>, p: nat, e: nat)
    requires p < e <= |b| && IsDottedName(b[p..e])
    ensures MentionTail(b, p).Some?
    decreases e - p
  {
    var x := b[p..e];
    var j := FirstDot(x);
    MentionTailCases(b, p);
    if j == |x| {
      assert IsTopLabel(x);
      assert b[p] == x[0];
    } else {
      assert x[..j] == b[p..p + j];
      LabelDotStep(b, p, j);
      assert x[j + 1..] == b[p + j + 1..e];
      DottedNameNonEmpty(x[j + 1..]);
      MentionTailComplete(b, p + j + 1, e);
    }
  }

  /** A mention behind a prefix byte is always matched at that byte. */
  lemma MentionMatchComplete(b: seq<byte>, i: nat, e: nat)
    requires i + 1 < |b| && IsPrefixByte(b[i]) && IsMentionAt(b, i + 1, e)
    ensures MentionMatch(b, i).Some?
  {
    var x := b[i + 2..e];
    var j := FirstDot(x);
    assert j < |x|;
    assert x[..j] == b[i + 2..i + 2 + j];
    LabelDotStep(b, i + 2, j);
    assert x[j + 1..] == b[i + 3 + j..e];
    DottedNameNonEmpty(x[j + 1..]);
    MentionTailComplete(b, i + 3 + j, e);
  }

  // ---------------------------------------------------------------------
  // The scanner

  /** Every byte of a dotted name is a label byte or a dot, so it is ASCII. */
  lemma {:induction false} DottedNameIsAscii(x: seq<byte>)
    requires IsDottedName(x)
    ensures forall i :: 0 <= i < |x| ==> IsLabelByte(x[i]) || x[i] == DOT
    ensures AllAscii(x)
    decreases |x|
  {
    var j := FirstDot(x);
    if j < |x| {
      DottedNameIsAscii(x[j + 1..]);
      forall i | 0 <= i < |x|
        ensures IsLabelByte(x[i]) || x[i] == DOT
      {
        if i < j {
          assert x[i] == x[..j][i];
        } else if i > j {
          assert x[i] == x[j + 1..][i - j - 1];
        }
      }
    }
  }

  /** `@` and ASCII bytes decode to `@` and their text, and encode back. */
  lemma AtHandleText(g: seq<byte>)
    requires |g| > 0 && g[0] == AT && AllAscii(g[1..])
    ensures Utf8.Encode("@" + AsciiDecode(g[1..])) == g
  {
    assert AllAscii(g) by {
      assert forall i :: 1 <= i < |g| ==> g[i] == g[1..][i - 1];
    }
    assert AsciiDecode(g) == "@" + AsciiDecode(g[1..]);
    Utf8.AsciiRoundTrip(g);
  }

  /** A match behind its prefix byte: group 1 spans `[at + 1, end)`. */
  predicate MentionMatched(b: seq<byte>, m: Match) {
    m.at < |b| && IsPrefixByte(b[m.at]) && IsMentionAt(b, m.at + 1, m.end)
  }

  /** A reported mention span: a mention behind a prefix byte, whose
      handle after `@` encodes back to the span's bytes. */
  predicate IsMentionSpan(b: seq<byte>, s: Span) {
    && 1 <= s.start < s.end <= |b|
    && IsPrefixByte(b[s.start - 1])
    && IsMentionAt(b, s.start, s.end)
    && Utf8.Encode("@" + s.text) == b[s.start..s.end]
  }

  /** The span of one match: group 1 starts after the prefix byte, and the
      handle leaves out the `@`. */
  function MentionSpan(b: seq<byte>, m: Match): (s: Span)
    requires MentionMatched(b, m)
    ensures s.start == m.at + 1 && s.end == m.end
    ensures IsMentionSpan(b, s)
  {
    var g := b[m.at + 1..m.end];
    assert g[1..] == b[m.at + 2..m.end];
    assert AllAscii(g[1..]) by {
      DottedNameIsAscii(b[m.at + 2..m.end]);
    }
    var handle := AsciiDecode(g[1..]);
    assert Utf8.Encode("@" + handle) == g by {
      AtHandleText(g);
    }
    Span(m.at + 1, m.end, handle)
  }

  function MentionSpans(b: seq<byte>, ms: seq<Match>): (r: seq<Span>)
    requires forall k :: 0 <= k < |ms| ==> MentionMatched(b, ms[k])
    ensures |r| == |ms|
    ensures forall k :: 0 <= k < |ms| ==> r[k] == MentionSpan(b, ms[k])
  {
    seq(|ms|, k requires 0 <= k < |ms| => MentionSpan(b, ms[k]))
  }

  lemma MentionMatchConsumes(b: seq<byte>)
    ensures Consumes(MentionMatch, b)
  {
  }

  /** `parse_mentions` on the UTF-8 bytes `b` of the text.  Every span is a
      mention behind a prefix byte, the spans come in order without
      touching, and encoding `"@" + handle` reproduces the span's bytes. */
  function ScanMentions(b: seq<byte>): (r: seq<Span>)
    ensures Ordered(r)
    ensures forall k :: 0 <= k < |r| ==> IsMentionSpan(b, r[k])
  {
    MentionMatchConsumes(b);
    var ms := FindAll(b, MentionMatch, 0);
    assert forall k :: 0 <= k < |ms| ==> MentionMatched(b, ms[k]) by {
      forall k | 0 <= k < |ms|
        ensures MentionMatched(b, ms[k])
      {
        MentionMatchSound(b, ms[k].at);
      }
    }
    MentionSpans(b, ms)
  }

  /** The scanner misses no mention: a mention behind a prefix byte lies
      inside a reported span, or its prefix byte is the last byte of one
      (consumed by that earlier match). */
  lemma MentionsFound(b: seq<byte>, i: nat, e: nat)
    requires i + 1 < |b| && IsPrefixByte(b[i]) && IsMentionAt(b, i + 1, e)
    ensures exists k :: 0 <= k < |ScanMentions(b)| && ScanMentions(b)[k].start - 1 <= i < ScanMentions(b)[k].end
  {
    MentionMatchComplete(b, i, e);
    MentionMatchConsumes(b);
    var k := FindAllCovers(b, MentionMatch, 0, i);
    var ms := FindAll(b, MentionMatch, 0);
    var r := ScanMentions(b);
    assert r == MentionSpans(b, ms);
    assert r[k] == MentionSpan(b, ms[k]);
    assert r[k].start - 1 <= i < r[k].end;
  }

  /** `parse_mentions(text)`: the scanner over `text.encode("UTF-8")`. */
  function ParseMentions(text: string): seq<Span>
  {
    ScanMentions(Utf8.Encode(text))
  }
}
