/** `re.finditer` over a byte string, for patterns of the gateway's shape
    `[$|\W](group)`: a match consumes one prefix byte and then a non-empty
    group, and the search resumes where the previous match ended. */
module Scan {
  import opened Wrappers
  import opened Bytes

  /** A match found at `at` (the prefix byte) and ending at `end`
      (exclusive); group 1 is `[at + 1, end)`. */
  datatype Match = Match(at: nat, end: nat)

  /** A span as `parse_urls` and `parse_mentions` report it: byte offsets of
      group 1 and its text (the URL, or the handle without its `@`). */
  datatype Span = Span(start: nat, end: nat, text: string)

  /** The prefix class `[$|\W]` that both patterns start with (both listed
      bytes are non-word bytes anyway). */
  predicate IsPrefixByte(c: byte) {
    IsChar(c, '$') || IsChar(c, '|') || !IsWordByte(c)
  }

  /** A pattern tried at one position: the end of the match, if any. */
  type Matcher = (seq<byte>, nat) -> Option<nat>

  /** Every match of `m` in `b` consumes its prefix byte and at least one
      more byte, and stays inside `b`. */
  ghost predicate Consumes(m: Matcher, b: seq<byte>) {
    forall i: nat :: m(b, i).Some? ==> i + 1 < m(b, i).value <= |b|
  }

  /** The matches of `m` that `re.finditer` reports when scanning `b` from
      position `from`.  The contract determines the result: every reported
      match is a match of `m`, they do not overlap and come left to right,
      and every position where `m` would match is the start of, or inside,
      a reported match (the search never skips a match). */
  function FindAll(b: seq<byte>, m: Matcher, from: nat): (r: seq<Match>)
    requires Consumes(m, b)
    ensures forall k :: 0 <= k < |r| ==> from <= r[k].at && m(b, r[k].at) == Some(r[k].end)
    ensures forall k :: 0 <= k < |r| - 1 ==> r[k].end <= r[k + 1].at
    decreases |b| - from
  {
    if from >= |b| then
      []
    else
      match m(b, from)
      case Some(e) => [Match(from, e)] + FindAll(b, m, e)
      case None => FindAll(b, m, from + 1)
  }

  /** The search never skips a match: every position where `m` would match
      is the start of, or lies inside, a match that `FindAll` reports.
      With the contract of `FindAll` this determines its result. */
  lemma {:induction false} FindAllCovers(b: seq<byte>, m: Matcher, from: nat, j: nat) returns (k: nat)
    requires Consumes(m, b)
    requires from <= j && m(b, j).Some?
    ensures k < |FindAll(b, m, from)| && FindAll(b, m, from)[k].at <= j < FindAll(b, m, from)[k].end
    decreases |b| - from
  {
    var r := FindAll(b, m, from);
    assert from < |b|;
    match m(b, from)
    case Some(e) =>
      assert r == [Match(from, e)] + FindAll(b, m, e);
      if j >= e {
        var k' := FindAllCovers(b, m, e, j);
        k := k' + 1;
        assert r[k] == FindAll(b, m, e)[k'];
      } else {
        k := 0;
      }
    case None =>
      assert j != from;
      assert r == FindAll(b, m, from + 1);
      k := FindAllCovers(b, m, from + 1, j);
  }

  /** Spans in strictly increasing byte order, none touching the next. */
  predicate Ordered(spans: seq<Span>) {
    forall k :: 0 <= k < |spans| - 1 ==> spans[k].end < spans[k + 1].start
  }

  /** Order between neighbours extends to any two spans. */
  lemma {:induction false} OrderedApart(spans: seq<Span>, i: nat, j: nat)
    requires Ordered(spans) && i < j < |spans|
    requires forall k :: 0 <= k < |spans| ==> spans[k].start < spans[k].end
    ensures spans[i].end < spans[j].start
    decreases j - i
  {
    if i + 1 < j {
      OrderedApart(spans, i + 1, j);
    }
  }
}
