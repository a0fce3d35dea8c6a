/** The text of a post: the description cut to fit, then
    `title — description`, a blank line, and the link.  Lengths are in code
    points, as Python's `len` counts them. */
module Shorten {
  /** Python's `str.isspace`: the characters of Unicode general category
      Zs or bidirectional class WS, B or S. */
  predicate IsSpace(c: char) {
    var n := c as int;
    || 0x09 <= n <= 0x0D
    || 0x1C <= n <= 0x20
    || n == 0x85 || n == 0xA0 || n == 0x1680
    || 0x2000 <= n <= 0x200A
    || n == 0x2028 || n == 0x2029 || n == 0x202F || n == 0x205F || n == 0x3000
  }

  /** `s.rstrip()`: `s` without its trailing run of white space. */
  function RStrip(s: string): (r: string)
    ensures r <= s
    ensures |r| == 0 || !IsSpace(r[|r| - 1])
    ensures forall i :: |r| <= i < |s| ==> IsSpace(s[i])
  {
    if |s| == 0 || !IsSpace(s[|s| - 1]) then s else RStrip(s[..|s| - 1])
  }

  /** `re.sub(r'\w+$', '', s)` for an `s` that does not end in a newline:
      `s` without its trailing run of word characters, `isWord` being the
      class `\w`. */
  function DropTrailingWord(s: string, isWord: char -> bool): (r: string)
    ensures r <= s
    ensures |r| == 0 || !isWord(r[|r| - 1])
    ensures forall i :: |r| <= i < |s| ==> isWord(s[i])
  {
    if |s| == 0 || !isWord(s[|s| - 1]) then s else DropTrailingWord(s[..|s| - 1], isWord)
  }

  /** Python's `s[:n]`, where a negative `n` counts from the end. */
  function SlicePrefix(s: string, n: int): (r: string)
    ensures r <= s
    ensures 0 <= n ==> |r| == if n < |s| then n else |s|
    ensures n < 0 ==> |r| == if |s| + n < 0 then 0 else |s| + n
  {
    if 0 <= n then (if n < |s| then s[..n] else s)
    else if |s| + n < 0 then [] else s[..|s| + n]
  }

  const Ellipsis := " [\U{2026}]"

  /** Characters the text spends around the description:
      `len(title) + len(link) + 4`. */
  function ExtraLength(title: string, link: string): nat {
    |title| + |link| + 4
  }

  /** The cut description before the ellipsis: `desc[:293 - extralen]`
      stripped, without its last word, and stripped again. */
  function Cut(desc: string, extralen: int, isWord: char -> bool): (r: string)
    ensures r <= desc
    ensures 0 <= 293 - extralen ==> |r| <= 293 - extralen
    ensures 293 - extralen < 0 ==> |r| <= if |desc| + 293 - extralen < 0 then 0 else |desc| + 293 - extralen
    ensures |r| == 0 || !IsSpace(r[|r| - 1])
  {
    RStrip(DropTrailingWord(RStrip(SlicePrefix(desc, 293 - extralen)), isWord))
  }

  /** The description as the main loop passes it on. */
  function ShortDescription(title: string, link: string, desc: string, isWord: char -> bool): (r: string)
    ensures var extralen := ExtraLength(title, link);
            |desc| <= 296 - extralen ==> r == desc
    ensures var extralen := ExtraLength(title, link);
            |desc| > 296 - extralen ==>
              && |r| >= |Ellipsis|
              && r[|r| - |Ellipsis|..] == Ellipsis
              && r[..|r| - |Ellipsis|] <= desc
              && (|r| == |Ellipsis| || !IsSpace(r[|r| - |Ellipsis| - 1]))
    ensures ExtraLength(title, link) <= 293 ==> |r| <= 297 - ExtraLength(title, link)
  {
    var extralen := ExtraLength(title, link);
    if |desc| > 296 - extralen then
      var z := Cut(desc, extralen, isWord);
      assert (z + Ellipsis)[..|z|] == z;
      z + Ellipsis
    else desc
  }

  /** The cut falls between words: the kept text is empty, or its last
      character and the next character of the description are not both word
      characters.  `\w` never matches white space. */
  lemma CutBetweenWords(desc: string, extralen: int, isWord: char -> bool)
    requires forall c :: IsSpace(c) ==> !isWord(c)
    requires |desc| > 296 - extralen
    ensures var z := Cut(desc, extralen, isWord);
            z <= desc &&
            (|z| == 0 || |z| == |desc| || !isWord(z[|z| - 1]) || !isWord(desc[|z|]))
  {
    var s := SlicePrefix(desc, 293 - extralen);
    var s1 := RStrip(s);
    var s2 := DropTrailingWord(s1, isWord);
    var z := RStrip(s2);
    assert z <= desc;
    if 0 < |z| < |desc| && isWord(z[|z| - 1]) {
      assert |z| < |s2|;
      assert IsSpace(s2[|z|]);
      assert desc[|z|] == s2[|z|];
    }
  }

  /** `f"{title} — {description}\n\n{link}"`. */
  function PostText(title: string, desc: string, link: string): (r: string)
    ensures |r| == ExtraLength(title, link) + 1 + |desc|
    ensures title <= r && r[|r| - |link|..] == link
  {
    title + " \U{2014} " + desc + "\n\n" + link
  }

  /** Whenever title and link leave room for the ellipsis, the text of the
      post is at most 298 code points long. */
  lemma PostTextFits(title: string, link: string, desc: string, isWord: char -> bool)
    requires ExtraLength(title, link) <= 293
    ensures |PostText(title, ShortDescription(title, link, desc, isWord), link)| <= 298
  {
  }

  /** The bound above is reached: a cut description that ends in
      punctuation keeps all `293 - extralen` characters, and with the
      ellipsis it is one character longer than the threshold that triggered
      the cut. */
  lemma CutReachesBound(isWord: char -> bool)
    requires !isWord('.')
    ensures var desc := seq(291, _ => '.');
            var r := ShortDescription("t", "l", desc, isWord);
            |desc| > 296 - ExtraLength("t", "l") && |r| == 297 - ExtraLength("t", "l")
  {
    var desc := seq(291, _ => '.');
    var s := SlicePrefix(desc, 293 - 6);
    assert s[|s| - 1] == '.';
    assert RStrip(s) == s;
    assert DropTrailingWord(s, isWord) == s;
  }
}
