/** The text cleaning of `count_occurrences`: strip the opening wrapper
    tag, cut at the last closing `div`, and turn every `<br\s?/?>` into a
    space before the phrase is counted. */
module Cleaning {
  import opened Wrappers
  import opened Strings

  const WrapperOpen: string := "<div class=\"episode_script\">"
  const WrapperClose: string := "</div>"

  /** `p` occurs at `i` and nowhere to the left of `i`. */
  predicate LeftmostAt(s: string, p: string, i: int) {
    OccursAt(s, p, i) && forall j :: 0 <= j < i ==> !OccursAt(s, p, j)
  }

  /** `s.replace(WrapperOpen, '', 1)`: remove the leftmost opening wrapper tag. */
  function StripWrapper(s: string): (r: string)
    ensures !Contains(s, WrapperOpen) ==> r == s
    ensures Contains(s, WrapperOpen) ==> |r| == |s| - |WrapperOpen|
    ensures forall i :: LeftmostAt(s, WrapperOpen, i) ==> s == r[..i] + WrapperOpen + r[i..]
  {
    match FirstIndexOf(s, WrapperOpen)
    case None => s
    case Some(i) =>
      assert s == s[..i] + WrapperOpen + s[i + |WrapperOpen|..];
      s[..i] + s[i + |WrapperOpen|..]
  }

  /** `s.rsplit(WrapperClose, 1)[0]`: the text before the last closing tag,
      or all of `s` when there is none. */
  function CutAtLastClose(s: string): (r: string)
    ensures r <= s
    ensures !Contains(s, WrapperClose) ==> r == s
    ensures Contains(s, WrapperClose) ==>
      OccursAt(s, WrapperClose, |r|) && forall j :: |r| < j ==> !OccursAt(s, WrapperClose, j)
  {
    match LastIndexOf(s, WrapperClose)
    case None => s
    case Some(j) => s[..j]
  }

  /** A string the pattern `<br\s?/?>` matches in full: `<br`, at most one
      whitespace character, at most one `/`, then `>`. Lower case only. */
  predicate IsBrTag(t: string) {
    4 <= |t| <= 6 && t[..3] == "<br" && t[|t| - 1] == '>' &&
    var mid := t[3..|t| - 1];
    mid == [] || mid == "/" ||
    (|mid| == 1 && IsSpace(mid[0])) ||
    (|mid| == 2 && IsSpace(mid[0]) && mid[1] == '/')
  }

  /** The length of the match of `<br\s?/?>` at the start of `s`, 0 if none.
      Both optional parts are greedy, and giving either back never lets
      `>` match, so the match is unique. */
  function BrTagLen(s: string): (n: nat)
    ensures n <= |s|
    ensures n > 0 ==> IsBrTag(s[..n])
    ensures forall m :: 0 < m <= |s| && IsBrTag(s[..m]) ==> n == m
  {
    if |s| < 4 || s[..3] != "<br" then 0
    else
      var j := if IsSpace(s[3]) then 4 else 3;
      var k := if j < |s| && s[j] == '/' then j + 1 else j;
      if k < |s| && s[k] == '>' then
        assert s[..k + 1][3..k] == s[3..k];
        k + 1
      else
        0
  }

  /** `BR_REGEX.sub(' ', s)`: left to right, each non-overlapping match
      becomes one space, so the text never grows. */
  function ReplaceBr(s: string): (r: string)
    ensures |r| <= |s|
    decreases |s|
  {
    if s == [] then []
    else
      var n := BrTagLen(s);
      if n > 0 then " " + ReplaceBr(s[n..]) else [s[0]] + ReplaceBr(s[1..])
  }

  /** The three cleaning steps in the order the script applies them; the
      cleaned text is never longer than the raw one. */
  function CleanScript(s: string): (r: string)
    ensures |r| <= |s|
  {
    ReplaceBr(CutAtLastClose(StripWrapper(s)))
  }

  // ----- properties of the `<br>` replacement -----

  /** Text without `<br` is left exactly as it is; in particular `<BR>` and
      `<BR/>` are not matched, the pattern being case-sensitive. */
  lemma {:induction false} ReplaceBrNoTag(s: string)
    requires !Contains(s, "<br")
    ensures ReplaceBr(s) == s
    decreases |s|
  {
    if s != [] {
      NoTagHasNoMatch(s);
      NoTagInTail(s);
      ReplaceBrNoTag(s[1..]);
      assert ReplaceBr(s) == [s[0]] + ReplaceBr(s[1..]);
    }
  }

  /** Where no tag matches, the text is left exactly as it is: `<brown`,
      `<br  >` and `<br clear="all">` all survive unchanged. */
  lemma {:induction false} ReplaceBrNoMatch(s: string)
    requires forall i :: 0 <= i < |s| ==> BrTagLen(s[i..]) == 0
    ensures ReplaceBr(s) == s
    decreases |s|
  {
    if s != [] {
      assert s[0..] == s;
      forall i | 0 <= i < |s[1..]|
        ensures BrTagLen(s[1..][i..]) == 0
      {
        assert s[1..][i..] == s[i + 1..];
      }
      ReplaceBrNoMatch(s[1..]);
      assert [s[0]] + s[1..] == s;
    }
  }

  lemma NoTagHasNoMatch(s: string)
    requires s != [] && !Contains(s, "<br")
    ensures BrTagLen(s) == 0
  {
    assert !OccursAt(s, "<br", 0);
  }

  lemma NoTagInTail(s: string)
    requires s != [] && !Contains(s, "<br")
    ensures !Contains(s[1..], "<br")
  {
    forall i | 0 <= i <= |s[1..]| && OccursAt(s[1..], "<br", i)
      ensures false
    {
      assert s[1..][i..i + 3] == s[i + 1..i + 4];
      assert OccursAt(s, "<br", i + 1);
    }
  }

  /** A matched tag at the front becomes exactly one space. */
  lemma TagBecomesSpace(t: string, rest: string)
    requires IsBrTag(t)
    ensures ReplaceBr(t + rest) == " " + ReplaceBr(rest)
  {
    var s := t + rest;
    assert s[..|t|] == t;
    assert BrTagLen(s) == |t|;
    assert s[|t|..] == rest;
  }

  /** `<br>`, `<br/>`, `<br />` and the other spellings the pattern allows
      are all matched. */
  lemma BrTagSpellings(w: string, slash: string)
    requires w == [] || (|w| == 1 && IsSpace(w[0]))
    requires slash == [] || slash == "/"
    ensures IsBrTag("<br" + w + slash + ">")
  {
  }

  /** No character of a tag after the first is `<`. */
  lemma TagHasNoInnerAngle(t: string, k: nat)
    requires IsBrTag(t) && 1 <= k < |t|
    ensures t[k] != '<'
  {
    if k < 3 {
      assert t[..3][k] == t[k];
    } else if k < |t| - 1 {
      assert t[3..|t| - 1][k - 3] == t[k];
    }
  }

  /** A match never runs across a `<`: what follows a text that is cut
      just before a `<` cannot change the match at the text's start. */
  lemma BrTagLenBeforeAngle(p: string, x: string)
    requires p != [] && x != [] && x[0] == '<'
    ensures BrTagLen(p + x) == BrTagLen(p)
  {
    var s := p + x;
    var n := BrTagLen(s);
    if n > 0 {
      if |p| < n {
        TagHasNoInnerAngle(s[..n], |p|);
      }
      assert s[..n] == p[..n];
    }
  }

  /** The replacement of a text cut just before a `<` is the replacement of
      the two parts. */
  lemma {:induction false} ReplaceBrBeforeAngle(a: string, x: string)
    requires x != [] && x[0] == '<'
    ensures ReplaceBr(a + x) == ReplaceBr(a) + ReplaceBr(x)
    decreases |a|
  {
    if a == [] {
      assert a + x == x;
    } else {
      var s := a + x;
      BrTagLenBeforeAngle(a, x);
      var n := BrTagLen(a);
      if n > 0 {
        assert s[n..] == a[n..] + x;
        ReplaceBrBeforeAngle(a[n..], x);
      } else {
        assert s[1..] == a[1..] + x && s[0] == a[0];
        ReplaceBrBeforeAngle(a[1..], x);
      }
    }
  }

  /** Each matched tag, wherever it stands, becomes exactly one space and
      the text on either side is processed on its own: `"ab<br>c"` gives
      `"ab c"`. */
  lemma EachTagBecomesSpace(a: string, t: string, b: string)
    requires IsBrTag(t)
    ensures ReplaceBr(a + t + b) == ReplaceBr(a) + " " + ReplaceBr(b)
  {
    assert a + t + b == a + (t + b);
    assert (t + b)[0] == t[0] == '<' by {
      assert t[..3] == "<br";
    }
    ReplaceBrBeforeAngle(a, t + b);
    TagBecomesSpace(t, b);
  }

  lemma LeadingOccurrence(p: string, x: string)
    ensures FirstIndexOf(p + x, p) == Some(0)
  {
  }

  lemma TrailingOccurrence(x: string, p: string)
    ensures LastIndexOf(x + p, p) == Some(|x|)
  {
  }

  /** A script of the form opening tag, body, closing tag comes out as
      its body with the line breaks replaced: the leftmost opening tag and
      the last closing tag are the ones removed, whatever the body
      contains. */
  lemma CleanWrapped(body: string)
    ensures CleanScript(WrapperOpen + body + WrapperClose) == ReplaceBr(body)
  {
    var inner := body + WrapperClose;
    assert WrapperOpen + body + WrapperClose == WrapperOpen + inner;
    LeadingOccurrence(WrapperOpen, inner);
    assert (WrapperOpen + inner)[|WrapperOpen|..] == inner;
    assert StripWrapper(WrapperOpen + inner) == inner;
    TrailingOccurrence(body, WrapperClose);
    assert inner[..|body|] == body;
    assert CutAtLastClose(inner) == body;
  }

  /** Text without any `<` has nothing for any of the three steps to act
      on, so cleaning leaves it as it is. */
  lemma PlainTextUnchanged(s: string)
    requires forall i :: 0 <= i < |s| ==> s[i] != '<'
    ensures CleanScript(s) == s
  {
    NoAngleNoOccurrence(s, WrapperOpen);
    NoAngleNoOccurrence(s, WrapperClose);
    NoAngleNoOccurrence(s, "<br");
    ReplaceBrNoTag(s);
  }

  lemma NoAngleNoOccurrence(s: string, p: string)
    requires forall i :: 0 <= i < |s| ==> s[i] != '<'
    requires p != [] && p[0] == '<'
    ensures !Contains(s, p)
  {
    forall i | 0 <= i <= |s|
      ensures !OccursAt(s, p, i)
    {
      if i + |p| <= |s| {
        assert s[i..i + |p|][0] == s[i];
      }
    }
  }
}
