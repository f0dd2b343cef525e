/** The show-title slug of `main`: `'-'.join(show_title.lower().split())`,
    which becomes the `tv-show` query parameter of the index page. */
module Slug {
  import opened Strings

  /** `str.lower()` on one character of a Python 2 byte string: only ASCII
      capitals change. */
  function LowerChar(c: char): (d: char)
    ensures !IsUpper(d)
    ensures IsSpace(d) == IsSpace(c) && (d == '-') == (c == '-')
    ensures !IsUpper(c) ==> d == c
    ensures IsUpper(c) ==> d as int == c as int + 32
  {
    if IsUpper(c) then (c as int + 32) as char else c
  }

  /** `str.lower()`: character by character, so whitespace stays where it
      was and no capital is left. */
  function Lower(s: string): (r: string)
    ensures |r| == |s|
    ensures forall i :: 0 <= i < |s| ==> r[i] == LowerChar(s[i])
    ensures forall i :: 0 <= i < |s| ==> !IsUpper(r[i]) && IsSpace(r[i]) == IsSpace(s[i])
  {
    seq(|s|, i requires 0 <= i < |s| => LowerChar(s[i]))
  }

  /** A piece that `str.split()` can return: non-empty, no whitespace. */
  predicate IsWord(w: string) {
    w != [] && forall i :: 0 <= i < |w| ==> !IsSpace(w[i])
  }

  /** `str.split()` with no separator, scanning left to right: `cur` is the
      word read so far. Runs of whitespace separate words; leading and
      trailing whitespace yields no empty word. */
  function SplitFrom(s: string, cur: string): seq<string>
    decreases |s|
  {
    if s == [] then (if cur == [] then [] else [cur])
    else if IsSpace(s[0]) then (if cur == [] then [] else [cur]) + SplitFrom(s[1..], [])
    else SplitFrom(s[1..], cur + [s[0]])
  }

  /** `str.split()`: whitespace-free, non-empty words whose concatenation
      is exactly the non-whitespace text of the input. That whitespace is
      what separates them is `WordsAroundSpace`. */
  function Words(s: string): (ws: seq<string>)
    ensures forall k :: 0 <= k < |ws| ==> IsWord(ws[k])
    ensures Concat(ws) == NonSpace(s)
  {
    SplitFromWords(s, []);
    SplitFrom(s, [])
  }

  /** A whitespace-free, non-empty text is one word. */
  lemma WordsSolid(u: string)
    requires Solid(u)
    ensures Words(u) == [u]
  {
    SplitFromSolid(u, []);
    assert [] + u == u;
  }

  /** `'-'.join(ws)`: the words in order, with one `-` between neighbours. */
  function JoinDash(ws: seq<string>): (r: string)
    ensures ws == [] ==> r == []
    ensures ws != [] ==> ws[0] <= r && |r| == |Concat(ws)| + |ws| - 1
  {
    if ws == [] then []
    else if |ws| == 1 then ws[0]
    else ws[0] + "-" + JoinDash(ws[1..])
  }

  /** The slug has no whitespace and no capitals: lowering comes before
      splitting, and only `-` is put between the words. */
  function TitleSlug(title: string): (r: string)
    ensures Normalised(r)
  {
    JoinedWordsNormalised(Lower(title));
    JoinDash(Words(Lower(title)))
  }

  /** The characters of `s` that are not whitespace, in order. */
  function NonSpace(s: string): string {
    if s == [] then []
    else (if IsSpace(s[0]) then [] else [s[0]]) + NonSpace(s[1..])
  }

  function Concat(ws: seq<string>): string {
    if ws == [] then [] else ws[0] + Concat(ws[1..])
  }

  /** No character of `s` is whitespace or an ASCII capital. */
  predicate Normalised(s: string) {
    forall i :: 0 <= i < |s| ==> !IsSpace(s[i]) && !IsUpper(s[i])
  }

  /** No two adjacent characters of `s` are both `-`. */
  predicate NoDoubledDash(s: string) {
    forall i :: 0 < i < |s| ==> s[i - 1] != '-' || s[i] != '-'
  }

  // ----- split -----

  lemma {:induction false} SplitFromWords(s: string, cur: string)
    requires forall i :: 0 <= i < |cur| ==> !IsSpace(cur[i])
    ensures forall k :: 0 <= k < |SplitFrom(s, cur)| ==> IsWord(SplitFrom(s, cur)[k])
    ensures Concat(SplitFrom(s, cur)) == cur + NonSpace(s)
    decreases |s|
  {
    if s == [] {
    } else if IsSpace(s[0]) {
      SplitFromWords(s[1..], []);
      var rest := SplitFrom(s[1..], []);
      assert NonSpace(s) == NonSpace(s[1..]);
      if cur == [] {
        assert SplitFrom(s, cur) == rest;
      } else {
        assert SplitFrom(s, cur) == [cur] + rest;
        assert Concat([cur] + rest) == cur + Concat(rest) by {
          assert ([cur] + rest)[1..] == rest;
        }
      }
    } else {
      SplitFromWords(s[1..], cur + [s[0]]);
      assert cur + NonSpace(s) == (cur + [s[0]]) + NonSpace(s[1..]);
    }
  }

  /** Every character of a word is a character of the text it was split from. */
  lemma {:induction false} SplitFromChars(s: string, cur: string, k: nat, j: nat)
    requires k < |SplitFrom(s, cur)| && j < |SplitFrom(s, cur)[k]|
    ensures SplitFrom(s, cur)[k][j] in cur + s
    decreases |s|
  {
    if s == [] {
    } else if IsSpace(s[0]) {
      if cur != [] && k == 0 {
      } else {
        var k' := if cur == [] then k else k - 1;
        SplitFromChars(s[1..], [], k', j);
      }
    } else {
      SplitFromChars(s[1..], cur + [s[0]], k, j);
      assert (cur + [s[0]]) + s[1..] == cur + s;
    }
  }

  /** A non-empty text without whitespace splits into itself. */
  lemma {:induction false} SplitFromSolid(s: string, cur: string)
    requires forall i :: 0 <= i < |s| ==> !IsSpace(s[i])
    requires cur + s != []
    ensures SplitFrom(s, cur) == [cur + s]
    decreases |s|
  {
    if s != [] {
      assert SplitFrom(s, cur) == SplitFrom(s[1..], cur + [s[0]]);
      SplitFromSolid(s[1..], cur + [s[0]]);
      assert (cur + [s[0]]) + s[1..] == cur + s;
    } else {
      assert cur + s == cur;
    }
  }

  // ----- join -----

  /** Every character of `JoinDash(ws)` is a `-` or a character of one of the words. */
  lemma {:induction false} JoinDashChars(ws: seq<string>, j: nat)
    requires j < |JoinDash(ws)|
    ensures JoinDash(ws)[j] == '-' || exists k, m :: 0 <= k < |ws| && 0 <= m < |ws[k]| && ws[k][m] == JoinDash(ws)[j]
  {
    if |ws| == 1 {
      assert ws[0][j] == JoinDash(ws)[j];
    } else {
      var rest := JoinDash(ws[1..]);
      assert JoinDash(ws) == ws[0] + "-" + rest;
      if j < |ws[0]| {
        assert ws[0][j] == JoinDash(ws)[j];
      } else if j > |ws[0]| {
        JoinDashChars(ws[1..], j - |ws[0]| - 1);
        if rest[j - |ws[0]| - 1] != '-' {
          var k, m :| 0 <= k < |ws[1..]| && 0 <= m < |ws[1..][k]|
                      && ws[1..][k][m] == rest[j - |ws[0]| - 1];
          assert ws[k + 1][m] == JoinDash(ws)[j];
        }
      }
    }
  }

  /** Joining non-empty, dash-free words puts a `-` only between two words. */
  lemma {:induction false} JoinDashSeparators(ws: seq<string>)
    requires forall k :: 0 <= k < |ws| ==> ws[k] != [] && '-' !in ws[k]
    ensures var r := JoinDash(ws);
      (ws == [] <==> r == []) &&
      (r != [] ==> r[0] != '-' && r[|r| - 1] != '-') &&
      NoDoubledDash(r)
  {
    if |ws| > 1 {
      JoinDashSeparators(ws[1..]);
      var rest := JoinDash(ws[1..]);
      var r := ws[0] + "-" + rest;
      assert JoinDash(ws) == r;
      assert r[0] == ws[0][0];
      assert r[|r| - 1] == rest[|rest| - 1];
      forall i | 0 < i < |r|
        ensures r[i - 1] != '-' || r[i] != '-'
      {
        if i < |ws[0]| {
          assert r[i] == ws[0][i];
        } else if i == |ws[0]| {
          assert r[i - 1] == ws[0][|ws[0]| - 1];
        } else if i == |ws[0]| + 1 {
          assert r[i] == rest[0];
        } else {
          assert r[i - 1] == rest[i - 1 - |ws[0]| - 1] && r[i] == rest[i - |ws[0]| - 1];
        }
      }
    }
  }

  /** Joining two non-empty lists of words is joining each and putting one
      `-` between the results: the words follow in order, one `-` apart. */
  lemma {:induction false} JoinDashAppend(a: seq<string>, b: seq<string>)
    requires a != [] && b != []
    ensures JoinDash(a + b) == JoinDash(a) + "-" + JoinDash(b)
    decreases |a|
  {
    assert (a + b)[0] == a[0] && (a + b)[1..] == a[1..] + b;
    if |a| > 1 {
      JoinDashAppend(a[1..], b);
    }
  }

  // ----- the slug -----

  /** Joining the words of a capital-free text gives neither whitespace
      nor capitals. */
  lemma JoinedWordsNormalised(low: string)
    requires forall i :: 0 <= i < |low| ==> !IsUpper(low[i])
    ensures Normalised(JoinDash(SplitFrom(low, [])))
  {
    var ws := SplitFrom(low, []);
    SplitFromWords(low, []);
    var r := JoinDash(ws);
    forall j | 0 <= j < |r|
      ensures !IsSpace(r[j]) && !IsUpper(r[j])
    {
      JoinDashChars(ws, j);
      if r[j] != '-' {
        var k, m :| 0 <= k < |ws| && 0 <= m < |ws[k]| && ws[k][m] == r[j];
        assert IsWord(ws[k]);
        SplitFromChars(low, [], k, m);
        assert ws[k][m] in low;
      }
    }
  }

  /** Whitespace never produces a stray `-`: when the title has no `-` of
      its own, the slug is empty exactly for an all-whitespace title, it
      neither starts nor ends with `-`, and never has two in a row. */
  lemma SlugSeparators(title: string)
    requires '-' !in title
    ensures TitleSlug(title) == [] <==> NonSpace(title) == []
    ensures var r := TitleSlug(title);
      (r != [] ==> r[0] != '-' && r[|r| - 1] != '-') && NoDoubledDash(r)
  {
    var low := Lower(title);
    var ws := Words(low);
    forall k, m | 0 <= k < |ws| && 0 <= m < |ws[k]|
      ensures ws[k][m] != '-'
    {
      SplitFromChars(low, [], k, m);
    }
    assert forall k :: 0 <= k < |ws| ==> IsWord(ws[k]);
    JoinDashSeparators(ws);
    NonSpaceLower(title);
    if ws != [] {
      assert Concat(ws) == ws[0] + Concat(ws[1..]);
    }
  }

  lemma {:induction false} NonSpaceLower(s: string)
    ensures NonSpace(Lower(s)) == [] <==> NonSpace(s) == []
  {
    if s != [] {
      NonSpaceLower(s[1..]);
      assert Lower(s)[1..] == Lower(s[1..]);
    }
  }

  /** Normalising a slug again leaves it unchanged. */
  lemma SlugIdempotent(title: string)
    ensures TitleSlug(TitleSlug(title)) == TitleSlug(title)
  {
    var t := TitleSlug(title);
    assert Lower(t) == t;
    if t != [] {
      SplitFromSolid(t, []);
      assert [] + t == t;
    }
  }

  // ----- whitespace becomes `-` -----

  /** Splitting around one whitespace character splits the two sides
      separately; `cur` is the word being read at the start of `a`. */
  lemma {:induction false} SplitFromAroundSpace(a: string, c: char, b: string, cur: string)
    requires IsSpace(c)
    ensures SplitFrom(a + [c] + b, cur) == SplitFrom(a, cur) + SplitFrom(b, [])
    decreases |a|
  {
    var s := a + [c] + b;
    if a == [] {
      assert s == [c] + b && s[1..] == b;
    } else {
      assert s[0] == a[0] && s[1..] == a[1..] + [c] + b;
      if IsSpace(a[0]) {
        SplitFromAroundSpace(a[1..], c, b, []);
      } else {
        SplitFromAroundSpace(a[1..], c, b, cur + [a[0]]);
      }
    }
  }

  /** A whitespace character separates words: the words of `a + [c] + b`
      are the words of `a` followed by the words of `b`. */
  lemma WordsAroundSpace(a: string, c: char, b: string)
    requires IsSpace(c)
    ensures Words(a + [c] + b) == Words(a) + Words(b)
  {
    SplitFromAroundSpace(a, c, b, []);
  }

  predicate AllSpace(w: string) {
    forall i :: 0 <= i < |w| ==> IsSpace(w[i])
  }

  /** Leading whitespace yields no word. */
  lemma {:induction false} WordsAfterSpaces(w: string, b: string)
    requires AllSpace(w)
    ensures Words(w + b) == Words(b)
    decreases |w|
  {
    if w != [] {
      assert w + b == [] + [w[0]] + (w[1..] + b);
      WordsAroundSpace([], w[0], w[1..] + b);
      WordsAfterSpaces(w[1..], b);
      assert Words([]) == [];
    } else {
      assert w + b == b;
    }
  }

  /** A non-empty run of whitespace, however long, separates words just
      as one whitespace character does. */
  lemma WordsAcrossRun(a: string, w: string, b: string)
    requires w != [] && AllSpace(w)
    ensures Words(a + w + b) == Words(a) + Words(b)
  {
    assert a + w + b == a + [w[0]] + (w[1..] + b);
    WordsAroundSpace(a, w[0], w[1..] + b);
    WordsAfterSpaces(w[1..], b);
  }

  lemma LowerAppend(a: string, b: string)
    ensures Lower(a + b) == Lower(a) + Lower(b)
  {
  }

  predicate Solid(u: string) {
    u != [] && forall i :: 0 <= i < |u| ==> !IsSpace(u[i])
  }

  /** A title without whitespace is its own slug, lowered. */
  lemma SlugSolid(u: string)
    requires Solid(u)
    ensures TitleSlug(u) == Lower(u)
  {
    SplitFromSolid(Lower(u), []);
    assert [] + Lower(u) == Lower(u);
  }

  lemma {:induction false} NonSpaceSolid(u: string)
    requires forall i :: 0 <= i < |u| ==> !IsSpace(u[i])
    ensures NonSpace(u) == u
  {
    if u != [] {
      NonSpaceSolid(u[1..]);
    }
  }

  /** A word, a run of whitespace and the rest of a title that still has a
      word: the run becomes exactly one `-` between the lowered word and the
      slug of the rest. */
  lemma SlugWordThenSpace(u: string, w: string, v: string)
    requires Solid(u) && w != [] && AllSpace(w) && NonSpace(v) != []
    ensures TitleSlug(u + w + v) == Lower(u) + "-" + TitleSlug(v)
  {
    var lu, lw, lv := Lower(u), Lower(w), Lower(v);
    LowerAppend(u + w, v);
    LowerAppend(u, w);
    assert lw != [] && AllSpace(lw);
    WordsAcrossRun(lu, lw, lv);
    SplitFromSolid(lu, []);
    assert [] + lu == lu;
    NonSpaceLower(v);
    var ws := Words(lv);
    assert ws != [];
    var all := [lu] + ws;
    assert |all| > 1 && all[0] == lu && all[1..] == ws;
    assert Words(lu + lw + lv) == all;
  }

  /** Two words around any run of whitespace: `"Star  Trek"` gives
      `"star-trek"`. */
  lemma SlugTwoWords(u: string, w: string, v: string)
    requires Solid(u) && w != [] && AllSpace(w) && Solid(v)
    ensures TitleSlug(u + w + v) == Lower(u) + "-" + Lower(v)
  {
    NonSpaceSolid(v);
    SlugWordThenSpace(u, w, v);
    SlugSolid(v);
  }

  /** Whitespace before or after the title does not show in the slug. */
  lemma SlugSurroundingSpace(w: string, t: string)
    requires AllSpace(w)
    ensures TitleSlug(w + t) == TitleSlug(t)
    ensures TitleSlug(t + w) == TitleSlug(t)
  {
    LowerAppend(w, t);
    LowerAppend(t, w);
    WordsAfterSpaces(Lower(w), Lower(t));
    if w != [] {
      WordsAcrossRun(Lower(t), Lower(w), []);
      assert Lower(t) + Lower(w) + [] == Lower(t) + Lower(w);
      assert Words([]) == [];
      assert Words(Lower(t)) + [] == Words(Lower(t));
    } else {
      assert t + w == t;
    }
  }
}
