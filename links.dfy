/** `get_episode_links`: keep the anchors whose `href` contains an episode
    designator `s<digits>e<digits>`, make relative ones absolute, in
    document order. The HTTP request and the HTML parser are outside the
    model: their results come in as the response status and the sequence of
    `href` attributes (`None` for an anchor without one). */
module Links {
  import opened Wrappers
  import opened Strings

  const Site: string := "http://www.springfieldspringfield.co.uk/"

  datatype FetchError = HttpError(status: int)

  /** All of `s[i..j]` are digits. */
  predicate DigitsBetween(s: string, i: int, j: int) {
    0 <= i <= j <= |s| && forall k :: i <= k < j ==> IsDigit(s[k])
  }

  /** The pattern `s\d+e\d+` matches starting at index `i` of `s`. */
  ghost predicate TokenAt(s: string, i: int) {
    0 <= i < |s| && s[i] == 's' &&
    exists j :: i + 1 < j < |s| - 1 && DigitsBetween(s, i + 1, j) && s[j] == 'e' && IsDigit(s[j + 1])
  }

  /** What `re.compile('s\d+e\d+').search(s)` decides. */
  ghost predicate HasEpisodeToken(s: string) {
    exists i :: TokenAt(s, i)
  }

  /** The end of the run of digits that starts at `k`. */
  function DigitRunEnd(s: string, k: nat): (j: nat)
    requires k <= |s|
    ensures k <= j <= |s| && DigitsBetween(s, k, j)
    ensures j == |s| || !IsDigit(s[j])
    decreases |s| - k
  {
    if k < |s| && IsDigit(s[k]) then DigitRunEnd(s, k + 1) else k
  }

  /** The matcher's check at one position: `s`, a maximal run of at least
      one digit, `e`, a digit. */
  predicate TokenStartsAt(s: string, i: nat)
    requires i < |s|
  {
    s[i] == 's' &&
    var j := DigitRunEnd(s, i + 1);
    i + 1 < j < |s| - 1 && s[j] == 'e' && IsDigit(s[j + 1])
  }

  /** The leftmost position at or after `from` where the matcher succeeds. */
  function SearchFrom(s: string, from: nat): Option<nat>
    requires from <= |s|
    decreases |s| - from
  {
    if from == |s| then None
    else if TokenStartsAt(s, from) then Some(from)
    else SearchFrom(s, from + 1)
  }

  function SearchToken(s: string): Option<nat> {
    SearchFrom(s, 0)
  }

  /** Checking the maximal digit run suffices: `e` is not a digit, so the
      run before it is the maximal one. */
  lemma TokenStartsAtIff(s: string, i: nat)
    requires i < |s|
    ensures TokenStartsAt(s, i) <==> TokenAt(s, i)
  {
  }

  lemma {:induction false} SearchFromSpec(s: string, from: nat)
    requires from <= |s|
    ensures SearchFrom(s, from).Some? ==>
      var i := SearchFrom(s, from).value;
      from <= i && TokenAt(s, i) && forall k :: from <= k < i ==> !TokenAt(s, k)
    ensures SearchFrom(s, from).None? ==> forall k :: from <= k ==> !TokenAt(s, k)
    decreases |s| - from
  {
    if from < |s| {
      TokenStartsAtIff(s, from);
      if !TokenStartsAt(s, from) {
        SearchFromSpec(s, from + 1);
      }
    }
  }

  /** The matcher finds the leftmost match of `s\d+e\d+`, and finds one
      exactly when the pattern occurs. */
  lemma SearchTokenCorrect(s: string)
    ensures SearchToken(s).Some? <==> HasEpisodeToken(s)
    ensures SearchToken(s).Some? ==>
      TokenAt(s, SearchToken(s).value) && forall k :: 0 <= k < SearchToken(s).value ==> !TokenAt(s, k)
  {
    SearchFromSpec(s, 0);
  }

  /** An anchor the loop keeps: it has an `href` and the pattern is found in it. */
  predicate Kept(h: Option<string>) {
    h.Some? && SearchToken(h.value).Some?
  }

  /** `urljoin(SITE, link)` unless the link already has a network location. */
  function Absolute(link: string, isAbsolute: string -> bool, join: (string, string) -> string): string {
    if isAbsolute(link) then link else join(Site, link)
  }

  /** The links the loop has appended after reading `hrefs`: at most one
      per anchor. What they are is `KeptPositionsSpec` and
      `FilterLinksAtPositions`. */
  function FilterLinks(hrefs: seq<Option<string>>, isAbsolute: string -> bool, join: (string, string) -> string): (links: seq<string>)
    ensures |links| <= |hrefs|
    decreases |hrefs|
  {
    if hrefs == [] then []
    else
      var last := hrefs[|hrefs| - 1];
      FilterLinks(hrefs[..|hrefs| - 1], isAbsolute, join) +
      (if Kept(last) then [Absolute(last.value, isAbsolute, join)] else [])
  }

  /** The positions of the anchors that are kept, in increasing order. */
  function KeptPositions(hrefs: seq<Option<string>>): seq<nat>
    decreases |hrefs|
  {
    if hrefs == [] then []
    else KeptPositions(hrefs[..|hrefs| - 1]) + (if Kept(hrefs[|hrefs| - 1]) then [|hrefs| - 1] else [])
  }

  /** The kept positions lie within the anchor list, increase strictly,
      and a position is among them exactly when its anchor qualifies. */
  lemma {:induction false} KeptPositionsSpec(hrefs: seq<Option<string>>)
    ensures var pos := KeptPositions(hrefs);
      |pos| <= |hrefs| &&
      (forall k :: 0 <= k < |pos| ==> pos[k] < |hrefs| && Kept(hrefs[pos[k]])) &&
      (forall k, l :: 0 <= k < l < |pos| ==> pos[k] < pos[l]) &&
      (forall i :: 0 <= i < |hrefs| && Kept(hrefs[i]) ==> i in pos)
    decreases |hrefs|
  {
    if hrefs != [] {
      var n := |hrefs| - 1;
      var init := hrefs[..n];
      KeptPositionsSpec(init);
      var pos0 := KeptPositions(init);
      var pos := KeptPositions(hrefs);
      assert pos == pos0 + (if Kept(hrefs[n]) then [n] else []);
      forall k | 0 <= k < |pos|
        ensures pos[k] < |hrefs| && Kept(hrefs[pos[k]])
      {
        if k < |pos0| {
          assert pos[k] == pos0[k] && init[pos0[k]] == hrefs[pos0[k]];
        }
      }
      forall i | 0 <= i < |hrefs| && Kept(hrefs[i])
        ensures i in pos
      {
        if i < n {
          assert init[i] == hrefs[i];
          assert i in pos0;
        } else {
          assert pos[|pos| - 1] == n;
        }
      }
    }
  }

  /** The k-th link is the anchor at the k-th kept position, made absolute,
      so the output is the order-preserving subsequence of the qualifying
      anchors; duplicates stay. */
  lemma {:induction false} FilterLinksAtPositions(hrefs: seq<Option<string>>, isAbsolute: string -> bool, join: (string, string) -> string)
    ensures var links, pos := FilterLinks(hrefs, isAbsolute, join), KeptPositions(hrefs);
      |links| == |pos| &&
      forall k :: 0 <= k < |pos| ==>
        pos[k] < |hrefs| && hrefs[pos[k]].Some? && links[k] == Absolute(hrefs[pos[k]].value, isAbsolute, join)
    decreases |hrefs|
  {
    if hrefs != [] {
      var n := |hrefs| - 1;
      var init := hrefs[..n];
      FilterLinksAtPositions(init, isAbsolute, join);
      KeptPositionsSpec(init);
      var links0, pos0 := FilterLinks(init, isAbsolute, join), KeptPositions(init);
      var links, pos := FilterLinks(hrefs, isAbsolute, join), KeptPositions(hrefs);
      assert links == links0 + (if Kept(hrefs[n]) then [Absolute(hrefs[n].value, isAbsolute, join)] else []);
      assert pos == pos0 + (if Kept(hrefs[n]) then [n] else []);
      forall k | 0 <= k < |pos|
        ensures pos[k] < |hrefs| && hrefs[pos[k]].Some? && links[k] == Absolute(hrefs[pos[k]].value, isAbsolute, join)
      {
        if k < |pos0| {
          assert pos[k] == pos0[k] && links[k] == links0[k] && init[pos0[k]] == hrefs[pos0[k]];
        }
      }
    }
  }

  /** Every kept link stems from an `href` in which the pattern occurs, and
      every `href` in which it occurs yields a link. */
  lemma KeptIffToken(hrefs: seq<Option<string>>, i: nat)
    requires i < |hrefs|
    ensures i in KeptPositions(hrefs) <==> hrefs[i].Some? && HasEpisodeToken(hrefs[i].value)
  {
    KeptPositionsSpec(hrefs);
    if hrefs[i].Some? {
      SearchTokenCorrect(hrefs[i].value);
    }
  }

  /** The body of `get_episode_links` after the request: an error status
      raises `HttpError`; otherwise the anchors are scanned in order and the
      qualifying links appended. */
  method GetEpisodeLinks(status: int, hrefs: seq<Option<string>>, isAbsolute: string -> bool, join: (string, string) -> string)
    returns (r: Result<seq<string>, FetchError>)
    ensures status >= 400 <==> r.Failure?
    ensures r.Failure? ==> r.error == HttpError(status)
    ensures r.Success? ==> r.value == FilterLinks(hrefs, isAbsolute, join)
  {
    if status >= 400 {
      return Failure(HttpError(status));
    }
    var links: seq<string> := [];
    var i := 0;
    while i < |hrefs|
      invariant 0 <= i <= |hrefs|
      invariant links == FilterLinks(hrefs[..i], isAbsolute, join)
    {
      var a := hrefs[i];
      if a.Some? {
        var link := a.value;
        if SearchToken(link).Some? {
          if !isAbsolute(link) {
            link := join(Site, link);
          }
          links := links + [link];
        }
      }
      assert hrefs[..i + 1][..i] == hrefs[..i];
      i := i + 1;
    }
    assert hrefs[..i] == hrefs;
    return Success(links);
  }
}
