/** `count_occurrences` and `main`. The page download and HTML lookup,
    the index request and parse, the user's compiled regex and `urljoin` are
    parameters: each is a function of its inputs that the model does not
    look inside. */
module Driver {
  import opened Wrappers
  import opened Slug
  import opened Cleaning
  import opened Links
  import opened Aggregate

  /** `urljoin(SITE, 'episode_scripts.php')`. */
  const IndexPage: string := "http://www.springfieldspringfield.co.uk/episode_scripts.php"

  /** The `TypeError` raised for an argument tuple that is too short. */
  datatype ArgError = ArgCount(given: nat)

  /** What `main` prints: the not-found message, or the summary with the
      per-episode average when there is one (as an exact quotient). */
  datatype Report =
    | ShowNotFound
    | Summary(occurrences: int, episodes: nat, average: Option<real>)

  /** `unicode(...)` of what the container lookup returned: a missing
      container is `None`, whose text is `"None"`. */
  function ScriptText(container: Option<string>): (text: string)
    ensures container.None? ==> text == "None"
    ensures container.Some? ==> text == container.value
  {
    match container
    case None => "None"
    case Some(html) => html
  }

  /** The count for one episode: its container's text, cleaned, matched
      against the phrase pattern. */
  function EpisodeCount(link: string, pattern: string,
                        container: string -> Option<string>,
                        countMatches: (string, string) -> nat): nat
  {
    countMatches(pattern, CleanScript(ScriptText(container(link))))
  }

  /** A page without the script container is not an error: the phrase is
      counted in the text `"None"`, which the cleaning leaves as it is. */
  lemma MissingContainerCount(link: string, pattern: string,
                              container: string -> Option<string>,
                              countMatches: (string, string) -> nat)
    requires container(link).None?
    ensures EpisodeCount(link, pattern, container, countMatches) == countMatches(pattern, "None")
  {
    PlainTextUnchanged("None");
  }

  /** `count_occurrences` as `main` hands it to `concurrent_sum`, with the
      pattern fixed. */
  function Counter(pattern: string, container: string -> Option<string>,
                   countMatches: (string, string) -> nat): string -> int
  {
    (link: string) => EpisodeCount(link, pattern, container, countMatches)
  }

  /** `count_occurrences(args)`: `args[0]` is the link, `args[1]` the pattern;
      fewer than two arguments is a `TypeError` that reports how many were
      given, more than two are ignored. */
  method CountOccurrences(args: seq<string>,
                          container: string -> Option<string>,
                          countMatches: (string, string) -> nat)
    returns (r: Result<nat, ArgError>)
    ensures r.Failure? <==> |args| < 2
    ensures r.Failure? ==> r.error == ArgCount(|args|)
    ensures r.Success? ==> r.value == EpisodeCount(args[0], args[1], container, countMatches)
  {
    if |args| < 2 {
      return Failure(ArgCount(|args|));
    }
    var link, regex := args[0], args[1];
    var script := ScriptText(container(link));
    script := StripWrapper(script);
    script := CutAtLastClose(script);
    script := ReplaceBr(script);
    return Success(countMatches(regex, script));
  }

  /** `URL + '?tv-show=' + show_title`: the slug is appended as it is,
      without URL encoding. */
  function IndexUrl(slug: string): string {
    IndexPage + "?tv-show=" + slug
  }

  /** `main`: build the slug, fetch the episode links (an error status ends
      the run with the not-found message), sum the per-episode counts and
      divide by the number of episodes only when the total is not zero. */
  method ScanShow(showTitle: string, phraseRegex: string,
                  index: string -> (int, seq<Option<string>>),
                  container: string -> Option<string>,
                  countMatches: (string, string) -> nat,
                  isAbsolute: string -> bool,
                  join: (string, string) -> string)
    returns (rep: Report)
    ensures var (status, hrefs) := index(IndexUrl(TitleSlug(showTitle)));
      && (rep.ShowNotFound? <==> status >= 400)
      && (rep.Summary? ==>
            var links := FilterLinks(hrefs, isAbsolute, join);
            rep.episodes == |links| &&
            rep.occurrences == ConcurrentSum(Counter(phraseRegex, container, countMatches), links))
    ensures rep.Summary? ==> rep.occurrences >= 0
    ensures rep.Summary? ==> (rep.average.Some? <==> rep.occurrences != 0)
    ensures rep.Summary? && rep.average.Some? ==>
      rep.episodes > 0 && rep.average.value == rep.occurrences as real / rep.episodes as real
  {
    var title := TitleSlug(showTitle);
    var (status, hrefs) := index(IndexUrl(title));
    var fetched := GetEpisodeLinks(status, hrefs, isAbsolute, join);
    if fetched.Failure? {
      return ShowNotFound;
    }
    var links := fetched.value;
    var episodeCount := |links|;
    var count := Counter(phraseRegex, container, countMatches);
    var occurrences := ConcurrentSum(count, links);
    ConcurrentSumBounds(count, links);
    var average := None;
    if occurrences != 0 {
      average := Some(occurrences as real / episodeCount as real);
    }
    rep := Summary(occurrences, episodeCount, average);
  }
}
