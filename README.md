# scan-films: the string and list layer of `scan_film.py`

`scan_film.py` counts how often a phrase (a regular expression) is said
across every episode script of a TV show. The show's scripts come from
springfieldspringfield.co.uk. The script fetches the show's episode index,
keeps the links that look like episodes (`s<digits>e<digits>`), downloads
each script, cleans the markup and counts the matches. The per-episode
counts are summed, optionally on a thread pool.

This Dafny project models the deterministic part under the networking:

- `Slug` (`slug.dfy`): the title slug `'-'.join(title.lower().split())`.
- `Cleaning` (`cleaning.dfy`): the three cleaning steps of
  `count_occurrences`. They strip the first `<div class="episode_script">`,
  keep the text before the last `</div>`, and replace each match of
  `BR_REGEX` (`<br\s?/?>`) with one space.
- `Links` (`links.dfy`): the anchor loop of `get_episode_links`, with its
  `s\d+e\d+` search. It is a method with a loop, proved against a
  specification function. An error status gives `HttpError`.
- `Aggregate` (`aggregate.dfy`): `concurrent_sum` as a left fold of the
  per-argument results.
- `Driver` (`driver.dfy`): `count_occurrences` with its argument-count
  guard, and `main` with its guarded per-episode average.
- `Strings`, `Wrappers`: character classes, substring search, `Option` and
  `Result`.

Everything the script gets from a library or the network is a
function-typed parameter. That covers the index request and its parsed
`href`s, the script container lookup, `urljoin` and the absolute-URL test,
and the count of the user's regex. The model does not look inside these.

Where the code's behaviour may be unexpected, the model follows the code:

- Line-break stripping is case-sensitive. `BR_REGEX` has no IGNORECASE
  flag, so `<BR>` and `<BR/>` are left in the text (`ReplaceBrNoTag`).
- A page without the script container does not crash. `unicode(None)` is
  the text `"None"`, which the cleaning leaves as it is, and the phrase
  is counted in that text (`Driver.MissingContainerCount`).
- The tag removed is `<div class="episode_script">`, while the container
  looked up has class `scrolling-script-container`. Both are modelled as
  written.

The show title comes from `sys.argv`, a Python 2 byte string. Its
characters stand for bytes, and `lower()` changes only ASCII capitals. The
script text (`unicode(...)`) and the parsed `href`s are Unicode text. The
patterns are compiled without the UNICODE flag, so `\s` matches only ASCII
whitespace and `\d` only ASCII digits. `split()` on the title uses the same
ASCII whitespace: space, tab, line feed, vertical tab, form feed and
carriage return.

## Model

| member | source | states |
|---|---|---|
| `Slug.Lower` | scan_film.py:106 | `lower()` works character by character: each ASCII capital becomes its own lower-case letter (code point plus 32), every other character, whitespace included, stays as it is |
| `Slug.Words` | scan_film.py:106 | `split()` yields non-empty, whitespace-free words whose concatenation is exactly the non-whitespace text; `WordsAroundSpace` shows that whitespace is what separates them, and `WordsSolid` that nothing else does |
| `Slug.WordsSolid` | scan_film.py:106 | a non-empty text without whitespace is a single word, so `split()` breaks only at whitespace |
| `Slug.WordsAroundSpace` | scan_film.py:106 | one whitespace character separates words: the words of `a + c + b` are the words of `a` followed by the words of `b` |
| `Slug.WordsAcrossRun` | scan_film.py:106 | a non-empty whitespace run of any length separates words just as one whitespace character does |
| `Slug.JoinDash` | scan_film.py:106 | `'-'.join` starts with the first word and is as long as the words together plus one `-` between each pair of neighbours; `JoinDashAppend` gives its contents |
| `Slug.JoinDashAppend` | scan_film.py:106 | joining two non-empty word lists is joining each and putting one `-` between them, so the words follow in order, one `-` apart |
| `Slug.JoinDashSeparators` | scan_film.py:106 | joining non-empty, dash-free words with `-` gives an empty string only for no words, no leading or trailing `-`, and never two `-` in a row |
| `Slug.TitleSlug` | scan_film.py:106 | the slug has no whitespace and no capital letters, since lowering happens before splitting; its shape is given by the lemmas below |
| `Slug.SlugSolid` | scan_film.py:106 | a title without whitespace slugs to itself, lowered |
| `Slug.SlugWordThenSpace` | scan_film.py:106 | a word, a whitespace run and a rest that still has a word slug to the lowered word, one `-`, and the slug of the rest; with the word `-` this gives `---` for a spaced dash such as `"Star Trek - Voyager"` |
| `Slug.SlugTwoWords` | scan_film.py:106 | two whitespace-free words around any whitespace run slug to the lowered words joined by one `-` |
| `Slug.SlugSurroundingSpace` | scan_film.py:106 | whitespace before or after the title does not show in the slug |
| `Slug.SlugSeparators` | scan_film.py:106 | for a title with no `-` of its own, the slug is empty exactly when the title is all whitespace, and it has no leading, trailing or doubled `-`; a title's own spaced `-` does give `---` (`SlugWordThenSpace`) |
| `Slug.SlugIdempotent` | scan_film.py:106 | normalising a slug again leaves it unchanged |
| `Cleaning.StripWrapper` | scan_film.py:97 | without the opening tag the text is unchanged; with it the text is shorter by exactly the tag's length, and putting the tag back at its leftmost position restores the input |
| `Cleaning.CutAtLastClose` | scan_film.py:98 | the result is a prefix of the input; without `</div>` it is the whole input; otherwise `</div>` follows it and occurs nowhere further right |
| `Cleaning.BrTagLen` | scan_film.py:31 | the matcher returns a length whose prefix is a full match of `<br\s?/?>`, and it finds the match whenever a prefix matches (the match is unique) |
| `Cleaning.BrTagSpellings` | scan_film.py:31 | `<br>`, `<br/>`, `<br >` and `<br />` (any one whitespace character) all match the pattern |
| `Cleaning.ReplaceBr` | scan_film.py:100 | `BR_REGEX.sub(' ', ...)` never lengthens the text; `ReplaceBrNoMatch` (text where no tag matches is unchanged) and `EachTagBecomesSpace` (each matched tag becomes one space) fix the result on every input |
| `Cleaning.ReplaceBrNoMatch` | scan_film.py:100 | text in which no position starts a match of `<br\s?/?>` is left exactly as it is, so `<brown`, `<br  >` and `<br clear="all">` survive |
| `Cleaning.ReplaceBrNoTag` | scan_film.py:100 | text that has no `<br` is left exactly as it is, so upper-case `<BR>` is not replaced |
| `Cleaning.TagBecomesSpace` | scan_film.py:100 | a matched tag at the front turns into exactly one space, and the rest is processed on its own |
| `Cleaning.ReplaceBrBeforeAngle` | scan_film.py:100 | no match runs across a `<`, so text cut just before a `<` is processed as two independent parts |
| `Cleaning.EachTagBecomesSpace` | scan_film.py:100 | a matched tag anywhere in the text becomes exactly one space, with the text on either side processed on its own |
| `Cleaning.CleanScript` | scan_film.py:95-100 | the three steps run in the source's order and never lengthen the text; `CleanWrapped` gives the result for a wrapped script |
| `Cleaning.PlainTextUnchanged` | scan_film.py:95-100 | text without any `<` contains neither wrapper tag nor `<br`, so cleaning leaves it as it is |
| `Cleaning.CleanWrapped` | scan_film.py:95-100 | a script of the form `<div class="episode_script">` + body + `</div>` cleans to the body with its line breaks replaced, whatever the body contains |
| `Links.TokenStartsAtIff` | scan_film.py:63 | checking only the maximal digit run after `s` decides the same as the pattern `s\d+e\d+` at that position |
| `Links.SearchTokenCorrect` | scan_film.py:67 | the search succeeds exactly when `s\d+e\d+` occurs in the link, and it returns the leftmost match |
| `Links.FilterLinks` | scan_film.py:62-70 | the loop's result has at most one link per anchor; `KeptPositionsSpec` and `FilterLinksAtPositions` say which links, in which order |
| `Links.KeptPositionsSpec` | scan_film.py:62-70 | the kept anchor positions are in range and strictly increasing, and a position is kept exactly when its anchor has an `href` in which the pattern is found |
| `Links.FilterLinksAtPositions` | scan_film.py:62-70 | the k-th output link is the `href` at the k-th kept position, made absolute only when it was not already; order and duplicates are preserved |
| `Links.KeptIffToken` | scan_film.py:63-70 | an anchor yields a link if and only if it has an `href` containing `s<digits>e<digits>` |
| `Links.GetEpisodeLinks` | scan_film.py:60-71 | a status of 400 or more is an `HttpError`; otherwise the loop's output is the specified filtered, absolutised sequence |
| `Aggregate.Sum` | scan_film.py:46 | `sum` of non-negative items is non-negative; `SumAppend`, `SumPermutation` and `SumBounds` give the rest |
| `Aggregate.SumAppend` | scan_film.py:46 | the sum of a concatenation is the sum of the sums |
| `Aggregate.SumPermutation` | scan_film.py:46 | any rearrangement of the results has the same sum |
| `Aggregate.SumBounds` | scan_film.py:46 | non-negative results sum to a non-negative total that is at least each result |
| `Aggregate.ConcurrentSum` | scan_film.py:39-46 | no arguments give 0; `ConcurrentSumFromFront` shows one result per argument is added |
| `Aggregate.ConcurrentSumFromFront` | scan_film.py:46 | the total is `func` of the first argument plus the total of the rest, so each argument contributes its result exactly once |
| `Aggregate.ConcurrentSumBounds` | scan_film.py:39-46 | with non-negative counts, no arguments give 0, the total is non-negative, and it is at least every single count |
| `Aggregate.ConcurrentSumAppend` | scan_film.py:39-46 | the total over two batches of arguments is the sum of their totals |
| `Aggregate.ConcurrentSumReordered` | scan_film.py:42-44 | handing the arguments over in any order gives the same total |
| `Driver.ScriptText` | scan_film.py:95 | a found container gives its text; a missing one gives `"None"`, the text of `unicode(None)`; `MissingContainerCount` gives what is then counted |
| `Driver.MissingContainerCount` | scan_film.py:95-101 | a page without the script container is not an error: the phrase is counted in the text `"None"`, which survives the cleaning unchanged |
| `Driver.CountOccurrences` | scan_film.py:86-101 | fewer than two arguments is a `TypeError` that carries the number given; otherwise the result is the pattern's count in the cleaned script of `args[0]` |
| `Driver.ScanShow` | scan_film.py:104-124 | the index is requested at `IndexPage + "?tv-show=" + TitleSlug(title)`, without URL encoding; a status of 400 or more means "not found"; otherwise there is one episode per filtered link and the occurrences are the non-negative sum of the per-episode counts; an average exists exactly when the occurrences are not zero, and then the episode count is positive and the average is occurrences divided by episodes |

## Left out

- HTTP requests, status parsing beyond the `>= 400` test, and `ServerNotFoundError` (scan_film.py:56-61, 76-79, 143-144): network I/O. The index response comes in as a status and a sequence of `href`s.
- The `TOTAL_BYTES` counter (scan_film.py:32, 58-59, 78-79): an unsynchronised, diagnostic-only global.
- BeautifulSoup parsing (scan_film.py:64-65, 80-83): a foreign library. Its results are parameters: the anchors' optional `href`s and the optional container text.
- `urlparse.urljoin` and the `netloc` test (scan_film.py:29, 49-50, 69): uninterpreted parameters. `urljoin(SITE, 'episode_scripts.php')` is written out as its constant value.
- Compiling and applying the user's regex (scan_film.py:101, 105): a general regex engine is out of scope. The count is an abstract function of pattern and text that returns a `nat`.
- `ThreadPoolExecutor` and `max_threads` (scan_film.py:42-44): threads are not modelled, so the model has no thread count. `executor.map` returns results in input order, so both branches are one fold. `ConcurrentSumReordered` covers any other order.
- A thread count of 0 or less (scan_film.py:131, 43): `int(sys.argv[3])` accepts it, and `ThreadPoolExecutor` then raises `ValueError`, so no sum is returned. The model has no thread count and cannot show this failure.
- An exception raised inside one call aborts the whole sum: the abstract count functions are total, so there is none to raise.
- Printing, float formatting, timing, `sys.argv`, the default of 10 threads and `sys.exit` (scan_film.py:116-124, 127-144): process I/O and floats.
- `Driver.ScanShow`: the average is an exact quotient, not a rounded float, because floating point is not modelled.
- `Links.KeptIffToken`: the episode designator is stated for the `href`, not for the URL after `urljoin`, because `urljoin` is not modelled.
