# ScraperGoogleScholar core, modelled in Dafny

ScraperGoogleScholar searches Google Scholar for a query and looks up every hit in
Crossref to get a DOI and structured author names. It guesses the nation and gender of
the first and the last author with Nationalize and Genderize, and writes one CSV row per
hit. This project models the sequential core of that pipeline and proves what the code
promises about it:

- `outcomes.dfy` (`Outcomes`): `Option`, and `Result` with the Python exceptions the core
  raises or catches (`KeyError`, `TypeError`, `IndexError`, `ValueError`, `StopIteration`,
  `ConnectionError`, and `ServiceError` for any failure inside an upstream call).
- `text.dfy` (`Text`): the string operations the code relies on, over `seq<char>`:
  - `lower()` over ASCII;
  - `replace` of one character;
  - the `re.sub` character filters;
  - `split(c)[0]`, `[:n]`, `', '.join`, `str.replace` of a substring;
  - `str(n)`.
- `crossref.dfy` (`Crossref`) covers `_crossref.py`:
  - the query text of `petition` and its defaults for a missing DOI or author list;
  - `get_doi`;
  - `get_fullname_authors`, as a loop and as a specification function;
  - the forward and backward author scans.
- `demografix.dfy` (`Demografix`) covers `_demografix.py`:
  - the given-name normalisation;
  - `get_nation` and `get_gender` as step-by-step methods, each proved against a
    specification function.
- `scraper.dfy` (`Scraper`) covers `_scraper.py`:
  - the `scrapeGS` retry loop;
  - the `check_availability` page walk;
  - the per-hit `try` block of `get_entries`;
  - the per-index retry loop that fills a preallocated `array` in place;
  - the file slug and the 19-column row layout of `write`.
- `driver.dfy` (`Driver`) covers `run` in `__main__.py`: the resume filter, the search,
  the availability probe at 1000 entries, and the per-rank loop that hands found entries
  to the writer.

Every upstream service is a function-typed parameter:

- `search(query, n)` is the outcome of the n-th call of `search_pubs`. It is `None` when
  that call raises.
- `fetch(page, url)` is the page the probe receives at `page`.
- `works(q)` is the first Crossref item for the query text `q`. It is `None` on any failure.
- `nationalize(n)` and `genderize(n, c)` are the two inference services.
- A search session is the finite sequence of raw hits its stream yields. `next` past its
  end raises `StopIteration`, which the retry loop catches like any other failure.
- Each failed attempt runs the proxy-rotation recovery step once. The model counts those
  steps.

The retry loop of `get_entries` is stated for any processing function
(`Scraper.Processing`). `Scraper.Process(sv)` is the one the code runs: `ProcessSpec`,
the body of the `try` block.

A Crossref failure propagates out of `petition` and fails the attempt (_crossref.py:33-37).

## Model

| member | source | states |
|---|---|---|
| Text.Lower | _scraper.py:250 | `lower()` keeps the length, and no character of the result is an upper-case ASCII letter |
| Text.LowerIdempotent | _scraper.py:250 | lower-casing twice is lower-casing once |
| Text.ReplaceChar | _scraper.py:146-147 | `replace(a, b)` keeps the length and swaps exactly the positions holding `a` |
| Text.KeepLetters | _scraper.py:248-250 | the `[^a-zA-Z]` filter keeps only ASCII letters and never lengthens its input |
| Text.KeepLettersByCharacter | _scraper.py:248-250 | one character is kept exactly when it is an ASCII letter; with `KeepLettersAppend` every letter survives, in order |
| Text.KeepLettersAppend | _scraper.py:248-250 | the letter filter works piecewise: filtering `a + b` is filtering `a`, then `b` |
| Text.KeepLettersIdempotent | _scraper.py:248-250 | filtering the letters twice is filtering once |
| Text.KeepLettersLower | _scraper.py:250 | lower-casing and the letter filter commute |
| Text.RemoveChars | _scraper.py:146-151 | the `[\[\]\']` filter leaves none of the dropped characters and never lengthens its input |
| Text.RemoveCharsByCharacter | _scraper.py:146-151 | one character is kept exactly when it is not dropped; with `RemoveCharsAppend` every other character survives, in order |
| Text.RemoveCharsKeepsOut | _scraper.py:146-151 | removing characters never brings in one the input did not hold |
| Text.RemoveCharsAppend | _scraper.py:146-151 | the character filter works piecewise, so kept characters keep their order |
| Text.Before | _demografix.py:25-29 | `split(c)[0]` is a prefix without `c`, which stops exactly at the first `c` |
| Text.BeforeAt | _demografix.py:25-29 | `split(c)[0]` is the text before the first occurrence of `c` |
| Text.Take | _scraper.py:250 | `[:n]` is a prefix of length `min(n, len)` |
| Text.Join | _crossref.py:55 | `', '.join` of no texts is '', and otherwise starts with the first text and holds a separator between each pair |
| Text.JoinSnoc | _crossref.py:50-55 | joining one more text appends the separator and that text, or gives the text alone when it is the first |
| Text.ReplaceAll | _scraper.py:193 | `str.replace` leaves a text shorter than the pattern unchanged, is the identity when the pattern replaces itself, and never lengthens when the replacement is no longer than the pattern |
| Text.ReplaceAllNoMatch | _scraper.py:193 | a text in which the pattern occurs nowhere is left unchanged |
| Text.ReplaceAllAtMatch | _scraper.py:193 | an occurrence at the front becomes the replacement and the scan resumes after it, so occurrences do not overlap |
| Text.ReplaceAllSkip | _scraper.py:193 | where the pattern does not start the text, the first character is kept and the scan moves on by one; with the two lemmas above this fixes the result on every text |
| Text.Decimal | __main__.py:29 | `str(n)` is a non-empty text of decimal digits, one digit exactly when `n < 10`, with no leading zero |
| Text.DecimalRoundTrip | __main__.py:29 | reading the text of `n` back, most significant digit first, gives `n` |
| Text.DecimalInjective | __main__.py:29 | distinct ranks have distinct texts, so comparing texts compares ranks |
| Crossref.QueryAuthors | _crossref.py:26 | the author part of the query has no `;`, no `"` and no upper-case letter |
| Crossref.QueryAuthorsByCharacter | _crossref.py:26 | the author part is built character by character in order: `;` becomes `,`, `"` is dropped, every other character is lower-cased |
| Crossref.QueryText | _crossref.py:26-27 | the query is the cleaned authors, a space, the year unchanged, a space and the lower-cased title in double quotes |
| Crossref.Petition | _crossref.py:23-39 | it fails exactly when the Crossref call fails (the error is re-raised); a missing DOI becomes '' and a missing author list becomes the single author NA NA |
| Crossref.GetDoi | _crossref.py:42-44 | the result is '' exactly for the empty DOI, otherwise the resolver prefix followed by the DOI |
| Crossref.GivenOnly | _crossref.py:47-55 | an author is kept exactly when it has a given name, and every kept author comes from the input |
| Crossref.GivenOnlyAppend | _crossref.py:47-55 | the filter works piecewise, so the kept authors stay in input order |
| Crossref.DisplayName | _crossref.py:52 | the full name is the given name, one space, and the family name |
| Crossref.NameList | _crossref.py:47-55 | one "given family" text per author with a given name, in input order |
| Crossref.FullNamesText | _crossref.py:47-55 | the join succeeds exactly when every author with a given name has a family name (else `KeyError('family')`); an empty list gives '' |
| Crossref.GetFullnameAuthors | _crossref.py:47-55 | the loop returns exactly `FullNamesText`: the ", "-joined names, or `KeyError('family')` |
| Crossref.FirstGiven | _crossref.py:58-62 | the index found has a given name and no earlier author has one; `len` when none has |
| Crossref.LastGiven | _crossref.py:65-69 | one past the index found has a given name and no later author has one; 0 when none has |
| Crossref.Pick | _crossref.py:62 | reading `given` and `family` never yields `None`; it raises `KeyError('family')` exactly when the family name is missing, and otherwise returns (given, family) |
| Crossref.FirstAuthor | _crossref.py:58-62 | the forward scan returns the first author with a given name, or `None` |
| Crossref.LastAuthor | _crossref.py:65-69 | the backward scan returns the last author with a given name, or `None` |
| Crossref.ScansFindNothingIffNoGiven | _crossref.py:58-69 | both scans return `None` exactly when no author has a given name |
| Crossref.Reverse | _crossref.py:67 | `reversed` keeps the length and puts element `k` at position `len - 1 - k` |
| Crossref.LastAuthorIsFirstOfReversed | _crossref.py:65-69 | the last author is the first author of `reversed(authors)`, as the code computes it |
| Crossref.FirstAuthorAt | _crossref.py:58-62 | the forward scan stops at the first author with a given name |
| Crossref.LastAuthorAt | _crossref.py:65-69 | the backward scan stops at the last author with a given name |
| Crossref.OneGivenFirstIsLast | _crossref.py:58-69 | with exactly one author carrying a given name, first and last author coincide and are not `None` |
| Crossref.PlaceholderIsFirstAndLast | _crossref.py:31 | with the NA NA placeholder, both scans return ('NA', 'NA') |
| Demografix.AuthorLabel | _demografix.py:21 | the key is the given name, one space, then the surname, and is the blank label `' '` exactly when both parts are empty |
| Demografix.CutAtHyphen | _demografix.py:25-26 | the result is a prefix with no `-` or U+2010 and stops exactly at the first of them |
| Demografix.CutAtPeriod | _demografix.py:28-29 | the result is a prefix with no `.` and stops exactly at the first `.` |
| Demografix.NormaliseGivenName | _demografix.py:25-29 | the name sent to Genderize is the longest prefix with no hyphen of either kind and no period |
| Demografix.NormaliseHyphenatedName | _demografix.py:25-26 | "Jean-Paul" is sent as "Jean" |
| Demografix.NormaliseAbbreviatedName | _demografix.py:28-29 | "J. Paul" is sent as "J" |
| Demografix.NormaliseBothRules | _demografix.py:25-29 | "J.-P." is cut at the hyphen, then at the period, giving "J" |
| Demografix.NormaliseUnicodeHyphen | _demografix.py:25-26 | U+2010 counts as a hyphen: "Ana‐Maria" is sent as "Ana" |
| Demografix.FirstCountry | _demografix.py:63-64 | the first country of the answer, or ("", 0.0) for an empty answer |
| Demografix.NationQueries | _demografix.py:56-68 | no query for a blank author; otherwise the hyphen-cut surname first, then the given name when the surname yields no country, or the surname again |
| Demografix.NationSpec | _demografix.py:42-71 | a blank author gets ("", ""); otherwise the first country of the answer for the given name when the cut surname yields none, or for the cut surname |
| Demografix.GetNation | _demografix.py:42-71 | keyed by the label before normalisation; the hyphen-cut surname is asked first and the unchanged given name only when the surname yields no country; a blank author gives ("", "") and no call |
| Demografix.GenderSpec | _demografix.py:9-39 | a blank author gets ("", ""); otherwise the gender and probability Genderize gives for the normalised given name and the country |
| Demografix.GetGender | _demografix.py:9-39 | keyed by the label before normalisation; Genderize is asked twice with the normalised name and the country found under the label; a blank author gives ("", "") and no call; a label missing from the nations raises `KeyError` |
| Scraper.FirstSuccess | _scraper.py:55-75 | the first call below 20 that yields a session; every earlier call failed, and `None` means all 20 failed |
| Scraper.FirstSuccessAt | _scraper.py:55-75 | a success after failed calls only is the first success |
| Scraper.ScrapeGS | _scraper.py:55-82 | at most 20 calls; the first session found is returned and nothing is called after it; one recovery per failed call; `ConnectionError` exactly when all 20 calls fail |
| Scraper.Walk | _scraper.py:94-117 | the probe never parses more pages than it requested, at most 6; without a failure, step n has made n requests, the first being the start url |
| Scraper.FailureEndsTheWalk | _scraper.py:99 | once a request raises, no further request is made |
| Scraper.UnparsedPageIsRequestedAgain | _scraper.py:113-117 | a page without a "next" link is not counted and leaves the url unchanged |
| Scraper.EveryParsedPageCounts | _scraper.py:105-111 | when every page parses, the probe counts 6 pages, so it returns 1000 |
| Scraper.Availability | _scraper.py:94-117 | the probe starts at page 940, counts at most 6 parsed pages, and makes exactly 7 requests unless one raises |
| Scraper.CheckAvailability | _scraper.py:94-122 | the loop returns 940 + 10 × the pages parsed; it makes exactly 7 requests; the result lies between 940 and 1000; a request that raises ends it with that error |
| Scraper.CleanList | _scraper.py:146-151 | the cleaned author list holds no `[`, `]`, `'` or `,` |
| Scraper.CleanListByCharacter | _scraper.py:146-151 | the cleanup maps each character independently: it drops brackets and quotes, turns `,` into `;` and keeps every other character in order |
| Scraper.Lookup | _scraper.py:146-157 | a dictionary read succeeds exactly for a present key; otherwise it raises `KeyError(key)` |
| Scraper.Unpack | _scraper.py:172 | unpacking `None` raises `TypeError`; anything else unpacks as it is |
| Scraper.ReadHit | _scraper.py:146-161 | the reads succeed exactly when author, author_id, pub_year and title are present, each missing key raising `KeyError`; pub_url defaults to '' |
| Scraper.Demography | _scraper.py:172-181 | the nation record is the one `get_nation` finds for the author, and the gender is guessed with that record's country; a blank author gets empty records |
| Scraper.Enrich | _scraper.py:163-183 | it succeeds exactly when Crossref answers, every author with a given name has a family name and one author has a given name; the first and last authors are those the scans return |
| Scraper.MakeEntry | _scraper.py:186-207 | an entry carries exactly the 18 entry keys: every column but AUTHOR_ID |
| Scraper.MakeEntryColumns | _scraper.py:186-198 | AUTHOR holds the full names, FIRST_AUTHOR and LAST_AUTHOR the labels of those authors, then the year, title, link, URL, rank, citations and DOI each in its own column |
| Scraper.MakeEntryDemographyColumns | _scraper.py:199-207 | the gender, gender probability, nation and country probability columns of the first and the last author hold those authors' guesses |
| Scraper.ProcessSpec | _scraper.py:141-207 | an attempt succeeds exactly when the hit reads, it enriches and the link, rank and citation keys are present; a successful entry has exactly the entry keys |
| Scraper.EntryColumns | _scraper.py:141-198 | in a processed entry, the title, year and URL come from the hit, the link from `url_scholarbib` and the index, the rank and citations from the raw item, and the full names, first and last author labels and DOI from `Enrich` |
| Scraper.EntryDemographyColumns | _scraper.py:172-207 | in a processed entry, the eight demographic columns are the nation and gender guesses `Enrich` made for the first and the last author |
| Scraper.NoGivenNameFailsAttempt | _scraper.py:172 | a Crossref item none of whose authors has a given name makes the attempt fail |
| Scraper.DescribeAuthor | _scraper.py:173-174 | calling `get_nation`, then `get_gender` with its result, gives `Demography` and raises nothing of its own |
| Scraper.EnrichEntry | _scraper.py:163-183 | the step-by-step Crossref and demography calls give exactly `Enrich` |
| Scraper.ProcessEntry | _scraper.py:141-207 | the `try` block, step by step, gives exactly `ProcessSpec` |
| Scraper.ProcessBuildsEntries | _scraper.py:186-207 | every entry the `try` block builds has exactly the entry keys |
| Scraper.FirstOk | _scraper.py:140-143 | the first position whose hit processes, or the window end; a first hit that processes is taken |
| Scraper.BeforeFirstOkAllFail | _scraper.py:216-225 | every hit before the one kept failed to process |
| Scraper.FetchWithin | _scraper.py:140-227 | after `a` attempts an index has either kept the first processing hit after one failure per skipped hit, or failed `a` times and keeps no entry |
| Scraper.SkippedHitsFailed | _scraper.py:216-225 | every hit an index consumed before the one it kept failed |
| Scraper.SuccessEndsTheIndex | _scraper.py:226-227 | after a success, further attempts change nothing |
| Scraper.FetchIndex | _scraper.py:140-230 | an index that finds an entry took it from the last hit it consumed; an index that finds none keeps the empty entry |
| Scraper.FetchIndexShortcuts | _scraper.py:143 | at the end of the stream every attempt fails and nothing is consumed; a first hit that processes is kept at once |
| Scraper.FetchIndexBounds | _scraper.py:140-143 | an index consumes at most 20 hits, and at least one while the stream lasts; it keeps no entry exactly when all 20 attempts failed |
| Scraper.Attempts | _scraper.py:140-227 | the attempts one at a time never move past the end of the stream |
| Scraper.AttemptsAreFetchWithin | _scraper.py:140-227 | the attempts taken one at a time end exactly where `FetchWithin` says |
| Scraper.FillAll | _scraper.py:138-232 | after n indices there are n entries and the stream position is within the stream |
| Scraper.FetchEntry | _scraper.py:140-230 | the inner `for`/`else` loop ends exactly as `FetchIndex` says: its entry, the hits consumed, one recovery per failed attempt |
| Scraper.GetEntries | _scraper.py:137-232 | the array filled in place has `numentries` elements and equals `FillAll`, as do the hits consumed and the recoveries |
| Scraper.Processed | _scraper.py:139-143 | the entry list built when hit k processes for index k |
| Scraper.FillAllWhenEveryHitProcesses | _scraper.py:139-143 | when every hit processes, index k keeps hit k at the first attempt, with no skipped hit and no recovery |
| Scraper.Blank | _scraper.py:138 | n empty entries |
| Scraper.IndexAtEndOfStream | _scraper.py:228-230 | an index that starts at the end of the stream fails 20 times and keeps its empty entry |
| Scraper.ExhaustedStreamLeavesEntriesEmpty | _scraper.py:137-232 | once the stream is exhausted, every later index keeps its empty entry and costs 20 recoveries |
| Scraper.Slug | _scraper.py:248-250 | the stem is the first 15 letters of the lower-cased query, or all of them when there are fewer, all lower-case ASCII letters |
| Scraper.FileName | _scraper.py:247-250 | the file name is the timestamp, `_`, the stem and `.csv` |
| Scraper.SlugDependsOnLettersOnly | _scraper.py:248-250 | the stem depends on the query only through its letters, whatever their case |
| Scraper.RowOf | _scraper.py:275-279 | a row has the 19 columns in header order, '' where the entry has no key |
| Scraper.EntriesFitTheHeader | _scraper.py:254-279 | an empty entry, or one with exactly the entry keys, is writable and leaves AUTHOR_ID empty |
| Scraper.FilledEntriesHaveEntryKeys | _scraper.py:186-207 | every element `get_entries` returns is the empty dictionary or has exactly the entry keys |
| Scraper.FilledEntriesAreWritable | _scraper.py:275-279 | every element `get_entries` returns is written without error, with an empty AUTHOR_ID column |
| Scraper.Write | _scraper.py:235-279 | the file is named `date_slug.csv` and has one header row, then one row per index below `numentries` in column order; `IndexError` past the list and `ValueError` for an unknown key stop it |
| Driver.PendingRanks | __main__.py:29 | the ranks to download are in 1..n, none downloaded, every missing rank present, strictly ascending |
| Driver.EntriesToDownload | __main__.py:29 | the list holds the text of each pending rank, in order |
| Driver.EntriesToDownloadAreTheMissingRanks | __main__.py:29 | the text of a rank in 1..n is in the list exactly when it was not downloaded |
| Driver.EntriesToDownloadAreRanks | __main__.py:29 | the list holds only texts of ranks in 1..n that were not downloaded |
| Driver.EntriesToDownloadHasNoDuplicates | __main__.py:29 | no rank is listed twice |
| Driver.Writes | __main__.py:42-49 | the first n passes make at most n write calls, each for a rank below n |
| Driver.WritesInRankOrder | __main__.py:42-49 | the write calls come in increasing rank order, each passing the entry `get_entry` found for its rank |
| Driver.RankWrittenIffFound | __main__.py:42-49 | rank k + 1 is written exactly when `get_entry` finds an entry for it |
| Driver.WritesAreTheFoundEntries | __main__.py:42-49 | for every rank visited, it is written exactly when an entry was found |
| Driver.DriveRanks | __main__.py:42-49 | the loop visits ranks 1 to the bound in order and makes exactly the write calls `Writes` lists |
| Driver.Run | __main__.py:14-49 | the resume list is `EntriesToDownload`; a failed search raises `ConnectionError`; at 1000 entries the bound becomes the probe's count (or the probe's error); then every rank up to the bound is visited |

## Left out

- The network and library calls are parameters: `scholarly.search_pubs`, `requests.get`
  with the BeautifulSoup parse, `Crossref().works` and the Genderize and Nationalize
  clients. A BeautifulSoup page counts as parsed exactly when it has a last "next" link.
- `Proxy.set_new_proxy` (_proxy.py) is a counted recovery step. Its operator prompt, its
  wait, and the `NameError` its "exit" branch would raise (`sys` is not imported there) are
  not part of this model.
- `time.sleep`, the progress messages, and the `verbose` switch are not modelled.
- The timestamp in the file name is a `date` parameter.
- `Scraper.Write` produces the file as a value: its name, its rows, and the exception
  that stopped it. CSV quoting, file handles and the output directory are not modelled.
- `Text.Lower`: `lower()` is modelled over ASCII only; other characters are unchanged.
- `Demografix.FirstCountry`: the inference probabilities are floats in the code; they are
  kept as their text, so the default 0.0 is the text "0.0".
- `Scraper.Enrich`: `get_entries` catches every exception. The model keeps only the
  exception kinds the core itself raises; a Crossref failure is one `ServiceError`.
- `Scraper.Demography`, `Scraper.DescribeAuthor` and `Scraper.Enrich` assume the Genderize
  and Nationalize calls succeed: the inference oracles are total. In the code those calls,
  and the reads of `['gender']`, `['probability']` and `['country']` on their answers
  (_demografix.py:33-34, 61-67), can raise; the attempt then fails and is retried with a
  recovery step (_scraper.py:216-225). The model does not capture that failure path.
- `Driver.Run`, `Scraper.GetEntries` and `Scraper.Write` take the entry count as a `nat`.
  `run` accepts any integer, since the check at __main__.py:78 never rejects one; a
  negative count behaves like 0 there, through the empty `range`.
- `Scraper.ScholarLink` rewrites `url_scholarbib` with the code's two `replace` calls. It
  carries no contract of its own.
- `Scraper.GetEntries`: it is stated for any processing function, and
  `Scraper.Process(sv)` is the one the code uses. It returns the hits consumed and the
  recovery count as well as the entries.
- `get_downloaded_entries` and `get_entry` are called by `run` (__main__.py:28, 45) but
  are not defined in the scraper class; as written, `run` would stop with `AttributeError`.
  `Driver.Run` takes the first's answer as the `downloaded` parameter and the second as
  the `getEntry` oracle.
- `Driver.Run`: it records each write call with the arguments it passes rather than
  calling `Scraper.Write`. `run` passes one entry and a 0-based rank (__main__.py:49), but
  `write` expects a list of entries and a count (_scraper.py:235). Taken literally, `write`
  would look up integer keys in the entry dictionary, so the model does not join the two.
- `main` is not modelled: argument parsing, its input checks and the creation of the
  dated output directory (__main__.py:52-103).
- setup.py is packaging metadata and is not modelled.
