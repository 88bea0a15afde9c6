# pullpito in Dafny

pullpito is a command-line tool. It reports, for each GitHub repository it is
given, who opened, commented on and closed pull requests recently. It reads the
repository's public events from the GitHub events API, page by page, keeps the
pull-request activity, groups it by author and prints three counts per author.

This project models the decision and aggregation core of that program and
proves what it does:

- `prelude.dfy` (`Prelude`): Rust's `Option`, a result that may be a panic
  (`Panicking`), and `u32`.
- `decimal.dfy` (`Decimal`): decimal digits, Rust's `{}` rendering of an
  unsigned number (`ShowNat`) and `str::parse` of a digit string (`DecimalValue`).
- `events.dfy` (`Events`): the event records `RawEvent`, `Actor`, `Payload`,
  `Action` (5 variants) and `Type` (37 variants), exactly as declared. They have
  no fallback variant.
- `config.dfy` (`Config`): `Config::new`, the command line
  `pullpito <repositories> [<token>]`.
- `link_header.dfy` (`LinkHeader`): `last_page_from_link_header`. It scans for
  the regular expression `.*&page=(\d+)>; rel="last".*`, reproducing the regex
  engine's leftmost-first search and its greedy `.*`, including newlines. It
  then parses the number as `u32`, panicking on overflow.
- `pagination.dfy` (`Pagination`): the `github_events` loop over pages 1 to 9:
  - the method `RunPages` keeps the loop and its early exits;
  - each page's handling is a `PageStep`, and `Run` is the loop's meaning;
  - the network is a function `fetch` from request URL to response;
  - serde decoding is a function `decode` from body to events.
- `aggregate.dfy` (`Aggregate`): `events_per_author`, a filter followed by a
  fold into a map.
- `report.dfy` (`Report`): `printable`. It is imperative: passes over the map
  that append to the output string, in a map iteration order given as a
  parameter.

Where the code and its usual description differ, this model follows the code:
- The last-page check happens before the page is decoded and appended.
- A missing `Link` header panics.
- An unknown event type or action fails decoding of the whole page; there is no
  `Unknown` variant.

## Model

| member | source | states |
|---|---|---|
| Decimal.ShowNat | src/github_events/mod.rs:14-19 | the page number is written with at least one digit and no leading zero |
| Decimal.DecimalValue | src/github_events/mod.rs:91 | `str::parse` of a non-empty digit string; `ParseShowNat` proves it the inverse of `ShowNat` |
| Decimal.ParseShowNat | src/github_events/mod.rs:91 | parsing the decimal rendering of a number gives the number back |
| Decimal.ShowNatInjective | src/github_events/mod.rs:14-19 | different page numbers are written differently |
| Config.Split | src/lib.rs:40 | `split(',')` yields at least one piece and no piece contains a comma |
| Config.JoinSplit | src/lib.rs:40 | joining the pieces with commas gives the argument back: nothing is lost |
| Config.SplitJoin | src/lib.rs:40 | comma-free pieces joined with commas split back into the same pieces |
| Config.New | src/lib.rs:22-43 | error exactly when fewer than 2 arguments, with a message starting with "Missing arguments."; otherwise the repositories are a non-empty list of comma-free pieces that join back to `args[1]`, and the token is present exactly when there are exactly 3 arguments, and is then `args[2]` |
| Config.ProgramNameIgnored | src/lib.rs:34-39 | `args[0]` does not affect the result |
| Config.NoParams | src/lib.rs:147-152 | a single argument gives the usage error |
| Config.RepoParam | src/lib.rs:154-163 | `["", "fakeRepo"]` gives repositories `["fakeRepo"]` and no token |
| Config.OneRepoAndTokenParams | src/lib.rs:165-178 | a third argument becomes the token |
| Config.TwoReposAndTokenParams | src/lib.rs:180-193 | `"fakeRepo1,fakeRepo2"` gives two repositories |
| LinkHeader.DigitRunLength | src/github_events/mod.rs:89 | the run of digits at a position is maximal: every character in it is a digit and the next is not |
| LinkHeader.PatternIsOccurrence | src/github_events/mod.rs:89 | any way for `&page=(\d+)>; rel="last"` to match at a position is the occurrence found there, capturing the same digits |
| LinkHeader.OccurrenceIsPattern | src/github_events/mod.rs:89 | an occurrence found is a match of the pattern |
| LinkHeader.MatchFrom | src/github_events/mod.rs:89-91 | the leftmost-first search with greedy `.*`: its match is a candidate at or after the start, and `MatchFromSpec` states which one |
| LinkHeader.CaptureLastPage | src/github_events/mod.rs:89-91 | the digits captured: none exactly when there is no occurrence; otherwise some occurrence meets the capture characterisation and the capture is its digits |
| LinkHeader.MatchFromSpec | src/github_events/mod.rs:89-91 | the match chosen is on the first line with a candidate, and it is the last candidate on that line; none only when there is no candidate |
| LinkHeader.CaptureIsUnique | src/github_events/mod.rs:89-91 | at most one occurrence satisfies the capture characterisation |
| LinkHeader.CaptureLastPageSpec | src/github_events/mod.rs:89-91 | no capture exactly when there is no occurrence; otherwise the capture is the digits of the characterised occurrence |
| LinkHeader.LastPageFromLinkHeader | src/github_events/mod.rs:87-92 | None when there is no occurrence; `LastPageFromLinkHeaderSpec` states the value and the overflow panic |
| LinkHeader.RightmostOccurrenceWins | src/github_events/mod.rs:89-91 | on a one-line header the rightmost `rel="last"` occurrence is captured |
| LinkHeader.LastPageFromLinkHeaderSpec | src/github_events/mod.rs:87-92 | no occurrence gives None; otherwise the captured digits' value as `u32`, or a panic when it exceeds `u32::MAX` |
| LinkHeader.LastRelationIsCaptured | src/github_events/mod.rs:89-91 | an entry `<url>&page=d>; rel="last"` followed by text with no occurrence yields d |
| LinkHeader.OtherRelationIsIgnored | src/github_events/mod.rs:89 | entries whose relation is not `last` (next, prev, first) contain no occurrence |
| LinkHeader.LinkHeaderForPage1 | src/github_events/mod.rs:204-209 | the header with `next` then `last` gives `Some(5)` |
| LinkHeader.LinkHeaderForOtherPages | src/github_events/mod.rs:211-216 | the header with prev, next, last and first gives `Some(5)` |
| LinkHeader.UnknownHeaderValue | src/github_events/mod.rs:218-222 | `"moo"` gives None |
| Pagination.RequestUrlsDiffer | src/github_events/mod.rs:14-19 | different pages are requested at different URLs |
| Pagination.RequestUrl | src/github_events/mod.rs:14-19 | the request URL of a page, with the empty string for a missing token; `RequestUrlsDiffer` proves that no two pages share one |
| Pagination.Utf8Length | src/github_events/mod.rs:28 | `body.len()` counts UTF-8 bytes: between 1 and 4 per character |
| Pagination.TerminalBodies | src/github_events/mod.rs:28-30 | a body is terminal exactly when it is at most 2 bytes long; `""` and `"[]"` are terminal, any body of 3 or more characters is not |
| Pagination.IsTerminalBody | src/github_events/mod.rs:28 | `body.len() <= "[]".len()`; `TerminalBodies` proves it holds exactly for bodies of at most 2 UTF-8 bytes |
| Pagination.Step | src/github_events/mod.rs:20-78 | the as-written loop body for one page; `StepsAgreeOnNext` and `AnnouncingPage` state where it differs from the intended body |
| Pagination.FirstStop | src/github_events/mod.rs:12 | the first page from which the loop does not go on: every earlier page goes on |
| Pagination.RunFrom | src/github_events/mod.rs:12-80 | the loop from a given page on; `RunFromSpec` states its result |
| Pagination.Run | src/github_events/mod.rs:12-80 | the loop from page 1; `RunSpec` states its result and `RunPages` computes it imperatively |
| Pagination.RunFromSpec | src/github_events/mod.rs:12-80 | the loop's result is the events of the pages before the first stopping page, in page order, followed by that page's outcome |
| Pagination.RunSpec | src/github_events/mod.rs:12-80 | the same from page 1 |
| Pagination.RunFromLooksAtPagesBelowLimit | src/github_events/mod.rs:12 | the loop never looks at a page outside 1..9 |
| Pagination.RunPages | src/github_events/mod.rs:11-80 | the loop over pages 1..9 with early `break`/`return` computes `Run`, and the last page requested is the first stopping page (9 when none stops) |
| Pagination.GithubEvents | src/github_events/mod.rs:10-81 | `github_events` with the as-written loop body computes `Run` of it and requests pages 1 to `Requested` |
| Pagination.StepsAgreeOnNext | src/github_events/mod.rs:57-78 | the as-written and intended loop bodies go on for the same pages, with the same events |
| Pagination.IntendedStep | src/github_events/mod.rs:57-78 | the corrected loop body, which keeps the stopping page; `IntendedStepNeverCrashes` proves it never panics |
| Pagination.AnnouncingPage | src/github_events/mod.rs:57-78 | on a page whose header names `last`, both bodies append the page when it is not `last`; on `last`, as written stops with nothing and intended stops with the page's events |
| Pagination.StopsAt | src/github_events/mod.rs:12-80 | when pages 1..k-1 go on and page k does not, k is the last page requested and the result is built from pages 1..k |
| Pagination.ExplicitLastPage | src/github_events/mod.rs:57-67 | when every page names page `last` < 10, page `last` is the last requested, and its events are missing as written but present in the intended loop |
| Pagination.NoLastPage | src/github_events/mod.rs:66 | a header without `rel="last"` on page 1 stops the loop with no events |
| Pagination.MissingLinkHeader | src/github_events/mod.rs:58-59 | when pages before k go on and page k is a non-terminal page without a `Link` header, k is the last page requested and the program panics, whatever the decoder |
| Pagination.TerminalPage | src/github_events/mod.rs:26-55 | a body of at most 2 bytes, or a 422 read error, stops with the events gathered so far |
| Pagination.ErrorAtPage | src/github_events/mod.rs:20-53 | a connect failure or another read error returns that error, discarding the events gathered |
| Pagination.DecodeFailure | src/github_events/mod.rs:69-77 | a page that names another page as last but does not decode ends the loop at that page with the decoding error, discarding the events gathered |
| Pagination.PageCap | src/github_events/mod.rs:12 | when no page stops the loop, pages 1..9 are requested and all their events returned |
| Pagination.IntendedStepNeverCrashes | src/github_events/mod.rs:57-78 | the intended loop body never panics |
| Pagination.RunFromNeverPanics | src/github_events/mod.rs:12-80 | a loop whose pages never panic does not panic |
| Pagination.IntendedRunNeverPanics | src/github_events/mod.rs:57-78 | the intended loop never panics, whatever the responses |
| Pagination.IntendedGithubEvents | src/github_events/mod.rs:10-81 | the corrected loop computes `Run` of the intended body and never panics |
| Pagination.IntendedKeepsStoppingPage | src/github_events/mod.rs:57-78 | the intended loop keeps the events of a decoded page it stops at |
| Pagination.LastPageEventsDropped | src/github_events/mod.rs:57-67 | five one-event pages naming page 5 as last: as written, page 5's event is missing |
| Pagination.SinglePagePanics | src/github_events/mod.rs:58-59 | a single page sent without a `Link` header: as written it panics, the intended loop returns its event |
| Aggregate.Retained | src/lib.rs:89-93 | the kept events are exactly the input's PullRequestEvent, PullRequestReviewCommentEvent and IssueCommentEvent events |
| Aggregate.RetainedKeepsCopies | src/lib.rs:89-93 | the filter keeps every copy of a pull-request event and no copy of any other event |
| Aggregate.ByLogin | src/lib.rs:94-99 | the reference grouping: exactly the events with that login |
| Aggregate.Push | src/lib.rs:95-97 | `entry(..).or_insert_with(Vec::new).push(e)` appends e to its login's group, creates the key if absent, and changes no other key |
| Aggregate.Fold | src/lib.rs:94-99 | the fold over the retained events; `FoldGroups` states what it puts in each login's group |
| Aggregate.EventsPerAuthor | src/lib.rs:86-100 | `events_per_author`; `GroupsAreFilters`, `GroupsAreWellFormed` and `NothingLostOrDuplicated` state its keys and groups |
| Aggregate.FoldGroups | src/lib.rs:94-99 | the fold appends to each login's group exactly that login's events in order, and creates a key only for a login that has some |
| Aggregate.GroupsAreFilters | src/lib.rs:86-100 | a login is a key exactly when some retained event has it, and its group is the order-preserving filter of the retained events by login |
| Aggregate.GroupsAreWellFormed | src/lib.rs:86-100 | every group is non-empty and holds only pull-request activity by that login; every retained event's login is a key |
| Aggregate.NothingLostOrDuplicated | src/lib.rs:86-100 | a pull-request event occurs in its author's group exactly as often as in the input; any other event does not occur there |
| Aggregate.TotalSizeIsLength | src/lib.rs:94-99 | over distinct logins covering all events, the group sizes add up to the number of events |
| Aggregate.GroupSizesSum | src/lib.rs:94-99 | the group sizes of `events_per_author` sum to the number of retained events |
| Aggregate.ComputeEventsPerAuthor | src/lib.rs:229-244 | one opened pull request by alice gives alice a group of one event |
| Report.CountedIn | src/lib.rs:105-139 | the three filters: opened and closed pull requests, created issue comments; `Count`, `ReviewCommentsNotCounted` and `CountsAreDisjoint` state what they count |
| Report.Count | src/lib.rs:107-112 | the count is at most the number of events, and zero exactly when no event is of the section's kind |
| Report.Heading | src/lib.rs:104-128 | the three section headings; `SectionsForOneOpened` shows them in the report |
| Report.Title | src/lib.rs:103 | the first line; `TitleOfTestReport` gives it for the source's test |
| Report.AuthorLine | src/lib.rs:113 | one author's line; `SectionsForOneOpened` gives `    alice: 1` |
| Report.Listed | src/lib.rs:105-115 | the authors a pass lists, with their counts; `ListedIffPositive` and `ListedOnce` state which, and how often |
| Report.SectionText | src/lib.rs:104-115 | a section: its heading and then its lines; `AppendSection` computes it imperatively |
| Report.ReportText | src/lib.rs:102-141 | the whole report; `Printable` computes it and `ReportedCounts` states the counts in it |
| Report.Printable | src/lib.rs:102-141 | `printable` returns the title, then the opened, commented and closed sections in that order |
| Report.AppendSection | src/lib.rs:104-116 | one pass over the map appends the section heading and then one line per author with a positive count, in iteration order |
| Report.ListedIffPositive | src/lib.rs:105-139 | an author is listed in a section with count n exactly when it is a key and n is its positive count |
| Report.ListedOnce | src/lib.rs:105-139 | no author is listed twice in a section |
| Report.ReportedCounts | src/lib.rs:86-141 | each count in the report of `events_per_author` is the number of that author's events of the section's kind in the whole input |
| Report.ReviewCommentsNotCounted | src/lib.rs:105-139 | a PullRequestReviewCommentEvent never changes a count |
| Report.CountsAreDisjoint | src/lib.rs:105-139 | an event is counted in at most one section: the three counts add up to at most the number of events |
| Report.SectionsForOneOpened | src/lib.rs:200-225 | one opened pull request gives `opened per author:` then `    alice: 1`, and empty commented and closed sections |
| Report.PrintableWithOpenedPullRequest | src/lib.rs:200-225 | the whole report for that input is the title, the opened section with alice's line, and the two empty headings |
| Report.TitleOfTestReport | src/lib.rs:221 | the title is `pull requests for "my-org/my-repo" ->` followed by a newline |

## Left out

- The thread-per-repository fan-out, the `mpsc` channel and the printing in `github_events` (src/lib.rs:51-79): concurrency and output.
- src/main.rs is not part of this model: it is command-line glue.
- reqwest: a request is a function `fetch` from the request URL to a `Response`. `RequestUrlsDiffer` shows that this loses nothing: no two pages share a URL.
- serde_json decoding (`raw_github_events`) is the function parameter `decode`. Decoding rejects unknown tags, so an unknown type fails the whole page.
- chrono: `created_at` is an opaque `Timestamp` that nothing reads.
- Logging (`debug!`, `trace!`) and `env_logger`.
- `str::from_utf8` on the `Link` header (src/github_events/mod.rs:59): header values are modelled as strings, so the invalid-UTF-8 panic is not modelled.
- Report.Printable: the repository name is written between plain double quotes. Rust's `{:?}` escaping of quotes, backslashes and control characters in it is not modelled.
- LinkHeader.LastPageFromLinkHeader: `\d` matches ASCII digits only. The regex crate's Unicode decimal digits are not modelled.
- LinkHeader: the panic message on overflow is the one of the Rust release the program was written for.
- Report.Printable: the map's iteration order is a parameter: every key once, the same for the three passes. Which order a `HashMap` actually uses is not modelled.
- Report.Printable: the three source loops share one body that differs only in the event kind. Each pass is the method `AppendSection`, which `Printable` calls once per section in the source's order.
- Aggregate.EventsPerAuthor: the filter-and-fold is modelled as functions over sequences and maps. The `HashMap` mutated in place is not modelled.

## Findings

| source | as written | input that shows it | evidently intended | confidence | as-written member | corrected member |
|---|---|---|---|---|---|---|
| src/github_events/mod.rs:57-78 | the loop breaks when the current page is the last page, or when no last page is named, before the page is decoded and appended | five pages of one event each, each `Link` header naming page 5 as `rel="last"`: the result has four events | stop after appending the last page's events | not executed; high | Pagination.LastPageEventsDropped | Pagination.IntendedKeepsStoppingPage |
| src/github_events/mod.rs:58-59 | `get_raw("Link").unwrap()` panics when the response has no `Link` header, which GitHub omits when there is a single page | one page of one event with no `Link` header: the program panics | treat a missing header as naming no further page, and return the page's events | not executed; medium | Pagination.SinglePagePanics | Pagination.IntendedRunNeverPanics |
