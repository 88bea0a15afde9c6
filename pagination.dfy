/** `github_events` (src/github_events/mod.rs): fetch the event pages of one
    repository, page 1 upwards, and gather their events.

    The network is a parameter: `fetch` gives the response to a request URL
    and `decode` stands for serde's decoding of a page body. Each page's
    handling is a `PageStep`; `Run` folds the steps of pages 1 to 9 the way
    the loop does, and the method `GithubEvents` is proved to compute it. */
module Pagination {
  import opened Prelude
  import opened Decimal
  import opened Events
  import opened LinkHeader

  const ConnectError: string := "Cannot connect to GitHub API"
  const ReadError: string := "Cannot get GitHub API content"
  const DecodeError: string := "Cannot deserialize GitHub API content"
  const UnwrapNone: string := "called `Option::unwrap()` on a `None` value"
  const UnprocessableEntity: nat := 422

  /** The loop runs over `1..10`: pages 1 to 9. */
  const PageLimit: nat := 10

  /** What one request gives back. `ReadFailed` is a response whose body
      could not be read, with its HTTP status if it has one. `link` holds the
      raw values of the `Link` header: none when the header is absent,
      several when it is repeated. */
  datatype Response =
    | ConnectFailed
    | ReadFailed(status: Option<nat>)
    | Received(body: string, link: seq<string>)

  /** The function's result, or the panic that ends the program. */
  datatype Outcome =
    | Ok(events: seq<RawEvent>)
    | Err(message: string)
    | Panic(reason: string)

  /** What the loop does with one page: go on to the next page with these
      events appended, stop with these events appended, return an error, or
      panic. */
  datatype PageStep =
    | Next(events: seq<RawEvent>)
    | Stop(tail: seq<RawEvent>)
    | Fail(message: string)
    | Crash(reason: string)

  function RequestPrefix(repo: string, token: Option<string>): string {
    "https://api.github.com/repos/" + repo + "/events?access_token="
    + (if token.Some? then token.value else "") + "&page="
  }

  /** The request URL of a page; a missing token is written as nothing. */
  function RequestUrl(repo: string, token: Option<string>, page: nat): string {
    RequestPrefix(repo, token) + ShowNat(page)
  }

  /** Every page is requested at its own URL, so modelling the network as a
      function of the URL loses nothing. */
  lemma RequestUrlsDiffer(repo: string, token: Option<string>, p: nat, q: nat)
    requires p != q
    ensures RequestUrl(repo, token, p) != RequestUrl(repo, token, q)
  {
    var prefix := RequestPrefix(repo, token);
    assert (prefix + ShowNat(p))[|prefix|..] == ShowNat(p);
    assert (prefix + ShowNat(q))[|prefix|..] == ShowNat(q);
    ShowNatInjective(p, q);
  }

  /** Bytes taken by a character in UTF-8. */
  function Utf8Width(c: char): (n: nat)
    ensures 1 <= n <= 4
    ensures n == 1 <==> (c as int) < 0x80
  {
    if (c as int) < 0x80 then 1
    else if (c as int) < 0x800 then 2
    else if (c as int) < 0x1_0000 then 3
    else 4
  }

  /** `str::len`: the length of a string in UTF-8 bytes. */
  function Utf8Length(s: string): (n: nat)
    ensures |s| <= n <= 4 * |s|
  {
    if s == [] then 0 else Utf8Length(s[..|s| - 1]) + Utf8Width(s[|s| - 1])
  }

  /** A body no longer than `[]` means there are no more events. */
  predicate IsTerminalBody(body: string) {
    Utf8Length(body) <= Utf8Length("[]")
  }

  /** Exactly the bodies of at most two bytes are terminal: the empty body
      and `[]` are, any body of three or more characters is not. */
  lemma TerminalBodies(body: string)
    ensures IsTerminalBody(body) <==> Utf8Length(body) <= 2
    ensures IsTerminalBody("") && IsTerminalBody("[]")
    ensures |body| > 2 ==> !IsTerminalBody(body)
  {
    assert "[]"[..1] == "[";
    assert "["[..0] == "";
  }

  /** The loop body for one page, as written: the `Link` header is read and
      the last page checked before the body is decoded. */
  function Step(response: Response, decode: string -> Option<seq<RawEvent>>, page: nat): PageStep {
    match response
    case ConnectFailed => Fail(ConnectError)
    case ReadFailed(status) =>
      if status == Some(UnprocessableEntity) then Stop([]) else Fail(ReadError)
    case Received(body, link) =>
      if IsTerminalBody(body) then Stop([])
      else if |link| != 1 then Crash(UnwrapNone)
      else match LastPageFromLinkHeader(link[0])
        case Panics(reason) => Crash(reason)
        case Returns(None) => Stop([])
        case Returns(Some(last)) =>
          if page == last as int then Stop([])
          else match decode(body)
            case None => Fail(DecodeError)
            case Some(events) => Next(events)
  }

  /** The steps of one repository's pages, as written. */
  function AsWritten(repo: string, token: Option<string>, fetch: string -> Response,
                     decode: string -> Option<seq<RawEvent>>): nat -> PageStep
  {
    (page: nat) => Step(fetch(RequestUrl(repo, token, page)), decode, page)
  }

  /** The loop from `page` on, with `acc` gathered so far. */
  function RunFrom(step: nat -> PageStep, page: nat, acc: seq<RawEvent>): Outcome
    decreases PageLimit - page
  {
    if page >= PageLimit then Ok(acc)
    else match step(page)
      case Next(events) => RunFrom(step, page + 1, acc + events)
      case Stop(tail) => Ok(acc + tail)
      case Fail(message) => Err(message)
      case Crash(reason) => Panic(reason)
  }

  function Run(step: nat -> PageStep): Outcome {
    RunFrom(step, 1, [])
  }

  /** The first page from p on that does not let the loop go on, or
      PageLimit when all of them do. */
  function FirstStop(step: nat -> PageStep, p: nat): (k: nat)
    requires p <= PageLimit
    ensures p <= k <= PageLimit
    ensures forall q :: p <= q < k ==> step(q).Next?
    ensures k < PageLimit ==> !step(k).Next?
    decreases PageLimit - p
  {
    if p == PageLimit || !step(p).Next? then p else FirstStop(step, p + 1)
  }

  /** The events of pages a to b - 1, in page order. */
  function Collected(step: nat -> PageStep, a: nat, b: nat): seq<RawEvent>
    requires a <= b
    requires forall q :: a <= q < b ==> step(q).Next?
    decreases b - a
  {
    if a == b then [] else Collected(step, a, b - 1) + step(b - 1).events
  }

  /** How the loop ends at page k, having gathered `got`. */
  function Finish(step: nat -> PageStep, k: nat, got: seq<RawEvent>): Outcome {
    if k >= PageLimit then Ok(got)
    else match step(k)
      case Next(_) => Ok(got)
      case Stop(tail) => Ok(got + tail)
      case Fail(message) => Err(message)
      case Crash(reason) => Panic(reason)
  }

  lemma {:induction false} CollectedFront(step: nat -> PageStep, a: nat, b: nat)
    requires a < b
    requires forall q :: a <= q < b ==> step(q).Next?
    ensures Collected(step, a, b) == step(a).events + Collected(step, a + 1, b)
    decreases b - a
  {
    var last := step(b - 1).events;
    if a + 1 < b {
      CollectedFront(step, a, b - 1);
      var middle := Collected(step, a + 1, b - 1);
      assert Collected(step, a, b) == (step(a).events + middle) + last;
      assert Collected(step, a + 1, b) == middle + last;
      assert (step(a).events + middle) + last == step(a).events + (middle + last);
    } else {
      assert Collected(step, a, b) == [] + last;
      assert Collected(step, a + 1, b) == [];
      assert [] + last == last + [];
    }
  }

  /** The loop's result: the events of every page before the first one that
      stops it, and then that page's outcome. */
  lemma {:induction false} RunFromSpec(step: nat -> PageStep, p: nat, acc: seq<RawEvent>)
    requires p <= PageLimit
    ensures RunFrom(step, p, acc)
         == Finish(step, FirstStop(step, p), acc + Collected(step, p, FirstStop(step, p)))
    decreases PageLimit - p
  {
    var k := FirstStop(step, p);
    if p < PageLimit && step(p).Next? {
      assert k == FirstStop(step, p + 1);
      RunFromSpec(step, p + 1, acc + step(p).events);
      CollectedFront(step, p, k);
      assert acc + step(p).events + Collected(step, p + 1, k) == acc + Collected(step, p, k);
    } else {
      assert k == p && Collected(step, p, k) == [];
      assert acc + [] == acc;
    }
  }

  lemma RunSpec(step: nat -> PageStep)
    ensures Run(step) == Finish(step, FirstStop(step, 1), Collected(step, 1, FirstStop(step, 1)))
  {
    RunFromSpec(step, 1, []);
    assert [] + Collected(step, 1, FirstStop(step, 1)) == Collected(step, 1, FirstStop(step, 1));
  }

  /** Only pages 1 to 9 matter: whatever later pages would give, the loop
      never asks for them. */
  lemma {:induction false} RunFromLooksAtPagesBelowLimit(step: nat -> PageStep, step': nat -> PageStep,
                                                          p: nat, acc: seq<RawEvent>)
    requires forall q :: p <= q < PageLimit ==> step(q) == step'(q)
    ensures RunFrom(step, p, acc) == RunFrom(step', p, acc)
    decreases PageLimit - p
  {
    if p < PageLimit && step(p).Next? {
      RunFromLooksAtPagesBelowLimit(step, step', p + 1, acc + step(p).events);
    }
  }

  /** The number of pages the loop requests. */
  function Requested(step: nat -> PageStep): nat {
    var k := FirstStop(step, 1);
    if k == PageLimit then PageLimit - 1 else k
  }

  /** One turn of the loop at page `page`, with `acc` gathered so far. */
  lemma LoopTurn(step: nat -> PageStep, page: nat, acc: seq<RawEvent>)
    requires 1 <= page < PageLimit
    ensures step(page).Next? ==> FirstStop(step, page) == FirstStop(step, page + 1)
    ensures step(page).Next? ==> RunFrom(step, page, acc) == RunFrom(step, page + 1, acc + step(page).events)
    ensures !step(page).Next? ==> FirstStop(step, page) == page && RunFrom(step, page, acc) == Finish(step, page, acc)
  {
  }

  /** The loop of `github_events` over pages 1 to 9, each page handled by
      `step`; it returns the outcome and the number of pages requested. */
  method RunPages(step: nat -> PageStep) returns (outcome: Outcome, requested: nat)
    ensures outcome == Run(step)
    ensures requested == Requested(step)
  {
    var rawEvents: seq<RawEvent> := [];
    var page: nat := 1;
    while page < PageLimit
      invariant 1 <= page <= PageLimit
      invariant FirstStop(step, page) == FirstStop(step, 1)
      invariant RunFrom(step, page, rawEvents) == Run(step)
    {
      LoopTurn(step, page, rawEvents);
      match step(page) {
        case Next(events) =>
          rawEvents := rawEvents + events;
        case Stop(tail) =>
          return Ok(rawEvents + tail), page;
        case Fail(message) =>
          return Err(message), page;
        case Crash(reason) =>
          return Panic(reason), page;
      }
      page := page + 1;
    }
    outcome, requested := Ok(rawEvents), PageLimit - 1;
  }

  /** `github_events`: the loop over the pages of `repo`, page k being
      requested at RequestUrl(repo, token, k). */
  method GithubEvents(repo: string, token: Option<string>, fetch: string -> Response,
                      decode: string -> Option<seq<RawEvent>>)
    returns (outcome: Outcome, requested: nat)
    ensures outcome == Run(AsWritten(repo, token, fetch, decode))
    ensures requested == Requested(AsWritten(repo, token, fetch, decode))
  {
    outcome, requested := RunPages(AsWritten(repo, token, fetch, decode));
  }

  /* The intended loop body: decode and append the page, then stop when the
     header names no last page or names this one. */

  /** The last page a `Link` header names, read the intended way: a header
      that is missing, repeated, or whose number does not fit, names none. */
  function IntendedLastPage(link: seq<string>): Option<u32> {
    if |link| != 1 then None
    else match LastPageFromLinkHeader(link[0])
      case Returns(last) => last
      case Panics(_) => None
  }

  function IntendedStep(response: Response, decode: string -> Option<seq<RawEvent>>, page: nat): PageStep {
    match response
    case ConnectFailed => Fail(ConnectError)
    case ReadFailed(status) =>
      if status == Some(UnprocessableEntity) then Stop([]) else Fail(ReadError)
    case Received(body, link) =>
      if IsTerminalBody(body) then Stop([])
      else match decode(body)
        case None => Fail(DecodeError)
        case Some(events) =>
          match IntendedLastPage(link)
          case None => Stop(events)
          case Some(last) => if page == last as int then Stop(events) else Next(events)
  }

  function Intended(repo: string, token: Option<string>, fetch: string -> Response,
                    decode: string -> Option<seq<RawEvent>>): nat -> PageStep
  {
    (page: nat) => IntendedStep(fetch(RequestUrl(repo, token, page)), decode, page)
  }

  /** The two loop bodies agree on every page that lets the loop go on: they
      differ only on the page that ends it. */
  lemma StepsAgreeOnNext(response: Response, decode: string -> Option<seq<RawEvent>>, page: nat)
    ensures Step(response, decode, page).Next? <==> IntendedStep(response, decode, page).Next?
    ensures Step(response, decode, page).Next? ==> Step(response, decode, page) == IntendedStep(response, decode, page)
  {
  }

  /* Scenarios. */

  /** A page response that the loop can use: a body that is not terminal, a
      single `Link` value, and a body that decodes. */
  predicate Usable(response: Response, decode: string -> Option<seq<RawEvent>>) {
    && response.Received?
    && !IsTerminalBody(response.body)
    && |response.link| == 1
    && decode(response.body).Some?
  }

  /** A usable response whose `Link` header names `last` as the last page. */
  predicate Announces(response: Response, decode: string -> Option<seq<RawEvent>>, last: u32) {
    && Usable(response, decode)
    && LastPageFromLinkHeader(response.link[0]) == Returns(Some(last))
  }

  /** Pages 1 to `last` announce `last` as the last page. */
  predicate AllAnnounce(repo: string, token: Option<string>, fetch: string -> Response,
                        decode: string -> Option<seq<RawEvent>>, last: u32)
  {
    forall q :: 1 <= q <= last as int ==> Announces(fetch(RequestUrl(repo, token, q)), decode, last)
  }

  /** A page that announces `last` and is not `last` goes on in both loop
      bodies; page `last` stops both, keeping its events only in the
      intended one. */
  lemma AnnouncingPage(response: Response, decode: string -> Option<seq<RawEvent>>, last: u32, page: nat)
    requires Announces(response, decode, last)
    ensures var events := decode(response.body).value;
      && (page != last as int ==> Step(response, decode, page) == Next(events) == IntendedStep(response, decode, page))
      && (page == last as int ==> Step(response, decode, page) == Stop([]) && IntendedStep(response, decode, page) == Stop(events))
  {
  }

  /** A loop that stops at page k: it has requested k pages and its outcome
      is that of page k after the events of the pages before. */
  lemma StopsAt(step: nat -> PageStep, k: nat)
    requires 1 <= k < PageLimit
    requires forall q :: 1 <= q < k ==> step(q).Next?
    requires !step(k).Next?
    ensures Requested(step) == k
    ensures Run(step) == Finish(step, k, Collected(step, 1, k))
  {
    RunSpec(step);
  }

  lemma {:induction false} CollectedAgree(step: nat -> PageStep, step': nat -> PageStep, a: nat, b: nat)
    requires a <= b
    requires forall q :: a <= q < b ==> step(q).Next? && step(q) == step'(q)
    ensures Collected(step, a, b) == Collected(step', a, b)
    decreases b - a
  {
    if a < b {
      CollectedAgree(step, step', a, b - 1);
    }
  }

  lemma PagesBeforeLastGoOn(repo: string, token: Option<string>, fetch: string -> Response,
                            decode: string -> Option<seq<RawEvent>>, last: u32)
    requires AllAnnounce(repo, token, fetch, decode, last)
    ensures forall q :: 1 <= q < last as int ==>
      AsWritten(repo, token, fetch, decode)(q).Next? && AsWritten(repo, token, fetch, decode)(q) == Intended(repo, token, fetch, decode)(q)
  {
    forall q | 1 <= q < last as int
      ensures AsWritten(repo, token, fetch, decode)(q).Next?
      ensures AsWritten(repo, token, fetch, decode)(q) == Intended(repo, token, fetch, decode)(q)
    {
      var r := fetch(RequestUrl(repo, token, q));
      assert Announces(r, decode, last);
      AnnouncingPage(r, decode, last, q);
    }
  }

  /** Every page names page `last` as the last one: the loop requests pages
      1 to `last` and stops. Pages before `last` go on with their decoded
      events in both loop bodies, but as written the loop drops the events
      of page `last`, which the intended loop keeps. */
  lemma ExplicitLastPage(repo: string, token: Option<string>, fetch: string -> Response,
                         decode: string -> Option<seq<RawEvent>>, last: u32)
    requires 1 <= last as int < PageLimit
    requires AllAnnounce(repo, token, fetch, decode, last)
    ensures forall q :: 1 <= q < last as int ==>
      AsWritten(repo, token, fetch, decode)(q).Next? && AsWritten(repo, token, fetch, decode)(q) == Intended(repo, token, fetch, decode)(q)
    ensures Requested(AsWritten(repo, token, fetch, decode)) == last as int
    ensures Run(AsWritten(repo, token, fetch, decode))
         == Ok(Collected(AsWritten(repo, token, fetch, decode), 1, last as int) + [])
    ensures Run(Intended(repo, token, fetch, decode))
         == Ok(Collected(AsWritten(repo, token, fetch, decode), 1, last as int)
               + decode(fetch(RequestUrl(repo, token, last as int)).body).value)
  {
    var l := last as int;
    var asWritten := AsWritten(repo, token, fetch, decode);
    var intended := Intended(repo, token, fetch, decode);
    PagesBeforeLastGoOn(repo, token, fetch, decode, last);
    var r := fetch(RequestUrl(repo, token, l));
    assert Announces(r, decode, last);
    AnnouncingPage(r, decode, last, l);
    assert asWritten(l) == Stop([]);
    assert intended(l) == Stop(decode(r.body).value);
    StopsAtSamePage(asWritten, intended, l);
  }

  /** Two loop bodies that agree up to page k and both stop there. */
  lemma StopsAtSamePage(step: nat -> PageStep, step': nat -> PageStep, k: nat)
    requires 1 <= k < PageLimit
    requires forall q :: 1 <= q < k ==> step(q).Next? && step(q) == step'(q)
    requires step(k).Stop? && step'(k).Stop?
    ensures Requested(step) == k
    ensures Run(step) == Ok(Collected(step, 1, k) + step(k).tail)
    ensures Run(step') == Ok(Collected(step, 1, k) + step'(k).tail)
  {
    CollectedAgree(step, step', 1, k);
    StopsAt(step, k);
    StopsAt(step', k);
  }

  /** A first page whose `Link` header names no last page: as written the
      loop stops there with nothing; the intended loop keeps that page's
      events. */
  lemma NoLastPage(repo: string, token: Option<string>, fetch: string -> Response,
                   decode: string -> Option<seq<RawEvent>>)
    requires Usable(fetch(RequestUrl(repo, token, 1)), decode)
    requires LastPageFromLinkHeader(fetch(RequestUrl(repo, token, 1)).link[0]) == Returns(None)
    ensures Requested(AsWritten(repo, token, fetch, decode)) == 1
    ensures Run(AsWritten(repo, token, fetch, decode)) == Ok([])
    ensures Run(Intended(repo, token, fetch, decode)) == Ok(decode(fetch(RequestUrl(repo, token, 1)).body).value)
  {
    var r := fetch(RequestUrl(repo, token, 1));
    var asWritten := AsWritten(repo, token, fetch, decode);
    var intended := Intended(repo, token, fetch, decode);
    assert asWritten(1) == Stop([]);
    assert intended(1) == Stop(decode(r.body).value);
    StopsAt(asWritten, 1);
    StopsAt(intended, 1);
  }

  /** A non-terminal page without a `Link` header, reached after pages that
      let the loop go on, makes the program panic there, whatever its body. */
  lemma MissingLinkHeader(repo: string, token: Option<string>, fetch: string -> Response,
                          decode: string -> Option<seq<RawEvent>>, k: nat)
    requires 1 <= k < PageLimit
    requires forall q :: 1 <= q < k ==> AsWritten(repo, token, fetch, decode)(q).Next?
    requires var r := fetch(RequestUrl(repo, token, k));
      r.Received? && !IsTerminalBody(r.body) && r.link == []
    ensures Requested(AsWritten(repo, token, fetch, decode)) == k
    ensures Run(AsWritten(repo, token, fetch, decode)) == Panic(UnwrapNone)
  {
    var step := AsWritten(repo, token, fetch, decode);
    assert step(k) == Crash(UnwrapNone);
    StopsAt(step, k);
  }

  /** A page whose body does not decode returns the decoding error, and the
      events of earlier pages are dropped with it. As written the body is
      only decoded on a page whose header names a last page other than it. */
  lemma DecodeFailure(repo: string, token: Option<string>, fetch: string -> Response,
                      decode: string -> Option<seq<RawEvent>>, k: nat, last: u32)
    requires 1 <= k < PageLimit
    requires forall q :: 1 <= q < k ==> AsWritten(repo, token, fetch, decode)(q).Next?
    requires var r := fetch(RequestUrl(repo, token, k));
      && r.Received? && !IsTerminalBody(r.body) && |r.link| == 1
      && LastPageFromLinkHeader(r.link[0]) == Returns(Some(last)) && last as int != k
      && decode(r.body).None?
    ensures Requested(AsWritten(repo, token, fetch, decode)) == k
    ensures Run(AsWritten(repo, token, fetch, decode)) == Err(DecodeError)
  {
    var step := AsWritten(repo, token, fetch, decode);
    assert step(k) == Fail(DecodeError);
    StopsAt(step, k);
  }

  /** A page that is terminal (short body, or status 422) ends the loop and
      adds nothing. */
  lemma TerminalPage(repo: string, token: Option<string>, fetch: string -> Response,
                     decode: string -> Option<seq<RawEvent>>, k: nat)
    requires 1 <= k < PageLimit
    requires forall q :: 1 <= q < k ==> AsWritten(repo, token, fetch, decode)(q).Next?
    requires var r := fetch(RequestUrl(repo, token, k));
      (r.Received? && IsTerminalBody(r.body)) || r == ReadFailed(Some(UnprocessableEntity))
    ensures Requested(AsWritten(repo, token, fetch, decode)) == k
    ensures Run(AsWritten(repo, token, fetch, decode))
         == Ok(Collected(AsWritten(repo, token, fetch, decode), 1, k))
  {
    var step := AsWritten(repo, token, fetch, decode);
    assert step(k) == Stop([]);
    StopsAt(step, k);
    assert Collected(step, 1, k) + [] == Collected(step, 1, k);
  }

  /** An error at any page is returned, and the events of earlier pages are
      dropped with it. */
  lemma ErrorAtPage(repo: string, token: Option<string>, fetch: string -> Response,
                    decode: string -> Option<seq<RawEvent>>, k: nat)
    requires 1 <= k < PageLimit
    requires forall q :: 1 <= q < k ==> AsWritten(repo, token, fetch, decode)(q).Next?
    requires var r := fetch(RequestUrl(repo, token, k));
      r == ConnectFailed || (r.ReadFailed? && r.status != Some(UnprocessableEntity))
    ensures Run(AsWritten(repo, token, fetch, decode))
         == Err(if fetch(RequestUrl(repo, token, k)) == ConnectFailed then ConnectError else ReadError)
  {
    var step := AsWritten(repo, token, fetch, decode);
    assert step(k) == Fail(if fetch(RequestUrl(repo, token, k)) == ConnectFailed then ConnectError else ReadError);
    StopsAt(step, k);
  }

  /** When no page stops the loop, it ends after page 9 with the events of
      pages 1 to 9. */
  lemma PageCap(step: nat -> PageStep)
    requires forall q :: 1 <= q < PageLimit ==> step(q).Next?
    ensures Requested(step) == PageLimit - 1
    ensures Run(step) == Ok(Collected(step, 1, PageLimit))
  {
    assert FirstStop(step, 1) == PageLimit;
    RunSpec(step);
  }

  /* The intended loop body as a corrected definition. */

  /** The intended loop body never panics. */
  lemma IntendedStepNeverCrashes(response: Response, decode: string -> Option<seq<RawEvent>>, page: nat)
    ensures !IntendedStep(response, decode, page).Crash?
  {
  }

  lemma {:induction false} RunFromNeverPanics(step: nat -> PageStep, p: nat, acc: seq<RawEvent>)
    requires forall q :: p <= q < PageLimit ==> !step(q).Crash?
    ensures !RunFrom(step, p, acc).Panic?
    decreases PageLimit - p
  {
    if p < PageLimit && step(p).Next? {
      RunFromNeverPanics(step, p + 1, acc + step(p).events);
    }
  }

  /** The intended loop never panics, whatever the responses. */
  lemma IntendedRunNeverPanics(repo: string, token: Option<string>, fetch: string -> Response,
                               decode: string -> Option<seq<RawEvent>>)
    ensures !Run(Intended(repo, token, fetch, decode)).Panic?
  {
    var intended := Intended(repo, token, fetch, decode);
    forall q: nat | 1 <= q < PageLimit
      ensures !intended(q).Crash?
    {
      IntendedStepNeverCrashes(fetch(RequestUrl(repo, token, q)), decode, q);
    }
    RunFromNeverPanics(intended, 1, []);
  }

  /** The loop with the intended body: it never panics, and keeps the
      events of the page it stops at. */
  method IntendedGithubEvents(repo: string, token: Option<string>, fetch: string -> Response,
                              decode: string -> Option<seq<RawEvent>>)
    returns (outcome: Outcome, requested: nat)
    ensures outcome == Run(Intended(repo, token, fetch, decode))
    ensures requested == Requested(Intended(repo, token, fetch, decode))
    ensures !outcome.Panic?
  {
    outcome, requested := RunPages(Intended(repo, token, fetch, decode));
    IntendedRunNeverPanics(repo, token, fetch, decode);
  }

  /** The intended loop keeps the events of the page it stops at, when that
      page was read and decoded. */
  lemma IntendedKeepsStoppingPage(repo: string, token: Option<string>, fetch: string -> Response,
                                  decode: string -> Option<seq<RawEvent>>, k: nat)
    requires 1 <= k < PageLimit
    requires forall q :: 1 <= q < k ==> Intended(repo, token, fetch, decode)(q).Next?
    requires !Intended(repo, token, fetch, decode)(k).Next?
    requires var r := fetch(RequestUrl(repo, token, k));
      r.Received? && !IsTerminalBody(r.body) && decode(r.body).Some?
    ensures Run(Intended(repo, token, fetch, decode))
         == Ok(Collected(Intended(repo, token, fetch, decode), 1, k)
               + decode(fetch(RequestUrl(repo, token, k)).body).value)
  {
    var intended := Intended(repo, token, fetch, decode);
    var r := fetch(RequestUrl(repo, token, k));
    assert intended(k) == IntendedStep(r, decode, k);
    DecodedPageStops(r, decode, k);
    StopsAt(intended, k);
  }

  /** A decoded page that ends the intended loop ends it with its events. */
  lemma DecodedPageStops(r: Response, decode: string -> Option<seq<RawEvent>>, k: nat)
    requires r.Received? && !IsTerminalBody(r.body) && decode(r.body).Some?
    requires !IntendedStep(r, decode, k).Next?
    ensures IntendedStep(r, decode, k) == Stop(decode(r.body).value)
  {
  }

  /* Counterexamples to the source as written. */

  /** The `Link` header of the source's first test: page 5 is the last. */
  const LastPageFive: string := Entry(EventsUrl, "2", "next") + ", " + Entry(EventsUrl, "5", "last")

  /** A repository with five pages of one event each, every page naming
      page 5 as the last: as written the result misses the event of page 5,
      which the intended loop keeps. */
  lemma LastPageEventsDropped(repo: string, token: Option<string>, ev: RawEvent)
    ensures var fetch := (url: string) => Received("[{}]", [LastPageFive]);
            var decode := (body: string) => Some([ev]);
      && Run(AsWritten(repo, token, fetch, decode)).Ok?
      && Run(Intended(repo, token, fetch, decode))
         == Ok(Run(AsWritten(repo, token, fetch, decode)).events + [ev])
      && Requested(AsWritten(repo, token, fetch, decode)) == 5
  {
    var fetch := (url: string) => Received("[{}]", [LastPageFive]);
    var decode := (body: string) => Some([ev]);
    FiveAnnounced(decode);
    assert AllAnnounce(repo, token, fetch, decode, 5);
    ExplicitLastPage(repo, token, fetch, decode, 5);
    var got := Collected(AsWritten(repo, token, fetch, decode), 1, 5);
    assert got + [] == got;
    assert decode(fetch(RequestUrl(repo, token, 5)).body).value == [ev];
  }

  /** A page with one event whose `Link` header names page 5 as the last. */
  lemma FiveAnnounced(decode: string -> Option<seq<RawEvent>>)
    requires decode("[{}]").Some?
    ensures Announces(Received("[{}]", [LastPageFive]), decode, 5)
  {
    LinkHeaderForPage1();
    TerminalBodies("[{}]");
  }

  /** A repository with a single page, sent without a `Link` header (as
      GitHub does when there is only one page): as written the program
      panics; the intended loop returns the page's event. */
  lemma SinglePagePanics(repo: string, token: Option<string>, ev: RawEvent)
    ensures var fetch := (url: string) => Received("[{}]", []);
            var decode := (body: string) => Some([ev]);
      && Run(AsWritten(repo, token, fetch, decode)) == Panic(UnwrapNone)
      && Run(Intended(repo, token, fetch, decode)) == Ok([ev])
  {
    var fetch := (url: string) => Received("[{}]", []);
    var decode := (body: string) => Some([ev]);
    TerminalBodies("[{}]");
    MissingLinkHeader(repo, token, fetch, decode, 1);
    var intended := Intended(repo, token, fetch, decode);
    assert intended(1) == Stop([ev]);
    StopsAt(intended, 1);
  }
}
