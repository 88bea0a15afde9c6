/** `printable` (src/lib.rs): the text report of one repository, in three
    sections (opened, commented, closed), one line per author whose count in
    that section is positive. The map's iteration order is not specified by
    the source; it is a parameter here, the same for the three loops since
    the map does not change between them. */
module Report {
  import opened Prelude
  import opened Decimal
  import opened Events
  import opened Aggregate

  /** The three sections of the report. */
  datatype Section = OpenedSection | CommentedSection | ClosedSection

  /** Whether an event is counted in a section. */
  predicate CountedIn(section: Section, e: RawEvent) {
    match section
    case OpenedSection => e.eventType == PullRequestEvent && e.payload.action == Some(Opened)
    case CommentedSection => e.eventType == IssueCommentEvent && e.payload.action == Some(Created)
    case ClosedSection => e.eventType == PullRequestEvent && e.payload.action == Some(Closed)
  }

  /** `filter(...).count()` over one author's events. */
  function Count(section: Section, events: seq<RawEvent>): (n: nat)
    ensures n <= |events|
    ensures n == 0 <==> forall i :: 0 <= i < |events| ==> !CountedIn(section, events[i])
  {
    if events == [] then 0
    else (if CountedIn(section, events[0]) then 1 else 0) + Count(section, events[1..])
  }

  /** The heading of a section. */
  function Heading(section: Section): string {
    match section
    case OpenedSection => "  opened per author:\n"
    case CommentedSection => "  commented per author:\n"
    case ClosedSection => "  closed per author:\n"
  }

  /** The first line; the repository name is written between double quotes. */
  function Title(repo: string): string {
    "pull requests for \"" + repo + "\" ->\n"
  }

  /** `format!("    {}: {}\n", author, count)`. */
  function AuthorLine(author: string, count: nat): string {
    "    " + author + ": " + ShowNat(count) + "\n"
  }

  /** An iteration order of the map: every key once, nothing else. */
  predicate IsOrderOf(order: seq<string>, groups: map<string, seq<RawEvent>>) {
    (forall i, j :: 0 <= i < j < |order| ==> order[i] != order[j])
    && (forall i :: 0 <= i < |order| ==> order[i] in groups)
    && (forall author :: author in groups ==> author in order)
  }

  /** The authors listed in a section, with their counts, over the first
      keys of the iteration order. */
  function Listed(section: Section, keys: seq<string>, groups: map<string, seq<RawEvent>>): seq<(string, nat)>
    requires forall i :: 0 <= i < |keys| ==> keys[i] in groups
  {
    if keys == [] then []
    else
      var author := keys[|keys| - 1];
      var n := Count(section, groups[author]);
      Listed(section, keys[..|keys| - 1], groups) + (if n > 0 then [(author, n)] else [])
  }

  /** The lines of a list of authors and counts. */
  function Lines(listed: seq<(string, nat)>): string {
    if listed == [] then ""
    else Lines(listed[..|listed| - 1]) + AuthorLine(listed[|listed| - 1].0, listed[|listed| - 1].1)
  }

  /** The heading of a section followed by its lines. */
  function SectionText(section: Section, order: seq<string>, groups: map<string, seq<RawEvent>>): string
    requires forall i :: 0 <= i < |order| ==> order[i] in groups
  {
    Heading(section) + Lines(Listed(section, order, groups))
  }

  /** The whole report. */
  function ReportText(repo: string, groups: map<string, seq<RawEvent>>, order: seq<string>): string
    requires IsOrderOf(order, groups)
  {
    Title(repo)
    + SectionText(OpenedSection, order, groups)
    + SectionText(CommentedSection, order, groups)
    + SectionText(ClosedSection, order, groups)
  }

  /** `printable`: three passes over the map in the same order (opened,
      commented, closed), each appending its section to the title. */
  method Printable(repo: string, groups: map<string, seq<RawEvent>>, order: seq<string>)
    returns (out: string)
    requires IsOrderOf(order, groups)
    ensures out == ReportText(repo, groups, order)
  {
    out := Title(repo);
    out := AppendSection(out, OpenedSection, groups, order);
    out := AppendSection(out, CommentedSection, groups, order);
    out := AppendSection(out, ClosedSection, groups, order);
  }

  /** One pass of `printable`: push the heading, then, for each author in
      iteration order, count the author's events of the section's kind and
      push a line when the count is positive. */
  method AppendSection(before: string, section: Section, groups: map<string, seq<RawEvent>>, order: seq<string>)
    returns (out: string)
    requires forall k :: 0 <= k < |order| ==> order[k] in groups
    ensures out == before + SectionText(section, order, groups)
  {
    var prefix := before + Heading(section);
    out := prefix;
    var i := 0;
    while i < |order|
      invariant 0 <= i <= |order|
      invariant out == prefix + Lines(Listed(section, order[..i], groups))
    {
      var author := order[i];
      var count := Count(section, groups[author]);
      AppendStep(section, order, i, groups, prefix, out);
      if count > 0 {
        out := out + AuthorLine(author, count);
      }
      i := i + 1;
    }
    SectionDone(section, order, groups, before, out);
  }

  /** The text after one more key of the iteration order. */
  lemma AppendStep(section: Section, order: seq<string>, i: nat, groups: map<string, seq<RawEvent>>,
                   prefix: string, out: string)
    requires i < |order|
    requires forall k :: 0 <= k < |order| ==> order[k] in groups
    requires out == prefix + Lines(Listed(section, order[..i], groups))
    ensures var n := Count(section, groups[order[i]]);
      (if n > 0 then out + AuthorLine(order[i], n) else out)
        == prefix + Lines(Listed(section, order[..i + 1], groups))
  {
    ListedStep(section, order, i, groups);
    var n := Count(section, groups[order[i]]);
    if n > 0 {
      AppendLine(prefix, Lines(Listed(section, order[..i], groups)), AuthorLine(order[i], n));
    } else {
      assert Lines(Listed(section, order[..i], groups)) + "" == Lines(Listed(section, order[..i], groups));
    }
  }

  lemma AppendLine(before: string, lines: string, line: string)
    ensures before + lines + line == before + (lines + line)
  {
  }

  /** After a pass over the whole order, the text is what came before
      followed by the section. */
  lemma SectionDone(section: Section, order: seq<string>, groups: map<string, seq<RawEvent>>,
                    before: string, out: string)
    requires forall k :: 0 <= k < |order| ==> order[k] in groups
    requires out == before + Heading(section) + Lines(Listed(section, order[..|order|], groups))
    ensures out == before + SectionText(section, order, groups)
  {
    assert order[..|order|] == order;
    var lines := Lines(Listed(section, order, groups));
    AppendLine(before, Heading(section), lines);
  }

  /** One more key of the iteration order adds its author's line to the
      section when the author's count is positive, and nothing otherwise. */
  lemma ListedStep(section: Section, order: seq<string>, i: nat, groups: map<string, seq<RawEvent>>)
    requires i < |order|
    requires forall k :: 0 <= k < |order| ==> order[k] in groups
    ensures Lines(Listed(section, order[..i + 1], groups))
         == Lines(Listed(section, order[..i], groups))
            + (var n := Count(section, groups[order[i]]); if n > 0 then AuthorLine(order[i], n) else "")
  {
    var n := Count(section, groups[order[i]]);
    var front := Listed(section, order[..i], groups);
    assert order[..i + 1][..i] == order[..i];
    assert Listed(section, order[..i + 1], groups) == front + (if n > 0 then [(order[i], n)] else []);
    if n > 0 {
      assert (front + [(order[i], n)])[..|front|] == front;
    } else {
      assert front + [] == front;
      assert Lines(front) + "" == Lines(front);
    }
  }

  /** An author is listed in a section, with count n, exactly when it is one
      of the keys iterated and n is its positive count in that section. */
  lemma {:induction false} ListedIffPositive(section: Section, keys: seq<string>,
                                            groups: map<string, seq<RawEvent>>, author: string, n: nat)
    requires forall i :: 0 <= i < |keys| ==> keys[i] in groups
    ensures (author, n) in Listed(section, keys, groups)
        <==> author in keys && n == Count(section, groups[author]) && n > 0
  {
    if keys != [] {
      var front := keys[..|keys| - 1];
      ListedIffPositive(section, front, groups, author, n);
      assert author in keys <==> author in front || author == keys[|keys| - 1];
    }
  }

  /** With keys that do not repeat, no author is listed twice in a section. */
  lemma {:induction false} ListedOnce(section: Section, keys: seq<string>, groups: map<string, seq<RawEvent>>)
    requires forall i :: 0 <= i < |keys| ==> keys[i] in groups
    requires forall i, j :: 0 <= i < j < |keys| ==> keys[i] != keys[j]
    ensures forall i, j :: 0 <= i < j < |Listed(section, keys, groups)| ==>
      Listed(section, keys, groups)[i].0 != Listed(section, keys, groups)[j].0
  {
    if keys != [] {
      var front := keys[..|keys| - 1];
      var author := keys[|keys| - 1];
      ListedOnce(section, front, groups);
      var earlier := Listed(section, front, groups);
      forall i | 0 <= i < |earlier|
        ensures earlier[i].0 != author
      {
        ListedIffPositive(section, front, groups, earlier[i].0, earlier[i].1);
        assert earlier[i] in earlier;
      }
    }
  }

  /** The report of the map `events_per_author` builds counts, for each
      author, exactly that author's events of the section's kind in the
      whole input: a filter by type before the grouping changes no count. */
  lemma ReportedCounts(section: Section, events: seq<RawEvent>, author: string)
    ensures Count(section, Group(EventsPerAuthor(events), author)) == Count(section, ByLogin(events, author))
  {
    GroupsAreFilters(events, author);
    CountAfterRetained(section, events, author);
  }

  lemma {:induction false} CountAfterRetained(section: Section, events: seq<RawEvent>, author: string)
    ensures Count(section, ByLogin(Retained(events), author)) == Count(section, ByLogin(events, author))
  {
    if events != [] {
      CountAfterRetained(section, events[1..], author);
      var e := events[0];
      if e.actor.login == author && IsPullRequestActivity(e) {
        assert ByLogin(Retained(events), author) == [e] + ByLogin(Retained(events[1..]), author);
        assert ByLogin(events, author) == [e] + ByLogin(events[1..], author);
      } else if e.actor.login == author {
        assert ByLogin(Retained(events), author) == ByLogin(Retained(events[1..]), author);
        assert ByLogin(events, author) == [e] + ByLogin(events[1..], author);
        assert !CountedIn(section, e);
      } else {
        assert ByLogin(Retained(events), author) == ByLogin(Retained(events[1..]), author);
      }
    }
  }

  /** Review comments on pull requests are grouped but never counted. */
  lemma ReviewCommentsNotCounted(section: Section, events: seq<RawEvent>, e: RawEvent)
    requires e.eventType == PullRequestReviewCommentEvent
    ensures Count(section, events + [e]) == Count(section, events)
    ensures Count(section, [e] + events) == Count(section, events)
  {
    CountAppend(section, events, e);
    assert ([e] + events)[1..] == events;
  }

  lemma {:induction false} CountAppend(section: Section, events: seq<RawEvent>, e: RawEvent)
    ensures Count(section, events + [e]) == Count(section, events) + (if CountedIn(section, e) then 1 else 0)
  {
    if events != [] {
      CountAppend(section, events[1..], e);
      assert (events + [e])[1..] == events[1..] + [e];
    } else {
      assert events + [e] == [e];
    }
  }

  /** An event is counted in at most one section; so, for each author, the
      three counts together never exceed the number of events. */
  lemma {:induction false} CountsAreDisjoint(events: seq<RawEvent>)
    ensures Count(OpenedSection, events) + Count(CommentedSection, events) + Count(ClosedSection, events)
         <= |events|
  {
    if events != [] {
      CountsAreDisjoint(events[1..]);
    }
  }

  /** The sections of the report of printable_with_opened_pull_request. */
  lemma SectionsForOneOpened(e: RawEvent)
    requires e.actor.login == "alice" && e.eventType == PullRequestEvent && e.payload.action == Some(Opened)
    ensures SectionText(OpenedSection, ["alice"], map["alice" := [e]])
         == "  opened per author:\n" + "    alice: 1\n"
    ensures SectionText(CommentedSection, ["alice"], map["alice" := [e]]) == "  commented per author:\n"
    ensures SectionText(ClosedSection, ["alice"], map["alice" := [e]]) == "  closed per author:\n"
  {
    var groups := map["alice" := [e]];
    assert Count(OpenedSection, [e]) == 1;
    assert Count(CommentedSection, [e]) == 0;
    assert Count(ClosedSection, [e]) == 0;
    assert ["alice"][..0] == [];
    assert Listed(OpenedSection, ["alice"], groups) == [("alice", 1)];
    assert Listed(CommentedSection, ["alice"], groups) == [];
    assert Listed(ClosedSection, ["alice"], groups) == [];
    assert [("alice", 1)][..0] == [];
    assert ShowNat(1) == "1";
    assert AuthorLine("alice", 1) == "    alice: 1\n";
  }

  /** printable_with_opened_pull_request: one opened pull request by alice
      gives a title, an opened section listing alice once, and empty
      commented and closed sections. */
  lemma PrintableWithOpenedPullRequest(at: Timestamp)
    ensures
      var e := RawEvent(Actor("alice"), Payload(Some(Opened)), PullRequestEvent, at);
      ReportText("my-org/my-repo", map["alice" := [e]], ["alice"])
      == Title("my-org/my-repo")
         + ("  opened per author:\n" + "    alice: 1\n")
         + "  commented per author:\n" + "  closed per author:\n"
  {
    var e := RawEvent(Actor("alice"), Payload(Some(Opened)), PullRequestEvent, at);
    SectionsForOneOpened(e);
  }

  /** The title of that report is the line the test looks for. */
  lemma TitleOfTestReport()
    ensures Title("my-org/my-repo") == "pull requests for \"my-org/my-repo\" ->\n"
  {
  }
}
