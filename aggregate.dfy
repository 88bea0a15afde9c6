/** `events_per_author` (src/lib.rs): the pull-request activity of a
    repository grouped by the login of the actor, each group in input order. */
module Aggregate {
  import opened Prelude
  import opened Events

  /** The three event types the report is made from. */
  predicate IsPullRequestActivity(e: RawEvent) {
    e.eventType == PullRequestEvent
    || e.eventType == PullRequestReviewCommentEvent
    || e.eventType == IssueCommentEvent
  }

  /** The filter step: the pull-request activity, in input order. */
  function Retained(events: seq<RawEvent>): (kept: seq<RawEvent>)
    ensures |kept| <= |events|
    ensures forall i :: 0 <= i < |kept| ==> IsPullRequestActivity(kept[i])
    ensures forall e :: e in kept <==> e in events && IsPullRequestActivity(e)
  {
    if events == [] then []
    else
      var rest := Retained(events[1..]);
      assert forall e :: e in events <==> e == events[0] || e in events[1..];
      if IsPullRequestActivity(events[0]) then [events[0]] + rest else rest
  }

  /** The filter keeps every copy of a pull-request event and no copy of
      any other event. */
  lemma {:induction false} RetainedKeepsCopies(events: seq<RawEvent>, e: RawEvent)
    ensures multiset(Retained(events))[e] == if IsPullRequestActivity(e) then multiset(events)[e] else 0
  {
    if events != [] {
      var rest := events[1..];
      var kept := if IsPullRequestActivity(events[0]) then [events[0]] else [];
      RetainedKeepsCopies(rest, e);
      assert events == [events[0]] + rest;
      assert Retained(events) == kept + Retained(rest);
      CountSplit([events[0]], rest, e);
      CountSplit(kept, Retained(rest), e);
    }
  }

  /** Copies in a concatenation add up. */
  lemma CountSplit(a: seq<RawEvent>, b: seq<RawEvent>, e: RawEvent)
    ensures multiset(a + b)[e] == multiset(a)[e] + multiset(b)[e]
  {
  }

  /** The reference grouping: the events of one login, in input order. */
  function ByLogin(events: seq<RawEvent>, login: string): (group: seq<RawEvent>)
    ensures |group| <= |events|
    ensures forall i :: 0 <= i < |group| ==> group[i].actor.login == login
    ensures forall e :: e in group <==> e in events && e.actor.login == login
  {
    if events == [] then []
    else
      var rest := ByLogin(events[1..], login);
      assert forall e :: e in events <==> e == events[0] || e in events[1..];
      if events[0].actor.login == login then [events[0]] + rest else rest
  }

  /** The group of a login, the empty list when the map has no entry for it. */
  function Group(groups: map<string, seq<RawEvent>>, login: string): seq<RawEvent> {
    if login in groups then groups[login] else []
  }

  /** One step of the fold: `entry(login).or_insert_with(Vec::new).push(e)`. */
  function Push(groups: map<string, seq<RawEvent>>, e: RawEvent): (r: map<string, seq<RawEvent>>)
    ensures r.Keys == groups.Keys + {e.actor.login}
    ensures r[e.actor.login] == Group(groups, e.actor.login) + [e]
    ensures forall login :: login in groups && login != e.actor.login ==> r[login] == groups[login]
  {
    groups[e.actor.login := Group(groups, e.actor.login) + [e]]
  }

  /** The fold over the retained events, first event first. */
  function Fold(groups: map<string, seq<RawEvent>>, events: seq<RawEvent>): map<string, seq<RawEvent>>
    decreases |events|
  {
    if events == [] then groups else Fold(Push(groups, events[0]), events[1..])
  }

  /** `events_per_author`. */
  function EventsPerAuthor(events: seq<RawEvent>): map<string, seq<RawEvent>> {
    Fold(map[], Retained(events))
  }

  /** The fold appends to each login's group exactly that login's events,
      and creates an entry only for a login that has some. */
  lemma {:induction false} FoldGroups(groups: map<string, seq<RawEvent>>, events: seq<RawEvent>, login: string)
    ensures Group(Fold(groups, events), login) == Group(groups, login) + ByLogin(events, login)
    ensures login in Fold(groups, events) <==> login in groups || ByLogin(events, login) != []
    decreases |events|
  {
    if events != [] {
      var e := events[0];
      var pushed := Push(groups, e);
      var own := if e.actor.login == login then [e] else [];
      assert Fold(groups, events) == Fold(pushed, events[1..]);
      FoldGroups(pushed, events[1..], login);
      PushGroup(groups, e, login);
      assert ByLogin(events, login) == own + ByLogin(events[1..], login);
      Reassociate(Group(groups, login), own, ByLogin(events[1..], login));
    }
  }

  lemma Reassociate(a: seq<RawEvent>, b: seq<RawEvent>, c: seq<RawEvent>)
    ensures a + (b + c) == (a + b) + c
  {
  }

  /** Pushing an event extends its author's group and no other. */
  lemma PushGroup(groups: map<string, seq<RawEvent>>, e: RawEvent, login: string)
    ensures Group(Push(groups, e), login)
         == Group(groups, login) + (if e.actor.login == login then [e] else [])
    ensures login in Push(groups, e) <==> login in groups || e.actor.login == login
  {
    if e.actor.login != login {
      assert Group(groups, login) + [] == Group(groups, login);
    }
  }

  /** A login has an entry exactly when some retained event is its, and the
      entry is the order-preserving filter of the retained events by login. */
  lemma GroupsAreFilters(events: seq<RawEvent>, login: string)
    ensures login in EventsPerAuthor(events) <==> ByLogin(Retained(events), login) != []
    ensures Group(EventsPerAuthor(events), login) == ByLogin(Retained(events), login)
  {
    FoldGroups(map[], Retained(events), login);
  }

  /** Every entry is a non-empty list of pull-request activity by that
      login, and every retained event's login has an entry. */
  lemma GroupsAreWellFormed(events: seq<RawEvent>, login: string)
    ensures login in EventsPerAuthor(events) ==>
      EventsPerAuthor(events)[login] != []
      && forall e :: e in EventsPerAuthor(events)[login] ==> IsPullRequestActivity(e) && e.actor.login == login
    ensures (exists e :: e in events && IsPullRequestActivity(e) && e.actor.login == login) ==>
      login in EventsPerAuthor(events)
  {
    GroupsAreFilters(events, login);
    if exists e :: e in events && IsPullRequestActivity(e) && e.actor.login == login {
      var e :| e in events && IsPullRequestActivity(e) && e.actor.login == login;
      assert e in ByLogin(Retained(events), login);
    }
  }

  /** Filtering by login keeps every copy of an event of that login. */
  lemma {:induction false} ByLoginKeepsCopies(events: seq<RawEvent>, e: RawEvent)
    ensures multiset(ByLogin(events, e.actor.login))[e] == multiset(events)[e]
  {
    if events != [] {
      var rest := events[1..];
      var login := e.actor.login;
      var kept := if events[0].actor.login == login then [events[0]] else [];
      ByLoginKeepsCopies(rest, e);
      assert events == [events[0]] + rest;
      assert ByLogin(events, login) == kept + ByLogin(rest, login);
      CountSplit([events[0]], rest, e);
      CountSplit(kept, ByLogin(rest, login), e);
    }
  }

  /** Nothing is lost or duplicated: a pull-request event occurs in its
      author's group exactly as often as in the input, any other event not
      at all. */
  lemma NothingLostOrDuplicated(events: seq<RawEvent>, e: RawEvent)
    ensures multiset(Group(EventsPerAuthor(events), e.actor.login))[e]
         == if IsPullRequestActivity(e) then multiset(events)[e] else 0
  {
    GroupsAreFilters(events, e.actor.login);
    ByLoginKeepsCopies(Retained(events), e);
    RetainedKeepsCopies(events, e);
  }

  /** The sum of the group sizes of the logins in `logins`. */
  function TotalSize(events: seq<RawEvent>, logins: seq<string>): nat {
    if logins == [] then 0 else |ByLogin(events, logins[0])| + TotalSize(events, logins[1..])
  }

  /** One more event adds one to the total when its login is listed once. */
  lemma {:induction false} TotalSizeGrows(events: seq<RawEvent>, e: RawEvent, logins: seq<string>)
    requires forall i, j :: 0 <= i < j < |logins| ==> logins[i] != logins[j]
    ensures TotalSize(events + [e], logins)
         == TotalSize(events, logins) + (if e.actor.login in logins then 1 else 0)
  {
    if logins != [] {
      TotalSizeGrows(events, e, logins[1..]);
      ByLoginAppend(events, e, logins[0]);
      assert e.actor.login in logins <==> e.actor.login == logins[0] || e.actor.login in logins[1..];
    }
  }

  lemma {:induction false} ByLoginAppend(events: seq<RawEvent>, e: RawEvent, login: string)
    ensures ByLogin(events + [e], login)
         == ByLogin(events, login) + (if e.actor.login == login then [e] else [])
  {
    if events == [] {
      assert [] + [e] == [e];
    } else {
      ByLoginAppend(events[1..], e, login);
      assert (events + [e])[1..] == events[1..] + [e];
    }
  }

  /** When the logins listed are distinct and include every event's login,
      the group sizes add up to the number of events. */
  lemma {:induction false} TotalSizeIsLength(events: seq<RawEvent>, logins: seq<string>)
    requires forall i, j :: 0 <= i < j < |logins| ==> logins[i] != logins[j]
    requires forall e :: e in events ==> e.actor.login in logins
    ensures TotalSize(events, logins) == |events|
  {
    if events == [] {
      EmptyTotalSize(logins);
    } else {
      var front := events[..|events| - 1];
      var e := events[|events| - 1];
      assert events == front + [e];
      assert forall x :: x in front ==> x in events;
      TotalSizeIsLength(front, logins);
      TotalSizeGrows(front, e, logins);
    }
  }

  lemma {:induction false} EmptyTotalSize(logins: seq<string>)
    ensures TotalSize([], logins) == 0
  {
    if logins != [] {
      EmptyTotalSize(logins[1..]);
    }
  }

  /** The group sizes of `events_per_author`, over any enumeration of its
      keys without repetition, sum to the number of retained events. */
  lemma GroupSizesSum(events: seq<RawEvent>, keys: seq<string>)
    requires forall i, j :: 0 <= i < j < |keys| ==> keys[i] != keys[j]
    requires forall login :: login in keys <==> login in EventsPerAuthor(events)
    ensures TotalSize(Retained(events), keys) == |Retained(events)|
  {
    forall e | e in Retained(events)
      ensures e.actor.login in keys
    {
      GroupsAreFilters(events, e.actor.login);
      assert e in ByLogin(Retained(events), e.actor.login);
    }
    TotalSizeIsLength(Retained(events), keys);
  }

  /** compute_events_per_author: one opened pull request by alice gives alice
      a group holding exactly that event. */
  lemma ComputeEventsPerAuthor(at: Timestamp)
    ensures
      var e := RawEvent(Actor("alice"), Payload(Some(Opened)), PullRequestEvent, at);
      EventsPerAuthor([e]) == map["alice" := [e]]
  {
    var e := RawEvent(Actor("alice"), Payload(Some(Opened)), PullRequestEvent, at);
    assert Retained([e]) == [e];
    assert Fold(map[], [e]) == Fold(Push(map[], e), []);
    assert Group(map[], "alice") + [e] == [e];
    assert Push(map[], e) == map["alice" := [e]];
  }
}
