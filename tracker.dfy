/** The transition-detecting poll loop of `check_sites`: a per-site
    `last_status` map, initially `None` for every site, and an append-only
    log that receives an event only when a site's classification changes.

    The pure part states what a sequence of polls does (`LastAfter`, `Logged`);
    the class `StatusTracker` is the mutable state the source keeps, and its
    methods are proved against the pure part. */
module Tracker {
  import opened Monitor

  type LastStatus = map<Site, Option<Status>>

  /** One probe of one site: the site, what the request produced, and the
      clock reading `log_event` stamps on the event if one is written. */
  datatype Poll = Poll(site: Site, outcome: Outcome, time: Time)

  /** `{site: None for site in sites}` */
  function Initial(sites: seq<Site>): (last: LastStatus)
    ensures last.Keys == set s | s in sites
    ensures forall s :: s in last ==> last[s] == None
  {
    map s | s in sites :: None
  }

  /** The events one poll writes, given the status stored for its site: one
      event stamped with the poll's time exactly when the new classification
      differs from the stored one, none otherwise. */
  function Emitted(stored: Option<Status>, p: Poll): (r: seq<Event>)
    ensures |r| <= 1
    ensures r != [] <==> stored != Some(Classify(p.outcome))
    ensures r != [] ==> r[0] == Event(p.site, p.time, Classify(p.outcome))
  {
    var c := Classify(p.outcome);
    if stored != Some(c) then [Event(p.site, p.time, c)] else []
  }

  /** Every polled site has an entry in `last_status` (the source would raise
      `KeyError` otherwise; it only ever polls the configured sites). */
  predicate Known(last: LastStatus, polls: seq<Poll>) {
    forall i :: 0 <= i < |polls| ==> polls[i].site in last
  }

  /** `last_status` after the polls, applied in order. */
  function LastAfter(last: LastStatus, polls: seq<Poll>): (r: LastStatus)
    requires Known(last, polls)
    ensures r.Keys == last.Keys
    ensures polls != [] ==> r[polls[|polls| - 1].site] == Some(Classify(polls[|polls| - 1].outcome))
  {
    if polls == [] then last
    else
      var p := polls[|polls| - 1];
      LastAfter(last, polls[..|polls| - 1])[p.site := Some(Classify(p.outcome))]
  }

  /** The events the polls append to the log, in order. */
  function Logged(last: LastStatus, polls: seq<Poll>): (r: seq<Event>)
    requires Known(last, polls)
    ensures |r| <= |polls|
  {
    if polls == [] then []
    else
      var init := polls[..|polls| - 1];
      var p := polls[|polls| - 1];
      Logged(last, init) + Emitted(LastAfter(last, init)[p.site], p)
  }

  /** The polls of one site, in order. */
  function PollsOf(polls: seq<Poll>, s: Site): (r: seq<Poll>)
    ensures forall i :: 0 <= i < |r| ==> r[i].site == s
  {
    if polls == [] then []
    else PollsOf(polls[..|polls| - 1], s) + (if polls[|polls| - 1].site == s then [polls[|polls| - 1]] else [])
  }

  /** A site's polls are exactly the polls that name it. */
  lemma {:induction false} PollsOfMembers(polls: seq<Poll>, s: Site)
    ensures forall p :: p in PollsOf(polls, s) <==> p in polls && p.site == s
    decreases |polls|
  {
    if polls != [] {
      var init := polls[..|polls| - 1];
      PollsOfMembers(init, s);
      assert polls == init + [polls[|polls| - 1]];
    }
  }

  /** No two consecutive events carry the same status. */
  predicate Alternates(es: seq<Event>) {
    forall i :: 0 < i < |es| ==> es[i - 1].status != es[i].status
  }

  /** What the log and the stored status of one site say about each other:
      nothing logged yet means nothing stored; otherwise the stored status is
      the last logged one, and the site's events alternate. */
  predicate SiteCoherent(stored: Option<Status>, es: seq<Event>) {
    && (es == [] ==> stored == None)
    && (es != [] ==> stored == Some(es[|es| - 1].status))
    && Alternates(es)
  }

  /** The invariant that ties `last_status` to the log. */
  predicate Coherent(last: LastStatus, log: seq<Event>) {
    && (forall e :: e in log ==> e.site in last)
    && (forall s :: s in last ==> SiteCoherent(last[s], EventsOf(log, s)))
  }

  lemma InitialCoherent(sites: seq<Site>)
    ensures Coherent(Initial(sites), [])
  {
    forall s | s in Initial(sites)
      ensures SiteCoherent(Initial(sites)[s], EventsOf([], s))
    {
    }
  }

  /** One poll keeps the invariant: the event it may write differs from the
      site's previous event, and the stored status becomes the logged one. */
  lemma StepCoherent(last: LastStatus, log: seq<Event>, p: Poll)
    requires Coherent(last, log) && p.site in last
    ensures Coherent(last[p.site := Some(Classify(p.outcome))], log + Emitted(last[p.site], p))
  {
    var c := Classify(p.outcome);
    var last' := last[p.site := Some(c)];
    if last[p.site] == Some(c) {
      assert last' == last;
      assert log + Emitted(last[p.site], p) == log;
    } else {
      var e := Event(p.site, p.time, c);
      assert Emitted(last[p.site], p) == [e];
      forall s | s in last'
        ensures SiteCoherent(last'[s], EventsOf(log + [e], s))
      {
        StepSiteCoherent(last[s], log, e, s);
      }
    }
  }

  /** Appending one event of a site whose stored status differs from it. */
  lemma StepSiteCoherent(stored: Option<Status>, log: seq<Event>, e: Event, s: Site)
    requires SiteCoherent(stored, EventsOf(log, s))
    requires e.site == s ==> stored != Some(e.status)
    ensures SiteCoherent(if e.site == s then Some(e.status) else stored, EventsOf(log + [e], s))
  {
    assert (log + [e])[..|log + [e]| - 1] == log;
  }

  /** Any sequence of polls keeps the invariant. */
  lemma {:induction false} RunCoherent(last: LastStatus, log: seq<Event>, polls: seq<Poll>)
    requires Coherent(last, log) && Known(last, polls)
    ensures Coherent(LastAfter(last, polls), log + Logged(last, polls))
    decreases |polls|
  {
    if polls == [] {
      assert log + [] == log;
    } else {
      var init := polls[..|polls| - 1];
      var p := polls[|polls| - 1];
      RunCoherent(last, log, init);
      StepCoherent(LastAfter(last, init), log + Logged(last, init), p);
      AppendAssoc(log, Logged(last, init), Emitted(LastAfter(last, init)[p.site], p));
    }
  }

  /** From the start of `check_sites`, a site's logged events never repeat a
      status back to back, and its stored status is its last logged one. */
  lemma NoRepeatedStatus(sites: seq<Site>, polls: seq<Poll>, s: Site)
    requires Known(Initial(sites), polls) && s in sites
    ensures SiteCoherent(LastAfter(Initial(sites), polls)[s], EventsOf(Logged(Initial(sites), polls), s))
    ensures Alternates(EventsOf(Logged(Initial(sites), polls), s))
  {
    InitialCoherent(sites);
    RunCoherent(Initial(sites), [], polls);
    assert [] + Logged(Initial(sites), polls) == Logged(Initial(sites), polls);
  }

  /** One site's stored status after its own polls `ps`, starting from `stored`. */
  function SiteLast(stored: Option<Status>, ps: seq<Poll>): Option<Status> {
    if ps == [] then stored else Some(Classify(ps[|ps| - 1].outcome))
  }

  /** The events one site's own polls `ps` write, starting from `stored`. */
  function SiteLogged(stored: Option<Status>, ps: seq<Poll>): (r: seq<Event>)
    ensures |r| <= |ps|
  {
    if ps == [] then []
    else
      var init := ps[..|ps| - 1];
      SiteLogged(stored, init) + Emitted(SiteLast(stored, init), ps[|ps| - 1])
  }

  /** A site's stored status after a run depends only on that site's own polls. */
  lemma {:induction false} StatusProjection(last: LastStatus, polls: seq<Poll>, s: Site)
    requires Known(last, polls) && s in last
    ensures LastAfter(last, polls)[s] == SiteLast(last[s], PollsOf(polls, s))
    decreases |polls|
  {
    if polls != [] {
      var init := polls[..|polls| - 1];
      StatusProjection(last, init, s);
      if polls[|polls| - 1].site != s {
        AppendEmpty(PollsOf(init, s));
      }
    }
  }

  /** What one site logs depends only on that site's own polls: the other
      sites' polls in between neither add nor change its events. */
  lemma {:induction false} SiteProjection(last: LastStatus, polls: seq<Poll>, s: Site)
    requires Known(last, polls) && s in last
    ensures EventsOf(Logged(last, polls), s) == SiteLogged(last[s], PollsOf(polls, s))
    decreases |polls|
  {
    if polls != [] {
      var init := polls[..|polls| - 1];
      SiteProjection(last, init, s);
      if polls[|polls| - 1].site == s {
        StatusProjection(last, init, s);
        ProjectionOwnStep(last, polls, s);
      } else {
        ProjectionOtherStep(last, polls, s);
      }
    }
  }

  /** A site that is not polled keeps its stored status and gets no event:
      the polls of other sites touch only their own entries. */
  lemma UnpolledSiteUnchanged(last: LastStatus, polls: seq<Poll>, s: Site)
    requires Known(last, polls) && s in last && PollsOf(polls, s) == []
    ensures LastAfter(last, polls)[s] == last[s]
    ensures EventsOf(Logged(last, polls), s) == []
  {
    StatusProjection(last, polls, s);
    SiteProjection(last, polls, s);
  }

  /** The inductive step of `SiteProjection` for a poll of the site itself. */
  lemma ProjectionOwnStep(last: LastStatus, polls: seq<Poll>, s: Site)
    requires polls != [] && Known(last, polls) && s in last && polls[|polls| - 1].site == s
    requires EventsOf(Logged(last, polls[..|polls| - 1]), s) == SiteLogged(last[s], PollsOf(polls[..|polls| - 1], s))
    requires LastAfter(last, polls[..|polls| - 1])[s] == SiteLast(last[s], PollsOf(polls[..|polls| - 1], s))
    ensures EventsOf(Logged(last, polls), s) == SiteLogged(last[s], PollsOf(polls, s))
  {
    var init := polls[..|polls| - 1];
    var p := polls[|polls| - 1];
    LoggedSnoc(last, polls);
    OwnPollLogged(Logged(last, init), Emitted(LastAfter(last, init)[s], p), s);
    SiteLoggedSnoc(last[s], PollsOf(init, s), p);
  }

  lemma OwnPollLogged(before: seq<Event>, out: seq<Event>, s: Site)
    requires |out| <= 1 && forall i :: 0 <= i < |out| ==> out[i].site == s
    ensures EventsOf(before + out, s) == EventsOf(before, s) + out
  {
    EventsOfAppend(before, out, s);
    EventsOfOwn(out, s);
  }

  /** The inductive step of `SiteProjection` for a poll of another site. */
  lemma ProjectionOtherStep(last: LastStatus, polls: seq<Poll>, s: Site)
    requires polls != [] && Known(last, polls) && s in last && polls[|polls| - 1].site != s
    requires EventsOf(Logged(last, polls[..|polls| - 1]), s) == SiteLogged(last[s], PollsOf(polls[..|polls| - 1], s))
    ensures EventsOf(Logged(last, polls), s) == SiteLogged(last[s], PollsOf(polls, s))
  {
    var init := polls[..|polls| - 1];
    var p := polls[|polls| - 1];
    LoggedSnoc(last, polls);
    OtherPollSkipped(polls, s);
    OtherPollLogsNothing(Logged(last, init), Emitted(LastAfter(last, init)[p.site], p), s);
  }

  lemma OtherPollLogsNothing(before: seq<Event>, out: seq<Event>, s: Site)
    requires |out| <= 1 && forall i :: 0 <= i < |out| ==> out[i].site != s
    ensures EventsOf(before + out, s) == EventsOf(before, s)
  {
    EventsOfAppend(before, out, s);
    EventsOfOther(out, s);
    AppendEmpty(EventsOf(before, s));
  }

  lemma OtherPollSkipped(polls: seq<Poll>, s: Site)
    requires polls != [] && polls[|polls| - 1].site != s
    ensures PollsOf(polls, s) == PollsOf(polls[..|polls| - 1], s)
  {
    AppendEmpty(PollsOf(polls[..|polls| - 1], s));
  }


  lemma LoggedSnoc(last: LastStatus, polls: seq<Poll>)
    requires polls != [] && Known(last, polls)
    ensures Logged(last, polls)
         == Logged(last, polls[..|polls| - 1]) + Emitted(LastAfter(last, polls[..|polls| - 1])[polls[|polls| - 1].site], polls[|polls| - 1])
  {
  }

  lemma SiteLoggedSnoc(stored: Option<Status>, ps: seq<Poll>, p: Poll)
    ensures SiteLogged(stored, ps + [p]) == SiteLogged(stored, ps) + Emitted(SiteLast(stored, ps), p)
  {
    assert (ps + [p])[..|ps|] == ps;
  }

  lemma EventsOfOwn(out: seq<Event>, s: Site)
    requires |out| <= 1 && forall i :: 0 <= i < |out| ==> out[i].site == s
    ensures EventsOf(out, s) == out
  {
    if out != [] {
      assert out[..0] == [];
    }
  }

  lemma EventsOfOther(out: seq<Event>, s: Site)
    requires |out| <= 1 && forall i :: 0 <= i < |out| ==> out[i].site != s
    ensures EventsOf(out, s) == []
  {
    if out != [] {
      assert out[..0] == [];
    }
  }

  /** Polls of a single site, all with the same classification `c`: at most
      one event, and exactly one (stamped with the first poll's time) when
      the stored status was not already `c`. */
  lemma {:induction false} SingleSiteRun(stored: Option<Status>, ps: seq<Poll>, c: Status)
    requires ps != []
    requires forall i :: 0 <= i < |ps| ==> Classify(ps[i].outcome) == c
    ensures SiteLogged(stored, ps) == if stored == Some(c) then [] else [Event(ps[0].site, ps[0].time, c)]
    ensures SiteLast(stored, ps) == Some(c)
    decreases |ps|
  {
    var init := ps[..|ps| - 1];
    if init != [] {
      SingleSiteRun(stored, init, c);
      if stored != Some(c) {
        AppendEmpty(SiteLogged(stored, init));
      }
    }
  }

  /** Polls of a single site with nothing stored yet: the first poll always
      writes an event. */
  lemma {:induction false} SingleSiteFirst(ps: seq<Poll>)
    requires ps != []
    ensures SiteLogged(None, ps) != []
    ensures SiteLogged(None, ps)[0] == Event(ps[0].site, ps[0].time, Classify(ps[0].outcome))
    decreases |ps|
  {
    var init := ps[..|ps| - 1];
    if init != [] {
      SingleSiteFirst(init);
    }
  }

  /** Every site starts at `None`, so the first observation of each polled
      site is logged, whatever the other sites do. */
  lemma FirstObservationLogged(sites: seq<Site>, polls: seq<Poll>, s: Site)
    requires Known(Initial(sites), polls) && PollsOf(polls, s) != []
    ensures var es := EventsOf(Logged(Initial(sites), polls), s);
      var first := PollsOf(polls, s)[0];
      es != [] && es[0] == Event(s, first.time, Classify(first.outcome))
  {
    var ps := PollsOf(polls, s);
    PollsOfMembers(polls, s);
    assert ps[0] in polls;
    SiteProjection(Initial(sites), polls, s);
    SingleSiteFirst(ps);
  }

  /** Dedup: however many times a site is polled with the same
      classification `c` (and whatever other sites are polled in between),
      at most one event is written for it, exactly one when its stored status
      was not `c`, and afterwards its stored status is `c`. */
  lemma IdenticalRunLoggedOnce(last: LastStatus, polls: seq<Poll>, s: Site, c: Status)
    requires Known(last, polls) && s in last && PollsOf(polls, s) != []
    requires forall p :: p in PollsOf(polls, s) ==> Classify(p.outcome) == c
    ensures EventsOf(Logged(last, polls), s)
         == if last[s] == Some(c) then [] else [Event(s, PollsOf(polls, s)[0].time, c)]
    ensures LastAfter(last, polls)[s] == Some(c)
  {
    var ps := PollsOf(polls, s);
    forall i | 0 <= i < |ps| ensures Classify(ps[i].outcome) == c {
      assert ps[i] in ps;
    }
    SiteProjection(last, polls, s);
    StatusProjection(last, polls, s);
    SingleSiteRun(last[s], ps, c);
  }

  /** Reference reading of "one event per change, in order", walking a
      site's polls from the first: a poll is logged when its classification
      differs from the one before it (`prev` for the first poll). */
  function Transitions(prev: Option<Status>, ps: seq<Poll>): (r: seq<Event>)
    decreases |ps|
  {
    if ps == [] then []
    else
      var c := Classify(ps[0].outcome);
      (if prev != Some(c) then [Event(ps[0].site, ps[0].time, c)] else []) + Transitions(Some(c), ps[1..])
  }

  /** Extending the polls at the back extends the transitions by what the
      last poll emits against the classification before it. */
  lemma {:induction false} TransitionsSnoc(prev: Option<Status>, ps: seq<Poll>, p: Poll)
    ensures Transitions(prev, ps + [p]) == Transitions(prev, ps) + Emitted(SiteLast(prev, ps), p)
    decreases |ps|
  {
    if ps == [] {
      assert ([] + [p])[1..] == [];
    } else {
      var c := Classify(ps[0].outcome);
      var head := if prev != Some(c) then [Event(ps[0].site, ps[0].time, c)] else [];
      assert (ps + [p])[0] == ps[0];
      assert (ps + [p])[1..] == ps[1..] + [p];
      TransitionsSnoc(Some(c), ps[1..], p);
      assert SiteLast(Some(c), ps[1..]) == SiteLast(prev, ps);
      AppendAssoc(head, Transitions(Some(c), ps[1..]), Emitted(SiteLast(prev, ps), p));
    }
  }

  /** What the tracker writes for one site's polls is exactly one event per
      change of classification, in order. */
  lemma {:induction false} SiteLoggedTransitions(stored: Option<Status>, ps: seq<Poll>)
    ensures SiteLogged(stored, ps) == Transitions(stored, ps)
    decreases |ps|
  {
    if ps != [] {
      var init := ps[..|ps| - 1];
      SiteLoggedTransitions(stored, init);
      assert init + [ps[|ps| - 1]] == ps;
      TransitionsSnoc(stored, init, ps[|ps| - 1]);
    }
  }

  /** Transition completeness over any interleaving of sites: a site's events
      in the log are one per change of its own classification, in order. */
  lemma LoggedTransitions(last: LastStatus, polls: seq<Poll>, s: Site)
    requires Known(last, polls) && s in last
    ensures EventsOf(Logged(last, polls), s) == Transitions(last[s], PollsOf(polls, s))
  {
    SiteProjection(last, polls, s);
    SiteLoggedTransitions(last[s], PollsOf(polls, s));
  }

  /** Two runs of polls one after the other, the second starting from the
      state the first leaves, are the run of all the polls: successive cycles
      of the `while True` loop compose. */
  lemma {:induction false} RunAppend(last: LastStatus, a: seq<Poll>, b: seq<Poll>)
    requires Known(last, a + b)
    ensures Known(last, a) && Known(LastAfter(last, a), b)
    ensures LastAfter(last, a + b) == LastAfter(LastAfter(last, a), b)
    ensures Logged(last, a + b) == Logged(last, a) + Logged(LastAfter(last, a), b)
    decreases |b|
  {
    LastAfterAppend(last, a, b);
    if b == [] {
      assert a + b == a;
      AppendEmpty(Logged(last, a));
    } else {
      var init := b[..|b| - 1];
      var p := b[|b| - 1];
      assert b == init + [p];
      assert a + b == (a + init) + [p];
      KnownSplit(last, a + init, [p]);
      RunAppend(last, a, init);
      LoggedPush(last, a + init, p);
      LoggedPush(LastAfter(last, a), init, p);
      SnocJoin(Logged(last, a + init), Logged(last, a), Logged(LastAfter(last, a), init),
        Emitted(LastAfter(last, a + init)[p.site], p), Emitted(LastAfter(LastAfter(last, a), init)[p.site], p));
    }
  }

  lemma SnocJoin(x: seq<Event>, l: seq<Event>, y: seq<Event>, e1: seq<Event>, e2: seq<Event>)
    requires x == l + y && e1 == e2
    ensures x + e1 == l + (y + e2)
  {
    AppendAssoc(l, y, e2);
  }

  lemma LoggedPush(last: LastStatus, ps: seq<Poll>, p: Poll)
    requires Known(last, ps + [p])
    ensures Known(last, ps) && p.site in last
    ensures Logged(last, ps + [p]) == Logged(last, ps) + Emitted(LastAfter(last, ps)[p.site], p)
  {
    assert (ps + [p])[..|ps|] == ps;
    assert forall i :: 0 <= i < |ps| ==> ps[i] == (ps + [p])[i];
    assert (ps + [p])[|ps|] == p;
  }

  /** The stored statuses after a joined run are those the second part
      leaves, starting from what the first part leaves. */
  lemma {:induction false} LastAfterAppend(last: LastStatus, a: seq<Poll>, b: seq<Poll>)
    requires Known(last, a + b)
    ensures Known(last, a) && Known(LastAfter(last, a), b)
    ensures LastAfter(last, a + b) == LastAfter(LastAfter(last, a), b)
    decreases |b|
  {
    KnownSplit(last, a, b);
    if b == [] {
      assert a + b == a;
    } else {
      var init := b[..|b| - 1];
      var p := b[|b| - 1];
      assert a + b == (a + init) + [p];
      assert (a + b)[..|a + b| - 1] == a + init;
      KnownSplit(last, a + init, [p]);
      LastAfterAppend(last, a, init);
    }
  }

  /** The polls of a joined run are known to the states each part starts from. */
  lemma KnownSplit(last: LastStatus, a: seq<Poll>, b: seq<Poll>)
    requires Known(last, a + b)
    ensures Known(last, a) && Known(LastAfter(last, a), b)
  {
    assert forall i :: 0 <= i < |a| ==> a[i] == (a + b)[i];
    assert forall i :: 0 <= i < |b| ==> b[i] == (a + b)[|a| + i];
  }

  /** Transition completeness across cycles: after two runs the log holds,
      for each site, one event per change of its classification over all of
      its polls, in order. */
  lemma TwoRunsTransitions(last: LastStatus, a: seq<Poll>, b: seq<Poll>, s: Site)
    requires Known(last, a + b) && s in last
    ensures Known(last, a) && Known(LastAfter(last, a), b)
    ensures EventsOf(Logged(last, a) + Logged(LastAfter(last, a), b), s) == Transitions(last[s], PollsOf(a + b, s))
  {
    RunAppend(last, a, b);
    LoggedTransitions(last, a + b, s);
  }

  /** Extending a run by its next poll. */
  lemma RunStep(last: LastStatus, polls: seq<Poll>, i: nat)
    requires i < |polls| && Known(last, polls[..i]) && polls[i].site in last
    ensures Known(last, polls[..i + 1])
    ensures LastAfter(last, polls[..i + 1]) == LastAfter(last, polls[..i])[polls[i].site := Some(Classify(polls[i].outcome))]
    ensures Logged(last, polls[..i + 1]) == Logged(last, polls[..i]) + Emitted(LastAfter(last, polls[..i])[polls[i].site], polls[i])
  {
    assert polls[..i + 1][..i] == polls[..i];
  }

  /** The polls of one cycle: site `sites[i]` answered `outcomes[i]` at `clock[i]`. */
  function CyclePolls(sites: seq<Site>, outcomes: seq<Outcome>, clock: seq<Time>): (r: seq<Poll>)
    requires |outcomes| == |sites| && |clock| == |sites|
    ensures |r| == |sites|
    ensures forall i :: 0 <= i < |r| ==> r[i] == Poll(sites[i], outcomes[i], clock[i])
  {
    seq(|sites|, i requires 0 <= i < |sites| => Poll(sites[i], outcomes[i], clock[i]))
  }

  /** The state `check_sites` keeps: `last_status` and the log it appends to. */
  class StatusTracker {
    var lastStatus: LastStatus
    var log: seq<Event>

    ghost predicate Valid()
      reads this
    {
      Coherent(lastStatus, log)
    }

    /** `last_status = {site: None for site in sites}`, nothing logged yet. */
    constructor (sites: seq<Site>)
      ensures Valid()
      ensures lastStatus == Initial(sites) && log == []
    {
      lastStatus := Initial(sites);
      log := [];
      InitialCoherent(sites);
    }

    /** The body of the inner `for` loop: classify the outcome, write an event
        if it differs from the stored status, then store it. No other site's
        entry and no earlier event changes. */
    method CheckSite(site: Site, outcome: Outcome, now: Time)
      requires Valid() && site in lastStatus
      modifies this
      ensures Valid()
      ensures lastStatus == old(lastStatus)[site := Some(Classify(outcome))]
      ensures log == old(log) + Emitted(old(lastStatus)[site], Poll(site, outcome, now))
    {
      StepCoherent(lastStatus, log, Poll(site, outcome, now));
      var status := Classify(outcome);
      if lastStatus[site] != Some(status) {
        log := log + [Event(site, now, status)];
      }
      lastStatus := lastStatus[site := Some(status)];
    }

    /** One cycle of the `while True` loop: every site polled once, in order. */
    method CheckSites(sites: seq<Site>, outcomes: seq<Outcome>, clock: seq<Time>)
      requires Valid()
      requires |outcomes| == |sites| && |clock| == |sites|
      requires forall i :: 0 <= i < |sites| ==> sites[i] in lastStatus
      modifies this
      ensures Valid()
      ensures lastStatus == LastAfter(old(lastStatus), CyclePolls(sites, outcomes, clock))
      ensures log == old(log) + Logged(old(lastStatus), CyclePolls(sites, outcomes, clock))
    {
      ghost var polls := CyclePolls(sites, outcomes, clock);
      ghost var last0, log0 := lastStatus, log;
      for i := 0 to |sites|
        invariant Valid()
        invariant Known(last0, polls[..i])
        invariant lastStatus == LastAfter(last0, polls[..i])
        invariant log == log0 + Logged(last0, polls[..i])
      {
        RunStep(last0, polls, i);
        CheckSite(sites[i], outcomes[i], clock[i]);
        AppendAssoc(log0, Logged(last0, polls[..i]), Emitted(LastAfter(last0, polls[..i])[sites[i]], polls[i]));
      }
      assert polls[..|sites|] == polls;
    }
  }
}
