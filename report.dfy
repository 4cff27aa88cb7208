/** The daily report of `generate_report`: the day's events, grouped by
    site, each site's downtime rebuilt from its status transitions, and its
    uptime in seconds.

    `DownIntervals` is the specification: the down intervals of a day, each
    opened by an "Недоступен" event and closed by the next event of any other
    status, or at 23:59:59 if none follows. `SiteDowntime` is the loop of the
    source with its two accumulators, proved to add up exactly those
    intervals. */
module Report {
  import opened Monitor

  /** `total_time`: the seconds of one day. */
  const SecondsPerDay: int := 86400

  /** 23:59:59 as seconds after midnight: the instant an interval still open
      at the end of the day is closed at. */
  const LastSecond: int := 86399

  /** The calendar day of a timestamp (`strftime("%Y-%m-%d")`). */
  function DayOf(t: Time): int {
    t / SecondsPerDay
  }

  /** 23:59:59 of the given day. */
  function EndOfDay(day: int): (t: Time)
    ensures DayOf(t) == day
  {
    day * SecondsPerDay + LastSecond
  }

  /** The rows of the store stamped on the given day, in store order. */
  function OnDay(store: seq<Event>, day: int): (r: seq<Event>)
    ensures forall e :: e in r <==> e in store && DayOf(e.time) == day
  {
    if store == [] then []
    else
      var e := store[|store| - 1];
      OnDay(store[..|store| - 1], day) + (if DayOf(e.time) == day then [e] else [])
  }

  /** Ascending by timestamp, as `sort_values("timestamp")` leaves the rows. */
  predicate Sorted(es: seq<Event>) {
    forall i, j :: 0 <= i < j < |es| ==> es[i].time <= es[j].time
  }

  /** A span of time during which a site counts as down. */
  datatype Interval = Interval(start: Time, stop: Time)

  /** The down intervals of a site's events, none being open yet: only an
      "Недоступен" event opens one, so without such an event there is none. */
  function DownIntervals(events: seq<Event>, end: Time): (r: seq<Interval>)
    ensures (forall i :: 0 <= i < |events| ==> events[i].status != Unavailable) ==> r == []
    decreases |events|
  {
    if events == [] then []
    else if events[0].status != Unavailable then DownIntervals(events[1..], end)
    else OpenInterval(events[0].time, events[1..], end)
  }

  /** The down intervals while one that began at `start` is still open:
      further "Недоступен" events leave its start where it is; the first event
      of any other status (an "Ошибка" as well) closes it at its own time; the
      end of the day closes it otherwise. */
  function OpenInterval(start: Time, rest: seq<Event>, end: Time): (r: seq<Interval>)
    ensures r != [] && r[0].start == start
    ensures r[0].stop == if NoneUp(rest) then end else rest[FirstUp(rest)].time
    decreases |rest|
  {
    if rest == [] then [Interval(start, end)]
    else if rest[0].status == Unavailable then OpenInterval(start, rest[1..], end)
    else [Interval(start, rest[0].time)] + DownIntervals(rest[1..], end)
  }

  /** Every event is "Недоступен". */
  predicate NoneUp(rest: seq<Event>) {
    forall i :: 0 <= i < |rest| ==> rest[i].status == Unavailable
  }

  /** The index of the first event that is not "Недоступен". */
  function FirstUp(rest: seq<Event>): (k: nat)
    requires !NoneUp(rest)
    ensures k < |rest| && rest[k].status != Unavailable
    ensures forall i :: 0 <= i < k ==> rest[i].status == Unavailable
  {
    if rest[0].status != Unavailable then 0 else 1 + FirstUp(rest[1..])
  }

  /** The summed length of the intervals. */
  function Total(ivs: seq<Interval>): int {
    if ivs == [] then 0 else (ivs[0].stop - ivs[0].start) + Total(ivs[1..])
  }

  /** A site's downtime on a day: the summed length of its down intervals. */
  function Downtime(events: seq<Event>, day: int): int {
    Total(DownIntervals(events, EndOfDay(day)))
  }

  /** What is still to be added once `rest` is processed, given the open
      interval's start if there is one (`last_down_time`). */
  ghost function Pending(lastDownTime: Option<Time>, rest: seq<Event>, end: Time): int {
    match lastDownTime
    case None => Total(DownIntervals(rest, end))
    case Some(start) => Total(OpenInterval(start, rest, end))
  }

  /** The inner loop of `generate_report` over one site's rows, with the
      accumulators `downtime` and `last_down_time`. */
  method SiteDowntime(events: seq<Event>, day: int) returns (downtime: int)
    ensures downtime == Downtime(events, day)
  {
    var end := EndOfDay(day);
    downtime := 0;
    var lastDownTime: Option<Time> := None;
    for i := 0 to |events|
      invariant Downtime(events, day) == downtime + Pending(lastDownTime, events[i..], end)
    {
      var row := events[i];
      assert events[i..] == [row] + events[i + 1..];
      if row.status == Unavailable {
        if lastDownTime == None {
          lastDownTime := Some(row.time);
        }
      } else {
        if lastDownTime != None {
          downtime := downtime + (row.time - lastDownTime.value);
          lastDownTime := None;
        }
      }
    }
    assert events[|events|..] == [];
    if lastDownTime != None {
      assert Pending(lastDownTime, [], end) == end - lastDownTime.value by {
        var iv := Interval(lastDownTime.value, end);
        assert OpenInterval(lastDownTime.value, [], end) == [iv];
        assert [iv][1..] == [];
        assert Total([iv]) == iv.stop - iv.start + Total([]);
      }
      downtime := downtime + (end - lastDownTime.value);
    }
  }

  /** Intervals laid end to end in time, none starting before `lo` and none
      ending after `hi`. */
  predicate Chain(ivs: seq<Interval>, lo: Time, hi: Time) {
    ivs == [] || (lo <= ivs[0].start <= ivs[0].stop <= hi && Chain(ivs[1..], ivs[0].stop, hi))
  }

  /** Events in time order, all within [lo, end], give intervals in time
      order within [lo, end]: they neither overlap nor run backwards. */
  lemma {:induction false} DownIntervalsChain(events: seq<Event>, lo: Time, end: Time)
    requires Sorted(events)
    requires forall i :: 0 <= i < |events| ==> lo <= events[i].time <= end
    ensures Chain(DownIntervals(events, end), lo, end)
    decreases |events|, 1
  {
    if events != [] {
      if events[0].status != Unavailable {
        DownIntervalsChain(events[1..], lo, end);
      } else {
        OpenIntervalChain(events[0].time, events[1..], end);
      }
    }
  }

  lemma {:induction false} OpenIntervalChain(start: Time, rest: seq<Event>, end: Time)
    requires Sorted(rest) && start <= end
    requires forall i :: 0 <= i < |rest| ==> start <= rest[i].time <= end
    ensures Chain(OpenInterval(start, rest, end), start, end)
    decreases |rest|, 0
  {
    if rest != [] {
      if rest[0].status == Unavailable {
        OpenIntervalChain(start, rest[1..], end);
      } else {
        DownIntervalsChain(rest[1..], rest[0].time, end);
      }
    }
  }

  /** Intervals laid end to end within [lo, hi] add up to between 0 and hi - lo. */
  lemma {:induction false} ChainTotal(ivs: seq<Interval>, lo: Time, hi: Time)
    requires Chain(ivs, lo, hi) && lo <= hi
    ensures 0 <= Total(ivs) <= hi - lo
    decreases |ivs|
  {
    if ivs != [] {
      ChainTotal(ivs[1..], ivs[0].stop, hi);
    }
  }

  /** For a site's rows of one day in time order, the downtime lies between
      0 and 86399 seconds, so the uptime `86400 - downtime` is between 1 and
      86400 seconds. */
  lemma DowntimeWithinDay(events: seq<Event>, day: int)
    requires Sorted(events)
    requires forall i :: 0 <= i < |events| ==> DayOf(events[i].time) == day
    ensures 0 <= Downtime(events, day) <= LastSecond
    ensures 1 <= SecondsPerDay - Downtime(events, day) <= SecondsPerDay
  {
    var lo := day * SecondsPerDay;
    DownIntervalsChain(events, lo, EndOfDay(day));
    ChainTotal(DownIntervals(events, EndOfDay(day)), lo, EndOfDay(day));
  }

  /** A day on which the site was never "Недоступен" (for instance
      Доступен, Ошибка, Доступен) has no downtime. */
  lemma NoUnavailableNoDowntime(events: seq<Event>, day: int)
    requires forall i :: 0 <= i < |events| ==> events[i].status != Unavailable
    ensures Downtime(events, day) == 0
  {
  }

  /** Selecting one site's events keeps them in time order. */
  lemma {:induction false} EventsOfSorted(log: seq<Event>, s: Site)
    requires Sorted(log)
    ensures Sorted(EventsOf(log, s))
    ensures forall e :: e in EventsOf(log, s) ==> e in log
    decreases |log|
  {
    if log != [] {
      var init := log[..|log| - 1];
      EventsOfSorted(init, s);
      var last := log[|log| - 1];
      forall e | e in EventsOf(init, s) ensures e.time <= last.time {
        var k :| 0 <= k < |init| && init[k] == e;
      }
    }
  }

  /** Rows of site "x" stamped at the given seconds of day 0. */
  function Day0(stamps: seq<(Time, Status)>): (r: seq<Event>)
    ensures |r| == |stamps|
    ensures forall i :: 0 <= i < |r| ==> r[i] == Event("x", stamps[i].0, stamps[i].1)
  {
    seq(|stamps|, i requires 0 <= i < |stamps| => Event("x", stamps[i].0, stamps[i].1))
  }

  /** Down from 10:00:00 to 10:30:00: 1800 seconds. */
  lemma ClosedIntervalExample()
    ensures Downtime(Day0([(0, Available), (36000, Unavailable), (37800, Available)]), 0) == 1800
  {
    var es := Day0([(0, Available), (36000, Unavailable), (37800, Available)]);
    assert es[1..][1..] == [es[2]];
  }

  /** Down from 23:00:00 to the end of the day: closed at 23:59:59, 3599 seconds. */
  lemma OpenIntervalExample()
    ensures Downtime(Day0([(0, Available), (82800, Unavailable)]), 0) == 3599
  {
    var es := Day0([(0, Available), (82800, Unavailable)]);
    assert es[1..][1..] == [];
  }

  /** An "Ошибка" opens no interval; between two "Доступен" no interval is
      open, so it has nothing to close. */
  lemma ErrorIsNotDowntimeExample()
    ensures Downtime(Day0([(0, Available), (3600, Error), (7200, Available)]), 0) == 0
  {
    NoUnavailableNoDowntime(Day0([(0, Available), (3600, Error), (7200, Available)]), 0);
  }

  /** An "Ошибка" after a "Недоступен" closes the open interval, as any
      status other than "Недоступен" does: down from 10:00:00 to 10:05:00. */
  lemma ErrorClosesIntervalExample()
    ensures Downtime(Day0([(36000, Unavailable), (36300, Error)]), 0) == 300
  {
    var es := Day0([(36000, Unavailable), (36300, Error)]);
    assert es[1..][1..] == [];
  }

  /** The sites of the events, each once, in order of first appearance
      (`df["organization"].unique()`). */
  function SitesIn(events: seq<Event>): (r: seq<Site>)
    ensures forall s :: s in r <==> exists e :: e in events && e.site == s
    ensures forall i, j :: 0 <= i < j < |r| ==> r[i] != r[j]
  {
    if events == [] then []
    else
      var init := SitesIn(events[..|events| - 1]);
      var s := events[|events| - 1].site;
      assert forall e :: e in events ==> e in events[..|events| - 1] || e == events[|events| - 1];
      if s in init then init else init + [s]
  }

  /** One row of the report: the site, its uptime and its downtime in
      seconds (the percentage and the CSV text are not modelled). */
  datatype Row = Row(site: Site, uptime: int, downtime: int)

  /** `generate_report(date)`. `store` is the whole `logs` table and `ordered`
      the day's rows as `sort_values` returned them: a permutation of the
      day's rows in time order (rows stamped with the same second may come in
      either order). `None` is the "no data" outcome. */
  method GenerateReport(store: seq<Event>, day: int, ordered: seq<Event>) returns (report: Option<seq<Row>>)
    requires multiset(ordered) == multiset(OnDay(store, day)) && Sorted(ordered)
    ensures report == None <==> forall e :: e in store ==> DayOf(e.time) != day
    ensures report != None ==>
      var rows := report.value;
      && (set r | r in rows :: r.site) == (set e | e in store && DayOf(e.time) == day :: e.site)
      && (forall i, j :: 0 <= i < j < |rows| ==> rows[i].site != rows[j].site)
      && |rows| == |SitesIn(ordered)|
      && (forall i :: 0 <= i < |rows| ==> rows[i].site == SitesIn(ordered)[i])
      && (forall i :: 0 <= i < |rows| ==> rows[i].downtime == Downtime(EventsOf(ordered, rows[i].site), day))
      && (forall i :: 0 <= i < |rows| ==> 0 <= rows[i].downtime <= LastSecond)
      && (forall i :: 0 <= i < |rows| ==> rows[i].uptime == SecondsPerDay - rows[i].downtime)
  {
    SameRows(store, day, ordered);
    if ordered == [] {
      return None;
    }
    assert ordered[0] in store;
    var sites := SitesIn(ordered);
    var rows: seq<Row> := [];
    for k := 0 to |sites|
      invariant |rows| == k
      invariant forall i :: 0 <= i < k ==> rows[i].site == sites[i] && RowFor(rows[i], ordered, day)
    {
      var row := SiteRow(ordered, sites[k], day);
      rows := rows + [row];
    }
    report := Some(rows);
    RowSites(rows, sites, store, day, ordered);
  }

  /** A report row that holds the downtime of its site's rows of the day
      and the matching uptime. */
  predicate RowFor(row: Row, ordered: seq<Event>, day: int) {
    && row.downtime == Downtime(EventsOf(ordered, row.site), day)
    && 0 <= row.downtime <= LastSecond
    && row.uptime == SecondsPerDay - row.downtime
  }

  /** The body of the per-site loop: the site's rows of the day
      (`df[df["organization"] == site]`), its downtime, and its uptime. */
  method SiteRow(ordered: seq<Event>, site: Site, day: int) returns (row: Row)
    requires Sorted(ordered)
    requires forall e :: e in ordered ==> DayOf(e.time) == day
    ensures row.site == site
    ensures row.downtime == Downtime(EventsOf(ordered, site), day)
    ensures 0 <= row.downtime <= LastSecond
    ensures row.uptime == SecondsPerDay - row.downtime
  {
    var siteData := EventsOf(ordered, site);
    var downtime := SiteDowntime(siteData, day);
    EventsOfSorted(ordered, site);
    forall i | 0 <= i < |siteData| ensures DayOf(siteData[i].time) == day {
      assert siteData[i] in siteData;
    }
    DowntimeWithinDay(siteData, day);
    row := Row(site, SecondsPerDay - downtime, downtime);
  }

  /** The sorted rows are the day's rows. */
  lemma SameRows(store: seq<Event>, day: int, ordered: seq<Event>)
    requires multiset(ordered) == multiset(OnDay(store, day))
    ensures forall e :: e in ordered <==> e in store && DayOf(e.time) == day
  {
    forall e ensures e in ordered <==> e in OnDay(store, day) {
      assert e in ordered <==> e in multiset(ordered);
      assert e in OnDay(store, day) <==> e in multiset(OnDay(store, day));
    }
  }

  /** Rows made one per site of the day's rows name exactly the sites seen that day. */
  lemma RowSites(rows: seq<Row>, sites: seq<Site>, store: seq<Event>, day: int, ordered: seq<Event>)
    requires |rows| == |sites| && forall i :: 0 <= i < |rows| ==> rows[i].site == sites[i]
    requires sites == SitesIn(ordered)
    requires forall e :: e in ordered <==> e in store && DayOf(e.time) == day
    ensures (set r | r in rows :: r.site) == (set e | e in store && DayOf(e.time) == day :: e.site)
  {
    var a := set r | r in rows :: r.site;
    var b := set e | e in store && DayOf(e.time) == day :: e.site;
    forall s | s in a ensures s in b {
      var r :| r in rows && r.site == s;
      var i :| 0 <= i < |rows| && rows[i] == r;
      assert sites[i] == s && s in sites;
    }
    forall s | s in b ensures s in a {
      var e :| e in store && DayOf(e.time) == day && e.site == s;
      assert e in ordered;
      assert s in sites;
      var i :| 0 <= i < |sites| && sites[i] == s;
      assert rows[i] in rows;
    }
  }
}
