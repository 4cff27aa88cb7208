# site_check in Dafny

`site_check.py` watches a fixed list of web sites. A background loop
(`check_sites`) probes every site once per cycle. It classifies each probe
as "Доступен" (available: HTTP 200), "Недоступен" (unavailable: any other
status code) or "Ошибка" (error: the request raised). It writes a row to
the `logs` table only when a site's classification differs from the one
last stored for it in the in-memory `last_status` map. On request,
`generate_report(date)` reads the day's rows in time order. For each site
seen that day, it rebuilds the down intervals from the transitions. An
interval is opened by "Недоступен" and closed by the next row of any other
status, or at 23:59:59. The report gives each site's downtime and its
uptime out of 86400 seconds.

The model has three modules:

- `Monitor` (`monitor.dfy`) holds the shared vocabulary:
  - `Status`, `Outcome` and the three-way `Classify`;
  - the log row `Event`;
  - `EventsOf`, which selects one site's rows.
- `Tracker` (`tracker.dfy`) models `check_sites`. `StatusTracker` is a
  class whose fields are `last_status` and the log. Its methods `CheckSite`
  (one probe) and `CheckSites` (one cycle, a loop) are proved against pure
  specification functions:
  - `LastAfter` and `Logged` describe any sequence of polls;
  - `Transitions` is an independent reference for "one event per change";
  - the per-site projections `SiteLast` and `SiteLogged` describe one site's
    polls alone.

  The class invariant `Coherent` ties the stored status to the last logged
  event and keeps each site's events alternating.
- `Report` (`report.dfy`) models `generate_report`. The day's down
  intervals are the specification (`DownIntervals`, `OpenInterval`).
  `SiteDowntime` is the source's inner loop with its two accumulators,
  `downtime` and `last_down_time`, proved to add up exactly those
  intervals. `GenerateReport` is the outer loop over `unique()` sites.

Time is whole seconds, with second 0 at midnight at the start of day 0. The
day filter `strftime("%Y-%m-%d") == date` is `t / 86400 == day`, and
23:59:59 of a day is `day * 86400 + 86399`. The rows come as a sequence in
table order. `sort_values("timestamp")` is a caller-supplied `ordered`
sequence. It is required to be sorted by time and to be a permutation of
the day's rows. pandas' default sort is not stable, so the order of rows
stamped in the same second is deliberately left open.

## Model

| member | source | states |
|---|---|---|
| Monitor.Classify | site_check.py:43-55 | each outcome is exactly one of the three classes: Available iff the response code is 200, Unavailable iff a response with any other code, Error iff the request raised |
| Monitor.EventsOfMembers | site_check.py:80 | the per-site filter `EventsOf` (`df[df["organization"] == site]`) is characterized: one site's rows are exactly the rows of the log that name that site: none of another site, none missing |
| Monitor.EventsOfAppend | site_check.py:80 | selecting one site's rows distributes over concatenation of logs |
| Tracker.Initial | site_check.py:37 | `last_status` has exactly the configured sites as keys, each mapped to `None` |
| Tracker.Emitted | site_check.py:44-55 | a poll writes at most one event; it writes one iff the new classification differs from the stored one, and that event carries the site, the poll's time and the new classification |
| Tracker.LastAfter | site_check.py:41-55 | polls never add or remove a site from `last_status`; the last polled site ends up storing its last classification |
| Tracker.Logged | site_check.py:41-55 | a run of polls writes no more events than there are polls |
| Tracker.StatusTracker.constructor | site_check.py:37 | the tracker starts with every site at `None`, an empty log, and the invariant holding |
| Tracker.StatusTracker.CheckSite | site_check.py:42-55 | one probe keeps the invariant; only the probed site's entry changes, to the new classification; the log is the old log plus exactly the event `Emitted` gives, so no earlier event changes |
| Tracker.StatusTracker.CheckSites | site_check.py:41-55 | one cycle over the sites keeps the invariant and leaves `last_status` and the log exactly as `LastAfter` and `Logged` of that cycle's polls say |
| Tracker.CyclePolls | site_check.py:41 | a cycle polls the configured sites once each, in list order |
| Tracker.StepCoherent | site_check.py:44-55 | after any single poll each site's stored status is still its last logged status, `None` if it has none, and its events still alternate |
| Tracker.RunCoherent | site_check.py:40-55 | the same invariant holds after any sequence of polls |
| Tracker.NoRepeatedStatus | site_check.py:37-55 | from the start of `check_sites`, two consecutive events of a site never carry the same status, and the stored status is the last logged one |
| Tracker.PollsOfMembers | site_check.py:41 | a site's polls are exactly the polls that name it |
| Tracker.StatusProjection | site_check.py:41-55 | a site's stored status after a run depends only on that site's own polls |
| Tracker.SiteProjection | site_check.py:41-55 | a site's logged events depend only on its own polls; other sites' polls in between neither add nor change them |
| Tracker.UnpolledSiteUnchanged | site_check.py:41-55 | a site that is not polled keeps its stored status and gets no event |
| Tracker.SingleSiteRun | site_check.py:44-55 | N polls of one site with the same classification c write no event if c was stored, else exactly one event stamped with the first poll; afterwards c is stored |
| Tracker.IdenticalRunLoggedOnce | site_check.py:44-55 | the dedup property over any interleaving of sites: N identical classifications of a site give exactly one event for it, or none if already stored, and leave it stored |
| Tracker.SingleSiteFirst | site_check.py:37-55 | with nothing stored, a site's first poll always writes an event |
| Tracker.FirstObservationLogged | site_check.py:37-55 | from the start of `check_sites`, a polled site's first logged event is the event of its first poll, whatever the other sites do |
| Tracker.RunAppend | site_check.py:40-55 | two runs of polls, the second starting from the state the first leaves, give the same `last_status` and the same appended rows as the single run of all the polls, so successive cycles compose |
| Tracker.LastAfterAppend | site_check.py:40-55 | the stored statuses after a joined run are those the second part leaves from the first part's state |
| Tracker.TwoRunsTransitions | site_check.py:40-55 | across two runs (for instance two cycles), a site's rows are one per change of its classification over all its polls, in order |
| Tracker.TransitionsSnoc | site_check.py:44-55 | the forward reference `Transitions` grows at the back by exactly what the last poll emits against the classification before it |
| Tracker.SiteLoggedTransitions | site_check.py:41-55 | the events a site's polls write are exactly one event per change of classification, in order |
| Tracker.LoggedTransitions | site_check.py:41-55 | transition completeness over any interleaving: a site's events in the log are one per change of its own classification, in order, starting from its stored status |
| Report.EndOfDay | site_check.py:94 | 23:59:59 of a day falls on that day |
| Report.OnDay | site_check.py:70 | the day filter keeps exactly the rows stamped on that day |
| Report.DownIntervals | site_check.py:84-94 | a run with no "Недоступен" row has no down interval, so no downtime |
| Report.OpenInterval | site_check.py:84-94 | an open interval keeps its first start; it is closed at the first later row whose status is not "Недоступен", or at 23:59:59 if there is none |
| Report.SiteDowntime | site_check.py:81-94 | the loop with `downtime` and `last_down_time` adds up exactly the lengths of the down intervals, including an interval still open at the end of the day |
| Report.DownIntervalsChain | site_check.py:84-94 | for rows in time order within a span, the intervals lie within the span, in order, without overlapping or running backwards |
| Report.OpenIntervalChain | site_check.py:84-94 | the same for the intervals that follow an interval opened at `start` |
| Report.ChainTotal | site_check.py:90-94 | intervals laid end to end within [lo, hi] add up to between 0 and hi - lo |
| Report.DowntimeWithinDay | site_check.py:93-96 | for one site's rows of a day, in time order, the downtime is between 0 and 86399 seconds, and the uptime `86400 - downtime` is between 1 and 86400 |
| Report.NoUnavailableNoDowntime | site_check.py:85-91 | a day with no "Недоступен" row has downtime 0 |
| Report.ClosedIntervalExample | site_check.py:84-92 | Доступен at 00:00:00, Недоступен at 10:00:00 and Доступен at 10:30:00 give 1800 seconds of downtime |
| Report.OpenIntervalExample | site_check.py:84-94 | Доступен at 00:00:00 and Недоступен at 23:00:00 give 3599 seconds, the interval being closed at 23:59:59 |
| Report.ErrorIsNotDowntimeExample | site_check.py:85-91 | Доступен, Ошибка, Доступен give no downtime: an error opens no interval, and with none open it has nothing to close |
| Report.ErrorClosesIntervalExample | site_check.py:85-92 | Недоступен at 10:00:00 then Ошибка at 10:05:00 give 300 seconds: an error closes an open interval like any status other than "Недоступен" |
| Report.EventsOfSorted | site_check.py:80 | one site's rows, taken from rows in time order, are in time order and are rows of the input |
| Report.SitesIn | site_check.py:79 | `unique()` lists each site that has a row exactly once (the order of first appearance is given by its body, not by its contract) |
| Report.SiteRow | site_check.py:80-98 | a site's report row carries the downtime of that site's rows of the day, a downtime between 0 and 86399, and uptime `86400 - downtime` |
| Report.SameRows | site_check.py:70 | the sorted rows are exactly the rows stamped on the day |
| Report.RowSites | site_check.py:79-98 | rows built one per `unique()` site name exactly the sites that have a row that day |
| Report.GenerateReport | site_check.py:70-98 | "no data" iff the store has no row on that day. Otherwise there is one row per site seen that day: no site is missing or repeated, and the rows follow the order in which `SitesIn` lists the sites. Each row's downtime is the downtime of the site's rows of the day, between 0 and 86399, and its uptime is `86400 - downtime` |

## Left out

- HTTP probing (`requests.get`, headers, timeout, `verify=False`, redirects) is not modelled. A probe is its `Outcome`: the final status code, or a raised `RequestException`.
- The SQLite table (`create_db`, `log_event`, `read_sql`) is not modelled. The table is a sequence of `Event`s in insertion order. The timestamp `log_event` takes from `datetime.now()` is the poll's `time` parameter.
- `check_sites` never returns (`while True` with `time.sleep`). The model covers any finite prefix of that loop. `CheckSites` is one cycle. `LastAfter` and `Logged` cover any sequence of polls. `RunAppend` shows that successive cycles compose into the run of all their polls, so the properties proved of `Logged` hold of the rows written by several calls of `CheckSites`.
- The `log` field of `StatusTracker` holds the rows appended since `check_sites` started, not the whole `logs` table. The table persists in `monitoring.db` across restarts (`CREATE TABLE IF NOT EXISTS`), while `last_status` restarts at `None`. After a restart, a site's first row can repeat the status of its last row from the previous run. So `Coherent` and `NoRepeatedStatus` hold for one run's rows only. `GenerateReport` does not assume alternation of the `store` it reads.
- The background thread, the daemon flag, `user_input_listener` and `main` are not modelled. The report only reads the table, and the tracker's map is not shared.
- Parsing and formatting of dates and timestamps is not modelled: `pd.to_datetime`, `strptime` and `strftime`, and the default of today's date. A day is an integer, a time an integer number of seconds, and every day has 86400 seconds. The source does the same: it stamps, sorts and subtracts naive local datetimes and uses `total_time = 86400`, so the integer model computes the same numbers on every day.
- The percentage `round(uptime / 86400 * 100, 2)` is floating point and is not modelled. Neither are the text of the report cells, the CSV file and the printed messages. A `Row` carries the uptime and downtime in whole seconds. `int(downtime)` is exact because the timestamps have whole seconds.
- Tracker.StatusTracker.CheckSite: a site absent from `last_status` raises `KeyError` in the source. The model requires the site to be present instead. `check_sites` only ever polls the sites it built the map from.
- Report.GenerateReport: rows stamped in the same second may come in either order, because the sort is not stable. The downtime is stated for the order given in `ordered`, which may differ between two such orders.
