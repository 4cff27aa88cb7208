/** Shared vocabulary of the site monitor: the three-way classification of a
    probe, the raw outcome of one HTTP request, and the rows of the event log
    that the poll loop writes and the report reads. */
module Monitor {

  datatype Option<+T> = None | Some(value: T)

  /** A monitored site, identified by its URL. */
  type Site = string

  /** Local wall-clock time in whole seconds (the log stores
      "%Y-%m-%d %H:%M:%S"); second 0 is midnight at the start of day 0. */
  type Time = int

  /** The three status strings of the log: "Доступен", "Недоступен", "Ошибка". */
  datatype Status = Available | Unavailable | Error

  /** What one `requests.get` produced: a response carrying its HTTP status
      code, or a `RequestException` (timeout, refused connection, TLS, ...). */
  datatype Outcome = Response(code: int) | RequestFailure

  /** The classification made inside `check_sites`: it is total, and each
      outcome falls in exactly one of the three classes. */
  function Classify(o: Outcome): (s: Status)
    ensures s == Available <==> o == Response(200)
    ensures s == Unavailable <==> o.Response? && o.code != 200
    ensures s == Error <==> o == RequestFailure
  {
    match o
    case Response(code) => if code == 200 then Available else Unavailable
    case RequestFailure => Error
  }

  /** One row of the `logs` table: organization, timestamp, status. */
  datatype Event = Event(site: Site, time: Time, status: Status)

  /** The events of one site, in log order (`df[df["organization"] == site]`). */
  function EventsOf(log: seq<Event>, s: Site): (r: seq<Event>)
    ensures |r| <= |log|
  {
    if log == [] then []
    else EventsOf(log[..|log| - 1], s) + (if log[|log| - 1].site == s then [log[|log| - 1]] else [])
  }

  /** A site's events are exactly the log's events that name it. */
  lemma {:induction false} EventsOfMembers(log: seq<Event>, s: Site)
    ensures forall e :: e in EventsOf(log, s) <==> e in log && e.site == s
    decreases |log|
  {
    if log != [] {
      var init := log[..|log| - 1];
      EventsOfMembers(init, s);
      assert log == init + [log[|log| - 1]];
    }
  }

  /** Selecting one site's events distributes over concatenation of logs. */
  lemma {:induction false} EventsOfAppend(a: seq<Event>, b: seq<Event>, s: Site)
    ensures EventsOf(a + b, s) == EventsOf(a, s) + EventsOf(b, s)
    decreases |b|
  {
    if b == [] {
      assert a + b == a;
    } else {
      var init := b[..|b| - 1];
      assert (a + b)[..|a + b| - 1] == a + init;
      EventsOfAppend(a, init, s);
    }
  }

  // Sequence helpers, used to keep the proofs about logs small.

  lemma AppendAssoc<T>(a: seq<T>, b: seq<T>, c: seq<T>)
    ensures (a + b) + c == a + (b + c)
  {
  }

  lemma AppendEmpty<T>(a: seq<T>)
    ensures a + [] == a
  {
  }
}
