/** What the server has handled, as a trace of lines, and what such a trace means. */
module ServerTrace {
  import opened Options
  import opened Sessions
  import opened Wire
  import PriceFile
  import PriceTable

  /** One handled line: the connection it came on (numbered in order of acceptance)
      and that connection's descriptor, the clock readings, and the price table. */
  datatype Entry = Entry(conn: nat, fd: int, line: string, now: int, stamp: int, prices: seq<PriceFile.Row>)

  /** What the clock shows while a line is handled, when its time is taken and when its
      record is made, and what the shared price table holds. */
  datatype Moment = Moment(now: int, stamp: int, prices: PriceTable.PriceList)

  ghost predicate InMoments(trace: seq<Entry>, moments: nat -> Moment) {
    forall i: nat | i < |trace| ::
      trace[i].now == moments(i).now && trace[i].stamp == moments(i).stamp && trace[i].prices == moments(i).prices
  }

  lemma MomentsSnoc(trace: seq<Entry>, moments: nat -> Moment, e: Entry)
    requires InMoments(trace, moments)
    requires e.now == moments(|trace|).now && e.stamp == moments(|trace|).stamp && e.prices == moments(|trace|).prices
    ensures InMoments(trace + [e], moments)
  {
  }

  /** The clock never runs backwards. */
  ghost predicate Forward(moments: nat -> Moment) {
    && (forall i: nat :: moments(i).now <= moments(i).stamp)
    && (forall i: nat, j: nat | i < j :: moments(i).stamp <= moments(j).now)
  }

  lemma ForwardTimes(trace: seq<Entry>, moments: nat -> Moment)
    requires InMoments(trace, moments) && Forward(moments)
    ensures TimesOk(trace, moments(|trace|).now)
  {
  }

  function EventOf(e: Entry, m: Msg): Event {
    Event(m, e.now, e.stamp, e.prices)
  }

  /** One handled line, on what the server has accumulated. */
  function Handle(l: Ledger, e: Entry): Ledger {
    match Parse(e.line)
    case None => l.(replies := l.replies + [BadMsg])
    case Some(m) => Process(l, EventOf(e, m))
  }

  function HandleAll(trace: seq<Entry>): Ledger {
    if trace == [] then Ledger(map[], [], []) else
      Handle(HandleAll(trace[..|trace| - 1]), trace[|trace| - 1])
  }

  function EventsAt(e: Entry): seq<Event> {
    match Parse(e.line)
    case None => []
    case Some(m) => [EventOf(e, m)]
  }

  /** The messages among the handled lines. */
  function Events(trace: seq<Entry>): seq<Event> {
    if trace == [] then [] else
      Events(trace[..|trace| - 1]) + EventsAt(trace[|trace| - 1])
  }

  function Fds(trace: seq<Entry>): seq<int> {
    seq(|trace|, i requires 0 <= i < |trace| => trace[i].fd)
  }

  /** `l` is what handling `trace` accumulates.  (Quantified so that a proof unfolds
      `HandleAll` only where it speaks of it.) */
  ghost predicate IsLedgerOf(l: Ledger, trace: seq<Entry>) {
    forall t | t == trace :: HandleAll(t) == l
  }

  /** Handling the line takes `l` to `k`.  (Quantified like `IsLedgerOf`.) */
  ghost predicate Takes(l: Ledger, e: Entry, k: Ledger) {
    forall x | x == e :: Handle(l, x) == k
  }

  lemma LedgerSnoc(l: Ledger, trace: seq<Entry>, e: Entry, k: Ledger)
    requires IsLedgerOf(l, trace) && Takes(l, e, k)
    ensures IsLedgerOf(k, trace + [e])
    ensures Fds(trace + [e]) == Fds(trace) + [e.fd]
  {
    assert Handle(l, e) == k;
    assert HandleAll(trace) == l;
    assert (trace + [e])[..|trace|] == trace;
    assert HandleAll(trace + [e]) == Handle(l, e);
  }

  /** The ledger of the lines is the ledger of the messages among them, plus one
      `ERR:bad_msg` for each of the others; every line gets exactly one reply. */
  lemma {:induction false} LedgerOfEvents(trace: seq<Entry>)
    ensures HandleAll(trace).sessions == After(Events(trace)).sessions
    ensures HandleAll(trace).records == After(Events(trace)).records
    ensures |HandleAll(trace).replies| == |trace|
  {
    if trace != [] {
      var n := |trace| - 1;
      LedgerOfEvents(trace[..n]);
      match Parse(trace[n].line) {
        case None =>
          assert Events(trace) == Events(trace[..n]);
        case Some(m) =>
          var e := EventOf(trace[n], m);
          assert (Events(trace[..n]) + [e])[..|Events(trace[..n])|] == Events(trace[..n]);
          ProcessAgrees(HandleAll(trace[..n]), After(Events(trace[..n])), e);
      }
    }
  }

  lemma ProcessAgrees(l: Ledger, k: Ledger, e: Event)
    requires l.sessions == k.sessions && l.records == k.records
    ensures Process(l, e).sessions == Process(k, e).sessions
    ensures Process(l, e).records == Process(k, e).records
    ensures |Process(l, e).replies| == |l.replies| + 1
  {
  }

  /** The reply to a line after others: `ERR:bad_msg` if it does not parse, else the
      answer to its message after the messages before it. */
  ghost predicate LineAnswered(reply: Reply, before: seq<Entry>, e: Entry) {
    var msg := Parse(e.line);
    if msg.None? then reply == BadMsg else Answers(reply, Events(before), EventOf(e, msg.value))
  }

  /** `LineAnswered` as a set, so that a proof unfolds it only where it speaks of it. */
  ghost function RepliesTo(before: seq<Entry>, e: Entry): iset<Reply> {
    iset reply | LineAnswered(reply, before, e)
  }

  lemma {:induction false} ReplyOfLine(l: Ledger, trace: seq<Entry>, i: nat)
    requires IsLedgerOf(l, trace) && i < |trace|
    ensures |l.replies| == |trace| && l.replies[i] in RepliesTo(trace[..i], trace[i])
    decreases |trace|
  {
    var n := |trace| - 1;
    var before := LastLineReply(l, trace);
    if i < n {
      ReplyOfLine(before, trace[..n], i);
      assert l.replies[i] == before.replies[i];
      assert trace[..n][..i] == trace[..i] && trace[..n][i] == trace[i];
      SameReply(before.replies[i], l.replies[i], trace[..n][..i], trace[..i], trace[i]);
    }
  }

  lemma RepliesOfLines(l: Ledger, trace: seq<Entry>)
    requires IsLedgerOf(l, trace)
    ensures |l.replies| == |trace|
    ensures forall i | 0 <= i < |trace| :: l.replies[i] in RepliesTo(trace[..i], trace[i])
  {
    assert HandleAll(trace) == l;
    LedgerOfEvents(trace);
    forall i | 0 <= i < |trace| ensures l.replies[i] in RepliesTo(trace[..i], trace[i]) {
      ReplyOfLine(l, trace, i);
    }
  }

  lemma SameReply(r: Reply, q: Reply, a: seq<Entry>, b: seq<Entry>, e: Entry)
    requires r in RepliesTo(a, e) && a == b && r == q
    ensures q in RepliesTo(b, e)
  {
  }

  lemma LastLineReply(l: Ledger, trace: seq<Entry>) returns (before: Ledger)
    requires trace != [] && IsLedgerOf(l, trace)
    ensures IsLedgerOf(before, trace[..|trace| - 1])
    ensures |l.replies| == |before.replies| + 1 && l.replies[..|before.replies|] == before.replies
    ensures |before.replies| == |trace| - 1 && l.replies[|trace| - 1] in RepliesTo(trace[..|trace| - 1], trace[|trace| - 1])
  {
    var n := |trace| - 1;
    assert HandleAll(trace) == l;
    before := HandleAll(trace[..n]);
    LedgerOfEvents(trace[..n]);
    match Parse(trace[n].line) {
      case None =>
      case Some(m) =>
        SessionOfCustomer(Events(trace[..n]), m.id);
        LastAnswer(before, Events(trace[..n]), EventOf(trace[n], m));
    }
  }

  /** Clock readings in the order they were made, none later than `clock`. */
  ghost predicate TimesOk(trace: seq<Entry>, clock: int) {
    && (forall i | 0 <= i < |trace| :: trace[i].now <= trace[i].stamp <= clock)
    && (forall i, j | 0 <= i < j < |trace| :: trace[i].stamp <= trace[j].now)
  }

  /** The messages of a line carry the line's clock readings. */
  lemma TimesAt(e: Entry)
    ensures |EventsAt(e)| <= 1
    ensures forall x | x in EventsAt(e) :: x.now == e.now && x.stamp == e.stamp
  {
  }

  lemma ClockSnoc(events: seq<Event>, last: seq<Event>, now: int, stamp: int)
    requires ClockOk(events) && |last| <= 1 && now <= stamp
    requires forall e | e in events :: e.stamp <= now
    requires forall e | e in last :: e.now == now && e.stamp == stamp
    ensures ClockOk(events + last)
    ensures forall e | e in events + last :: e.stamp <= stamp
  {
    var all := events + last;
    forall i, j | 0 <= i < j < |all| ensures all[i].stamp <= all[j].now {
      assert all[i] == events[i] && events[i] in events;
      if j >= |events| { assert last[j - |events|] in last; }
    }
  }

  lemma {:induction false} ClockOfEvents(trace: seq<Entry>, clock: int)
    requires TimesOk(trace, clock)
    ensures ClockOk(Events(trace))
    ensures forall e | e in Events(trace) :: e.stamp <= clock
  {
    if trace != [] {
      var n := |trace| - 1;
      ClockOfEvents(trace[..n], trace[n].now);
      TimesAt(trace[n]);
      ClockSnoc(Events(trace[..n]), EventsAt(trace[n]), trace[n].now, trace[n].stamp);
    }
  }
}
