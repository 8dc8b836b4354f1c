/** The server's business logic: the session map, the fee, and what a trace of
    messages leaves behind. */
module Sessions {
  import opened Options
  import opened Records
  import opened Text
  import PriceFile
  import PriceTable

  const MSG_START: char := 'S'
  const MSG_END: char := 'E'
  const ID_LEN: nat := 64
  const CITY_LEN: nat := 64

  /** A parsed wire message; `kind` is 'S' or 'E'. */
  datatype Msg = Msg(kind: char, id: string, lat: real, lon: real, city: string)

  /** A message with what the server reads from outside while it handles it: the
      clock once (`now`) or, for an END, a second time for the record (`stamp`),
      and the shared price table. */
  datatype Event = Event(msg: Msg, now: int, stamp: int, prices: seq<PriceFile.Row>)

  datatype Session = Session(id: string, lat: real, lon: real, city: string, startTime: int)

  datatype Reply = Started | Fee(fee: real, elapsedMin: real) | NoSession | BadMsg

  /** What the server has accumulated: open sessions, stored records, replies sent. */
  datatype Ledger = Ledger(sessions: map<string, Session>, records: seq<Record>, replies: seq<Reply>)

  function SessionOf(e: Event): Session {
    Session(e.msg.id, e.msg.lat, e.msg.lon, e.msg.city, e.now)
  }

  function ElapsedMin(s: Session, now: int): real {
    (now - s.startTime) as real / 60.0
  }

  function Charged(price: real): real {
    if price < 0.0 then 0.0 else price
  }

  /** The price for a session that ends at `e`; -1 when the city is unknown. */
  function PriceAt(e: Event, s: Session): real {
    PriceTable.Price(e.prices, s.city)
  }

  function RecordOf(s: Session, e: Event): Record {
    Record(Field(e.msg.id, ID_LEN), s.lat, s.lon, e.msg.lat, e.msg.lon, s.startTime, e.stamp,
           ElapsedMin(s, e.now) * Charged(PriceAt(e, s)), Field(s.city, CITY_LEN), true)
  }

  /** `TcpServer::processMessage` on the accumulated state. */
  function Process(l: Ledger, e: Event): Ledger {
    var id := e.msg.id;
    if e.msg.kind == MSG_START then
      l.(sessions := l.sessions[id := SessionOf(e)], replies := l.replies + [Started])
    else if id !in l.sessions then
      l.(replies := l.replies + [NoSession])
    else
      var s := l.sessions[id];
      var rec := RecordOf(s, e);
      l.(sessions := l.sessions - {id}, records := l.records + [rec],
         replies := l.replies + [Fee(rec.totalFee, ElapsedMin(s, e.now))])
  }

  function After(trace: seq<Event>): Ledger {
    if trace == [] then Ledger(map[], [], []) else
      Process(After(trace[..|trace| - 1]), trace[|trace| - 1])
  }

  /** `SessionManager`: the map the server updates in place. */
  class SessionManager {
    var sessions: map<string, Session>

    constructor ()
      ensures sessions == map[]
    {
      sessions := map[];
    }

    method Start(s: Session)
      modifies this
      ensures sessions == old(sessions)[s.id := s]
    {
      sessions := sessions[s.id := s];
    }

    method End(id: string) returns (r: Option<Session>)
      modifies this
      ensures id in old(sessions) ==> r == Some(old(sessions)[id])
      ensures id !in old(sessions) ==> r == None
      ensures id !in sessions
      ensures forall k | k != id :: k in sessions <==> k in old(sessions)
      ensures forall k | k in sessions :: sessions[k] == old(sessions)[k]
      ensures sessions == old(sessions) - {id}
    {
      if id !in sessions {
        assert sessions - {id} == sessions;
        return None;
      }
      r := Some(sessions[id]);
      sessions := sessions - {id};
    }
  }

  // ----- what a trace means, without the map -----

  predicate IsStart(e: Event) {
    e.msg.kind == MSG_START
  }

  /** The last event about `id`. */
  function LastOf(trace: seq<Event>, id: string): (r: Option<nat>)
    ensures r.Some? ==> r.value < |trace| && trace[r.value].msg.id == id
    ensures r.Some? ==> forall i | r.value < i < |trace| :: trace[i].msg.id != id
    ensures r.None? ==> forall i | 0 <= i < |trace| :: trace[i].msg.id != id
  {
    if trace == [] then None
    else if trace[|trace| - 1].msg.id == id then Some(|trace| - 1)
    else LastOf(trace[..|trace| - 1], id)
  }

  /** The START that a new event of customer `id` finds open: the customer's last
      event so far, provided that is a START. */
  function OpenStart(trace: seq<Event>, id: string): (r: Option<nat>)
    ensures r.Some? ==> r.value < |trace| && IsStart(trace[r.value]) && trace[r.value].msg.id == id
    ensures r.Some? ==> forall i | r.value < i < |trace| :: trace[i].msg.id != id
  {
    var r := LastOf(trace, id);
    if r.Some? && IsStart(trace[r.value]) then r else None
  }

  /** What event `e` adds to the records after `trace`, read off the events alone: an
      END directly after a START of its customer yields the record of that pair. */
  function PairWith(trace: seq<Event>, e: Event): seq<Record> {
    var open := OpenStart(trace, e.msg.id);
    if !IsStart(e) && open.Some? then [RecordOf(SessionOf(trace[open.value]), e)] else []
  }

  function Paired(trace: seq<Event>): seq<Record> {
    if trace == [] then [] else
      var before := trace[..|trace| - 1];
      Paired(before) + PairWith(before, trace[|trace| - 1])
  }

  /** Customer `id` has a session open exactly when its last event is a START, and
      then the session is the one that START opened. */
  ghost predicate SessionMatches(sessions: map<string, Session>, trace: seq<Event>, id: string) {
    var last := LastOf(trace, id);
    && (id in sessions <==> last.Some? && IsStart(trace[last.value]))
    && (id in sessions ==> sessions[id] == SessionOf(trace[last.value]))
  }

  ghost predicate SessionsMatch(sessions: map<string, Session>, trace: seq<Event>) {
    forall id: string :: SessionMatches(sessions, trace, id)
  }

  lemma {:induction false} SessionOfCustomer(trace: seq<Event>, id: string)
    ensures SessionMatches(After(trace).sessions, trace, id)
  {
    if trace != [] {
      SessionOfCustomer(trace[..|trace| - 1], id);
    }
  }

  /** The session map holds, for each customer, the latest START since the last END. */
  lemma SessionsAreLatestStarts(trace: seq<Event>)
    ensures SessionsMatch(After(trace).sessions, trace)
  {
    forall id: string ensures SessionMatches(After(trace).sessions, trace, id) {
      SessionOfCustomer(trace, id);
    }
  }

  /** Every record pairs one END with the latest unmatched START of its customer. */
  lemma {:induction false} RecordsArePairs(trace: seq<Event>)
    ensures After(trace).records == Paired(trace)
  {
    if trace != [] {
      var before := trace[..|trace| - 1];
      RecordsArePairs(before);
      SessionOfCustomer(before, trace[|trace| - 1].msg.id);
    }
  }

  // ----- counting -----

  function Starts(trace: seq<Event>): nat {
    if trace == [] then 0 else
      Starts(trace[..|trace| - 1]) + if IsStart(trace[|trace| - 1]) then 1 else 0
  }

  /** STARTs that replace a session which is still open. */
  function Overwrites(trace: seq<Event>): nat {
    if trace == [] then 0 else
      var before, e := trace[..|trace| - 1], trace[|trace| - 1];
      Overwrites(before) + if IsStart(e) && OpenStart(before, e.msg.id).Some? then 1 else 0
  }

  lemma Sizes(m: map<string, Session>, id: string, s: Session)
    ensures |m[id := s]| == |m| + if id in m then 0 else 1
    ensures |m - {id}| == |m| - if id in m then 1 else 0
  {
    assert m[id := s].Keys == m.Keys + {id};
    assert (m - {id}).Keys == m.Keys - {id};
    assert |m[id := s]| == |m[id := s].Keys| && |m - {id}| == |(m - {id}).Keys| && |m| == |m.Keys|;
  }

  /** Conservation: every START ends in exactly one way - billed, still open, or
      overwritten - and every message gets exactly one reply. */
  lemma {:induction false} StartsAreConserved(trace: seq<Event>)
    ensures Starts(trace)
         == |After(trace).records| + |After(trace).sessions| + Overwrites(trace)
    ensures |After(trace).replies| == |trace|
  {
    if trace != [] {
      var n := |trace| - 1;
      var e := trace[n];
      StartsAreConserved(trace[..n]);
      SessionOfCustomer(trace[..n], e.msg.id);
      Sizes(After(trace[..n]).sessions, e.msg.id, SessionOf(e));
    }
  }

  function Count(marks: seq<bool>): nat {
    if marks == [] then 0 else Count(marks[..|marks| - 1]) + if marks[|marks| - 1] then 1 else 0
  }

  lemma {:induction false} CountIsSize(marks: seq<bool>)
    ensures Count(marks) == |set i | 0 <= i < |marks| && marks[i]|
  {
    var all := set i | 0 <= i < |marks| && marks[i];
    if marks == [] {
      assert all == {};
    } else {
      var n := |marks| - 1;
      var before := set i | 0 <= i < n && marks[..n][i];
      CountIsSize(marks[..n]);
      assert all == before + if marks[n] then {n} else {};
    }
  }

  ghost function StartMarks(trace: seq<Event>): seq<bool> {
    seq(|trace|, i requires 0 <= i < |trace| => trace[i].msg.kind == 'S')
  }

  lemma {:induction false} StartsCounted(trace: seq<Event>)
    ensures Starts(trace) == Count(StartMarks(trace))
  {
    if trace != [] {
      var n := |trace| - 1;
      StartsCounted(trace[..n]);
      assert StartMarks(trace)[..n] == StartMarks(trace[..n]);
    }
  }

  /** START `i` replaces an open session if the message before it of its customer is a
      START too. */
  ghost predicate Replaces(trace: seq<Event>, i: int) {
    && 0 <= i < |trace| && IsStart(trace[i])
    && exists j :: LatestOf(trace, j, i) && IsStart(trace[j])
  }

  ghost predicate LatestOf(trace: seq<Event>, j: int, i: int) {
    && 0 <= j < i < |trace| && trace[j].msg.id == trace[i].msg.id
    && forall k | j < k < i :: trace[k].msg.id != trace[i].msg.id
  }

  ghost function ReplaceMarks(trace: seq<Event>): seq<bool> {
    seq(|trace|, i requires 0 <= i < |trace| => Replaces(trace, i))
  }

  lemma {:induction false} OverwritesCounted(trace: seq<Event>)
    ensures Overwrites(trace) == Count(ReplaceMarks(trace))
  {
    if trace != [] {
      var n := |trace| - 1;
      OverwritesCounted(trace[..n]);
      LastReplaces(trace);
      MarksBefore(trace, n);
    }
  }

  lemma MarksBefore(trace: seq<Event>, n: nat)
    requires n <= |trace|
    ensures ReplaceMarks(trace)[..n] == ReplaceMarks(trace[..n])
  {
    forall i | 0 <= i < n ensures Replaces(trace[..n], i) <==> Replaces(trace, i) {
      ReplacesEarlier(trace, n, i);
    }
  }

  lemma ReplacesEarlier(trace: seq<Event>, n: nat, i: nat)
    requires i < n <= |trace|
    ensures Replaces(trace[..n], i) <==> Replaces(trace, i)
  {
    assert forall j :: LatestOf(trace[..n], j, i) <==> LatestOf(trace, j, i);
  }

  lemma LastReplaces(trace: seq<Event>)
    requires trace != []
    ensures var n := |trace| - 1;
            Replaces(trace, n) <==> IsStart(trace[n]) && OpenStart(trace[..n], trace[n].msg.id).Some?
  {
    var n := |trace| - 1;
    var last := LastOf(trace[..n], trace[n].msg.id);
    if last.Some? {
      assert LatestOf(trace, last.value, n);
      assert forall j | LatestOf(trace, j, n) :: j == last.value;
    }
  }

  // ----- billing -----

  /** The server's clock never runs backwards. */
  ghost predicate ClockOk(trace: seq<Event>) {
    && (forall i | 0 <= i < |trace| :: trace[i].now <= trace[i].stamp)
    && (forall i, j | 0 <= i < j < |trace| :: trace[i].stamp <= trace[j].now)
  }

  /** A stay of `seconds` costs the minutes times the price in the table's first row for
      the city; nothing if there is no such row or its price is negative. */
  ghost predicate FeeIs(fee: real, seconds: int, prices: seq<PriceFile.Row>, city: string) {
    forall c | c == city :: FeeFor(fee, seconds, prices, c)
  }

  ghost predicate FeeFor(fee: real, seconds: int, prices: seq<PriceFile.Row>, city: string) {
    && (forall k | PriceTable.FirstMatchAt(prices, city, k) && prices[k].price >= 0.0 ::
          fee * 60.0 == seconds as real * prices[k].price)
    && ((forall k | PriceTable.FirstMatchAt(prices, city, k) :: prices[k].price < 0.0) ==> fee == 0.0)
  }

  /** What a record says of the START and the END it comes from. */
  ghost predicate BillOf(r: Record, start: Event, end: Event) {
    && r.customerId == Field(end.msg.id, ID_LEN) && r.city == Field(start.msg.city, CITY_LEN) && r.complete
    && r.startLat == start.msg.lat && r.startLon == start.msg.lon
    && r.endLat == end.msg.lat && r.endLon == end.msg.lon
    && r.startTime == start.now && r.endTime == end.stamp
    && FeeIs(r.totalFee, end.now - start.now, end.prices, start.msg.city)
  }

  lemma FirstMatchOnly(prices: seq<PriceFile.Row>, city: string)
    ensures PriceTable.FirstMatch(prices, city).Some? ==> exists k :: PriceTable.FirstMatchAt(prices, city, k)
    ensures forall k | PriceTable.FirstMatchAt(prices, city, k) :: PriceTable.Price(prices, city) == prices[k].price
    ensures (forall k :: !PriceTable.FirstMatchAt(prices, city, k)) ==> PriceTable.Price(prices, city) == -1.0
  {
    PriceTable.OneAnswer(prices, city);
    if PriceTable.FirstMatch(prices, city).Some? {
      var i :| PriceTable.FirstMatchAt(prices, city, i)
        && prices[i].price == PriceTable.FirstMatch(prices, city).value;
    }
  }

  lemma FeeIsExact(seconds: int, prices: seq<PriceFile.Row>, city: string)
    ensures FeeIs(seconds as real / 60.0 * Charged(PriceTable.Price(prices, city)), seconds, prices, city)
  {
    FirstMatchOnly(prices, city);
  }

  lemma RecordIsBill(start: Event, end: Event)
    ensures BillOf(RecordOf(SessionOf(start), end), start, end)
  {
    FeeIsExact(end.now - start.now, end.prices, start.msg.city);
  }

  /** The ENDs that find a START of their customer open. */
  function BilledEnds(trace: seq<Event>): (ends: seq<nat>)
    ensures forall q | 0 <= q < |ends| :: ends[q] < |trace| && !IsStart(trace[ends[q]])
                                        && OpenStart(trace[..ends[q]], trace[ends[q]].msg.id).Some?
  {
    if trace == [] then [] else
      var n := |trace| - 1;
      var before := BilledEnds(trace[..n]);
      assert forall q | 0 <= q < |before| :: trace[..n][..before[q]] == trace[..before[q]];
      if !IsStart(trace[n]) && OpenStart(trace[..n], trace[n].msg.id).Some? then before + [n] else before
  }

  /** Record `q` is the bill of the `q`-th of these ENDs and of the START it found open. */
  ghost predicate Bills(r: Record, trace: seq<Event>, q: nat)
    requires q < |BilledEnds(trace)|
  {
    var j := BilledEnds(trace)[q];
    BillOf(r, trace[OpenStart(trace[..j], trace[j].msg.id).value], trace[j])
  }

  /** The records are exactly these bills, in order. */
  lemma {:induction false} RecordsAreBills(trace: seq<Event>)
    ensures |After(trace).records| == |BilledEnds(trace)|
    ensures forall q: nat | q < |After(trace).records| :: Bills(After(trace).records[q], trace, q)
  {
    RecordsArePairs(trace);
    PairsAreBills(trace);
  }

  lemma EarlierBill(r: Record, trace: seq<Event>, n: nat, q: nat)
    requires n == |trace| - 1 && q < |BilledEnds(trace[..n])| && Bills(r, trace[..n], q)
    ensures q < |BilledEnds(trace)| && Bills(r, trace, q)
  {
    var j := BilledEnds(trace[..n])[q];
    assert BilledEnds(trace)[q] == j && trace[..n][..j] == trace[..j];
  }

  lemma {:induction false} PairsAreBills(trace: seq<Event>)
    ensures |Paired(trace)| == |BilledEnds(trace)|
    ensures forall q: nat | q < |Paired(trace)| :: Bills(Paired(trace)[q], trace, q)
  {
    if trace != [] {
      var n := |trace| - 1;
      PairsAreBills(trace[..n]);
      forall q: nat | q < |Paired(trace)| ensures Bills(Paired(trace)[q], trace, q) {
        if q < |Paired(trace[..n])| {
          EarlierBill(Paired(trace[..n])[q], trace, n, q);
        } else {
          RecordIsBill(trace[OpenStart(trace[..n], trace[n].msg.id).value], trace[n]);
        }
      }
    }
  }

  /** The reply to `e` after the messages `before`. */
  ghost predicate Answers(r: Reply, before: seq<Event>, e: Event) {
    var open := OpenStart(before, e.msg.id);
    if IsStart(e) then r == Started
    else if open.None? then r == NoSession
    else
      && r.Fee? && FeeIs(r.fee, e.now - before[open.value].now, e.prices, before[open.value].msg.city)
      && r.elapsedMin * 60.0 == (e.now - before[open.value].now) as real
  }

  lemma LastAnswer(l: Ledger, before: seq<Event>, e: Event)
    requires SessionMatches(l.sessions, before, e.msg.id)
    ensures var k := Process(l, e);
            |k.replies| == |l.replies| + 1 && k.replies[..|l.replies|] == l.replies
            && Answers(k.replies[|l.replies|], before, e)
  {
    var open := OpenStart(before, e.msg.id);
    if !IsStart(e) && open.Some? {
      FeeReply(l, e, before[open.value]);
    }
  }

  lemma FeeReply(l: Ledger, e: Event, start: Event)
    requires !IsStart(e) && e.msg.id in l.sessions && l.sessions[e.msg.id] == SessionOf(start)
    ensures var k := Process(l, e);
            |k.replies| == |l.replies| + 1 && k.replies[..|l.replies|] == l.replies
            && var r := k.replies[|l.replies|];
            && r.Fee? && FeeIs(r.fee, e.now - start.now, e.prices, start.msg.city)
            && r.elapsedMin * 60.0 == (e.now - start.now) as real
  {
    FeeIsExact(e.now - start.now, e.prices, start.msg.city);
  }

  /** A fee for a recorded interval that contains the billed one. */
  ghost predicate FeeWithin(fee: real, seconds: int, prices: seq<PriceFile.Row>, city: string) {
    && fee >= 0.0
    && (forall k | PriceTable.FirstMatchAt(prices, city, k) && prices[k].price >= 0.0 ::
          fee * 60.0 <= seconds as real * prices[k].price)
    && ((forall k | PriceTable.FirstMatchAt(prices, city, k) :: prices[k].price <= 0.0) ==> fee == 0.0)
  }

  lemma FeeBound(fee: real, elapsed: int, billed: int, prices: seq<PriceFile.Row>, city: string)
    requires 0 <= elapsed <= billed && FeeIs(fee, elapsed, prices, city)
    ensures FeeWithin(fee, billed, prices, city)
  {
    assert FeeFor(fee, elapsed, prices, city);
    FirstMatchOnly(prices, city);
    if k :| PriceTable.FirstMatchAt(prices, city, k) {
      var p := prices[k].price;
      OneMatch(prices, city, k);
      if p >= 0.0 {
        assert 0.0 <= elapsed as real * p <= billed as real * p;
      }
    }
  }

  lemma OneMatch(prices: seq<PriceFile.Row>, city: string, k: int)
    requires PriceTable.FirstMatchAt(prices, city, k)
    ensures forall i | PriceTable.FirstMatchAt(prices, city, i) :: i == k
  {
    forall i | PriceTable.FirstMatchAt(prices, city, i) ensures i == k {
      assert !(i < k) && !(k < i);
    }
  }

  /** What one stored record charges, for the START/END pair it comes from. */
  ghost predicate FairlyBilled(r: Record, start: Event, end: Event) {
    && BillOf(r, start, end) && r.startTime <= r.endTime
    && FeeWithin(r.totalFee, r.endTime - r.startTime, end.prices, start.msg.city)
  }

  ghost predicate BilledFrom(r: Record, trace: seq<Event>) {
    exists i, j | 0 <= i < j < |trace| ::
      IsStart(trace[i]) && !IsStart(trace[j]) && trace[i].msg.id == trace[j].msg.id && FairlyBilled(r, trace[i], trace[j])
  }

  lemma PairIsFair(trace: seq<Event>, i: nat, j: nat)
    requires ClockOk(trace) && i < j < |trace|
    requires IsStart(trace[i]) && !IsStart(trace[j]) && trace[i].msg.id == trace[j].msg.id
    ensures BilledFrom(RecordOf(SessionOf(trace[i]), trace[j]), trace)
  {
    var r := RecordOf(SessionOf(trace[i]), trace[j]);
    RecordIsBill(trace[i], trace[j]);
    FeeBound(r.totalFee, trace[j].now - trace[i].now, trace[j].stamp - trace[i].now,
             trace[j].prices, trace[i].msg.city);
    assert FairlyBilled(r, trace[i], trace[j]);
  }

  lemma BilledLater(r: Record, trace: seq<Event>, n: nat)
    requires n <= |trace| && BilledFrom(r, trace[..n])
    ensures BilledFrom(r, trace)
  {
    var i, j :| 0 <= i < j < n && IsStart(trace[..n][i]) && !IsStart(trace[..n][j])
      && trace[..n][i].msg.id == trace[..n][j].msg.id && FairlyBilled(r, trace[..n][i], trace[..n][j]);
    assert IsStart(trace[i]) && !IsStart(trace[j]) && FairlyBilled(r, trace[i], trace[j]);
  }

  lemma {:induction false} PairFairlyBilled(trace: seq<Event>, r: Record)
    requires ClockOk(trace) && r in Paired(trace)
    ensures BilledFrom(r, trace)
    decreases |trace|
  {
    var n := |trace| - 1;
    if r in Paired(trace[..n]) {
      PairFairlyBilled(trace[..n], r);
      BilledLater(r, trace, n);
    } else {
      PairIsFair(trace, OpenStart(trace[..n], trace[n].msg.id).value, n);
    }
  }

  /** Over any trace with a nondecreasing clock, no stored fee is negative or more
      than the price times the recorded interval, and unknown, free or negatively
      priced cities are not charged. */
  lemma BillingIsFair(trace: seq<Event>)
    requires ClockOk(trace)
    ensures forall r | r in After(trace).records :: BilledFrom(r, trace)
  {
    RecordsArePairs(trace);
    forall r | r in After(trace).records ensures BilledFrom(r, trace) {
      PairFairlyBilled(trace, r);
    }
  }
}
