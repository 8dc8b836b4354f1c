/** From the sensor board to the stored record: the board's frame is sampled again and
    again, each sample becomes a line, the lines travel as bytes through the relay, and
    the server turns them into sessions and records. */
module Pipeline {
  import opened Records
  import opened Sessions
  import opened Wire
  import opened Firmware

  // ----- what is sampled -----

  /** The phase of the simulation that is on show after `n` ticks: 2q while vehicle
      cycle q shows its START frame, 2q + 1 while it shows its END frame. */
  function Phase(n: nat): nat {
    2 * CycleShown(n) + if KindShown(n) == MSG_START then 0 else 1
  }

  /** The frame fields on show after `n` ticks. */
  function FrameAt(vs: seq<Vehicle>, n: nat): Frame
    requires |vs| == NUM_VEHICLES
  {
    VehicleFrame(KindShown(n), vs[CycleShown(n) % NUM_VEHICLES])
  }

  /** The 48 bytes in the board's frame memory after `n` ticks. */
  function BoardBytes(vs: seq<Vehicle>, n: nat): (b: seq<char>)
    requires |vs| == NUM_VEHICLES
    ensures |b| == FRAME_SIZE
  {
    ClosedForm(n);
    FrameBytes(AfterTicks(n).shownKind, vs[AfterTicks(n).shown])
  }

  /** A sample of the board reads those bytes ... */
  lemma BoardShows(board: Controller)
    requires board.Valid()
    ensures board.frame[..] == BoardBytes(board.vehicles, board.handled)
  {
    ClosedForm(board.handled);
  }

  /** ... and they hold the fields of the closed form. */
  lemma BytesShow(vs: seq<Vehicle>, n: nat)
    requires TableOk(vs)
    ensures FieldsOf(BoardBytes(vs, n)) == FrameAt(vs, n) && BoardBytes(vs, n)[0] == KindShown(n)
    ensures Sendable(FrameAt(vs, n))
  {
    ClosedForm(n);
    VehicleFrameSendable(KindShown(n), vs[CycleShown(n) % NUM_VEHICLES]);
  }

  /** Samples in order, no phase of the board missed. */
  ghost predicate NoSkip(at: seq<nat>) {
    && (at != [] ==> Phase(at[0]) == 0)
    && forall i | 0 < i < |at| :: Phase(at[i - 1]) <= Phase(at[i]) <= Phase(at[i - 1]) + 1
  }

  /** At least one sample in every six consecutive ticks. */
  ghost predicate EverySix(at: seq<nat>) {
    && (at != [] ==> at[0] < 6)
    && forall i | 0 < i < |at| :: at[i - 1] <= at[i] <= at[i - 1] + 6
  }

  lemma PhaseStep(a: nat, b: nat)
    requires a <= b <= a + 6
    ensures Phase(a) <= Phase(b) <= Phase(a) + 1
  {
    if a > 0 {
      var q, m := (a - 1) / 17, (a - 1) % 17;
      var d := b - a;
      if m + d < 17 {
        assert b - 1 == q * 17 + (m + d);
        assert (b - 1) / 17 == q && (b - 1) % 17 == m + d;
      } else {
        assert b - 1 == (q + 1) * 17 + (m + d - 17);
        assert (b - 1) / 17 == q + 1 && (b - 1) % 17 == m + d - 17;
      }
    }
  }

  lemma EverySixSkipsNothing(at: seq<nat>)
    requires EverySix(at)
    ensures NoSkip(at)
  {
    forall i | 0 < i < |at| ensures Phase(at[i - 1]) <= Phase(at[i]) <= Phase(at[i - 1]) + 1 {
      PhaseStep(at[i - 1], at[i]);
    }
  }

  // ----- what the server makes of it -----

  /** The handled messages are those of the sampled frames, in order. */
  ghost predicate Sampled(vs: seq<Vehicle>, at: seq<nat>, events: seq<Event>) {
    && TableOk(vs) && |events| == |at|
    && forall i | 0 <= i < |at| ::
         && events[i].msg.kind == KindShown(at[i])
         && events[i].msg.id == vs[CycleShown(at[i]) % NUM_VEHICLES].id
         && events[i].msg.city == vs[CycleShown(at[i]) % NUM_VEHICLES].city
  }

  /** Event `b` is the last START sample of cycle `q`, the next one its first END. */
  ghost predicate Turn(at: seq<nat>, q: nat, b: nat) {
    b + 1 < |at| && Phase(at[b]) == 2 * q && Phase(at[b + 1]) == 2 * q + 1
  }

  /** Record `q` bills cycle `q` from its last START sample to its first END sample. */
  ghost predicate RecordsCycle(r: Record, at: seq<nat>, events: seq<Event>, q: nat) {
    |events| == |at| && exists b: nat :: Turn(at, q, b) && r == RecordOf(SessionOf(events[b]), events[b + 1])
  }

  /** The first END sample of a cycle is billed, every other one refused. */
  predicate ReplyFits(r: Reply, at: seq<nat>, i: nat)
    requires i < |at|
  {
    if Phase(at[i]) % 2 == 0 then r.Started?
    else if i > 0 && Phase(at[i - 1]) % 2 == 0 then r.Fee?
    else r.NoSession?
  }

  ghost predicate RepliesFit(replies: seq<Reply>, at: seq<nat>) {
    |replies| == |at| && forall i: nat | i < |at| :: ReplyFits(replies[i], at, i)
  }

  /** The cycles whose END frame has been on show by the last sample. */
  function EndsShown(at: seq<nat>): nat {
    if at == [] then 0 else (Phase(at[|at| - 1]) + 1) / 2
  }

  /** One record per cycle that has ended. */
  ghost predicate RecordsFit(records: seq<Record>, at: seq<nat>, events: seq<Event>) {
    && |records| == EndsShown(at)
    && forall q: nat | q < |records| :: RecordsCycle(records[q], at, events, q)
  }

  /** The vehicle that shows a START frame has the only open session. */
  ghost predicate SessionsFit(sessions: map<string, Session>, at: seq<nat>, events: seq<Event>) {
    && |events| == |at|
    && if at != [] && Phase(at[|at| - 1]) % 2 == 0
       then sessions == map[events[|at| - 1].msg.id := SessionOf(events[|at| - 1])]
       else sessions == map[]
  }

  ghost predicate Tracked(at: seq<nat>, events: seq<Event>, l: Ledger) {
    RepliesFit(l.replies, at) && RecordsFit(l.records, at, events) && SessionsFit(l.sessions, at, events)
  }

  lemma RecordsCycleLater(r: Record, at: seq<nat>, events: seq<Event>, q: nat, n: nat)
    requires n <= |at| == |events| && RecordsCycle(r, at[..n], events[..n], q)
    ensures RecordsCycle(r, at, events, q)
  {
    var b: nat :| Turn(at[..n], q, b) && r == RecordOf(SessionOf(events[..n][b]), events[..n][b + 1]);
    assert Turn(at, q, b);
  }

  lemma ParityIsKind(n: nat)
    ensures Phase(n) % 2 == 0 <==> KindShown(n) == MSG_START
    ensures Phase(n) / 2 == CycleShown(n)
  {
  }

  lemma SampledPrefix(vs: seq<Vehicle>, at: seq<nat>, events: seq<Event>, n: nat)
    requires Sampled(vs, at, events) && n <= |at|
    ensures Sampled(vs, at[..n], events[..n]) && (NoSkip(at) ==> NoSkip(at[..n]))
  {
  }

  /** Stuttered sampling still yields exactly one record per completed vehicle cycle,
      in table order, billed from the last START sample to the first END sample; all
      other END samples are refused, and at most one session is ever open. */
  lemma {:induction false} OneRecordPerCycle(vs: seq<Vehicle>, at: seq<nat>, events: seq<Event>)
    requires Sampled(vs, at, events) && NoSkip(at)
    ensures Tracked(at, events, After(events))
  {
    if at != [] {
      var n := |at| - 1;
      SampledPrefix(vs, at, events, n);
      OneRecordPerCycle(vs, at[..n], events[..n]);
      Step(vs, at, events, After(events[..n]));
    }
  }

  lemma Step(vs: seq<Vehicle>, at: seq<nat>, events: seq<Event>, l: Ledger)
    requires Sampled(vs, at, events) && NoSkip(at) && at != []
    requires Tracked(at[..|at| - 1], events[..|at| - 1], l)
    ensures Tracked(at, events, Process(l, events[|at| - 1]))
  {
    var n := |at| - 1;
    ParityIsKind(at[n]);
    SessionsStep(vs, at, events, l);
    RecordsStep(at, events, l, Process(l, events[n]));
    RepliesStep(at, l.replies, Process(l, events[n]).replies);
  }

  /** The last sample's share of the records and replies. */
  ghost predicate Billed(l: Ledger, k: Ledger, at: seq<nat>, events: seq<Event>)
    requires at != [] && |events| == |at|
  {
    var n := |at| - 1;
    if Phase(at[n]) % 2 == 0 then k.records == l.records && k.replies == l.replies + [Started]
    else if n > 0 && Phase(at[n - 1]) % 2 == 0 then
      && k.records == l.records + [RecordOf(SessionOf(events[n - 1]), events[n])]
      && |k.replies| == |l.replies| + 1 && k.replies[..|l.replies|] == l.replies
      && k.replies[|l.replies|].Fee?
    else k.records == l.records && k.replies == l.replies + [NoSession]
  }

  /** What one more sample does to a server that has kept up so far. */
  lemma SessionsStep(vs: seq<Vehicle>, at: seq<nat>, events: seq<Event>, l: Ledger)
    requires Sampled(vs, at, events) && NoSkip(at) && at != []
    requires SessionsFit(l.sessions, at[..|at| - 1], events[..|at| - 1])
    ensures SessionsFit(Process(l, events[|at| - 1]).sessions, at, events)
    ensures Billed(l, Process(l, events[|at| - 1]), at, events)
  {
    var n := |at| - 1;
    ParityIsKind(at[n]);
    if n > 0 {
      ParityIsKind(at[n - 1]);
      if Phase(at[n - 1]) % 2 == 0 {
        assert CycleShown(at[n - 1]) == CycleShown(at[n]);
      }
    }
  }

  lemma RecordsStep(at: seq<nat>, events: seq<Event>, l: Ledger, k: Ledger)
    requires NoSkip(at) && at != [] && |events| == |at|
    requires RecordsFit(l.records, at[..|at| - 1], events[..|at| - 1])
    requires var n := |at| - 1;
             if Phase(at[n]) % 2 == 1 && n > 0 && Phase(at[n - 1]) % 2 == 0
             then k.records == l.records + [RecordOf(SessionOf(events[n - 1]), events[n])]
             else k.records == l.records
    ensures RecordsFit(k.records, at, events)
  {
    var n := |at| - 1;
    forall q: nat | q < |l.records| ensures RecordsCycle(l.records[q], at, events, q) {
      RecordsCycleLater(l.records[q], at, events, q, n);
    }
    if Phase(at[n]) % 2 == 1 && n > 0 && Phase(at[n - 1]) % 2 == 0 {
      assert Turn(at, Phase(at[n]) / 2, n - 1);
    }
  }

  lemma RepliesStep(at: seq<nat>, before: seq<Reply>, after: seq<Reply>)
    requires at != [] && RepliesFit(before, at[..|at| - 1])
    requires |after| == |at| && after[..|at| - 1] == before && ReplyFits(after[|at| - 1], at, |at| - 1)
    ensures RepliesFit(after, at)
  {
    forall i: nat | i < |at| - 1 ensures ReplyFits(after[i], at, i) {
      assert after[i] == after[..|at| - 1][i];
      assert ReplyFits(before[i], at[..|at| - 1], i);
    }
  }

  // ----- when a record is lost -----

  ghost predicate Ascending(at: seq<nat>) {
    forall i | 0 < i < |at| :: at[i - 1] <= at[i]
  }

  lemma {:induction false} PhaseMonotone(a: nat, b: nat)
    requires a <= b
    ensures Phase(a) <= Phase(b)
    decreases b - a
  {
    if a < b {
      PhaseStep(a, a + 1);
      PhaseMonotone(a + 1, b);
    }
  }

  lemma AfterLast(events: seq<Event>)
    requires events != []
    ensures After(events) == Process(After(events[..|events| - 1]), events[|events| - 1])
  {
  }

  /** Only an END with an open session adds a record, and no END leaves its session. */
  lemma OneMessage(l: Ledger, e: Event)
    ensures |Process(l, e).records| <= |l.records| + 1
    ensures e.msg.kind == MSG_START || e.msg.id !in l.sessions ==> Process(l, e).records == l.records
    ensures e.msg.kind != MSG_START ==> e.msg.id !in Process(l, e).sessions
  {
  }

  /** A second END sample of a cycle finds no session. */
  lemma EndRepeated(vs: seq<Vehicle>, at: seq<nat>, events: seq<Event>, n: nat)
    requires Sampled(vs, at, events) && 0 < n < |at| && Phase(at[n]) == Phase(at[n - 1]) && Phase(at[n]) % 2 == 1
    ensures events[n].msg.id !in After(events[..n]).sessions
  {
    ParityIsKind(at[n]);
    ParityIsKind(at[n - 1]);
    AfterLast(events[..n]);
    OneMessage(After(events[..n][..n - 1]), events[n - 1]);
  }

  /** One more sample never makes up for a lost record. */
  lemma DeficitGrows(vs: seq<Vehicle>, at: seq<nat>, events: seq<Event>)
    requires Sampled(vs, at, events) && Ascending(at) && |at| > 1
    ensures |After(events).records| - |After(events[..|at| - 1]).records| <= EndsShown(at) - EndsShown(at[..|at| - 1])
  {
    var n := |at| - 1;
    var p, q := Phase(at[n - 1]), Phase(at[n]);
    AfterLast(events);
    OneMessage(After(events[..n]), events[n]);
    ParityIsKind(at[n]);
    PhaseMonotone(at[n - 1], at[n]);
    assert EndsShown(at[..n]) == (p + 1) / 2 && EndsShown(at) == (q + 1) / 2;
    if p == q && q % 2 == 1 {
      EndRepeated(vs, at, events, n);
    }
    assert q % 2 == 1 && p < q ==> (q + 1) / 2 > (p + 1) / 2;
  }

  /** The first phase missed costs a record: a missed END has none, and a missed START
      leaves its END without a session. */
  lemma FirstSkip(vs: seq<Vehicle>, at: seq<nat>, events: seq<Event>)
    requires Sampled(vs, at, events) && Ascending(at) && at != []
    requires NoSkip(at[..|at| - 1]) && !NoSkip(at)
    ensures |After(events).records| < EndsShown(at)
  {
    var n := |at| - 1;
    var l := After(events[..n]);
    var q := Phase(at[n]);
    SampledPrefix(vs, at, events, n);
    OneRecordPerCycle(vs, at[..n], events[..n]);
    assert |l.records| == EndsShown(at[..n]) && SessionsFit(l.sessions, at[..n], events[..n]);
    AfterLast(events);
    ParityIsKind(at[n]);
    if n == 0 {
      NothingToBill(l, events[n]);
    } else {
      SkippedLast(at);
      SkipCosts(l, events[n], Phase(at[..n][n - 1]), q);
    }
  }

  lemma NothingToBill(l: Ledger, e: Event)
    requires l.sessions == map[]
    ensures Process(l, e).records == l.records
  {
    OneMessage(l, e);
  }

  /** A message that jumps from phase `p` over at least one phase to `q`. */
  lemma SkipCosts(l: Ledger, e: Event, p: nat, q: nat)
    requires q >= p + 2 && |l.records| == (p + 1) / 2 && (p % 2 == 1 ==> l.sessions == map[])
    requires q % 2 == 0 ==> e.msg.kind == MSG_START
    ensures |Process(l, e).records| < (q + 1) / 2
  {
    OneMessage(l, e);
    if p % 2 == 1 {
      NothingToBill(l, e);
    }
  }

  lemma NoSkipSnoc(at: seq<nat>)
    requires |at| > 1 && NoSkip(at[..|at| - 1])
    requires Phase(at[|at| - 2]) <= Phase(at[|at| - 1]) <= Phase(at[|at| - 2]) + 1
    ensures NoSkip(at)
  {
    var n := |at| - 1;
    assert at[..n][0] == at[0];
    forall i | 0 < i < |at| ensures Phase(at[i - 1]) <= Phase(at[i]) <= Phase(at[i - 1]) + 1 {
      if i < n {
        assert at[..n][i] == at[i] && at[..n][i - 1] == at[i - 1];
      }
    }
  }

  lemma SkippedLast(at: seq<nat>)
    requires |at| > 1 && NoSkip(at[..|at| - 1]) && !NoSkip(at) && Ascending(at)
    ensures Phase(at[|at| - 1]) > Phase(at[|at| - 2]) + 1
  {
    var n := |at| - 1;
    PhaseMonotone(at[n - 1], at[n]);
    if Phase(at[n]) <= Phase(at[n - 1]) + 1 {
      NoSkipSnoc(at);
    }
  }

  /** For all samples in order: every cycle that has ended on the board has its record if
      and only if no phase was missed. */
  lemma {:induction false} NothingLostIff(vs: seq<Vehicle>, at: seq<nat>, events: seq<Event>)
    requires Sampled(vs, at, events) && Ascending(at)
    ensures |After(events).records| <= EndsShown(at)
    ensures |After(events).records| == EndsShown(at) <==> NoSkip(at)
  {
    if NoSkip(at) {
      OneRecordPerCycle(vs, at, events);
    } else {
      var n := |at| - 1;
      SampledPrefix(vs, at, events, n);
      NothingLostIff(vs, at[..n], events[..n]);
      if NoSkip(at[..n]) {
        FirstSkip(vs, at, events);
      } else {
        DeficitGrows(vs, at, events);
      }
    }
  }

  /** Six is tight: two samples seven ticks apart, the last of a START frame and the
      first of the next one, lose a record of every cycle it happens to, whatever is
      sampled before and after. */
  lemma GapOfSevenLoses(vs: seq<Vehicle>, at: seq<nat>, events: seq<Event>, i: nat, q: nat)
    requires Sampled(vs, at, events) && Ascending(at)
    requires i + 1 < |at| && at[i] == 17 * q + 11 && at[i + 1] == at[i] + 7
    ensures |After(events).records| < EndsShown(at)
  {
    assert (at[i] - 1) / 17 == q && (at[i] - 1) % 17 == 10;
    assert (at[i + 1] - 1) / 17 == q + 1 && (at[i + 1] - 1) % 17 == 0;
    assert Phase(at[i]) == 2 * q && Phase(at[i + 1]) == 2 * q + 2;
    NothingLostIff(vs, at, events);
    assert !NoSkip(at) by {
      assert Phase(at[(i + 1) - 1]) + 1 < Phase(at[i + 1]);
    }
  }
}
