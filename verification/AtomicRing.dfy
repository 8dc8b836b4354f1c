/** The record ring as a protocol whose locked sections are atomic: the server's
    `storeRecord`, and the database poller's snapshot of the counter followed by
    one locked copy per slot.  The steps of the two processes interleave freely. */
module AtomicRing {
  import opened Records

  /** The newest position below `c` that shares the slot of position `i`. */
  function Latest(c: nat, i: nat): (j: nat)
    requires i < c
    ensures i <= j < c && c - j <= SHM_MAX_RECORDS
    ensures j % SHM_MAX_RECORDS == i % SHM_MAX_RECORDS
  {
    var laps := (c - 1 - i) / SHM_MAX_RECORDS;
    SameSlot(i, laps);
    i + laps * SHM_MAX_RECORDS
  }

  lemma SameSlot(i: nat, laps: nat)
    ensures (i + laps * SHM_MAX_RECORDS) % SHM_MAX_RECORDS == i % SHM_MAX_RECORDS
  {
  }

  lemma LatestIsLargest(c: nat, i: nat, j: nat)
    requires i < c && j < c && j % SHM_MAX_RECORDS == i % SHM_MAX_RECORDS
    ensures j <= Latest(c, i)
  {
    var l := Latest(c, i);
    assert j == SHM_MAX_RECORDS * (j / SHM_MAX_RECORDS) + j % SHM_MAX_RECORDS;
    assert l == SHM_MAX_RECORDS * (l / SHM_MAX_RECORDS) + j % SHM_MAX_RECORDS;
    assert j <= l || j >= l + SHM_MAX_RECORDS;
  }

  lemma LatestExact(c: nat, i: nat)
    requires i < c
    ensures Latest(c, i) == i <==> c - i <= 256
  {
    if c - i <= SHM_MAX_RECORDS {
      var l := Latest(c, i);
      assert l == SHM_MAX_RECORDS * (l / SHM_MAX_RECORDS) + i % SHM_MAX_RECORDS;
      assert i == SHM_MAX_RECORDS * (i / SHM_MAX_RECORDS) + i % SHM_MAX_RECORDS;
      assert l < i + SHM_MAX_RECORDS;
    }
  }

  /** A read of ring position `pos` made while the counter stood at `count`. */
  datatype Read = Read(pos: nat, count: nat)

  /** `stored` is every record ever stored; `origins` says where each row of `db` came from. */
  datatype State = State(
    slots: seq<Record>, count: nat, stored: seq<Record>,
    lastSeen: nat, current: nat, db: seq<Record>, origins: seq<Read>)

  datatype Step =
    | Store(rec: Record)  // the server completes a session
    | Snapshot            // poll() starts
    | CopySlot            // one round of the poll() loop
    | Restart             // the database process comes back with lastSeen_ = 0

  ghost predicate Init(s: State) {
    && |s.slots| == SHM_MAX_RECORDS && (forall k | 0 <= k < SHM_MAX_RECORDS :: !s.slots[k].complete)
    && s.count == 0 && s.stored == []
    && s.lastSeen == 0 && s.current == 0 && s.db == [] && s.origins == []
  }

  predicate Enabled(s: State, step: Step) {
    match step
    case Store(rec) => rec.complete
    case Snapshot => s.current <= s.lastSeen
    case CopySlot => s.lastSeen < s.current
    case Restart => true
  }

  function Next(s: State, step: Step): State
    requires |s.slots| == SHM_MAX_RECORDS
  {
    match step
    case Store(rec) =>
      s.(slots := s.slots[s.count % SHM_MAX_RECORDS := rec], count := s.count + 1, stored := s.stored + [rec])
    case Snapshot =>
      s.(current := s.count)
    case CopySlot =>
      var rec := s.slots[s.lastSeen % SHM_MAX_RECORDS];
      if rec.complete then
        s.(db := s.db + [rec], origins := s.origins + [Read(s.lastSeen, s.count)], lastSeen := s.lastSeen + 1)
      else
        s.(lastSeen := s.lastSeen + 1)
    case Restart =>
      s.(lastSeen := 0, current := 0)
  }

  /** `t` is reached from `s` by exactly these steps. */
  ghost predicate Run(s: State, steps: seq<Step>, t: State)
    decreases steps
  {
    if steps == [] then s == t else
      && |s.slots| == SHM_MAX_RECORDS && Enabled(s, steps[0])
      && Run(Next(s, steps[0]), steps[1..], t)
  }

  /** The newest 256 stored records are all in their slots. */
  ghost predicate Window(slots: seq<Record>, stored: seq<Record>) {
    && |slots| == SHM_MAX_RECORDS
    && forall j | 0 <= j < |stored| && |stored| - j <= SHM_MAX_RECORDS :: slots[j % SHM_MAX_RECORDS] == stored[j]
  }

  lemma WindowAfterStore(slots: seq<Record>, stored: seq<Record>, rec: Record)
    requires Window(slots, stored)
    ensures Window(slots[|stored| % SHM_MAX_RECORDS := rec], stored + [rec])
  {
    forall j | 0 <= j < |stored| && |stored| + 1 - j <= SHM_MAX_RECORDS
      ensures j % SHM_MAX_RECORDS != |stored| % SHM_MAX_RECORDS
    {
      assert (|stored| - j) % SHM_MAX_RECORDS == |stored| - j;
    }
  }

  /** The window of live slots, and where each persisted row came from. */
  ghost predicate Inv(s: State) {
    && |s.slots| == SHM_MAX_RECORDS
    && s.count == |s.stored|
    && (forall r | r in s.stored :: r.complete)
    && Window(s.slots, s.stored)
    && s.current <= s.count
    && (s.lastSeen <= s.current)
    && ReadsLaw(s.stored, s.db, s.origins)
  }

  ghost predicate ReadsLaw(stored: seq<Record>, db: seq<Record>, origins: seq<Read>) {
    && |db| == |origins|
    && forall m | 0 <= m < |origins| ::
         && origins[m].pos < origins[m].count <= |stored|
         && db[m] == stored[Latest(origins[m].count, origins[m].pos)]
  }

  /** Overrun law for one read: whatever the lag, the slot of position `i` holds
      the newest stored record that shares it. */
  lemma SlotLaw(s: State, i: nat)
    requires Inv(s) && i < s.count
    ensures s.slots[i % SHM_MAX_RECORDS] == s.stored[Latest(s.count, i)]
  {
    var j := Latest(s.count, i);
    assert s.slots[j % SHM_MAX_RECORDS] == s.stored[j];
  }

  lemma StoreKeepsInv(s: State, rec: Record)
    requires Inv(s) && rec.complete
    ensures Inv(Next(s, Store(rec)))
  {
    WindowAfterStore(s.slots, s.stored, rec);
    var t := Next(s, Store(rec));
    forall r | r in t.stored ensures r.complete {
      assert r in s.stored || r == rec;
    }
  }

  lemma StepKeepsInv(s: State, step: Step)
    requires Inv(s) && Enabled(s, step)
    ensures Inv(Next(s, step))
    ensures step == CopySlot ==> Next(s, step).origins == s.origins + [Read(s.lastSeen, s.count)]
  {
    match step
    case Store(rec) => StoreKeepsInv(s, rec);
    case CopySlot =>
      SlotLaw(s, s.lastSeen);
      assert s.stored[Latest(s.count, s.lastSeen)] in s.stored;
    case _ =>
  }

  lemma {:induction false} RunKeepsInv(s: State, steps: seq<Step>, t: State)
    requires Inv(s) && Run(s, steps, t)
    ensures Inv(t)
    decreases steps
  {
    if steps != [] {
      StepKeepsInv(s, steps[0]);
      RunKeepsInv(Next(s, steps[0]), steps[1..], t);
    }
  }

  /** Exact overrun law for every reachable state, restarts included: each slot
      below the counter and each persisted row is the newest record that shared
      the slot, and it is the intended record exactly when the lag was at most 256. */
  lemma OverrunLaw(s: State, steps: seq<Step>, t: State)
    requires Init(s) && Run(s, steps, t)
    ensures |t.slots| == SHM_MAX_RECORDS && t.count == |t.stored|
    ensures forall i: nat | i < t.count :: t.slots[i % SHM_MAX_RECORDS] == t.stored[Latest(t.count, i)]
    ensures ReadsLaw(t.stored, t.db, t.origins)
    ensures forall m | 0 <= m < |t.origins| ::
              Latest(t.origins[m].count, t.origins[m].pos) == t.origins[m].pos
              <==> t.origins[m].count - t.origins[m].pos <= SHM_MAX_RECORDS
  {
    RunKeepsInv(s, steps, t);
    forall i: nat | i < t.count ensures t.slots[i % SHM_MAX_RECORDS] == t.stored[Latest(t.count, i)] {
      SlotLaw(t, i);
    }
    forall m | 0 <= m < |t.origins|
      ensures Latest(t.origins[m].count, t.origins[m].pos) == t.origins[m].pos
              <==> t.origins[m].count - t.origins[m].pos <= SHM_MAX_RECORDS
    {
      LatestExact(t.origins[m].count, t.origins[m].pos);
    }
  }

  /** Every state of the run, from `s` on, has at most `bound` records waiting. */
  ghost predicate LagWithin(s: State, steps: seq<Step>, bound: nat)
    decreases steps
  {
    && s.count <= s.lastSeen + bound
    && (steps != [] && |s.slots| == SHM_MAX_RECORDS ==> LagWithin(Next(s, steps[0]), steps[1..], bound))
  }

  /** Row `m` was read at position `m`: every passed position is persisted once. */
  ghost predicate InOrder(s: State) {
    && |s.db| == s.lastSeen
    && forall m | 0 <= m < |s.origins| :: s.origins[m].pos == m
  }

  ghost predicate ReadsWithin(origins: seq<Read>, bound: nat) {
    forall m | 0 <= m < |origins| :: origins[m].count <= origins[m].pos + bound
  }

  ghost predicate Distinct(rs: seq<Record>) {
    forall i, j | 0 <= i < j < |rs| :: rs[i] != rs[j]
  }

  lemma {:induction false} RunKeepsOrder(s: State, steps: seq<Step>, t: State, bound: nat)
    requires Inv(s) && InOrder(s) && Run(s, steps, t) && Restart !in steps
    ensures Inv(t) && InOrder(t)
    ensures LagWithin(s, steps, bound) && ReadsWithin(s.origins, bound) ==> ReadsWithin(t.origins, bound)
    decreases steps
  {
    if steps != [] {
      StepKeepsInv(s, steps[0]);
      assert Restart !in steps[1..];
      RunKeepsOrder(Next(s, steps[0]), steps[1..], t, bound);
    }
  }

  /** The database is exactly a prefix of the stored records, in order and once
      each, when every read was made at most 256 behind the counter; and, the
      stored records being distinguishable, only then. */
  lemma NoLossIff(s: State, steps: seq<Step>, t: State)
    requires Init(s) && Run(s, steps, t) && Restart !in steps
    ensures t.lastSeen <= |t.stored| && |t.db| == |t.origins| == t.lastSeen
    ensures ReadsWithin(t.origins, 256) ==> t.db == t.stored[..t.lastSeen]
    ensures Distinct(t.stored) && t.db == t.stored[..t.lastSeen] ==> ReadsWithin(t.origins, 256)
  {
    RunKeepsOrder(s, steps, t, 0);
    forall m | 0 <= m < |t.origins|
      ensures t.db[m] == t.stored[Latest(t.origins[m].count, m)]
      ensures Latest(t.origins[m].count, m) == m <==> t.origins[m].count <= m + SHM_MAX_RECORDS
    {
      LatestExact(t.origins[m].count, m);
    }
  }

  /** A lag of at most 256 in every state of the run is enough. */
  lemma NoLossWithin256(s: State, steps: seq<Step>, t: State)
    requires Init(s) && Run(s, steps, t) && Restart !in steps
    requires LagWithin(s, steps, 256)
    ensures t.lastSeen <= |t.stored| && t.db == t.stored[..t.lastSeen]
  {
    RunKeepsOrder(s, steps, t, SHM_MAX_RECORDS);
    NoLossIff(s, steps, t);
  }
}
