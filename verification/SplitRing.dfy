/** The record ring when the two critical sections do not exclude each other: the
    server and the database each initialise a process-local lock, so a slot may be
    copied while it is being overwritten.  The protocol is cut down to single
    memory words.  The server writes the words of a slot in any order and then
    increments the counter; the poller snapshots the counter, then copies the words
    of a slot in any order and then advances. */
module SplitRing {
  import opened Records

  /** One memory word of a record; a record is `RECORD_WORDS` of them, and the word
      at `COMPLETE` carries the completion flag. */
  type Word = int
  const RECORD_WORDS: nat := 24
  const COMPLETE: nat := 23

  type Image = r: seq<Word> | |r| == RECORD_WORDS witness seq(RECORD_WORDS, i => 0)

  predicate IsComplete(r: Image) {
    r[COMPLETE] != 0
  }

  /** `pending` and `written` are the server's store in progress, `got` the words the
      poller holds of the slot it is copying, `stored` every record published so far. */
  datatype State = State(
    slots: seq<Image>, count: nat, stored: seq<Image>,
    pending: seq<Image>, written: set<nat>,
    lastSeen: nat, current: nat, got: map<nat, Word>, db: seq<Image>)

  datatype Step =
    | BeginStore(rec: Image)
    | WriteWord(word: nat)
    | Publish
    | Snapshot
    | CopyWord(word: nat)
    | Advance

  function Below(n: nat): (ws: set<nat>)
    ensures forall k: nat :: k in ws <==> k < n
  {
    if n == 0 then {} else Below(n - 1) + {n - 1}
  }

  function AllWords(): set<nat> {
    Below(RECORD_WORDS)
  }

  ghost predicate Init(s: State) {
    && |s.slots| == SHM_MAX_RECORDS && (forall k | 0 <= k < SHM_MAX_RECORDS :: !IsComplete(s.slots[k]))
    && s.count == 0 && s.stored == [] && s.pending == [] && s.written == {}
    && s.lastSeen == 0 && s.current == 0 && s.got == map[] && s.db == []
  }

  predicate Enabled(s: State, step: Step) {
    match step
    case BeginStore(rec) => s.pending == [] && IsComplete(rec)
    case WriteWord(k) => s.pending != [] && k < RECORD_WORDS && k !in s.written
    case Publish => s.pending != [] && s.written == AllWords()
    case Snapshot => s.current <= s.lastSeen
    case CopyWord(k) => s.lastSeen < s.current && k < RECORD_WORDS && k !in s.got
    case Advance => s.lastSeen < s.current && s.got.Keys == AllWords()
  }

  /** The record the poller has put together, once it holds every word. */
  function Assembled(got: map<nat, Word>): Image
    requires got.Keys == AllWords()
  {
    seq(RECORD_WORDS, k requires 0 <= k < RECORD_WORDS => got[k])
  }

  function Next(s: State, step: Step): State
    requires |s.slots| == SHM_MAX_RECORDS && Enabled(s, step)
  {
    match step
    case BeginStore(rec) =>
      s.(pending := [rec], written := {})
    case WriteWord(k) =>
      var idx := s.count % SHM_MAX_RECORDS;
      s.(slots := s.slots[idx := s.slots[idx][k := s.pending[0][k]]], written := s.written + {k})
    case Publish =>
      s.(count := s.count + 1, stored := s.stored + [s.pending[0]], pending := [], written := {})
    case Snapshot =>
      s.(current := s.count)
    case CopyWord(k) =>
      s.(got := s.got[k := s.slots[s.lastSeen % SHM_MAX_RECORDS][k]])
    case Advance =>
      var rec := Assembled(s.got);
      s.(db := if IsComplete(rec) then s.db + [rec] else s.db, lastSeen := s.lastSeen + 1, got := map[])
  }

  ghost predicate Run(s: State, steps: seq<Step>, t: State)
    decreases steps
  {
    if steps == [] then s == t else
      && |s.slots| == SHM_MAX_RECORDS && Enabled(s, steps[0])
      && Run(Next(s, steps[0]), steps[1..], t)
  }

  /** The `n` newest records are in their slots. */
  ghost predicate Window(slots: seq<Image>, stored: seq<Image>, n: nat)
    requires |slots| == SHM_MAX_RECORDS
  {
    forall j | 0 <= j < |stored| <= j + n :: slots[j % SHM_MAX_RECORDS] == stored[j]
  }

  /** What holds in every reachable state, whatever the lag: the 256 newest published
      records are intact, all but the oldest once that one's slot is being written. */
  ghost predicate Inv(s: State) {
    && |s.slots| == SHM_MAX_RECORDS
    && s.count == |s.stored|
    && (forall r | r in s.stored :: IsComplete(r))
    && Window(s.slots, s.stored, if s.written == {} then SHM_MAX_RECORDS else SHM_MAX_RECORDS - 1)
    && |s.pending| <= 1 && (s.pending == [] ==> s.written == {})
    && (s.pending != [] ==> IsComplete(s.pending[0]))
    && s.written <= AllWords()
    && (s.pending != [] ==> forall k | k in s.written :: s.slots[s.count % SHM_MAX_RECORDS][k] == s.pending[0][k])
    && s.lastSeen <= s.current <= s.count
    && (s.lastSeen == s.current ==> s.got == map[])
    && s.got.Keys <= AllWords()
  }

  lemma StepKeepsInv(s: State, step: Step)
    requires Inv(s) && Enabled(s, step)
    ensures Inv(Next(s, step))
  {
    var t := Next(s, step);
    match step
    case WriteWord(k) => WriteKeepsWindow(s, k);
    case Publish => PublishKeepsWindow(s);
    case _ =>
  }

  lemma WriteKeepsWindow(s: State, k: nat)
    requires Inv(s) && Enabled(s, WriteWord(k))
    ensures Inv(Next(s, WriteWord(k)))
  {
    var t := Next(s, WriteWord(k));
    forall j | 0 <= j < |s.stored| <= j + SHM_MAX_RECORDS - 1
      ensures t.slots[j % SHM_MAX_RECORDS] == s.stored[j]
    {
      OtherSlot(s.count, j);
    }
  }

  lemma PublishKeepsWindow(s: State)
    requires Inv(s) && Enabled(s, Publish)
    ensures Inv(Next(s, Publish))
  {
    var t := Next(s, Publish);
    assert s.slots[s.count % SHM_MAX_RECORDS] == s.pending[0] by {
      forall k: nat | k < RECORD_WORDS ensures s.slots[s.count % SHM_MAX_RECORDS][k] == s.pending[0][k] {
        assert k in s.written;
      }
    }
    WindowAfterPublish(s.slots, s.stored, s.pending[0]);
    forall r | r in t.stored ensures IsComplete(r) {
      assert r in s.stored || r == s.pending[0];
    }
  }

  lemma WindowAfterPublish(slots: seq<Image>, stored: seq<Image>, rec: Image)
    requires |slots| == SHM_MAX_RECORDS && Window(slots, stored, SHM_MAX_RECORDS - 1)
    requires slots[|stored| % SHM_MAX_RECORDS] == rec
    ensures Window(slots, stored + [rec], SHM_MAX_RECORDS)
  {
  }

  /** Two positions less than a full lap apart use different slots. */
  lemma OtherSlot(c: nat, j: nat)
    requires j < c && c - j < SHM_MAX_RECORDS
    ensures j % SHM_MAX_RECORDS != c % SHM_MAX_RECORDS
  {
    assert (c - j) % SHM_MAX_RECORDS == c - j;
  }

  ghost predicate LagWithin(s: State, steps: seq<Step>, bound: nat)
    decreases steps
  {
    && s.count <= s.lastSeen + bound
    && (steps != [] && |s.slots| == SHM_MAX_RECORDS && Enabled(s, steps[0])
        ==> LagWithin(Next(s, steps[0]), steps[1..], bound))
  }

  /** Nothing lost, nothing doubled, nothing torn: the database is the prefix it has
      passed, and the words in hand belong to the record at the watermark. */
  ghost predicate Untorn(s: State)
    requires Inv(s)
  {
    && s.db == s.stored[..s.lastSeen]
    && (s.lastSeen < s.current ==> forall k | k in s.got :: s.got[k] == s.stored[s.lastSeen][k])
  }

  lemma AdvanceKeepsUntorn(s: State)
    requires Inv(s) && Untorn(s) && Enabled(s, Advance)
    ensures Next(s, Advance).db == s.stored[..s.lastSeen + 1]
  {
    assert Assembled(s.got) == s.stored[s.lastSeen];
    assert s.stored[s.lastSeen] in s.stored;
    assert s.stored[..s.lastSeen + 1] == s.stored[..s.lastSeen] + [s.stored[s.lastSeen]];
  }

  lemma StepKeepsUntorn(s: State, step: Step)
    requires Inv(s) && Untorn(s) && Enabled(s, step)
    requires s.count - s.lastSeen < SHM_MAX_RECORDS
    ensures Inv(Next(s, step)) && Untorn(Next(s, step))
  {
    StepKeepsInv(s, step);
    var t := Next(s, step);
    match step
    case Advance => AdvanceKeepsUntorn(s);
    case Publish =>
      assert t.stored[..t.lastSeen] == s.stored[..s.lastSeen];
    case _ =>
  }

  lemma {:induction false} RunKeepsUntorn(s: State, steps: seq<Step>, t: State)
    requires Inv(s) && Untorn(s) && Run(s, steps, t) && LagWithin(s, steps, SHM_MAX_RECORDS - 1)
    ensures Inv(t) && Untorn(t)
    decreases steps
  {
    if steps != [] {
      StepKeepsUntorn(s, steps[0]);
      RunKeepsUntorn(Next(s, steps[0]), steps[1..], t);
    }
  }

  /** Without any mutual exclusion, a lag of at most 255 throughout the run makes the
      database exactly a prefix of the published records, each whole and once. */
  lemma NoTearingWithin255(s: State, steps: seq<Step>, t: State)
    requires Init(s) && Run(s, steps, t) && LagWithin(s, steps, 255)
    ensures t.lastSeen <= |t.stored| && t.db == t.stored[..t.lastSeen]
    ensures t.count == |t.stored|
  {
    RunKeepsUntorn(s, steps, t);
  }

  lemma {:induction false} RunKeepsInv(s: State, steps: seq<Step>, t: State)
    requires Inv(s) && Run(s, steps, t)
    ensures Inv(t)
    decreases steps
  {
    if steps != [] {
      StepKeepsInv(s, steps[0]);
      RunKeepsInv(Next(s, steps[0]), steps[1..], t);
    }
  }

  // ----- 255 is tight -----

  /** A run that never falls more than 256 behind. */
  ghost predicate LagRun(s: State, steps: seq<Step>, t: State) {
    Run(s, steps, t) && LagWithin(s, steps, SHM_MAX_RECORDS)
  }

  lemma RunNone(s: State)
    requires s.count <= s.lastSeen + SHM_MAX_RECORDS
    ensures LagRun(s, [], s)
  {
  }

  lemma RunCons(s: State, step: Step, steps: seq<Step>, t: State)
    requires |s.slots| == SHM_MAX_RECORDS && Enabled(s, step) && LagRun(Next(s, step), steps, t)
    requires s.count <= s.lastSeen + SHM_MAX_RECORDS
    ensures LagRun(s, [step] + steps, t)
  {
    assert ([step] + steps)[1..] == steps;
  }

  lemma {:induction false} RunAppend(s: State, a: seq<Step>, t: State, b: seq<Step>, u: State)
    requires LagRun(s, a, t) && LagRun(t, b, u)
    ensures LagRun(s, a + b, u)
    decreases a
  {
    if a == [] {
      assert a + b == b;
    } else {
      RunAppend(Next(s, a[0]), a[1..], t, b, u);
      assert (a + b)[1..] == a[1..] + b;
    }
  }

  /** The server finishes writing its record. */
  lemma {:induction false} WriteRest(s: State, k: nat) returns (steps: seq<Step>, t: State)
    requires Inv(s) && s.pending != [] && k <= RECORD_WORDS && s.written == Below(k)
    requires s.count <= s.lastSeen + SHM_MAX_RECORDS
    ensures LagRun(s, steps, t) && Inv(t) && t.written == AllWords()
    ensures t == s.(slots := t.slots, written := t.written)
    decreases RECORD_WORDS - k
  {
    if k == RECORD_WORDS {
      steps, t := [], s;
    } else {
      StepKeepsInv(s, WriteWord(k));
      var rest;
      rest, t := WriteRest(Next(s, WriteWord(k)), k + 1);
      RunCons(s, WriteWord(k), rest, t);
      steps := [WriteWord(k)] + rest;
    }
  }

  /** The poller copies the words it does not hold yet, from `k` on. */
  lemma {:induction false} CopyRest(s: State, k: nat) returns (steps: seq<Step>, t: State)
    requires Inv(s) && s.lastSeen < s.current && k <= RECORD_WORDS && Below(k) <= s.got.Keys
    requires s.count <= s.lastSeen + SHM_MAX_RECORDS
    ensures LagRun(s, steps, t) && t == s.(got := t.got) && t.got.Keys == AllWords()
    ensures forall w | w in t.got ::
              t.got[w] == if w in s.got then s.got[w] else s.slots[s.lastSeen % SHM_MAX_RECORDS][w]
    decreases RECORD_WORDS - k
  {
    if k == RECORD_WORDS {
      steps, t := [], s;
    } else if k in s.got {
      steps, t := CopyRest(s, k + 1);
    } else {
      StepKeepsInv(s, CopyWord(k));
      var rest;
      rest, t := CopyRest(Next(s, CopyWord(k)), k + 1);
      RunCons(s, CopyWord(k), rest, t);
      steps := [CopyWord(k)] + rest;
    }
  }

  /** In every reachable state (`RunKeepsInv`) that is 256 behind, with the server
      between stores and the poller about to copy: one word of the next record is
      enough to make the poller persist a row that nobody stored, the old record with
      that word in it. */
  lemma Lag256Tears(s: State, rec: Image, k: nat) returns (steps: seq<Step>, t: State)
    requires Inv(s) && s.count == s.lastSeen + SHM_MAX_RECORDS && s.pending == []
    requires s.lastSeen < s.current && s.got == map[]
    requires IsComplete(rec) && k < RECORD_WORDS
    ensures LagRun(s, steps, t)
    ensures t.stored == s.stored && t.lastSeen == s.lastSeen + 1
    ensures t.db == s.db + [s.stored[s.lastSeen][k := rec[k]]]
  {
    var s1 := Next(s, BeginStore(rec));
    StepKeepsInv(s, BeginStore(rec));
    var s2 := WordTears(s1, rec, k);
    var copies, s3 := CopyRest(s2, 0);
    t := Next(s3, Advance);
    TornRow(s, rec, k, s2, s3);
    RunNone(t);
    RunCons(s3, Advance, [], t);
    RunAppend(s2, copies, s3, [Advance] + [], t);
    RunAppend(s1, [WriteWord(k), CopyWord(k)], s2, copies + ([Advance] + []), t);
    RunCons(s, BeginStore(rec), [WriteWord(k), CopyWord(k)] + (copies + ([Advance] + [])), t);
    steps := [BeginStore(rec)] + ([WriteWord(k), CopyWord(k)] + (copies + ([Advance] + [])));
  }

  lemma WordTears(s: State, rec: Image, k: nat) returns (t: State)
    requires Inv(s) && s.count == s.lastSeen + SHM_MAX_RECORDS && s.pending == [rec] && s.written == {}
    requires s.lastSeen < s.current && s.got == map[] && k < RECORD_WORDS
    ensures LagRun(s, [WriteWord(k), CopyWord(k)], t) && Inv(t)
    ensures t == s.(slots := t.slots, written := t.written, got := t.got) && t.got == map[k := rec[k]]
    ensures t.slots[s.lastSeen % SHM_MAX_RECORDS] == s.stored[s.lastSeen][k := rec[k]]
  {
    var s2 := Next(s, WriteWord(k));
    StepKeepsInv(s, WriteWord(k));
    t := Next(s2, CopyWord(k));
    StepKeepsInv(s2, CopyWord(k));
    assert s.count % SHM_MAX_RECORDS == s.lastSeen % SHM_MAX_RECORDS;
    RunNone(t);
    RunCons(s2, CopyWord(k), [], t);
    RunCons(s, WriteWord(k), [CopyWord(k)], t);
    assert [WriteWord(k)] + [CopyWord(k)] == [WriteWord(k), CopyWord(k)];
  }

  lemma TornRow(s: State, rec: Image, k: nat, s2: State, s3: State)
    requires Inv(s) && s.lastSeen < s.count && k < RECORD_WORDS && IsComplete(rec)
    requires s2.got == map[k := rec[k]] && s2.lastSeen == s.lastSeen && |s2.slots| == SHM_MAX_RECORDS
    requires s2.slots[s.lastSeen % SHM_MAX_RECORDS] == s.stored[s.lastSeen][k := rec[k]]
    requires s3.got.Keys == AllWords()
    requires forall w | w in s3.got ::
               s3.got[w] == if w in s2.got then s2.got[w] else s2.slots[s2.lastSeen % SHM_MAX_RECORDS][w]
    ensures Assembled(s3.got) == s.stored[s.lastSeen][k := rec[k]] && IsComplete(Assembled(s3.got))
  {
    assert s.stored[s.lastSeen] in s.stored;
    forall w: nat | w < RECORD_WORDS ensures Assembled(s3.got)[w] == s.stored[s.lastSeen][k := rec[k]][w] {
      assert w in s3.got;
    }
  }

  /** The server can be up to 256 records ahead of a poller that has not run yet. */
  lemma {:induction false} AheadBy(s: State, n: nat, rec: Image) returns (steps: seq<Step>, t: State)
    requires Init(s) && IsComplete(rec) && n <= SHM_MAX_RECORDS
    ensures LagRun(s, steps, t) && Inv(t)
    ensures t.count == n && t.lastSeen == 0 && t.pending == [] && t.got == map[] && t.db == []
    ensures t.current == 0 && forall i | 0 <= i < n :: t.stored[i] == rec
  {
    if n == 0 {
      steps, t := [], s;
    } else {
      var before, u := AheadBy(s, n - 1, rec);
      StepKeepsInv(u, BeginStore(rec));
      var u1 := Next(u, BeginStore(rec));
      var writes, u2 := WriteRest(u1, 0);
      StepKeepsInv(u2, Publish);
      t := Next(u2, Publish);
      RunNone(t);
      RunCons(u2, Publish, [], t);
      RunAppend(u1, writes, u2, [Publish] + [], t);
      RunCons(u, BeginStore(rec), writes + ([Publish] + []), t);
      RunAppend(s, before, u, [BeginStore(rec)] + (writes + ([Publish] + [])), t);
      steps := before + ([BeginStore(rec)] + (writes + ([Publish] + [])));
    }
  }

  /** The states `Lag256Tears` speaks of do occur. */
  lemma Lag256Occurs(s: State, rec: Image) returns (steps: seq<Step>, t: State)
    requires Init(s) && IsComplete(rec)
    ensures LagRun(s, steps, t) && Inv(t)
    ensures t.count == t.lastSeen + SHM_MAX_RECORDS && t.pending == []
    ensures t.lastSeen < t.current && t.got == map[] && t.db == []
    ensures forall i | 0 <= i < t.count :: t.stored[i] == rec
  {
    var before, u := AheadBy(s, SHM_MAX_RECORDS, rec);
    StepKeepsInv(u, Snapshot);
    t := Next(u, Snapshot);
    RunNone(t);
    RunCons(u, Snapshot, [], t);
    RunAppend(s, before, u, [Snapshot] + [], t);
    steps := before + ([Snapshot] + []);
  }

  /** The bound of `NoTearingWithin255` is tight: a run whose lag never exceeds 256 can
      end with a database that is no prefix of the published records. */
  lemma NoPrefixWithin256(s: State) returns (steps: seq<Step>, t: State)
    requires Init(s)
    ensures Run(s, steps, t) && LagWithin(s, steps, 256)
    ensures t.lastSeen <= |t.stored| && t.db != t.stored[..t.lastSeen]
    ensures t.db != [] && t.db[0] !in t.stored
  {
    var ones: Image := seq(RECORD_WORDS, i => 1);
    var twos: Image := seq(RECORD_WORDS, i => 2);
    var before, u := Lag256Occurs(s, ones);
    var after;
    after, t := Lag256Tears(u, twos, 0);
    RunAppend(s, before, u, after, t);
    steps := before + after;
    assert t.db[0][0] == 2 && t.stored[0][0] == 1;
  }
}
