/** The ring in memory, its producer and its consumer, as the two processes run them. */
module SharedRing {
  import opened Records
  import opened AtomicRing

  /** The record half of the shared segment. */
  class Segment {
    const records: array<Record>
    var recordCount: nat
    ghost var stored: seq<Record>  // every record stored since the segment was created

    ghost predicate Valid()
      reads this, records
    {
      && records.Length == SHM_MAX_RECORDS
      && recordCount == |stored|
      && (forall r | r in stored :: r.complete)
      && Window(records[..], stored)
    }

    constructor ()
      ensures Valid() && fresh(records) && stored == []
    {
      records := new Record[SHM_MAX_RECORDS](_ => Record("", 0.0, 0.0, 0.0, 0.0, 0, 0, 0.0, "", false));
      recordCount := 0;
      stored := [];
    }

    method StoreRecord(rec: Record)
      requires Valid() && rec.complete
      modifies this, records
      ensures Valid()
      ensures stored == old(stored) + [rec]
      ensures recordCount == old(recordCount) + 1
      ensures records[..] == old(records[..])[old(recordCount) % SHM_MAX_RECORDS := rec]
    {
      var idx := recordCount % SHM_MAX_RECORDS;
      ghost var before := records[..];
      records[idx] := rec;
      recordCount := recordCount + 1;
      stored := stored + [rec];
      assert records[..] == before[idx := rec];
      WindowAfterStore(before, old(stored), rec);
      forall r | r in stored ensures r.complete {
        assert r in old(stored) || r == rec;
      }
    }

    lemma SlotHolds(i: nat)
      requires Valid() && i < recordCount
      ensures records[i % SHM_MAX_RECORDS] == stored[Latest(recordCount, i)]
      ensures records[i % SHM_MAX_RECORDS].complete
    {
      var j := Latest(recordCount, i);
      assert records[..][j % SHM_MAX_RECORDS] == stored[j];
      assert stored[j] in stored;
    }

    /** The other process at work while no lock is held: any number of stores. */
    method ServerRuns()
      requires Valid()
      modifies this, records
      ensures Valid()
      ensures old(stored) <= stored
    {
      var n: nat := *;
      while n > 0
        invariant Valid() && old(stored) <= stored
        decreases n
      {
        var rec: Record := *;
        StoreRecord(rec.(complete := true));
        n := n - 1;
      }
    }
  }

  /** `counts[k]` is a possible counter value for the copy of position `from + k`. */
  ghost predicate Readable(from: nat, counts: seq<nat>, stored: seq<Record>) {
    forall k | 0 <= k < |counts| :: from + k < counts[k] <= |stored|
  }

  /** What a poller starting at `from` persists when it copies at these counts:
      for each position the newest record that shares its slot. */
  ghost function Rows(from: nat, counts: seq<nat>, stored: seq<Record>): (rows: seq<Record>)
    requires Readable(from, counts, stored)
    ensures |rows| == |counts|
  {
    seq(|counts|, k requires 0 <= k < |counts| => stored[Latest(counts[k], from + k)])
  }

  lemma RowsKept(from: nat, counts: seq<nat>, stored: seq<Record>, later: seq<Record>)
    requires Readable(from, counts, stored) && stored <= later
    ensures Readable(from, counts, later) && Rows(from, counts, later) == Rows(from, counts, stored)
  {
  }

  lemma RowsSnoc(from: nat, counts: seq<nat>, stored: seq<Record>, count: nat)
    requires Readable(from, counts, stored) && from + |counts| < count <= |stored|
    ensures Readable(from, counts + [count], stored)
    ensures Rows(from, counts + [count], stored)
         == Rows(from, counts, stored) + [stored[Latest(count, from + |counts|)]]
  {
  }

  /** While the counter stays within 256 of where the poll began, the rows are
      exactly the waiting records. */
  lemma RowsExact(from: nat, counts: seq<nat>, stored: seq<Record>)
    requires Readable(from, counts, stored) && from + |counts| <= |stored| <= from + SHM_MAX_RECORDS
    ensures Rows(from, counts, stored) == stored[from..from + |counts|]
  {
    forall k | 0 <= k < |counts| ensures Latest(counts[k], from + k) == from + k {
      LatestExact(counts[k], from + k);
    }
  }

  function TotalFee(rs: seq<Record>): real {
    if rs == [] then 0.0 else rs[0].totalFee + TotalFee(rs[1..])
  }

  lemma {:induction false} TotalFeeAppend(a: seq<Record>, b: seq<Record>)
    ensures TotalFee(a + b) == TotalFee(a) + TotalFee(b)
  {
    if a == [] {
      assert a + b == b;
    } else {
      assert (a + b)[1..] == a[1..] + b;
      TotalFeeAppend(a[1..], b);
    }
  }

  lemma TotalFeeOne(r: Record)
    ensures TotalFee([r]) == r.totalFee
  {
    assert [r][1..] == [] && TotalFee([]) == 0.0;
  }

  /** The database holds exactly the first `n` stored records. */
  ghost predicate Mirrors(db: seq<Record>, n: nat, stored: seq<Record>) {
    n <= |stored| && db == stored[..n]
  }

  lemma MirrorsOneMore(db: seq<Record>, n: nat, before: seq<Record>, stored: seq<Record>)
    requires Mirrors(db, n, before) && before <= stored && n < |stored|
    ensures Mirrors(db + [stored[n]], n + 1, stored)
  {
    assert before[..n] == stored[..n];
  }

  /** The largest lag among earlier copies and the copies of positions from `from` on
      made at these counts. */
  function MostBehind(lag: nat, from: nat, counts: seq<nat>): (m: nat)
    ensures m >= lag
  {
    if counts == [] then lag else
      Larger(MostBehind(lag, from, counts[..|counts| - 1]), counts[|counts| - 1] - (from + |counts| - 1))
  }

  function Larger(a: nat, b: int): nat {
    if b > a then b else a
  }

  lemma MostBehindSnoc(lag: nat, from: nat, counts: seq<nat>, count: nat)
    ensures MostBehind(lag, from, counts + [count])
         == Larger(MostBehind(lag, from, counts), count - (from + |counts|))
  {
    assert (counts + [count])[..|counts|] == counts;
  }

  /** What the copies made at `counts` have done to the database and the lag. */
  ghost predicate Copies(
      db0: seq<Record>, lag0: nat, from: nat, counts: seq<nat>, stored: seq<Record>, db: seq<Record>, lag: nat)
  {
    && Readable(from, counts, stored)
    && db == db0 + Rows(from, counts, stored)
    && lag == MostBehind(lag0, from, counts)
  }

  /** `Copies`, quantified so that a proof unfolds it only where it speaks of it. */
  ghost predicate Copied(
      db0: seq<Record>, lag0: nat, from: nat, counts: seq<nat>, stored: seq<Record>, db: seq<Record>, lag: nat)
  {
    forall cs | cs == counts :: Copies(db0, lag0, from, cs, stored, db, lag)
  }

  lemma CopiedNone(db0: seq<Record>, lag0: nat, from: nat, stored: seq<Record>)
    ensures Copied(db0, lag0, from, [], stored, db0, lag0)
  {
    assert Rows(from, [], stored) == [] && db0 + [] == db0;
  }

  lemma CopiedOne(
      db0: seq<Record>, lag0: nat, from: nat, counts: seq<nat>, before: seq<Record>, stored: seq<Record>,
      count: nat, db: seq<Record>, lag: nat)
    requires Copied(db0, lag0, from, counts, before, db, lag) && before <= stored
    requires from + |counts| < count <= |stored|
    ensures Copied(db0, lag0, from, counts + [count], stored,
                   db + [stored[Latest(count, from + |counts|)]], Larger(lag, count - (from + |counts|)))
  {
    assert Copies(db0, lag0, from, counts, before, db, lag);
    RowsKept(from, counts, before, stored);
    RowsSnoc(from, counts, stored, count);
    MostBehindSnoc(lag0, from, counts, count);
  }

  lemma {:induction false} MostBehindAppend(lag: nat, from: nat, counts: seq<nat>, more: seq<nat>)
    ensures MostBehind(lag, from, counts + more) == MostBehind(MostBehind(lag, from, counts), from + |counts|, more)
  {
    if more == [] {
      assert counts + more == counts;
    } else {
      var n := |more| - 1;
      MostBehindAppend(lag, from, counts, more[..n]);
      assert (counts + more)[..|counts| + n] == counts + more[..n];
    }
  }

  lemma RowsAppend(from: nat, counts: seq<nat>, more: seq<nat>, stored: seq<Record>)
    requires Readable(from, counts, stored) && Readable(from + |counts|, more, stored)
    ensures Readable(from, counts + more, stored)
    ensures Rows(from, counts + more, stored) == Rows(from, counts, stored) + Rows(from + |counts|, more, stored)
  {
  }

  /** The copies of one more poll. */
  lemma CopiedMore(
      db0: seq<Record>, lag0: nat, from: nat, counts: seq<nat>,
      before: seq<Record>, db1: seq<Record>, lag1: nat,
      more: seq<nat>, stored: seq<Record>, db: seq<Record>, lag: nat)
    requires Copied(db0, lag0, from, counts, before, db1, lag1) && before <= stored
    requires Copies(db1, lag1, from + |counts|, more, stored, db, lag)
    ensures Copied(db0, lag0, from, counts + more, stored, db, lag)
  {
    assert Copies(db0, lag0, from, counts, before, db1, lag1);
    RowsKept(from, counts, before, stored);
    RowsAppend(from, counts, more, stored);
    MostBehindAppend(lag0, from, counts, more);
    assert Copies(db0, lag0, from, counts + more, stored, db, lag);
  }

  /** A poll that ends with the counter within 256 of where it began was never more
      than 256 behind. */
  lemma {:induction false} ShortPoll(lag: nat, from: nat, counts: seq<nat>, stored: seq<Record>)
    requires Readable(from, counts, stored) && |stored| <= from + SHM_MAX_RECORDS && lag <= SHM_MAX_RECORDS
    ensures MostBehind(lag, from, counts) <= SHM_MAX_RECORDS
  {
    if counts != [] {
      ShortPoll(lag, from, counts[..|counts| - 1], stored);
    }
  }

  /** Money is conserved: what a database in step has billed, and what still waits in
      the ring, is what the server has billed. */
  lemma FeesConserved(db: seq<Record>, n: nat, stored: seq<Record>)
    requires Mirrors(db, n, stored)
    ensures TotalFee(db) + TotalFee(stored[n..]) == TotalFee(stored)
  {
    assert stored == db + stored[n..];
    TotalFeeAppend(db, stored[n..]);
  }

  class ShmPoller {
    const shm: Segment
    var lastSeen: nat
    var db: seq<Record>
    ghost var maxLag: nat  // the most the counter has been ahead of a position being copied

    /** No record lost, repeated or out of order so far. */
    ghost predicate InStep()
      reads this, shm
    {
      Mirrors(db, lastSeen, shm.stored)
    }

    /** While no copy was made more than 256 behind, the database is in step. */
    ghost predicate Kept()
      reads this, shm
    {
      lastSeen <= |shm.stored| && (maxLag <= SHM_MAX_RECORDS ==> InStep())
    }

    constructor (shm: Segment)
      ensures this.shm == shm && lastSeen == 0 && db == []
      ensures maxLag == 0 && Kept()
    {
      this.shm := shm;
      lastSeen, db, maxLag := 0, [], 0;
    }

    /** One locked copy, after the server has been free to store; `count` is the
        counter at that moment. */
    method CopySlot() returns (ghost count: nat)
      requires shm.Valid() && lastSeen < |shm.stored| && Kept()
      modifies this, shm, shm.records
      ensures shm.Valid() && old(shm.stored) <= shm.stored && Kept()
      ensures lastSeen == old(lastSeen) + 1 && old(lastSeen) < count <= |shm.stored|
      ensures db == old(db) + [shm.stored[Latest(count, old(lastSeen))]]
      ensures maxLag == Larger(old(maxLag), count - old(lastSeen))
    {
      var idx := lastSeen % SHM_MAX_RECORDS;
      ghost var before := shm.stored;
      shm.ServerRuns();
      count := shm.recordCount;
      var rec := shm.records[idx];
      shm.SlotHolds(lastSeen);
      if rec.complete {
        db := db + [rec];
      }
      maxLag := Larger(maxLag, count - lastSeen);
      if maxLag <= SHM_MAX_RECORDS {
        LatestExact(count, lastSeen);
        MirrorsOneMore(old(db), lastSeen, before, shm.stored);
      }
      lastSeen := lastSeen + 1;
    }

    /** One poll, with the server free to store before every locked section.
        `counts[k]` is the counter at the time of the k-th copy. */
    method Poll() returns (persisted: nat, ghost counts: seq<nat>)
      requires shm.Valid() && Kept()
      modifies this, shm, shm.records
      ensures shm.Valid() && old(shm.stored) <= shm.stored && Kept()
      ensures lastSeen == old(lastSeen) + persisted && persisted == |counts|
      ensures old(|shm.stored|) <= lastSeen
      ensures Copies(old(db), old(maxLag), old(lastSeen), counts, shm.stored, db, maxLag)
    {
      ghost var from, db0, lag0 := lastSeen, db, maxLag;
      shm.ServerRuns();
      var current := shm.recordCount;
      persisted, counts := 0, [];
      CopiedNone(db0, lag0, from, shm.stored);
      while lastSeen < current
        invariant shm.Valid() && old(shm.stored) <= shm.stored && Kept()
        invariant lastSeen == from + persisted && persisted == |counts|
        invariant old(|shm.stored|) <= current <= |shm.stored|
        invariant Copied(db0, lag0, from, counts, shm.stored, db, maxLag)
        decreases current - lastSeen
      {
        ghost var before, dbBefore, lagBefore := shm.stored, db, maxLag;
        ghost var count := CopySlot();
        persisted := persisted + 1;
        CopiedOne(db0, lag0, from, counts, before, shm.stored, count, dbBefore, lagBefore);
        counts := counts + [count];
      }
      assert Copies(db0, lag0, from, counts, shm.stored, db, maxLag);
    }

    /** The polls of a database process, as many as it makes before it is stopped:
        `counts` are the counters at all their copies, one after the other. */
    method Run(polls: nat) returns (ghost counts: seq<nat>)
      requires shm.Valid() && Kept()
      modifies this, shm, shm.records
      ensures shm.Valid() && old(shm.stored) <= shm.stored && Kept()
      ensures lastSeen == old(lastSeen) + |counts|
      ensures polls > 0 ==> old(|shm.stored|) <= lastSeen
      ensures Copies(old(db), old(maxLag), old(lastSeen), counts, shm.stored, db, maxLag)
    {
      ghost var from, db0, lag0 := lastSeen, db, maxLag;
      counts := [];
      CopiedNone(db0, lag0, from, shm.stored);
      var left := polls;
      while left > 0
        invariant shm.Valid() && old(shm.stored) <= shm.stored && Kept()
        invariant lastSeen == from + |counts|
        invariant left < polls ==> old(|shm.stored|) <= lastSeen
        invariant Copied(db0, lag0, from, counts, shm.stored, db, maxLag)
        decreases left
      {
        ghost var before, dbBefore, lagBefore := shm.stored, db, maxLag;
        ghost var more;
        var persisted;
        persisted, more := Poll();
        CopiedMore(db0, lag0, from, counts, before, dbBefore, lagBefore, more, shm.stored, db, maxLag);
        counts := counts + more;
        left := left - 1;
      }
      assert Copies(db0, lag0, from, counts, shm.stored, db, maxLag);
    }
  }
}
