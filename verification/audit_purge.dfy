// Audit-log retention: `purgeExpired` of src/modules/audit-logs/audit-logs.service.ts and
// the batch loop of src/modules/audit-logs/audit-log-retention.processor.ts. Rows at or
// after the cutoff may be appended between batches.
module AuditPurge {
  import opened FiniteSets

  const AUDIT_LOG_RETENTION_BATCH_SIZE := 1000

  /** An audit row; ids are unique, so the table is a set. */
  datatype AuditLog = AuditLog(id: nat, createdAt: int)

  type Logs = set<AuditLog>

  function Expired(logs: Logs, cutoff: int): Logs {
    set r | r in logs && r.createdAt < cutoff
  }

  function Retained(logs: Logs, cutoff: int): Logs {
    set r | r in logs && r.createdAt >= cutoff
  }

  /** Whatever is gone is not newer than whatever expired row is left. */
  predicate OldestFirst(gone: Logs, left: Logs) {
    forall g, l :: g in gone && l in left ==> g.createdAt <= l.createdAt
  }

  function Smaller(a: nat, b: nat): nat {
    if a < b then a else b
  }

  /** Batches that delete something, each full but perhaps the last: n / 1000 rounded up. */
  function FullBatches(n: nat): nat {
    (n + AUDIT_LOG_RETENTION_BATCH_SIZE - 1) / AUDIT_LOG_RETENTION_BATCH_SIZE
  }

  ghost predicate IsOldest(logs: Logs, r: AuditLog) {
    r in logs && forall x :: x in logs ==> r.createdAt <= x.createdAt
  }

  lemma OldestExists(logs: Logs)
    requires logs != {}
    ensures exists r :: IsOldest(logs, r)
  {
    var a := SomeElement(logs);
    var rest := logs - {a};
    if rest == {} {
      assert logs == {a};
      assert IsOldest(logs, a);
    } else {
      OldestExists(rest);
      var b :| IsOldest(rest, b);
      assert logs == rest + {a};
      assert IsOldest(logs, if a.createdAt < b.createdAt then a else b);
    }
  }

  /** `gone` is what has been deleted of `all`: expired rows, oldest first. */
  ghost predicate Deleted(all: Logs, left: Logs, gone: Logs, cutoff: int) {
    && gone <= Expired(all, cutoff) && left == all - gone
    && OldestFirst(gone, Expired(left, cutoff))
    && |Expired(all, cutoff)| == |gone| + |Expired(left, cutoff)|
  }

  lemma NothingDeleted(all: Logs, cutoff: int)
    ensures Deleted(all, all, {}, cutoff)
  {
    assert all - {} == all;
  }

  /** Deleting the oldest expired row next. */
  lemma DeleteOldest(all: Logs, left: Logs, gone: Logs, cutoff: int, r: AuditLog)
    requires Deleted(all, left, gone, cutoff) && IsOldest(Expired(left, cutoff), r)
    ensures Deleted(all, left - {r}, gone + {r}, cutoff) && r in left && r !in gone
  {
    assert Expired(left - {r}, cutoff) == Expired(left, cutoff) - {r};
    assert left - {r} == all - (gone + {r});
    assert |gone + {r}| == |gone| + 1;
  }

  lemma DeletedIs(all: Logs, left: Logs, gone: Logs, cutoff: int)
    requires Deleted(all, left, gone, cutoff)
    ensures left <= all && all - left == gone && Expired(all, cutoff) == gone + Expired(left, cutoff)
    ensures OldestFirst(gone, Expired(left, cutoff)) && |Expired(all, cutoff)| == |gone| + |Expired(left, cutoff)|
  {
  }

  class AuditLogsService {
    var logs: Logs

    constructor (logs: Logs)
      ensures this.logs == logs
    {
      this.logs := logs;
    }

    /** Hard-deletes up to `limit` of the oldest rows before the cutoff; which of equally old ones is open. */
    method PurgeExpired(cutoff: int, limit: nat) returns (affected: nat)
      modifies this
      ensures Deleted(old(logs), logs, old(logs) - logs, cutoff)
      ensures affected == |old(logs) - logs| == Smaller(limit, |Expired(old(logs), cutoff)|)
      ensures logs <= old(logs) && forall r :: r in old(logs) && r !in logs ==> r.createdAt < cutoff
      ensures forall gone, left :: gone in old(logs) && gone !in logs && left in logs && left.createdAt < cutoff ==>
                gone.createdAt <= left.createdAt
      ensures affected <= limit && (affected < limit ==> forall r :: r in logs ==> r.createdAt >= cutoff)
    {
      hide Expired, Deleted;
      affected := 0;
      ghost var gone: Logs := {};
      NothingDeleted(logs, cutoff);
      while affected < limit && Expired(logs, cutoff) != {}
        invariant affected == |gone| <= limit && Deleted(old(logs), logs, gone, cutoff)
        decreases limit - affected
      {
        OldestExists(Expired(logs, cutoff));
        var r := Oldest(Expired(logs, cutoff));
        DeleteOldest(old(logs), logs, gone, cutoff, r);
        logs := logs - {r};
        gone := gone + {r};
        affected := affected + 1;
      }
      DeletedIs(old(logs), logs, gone, cutoff);
      AllDeleted(old(logs), logs, gone, cutoff);
      DeletedMeans(old(logs), logs, gone, cutoff);
    }
  }

  lemma DeletedMeans(all: Logs, left: Logs, gone: Logs, cutoff: int)
    requires Deleted(all, left, gone, cutoff)
    ensures left <= all && forall r :: r in all && r !in left ==> r.createdAt < cutoff
    ensures forall g, l :: g in all && g !in left && l in left && l.createdAt < cutoff ==> g.createdAt <= l.createdAt
    ensures Expired(left, cutoff) == {} ==> forall r :: r in left ==> r.createdAt >= cutoff
  {
    forall r | r in left && r.createdAt < cutoff ensures r in Expired(left, cutoff) {
    }
  }

  lemma AllDeleted(all: Logs, left: Logs, gone: Logs, cutoff: int)
    requires Deleted(all, left, gone, cutoff)
    ensures |gone| <= |Expired(all, cutoff)|
    ensures Expired(left, cutoff) == {} ==> |gone| == |Expired(all, cutoff)|
  {
  }

  method Oldest(logs: Logs) returns (r: AuditLog)
    requires exists x :: IsOldest(logs, x)
    ensures IsOldest(logs, r)
  {
    r :| r in logs && forall x :: x in logs ==> r.createdAt <= x.createdAt;
  }

  // ---- The job ----------------------------------------------------------------

  /** Rows appended while the job runs, after each batch. */
  function Arrived(arrivals: seq<Logs>, batches: nat): Logs {
    set i, r | 0 <= i < |arrivals| && i < batches && r in arrivals[i] :: r
  }

  lemma ArrivedStep(arrivals: seq<Logs>, batches: nat)
    ensures Arrived(arrivals, batches + 1)
         == Arrived(arrivals, batches) + if batches < |arrivals| then arrivals[batches] else {}
  {
  }

  /** A batch that deletes something is one of them. */
  lemma BatchCounts(n: nat)
    requires n > 0
    ensures FullBatches(n) == 1 + FullBatches(n - Smaller(AUDIT_LOG_RETENTION_BATCH_SIZE, n))
  {
  }

  /** What holds after every batch: only expired rows are gone, oldest first, and every other row is there. */
  ghost predicate PartlyPurged(start: Logs, current: Logs, arrived: Logs, cutoff: int) {
    && Expired(current, cutoff) <= Expired(start, cutoff)
    && OldestFirst(Expired(start, cutoff) - Expired(current, cutoff), Expired(current, cutoff))
    && Retained(current, cutoff) == Retained(start, cutoff) + arrived
  }

  lemma NothingPurged(start: Logs, cutoff: int)
    ensures PartlyPurged(start, start, {}, cutoff)
  {
  }

  /** One more batch, and the rows that arrive after it. */
  lemma BatchStep(start: Logs, before: Logs, purged: Logs, earlier: Logs, arrived: Logs, cutoff: int)
    requires Deleted(before, purged, before - purged, cutoff)
    requires forall r :: r in arrived ==> r.createdAt >= cutoff
    requires PartlyPurged(start, before, earlier, cutoff)
    ensures PartlyPurged(start, purged + arrived, earlier + arrived, cutoff)
    ensures |Expired(before, cutoff)| == |before - purged| + |Expired(purged + arrived, cutoff)|
  {
    hide Expired, Retained, OldestFirst, Deleted;
    var gone, batch, left := Expired(start, cutoff) - Expired(before, cutoff), before - purged, Expired(purged, cutoff);
    DeletedIs(before, purged, batch, cutoff);
    LateRows(purged, arrived, cutoff);
    KeptRows(before, purged, cutoff);
    OldestFirstStep(gone, batch, left);
    assert OldestFirst(Expired(start, cutoff) - left, left) by {
      assert Expired(start, cutoff) - left == (gone + batch) - left;
    }
  }

  lemma OldestFirstStep(gone: Logs, batch: Logs, left: Logs)
    requires OldestFirst(gone, batch + left) && OldestFirst(batch, left)
    ensures OldestFirst((gone + batch) - left, left)
  {
  }

  lemma LateRows(logs: Logs, arrived: Logs, cutoff: int)
    requires forall r :: r in arrived ==> r.createdAt >= cutoff
    ensures Expired(logs + arrived, cutoff) == Expired(logs, cutoff)
    ensures Retained(logs + arrived, cutoff) == Retained(logs, cutoff) + arrived
  {
  }

  lemma KeptRows(before: Logs, purged: Logs, cutoff: int)
    requires purged <= before && before - purged <= Expired(before, cutoff)
    ensures Retained(purged, cutoff) == Retained(before, cutoff)
  {
    forall r | r in before && r !in purged ensures r.createdAt < cutoff {
      assert r in before - purged;
    }
  }

  /**
   * The do-while loop: it ends with exactly the rows at or after the cutoff, those that
   * arrived meanwhile included, deletes oldest first throughout, and makes one batch
   * call more than it needs to delete everything. `trace` is the table after each call.
   */
  method Process(service: AuditLogsService, cutoff: int, arrivals: seq<Logs>)
    returns (calls: nat, ghost trace: seq<Logs>)
    requires forall i, r :: 0 <= i < |arrivals| && r in arrivals[i] ==> r.createdAt >= cutoff
    modifies service
    ensures calls == (|set r | r in old(service.logs) && r.createdAt < cutoff| + 999) / 1000 + 1
    ensures forall r :: r in service.logs
              <==> || (r in old(service.logs) && r.createdAt >= cutoff)
                   || exists i :: 0 <= i < |arrivals| && i < calls && r in arrivals[i]
    ensures |trace| == calls && trace[calls - 1] == service.logs
    ensures forall k :: 0 <= k < calls ==> PartlyPurged(old(service.logs), trace[k], Arrived(arrivals, k + 1), cutoff)
  {
    hide Expired, Retained, Arrived, FullBatches, Deleted, PartlyPurged;
    calls, trace := 0, [];
    ghost var start := service.logs;
    var deleted: nat := 1;
    NoneArrived(arrivals);
    NothingPurged(start, cutoff);
    while deleted > 0
      invariant deleted == 0
          ==> Expired(service.logs, cutoff) == {} && calls == FullBatches(|Expired(start, cutoff)|) + 1
      invariant deleted > 0
          ==> FullBatches(|Expired(start, cutoff)|) == calls + FullBatches(|Expired(service.logs, cutoff)|)
      invariant PartlyPurged(start, service.logs, Arrived(arrivals, calls), cutoff)
      invariant |trace| == calls && (calls > 0 ==> trace[calls - 1] == service.logs) && (calls == 0 ==> deleted > 0)
      invariant forall k :: 0 <= k < calls ==> PartlyPurged(start, trace[k], Arrived(arrivals, k + 1), cutoff)
      decreases |Expired(service.logs, cutoff)|, deleted
    {
      ghost var before := service.logs;
      deleted := service.PurgeExpired(cutoff, AUDIT_LOG_RETENTION_BATCH_SIZE);
      ghost var purged := service.logs;
      var arrived := if calls < |arrivals| then arrivals[calls] else {};
      service.logs := service.logs + arrived;
      ArrivedStep(arrivals, calls);
      BatchStep(start, before, purged, Arrived(arrivals, calls), arrived, cutoff);
      if deleted > 0 {
        BatchCounts(|Expired(before, cutoff)|);
      } else {
        NoBatches();
      }
      calls, trace := calls + 1, trace + [service.logs];
    }
    AllPurged(start, service.logs, Arrived(arrivals, calls), cutoff);
    LeftAre(start, arrivals, calls, cutoff);
  }

  lemma LeftAre(start: Logs, arrivals: seq<Logs>, calls: nat, cutoff: int)
    ensures FullBatches(|Expired(start, cutoff)|) == (|set r | r in start && r.createdAt < cutoff| + 999) / 1000
    ensures forall r :: r in Retained(start, cutoff) + Arrived(arrivals, calls)
              <==> || (r in start && r.createdAt >= cutoff)
                   || exists i :: 0 <= i < |arrivals| && i < calls && r in arrivals[i]
  {
  }

  lemma NoBatches()
    ensures FullBatches(0) == 0
  {
  }

  lemma NoneArrived(arrivals: seq<Logs>)
    ensures Arrived(arrivals, 0) == {}
  {
  }

  lemma AllPurged(start: Logs, current: Logs, arrived: Logs, cutoff: int)
    requires PartlyPurged(start, current, arrived, cutoff) && Expired(current, cutoff) == {}
    ensures current == Retained(start, cutoff) + arrived
  {
    assert current == Expired(current, cutoff) + Retained(current, cutoff);
  }
}
