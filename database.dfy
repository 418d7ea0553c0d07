/**
 * backend/database.py: the `transformations` table, the two statements that
 * write it (create_job, update_job_status) and the three queries that read it
 * (get_job, get_session_history, get_all_transformations).
 *
 * The table is held in memory as its rows in insertion order. CURRENT_TIMESTAMP
 * is a clock reading passed in by the caller; SQLite connections, SQL text and
 * failures of the database file itself are not modelled.
 */
module JobDatabase {
  import opened Wrappers

  /** The four status values the rest of the backend writes. The column accepts any text. */
  const Pending: string := "pending"
  const Processing: string := "processing"
  const Completed: string := "completed"
  const Failed: string := "failed"

  /** One row of `transformations`; an absent SQL value (NULL) is None. */
  datatype Job = Job(
    rowId: nat,                      // id INTEGER PRIMARY KEY AUTOINCREMENT
    jobId: string,                   // job_id TEXT UNIQUE NOT NULL
    sessionId: string,
    originalFilename: string,
    originalPath: string,
    styleName: string,
    outputPath: Option<string>,
    status: string,
    processingTime: Option<real>,
    errorMessage: Option<string>,
    createdAt: nat,                  // DEFAULT CURRENT_TIMESTAMP, in seconds
    completedAt: Option<nat>)

  /** The job ids present in the table. */
  function JobIds(rows: seq<Job>): set<string>
  {
    set r | r in rows :: r.jobId
  }

  /** Appending a row adds exactly its job id. */
  lemma JobIdsAppend(rows: seq<Job>, row: Job)
    ensures JobIds(rows + [row]) == JobIds(rows) + {row.jobId}
  {
    assert forall x :: x in rows + [row] <==> x in rows || x == row;
  }

  /** Two tables whose rows carry the same job ids, position by position, have the same id set. */
  lemma JobIdsSameIds(a: seq<Job>, b: seq<Job>)
    requires |a| == |b|
    requires forall i :: 0 <= i < |a| ==> a[i].jobId == b[i].jobId
    ensures JobIds(a) == JobIds(b)
  {
    forall x | x in JobIds(a) ensures x in JobIds(b) {
      var r :| r in a && r.jobId == x;
      var i :| 0 <= i < |a| && a[i] == r;
      assert b[i] in b;
    }
    forall x | x in JobIds(b) ensures x in JobIds(a) {
      var r :| r in b && r.jobId == x;
      var i :| 0 <= i < |b| && b[i] == r;
      assert a[i] in a;
    }
  }

  /** The UNIQUE constraint on job_id. */
  predicate UniqueJobIds(rows: seq<Job>)
  {
    forall i, j :: 0 <= i < j < |rows| ==> rows[i].jobId != rows[j].jobId
  }

  /**
   * The SET clause update_job_status applies to a row it matches. It depends on
   * the target status only: "completed" writes the output columns and the
   * completion time, "failed" the error and the completion time, anything else
   * the status alone. The row's identity and provenance never change.
   */
  function SetColumns(j: Job, status: string, outputPath: Option<string>,
                      processingTime: Option<real>, errorMessage: Option<string>,
                      now: nat): (r: Job)
    ensures r.rowId == j.rowId && r.jobId == j.jobId && r.sessionId == j.sessionId
    ensures r.originalFilename == j.originalFilename && r.originalPath == j.originalPath
    ensures r.styleName == j.styleName && r.createdAt == j.createdAt
    ensures r.status == status
    ensures status == Completed ==>
              && r.outputPath == outputPath && r.processingTime == processingTime
              && r.completedAt == Some(now) && r.errorMessage == j.errorMessage
    ensures status == Failed ==>
              && r.errorMessage == errorMessage && r.completedAt == Some(now)
              && r.outputPath == j.outputPath && r.processingTime == j.processingTime
    ensures status != Completed && status != Failed ==>
              && r.outputPath == j.outputPath && r.processingTime == j.processingTime
              && r.errorMessage == j.errorMessage && r.completedAt == j.completedAt
  {
    if status == Completed then
      j.(status := status, outputPath := outputPath, processingTime := processingTime,
         completedAt := Some(now))
    else if status == Failed then
      j.(status := status, errorMessage := errorMessage, completedAt := Some(now))
    else
      j.(status := status)
  }

  /**
   * UPDATE transformations SET ... WHERE job_id = ?: every row with that job id
   * gets the SET clause of SetColumns, every other row stays as it was, and the
   * job ids, hence the UNIQUE constraint, are kept.
   */
  function UpdateWhere(rows: seq<Job>, jobId: string, status: string, outputPath: Option<string>,
                       processingTime: Option<real>, errorMessage: Option<string>, now: nat): (r: seq<Job>)
    ensures |r| == |rows|
    ensures forall i :: 0 <= i < |rows| ==>
              r[i] == if rows[i].jobId == jobId
                      then SetColumns(rows[i], status, outputPath, processingTime, errorMessage, now)
                      else rows[i]
  {
    seq(|rows|, i requires 0 <= i < |rows| =>
      if rows[i].jobId == jobId
      then SetColumns(rows[i], status, outputPath, processingTime, errorMessage, now)
      else rows[i])
  }

  /** An update keeps every row's job id; one whose job id is not in the table changes nothing. */
  lemma UpdateWhereKeepsIds(rows: seq<Job>, jobId: string, status: string, outputPath: Option<string>,
                            processingTime: Option<real>, errorMessage: Option<string>, now: nat)
    ensures JobIds(UpdateWhere(rows, jobId, status, outputPath, processingTime, errorMessage, now)) == JobIds(rows)
    ensures jobId !in JobIds(rows) ==>
              UpdateWhere(rows, jobId, status, outputPath, processingTime, errorMessage, now) == rows
  {
    var r := UpdateWhere(rows, jobId, status, outputPath, processingTime, errorMessage, now);
    assert forall i :: 0 <= i < |rows| ==> rows[i].jobId in JobIds(rows);
    JobIdsSameIds(rows, r);
  }

  /**
   * One status write that reached a row: the insert's `pending`, or the status
   * set by an update whose WHERE clause matched. Recorded for the proofs only.
   */
  datatype Write = Write(jobId: string, status: string)

  /** The statuses written to job `jobId`, oldest first. */
  function Trail(log: seq<Write>, jobId: string): (t: seq<string>)
    ensures |t| <= |log|
  {
    if log == [] then []
    else Trail(log[..|log| - 1], jobId) + (if log[|log| - 1].jobId == jobId then [log[|log| - 1].status] else [])
  }

  /** A new write extends the history of its own job and of no other. */
  lemma TrailAppend(log: seq<Write>, w: Write, jobId: string)
    ensures Trail(log + [w], jobId) == Trail(log, jobId) + (if w.jobId == jobId then [w.status] else [])
  {
    assert (log + [w])[..|log|] == log;
  }

  /** A job nothing was written to has an empty history. */
  lemma {:induction false} TrailOfUnwritten(log: seq<Write>, jobId: string)
    requires forall k :: 0 <= k < |log| ==> log[k].jobId != jobId
    ensures Trail(log, jobId) == []
  {
    if log != [] {
      var init := log[..|log| - 1];
      assert forall k :: 0 <= k < |init| ==> init[k] == log[k];
      TrailOfUnwritten(init, jobId);
    }
  }

  /** The `transformations` table. */
  class Database {
    /** The rows, oldest insert first. */
    var rows: seq<Job>
    /** The next AUTOINCREMENT id (sqlite_sequence + 1). */
    var nextRowId: nat
    /** Every status write that reached a row, oldest first. */
    ghost var log: seq<Write>

    ghost predicate Valid()
      reads this
    {
      && UniqueJobIds(rows)
      && (forall i :: 0 <= i < |rows| ==> rows[i].rowId < nextRowId)
      && (forall i, j :: 0 <= i < j < |rows| ==> rows[i].rowId < rows[j].rowId)
    }

    /** init_db on a fresh database file: an empty table. */
    constructor ()
      ensures Valid() && rows == [] && nextRowId == 1 && log == []
    {
      rows := [];
      nextRowId := 1;
      log := [];
    }

    /**
     * create_job: INSERT one `pending` row with the given columns, the other
     * columns NULL and created_at the current time. A job id already in the
     * table violates UNIQUE; the error is caught, nothing is written and the
     * answer is false.
     */
    method CreateJob(jobId: string, sessionId: string, filename: string,
                     filepath: string, style: string, now: nat) returns (ok: bool)
      requires Valid()
      modifies this
      ensures Valid()
      ensures ok <==> jobId !in old(JobIds(rows))
      ensures ok ==>
                && rows == old(rows) + [Job(old(nextRowId), jobId, sessionId, filename, filepath,
                                            style, None, Pending, None, None, now, None)]
                && nextRowId == old(nextRowId) + 1
                && log == old(log) + [Write(jobId, Pending)]
      ensures !ok ==> rows == old(rows) && nextRowId == old(nextRowId) && log == old(log)
    {
      if jobId in JobIds(rows) {
        ok := false;
      } else {
        var row := Job(nextRowId, jobId, sessionId, filename, filepath,
                       style, None, Pending, None, None, now, None);
        assert forall i :: 0 <= i < |rows| ==> rows[i].jobId != jobId by {
          forall i | 0 <= i < |rows| ensures rows[i].jobId != jobId {
            assert rows[i] in rows;
          }
        }
        rows := rows + [row];
        nextRowId := nextRowId + 1;
        log := log + [Write(jobId, Pending)];
        ok := true;
      }
    }

    /**
     * update_job_status: UPDATE ... WHERE job_id = ?, with the SET clause chosen
     * by the target status. There is no guard on the row's current status, so
     * any transition is accepted, out of a terminal status too. An unknown job id
     * matches no row and changes nothing, not even the log of writes; the answer
     * is true in every case.
     */
    method UpdateJobStatus(jobId: string, status: string, outputPath: Option<string>,
                           processingTime: Option<real>, errorMessage: Option<string>,
                           now: nat) returns (ok: bool)
      requires Valid()
      modifies this`rows, this`log
      ensures Valid()
      ensures ok
      ensures rows == UpdateWhere(old(rows), jobId, status, outputPath, processingTime, errorMessage, now)
      ensures log == old(log) + if jobId in old(JobIds(rows)) then [Write(jobId, status)] else []
    {
      log := log + if jobId in JobIds(rows) then [Write(jobId, status)] else [];
      var updated := UpdateWhere(rows, jobId, status, outputPath, processingTime, errorMessage, now);
      assert forall i :: 0 <= i < |rows| ==> updated[i].jobId == rows[i].jobId && updated[i].rowId == rows[i].rowId;
      rows := updated;
      ok := true;
    }
  }

  /**
   * get_job: SELECT * ... WHERE job_id = ?, fetchone. Under the UNIQUE
   * constraint the row found is the only one with that id.
   */
  function GetJob(rows: seq<Job>, jobId: string): (r: Option<Job>)
    ensures r.None? <==> jobId !in JobIds(rows)
    ensures r.Some? ==> r.value in rows && r.value.jobId == jobId
    ensures UniqueJobIds(rows) ==>
              forall i :: 0 <= i < |rows| && rows[i].jobId == jobId ==> r == Some(rows[i])
  {
    if rows == [] then None
    else if rows[0].jobId == jobId then Some(rows[0])
    else
      var r := GetJob(rows[1..], jobId);
      assert JobIds(rows) == {rows[0].jobId} + JobIds(rows[1..]) by {
        assert forall x :: x in rows <==> x == rows[0] || x in rows[1..];
      }
      assert UniqueJobIds(rows) ==> UniqueJobIds(rows[1..]) by {
        if UniqueJobIds(rows) {
          forall i, j | 0 <= i < j < |rows[1..]| ensures rows[1..][i].jobId != rows[1..][j].jobId {
            assert rows[1..][i] == rows[i + 1] && rows[1..][j] == rows[j + 1];
          }
        }
      }
      assert forall i :: 1 <= i < |rows| ==> rows[i] == rows[1..][i - 1];
      r
  }

  /** ORDER BY created_at DESC: no row is newer than a row before it. */
  predicate NewestFirst(s: seq<Job>)
  {
    forall i, j :: 0 <= i < j < |s| ==> s[i].createdAt >= s[j].createdAt
  }

  /** A row no older than every row of a newest-first sequence can go in front of it. */
  lemma NewestFirstCons(h: Job, t: seq<Job>)
    requires NewestFirst(t)
    requires forall y :: y in t ==> y.createdAt <= h.createdAt
    ensures NewestFirst([h] + t)
  {
    forall i, j | 0 <= i < j < |[h] + t| ensures ([h] + t)[i].createdAt >= ([h] + t)[j].createdAt {
      assert ([h] + t)[j] == t[j - 1] && t[j - 1] in t;
      if 0 < i { assert ([h] + t)[i] == t[i - 1]; }
    }
  }

  /** The step of InsertNewestFirst that keeps the newest row of `s` in front. */
  lemma InsertBehind(x: Job, s: seq<Job>, rest: seq<Job>)
    requires NewestFirst(s) && s != [] && x.createdAt < s[0].createdAt
    requires NewestFirst(rest)
    requires multiset(rest) == multiset(s[1..]) + multiset{x}
    requires forall y :: y in rest ==> y == x || y in s[1..]
    ensures NewestFirst([s[0]] + rest)
    ensures multiset([s[0]] + rest) == multiset(s) + multiset{x}
    ensures forall y :: y in [s[0]] + rest ==> y == x || y in s
  {
    forall y | y in rest ensures y.createdAt <= s[0].createdAt {
      if y != x {
        var k :| 0 <= k < |s[1..]| && s[1..][k] == y;
        assert s[k + 1] == y;
      }
    }
    NewestFirstCons(s[0], rest);
    assert s == [s[0]] + s[1..];
  }

  /** Places `x` into a newest-first sequence, before the first row not newer than it. */
  function InsertNewestFirst(x: Job, s: seq<Job>): (r: seq<Job>)
    requires NewestFirst(s)
    ensures NewestFirst(r)
    ensures multiset(r) == multiset(s) + multiset{x}
    ensures forall y :: y in r ==> y == x || y in s
  {
    if s == [] then [x]
    else if x.createdAt >= s[0].createdAt then
      NewestFirstCons(x, s);
      [x] + s
    else
      var rest := InsertNewestFirst(x, s[1..]);
      InsertBehind(x, s, rest);
      [s[0]] + rest
  }

  /** The rows of `s`, each as often as in `s`, newest first. */
  function SortNewestFirst(s: seq<Job>): (r: seq<Job>)
    ensures NewestFirst(r)
    ensures multiset(r) == multiset(s)
  {
    if s == [] then []
    else
      assert s == [s[0]] + s[1..];
      InsertNewestFirst(s[0], SortNewestFirst(s[1..]))
  }

  /** A WHERE clause: the rows satisfying `keep`, in table order. */
  function Where(rows: seq<Job>, keep: Job -> bool): (r: seq<Job>)
    ensures forall x :: multiset(r)[x] == if keep(x) then multiset(rows)[x] else 0
  {
    if rows == [] then []
    else
      assert rows == [rows[0]] + rows[1..];
      var rest := Where(rows[1..], keep);
      if keep(rows[0]) then [rows[0]] + rest else rest
  }

  /** LIMIT n: the first n rows; SQLite reads a negative n as no limit. */
  function Limit(s: seq<Job>, n: int): (r: seq<Job>)
    ensures r <= s
    ensures 0 <= n ==> |r| == if n < |s| then n else |s|
    ensures n < 0 ==> r == s
  {
    if n < 0 || |s| <= n then s else s[..n]
  }

  function InSession(sessionId: string): Job -> bool
  {
    (j: Job) => j.sessionId == sessionId
  }

  predicate IsCompleted(j: Job)
  {
    j.status == Completed
  }

  /**
   * get_session_history: SELECT * ... WHERE session_id = ? ORDER BY created_at DESC.
   * Rows with equal created_at may come back in either order; only the ordering
   * by created_at is promised.
   */
  function GetSessionHistory(rows: seq<Job>, sessionId: string): (r: seq<Job>)
    ensures NewestFirst(r)
    ensures forall x :: multiset(r)[x] == if x.sessionId == sessionId then multiset(rows)[x] else 0
    ensures forall x :: x in r <==> x in rows && x.sessionId == sessionId
  {
    var kept := Where(rows, InSession(sessionId));
    var r := SortNewestFirst(kept);
    assert forall x :: x in r <==> x in multiset(r);
    assert forall x :: x in rows <==> x in multiset(rows);
    r
  }

  /** In a newest-first sequence no row after position n is newer than one before it. */
  lemma {:induction false} NewestFirstTail(s: seq<Job>, n: nat)
    requires NewestFirst(s) && n <= |s|
    ensures forall x, y :: x in s[n..] && y in s[..n] ==> x.createdAt <= y.createdAt
  {
    forall x, y | x in s[n..] && y in s[..n] ensures x.createdAt <= y.createdAt {
      var k :| 0 <= k < |s[n..]| && s[n..][k] == x;
      var m :| 0 <= m < |s[..n]| && s[..n][m] == y;
      assert s[n + k] == x && s[m] == y;
    }
  }

  /** The first n rows of a newest-first sequence are newest first, and what is left out is never newer. */
  lemma {:induction false} NewestFirstSplit(s: seq<Job>, n: nat)
    requires NewestFirst(s) && n <= |s|
    ensures NewestFirst(s[..n])
    ensures multiset(s[..n]) <= multiset(s)
    ensures forall x, y :: x in multiset(s) - multiset(s[..n]) && y in s[..n] ==> x.createdAt <= y.createdAt
  {
    assert s == s[..n] + s[n..];
    assert multiset(s) == multiset(s[..n]) + multiset(s[n..]);
    assert multiset(s) - multiset(s[..n]) == multiset(s[n..]);
    NewestFirstTail(s, n);
    assert forall i, j :: 0 <= i < j < n ==> s[..n][i] == s[i] && s[..n][j] == s[j];
  }

  /** A row occurring in the result of a WHERE clause is a row of the table that satisfies it. */
  lemma WhereMember(rows: seq<Job>, keep: Job -> bool, part: multiset<Job>, x: Job)
    requires part <= multiset(Where(rows, keep)) && x in part
    ensures x in rows && keep(x)
  {
    assert multiset(Where(rows, keep))[x] > 0;
    assert multiset(rows)[x] > 0;
  }

  /**
   * get_all_transformations (the gallery): SELECT * ... WHERE status = 'completed'
   * ORDER BY created_at DESC LIMIT ?. At most `limit` completed rows, newest
   * first, and no completed row left out is newer than one returned; when the
   * limit is not reached (or is negative) every completed row is returned.
   */
  function GetAllTransformations(rows: seq<Job>, limit: int): (r: seq<Job>)
    ensures forall x :: x in r ==> x in rows && x.status == Completed
    ensures NewestFirst(r)
    ensures 0 <= limit ==> |r| <= limit
    ensures multiset(r) <= multiset(Where(rows, IsCompleted))
    ensures limit < 0 || |r| < limit ==> multiset(r) == multiset(Where(rows, IsCompleted))
    ensures forall x, y :: x in multiset(Where(rows, IsCompleted)) - multiset(r) && y in r ==>
              x.createdAt <= y.createdAt
  {
    var sorted := SortNewestFirst(Where(rows, IsCompleted));
    var r := Limit(sorted, limit);
    assert r == sorted[..|r|];
    NewestFirstSplit(sorted, |r|);
    forall x | x in r ensures x in rows && x.status == Completed {
      WhereMember(rows, IsCompleted, multiset(r), x);
    }
    r
  }
}
