/**
 * backend/main.py: the orchestration of a style-transfer job around the
 * `transformations` table. POST /transform validates the submission, saves the
 * upload, inserts a `pending` row and adds one background task; the background
 * task (process_style_transfer) writes `processing`, runs the engine and then
 * writes exactly one terminal status; GET /status, /result, /history and
 * /gallery read the table.
 *
 * The background task is run as two sequential steps, Backend.StartStyleTransfer
 * and Backend.FinishStyleTransfer, between which any other request may run.
 * uuid4 values, the clock, elapsed time, the file system and the placeholder
 * engine (a sleep followed by a file copy) are inputs of the operations.
 */
module Api {
  import opened Wrappers
  import opened JobDatabase
  import Config
  import Paths

  /** Default of the `style` parameter of POST /transform. */
  const DefaultStyle: string := "vangogh"

  /** Default of the `limit` parameter of GET /gallery. */
  const DefaultGalleryLimit: int := 20

  /** Why a request is refused; each reason goes with one HTTP status code. */
  datatype Reason =
    | InvalidStyle                          // 400 "Invalid style. Choose from: ..."
    | InvalidFileType                       // 400 "Invalid file type. Allowed: ..."
    | JobNotFound                           // 404 "Job not found"
    | NotCompleted(currentStatus: string)   // 400 "Job not completed. Current status: ..."
    | ResultFileNotFound                    // 404 "Result file not found"
    | ServerError(message: string)          // 500 raised by the handler itself with str(e)
    | InternalError                         // 500 for an exception the handler does not catch

  datatype HttpError = HttpError(statusCode: nat, reason: Reason)

  /** A step that either returns or raises an exception whose str() is `message`. */
  datatype Attempt = Done | Raised(message: string)

  /** An elapsed time in seconds. */
  type Duration = t: real | 0.0 <= t

  /** A background task: process_style_transfer(job_id, image_path, style). */
  datatype Task = Task(jobId: string, imagePath: string, style: string)

  datatype TransformResponse = TransformResponse(jobId: string, status: string, message: string)

  /** The JobStatus response model: the columns of a row that GET /status returns. */
  datatype JobStatusView = JobStatusView(
    jobId: string, status: string, styleName: string, createdAt: nat,
    completedAt: Option<nat>, processingTime: Option<real>,
    outputPath: Option<string>, errorMessage: Option<string>)

  datatype FileResponse = FileResponse(path: string, mediaType: string, filename: string)

  datatype History = History(sessionId: string, count: nat, transformations: seq<Job>)

  datatype Gallery = Gallery(count: nat, transformations: seq<Job>)

  const SubmittedMessage: string := "Image uploaded successfully. Processing started."

  // ---------------------------------------------------------------------------
  // Submission checks

  /**
   * validate_image: the lower-cased suffix of the file name must be one of the
   * allowed extensions; otherwise HTTP 400.
   */
  function ValidateImage(filename: string): (r: Result<bool, HttpError>)
    ensures r.Success? <==> Paths.Lower(Paths.Suffix(filename)) in Config.AllowedExtensions
    ensures r.Success? ==> r.value
    ensures r.Failure? ==> r.error == HttpError(400, InvalidFileType)
  {
    if Paths.Lower(Paths.Suffix(filename)) in Config.AllowedExtensions then Success(true)
    else Failure(HttpError(400, InvalidFileType))
  }

  lemma LowerDotted(ext: string)
    ensures Paths.Lower("." + ext) == "." + Paths.Lower(ext)
  {
    var l := Paths.Lower("." + ext);
    assert l[0] == '.';
    assert forall i :: 1 <= i < |l| ==> l[i] == Paths.LowerChar(ext[i - 1]);
  }

  /**
   * Any file name "stem.ext" whose extension is allowed in some letter case
   * ("photo.JPG", "a.b.PnG", "dir/x.jpeg") passes validate_image.
   */
  lemma AcceptsAllowedExtension(stem: string, ext: string)
    requires stem != [] && '/' !in stem
    requires ext != [] && '.' !in ext && '/' !in ext
    requires "." + Paths.Lower(ext) in Config.AllowedExtensions
    ensures ValidateImage(stem + "." + ext).Success?
  {
    Paths.SuffixOfStemAndExtension(stem, ext);
    LowerDotted(ext);
  }

  /** A hidden file such as ".png" has no suffix, so validate_image refuses it. */
  lemma RejectsHiddenFile(ext: string)
    requires '.' !in ext && '/' !in ext
    ensures ValidateImage("." + ext) == Failure(HttpError(400, InvalidFileType))
  {
    Paths.HiddenNameHasNoSuffix(ext);
    assert Paths.Lower([]) == [];
  }

  /**
   * The `style` parameter: the one given, or "vangogh" when the request leaves
   * it out, which is in the catalog, so an omitted style always passes the check.
   */
  function StyleOrDefault(style: Option<string>): (s: string)
    ensures style.Some? ==> s == style.value
    ensures style.None? ==> s in Config.AvailableStyles
  {
    match style
    case None => DefaultStyle
    case Some(s) => s
  }

  /**
   * The checks transform_image makes before it touches the file system or the
   * table, in their order: the style must be a key of the catalog, then the file
   * name must pass validate_image. None means the submission is accepted.
   */
  function CheckSubmission(style: string, filename: string): (err: Option<HttpError>)
    ensures err.None? <==> style in Config.AvailableStyles && ValidateImage(filename).Success?
    ensures style !in Config.AvailableStyles ==> err == Some(HttpError(400, InvalidStyle))
    ensures style in Config.AvailableStyles && ValidateImage(filename).Failure? ==>
              err == Some(HttpError(400, InvalidFileType))
  {
    if style !in Config.AvailableStyles then Some(HttpError(400, InvalidStyle))
    else match ValidateImage(filename)
      case Failure(e) => Some(e)
      case Success(_) => None
  }

  /** `if not session_id`: a missing or empty session id is replaced by a generated one. */
  function SessionOrFresh(sessionId: Option<string>, generated: string): (s: string)
    ensures sessionId == None || sessionId == Some("") ==> s == generated
    ensures sessionId.Some? && sessionId.value != "" ==> s == sessionId.value
  {
    if sessionId.None? || sessionId.value == "" then generated else sessionId.value
  }

  /**
   * save_upload's target: UPLOAD_DIR / (uuid4 + the original suffix, letter case
   * kept). The path lies in UPLOAD_DIR and ends with the original suffix.
   */
  function UploadPath(uploadId: string, filename: string): (p: string)
    ensures |Config.UploadDir| + 1 <= |p| && p[..|Config.UploadDir| + 1] == Config.UploadDir + "/"
    ensures |Paths.Suffix(filename)| <= |p| && p[|p| - |Paths.Suffix(filename)|..] == Paths.Suffix(filename)
  {
    var p := Config.UploadDir + "/" + uploadId + Paths.Suffix(filename);
    assert p[..|Config.UploadDir| + 1] == Config.UploadDir + "/";
    assert p[|p| - |Paths.Suffix(filename)|..] == Paths.Suffix(filename);
    p
  }

  /** A name without a dot has no suffix. */
  lemma NoDotNoSuffix(n: string)
    requires '.' !in n && '/' !in n
    ensures Paths.Suffix(n) == []
  {
    if n != "." {
      assert Paths.LastDot(n) == -1;
    }
  }

  /** A stem without dots followed by a suffix-shaped tail has that tail as its suffix. */
  lemma StemThenSuffix(stem: string, s: string)
    requires stem != [] && '.' !in stem && '/' !in stem
    requires s == [] || (s[0] == '.' && 2 <= |s| && '.' !in s[1..] && '/' !in s)
    ensures Paths.Suffix(stem + s) == s
  {
    if s == [] {
      assert stem + s == stem;
      NoDotNoSuffix(stem);
    } else {
      var ext := s[1..];
      assert stem + s == stem + "." + ext;
      Paths.SuffixOfStemAndExtension(stem, ext);
    }
  }

  /**
   * The saved upload keeps the suffix of the submitted file name, since a uuid4
   * string has no dot and no slash; so the saved file passes validate_image
   * exactly when the submitted name did.
   */
  lemma UploadKeepsSuffix(uploadId: string, filename: string)
    requires uploadId != [] && '.' !in uploadId && '/' !in uploadId
    ensures Paths.Suffix(UploadPath(uploadId, filename)) == Paths.Suffix(filename)
  {
    var s := Paths.Suffix(filename);
    var name := uploadId + s;
    assert UploadPath(uploadId, filename) == Config.UploadDir + "/" + name;
    assert '/' !in name && name[0] == uploadId[0] && uploadId[0] in uploadId;
    Paths.SuffixIgnoresDirectory(Config.UploadDir, name);
    StemThenSuffix(uploadId, s);
  }

  /** process_style_transfer's output file: OUTPUT_DIR / "{job_id}.jpg". */
  function OutputPathFor(jobId: string): (p: string)
    ensures |Config.OutputDir| + 1 <= |p| && p[..|Config.OutputDir| + 1] == Config.OutputDir + "/"
  {
    var p := Config.OutputDir + "/" + jobId + ".jpg";
    assert p[..|Config.OutputDir| + 1] == Config.OutputDir + "/";
    p
  }

  /** Two jobs never share an output file. */
  lemma OutputPathsDistinct(a: string, b: string)
    requires a != b
    ensures OutputPathFor(a) != OutputPathFor(b)
  {
    var k := |Config.OutputDir| + 1;
    if |a| == |b| {
      var i :| 0 <= i < |a| && a[i] != b[i];
      assert OutputPathFor(a)[k + i] == a[i];
      assert OutputPathFor(b)[k + i] == b[i];
    }
  }

  // ---------------------------------------------------------------------------
  // The background task

  predicate IsTerminal(status: string)
  {
    status == Completed || status == Failed
  }

  /** The status the runner's second write sets: completed when the engine returns, failed when it raises. */
  function TerminalStatus(engine: Attempt): (s: string)
    ensures IsTerminal(s)
    ensures s == Completed <==> engine.Done?
  {
    if engine.Done? then Completed else Failed
  }

  /** The output_path, processing_time and error_message arguments of the runner's terminal write. */
  function TerminalOutput(engine: Attempt, jobId: string): Option<string>
  {
    if engine.Done? then Some(OutputPathFor(jobId)) else None
  }

  function TerminalTime(engine: Attempt, elapsed: Duration): Option<real>
  {
    if engine.Done? then Some(elapsed as real) else None
  }

  function TerminalError(engine: Attempt): Option<string>
  {
    if engine.Raised? then Some(engine.message) else None
  }

  /**
   * The row of job `j` after process_style_transfer's two writes, `processing`
   * and then the terminal one: completed with OUTPUT_DIR/{job_id}.jpg and the
   * elapsed time, or failed with the exception's text; completed_at is `now`.
   */
  function RunOutcome(j: Job, engine: Attempt, elapsed: Duration, now: nat): (r: Job)
    ensures r.rowId == j.rowId && r.jobId == j.jobId && r.sessionId == j.sessionId
    ensures r.originalFilename == j.originalFilename && r.originalPath == j.originalPath
    ensures r.styleName == j.styleName && r.createdAt == j.createdAt && r.completedAt == Some(now)
    ensures engine.Done? ==>
              && r.status == Completed && r.outputPath == Some(OutputPathFor(j.jobId))
              && r.processingTime == Some(elapsed as real) && r.errorMessage == j.errorMessage
    ensures engine.Raised? ==>
              && r.status == Failed && r.errorMessage == Some(engine.message)
              && r.outputPath == j.outputPath && r.processingTime == j.processingTime
  {
    SetColumns(SetColumns(j, Processing, None, None, None, now),
               TerminalStatus(engine), TerminalOutput(engine, j.jobId),
               TerminalTime(engine, elapsed), TerminalError(engine), now)
  }

  /** The table after process_style_transfer's two UPDATE statements for `jobId`. */
  function RunnerRows(rows: seq<Job>, jobId: string, engine: Attempt, elapsed: Duration, now: nat): seq<Job>
  {
    UpdateWhere(UpdateWhere(rows, jobId, Processing, None, None, None, now),
                jobId, TerminalStatus(engine), TerminalOutput(engine, jobId),
                TerminalTime(engine, elapsed), TerminalError(engine), now)
  }

  /** Row by row, the runner's two updates change the job's row into RunOutcome and no other row. */
  lemma RunnerRowsAt(rows: seq<Job>, jobId: string, engine: Attempt, elapsed: Duration, now: nat)
    ensures |RunnerRows(rows, jobId, engine, elapsed, now)| == |rows|
    ensures forall i :: 0 <= i < |rows| ==>
              RunnerRows(rows, jobId, engine, elapsed, now)[i] ==
                if rows[i].jobId == jobId then RunOutcome(rows[i], engine, elapsed, now) else rows[i]
  {
    var rows1 := UpdateWhere(rows, jobId, Processing, None, None, None, now);
    forall i | 0 <= i < |rows|
      ensures RunnerRows(rows, jobId, engine, elapsed, now)[i] ==
                if rows[i].jobId == jobId then RunOutcome(rows[i], engine, elapsed, now) else rows[i]
    {
      assert rows1[i].jobId == rows[i].jobId;
    }
  }

  /** The lifecycle of a job: a prefix of pending, processing, completed or of pending, processing, failed. */
  predicate Trajectory(t: seq<string>)
  {
    t <= [Pending, Processing, Completed] || t <= [Pending, Processing, Failed]
  }

  function Rank(status: string): nat
  {
    if status == Pending then 0 else if status == Processing then 1 else 2
  }

  /** A lifecycle only moves forward, and a terminal status is only ever the last one. */
  lemma {:induction false} TrajectoryMovesForward(t: seq<string>)
    requires Trajectory(t)
    ensures forall i, j :: 0 <= i < j < |t| ==> Rank(t[i]) < Rank(t[j])
    ensures forall i :: 0 <= i < |t| - 1 ==> !IsTerminal(t[i])
  {
    var full := if t <= [Pending, Processing, Completed] then [Pending, Processing, Completed]
                else [Pending, Processing, Failed];
    assert forall i :: 0 <= i < |t| ==> t[i] == full[i];
    assert Rank(full[0]) == 0 && Rank(full[1]) == 1 && Rank(full[2]) == 2;
  }

  /** A non-empty lifecycle is determined by its last status. */
  lemma {:induction false} TrajectoryByLast(t: seq<string>)
    requires Trajectory(t) && t != []
    ensures t[|t| - 1] == Pending ==> t == [Pending]
    ensures t[|t| - 1] == Processing ==> t == [Pending, Processing]
    ensures IsTerminal(t[|t| - 1]) ==> t == [Pending, Processing, t[|t| - 1]]
  {
    var full := if t <= [Pending, Processing, Completed] then [Pending, Processing, Completed]
                else [Pending, Processing, Failed];
    assert t == full[..|t|];
  }

  /**
   * The columns a row of this backend holds for its status: no output, timing,
   * error or completion time before it ends; the output file and a non-negative
   * time, and no error, when completed; an error and no output when failed.
   */
  ghost predicate ColumnsFitStatus(r: Job)
  {
    && (r.status == Pending || r.status == Processing ==>
          r.outputPath == None && r.processingTime == None && r.errorMessage == None && r.completedAt == None)
    && (r.status == Completed ==>
          && r.outputPath == Some(OutputPathFor(r.jobId))
          && r.processingTime.Some? && r.processingTime.value >= 0.0
          && r.errorMessage == None && r.completedAt.Some?)
    && (r.status == Failed ==>
          r.errorMessage.Some? && r.outputPath == None && r.processingTime == None && r.completedAt.Some?)
  }

  /** A row agrees with the statuses written to it so far: they form a lifecycle ending in its status. */
  ghost predicate RowAgrees(r: Job, trail: seq<string>)
  {
    && trail != []
    && Trajectory(trail)
    && trail[|trail| - 1] == r.status
    && ColumnsFitStatus(r)
  }

  /** The job ids of the tasks waiting in the queue. */
  function QueuedIds(queue: seq<Task>): set<string>
  {
    set t | t in queue :: t.jobId
  }

  /** No two waiting tasks are for the same job. */
  predicate DistinctJobs(queue: seq<Task>)
  {
    forall i, j :: 0 <= i < j < |queue| ==> queue[i].jobId != queue[j].jobId
  }

  /** Every write went to a row of the table. */
  ghost predicate LogInTable(log: seq<Write>, rows: seq<Job>)
  {
    forall k :: 0 <= k < |log| ==> log[k].jobId in JobIds(rows)
  }

  /** Every row agrees with the statuses written to it. */
  ghost predicate RowsAgree(rows: seq<Job>, log: seq<Write>)
  {
    forall i :: 0 <= i < |rows| ==> RowAgrees(rows[i], Trail(log, rows[i].jobId))
  }

  /** The jobs `members`, all in the table, are exactly those whose history so far is `target`. */
  ghost predicate ExactlyAt(rows: seq<Job>, log: seq<Write>, target: seq<string>, members: set<string>)
  {
    && members <= JobIds(rows)
    && (forall id :: id in JobIds(rows) ==> (Trail(log, id) == target <==> id in members))
  }

  /**
   * The bookkeeping of the backend, with the jobs in `running` started and not
   * yet finished. Every write went to a row of the table and every row agrees
   * with the statuses written to it. A job's history is just `pending` exactly
   * when its one task is queued, and `pending, processing` exactly when it is
   * running.
   */
  ghost predicate Tracks(rows: seq<Job>, queue: seq<Task>, log: seq<Write>, running: set<string>)
  {
    && LogInTable(log, rows)
    && RowsAgree(rows, log)
    && DistinctJobs(queue)
    && ExactlyAt(rows, log, [Pending], QueuedIds(queue))
    && ExactlyAt(rows, log, [Pending, Processing], running)
  }

  /** A write to a row of the table keeps every write in the table, whatever the update leaves of the ids. */
  lemma LogGrows(log: seq<Write>, rows: seq<Job>, rows': seq<Job>, w: Write)
    requires LogInTable(log, rows)
    requires JobIds(rows) <= JobIds(rows') && w.jobId in JobIds(rows')
    ensures LogInTable(log + [w], rows')
  {
    assert forall k :: 0 <= k < |log| ==> (log + [w])[k] == log[k];
  }

  /** A write changes only the history of its own job, by appending its status. */
  lemma TrailAfter(log: seq<Write>, w: Write)
    ensures forall x :: Trail(log + [w], x) == Trail(log, x) + (if x == w.jobId then [w.status] else [])
  {
    forall x ensures Trail(log + [w], x) == Trail(log, x) + (if x == w.jobId then [w.status] else []) {
      TrailAppend(log, w, x);
    }
  }

  /**
   * After the write `w`, to a job of the table or to the table's one new row,
   * the jobs whose history is `target` are `members'`, when `members'` differs
   * from `members` at most in `w`'s job and holds it exactly when its new
   * history is `target`.
   */
  lemma ExactlyAtAfterWrite(rows: seq<Job>, rows': seq<Job>, log: seq<Write>, w: Write,
                            target: seq<string>, members: set<string>, members': set<string>)
    requires ExactlyAt(rows, log, target, members)
    requires JobIds(rows') == JobIds(rows) + {w.jobId}
    requires w.jobId !in JobIds(rows) ==> Trail(log, w.jobId) == []
    requires forall x :: x in members' <==> (if x == w.jobId then Trail(log, x) + [w.status] == target else x in members)
    ensures ExactlyAt(rows', log + [w], target, members')
  {
    TrailAfter(log, w);
  }

  /** A row just inserted by create_job agrees with the one status written to it. */
  lemma NewRowAgrees(r: Job)
    requires r.status == Pending
    requires r.outputPath == None && r.processingTime == None
    requires r.errorMessage == None && r.completedAt == None
    ensures RowAgrees(r, [Pending])
  {
  }

  /** Inserting a pending row for a new job id, with its write, keeps every row in agreement. */
  lemma InsertRowsAgree(rows: seq<Job>, log: seq<Write>, row: Job)
    requires RowsAgree(rows, log) && LogInTable(log, rows)
    requires row.jobId !in JobIds(rows) && RowAgrees(row, [Pending])
    ensures RowsAgree(rows + [row], log + [Write(row.jobId, Pending)])
  {
    var id := row.jobId;
    var rows', log' := rows + [row], log + [Write(id, Pending)];
    TrailOfUnwritten(log, id);
    TrailAfter(log, Write(id, Pending));
    forall i | 0 <= i < |rows'| ensures RowAgrees(rows'[i], Trail(log', rows'[i].jobId)) {
      if i < |rows| {
        assert rows'[i] == rows[i] && rows[i] in rows;
      }
    }
  }

  /** A submission with a new job id, its row, its write and its one task, keeps the bookkeeping. */
  lemma SubmitKeepsTracks(rows: seq<Job>, queue: seq<Task>, log: seq<Write>, running: set<string>,
                          row: Job, task: Task)
    requires Tracks(rows, queue, log, running)
    requires row.jobId !in JobIds(rows) && task.jobId == row.jobId
    requires RowAgrees(row, [Pending])
    ensures Tracks(rows + [row], queue + [task], log + [Write(row.jobId, Pending)], running)
  {
    var id := row.jobId;
    var w := Write(id, Pending);
    JobIdsAppend(rows, row);
    LogGrows(log, rows, rows + [row], w);
    InsertRowsAgree(rows, log, row);
    TrailOfUnwritten(log, id);
    assert QueuedIds(queue + [task]) == QueuedIds(queue) + {id} by {
      assert forall t :: t in queue + [task] <==> t in queue || t == task;
    }
    assert DistinctJobs(queue + [task]) by {
      forall i | 0 <= i < |queue| ensures queue[i].jobId != id {
        assert queue[i] in queue;
      }
    }
    ExactlyAtAfterWrite(rows, rows + [row], log, w, [Pending], QueuedIds(queue), QueuedIds(queue + [task]));
    ExactlyAtAfterWrite(rows, rows + [row], log, w, [Pending, Processing], running, running);
  }

  /** The oldest task's job id is queued once: the rest of the queue is for other jobs. */
  lemma DequeueIds(queue: seq<Task>)
    requires DistinctJobs(queue) && queue != []
    ensures QueuedIds(queue) == {queue[0].jobId} + QueuedIds(queue[1..])
    ensures queue[0].jobId !in QueuedIds(queue[1..])
    ensures DistinctJobs(queue[1..])
  {
    var task := queue[0];
    assert queue == [task] + queue[1..];
    assert forall t :: t in queue <==> t == task || t in queue[1..];
    forall t | t in queue[1..] ensures t.jobId != task.jobId {
      var k :| 0 <= k < |queue[1..]| && queue[1..][k] == t;
      assert queue[k + 1] == t;
    }
    forall i, j | 0 <= i < j < |queue[1..]| ensures queue[1..][i].jobId != queue[1..][j].jobId {
      assert queue[1..][i] == queue[i + 1] && queue[1..][j] == queue[j + 1];
    }
  }

  /** The oldest task's job has only been inserted: it is pending and not running. */
  lemma QueuedHeadIsPending(rows: seq<Job>, queue: seq<Task>, log: seq<Write>, running: set<string>)
    requires Tracks(rows, queue, log, running) && queue != []
    ensures Trail(log, queue[0].jobId) == [Pending] && queue[0].jobId !in running
  {
    assert queue[0] in queue;
  }

  /** A pending row on which the `processing` update runs agrees with pending, processing. */
  lemma ProcessingRowAgrees(j: Job, now: nat)
    requires RowAgrees(j, [Pending])
    ensures RowAgrees(SetColumns(j, Processing, None, None, None, now), [Pending, Processing])
  {
  }

  /** A processing row on which the terminal update runs agrees with its complete lifecycle. */
  lemma TerminalRowAgrees(j: Job, engine: Attempt, elapsed: Duration, now: nat)
    requires RowAgrees(j, [Pending, Processing])
    ensures RowAgrees(SetColumns(j, TerminalStatus(engine), TerminalOutput(engine, j.jobId),
                                 TerminalTime(engine, elapsed), TerminalError(engine), now),
                      [Pending, Processing, TerminalStatus(engine)])
  {
  }

  /** The `processing` update of a pending job, with its write, keeps every row in agreement. */
  lemma StartRowsAgree(rows: seq<Job>, log: seq<Write>, id: string, now: nat)
    requires RowsAgree(rows, log) && Trail(log, id) == [Pending]
    ensures RowsAgree(UpdateWhere(rows, id, Processing, None, None, None, now), log + [Write(id, Processing)])
  {
    var rows' := UpdateWhere(rows, id, Processing, None, None, None, now);
    var log' := log + [Write(id, Processing)];
    TrailAfter(log, Write(id, Processing));
    forall i | 0 <= i < |rows'| ensures RowAgrees(rows'[i], Trail(log', rows'[i].jobId)) {
      if rows[i].jobId == id {
        ProcessingRowAgrees(rows[i], now);
      }
    }
  }

  /** The terminal update of a processing job, with its write, keeps every row in agreement. */
  lemma FinishRowsAgree(rows: seq<Job>, log: seq<Write>, id: string, engine: Attempt, elapsed: Duration, now: nat)
    requires RowsAgree(rows, log) && Trail(log, id) == [Pending, Processing]
    ensures RowsAgree(UpdateWhere(rows, id, TerminalStatus(engine), TerminalOutput(engine, id),
                                  TerminalTime(engine, elapsed), TerminalError(engine), now),
                      log + [Write(id, TerminalStatus(engine))])
  {
    var status := TerminalStatus(engine);
    var rows' := UpdateWhere(rows, id, status, TerminalOutput(engine, id),
                             TerminalTime(engine, elapsed), TerminalError(engine), now);
    var log' := log + [Write(id, status)];
    TrailAfter(log, Write(id, status));
    forall i | 0 <= i < |rows'| ensures RowAgrees(rows'[i], Trail(log', rows'[i].jobId)) {
      var r := rows[i];
      if r.jobId == id {
        assert rows'[i] == SetColumns(r, status, TerminalOutput(engine, id),
                                      TerminalTime(engine, elapsed), TerminalError(engine), now);
        assert Trail(log', id) == [Pending, Processing, status];
        TerminalRowAgrees(r, engine, elapsed, now);
      } else {
        assert rows'[i] == r && Trail(log', r.jobId) == Trail(log, r.jobId);
      }
    }
  }

  /** Starting the oldest task (its `processing` write) moves its job from queued to running. */
  lemma StartKeepsTracks(rows: seq<Job>, queue: seq<Task>, log: seq<Write>, running: set<string>, now: nat)
    requires Tracks(rows, queue, log, running) && queue != []
    ensures Tracks(UpdateWhere(rows, queue[0].jobId, Processing, None, None, None, now), queue[1..],
                   log + [Write(queue[0].jobId, Processing)], running + {queue[0].jobId})
  {
    var id := queue[0].jobId;
    var w := Write(id, Processing);
    var rows' := UpdateWhere(rows, id, Processing, None, None, None, now);
    UpdateWhereKeepsIds(rows, id, Processing, None, None, None, now);
    DequeueIds(queue);
    assert id in QueuedIds(queue) && id in JobIds(rows);
    assert Trail(log, id) == [Pending] && JobIds(rows') == JobIds(rows) + {id};
    LogGrows(log, rows, rows', w);
    StartRowsAgree(rows, log, id, now);
    ExactlyAtAfterWrite(rows, rows', log, w, [Pending], QueuedIds(queue), QueuedIds(queue[1..]));
    ExactlyAtAfterWrite(rows, rows', log, w, [Pending, Processing], running, running + {id});
  }

  /** Finishing a running task (its terminal write) completes its job's lifecycle. */
  lemma FinishKeepsTracks(rows: seq<Job>, queue: seq<Task>, log: seq<Write>, running: set<string>,
                          jobId: string, engine: Attempt, elapsed: Duration, now: nat)
    requires Tracks(rows, queue, log, running) && jobId in running
    ensures Tracks(UpdateWhere(rows, jobId, TerminalStatus(engine), TerminalOutput(engine, jobId),
                               TerminalTime(engine, elapsed), TerminalError(engine), now),
                   queue, log + [Write(jobId, TerminalStatus(engine))], running - {jobId})
  {
    var w := Write(jobId, TerminalStatus(engine));
    var rows' := UpdateWhere(rows, jobId, TerminalStatus(engine), TerminalOutput(engine, jobId),
                             TerminalTime(engine, elapsed), TerminalError(engine), now);
    UpdateWhereKeepsIds(rows, jobId, TerminalStatus(engine), TerminalOutput(engine, jobId),
                        TerminalTime(engine, elapsed), TerminalError(engine), now);
    assert jobId in JobIds(rows) && Trail(log, jobId) == [Pending, Processing];
    assert JobIds(rows') == JobIds(rows) + {jobId};
    LogGrows(log, rows, rows', w);
    FinishRowsAgree(rows, log, jobId, engine, elapsed, now);
    ExactlyAtAfterWrite(rows, rows', log, w, [Pending], QueuedIds(queue), QueuedIds(queue));
    ExactlyAtAfterWrite(rows, rows', log, w, [Pending, Processing], running, running - {jobId});
  }

  /** The running process: its table, the background tasks not yet run, and the tasks under way. */
  class Backend {
    const db: Database
    /** Background tasks added but not yet started, oldest first. */
    var queue: seq<Task>
    /** The jobs whose task has written `processing` and not yet its terminal status. */
    ghost var running: set<string>

    /**
     * The backend's invariant: the table is well formed and every row agrees
     * with the statuses the table's own writes have given it.
     */
    ghost predicate Valid()
      reads this, db
    {
      db.Valid() && Tracks(db.rows, queue, db.log, running)
    }

    /** The process at start-up on a fresh database file: an empty table and no tasks. */
    constructor ()
      ensures Valid() && fresh(db)
      ensures db.rows == [] && db.log == [] && queue == [] && running == {}
    {
      db := new Database();
      queue := [];
      running := {};
    }

    /**
     * The part of transform_image after the upload is saved: create_job and
     * background_tasks.add_task. The task is added whatever create_job returned;
     * a job id already in the table leaves the table as it was. With a new job id
     * the invariant is kept and GET /status shows the new pending row.
     */
    method Submit(jobId: string, sessionId: string, filename: string, path: string, style: string, now: nat)
      returns (task: Task)
      requires Valid()
      modifies this`queue, db
      ensures task == Task(jobId, path, style) && queue == old(queue) + [task]
      ensures jobId in old(JobIds(db.rows)) ==>
                db.rows == old(db.rows) && db.nextRowId == old(db.nextRowId) && db.log == old(db.log)
      ensures jobId !in old(JobIds(db.rows)) ==>
                && db.rows == old(db.rows) + [Job(old(db.nextRowId), jobId, sessionId, filename, path, style,
                                                  None, Pending, None, None, now, None)]
                && db.nextRowId == old(db.nextRowId) + 1
                && db.log == old(db.log) + [Write(jobId, Pending)]
                && Valid()
                && GetJobStatus(db.rows, jobId) == Success(StatusView(db.rows[|db.rows| - 1]))
    {
      ghost var rowsBefore, logBefore := db.rows, db.log;
      ghost var row := Job(db.nextRowId, jobId, sessionId, filename, path, style, None, Pending, None, None, now, None);
      var created := db.CreateJob(jobId, sessionId, filename, path, style, now);
      task := Task(jobId, path, style);
      if created {
        NewRowAgrees(row);
        SubmitKeepsTracks(rowsBefore, queue, logBefore, running, row, task);
        StatusOfInsertedRow(rowsBefore, row);
      }
      queue := queue + [task];
    }

    /**
     * transform_image (POST /transform). A style outside the catalog or a file
     * name with a suffix that is not allowed is refused with 400 before anything
     * is saved or inserted. Otherwise the upload is saved (an exception there is
     * a 500 with nothing inserted), create_job is called with the missing or
     * empty session id replaced, one task for the job is added, and the answer is
     * `pending`, whatever create_job returned. A job id already in the table
     * leaves the table as it was but still adds the task; only with a new job id
     * is the invariant kept.
     */
    method TransformImage(style: Option<string>, filename: string, sessionId: Option<string>,
                          newJobId: string, newSessionId: string, uploadId: string,
                          save: Attempt, now: nat)
      returns (resp: Result<TransformResponse, HttpError>)
      requires Valid()
      modifies this`queue, db
      ensures CheckSubmission(StyleOrDefault(style), filename).Some? ==>
                && resp == Failure(CheckSubmission(StyleOrDefault(style), filename).value)
                && unchanged(this, db)
      ensures CheckSubmission(StyleOrDefault(style), filename).None? && save.Raised? ==>
                resp == Failure(HttpError(500, ServerError(save.message))) && unchanged(this, db)
      ensures CheckSubmission(StyleOrDefault(style), filename).None? && save.Done? ==>
                && resp == Success(TransformResponse(newJobId, Pending, SubmittedMessage))
                && queue == old(queue) + [Task(newJobId, UploadPath(uploadId, filename), StyleOrDefault(style))]
                && (newJobId in old(JobIds(db.rows)) ==>
                      db.rows == old(db.rows) && db.nextRowId == old(db.nextRowId) && db.log == old(db.log))
                && (newJobId !in old(JobIds(db.rows)) ==>
                      && db.rows == old(db.rows) + [Job(old(db.nextRowId), newJobId,
                                                        SessionOrFresh(sessionId, newSessionId),
                                                        filename, UploadPath(uploadId, filename),
                                                        StyleOrDefault(style), None, Pending, None,
                                                        None, now, None)]
                      && db.nextRowId == old(db.nextRowId) + 1
                      && db.log == old(db.log) + [Write(newJobId, Pending)])
      ensures resp.Failure? || newJobId !in old(JobIds(db.rows)) ==> Valid()
      ensures resp.Success? && newJobId !in old(JobIds(db.rows)) ==>
                GetJobStatus(db.rows, newJobId).Success? &&
                GetJobStatus(db.rows, newJobId).value.status == Pending
    {
      var s := StyleOrDefault(style);
      var rejected := CheckSubmission(s, filename);
      if rejected.Some? {
        return Failure(rejected.value);
      }
      var session := SessionOrFresh(sessionId, newSessionId);
      if save.Raised? {
        return Failure(HttpError(500, ServerError(save.message)));
      }
      var path := UploadPath(uploadId, filename);
      var _ := Submit(newJobId, session, filename, path, s, now);
      resp := Success(TransformResponse(newJobId, Pending, SubmittedMessage));
    }

    /**
     * The scheduler takes the oldest task off the queue and process_style_transfer
     * begins: it writes `processing` to the task's job. From here until the
     * terminal write, GET /status shows `processing`.
     */
    method StartStyleTransfer(now: nat) returns (task: Task)
      requires Valid() && queue != []
      modifies this`queue, this`running, db`rows, db`log
      ensures Valid()
      ensures task == old(queue[0]) && queue == old(queue[1..])
      ensures running == old(running) + {task.jobId}
      ensures db.rows == UpdateWhere(old(db.rows), task.jobId, Processing, None, None, None, now)
      ensures db.log == old(db.log) + [Write(task.jobId, Processing)]
      ensures Trail(db.log, task.jobId) == [Pending, Processing]
    {
      task := queue[0];
      StartKeepsTracks(db.rows, queue, db.log, running, now);
      queue := queue[1..];
      running := running + {task.jobId};
      var _ := db.UpdateJobStatus(task.jobId, Processing, None, None, None, now);
    }

    /**
     * The rest of process_style_transfer, after the engine has run: the
     * `completed` update with OUTPUT_DIR/{job_id}.jpg and the elapsed time when it
     * returned, the `failed` update with str(e) in the exception handler when it
     * raised. The placeholder engine sleeps and copies the upload; `engine` says
     * whether that raised, `elapsed` is the time measured around the sleep and
     * `now` the clock at the terminal write.
     */
    method FinishStyleTransfer(jobId: string, engine: Attempt, elapsed: Duration, now: nat)
      requires Valid() && jobId in running
      modifies this`running, db`rows, db`log
      ensures Valid()
      ensures running == old(running) - {jobId}
      ensures db.rows == UpdateWhere(old(db.rows), jobId, TerminalStatus(engine), TerminalOutput(engine, jobId),
                                     TerminalTime(engine, elapsed), TerminalError(engine), now)
      ensures db.log == old(db.log) + [Write(jobId, TerminalStatus(engine))]
      ensures Trail(db.log, jobId) == [Pending, Processing, TerminalStatus(engine)]
    {
      FinishKeepsTracks(db.rows, queue, db.log, running, jobId, engine, elapsed, now);
      running := running - {jobId};
      if engine.Done? {
        var _ := db.UpdateJobStatus(jobId, Completed, Some(OutputPathFor(jobId)), Some(elapsed), None, now);
      } else {
        var _ := db.UpdateJobStatus(jobId, Failed, None, None, Some(engine.message), now);
      }
    }

    /**
     * The oldest task run from start to finish with no request in between: its
     * job receives exactly the writes `processing` and one terminal status, in
     * that order, and no other job changes (RunnerRowsAt).
     */
    method RunNextTask(engine: Attempt, elapsed: Duration, now: nat) returns (task: Task)
      requires Valid() && queue != []
      modifies this`queue, this`running, db`rows, db`log
      ensures Valid()
      ensures task == old(queue[0]) && queue == old(queue[1..]) && running == old(running)
      ensures db.log == old(db.log) + [Write(task.jobId, Processing)] + [Write(task.jobId, TerminalStatus(engine))]
      ensures db.rows == RunnerRows(old(db.rows), task.jobId, engine, elapsed, now)
      ensures Trail(db.log, task.jobId) == [Pending, Processing, TerminalStatus(engine)]
    {
      QueuedHeadIsPending(db.rows, queue, db.log, running);
      task := StartStyleTransfer(now);
      FinishStyleTransfer(task.jobId, engine, elapsed, now);
    }
  }

  // ---------------------------------------------------------------------------
  // Queries

  /**
   * JobStatus(**job): of a row, GET /status shows its job id, status, style,
   * the two timestamps, the processing time, the output path and the error, and
   * not its session, file name or upload path.
   */
  function StatusView(j: Job): (v: JobStatusView)
    ensures v.jobId == j.jobId && v.status == j.status && v.styleName == j.styleName
    ensures v.createdAt == j.createdAt && v.completedAt == j.completedAt
    ensures v.processingTime == j.processingTime && v.outputPath == j.outputPath
    ensures v.errorMessage == j.errorMessage
  {
    JobStatusView(j.jobId, j.status, j.styleName, j.createdAt, j.completedAt,
                  j.processingTime, j.outputPath, j.errorMessage)
  }

  /** get_job_status (GET /status/{job_id}): the job's columns, or 404 exactly when no row has that id. */
  function GetJobStatus(rows: seq<Job>, jobId: string): (r: Result<JobStatusView, HttpError>)
    ensures r.Failure? <==> jobId !in JobIds(rows)
    ensures r.Failure? ==> r.error == HttpError(404, JobNotFound)
    ensures r.Success? ==> r.value.jobId == jobId && exists j :: j in rows && j.jobId == jobId && r.value == StatusView(j)
  {
    match GetJob(rows, jobId)
    case None => Failure(HttpError(404, JobNotFound))
    case Some(j) => Success(StatusView(j))
  }

  /** Once a row with a new job id is inserted, GET /status shows that row. */
  lemma StatusOfInsertedRow(rows: seq<Job>, row: Job)
    requires UniqueJobIds(rows + [row])
    ensures GetJobStatus(rows + [row], row.jobId) == Success(StatusView(row))
  {
    assert (rows + [row])[|rows|] == row;
  }

  /**
   * get_result (GET /result/{job_id}), checked in this order: unknown id is 404;
   * a status other than completed is 400 naming it; a NULL output path makes
   * Path(None) raise an exception nobody catches, a 500; an output file that
   * does not exist is 404; only then is the file served. `files` is the set of
   * paths that exist.
   */
  function GetResult(rows: seq<Job>, files: set<string>, jobId: string): (r: Result<FileResponse, HttpError>)
    ensures r == Failure(HttpError(404, JobNotFound)) <==> jobId !in JobIds(rows)
    ensures var job := GetJob(rows, jobId);
            job.Some? && job.value.status != Completed ==>
              r == Failure(HttpError(400, NotCompleted(job.value.status)))
    ensures var job := GetJob(rows, jobId);
            r == Failure(HttpError(500, InternalError)) <==>
              job.Some? && job.value.status == Completed && job.value.outputPath.None?
    ensures var job := GetJob(rows, jobId);
            r.Success? <==> job.Some? && job.value.status == Completed &&
                            job.value.outputPath.Some? && job.value.outputPath.value in files
    ensures var job := GetJob(rows, jobId);
            r.Success? ==> r.value == FileResponse(job.value.outputPath.value, "image/jpeg",
                                                   "stylized_" + jobId + ".jpg")
    ensures var job := GetJob(rows, jobId);
            r == Failure(HttpError(404, ResultFileNotFound)) <==>
              job.Some? && job.value.status == Completed &&
              job.value.outputPath.Some? && job.value.outputPath.value !in files
  {
    match GetJob(rows, jobId)
    case None => Failure(HttpError(404, JobNotFound))
    case Some(job) =>
      if job.status != Completed then Failure(HttpError(400, NotCompleted(job.status)))
      else match job.outputPath
        case None => Failure(HttpError(500, InternalError))
        case Some(p) =>
          if p !in files then Failure(HttpError(404, ResultFileNotFound))
          else Success(FileResponse(p, "image/jpeg", "stylized_" + jobId + ".jpg"))
  }

  /** get_history (GET /history/{session_id}): the session's rows newest first, and their number. */
  function GetHistory(rows: seq<Job>, sessionId: string): (h: History)
    ensures h.sessionId == sessionId && h.count == |h.transformations|
    ensures NewestFirst(h.transformations)
    ensures forall x :: x in h.transformations <==> x in rows && x.sessionId == sessionId
  {
    var t := GetSessionHistory(rows, sessionId);
    History(sessionId, |t|, t)
  }

  /** get_gallery (GET /gallery): recent completed rows, 20 unless the request says otherwise, and their number. */
  function GetGallery(rows: seq<Job>, limit: Option<int>): (g: Gallery)
    ensures g.count == |g.transformations|
    ensures forall x :: x in g.transformations ==> x in rows && x.status == Completed
    ensures NewestFirst(g.transformations)
    ensures limit.None? ==> |g.transformations| <= DefaultGalleryLimit
    ensures limit.Some? && 0 <= limit.value ==> |g.transformations| <= limit.value
  {
    var n := match limit case None => DefaultGalleryLimit case Some(k) => k;
    var t := GetAllTransformations(rows, n);
    Gallery(|t|, t)
  }

  // ---------------------------------------------------------------------------
  // What the invariant gives the readers

  /**
   * Under the bookkeeping, a job's row agrees with its history, and the history
   * is exactly [pending] while queued and [pending, processing] while running.
   */
  lemma TrackedRow(rows: seq<Job>, queue: seq<Task>, log: seq<Write>, running: set<string>, jobId: string)
    requires Tracks(rows, queue, log, running) && jobId in JobIds(rows)
    ensures GetJob(rows, jobId).Some? && RowAgrees(GetJob(rows, jobId).value, Trail(log, jobId))
    ensures GetJob(rows, jobId).value.status == Pending ==> jobId in QueuedIds(queue)
    ensures GetJob(rows, jobId).value.status == Processing ==> jobId in running
  {
    var j := GetJob(rows, jobId).value;
    var i :| 0 <= i < |rows| && rows[i] == j;
    var t := Trail(log, jobId);
    assert RowAgrees(rows[i], t);
    TrajectoryByLast(t);
    if j.status == Pending {
      assert t == [Pending];
    } else if j.status == Processing {
      assert t == [Pending, Processing];
    }
  }

  /**
   * What GET /status shows of any job is the last status the table's writes
   * gave it, those statuses are a forward-only lifecycle, and the columns fit
   * the status: completed has its output file and timing, failed its error.
   * A pending job's task is still queued; a processing job's task is under way.
   */
  lemma ObservedStatusFollowsLifecycle(b: Backend, jobId: string)
    requires b.Valid()
    requires jobId in JobIds(b.db.rows)
    ensures var trail := Trail(b.db.log, jobId);
            var view := GetJobStatus(b.db.rows, jobId);
            && view.Success? && Trajectory(trail) && trail != []
            && view.value.status == trail[|trail| - 1]
            && (view.value.status == Pending ==> jobId in QueuedIds(b.queue))
            && (view.value.status == Processing ==> jobId in b.running)
            && (view.value.status == Completed ==>
                  view.value.outputPath == Some(OutputPathFor(jobId)) && view.value.errorMessage == None)
            && (view.value.status == Failed ==> view.value.errorMessage.Some? && view.value.outputPath == None)
  {
    TrackedRow(b.db.rows, b.queue, b.db.log, b.running, jobId);
  }

  /**
   * For a job of this backend, GET /result never fails with 500: a completed
   * job is served from OUTPUT_DIR/{job_id}.jpg or, when that file is gone, is 404.
   */
  lemma ResultOfCompletedJob(b: Backend, files: set<string>, jobId: string)
    requires b.Valid()
    ensures GetResult(b.db.rows, files, jobId).Failure? ==>
              GetResult(b.db.rows, files, jobId).error.statusCode != 500
    ensures var job := GetJob(b.db.rows, jobId);
            job.Some? && job.value.status == Completed ==>
              GetResult(b.db.rows, files, jobId) ==
                if OutputPathFor(jobId) in files
                then Success(FileResponse(OutputPathFor(jobId), "image/jpeg", "stylized_" + jobId + ".jpg"))
                else Failure(HttpError(404, ResultFileNotFound))
  {
    var job := GetJob(b.db.rows, jobId);
    if job.Some? {
      var i :| 0 <= i < |b.db.rows| && b.db.rows[i] == job.value;
    }
  }
}
