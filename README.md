# mimicryML job lifecycle in Dafny

This project models the job-lifecycle core of the mimicryML backend. Its first
part is the SQLite `transformations` table of `backend/database.py`, with its
insert, its status update and its three queries. Its second part is the
orchestration in `backend/main.py`:

- POST /transform validates the style and the file suffix, saves the upload,
  inserts a `pending` row and adds one background task.
- The background task `process_style_transfer` writes `processing` and then
  exactly one terminal status, `completed` or `failed`.
- GET /status, /result, /history and /gallery read the table.

Modules:

- `Wrappers`: `Option` and `Result`.
- `Config`: the style catalog, the allowed suffixes and the two storage
  directories of `backend/config.py`.
- `Paths`: the parts of pathlib that `validate_image` and `save_upload` use,
  on POSIX paths: `.name`, `.suffix` and `str.lower()`.
- `JobDatabase`:
  - `Job` is one row of the table.
  - `Database` is a class whose `rows` field the insert and the update change
    in place. Its ghost field `log` records every status write that reached a
    row, oldest first; `Trail(log, id)` is the status history of one job.
  - The queries are functions over the rows.
- `Api`:
  - the pure checks and queries of `main.py`, with the parameter defaults of
    `main.py` (style "vangogh", gallery limit 20);
  - the `Backend` class, which holds the table, the queue of background tasks
    not yet started and the ghost set `running` of tasks under way.

`Backend.Valid()` is the invariant that every `Backend` method keeps. It
relates the rows to the histories that the store's own writes gave them:

- every write went to a row of the table;
- every row agrees with its history, and that history is a forward-only
  lifecycle (pending, processing, then completed or failed);
- a job's history is `pending` alone exactly while its one task is queued;
- it is `pending, processing` exactly while that task is running.

From this invariant the model proves what GET /status and GET /result can
observe.

The background task is modelled as two sequential steps:

- `Backend.StartStyleTransfer` takes the oldest task and writes `processing`;
- `Backend.FinishStyleTransfer` writes the terminal status.

Any other request may run between the two steps, and the invariant holds
there. `Backend.RunNextTask` runs both steps with nothing in between.

Some values are inputs of the operations:

| value | input |
|---|---|
| uuid4 values | `newJobId`, `newSessionId`, `uploadId` |
| the clock | `now`, in seconds |
| the measured processing time | `elapsed`, non-negative |
| the outcome of saving the upload | `save`, an `Attempt` |
| the outcome of the placeholder engine (sleep and copy) | `engine`, an `Attempt` |
| the set of existing files | `files` |

## Model

| member | source | states |
|---|---|---|
| JobDatabase.Database.constructor | backend/database.py:19-34 | init_db on a fresh file: an empty table whose first AUTOINCREMENT id is 1, and no writes yet |
| JobDatabase.Database.CreateJob | backend/database.py:44-58 | inserts exactly one row for a new job id: given id, session, file name, path and style; status pending; output, time, error and completion NULL; created_at the clock; earlier rows untouched; one `pending` write logged. A duplicate id (UNIQUE on job_id) returns false and leaves table, id counter and log unchanged. Job ids stay unique |
| JobDatabase.SetColumns | backend/database.py:68-86 | the SET clause according to the target status. completed sets status, output path, time and completed_at and keeps the error. failed sets status, error and completed_at and keeps output and time. Any other status changes only the status. It never changes the identity columns and sets any status whatever the current one (no transition guard) |
| JobDatabase.UpdateWhere | backend/database.py:66-86 | WHERE job_id = ?: exactly the rows with that id get the SET clause; every other row is unchanged; the row count is kept |
| JobDatabase.UpdateWhereKeepsIds | backend/database.py:68-89 | an update keeps the set of job ids; an unknown job id leaves the table unchanged |
| JobDatabase.Database.UpdateJobStatus | backend/database.py:61-92 | the table becomes UpdateWhere of the old table, with no precondition on the current status; a write is logged exactly when a row has the id. It answers true in every case, an unknown id included, and keeps job ids unique |
| JobDatabase.Trail | backend/database.py:44-92 | the history of one job is drawn from the log of writes, so it is never longer than the log |
| JobDatabase.TrailAppend | backend/database.py:44-92 | one more write extends the history of its own job by its status and leaves every other history as it was |
| JobDatabase.TrailOfUnwritten | backend/database.py:44-58 | a job id no write went to has an empty history |
| JobDatabase.GetJob | backend/database.py:95-105 | None exactly when no row has the id; otherwise a row of the table with that id, and under UNIQUE the only one |
| JobDatabase.InsertNewestFirst | backend/database.py:115 | inserting a row into a newest-first sequence keeps it newest first and adds exactly that row to its multiset |
| JobDatabase.SortNewestFirst | backend/database.py:115 | ORDER BY created_at DESC: a newest-first permutation of its input |
| JobDatabase.Where | backend/database.py:114 | a WHERE clause keeps each row satisfying the condition as often as it occurs, and no other row |
| JobDatabase.Limit | backend/database.py:129 | LIMIT n gives a prefix of length min(n, length); a negative n gives everything |
| JobDatabase.GetSessionHistory | backend/database.py:107-118 | exactly the rows of the session, each as often as in the table, newest first |
| JobDatabase.NewestFirstSplit | backend/database.py:128-129 | a prefix of a newest-first sequence is newest first and no row left out is newer than a row kept |
| JobDatabase.GetAllTransformations | backend/database.py:120-132 | only completed rows of the table, newest first, at most `limit` of them. Every completed row is returned when the limit is not reached or is negative. No completed row left out is newer than one returned |
| Paths.AfterLastSlash | backend/main.py:95 | the start of the final segment: no '/' after it, a '/' just before it |
| Paths.Name | backend/main.py:95 | Path(p).name has no '/' and is never "."; a plain file name is its own name |
| Paths.LastDot | backend/main.py:95 | rfind('.'): the position of the last dot, or -1 when there is none |
| Paths.Suffix | backend/main.py:95 | Path(p).suffix is empty or a dot followed by at least one character without a dot or '/'. It is a proper tail of the name |
| Paths.Lower | backend/main.py:95 | str.lower() keeps the length and lower-cases each ASCII letter |
| Paths.SuffixOfStemAndExtension | backend/main.py:95 | "stem.ext" with a non-empty stem has suffix ".ext" |
| Paths.HiddenNameHasNoSuffix | backend/main.py:95 | ".ext" (a hidden file) has no suffix |
| Paths.SuffixIgnoresDirectory | backend/main.py:95 | a directory prefix does not change the suffix |
| Api.ValidateImage | backend/main.py:92-101 | success (true) exactly when the lower-cased suffix is .jpg, .jpeg or .png; otherwise 400 invalid file type |
| Api.AcceptsAllowedExtension | backend/main.py:92-101 | "stem.EXT" passes for an allowed extension in any letter case |
| Api.RejectsHiddenFile | backend/main.py:92-101 | a hidden file such as ".png" is refused with 400 |
| Api.StyleOrDefault | backend/main.py:130 | the style given is used as it is; an omitted style is the default, which is in the catalog |
| Api.CheckSubmission | backend/main.py:138-146 | accepted exactly when the style is in the catalog and the file passes validate_image; a bad style is reported first |
| Api.SessionOrFresh | backend/main.py:151-153 | a missing or empty session id becomes the generated one; a non-empty one is kept |
| Api.UploadPath | backend/main.py:106-108 | the saved upload lies in UPLOAD_DIR and its name ends with the suffix of the submitted file name |
| Api.NoDotNoSuffix | backend/main.py:106 | a file name without a dot has no suffix |
| Api.StemThenSuffix | backend/main.py:106-107 | a dot-free stem followed by a suffix has exactly that suffix |
| Api.UploadKeepsSuffix | backend/main.py:103-108 | for a uuid4 name (no dot, no slash) the saved path has the same suffix as the submitted name, so it passes validate_image exactly when the submission did |
| Api.OutputPathFor | backend/main.py:250 | the output file lies in OUTPUT_DIR |
| Api.OutputPathsDistinct | backend/main.py:250 | two different jobs never share an output file |
| Api.Backend.constructor | backend/database.py:14-37 | the backend at start-up on a fresh file: empty table, empty log, no tasks, invariant holds |
| Api.NewRowAgrees | backend/database.py:49-53 | the row create_job inserts fits status pending |
| Api.LogGrows | backend/database.py:44-92 | a write to a row of the table keeps every logged write pointing at a row |
| Api.TrailAfter | backend/database.py:44-92 | a write changes only its own job's history, by appending its status |
| Api.ExactlyAtAfterWrite | backend/main.py:157-170 | after one write, the set of jobs at a given history changes at most in the written job, and holds it exactly when its new history is that one |
| Api.InsertRowsAgree | backend/database.py:44-58 | inserting a pending row for a new job id, with its write, keeps every row in agreement with its history |
| Api.SubmitKeepsTracks | backend/main.py:157-170 | a new pending row, its write and its one task keep the backend invariant |
| Api.Backend.Submit | backend/main.py:157-170 | create_job then add_task: exactly one task (job id, path, style) is queued whatever create_job returned. The table and log are unchanged for an existing id, or gain the one pending row and its write. With a new id the invariant is kept and GET /status shows the new row |
| Api.Backend.TransformImage | backend/main.py:126-179 | A bad style or file name gives its 400 and a failed save gives a 500; in both cases nothing changes. Otherwise exactly one task (job id, saved path, style) is queued and the answer is pending, whatever create_job returned. The table, id counter and log are unchanged for an existing id, or gain the one pending row and its write. With a new id the invariant is kept and GET /status then shows pending |
| Api.TerminalStatus | backend/main.py:253-266 | the terminal write is completed exactly when the engine returns, failed when it raises |
| Api.RunOutcome | backend/main.py:242-266 | after the two writes the job's row keeps its identity columns and gets completed_at. completed has OUTPUT_DIR/{job_id}.jpg and the elapsed time. failed has str(e) and keeps output and time |
| Api.RunnerRowsAt | backend/main.py:242-266 | the runner's two updates (RunnerRows) turn its job's row into RunOutcome and change no other row |
| Api.TrajectoryMovesForward | backend/main.py:240-266 | along a lifecycle the status only moves forward, and a terminal status is only ever last |
| Api.TrajectoryByLast | backend/main.py:240-266 | a lifecycle is determined by its last status: pending alone, pending then processing, or the full three |
| Api.DequeueIds | backend/main.py:170 | the oldest task's job is queued once; the rest of the queue is for other jobs |
| Api.QueuedHeadIsPending | backend/main.py:170 | the job of the oldest queued task has only its pending write and is not running |
| Api.ProcessingRowAgrees | backend/main.py:242 | the processing update of a pending row fits the history pending, processing |
| Api.TerminalRowAgrees | backend/main.py:253-266 | the terminal update of a processing row fits its complete lifecycle |
| Api.StartRowsAgree | backend/main.py:242 | the processing update with its write keeps every row in agreement with its history |
| Api.FinishRowsAgree | backend/main.py:253-266 | the terminal update with its write keeps every row in agreement with its history |
| Api.StartKeepsTracks | backend/main.py:240-242 | the processing write of the oldest task moves its job from queued to running and keeps the invariant |
| Api.FinishKeepsTracks | backend/main.py:244-266 | the terminal write of a running task completes its job's lifecycle, takes it out of running and keeps the invariant |
| Api.Backend.StartStyleTransfer | backend/main.py:240-242 | the oldest task leaves the queue and becomes running. The table is the processing update of its job. Exactly one write (that job, processing) is logged, and its history is pending, processing. The invariant holds, so GET /status can observe processing |
| Api.Backend.FinishStyleTransfer | backend/main.py:244-266 | for a running job: the completed update with OUTPUT_DIR/{job_id}.jpg and the elapsed time, or the failed update with str(e). Exactly one write (that job, the terminal status) is logged. Its history is then a complete lifecycle, it is no longer running, and the invariant holds |
| Api.Backend.RunNextTask | backend/main.py:235-266 | the oldest task runs with no request in between. The queue loses its head and the running set is as before. The log grows by exactly processing and then the terminal status for that job. The table becomes RunnerRows of the old table, and the invariant is kept |
| Api.StatusView | backend/main.py:81-89 | JobStatus(**job) shows the row's job id, status, style, timestamps, processing time, output path and error |
| Api.GetJobStatus | backend/main.py:181-189 | 404 exactly when no row has the id; otherwise the columns of a row with that id |
| Api.StatusOfInsertedRow | backend/main.py:181-189 | after a row with a new job id is inserted, GET /status shows that row |
| Api.GetResult | backend/main.py:191-213 | checks in order: unknown id 404; status not completed 400 naming it; NULL output path an uncaught 500 (exactly then); missing file 404. Only a completed job with an existing output file is served, as image/jpeg named stylized_{job_id}.jpg |
| Api.GetHistory | backend/main.py:215-223 | count equals the number of rows returned; exactly the session's rows, newest first |
| Api.GetGallery | backend/main.py:225-232 | count equals the number returned; only completed rows, newest first; at most 20 by default, at most the given non-negative limit |
| Api.TrackedRow | backend/main.py:181-189 | under the invariant a job's row agrees with its history; a pending job's task is queued and a processing job's task is running |
| Api.ObservedStatusFollowsLifecycle | backend/main.py:181-189 | For any job of a backend that keeps its invariant, GET /status shows the last status written. The statuses written form a forward-only lifecycle. A pending job's task is queued; a processing job's task is under way. A completed job shows its output file and no error. A failed job shows an error and no output |
| Api.ResultOfCompletedJob | backend/main.py:191-213 | for a backend that keeps its invariant, GET /result never answers 500; a completed job is served from OUTPUT_DIR/{job_id}.jpg, or is 404 when that file is gone |

## Left out

- Asynchronous execution and BackgroundTasks scheduling (backend/main.py:170): a queued task is started by `Backend.StartStyleTransfer` and finished by `Backend.FinishStyleTransfer`. Other requests may run in between, but each job has a single writer.
- Restarts: only a fresh database file is modelled. After a restart, CREATE TABLE IF NOT EXISTS keeps the old rows while the queued BackgroundTasks are lost, so pending rows would remain with no task to run them. The model does not represent this state.
- SQLite connections, SQL text and failures of the database file: the table is an in-memory sequence of rows. An insert can fail only on a duplicate job id. An update never fails, so the `False` branch of update_job_status (backend/database.py:90-92) is not modelled.
- Timestamps: CURRENT_TIMESTAMP, created_at and completed_at are a clock reading in whole seconds passed in as `now`. Rows with equal created_at may come back in either order, so only ordering by created_at is stated, not a tie order.
- The upload, the copy of the output file and the existence check are file I/O. Saving is an `Attempt` input and existing files are a set of paths.
- File paths are relative: UPLOAD_DIR and OUTPUT_DIR are written "uploads" and "outputs", without the installation's absolute BASE_DIR.
- Api.Backend.FinishStyleTransfer: the elapsed time is a non-negative input. The wall clock behind `time.time()`, which could step backwards, is not modelled.
- The engine: the placeholder in backend/main.py sleeps and copies the upload. It is an `Attempt` that returns or raises with a message. backend/style_transfer.py (TensorFlow Hub, PIL, float image work) is not part of this model, and main.py does not call it.
- The text of the HTTP error details is replaced by a `Reason` value, one per distinct error. The `TypeError` that `Path(None)` raises is not caught by get_result, so the framework answers with its generic 500 "Internal Server Error". That answer is modelled as `InternalError`, with no text.
- Api.StatusView: the optional fields of JobStatus (`completed_at: str = None` and the like) are read as Optional, as pydantic v1 does. Under pydantic v2 a NULL in such a column would fail validation; this is not modelled. created_at is a clock reading, not the SQLite text.
- Paths.Lower: lower-cases ASCII letters only; Unicode case mapping is not modelled.
- Paths.Name: POSIX paths only; Windows separators and drive letters are not modelled.
- Api.ValidateImage: the file name is always a string; an upload without a file name (None) is not modelled.
- Api.Backend.TransformImage: the invariant is promised only when the generated job id is new. With a duplicate id, create_job's failure is ignored and a second task for the existing job is queued. That task would run the job again. A fresh uuid4 makes this case practically unreachable.
- GET /styles, the Streamlit frontend, the download and sample-drawing utilities, and directory creation in backend/config.py are outside the job core. backend/config.py is read only for its constants.
- The default limit 50 of get_all_transformations (backend/database.py:121) is never used, because GET /gallery always passes its own limit (default 20).

## Notes on the source

- update_job_status has no guard on the current status. The forward-only lifecycle is therefore proved from the runner's write sequence and the single writer per job, not from the store.
- A negative gallery limit reaches SQLite's LIMIT unchanged, and a negative LIMIT returns every completed row.
- A hidden file such as ".png" has no pathlib suffix, so it is refused, while "a.PNG" is accepted.
- A completed row with a NULL output path would make GET /result fail with 500. The backend invariant shows that no completed row of this backend lacks its output path.
