/** The submission handler and its background worker: a rutube.ru link is
    registered as a queued job, and the worker then drives that job through
    running, progress updates and exactly one final state. The download
    itself is an input: the progress callbacks it made, in order, and the
    file name or error it returned. */
module Download {
  import opened Wrappers
  import opened Text
  import opened Jobs
  import opened ProgressReader
  import Variant
  import Sanitize
  import Pipeline

  const RequiredHost: string := "rutube.ru"
  /** The message shown for a link that is not a rutube.ru link. */
  const BadLinkMessage: string := "Введите корректную ссылку на RuTube"
  /** The caller-safe text stored in a failed job. */
  const FailureText: string := "Не удалось извлечь видео. Попробуйте позже."

  /** What the submission handler does with a request. */
  datatype Submission =
    | Redirected                            // not a POST: back to the form
    | Rejected(message: string)             // the error page
    | Accepted(jobId: string, url: string)  // the progress page; the worker starts

  /** The guard: the trimmed form value must mention rutube.ru. */
  predicate AcceptsURL(raw: string) {
    Contains(TrimSpace(raw), RequiredHost)
  }

  /** The job registered for an accepted link. */
  function QueuedJob(id: string, now: int): (j: Job)
    ensures j.id == id && j.createdAt == now && j.status == Queued
    ensures j.percent == 0.0 && j.fileName == [] && j.errorText == []
  {
    Job(id, now, Queued, 0.0, [], [])
  }

  /** DownloadHandler up to the start of the worker; `newId` and `now` are
      the fresh identifier and the clock reading. A rejected link registers
      nothing; an accepted one registers a queued job at 0 % under newId and
      hands the trimmed link to the worker. */
  method Submit(reg: Registry, isPost: bool, raw: string, newId: string, now: int)
    returns (s: Submission)
    modifies reg
    ensures !isPost ==> s == Redirected && reg.jobs == old(reg.jobs)
    ensures isPost && !AcceptsURL(raw) ==> s == Rejected(BadLinkMessage) && reg.jobs == old(reg.jobs)
    ensures isPost && AcceptsURL(raw) ==>
      && s == Accepted(newId, TrimSpace(raw))
      && reg.jobs == old(reg.jobs)[newId := QueuedJob(newId, now)]
    ensures KeyedById(old(reg.jobs)) ==> KeyedById(reg.jobs)
  {
    if !isPost {
      return Redirected;
    }
    var url := TrimSpace(raw);
    if !Contains(url, RequiredHost) {
      return Rejected(BadLinkMessage);
    }
    reg.Put(newId, QueuedJob(newId, now));
    return Accepted(newId, url);
  }

  /** The progress callback: with a known total, done/total as a percentage,
      capped at 100; nothing with an unknown (non-positive) total. There is
      no lower bound. Reals stand for float64. */
  function ProgressPercent(done: real, total: real): (r: Option<real>)
    ensures r.Some? <==> total > 0.0
    ensures r.Some? ==> r.value <= 100.0
    ensures r.Some? && done <= total ==> r.value * total == done * 100.0
    ensures r.Some? && done >= total ==> r.value == 100.0
  {
    if total > 0.0 then
      var p := (done / total) * 100.0;
      Some(if p > 100.0 then 100.0 else p)
    else None
  }

  /** The setJob update one callback causes, if any. */
  function CallUpdates(c: Call): (us: seq<Update>)
    ensures |us| <= 1
    ensures us != [] <==> c.total > 0.0
    ensures us != [] ==> us[0].SetPercent? && Some(us[0].p) == ProgressPercent(c.done, c.total)
  {
    match ProgressPercent(c.done, c.total)
    case Some(p) => [SetPercent(p)]
    case None => []
  }

  /** The setJob updates the callbacks cause, in order. */
  function PercentUpdates(calls: seq<Call>): (us: seq<Update>)
    ensures forall k :: 0 <= k < |us| ==> us[k].SetPercent? && us[k].p <= 100.0
    ensures |us| <= |calls|
  {
    if calls == [] then []
    else
      CallUpdates(calls[0]) + PercentUpdates(calls[1..])
  }

  /** The worker's last update: an error (with the fixed text) when the
      download failed or returned no name, otherwise done with the name. */
  function Closing(outcome: Result<string>): (u: Update)
    ensures u.MarkError? <==> outcome.Err? || outcome.value == []
    ensures u.MarkError? ==> u.text == FailureText
    ensures u.MarkDone? ==> outcome.Ok? && u.name == outcome.value && u.name != []
  {
    if outcome.Err? || outcome.value == [] then MarkError(FailureText) else MarkDone(outcome.value)
  }

  /** Everything the worker asks setJob to do, in order. */
  function WorkerUpdates(calls: seq<Call>, outcome: Result<string>): (us: seq<Update>)
    ensures |us| >= 2 && us[0] == StartRunning && us[|us| - 1] == Closing(outcome)
    ensures forall k :: 0 < k < |us| - 1 ==> us[k].SetPercent?
  {
    [StartRunning] + PercentUpdates(calls) + [Closing(outcome)]
  }

  /** The progress callback handed to the download (download.go 66-75). */
  method OnProgress(reg: Registry, id: string, c: Call)
    modifies reg
    ensures reg.jobs == Updated(old(reg.jobs), id, CallUpdates(c))
    ensures KeyedById(old(reg.jobs)) ==> KeyedById(reg.jobs)
  {
    var p := ProgressPercent(c.done, c.total);
    if p.Some? {
      reg.SetJob(id, SetPercent(p.value));
    } else {
      UpdatedNothing(reg.jobs, id);
    }
  }

  /** The background goroutine for job id: running at 0 %, one percent update
      per callback with a known total, then exactly one closing update. Only
      the job under id changes. */
  method RunWorker(reg: Registry, id: string, calls: seq<Call>, outcome: Result<string>)
    modifies reg
    ensures reg.jobs == Updated(old(reg.jobs), id, WorkerUpdates(calls, outcome))
    ensures KeyedById(old(reg.jobs)) ==> KeyedById(reg.jobs)
  {
    ghost var start := reg.jobs;
    reg.SetJob(id, StartRunning);
    Progress(reg, id, calls);
    UpdatedAppend(start, id, [StartRunning], PercentUpdates(calls));
    Finish(reg, id, outcome);
    UpdatedAppend(start, id, [StartRunning] + PercentUpdates(calls), [Closing(outcome)]);
    if KeyedById(start) {
      UpdatedKeyed(start, id, WorkerUpdates(calls, outcome));
    }
  }

  /** The worker goroutine together with the download it runs: the job is
      set running, ExtractMP4WithProgress runs with OnProgress as its
      callback, and its outcome closes the job. The download never touches
      the registry, so its callbacks can be applied after it returns. If
      resolveURL panics, in pickBestVariant or while the duration is summed,
      the goroutine, and with it the server, stops: the job is left running. */
  method Work(reg: Registry, id: string, videoURL: string, st: Pipeline.Strategies,
              manifest: HttpReply<Variant.Manifest>, join: (string, string) -> Option<string>,
              duration: Pipeline.Duration, unix: int, mkdirOk: bool, started: bool, pieces: seq<string>,
              exitOk: bool, parse: string -> Option<real>)
    returns (outcome: Result<string>, calls: seq<Call>)
    modifies reg
    requires MinInt64 <= unix <= MaxInt64
    ensures outcome != Err(Panicked) ==> reg.jobs == Updated(old(reg.jobs), id, WorkerUpdates(calls, outcome))
    ensures outcome == Err(Panicked) ==> reg.jobs == Updated(old(reg.jobs), id, [StartRunning])
    ensures outcome.Ok? ==> Pipeline.Prepared(videoURL, st, manifest, mkdirOk) && started && exitOk
    ensures outcome.Ok? ==> outcome.value == Sanitize.FileName(Pipeline.Options(st).value.title, unix)
    ensures outcome.Ok? && id in old(reg.jobs) ==>
      reg.jobs[id].status == Done && reg.jobs[id].fileName == outcome.value
    ensures KeyedById(old(reg.jobs)) ==> KeyedById(reg.jobs)
  {
    outcome, calls := Pipeline.ExtractMP4WithProgress(videoURL, st, manifest, join, duration, unix,
                                                      mkdirOk, started, pieces, exitOk, parse);
    if outcome == Err(Panicked) {
      reg.SetJob(id, StartRunning);
      return;
    }
    ghost var start := reg.jobs;
    RunWorker(reg, id, calls, outcome);
    if outcome.Ok? && id in start {
      WorkerSucceeds(start[id], calls, outcome.value);
    }
  }

  /** The download's callbacks, one after the other, in order. */
  method Progress(reg: Registry, id: string, calls: seq<Call>)
    modifies reg
    ensures reg.jobs == Updated(old(reg.jobs), id, PercentUpdates(calls))
  {
    ghost var start := reg.jobs;
    UpdatedNothing(start, id);
    var k := 0;
    while k < |calls|
      invariant 0 <= k <= |calls|
      invariant reg.jobs == Updated(start, id, PercentUpdates(calls[..k]))
    {
      OnProgress(reg, id, calls[k]);
      UpdatedAppend(start, id, PercentUpdates(calls[..k]), CallUpdates(calls[k]));
      PercentUpdatesSnoc(calls[..k], calls[k]);
      assert calls[..k + 1] == calls[..k] + [calls[k]];
      k := k + 1;
    }
    assert calls[..|calls|] == calls;
  }

  /** The closing setJob: an error with the fixed text when the download
      failed or returned no name, otherwise done with the name. */
  method Finish(reg: Registry, id: string, outcome: Result<string>)
    modifies reg
    ensures reg.jobs == Updated(old(reg.jobs), id, [Closing(outcome)])
  {
    if outcome.Err? || outcome.value == [] {
      reg.SetJob(id, MarkError(FailureText));
    } else {
      reg.SetJob(id, MarkDone(outcome.value));
    }
  }

  // ---- lemmas ----------------------------------------------------------

  lemma {:induction false} PercentUpdatesSnoc(calls: seq<Call>, c: Call)
    ensures PercentUpdates(calls + [c]) == PercentUpdates(calls) + CallUpdates(c)
    decreases |calls|
  {
    if calls == [] {
      assert calls + [c] == [c];
    } else {
      assert (calls + [c])[1..] == calls[1..] + [c];
      PercentUpdatesSnoc(calls[1..], c);
    }
  }

  /** Every state the job passes through between the first and the last
      update is running, and its percent never exceeds 100. */
  lemma WorkerIntermediateStates(j: Job, calls: seq<Call>, outcome: Result<string>, n: nat)
    requires 1 <= n < |WorkerUpdates(calls, outcome)|
    ensures ApplyAll(j, WorkerUpdates(calls, outcome)[..n]).status == Running
    ensures ApplyAll(j, WorkerUpdates(calls, outcome)[..n]).percent <= 100.0
  {
    var us := WorkerUpdates(calls, outcome);
    var middle := us[1..n];
    assert us[..n] == [StartRunning] + middle;
    assert forall k :: 0 <= k < |middle| ==> middle[k] == us[k + 1];
    ApplyAllAppend(j, [StartRunning], middle);
    var running := Apply(j, StartRunning);
    assert ApplyAll(j, [StartRunning]) == running;
    PercentUpdatesOnly(running, middle);
    if middle != [] {
      assert middle[|middle| - 1] == us[n - 1];
      PercentBounded(calls, outcome, n - 1);
    }
  }

  /** The percent updates of the worker are at most 100. */
  lemma PercentBounded(calls: seq<Call>, outcome: Result<string>, k: nat)
    requires 0 < k < |WorkerUpdates(calls, outcome)| - 1
    ensures WorkerUpdates(calls, outcome)[k].SetPercent?
    ensures WorkerUpdates(calls, outcome)[k].p <= 100.0
  {
    var pu := PercentUpdates(calls);
    assert WorkerUpdates(calls, outcome)[k] == pu[k - 1];
  }

  /** A download that returned a name ends its job as done, at 100 %, with
      that name; the error text stays as it was. */
  lemma WorkerSucceeds(j: Job, calls: seq<Call>, name: string)
    requires name != []
    ensures var r := ApplyAll(j, WorkerUpdates(calls, Ok(name)));
      r.status == Done && r.percent == 100.0 && r.fileName == name && r.errorText == j.errorText
      && r.id == j.id && r.createdAt == j.createdAt
  {
    WorkerEnds(j, calls, Ok(name));
  }

  /** A failed download, or one that returned no name, ends its job as an
      error with the fixed text; the file name stays as it was and the
      percent is the last one set (0 when no callback had a known total). */
  lemma WorkerFails(j: Job, calls: seq<Call>, outcome: Result<string>)
    requires outcome.Err? || outcome.value == []
    ensures var r := ApplyAll(j, WorkerUpdates(calls, outcome));
      var pu := PercentUpdates(calls);
      && r.status == Error && r.errorText == FailureText && r.fileName == j.fileName
      && r.percent == (if pu == [] then 0.0 else pu[|pu| - 1].p)
  {
    WorkerEnds(j, calls, outcome);
  }

  /** The job after the worker: the closing update applied to the running
      job carrying the last percent. */
  lemma WorkerEnds(j: Job, calls: seq<Call>, outcome: Result<string>)
    ensures var pu := PercentUpdates(calls);
      var running := j.(status := Running, percent := if pu == [] then 0.0 else pu[|pu| - 1].p);
      ApplyAll(j, WorkerUpdates(calls, outcome)) == Apply(running, Closing(outcome))
  {
    var pu := PercentUpdates(calls);
    var c := Closing(outcome);
    ApplyAllAppend(j, [StartRunning], pu);
    ApplyAllAppend(j, [StartRunning] + pu, [c]);
    assert ApplyAll(j, [StartRunning]) == Apply(j, StartRunning);
    PercentUpdatesOnly(Apply(j, StartRunning), pu);
    var before := ApplyAll(j, [StartRunning] + pu);
    assert ApplyAll(before, [c]) == Apply(before, c);
  }

  // ---- the reader goroutine is not waited for ----------------------------

  /** The updates as the code can order them: the download returns once
      cmd.Wait does, without waiting for its reader goroutine, so the
      reader's last callbacks (late) can reach setJob after the closing
      update. calls are the callbacks made before the download returned. */
  function RacyWorkerUpdates(calls: seq<Call>, late: seq<Call>, outcome: Result<string>): (us: seq<Update>)
    ensures late == [] ==> us == WorkerUpdates(calls, outcome)
    ensures |us| >= |WorkerUpdates(calls, outcome)| && us[..|WorkerUpdates(calls, outcome)|] == WorkerUpdates(calls, outcome)
    ensures forall k :: |WorkerUpdates(calls, outcome)| <= k < |us| ==> us[k].SetPercent?
  {
    WorkerUpdates(calls, outcome) + PercentUpdates(late)
  }

  /** A success whose final (10 s, 10 s) call is followed by a late reader
      callback at 5 s of 10 leaves the job done, but at 50 %. */
  lemma LateCallbackLowersDone(j: Job)
    ensures var r := ApplyAll(j, RacyWorkerUpdates([Call(10.0, 10.0)], [Call(5.0, 10.0)], Ok("a.mp4")));
      r.status == Done && r.fileName == "a.mp4" && r.percent == 50.0
  {
    var done := ApplyAll(j, WorkerUpdates([Call(10.0, 10.0)], Ok("a.mp4")));
    WorkerSucceeds(j, [Call(10.0, 10.0)], "a.mp4");
    ApplyAllAppend(j, WorkerUpdates([Call(10.0, 10.0)], Ok("a.mp4")), PercentUpdates([Call(5.0, 10.0)]));
    assert PercentUpdates([Call(5.0, 10.0)]) == [SetPercent(50.0)];
    PercentUpdatesOnly(done, [SetPercent(50.0)]);
  }
}
