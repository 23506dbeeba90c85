/** The registry of background downloads: a map from job id to the job's
    record, updated in place by the worker and read by the polling handler.
    The lock around it only serialises access and is not modelled; the
    calls here are taken one at a time. */
module Jobs {
  import opened Wrappers

  /** JobStatus: one of exactly four values. */
  datatype JobStatus = Queued | Running | Done | Error {
    /** The string the status is serialised as. */
    function Name(): (s: string)
      ensures s in {"queued", "running", "done", "error"}
    {
      match this
      case Queued => "queued"
      case Running => "running"
      case Done => "done"
      case Error => "error"
    }
  }

  /** A job record; createdAt is the submission time, passed in. Percent is
      a real standing for the float64 of the record. */
  datatype Job = Job(id: string, createdAt: int, status: JobStatus, percent: real,
                     fileName: string, errorText: string)

  /** The field updates the worker hands to setJob. */
  datatype Update =
    | StartRunning              // Status = running, Percent = 0
    | SetPercent(p: real)       // Percent = p
    | MarkError(text: string)   // Status = error, ErrorText = text
    | MarkDone(name: string)    // Status = done, Percent = 100, FileName = name

  /** An update writes the fields it names and leaves every other field,
      the id and the creation time included, as it was. */
  function Apply(j: Job, u: Update): (r: Job)
    ensures r.id == j.id && r.createdAt == j.createdAt
    ensures r.status == (match u
                         case StartRunning => Running
                         case MarkError(_) => Error
                         case MarkDone(_) => Done
                         case SetPercent(_) => j.status)
    ensures r.percent == (match u
                          case StartRunning => 0.0
                          case SetPercent(p) => p
                          case MarkDone(_) => 100.0
                          case MarkError(_) => j.percent)
    ensures r.fileName == (if u.MarkDone? then u.name else j.fileName)
    ensures r.errorText == (if u.MarkError? then u.text else j.errorText)
  {
    match u
    case StartRunning => j.(status := Running, percent := 0.0)
    case SetPercent(p) => j.(percent := p)
    case MarkError(text) => j.(status := Error, errorText := text)
    case MarkDone(name) => j.(status := Done, percent := 100.0, fileName := name)
  }

  /** A sequence of updates applied in order. */
  function ApplyAll(j: Job, us: seq<Update>): (r: Job)
    ensures r.id == j.id && r.createdAt == j.createdAt
    decreases |us|
  {
    if us == [] then j else ApplyAll(Apply(j, us[0]), us[1..])
  }

  /** The registry after the updates us were applied to the job under id;
      an unknown id is left alone. */
  function Updated(m: map<string, Job>, id: string, us: seq<Update>): (r: map<string, Job>)
    ensures r.Keys == m.Keys
    ensures forall k :: k in m && k != id ==> r[k] == m[k]
  {
    if id in m then m[id := ApplyAll(m[id], us)] else m
  }

  /** The answer of the polling endpoint. */
  datatype PollReply = HttpError(code: int, message: string) | JobJson(job: Job)

  const StatusBadRequest := 400
  const StatusNotFound := 404

  /** Every record is stored under its own id. */
  ghost predicate KeyedById(m: map<string, Job>) {
    forall k :: k in m ==> m[k].id == k
  }

  class Registry {
    var jobs: map<string, Job>

    constructor()
      ensures jobs == map[]
    {
      jobs := map[];
    }

    /** jobs[id] = job, as the submission handler does. */
    method Put(id: string, job: Job)
      modifies this
      ensures jobs == old(jobs)[id := job]
      ensures old(jobs).Keys <= jobs.Keys
      ensures KeyedById(old(jobs)) && job.id == id ==> KeyedById(jobs)
    {
      jobs := jobs[id := job];
    }

    /** setJob: applies the update to the job stored under id, if there is
        one; an unknown id changes nothing. No other job and no key changes. */
    method SetJob(id: string, u: Update)
      modifies this
      ensures id in old(jobs) ==> jobs == old(jobs)[id := Apply(old(jobs)[id], u)]
      ensures id !in old(jobs) ==> jobs == old(jobs)
      ensures jobs == Updated(old(jobs), id, [u])
      ensures KeyedById(old(jobs)) ==> KeyedById(jobs)
    {
      if id in jobs {
        jobs := jobs[id := Apply(jobs[id], u)];
        assert ApplyAll(old(jobs)[id], [u]) == Apply(old(jobs)[id], u);
      }
    }

    /** getJob: the stored job, or nothing for an unknown id. */
    method GetJob(id: string) returns (r: Option<Job>)
      ensures r.Some? <==> id in jobs
      ensures r.Some? ==> r.value == jobs[id]
    {
      if id in jobs {
        return Some(jobs[id]);
      }
      return None;
    }

    /** ProgressHandler: an empty id is a bad request, an unknown id is not
        found, and a known id is answered with its job. */
    method Poll(id: string) returns (reply: PollReply)
      ensures id == [] ==> reply == HttpError(StatusBadRequest, "missing id")
      ensures id != [] && id !in jobs ==> reply == HttpError(StatusNotFound, "not found")
      ensures id != [] && id in jobs ==> reply == JobJson(jobs[id])
    {
      if id == [] {
        return HttpError(StatusBadRequest, "missing id");
      }
      var j := GetJob(id);
      if j.None? {
        return HttpError(StatusNotFound, "not found");
      }
      return JobJson(j.value);
    }
  }

  // ---- lemmas ----------------------------------------------------------

  /** Applying updates one after the other is applying their concatenation. */
  lemma {:induction false} ApplyAllAppend(j: Job, us: seq<Update>, vs: seq<Update>)
    ensures ApplyAll(j, us + vs) == ApplyAll(ApplyAll(j, us), vs)
    decreases |us|
  {
    if us == [] {
      assert us + vs == vs;
    } else {
      assert (us + vs)[1..] == us[1..] + vs;
      ApplyAllAppend(Apply(j, us[0]), us[1..], vs);
    }
  }

  /** A registry updated twice is updated by the concatenation. */
  lemma UpdatedAppend(m: map<string, Job>, id: string, us: seq<Update>, vs: seq<Update>)
    ensures Updated(Updated(m, id, us), id, vs) == Updated(m, id, us + vs)
  {
    if id in m {
      ApplyAllAppend(m[id], us, vs);
    }
  }

  /** No update leaves the registry as it is. */
  lemma UpdatedNothing(m: map<string, Job>, id: string)
    ensures Updated(m, id, []) == m
  {
    if id in m {
      assert m[id := m[id]] == m;
    }
  }

  /** Updates keep every record under its own id. */
  lemma UpdatedKeyed(m: map<string, Job>, id: string, us: seq<Update>)
    requires KeyedById(m)
    ensures KeyedById(Updated(m, id, us))
  {
  }

  /** Percent updates touch nothing but the percent, and leave the last
      value set (or the old one when there is none). */
  lemma {:induction false} PercentUpdatesOnly(j: Job, us: seq<Update>)
    requires forall k :: 0 <= k < |us| ==> us[k].SetPercent?
    ensures ApplyAll(j, us) == j.(percent := if us == [] then j.percent else us[|us| - 1].p)
    decreases |us|
  {
    if us != [] {
      PercentUpdatesOnly(Apply(j, us[0]), us[1..]);
      if |us| > 1 {
        assert us[1..][|us| - 2] == us[|us| - 1];
      }
    }
  }
}
