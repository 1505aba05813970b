/**
  Handing out jobs (pkg/metastore/sql.go, workflow/jobrun): a worker first selects a waiting job and then
  updates it on the condition that it is still waiting. The two steps of many workers interleave freely
  with each other and with everything else that saves a job's status.
 */
module JobClaim {

  datatype Status = Initializing | Running | Other(name: string)

  /** The status of each job, and the job that each worker has selected and not yet updated. */
  datatype State = State(jobs: map<string, Status>, picked: map<nat, string>)

  /** The select may return any job: which one it was does not matter to the update. */
  datatype Event =
    | Select(worker: nat, job: string)
    | Update(worker: nat)
    | Save(job: string, status: Status)

  predicate Waiting(s: State, job: string) {
    job in s.jobs && s.jobs[job] == Initializing
  }

  /** The update of a worker finds its job still waiting, so that the worker gets the job. */
  predicate Hands(s: State, e: Event, job: string) {
    e.Update? && e.worker in s.picked && s.picked[e.worker] == job && Waiting(s, job)
  }

  function Step(s: State, e: Event): State {
    match e
    case Select(w, j) => s.(picked := s.picked[w := j])
    case Update(w) =>
      if w !in s.picked then s
      else
        var j, rest := s.picked[w], s.picked - {w};
        if Hands(s, e, j) then State(s.jobs[j := Running], rest) else s.(picked := rest)
    case Save(j, status) => s.(jobs := s.jobs[j := status])
  }

  /** The state after the first i events. */
  function At(s: State, es: seq<Event>, i: nat): State
    requires i <= |es|
  {
    if i == 0 then s else Step(At(s, es, i - 1), es[i - 1])
  }

  /** The job is set to initializing: when it is made, and when a controller recovers it. */
  predicate Readies(e: Event, job: string) {
    e == Save(job, Initializing)
  }

  /** How often the job was handed out in the first i events. */
  function Handed(s: State, es: seq<Event>, job: string, i: nat): nat
    requires i <= |es|
  {
    if i == 0 then 0 else Handed(s, es, job, i - 1) + One(Hands(At(s, es, i - 1), es[i - 1], job))
  }

  /** How often it was set to initializing. */
  function Readied(es: seq<Event>, job: string, i: nat): nat
    requires i <= |es|
  {
    if i == 0 then 0 else Readied(es, job, i - 1) + One(Readies(es[i - 1], job))
  }

  function One(b: bool): nat {
    if b then 1 else 0
  }

  /**
    Over every run a job is handed out at most once for each time it was set to initializing, and once
    more if it was waiting at the start; if it is waiting at the end, one of those is still left.
   */
  lemma {:induction false} HandedAtMostReadied(s: State, es: seq<Event>, job: string, i: nat)
    requires i <= |es|
    ensures Handed(s, es, job, i) + One(Waiting(At(s, es, i), job)) <= Readied(es, job, i) + One(Waiting(s, job))
    decreases i
  {
    if i > 0 { HandedAtMostReadied(s, es, job, i - 1); }
  }

  /** Event m, after i and before k, sets the job to initializing. */
  predicate ReadiedAt(es: seq<Event>, job: string, i: nat, k: nat, m: nat) {
    i < m < k <= |es| && Readies(es[m], job)
  }

  /** A job that is not waiting stays so until somebody sets it to initializing. */
  lemma {:induction false} ReadiedBetween(s: State, es: seq<Event>, job: string, i: nat, k: nat)
    requires i < k <= |es| && !Waiting(At(s, es, i + 1), job) && Waiting(At(s, es, k), job)
    ensures exists m: nat :: ReadiedAt(es, job, i, k, m)
    decreases k
  {
    if Waiting(At(s, es, k - 1), job) {
      ReadiedBetween(s, es, job, i, k - 1);
      var m: nat :| ReadiedAt(es, job, i, k - 1, m);
      assert ReadiedAt(es, job, i, k, m);
    } else {
      assert ReadiedAt(es, job, i, k, k - 1);
    }
  }

  lemma NotWaitingOnceHanded(s: State, e: Event, job: string)
    requires Hands(s, e, job)
    ensures !Waiting(Step(s, e), job)
  {
  }

  /** No two updates get the same job unless it was set to initializing in between. */
  lemma HandedOncePerReady(s: State, es: seq<Event>, job: string, i: nat, k: nat)
    requires i < k < |es| && Hands(At(s, es, i), es[i], job) && Hands(At(s, es, k), es[k], job)
    ensures exists m: nat :: ReadiedAt(es, job, i, k, m)
  {
    NotWaitingOnceHanded(At(s, es, i), es[i], job);
    ReadiedBetween(s, es, job, i, k);
  }

  // ---------------------------------------------------------------------------------------------
  // What changes a job, and who gets it
  // ---------------------------------------------------------------------------------------------

  /** Event k is about this job: it saves a status for it or hands it out. */
  predicate Concerns(s: State, es: seq<Event>, job: string, k: nat) {
    k < |es| && ((es[k].Save? && es[k].job == job) || Hands(At(s, es, k), es[k], job))
  }

  /** The status that an event about the job gives it. */
  function Given(e: Event): Status {
    if e.Save? then e.status else Running
  }

  /** A job's status changes by nothing but a save of that job or a hand-out of it. */
  lemma {:induction false} OtherwiseUnchanged(s: State, es: seq<Event>, job: string, i: nat, k: nat)
    requires i <= k <= |es| && forall m: nat :: i <= m < k ==> !Concerns(s, es, job, m)
    ensures job in At(s, es, k).jobs <==> job in At(s, es, i).jobs
    ensures job in At(s, es, i).jobs ==> At(s, es, k).jobs[job] == At(s, es, i).jobs[job]
    decreases k
  {
    if i < k {
      OtherwiseUnchanged(s, es, job, i, k - 1);
      assert !Concerns(s, es, job, k - 1);
    }
  }

  /** After event m the job has what that event gave it, until the next event about it. */
  lemma StatusIsLastGiven(s: State, es: seq<Event>, job: string, m: nat, k: nat)
    requires m < k <= |es| && Concerns(s, es, job, m)
    requires forall n: nat :: m < n < k ==> !Concerns(s, es, job, n)
    ensures job in At(s, es, k).jobs && At(s, es, k).jobs[job] == Given(es[m])
  {
    var next := m + 1;
    assert At(s, es, next) == Step(At(s, es, m), es[m]);
    OtherwiseUnchanged(s, es, job, next, k);
  }

  /** The worker selects or updates at event k. */
  predicate Acts(es: seq<Event>, w: nat, k: nat) {
    k < |es| && !es[k].Save? && es[k].worker == w
  }

  /** What a worker has selected stays selected until that worker acts again. */
  lemma {:induction false} StaysPicked(s: State, es: seq<Event>, w: nat, job: string, i: nat, k: nat)
    requires i < k <= |es| && es[i] == Select(w, job) && forall m: nat :: i < m < k ==> !Acts(es, w, m)
    ensures w in At(s, es, k).picked && At(s, es, k).picked[w] == job
    decreases k
  {
    if i < k - 1 {
      StaysPicked(s, es, w, job, i, k - 1);
      assert !Acts(es, w, k - 1);
    }
  }

  /**
    A waiting job that a worker selects is handed to that worker by its next update, unless somebody
    saved the job or got it in between; if that left the job not waiting, the update hands out nothing.
   */
  lemma SelectedIsHanded(s: State, es: seq<Event>, w: nat, job: string, i: nat, k: nat)
    requires i < k < |es| && es[i] == Select(w, job) && es[k] == Update(w)
    requires forall m: nat :: i < m < k ==> !Acts(es, w, m)
    ensures Hands(At(s, es, k), es[k], job) <==> Waiting(At(s, es, k), job)
    ensures forall other :: Hands(At(s, es, k), es[k], other) ==> other == job
    ensures Waiting(At(s, es, i), job) && (forall m: nat :: i < m < k ==> !Concerns(s, es, job, m)) ==>
              Hands(At(s, es, k), es[k], job) && At(s, es, k + 1).jobs[job] == Running
  {
    StaysPicked(s, es, w, job, i, k);
    if Waiting(At(s, es, i), job) && forall m: nat :: i < m < k ==> !Concerns(s, es, job, m) {
      assert !Concerns(s, es, job, i);
      OtherwiseUnchanged(s, es, job, i, k);
      assert At(s, es, k + 1) == Step(At(s, es, k), es[k]);
    }
  }
}
