/**
 JOBS (jobs.cc): a fixed number of slots that a server fills and workers empty, one call at a time
 under the lock. A job that has waited longer than the timeout is dropped by the next fetch that
 meets it.
 */
module Jobs {

  datatype JobInfo = JobInfo(fd: int, buf: int, bufSize: int)

  const NO_JOB := JobInfo(-1, 0, 0)

  datatype Job = Job(used: bool, info: JobInfo, start: int)

  /** The slots, and what has become of the jobs that entered them. */
  datatype Pool = Pool(jobs: seq<Job>, accepted: multiset<JobInfo>, fetched: multiset<JobInfo>, timedOut: multiset<JobInfo>)

  function Held(job: Job): multiset<JobInfo> {
    if job.used then multiset{job.info} else multiset{}
  }

  /** The jobs waiting in slots. */
  function Waiting(jobs: seq<Job>): multiset<JobInfo> {
    if jobs == [] then multiset{} else Waiting(jobs[..|jobs| - 1]) + Held(jobs[|jobs| - 1])
  }

  /** No accepted job is lost or doubled. */
  ghost predicate Balanced(p: Pool) {
    p.accepted == p.fetched + p.timedOut + Waiting(p.jobs)
  }

  // ----- one call under the lock, as a step

  /** inject takes the first free slot, or refuses when there is none. */
  ghost predicate InjectStep(p: Pool, p': Pool, ok: bool, info: JobInfo, now: int) {
    if ok then
      exists k: nat ::
        && k < |p.jobs| && !p.jobs[k].used && (forall j | 0 <= j < k :: p.jobs[j].used)
        && p' == p.(jobs := p.jobs[k := Job(true, info, now)], accepted := p.accepted + multiset{info})
    else
      p' == p && forall j | 0 <= j < |p.jobs| :: p.jobs[j].used
  }

  function Dropped(job: Job): Job {
    if job.used then Job(false, job.info.(fd := -1), job.start) else job
  }

  /** Slots before `k` have been emptied because their jobs, if any, had expired by `now`; the others are as before. */
  ghost predicate Swept(before: seq<Job>, jobs: seq<Job>, k: nat, timeout: int, now: int) {
    && k <= |before| == |jobs|
    && (forall j | 0 <= j < k :: jobs[j] == Dropped(before[j]) && (before[j].used ==> now > before[j].start + timeout))
    && (forall j | k <= j < |before| :: jobs[j] == before[j])
  }

  /**
   fetch sweeps up to slot `k` and takes the job there, which has not expired; with `k` past the last
   slot there was nothing to take.
   */
  ghost predicate FetchStep(p: Pool, p': Pool, timeout: int, k: nat, got: JobInfo, now: int) {
    exists swept :: Swept(p.jobs, swept, k, timeout, now)
      && p'.accepted == p.accepted && p'.timedOut == p.timedOut + Waiting(p.jobs[..k])
      && if k < |p.jobs| then
           && p.jobs[k].used && now <= p.jobs[k].start + timeout && got == p.jobs[k].info
           && p'.jobs == swept[k := p.jobs[k].(used := false)] && p'.fetched == p.fetched + multiset{got}
         else
           got == NO_JOB && p'.jobs == swept && p'.fetched == p.fetched
  }

  /** Slot `j` holds a job and all jobs before it have expired by `now`. */
  ghost predicate FirstMet(jobs: seq<Job>, j: nat, timeout: int, now: int) {
    j < |jobs| && jobs[j].used && forall n | 0 <= n < j && jobs[n].used :: now > jobs[n].start + timeout
  }

  /** The first job a fetch meets is returned when it has waited no longer than the timeout, and dropped otherwise. */
  lemma FetchFirstMet(p: Pool, p': Pool, timeout: int, k: nat, got: JobInfo, now: int, j: nat)
    requires FetchStep(p, p', timeout, k, got, now) && FirstMet(p.jobs, j, timeout, now)
    ensures k == j <==> now <= p.jobs[j].start + timeout
    ensures now <= p.jobs[j].start + timeout ==> got == p.jobs[j].info && p'.fetched == p.fetched + multiset{got}
    ensures |p'.jobs| == |p.jobs| && !p'.jobs[j].used
    ensures now > p.jobs[j].start + timeout ==> k > j && p'.jobs[j].info.fd == -1
  {
  }

  /** A job injected at `t` starts to wait then, in a slot that was free. */
  lemma InjectedWaits(p: Pool, p': Pool, info: JobInfo, t: int) returns (j: nat)
    requires InjectStep(p, p', true, info, t)
    ensures j < |p.jobs| == |p'.jobs| && !p.jobs[j].used && p'.jobs[j] == Job(true, info, t)
    ensures forall n | 0 <= n < |p.jobs| && n != j :: p'.jobs[n] == p.jobs[n]
    ensures forall n | 0 <= n < j :: p.jobs[n].used
  {
    j :| j < |p.jobs| && !p.jobs[j].used && (forall n | 0 <= n < j :: p.jobs[n].used)
      && p' == p.(jobs := p.jobs[j := Job(true, info, t)], accepted := p.accepted + multiset{info});
  }

  /** A job put into an empty pool at `t` is what a fetch at `now` returns, if and only if `now <= t + timeout`. */
  lemma InjectThenFetch(p: Pool, p': Pool, p'': Pool, info: JobInfo, t: int, timeout: int, k: nat, got: JobInfo, now: int)
    requires (forall n | 0 <= n < |p.jobs| :: !p.jobs[n].used) && InjectStep(p, p', true, info, t)
    requires FetchStep(p', p'', timeout, k, got, now)
    ensures now <= t + timeout ==> got == info && p''.fetched == p.fetched + multiset{info}
    ensures now > t + timeout ==> got == NO_JOB && got.fd == -1
    ensures now > t + timeout ==> p''.fetched == p.fetched && p''.timedOut == p.timedOut + multiset{info}
  {
    hide Waiting;
    var j := InjectedWaits(p, p', info, t);
    assert FirstMet(p'.jobs, j, timeout, now);
    FetchFirstMet(p', p'', timeout, k, got, now, j);
    if now > t + timeout {
      assert p'.jobs[..k] == p'.jobs;
      OnlyWaits(p'.jobs, j);
    }
  }

  lemma OnlyWaits(jobs: seq<Job>, j: nat)
    requires j < |jobs| && forall n | 0 <= n < |jobs| && n != j :: !jobs[n].used
    ensures Waiting(jobs) == Held(jobs[j])
  {
    hide Waiting, Held;
    WaitingAround(jobs, j);
    NoneWaiting(jobs[..j]);
    NoneWaiting(jobs[j + 1..]);
  }

  ghost predicate Step(p: Pool, p': Pool, timeout: int) {
    || (exists ok, info, now :: InjectStep(p, p', ok, info, now))
    || (exists k: nat, got, now :: FetchStep(p, p', timeout, k, got, now))
  }

  lemma {:induction false} WaitingJoin(a: seq<Job>, b: seq<Job>)
    ensures Waiting(a + b) == Waiting(a) + Waiting(b)
  {
    hide Held;
    if b == [] {
      assert a + b == a;
    } else {
      var n := |b| - 1;
      WaitingJoin(a, b[..n]);
      assert (a + b)[..|a + b| - 1] == a + b[..n] && (a + b)[|a + b| - 1] == b[n];
    }
  }

  /** The slot `k`, those before it and those behind it. */
  lemma WaitingAround(jobs: seq<Job>, k: nat)
    requires k < |jobs|
    ensures Waiting(jobs) == Waiting(jobs[..k]) + Held(jobs[k]) + Waiting(jobs[k + 1..])
  {
    hide Held;
    var front, one, back := jobs[..k], [jobs[k]], jobs[k + 1..];
    assert jobs == (front + one) + back;
    assert (front + one)[..k] == front && (front + one)[k] == jobs[k];
    WaitingJoin(front + one, back);
  }

  lemma {:induction false} NoneWaiting(jobs: seq<Job>)
    requires forall j | 0 <= j < |jobs| :: !jobs[j].used
    ensures Waiting(jobs) == multiset{}
  {
    if jobs != [] { NoneWaiting(jobs[..|jobs| - 1]); }
  }

  lemma WaitingNext(jobs: seq<Job>, k: nat)
    requires k < |jobs|
    ensures Waiting(jobs[..k + 1]) == Waiting(jobs[..k]) + Held(jobs[k])
  {
    assert jobs[..k + 1][..k] == jobs[..k];
  }

  lemma InjectBalances(p: Pool, p': Pool, ok: bool, info: JobInfo, now: int)
    requires Balanced(p) && InjectStep(p, p', ok, info, now)
    ensures Balanced(p') && |p'.jobs| == |p.jobs|
  {
    hide Waiting;
    if ok {
      var job := Job(true, info, now);
      var k: nat :| k < |p.jobs| && !p.jobs[k].used && p' == p.(jobs := p.jobs[k := job], accepted := p.accepted + multiset{info});
      WaitingAround(p.jobs, k);
      WaitingAround(p'.jobs, k);
      assert p'.jobs[..k] == p.jobs[..k] && p'.jobs[k + 1..] == p.jobs[k + 1..];
      assert Waiting(p'.jobs) == Waiting(p.jobs) + multiset{info};
    }
  }

  lemma FetchBalances(p: Pool, p': Pool, timeout: int, k: nat, got: JobInfo, now: int)
    requires Balanced(p) && FetchStep(p, p', timeout, k, got, now)
    ensures Balanced(p') && |p'.jobs| == |p.jobs|
  {
    hide Waiting;
    NoneWaiting(p'.jobs[..k]);
    var w := Waiting(p.jobs[..k]);
    if k < |p.jobs| {
      WaitingAround(p.jobs, k);
      WaitingAround(p'.jobs, k);
      assert p'.jobs[k + 1..] == p.jobs[k + 1..];
      assert Waiting(p.jobs) == w + multiset{got} + Waiting(p'.jobs);
    } else {
      assert p.jobs[..k] == p.jobs && p'.jobs[..k] == p'.jobs;
      assert Waiting(p.jobs) == w + Waiting(p'.jobs);
    }
  }

  lemma SweepOne(before: seq<Job>, jobs: seq<Job>, k: nat, timeout: int, earlier: int, now: int)
    requires Swept(before, jobs, k, timeout, earlier) && k < |before| && earlier <= now
    requires before[k].used ==> now > before[k].start + timeout
    ensures jobs[k] == before[k] && Swept(before, jobs[k := Dropped(jobs[k])], k + 1, timeout, now)
    ensures !before[k].used ==> jobs[k := Dropped(jobs[k])] == jobs
  {
  }

  /** Over every interleaving of calls the jobs stay accounted for and the slots stay as many. */
  lemma {:induction false} RunBalances(run: seq<Pool>, timeout: int, i: nat)
    requires i < |run| && Balanced(run[0])
    requires forall j | 0 <= j < |run| - 1 :: Step(run[j], run[j + 1], timeout)
    ensures Balanced(run[i]) && |run[i].jobs| == |run[0].jobs|
  {
    if i > 0 {
      RunBalances(run, timeout, i - 1);
      var p, p' := run[i - 1], run[i];
      assert Step(run[i - 1], run[i - 1 + 1], timeout);
      if exists ok, info, now :: InjectStep(p, p', ok, info, now) {
        var ok, info, now :| InjectStep(p, p', ok, info, now);
        InjectBalances(p, p', ok, info, now);
      } else {
        var k: nat, got, now :| FetchStep(p, p', timeout, k, got, now);
        FetchBalances(p, p', timeout, k, got, now);
      }
    }
  }

  class JobQueue {
    var jobs: seq<Job>
    const timeout: int
    var clock: int
    ghost var accepted: multiset<JobInfo>
    ghost var fetched: multiset<JobInfo>
    ghost var timedOut: multiset<JobInfo>

    ghost function State(): Pool
      reads this
    {
      Pool(jobs, accepted, fetched, timedOut)
    }

    /** init */
    constructor (size: nat, timeout: int, clock: int)
      ensures Balanced(State()) && |jobs| == size && this.timeout == timeout
      ensures forall j | 0 <= j < size :: !jobs[j].used
    {
      jobs := seq(size, _ => Job(false, NO_JOB, 0));
      this.timeout, this.clock := timeout, clock;
      accepted, fetched, timedOut := multiset{}, multiset{}, multiset{};
      new;
      NoneWaiting(jobs);
    }

    /** time(NULL): never earlier than last time. */
    method Time() returns (now: int)
      modifies this`clock
      ensures now == clock >= old(clock)
    {
      now :| now >= clock;
      clock := now;
    }

    method Inject(info: JobInfo) returns (ok: bool)
      modifies this`jobs, this`clock, this`accepted
      ensures InjectStep(old(State()), State(), ok, info, clock)
      ensures ok <==> exists j :: 0 <= j < |old(jobs)| && !old(jobs)[j].used
    {
      var k := 0;
      while k < |jobs| && jobs[k].used
        invariant k <= |jobs| && forall j | 0 <= j < k :: jobs[j].used
      {
        k := k + 1;
      }
      ok := k < |jobs|;
      if ok {
        var now := Time();
        jobs := jobs[k := Job(true, info, now)];
        accepted := accepted + multiset{info};
      }
    }

    /** fetch: `slot` is where the job came from, or past the end when there was none. */
    method Fetch() returns (info: JobInfo, ghost slot: nat)
      modifies this`jobs, this`clock, this`fetched, this`timedOut
      ensures FetchStep(old(State()), State(), timeout, slot, info, clock)
    {
      hide Waiting, Swept, Held;
      var k := 0;
      ghost var before := jobs;
      info := NO_JOB;
      NoneWaiting([]);
      NothingSwept(before, timeout, clock);
      while k < |jobs|
        invariant k <= |jobs| == |before| && Swept(before, jobs, k, timeout, clock)
        invariant timedOut == old(timedOut) + Waiting(before[..k]) && fetched == old(fetched) && accepted == old(accepted)
        invariant info == NO_JOB
      {
        WaitingNext(before, k);
        NextUnswept(before, jobs, k, timeout, clock);
        ghost var earlier := clock;
        if jobs[k].used {
          var now := Time();
          if now > jobs[k].start + timeout {
            SweepOne(before, jobs, k, timeout, earlier, now);
            timedOut := timedOut + Held(jobs[k]);
            jobs := jobs[k := Job(false, jobs[k].info.(fd := -1), jobs[k].start)];
          } else {
            SweptLater(before, jobs, k, timeout, earlier, now);
            info := jobs[k].info;
            jobs := jobs[k := jobs[k].(used := false)];
            fetched := fetched + multiset{info};
            break;
          }
        } else {
          SweepOne(before, jobs, k, timeout, earlier, earlier);
          assert Held(before[k]) == multiset{} by { Idle(before[k]); }
        }
        k := k + 1;
      }
      slot := k;
    }
  }

  lemma NothingSwept(jobs: seq<Job>, timeout: int, now: int)
    ensures Swept(jobs, jobs, 0, timeout, now)
  {
  }

  lemma NextUnswept(before: seq<Job>, jobs: seq<Job>, k: nat, timeout: int, now: int)
    requires Swept(before, jobs, k, timeout, now) && k < |before|
    ensures jobs[k] == before[k]
  {
  }

  lemma SweptLater(before: seq<Job>, jobs: seq<Job>, k: nat, timeout: int, earlier: int, now: int)
    requires Swept(before, jobs, k, timeout, earlier) && earlier <= now
    ensures Swept(before, jobs, k, timeout, now)
  {
  }

  lemma Idle(job: Job)
    requires !job.used
    ensures Held(job) == multiset{}
  {
  }
}
