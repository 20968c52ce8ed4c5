/**
  The thread pool of 3/threadpool.c: a bounded ring of jobs (`job_queue_t`)
  and the loops around it. A job's function pointer and argument are
  opaque here (`fn` and `arg` name them); the queue only copies them, and
  running a job is recorded rather than performed.

  The queue's mutex and condition variables are not modelled: each call is
  one atomic step, and where the source waits on `not_full` or `not_empty`
  the call reports that it would block and changes nothing.
 */
module ThreadPool {
  /** A `job_t`. */
  datatype Job = Job(fn: nat, arg: nat, poison: bool)

  /** The job `tp_poison_and_join` pushes; its function and argument are never read. */
  const POISON: Job := Job(0, 0, true)

  /** `x % m` for `x < 2 * m`: at most one subtraction. */
  lemma ModOnce(x: nat, m: nat)
    requires 0 < m && x < 2 * m
    ensures x % m == if x < m then x else x - m
  {
    if x >= m {
      var y := x - m;
      assert x == m * 1 + y && 0 <= y < m;
    } else {
      assert x == m * 0 + x;
    }
  }

  /**
    The jobs of a ring buffer `b` whose oldest job sits at `head`, `count`
    of them, oldest first: the `k`-th is at slot `(head + k) % cap`.
   */
  ghost function Ring(b: seq<Job>, head: nat, count: nat): (s: seq<Job>)
    requires head < |b| && count <= |b|
    ensures |s| == count
  {
    seq(count, k requires 0 <= k < count => b[(head + k) % |b|])
  }

  /**
    The step of `jq_push`: writing `j` at `tail = (head + count) % cap` of a
    ring that is not full adds `j` as its newest job, and the new tail is
    one further along.
   */
  lemma RingPush(b: seq<Job>, head: nat, count: nat, j: Job)
    requires head < |b| && count < |b|
    ensures var tail := (head + count) % |b|;
      && tail < |b|
      && Ring(b[tail := j], head, count + 1) == Ring(b, head, count) + [j]
      && (tail + 1) % |b| == (head + count + 1) % |b|
  {
    var cap := |b|;
    var tail := (head + count) % cap;
    ModOnce(head + count, cap);
    var b' := b[tail := j];
    var r, r' := Ring(b, head, count), Ring(b', head, count + 1);
    forall k | 0 <= k < count + 1
      ensures r'[k] == (r + [j])[k]
    {
      ModOnce(head + k, cap);
      if k < count {
        assert (head + k) % cap != tail;
      }
    }
    ModOnce(tail + 1, cap);
    ModOnce(head + count + 1, cap);
  }

  /**
    The step of `jq_pop`: the job at `head` of a ring that is not empty is
    its oldest, and moving `head` one along and counting one fewer leaves
    the others in order, with the tail where it was.
   */
  lemma RingPop(b: seq<Job>, head: nat, count: nat)
    requires head < |b| && 0 < count <= |b|
    ensures var head' := (head + 1) % |b|;
      && head' < |b|
      && Ring(b, head, count)[0] == b[head]
      && Ring(b, head', count - 1) == Ring(b, head, count)[1..]
      && (head' + (count - 1)) % |b| == (head + count) % |b|
  {
    var cap := |b|;
    var head' := (head + 1) % cap;
    ModOnce(head + 1, cap);
    ModOnce(head, cap);
    var r, r' := Ring(b, head, count), Ring(b, head', count - 1);
    forall k | 0 <= k < count - 1
      ensures r'[k] == r[k + 1]
    {
      ModOnce(head' + k, cap);
      ModOnce(head + k + 1, cap);
    }
    ModOnce(head' + (count - 1), cap);
    ModOnce(head + count, cap);
  }

  /** A `job_queue_t`: the ring `buf` of `cap` slots, with `count` jobs from `head` on and the next free slot at `tail`. */
  class JobQueue {
    const cap: nat
    const buf: array<Job>
    var head: nat
    var tail: nat
    var count: nat

    /** The ring invariant that `jq_push` and `jq_pop` keep. */
    ghost predicate Valid()
      reads this
    {
      && buf.Length == cap && 0 < cap
      && head < cap && tail < cap && count <= cap
      && tail == (head + count) % cap
    }

    /** The queued jobs, oldest first. */
    ghost function Contents(): (s: seq<Job>)
      requires Valid()
      reads this, buf
      ensures |s| == count
    {
      Ring(buf[..], head, count)
    }

    /** `jq_init` once its `calloc` succeeds: `cap` zeroed slots and an empty ring. */
    constructor (cap: nat)
      requires 0 < cap
      ensures Valid() && fresh(buf) && this.cap == cap
      ensures head == 0 && tail == 0 && count == 0 && Contents() == []
      ensures forall k :: 0 <= k < cap ==> buf[k] == Job(0, 0, false)
    {
      this.cap := cap;
      buf := new Job[cap](_ => Job(0, 0, false));
      head, tail, count := 0, 0, 0;
    }

    /**
      `jq_push`: on a full ring the source waits for a pop, so nothing
      changes here; otherwise `j` goes into slot `tail`, which moves one
      along, and becomes the newest job.
     */
    method Push(j: Job) returns (blocked: bool)
      requires Valid()
      modifies this`tail, this`count, buf
      ensures Valid() && head == old(head)
      ensures blocked <==> old(count) == cap
      ensures blocked ==> tail == old(tail) && count == old(count) && buf[..] == old(buf[..])
      ensures !blocked ==> buf[..] == old(buf[..])[old(tail) := j]
      ensures !blocked ==> tail == (old(tail) + 1) % cap && count == old(count) + 1
      ensures Contents() == if blocked then old(Contents()) else old(Contents()) + [j]
    {
      if count == cap {
        return true;
      }
      RingPush(buf[..], head, count, j);
      buf[tail] := j;
      tail := (tail + 1) % cap;
      count := count + 1;
      blocked := false;
    }

    /**
      `jq_pop`: on an empty ring the source waits for a push, so nothing
      changes here; otherwise the job at `head` is taken, `head` moves one
      along, and the job is the oldest one queued.
     */
    method Pop() returns (blocked: bool, j: Job)
      requires Valid()
      modifies this`head, this`count
      ensures Valid() && tail == old(tail)
      ensures blocked <==> old(count) == 0
      ensures blocked ==> head == old(head) && count == old(count)
      ensures !blocked ==> j == old(buf[head]) && j == old(Contents())[0]
      ensures !blocked ==> head == (old(head) + 1) % cap && count == old(count) - 1
      ensures Contents() == if blocked then old(Contents()) else old(Contents())[1..]
    {
      if count == 0 {
        return true, Job(0, 0, false);
      }
      ghost var q := Contents();
      RingPop(buf[..], head, count);
      j := buf[head];
      head, count := (head + 1) % cap, count - 1;
      assert Contents() == q[1..];
      blocked := false;
    }
  }

  /** A call on a queue, as a value. */
  datatype Op = PushOp(job: Job) | PopOp

  /** What a run of calls leaves: the jobs still queued, those popped and those the pushes got in, each in order. */
  datatype Trace = Trace(rest: seq<Job>, popped: seq<Job>, accepted: seq<Job>)

  /**
    The calls `ops`, in turn, on a queue of capacity `cap` holding `q`: a
    push on a full queue and a pop on an empty one block (and change
    nothing), the others act as `jq_push` and `jq_pop` do on `Contents()`.
   */
  ghost function Run(cap: nat, q: seq<Job>, ops: seq<Op>): Trace
    decreases |ops|
  {
    if ops == [] then Trace(q, [], [])
    else
      var t := Run(cap, q, ops[..|ops| - 1]);
      match ops[|ops| - 1]
      case PushOp(j) => if |t.rest| >= cap then t else Trace(t.rest + [j], t.popped, t.accepted + [j])
      case PopOp => if t.rest == [] then t else Trace(t.rest[1..], t.popped + [t.rest[0]], t.accepted)
  }

  /**
    First in, first out: after any calls, the jobs popped followed by those
    still queued are the jobs queued at the start followed by the jobs the
    pushes got in, and the queue never holds more than `cap`.
   */
  lemma {:induction false} Fifo(cap: nat, q: seq<Job>, ops: seq<Op>)
    requires |q| <= cap
    ensures var t := Run(cap, q, ops);
      t.popped + t.rest == q + t.accepted && |t.rest| <= cap
    decreases |ops|
  {
    if ops != [] {
      var t := Run(cap, q, ops[..|ops| - 1]);
      Fifo(cap, q, ops[..|ops| - 1]);
      match ops[|ops| - 1]
      case PushOp(j) =>
        assert t.popped + (t.rest + [j]) == (t.popped + t.rest) + [j];
      case PopOp =>
        if t.rest != [] {
          assert (t.popped + [t.rest[0]]) + t.rest[1..] == t.popped + t.rest;
        }
    }
  }

  /** Jobs popped come out in the order they went in: the popped jobs are a prefix of what was queued and pushed. */
  lemma PoppedInOrder(cap: nat, q: seq<Job>, ops: seq<Op>)
    requires |q| <= cap
    ensures Run(cap, q, ops).popped <= q + Run(cap, q, ops).accepted
  {
    Fifo(cap, q, ops);
  }

  /** The number of jobs before the first poison job: the jobs a `worker` runs before it stops. */
  ghost function FirstPoison(js: seq<Job>): (i: nat)
    ensures i <= |js| && (i < |js| ==> js[i].poison)
    ensures forall k :: 0 <= k < i ==> !js[k].poison
  {
    if js == [] then 0 else if js[0].poison then 0 else 1 + FirstPoison(js[1..])
  }

  /** `n` poison jobs. */
  ghost function Poisons(n: nat): (s: seq<Job>)
    ensures |s| == n && forall k :: 0 <= k < n ==> s[k] == POISON
  {
    seq(n, _ => POISON)
  }

  /**
    After the jobs of `js`, none a poison, `n > 0` poison jobs stop a
    worker right after the last job of `js`, and leave `n - 1` poison jobs.
   */
  lemma StopsAtPoison(js: seq<Job>, n: nat)
    requires n > 0 && forall k :: 0 <= k < |js| ==> !js[k].poison
    ensures var q := js + Poisons(n);
      FirstPoison(q) == |js| && q[..|js|] == js && q[|js| + 1..] == Poisons(n - 1)
  {
    var q := js + Poisons(n);
    assert q[|js|] == POISON;
    assert q[..|js|] == js;
    assert q[|js| + 1..] == Poisons(n - 1);
  }

  /**
    `w` workers, one after another, each running jobs until it pops a
    poison job or finds the queue empty: the jobs run, the queue left and
    how many workers stopped.
   */
  ghost function Workers(q: seq<Job>, w: nat): (seq<Job>, seq<Job>, nat)
  {
    if w == 0 then ([], q, 0)
    else
      var i := FirstPoison(q);
      if i == |q| then (q, [], 0)
      else
        var (ran, rest, stopped) := Workers(q[i + 1..], w - 1);
        (q[..i] + ran, rest, stopped + 1)
  }

  /**
    `Workers` is `Worker` run `w` times: the first worker runs the jobs
    before the first poison job and leaves the queue `Worker` promises to
    leave (past the poison job it popped, or empty), the other `w - 1` go
    on from there, and only a worker that popped a poison job stops.
   */
  lemma WorkersAreWorker(js: seq<Job>, w: nat)
    requires w > 0
    ensures var i := FirstPoison(js); var stopped := i < |js|;
      var left := js[if stopped then i + 1 else i..];
      var others := Workers(left, w - 1);
      Workers(js, w) == if stopped then (js[..i] + others.0, others.1, others.2 + 1) else (js[..i], left, 0)
  {
    var i := FirstPoison(js);
    if i == |js| {
      assert js[..i] == js && js[i..] == [];
    }
  }

  /**
    The shutdown of `tp_poison_and_join`: when `n` poison jobs follow the
    queued jobs `js` (none a poison), `n` workers run exactly the jobs of
    `js`, in order, all `n` stop, and the queue is left empty.
   */
  lemma {:induction false} Shutdown(js: seq<Job>, n: nat)
    requires forall k :: 0 <= k < |js| ==> !js[k].poison
    ensures Workers(js + Poisons(n), n) == (if n == 0 then [] else js, if n == 0 then js else [], n)
    decreases n
  {
    if n > 0 {
      var q := js + Poisons(n);
      StopsAtPoison(js, n);
      Shutdown([], n - 1);
      assert [] + Poisons(n - 1) == Poisons(n - 1);
      assert q[..|js|] + [] == js;
    } else {
      assert js + Poisons(0) == js;
    }
  }

  /**
    `worker`, without its thread: it pops jobs and runs each (recorded in
    `ran`) until it pops a poison job (`stopped`), or until the queue is
    empty, where the thread would wait.
   */
  method Worker(q: JobQueue) returns (ran: seq<Job>, stopped: bool)
    requires q.Valid()
    modifies q`head, q`count
    ensures q.Valid()
    ensures var js := old(q.Contents()); var i := FirstPoison(js);
      && ran == js[..i]
      && (stopped <==> i < |js|)
      && q.Contents() == js[if stopped then i + 1 else i..]
  {
    ghost var js := q.Contents();
    ran := [];
    while true
      invariant q.Valid() && q.buf[..] == old(q.buf[..])
      invariant ran <= js && |ran| <= FirstPoison(js)
      invariant q.Contents() == js[|ran|..]
      decreases q.count
    {
      var blocked, j := q.Pop();
      if blocked {
        return ran, false;
      }
      assert j == js[|ran|];
      if j.poison {
        return ran, true;
      }
      ran := ran + [j];
    }
  }

  /** A `threadpool_t` without its threads: the worker count and the job queue. */
  class Pool {
    const nworkers: nat
    const q: JobQueue

    ghost predicate Valid()
      reads this, q
    {
      q.Valid()
    }

    /** `tp_init` once its allocations succeed; the threads it starts are not modelled. */
    constructor (nworkers: nat, qcap: nat)
      requires 0 < qcap
      ensures Valid() && fresh(q) && fresh(q.buf) && this.nworkers == nworkers && q.cap == qcap
      ensures q.Contents() == []
    {
      this.nworkers := nworkers;
      q := new JobQueue(qcap);
    }

    /** `tp_submit`: one job, not a poison, pushed onto the queue. */
    method Submit(fn: nat, arg: nat) returns (blocked: bool)
      requires Valid()
      modifies q`tail, q`count, q.buf
      ensures Valid()
      ensures blocked <==> old(q.count) == q.cap
      ensures q.Contents() == if blocked then old(q.Contents()) else old(q.Contents()) + [Job(fn, arg, false)]
    {
      blocked := q.Push(Job(fn, arg, false));
    }

    /**
      The first loop of `tp_poison_and_join`: one poison job pushed per
      worker. Where the source waits for room, this stops and says how many
      it pushed.
     */
    method PoisonAll() returns (pushed: nat)
      requires Valid()
      modifies q`tail, q`count, q.buf
      ensures Valid()
      ensures pushed == if nworkers <= old(q.cap - q.count) then nworkers else old(q.cap - q.count)
      ensures q.Contents() == old(q.Contents()) + Poisons(pushed)
    {
      var i := 0;
      while i < nworkers
        invariant Valid() && i <= nworkers
        invariant q.count == old(q.count) + i
        invariant q.Contents() == old(q.Contents()) + Poisons(i)
      {
        var blocked := q.Push(POISON);
        if blocked {
          return i;
        }
        assert Poisons(i) + [POISON] == Poisons(i + 1);
        i := i + 1;
      }
      pushed := i;
    }
  }
}
