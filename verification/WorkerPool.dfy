/**
 * The event loop and the workers as a state machine: connections move between the epoll set, the
 * task queue, a worker's hands, the return pipe, and being finished. Worker 0 is the short worker.
 */
module WorkerPool {
  import opened Prelude
  import opened TaskOrder

  datatype Worker = Idle | Busy(task: Task) | Gone

  /** `history.queue` is the task queue; connections are numbered as they are accepted. */
  datatype Pool = Pool(accepted: set<int>, epoll: set<int>, history: History, workers: seq<Worker>,
                       pipe: seq<int>, finished: set<int>, exit: bool, maxSize: nat)

  /** init_thread_pool: n workers, a queue for three tasks each. */
  function Init(n: nat): Pool {
    Pool({}, {}, History([], [], []), seq(n, _ => Idle), [], {}, false, 3 * n)
  }

  /** The condition under which a worker waits: no task, or none for the short worker. */
  predicate Waits(s: Pool, w: nat) {
    |s.history.queue| == 0 || (w == 0 && |OfClass(s.history.queue, false)| == 0)
  }

  datatype Event =
    | Accept(fd: int)                          // a new connection enters the epoll set
    | Hangup(fd: int)                          // a readable connection turns out closed
    | Request(task: Task)                      // a readable connection delivers a request
    | Return                                   // a connection comes back through the pipe
    | Quit                                     // the exit signal; the event loop stops
    | Take(w: nat)                             // a worker dequeues
    | Finish(w: nat)                           // a worker completes its task
    | Leave(w: nat)                            // a waiting worker sees the exit flag

  predicate Enabled(s: Pool, e: Event) {
    match e
    case Accept(fd) => !s.exit && fd !in s.accepted
    case Hangup(fd) => !s.exit && fd in s.epoll
    case Request(task) => !s.exit && task.fd in s.epoll
    case Return => !s.exit && s.pipe != []
    case Quit => !s.exit
    case Take(w) => w < |s.workers| && s.workers[w].Idle? && !Waits(s, w)
    case Finish(w) => w < |s.workers| && s.workers[w].Busy?
    case Leave(w) => w < |s.workers| && s.workers[w].Idle? && Waits(s, w) && s.exit
  }

  /** Waiting excludes dequeue's -1: a worker past its guard finds a task. */
  lemma GuardFindsTask(s: Pool, w: nat)
    requires !Waits(s, w)
    ensures Pick(s.history.queue, w == 0).Some?
  {
    if w == 0 && forall j :: 0 <= j < |s.history.queue| ==> IsLong(s.history.queue[j]) {
      NoneOfClass(s.history.queue, false);
    }
  }

  /** A worker waits exactly when dequeue would find nothing for it. */
  lemma WaitsIffNothing(s: Pool, w: nat)
    ensures Waits(s, w) <==> Pick(s.history.queue, w == 0).None?
  {
    WaitsIff(s, w);
  }

  /** That is, if the queue is empty, or for the short worker if every queued task is long. */
  lemma WaitsIff(s: Pool, w: nat)
    ensures Waits(s, w) <==>
            s.history.queue == [] || (w == 0 && forall j :: 0 <= j < |s.history.queue| ==> IsLong(s.history.queue[j]))
  {
    NoneOfClassIff(s.history.queue, false);
  }

  /** Every worker can move in every state, unless it is gone or has nothing to do before the exit. */
  lemma WorkerMovesIff(s: Pool, w: nat)
    requires w < |s.workers|
    ensures Enabled(s, Take(w)) || Enabled(s, Finish(w)) || Enabled(s, Leave(w))
            <==> !s.workers[w].Gone? && !(s.workers[w].Idle? && !s.exit && Pick(s.history.queue, w == 0).None?)
  {
    WaitsIffNothing(s, w);
  }

  function Step(s: Pool, e: Event): Pool
    requires Enabled(s, e)
  {
    match e
    case Accept(fd) => s.(accepted := s.accepted + {fd}, epoll := s.epoll + {fd})
    case Hangup(fd) => s.(epoll := s.epoll - {fd}, finished := s.finished + {fd})
    case Request(task) =>
      // enqueue's result is ignored: on a full queue the connection is dropped
      var s' := s.(epoll := s.epoll - {task.fd});
      if |s.history.queue| == s.maxSize then s'.(finished := s.finished + {task.fd})
      else s'.(history := Happen(s.history, Enqueue(task), s.maxSize))
    case Return => s.(pipe := s.pipe[1..], epoll := s.epoll + {s.pipe[0]})
    case Quit => s.(exit := true)
    case Take(w) =>
      GuardFindsTask(s, w);
      var i := Pick(s.history.queue, w == 0).value;
      s.(history := Happen(s.history, Dequeue(w == 0), s.maxSize), workers := s.workers[w := Busy(s.history.queue[i])])
    case Finish(w) =>
      // commands 5 and 6 are not handed back
      var t := s.workers[w].task;
      var s' := s.(workers := s.workers[w := Idle]);
      if t.command != 5 && t.command != 6 then s'.(pipe := s.pipe + [t.fd])
      else s'.(finished := s.finished + {t.fd})
    case Leave(w) => s.(workers := s.workers[w := Gone])
  }

  /** Until the exit the event loop can serve every connection it watches, every one that comes back, and any new one. */
  lemma LoopServes(s: Pool, fd: int, task: Task)
    requires !s.exit
    ensures fd !in s.accepted ==> Enabled(s, Accept(fd))
    ensures fd in s.epoll ==> Enabled(s, Hangup(fd)) && (task.fd == fd ==> Enabled(s, Request(task)))
    ensures s.pipe != [] ==> Enabled(s, Return) && s.pipe[0] in Step(s, Return).epoll
  {
  }

  /**
   * A short request that finds the queue and the pipe empty and a worker idle comes back: after it
   * is delivered, taken, finished and returned, everything is as before but the record of tasks.
   */
  lemma ShortRequestReturns(s: Pool, task: Task, w: nat)
    requires !s.exit && task.fd in s.epoll && s.history.queue == [] && s.pipe == [] && s.maxSize > 0
    requires w < |s.workers| && s.workers[w].Idle? && !IsLong(task)
    ensures Enabled(s, Request(task))
    ensures var s1 := Step(s, Request(task));
            Enabled(s1, Take(w)) &&
            var s2 := Step(s1, Take(w));
            s2.workers[w] == Busy(task) && Enabled(s2, Finish(w)) &&
            var s3 := Step(s2, Finish(w));
            Enabled(s3, Return) &&
            Step(s3, Return) == s.(history := History([], s.history.accepted + [task], s.history.taken + [task]))
  {
    var s1 := Step(s, Request(task));
    assert s1.history.queue == [task];
    WaitsIff(s1, w);
    GuardFindsTask(s1, w);
    assert Without([task], 0) == [];
    var s2 := Step(s1, Take(w));
    assert s2.history == History([], s.history.accepted + [task], s.history.taken + [task]);
    var s3 := Step(s2, Finish(w));
    assert s3.pipe == [task.fd] && s3.workers == s.workers && s3.epoll == s.epoll - {task.fd};
    assert Step(s3, Return).epoll == s.epoll;
  }

  // ---------------------------------------------------------------------------
  // Every connection is in exactly one place
  // ---------------------------------------------------------------------------

  function One(b: bool): nat {
    if b then 1 else 0
  }

  /** How many queued tasks the connection has. */
  function Queued(q: seq<Task>, fd: int): nat {
    if q == [] then 0 else One(q[0].fd == fd) + Queued(q[1..], fd)
  }

  predicate Holds(w: Worker, fd: int) {
    w.Busy? && w.task.fd == fd
  }

  /** How many workers are serving the connection. */
  function Held(ws: seq<Worker>, fd: int): nat {
    if ws == [] then 0 else One(Holds(ws[0], fd)) + Held(ws[1..], fd)
  }

  function Piped(p: seq<int>, fd: int): nat {
    if p == [] then 0 else One(p[0] == fd) + Piped(p[1..], fd)
  }

  /** In how many places the connection is. */
  function Places(s: Pool, fd: int): nat {
    One(fd in s.epoll) + Queued(s.history.queue, fd) + Held(s.workers, fd) + Piped(s.pipe, fd) + One(fd in s.finished)
  }

  /** Accepted connections are in exactly one place, others in none. */
  ghost predicate Conserved(s: Pool) {
    forall fd :: Places(s, fd) == One(fd in s.accepted)
  }

  lemma {:induction false} QueuedAppend(a: seq<Task>, b: seq<Task>, fd: int)
    ensures Queued(a + b, fd) == Queued(a, fd) + Queued(b, fd)
  {
    if a == [] {
      assert a + b == b;
    } else {
      assert (a + b)[1..] == a[1..] + b;
      QueuedAppend(a[1..], b, fd);
    }
  }

  lemma QueuedWithout(q: seq<Task>, i: nat, fd: int)
    requires i < |q|
    ensures Queued(q, fd) == One(q[i].fd == fd) + Queued(Without(q, i), fd)
  {
    assert q == q[..i] + q[i..];
    assert q[i..][1..] == q[i + 1..];
    QueuedAppend(q[..i], q[i..], fd);
    QueuedAppend(q[..i], q[i + 1..], fd);
  }

  lemma {:induction false} HeldUpdate(ws: seq<Worker>, w: nat, x: Worker, fd: int)
    requires w < |ws|
    ensures Held(ws[w := x], fd) + One(Holds(ws[w], fd)) == Held(ws, fd) + One(Holds(x, fd))
  {
    if w == 0 {
      assert ws[0 := x][1..] == ws[1..];
    } else {
      assert ws[w := x][1..] == ws[1..][w - 1 := x];
      HeldUpdate(ws[1..], w - 1, x, fd);
    }
  }

  lemma {:induction false} HeldNone(ws: seq<Worker>, fd: int)
    requires forall w :: 0 <= w < |ws| ==> !ws[w].Busy?
    ensures Held(ws, fd) == 0
  {
    if ws != [] {
      HeldNone(ws[1..], fd);
    }
  }

  lemma {:induction false} PipedAppend(p: seq<int>, x: int, fd: int)
    ensures Piped(p + [x], fd) == Piped(p, fd) + One(x == fd)
  {
    if p == [] {
      assert p + [x] == [x] && [x][1..] == [];
    } else {
      assert (p + [x])[1..] == p[1..] + [x];
      PipedAppend(p[1..], x, fd);
    }
  }

  /** Taking a task moves its connection from the queue into the worker's hands. */
  lemma TakeMoves(s: Pool, w: nat, fd: int)
    requires Enabled(s, Take(w))
    ensures Places(Step(s, Take(w)), fd) == Places(s, fd)
  {
    hide Queued, Held, Piped, One, Without, OfClass;
    GuardFindsTask(s, w);
    var i := Pick(s.history.queue, w == 0).value;
    QueuedWithout(s.history.queue, i, fd);
    HeldUpdate(s.workers, w, Busy(s.history.queue[i]), fd);
    OneOfNone();
  }

  lemma OneOfNone()
    ensures One(false) == 0 && One(true) == 1
  {
  }

  /** Completing it moves the connection into the pipe, or ends it for a long command. */
  lemma FinishMoves(s: Pool, w: nat, fd: int)
    requires Conserved(s) && Enabled(s, Finish(w))
    ensures Places(Step(s, Finish(w)), fd) == Places(s, fd)
  {
    hide Queued, Piped;
    var x := s.workers[w].task.fd;
    assert Places(s, x) == One(x in s.accepted);
    HeldUpdate(s.workers, w, Idle, fd);
    HeldUpdate(s.workers, w, Idle, x);
    PipedAppend(s.pipe, x, fd);
  }

  /** A request moves the connection from the epoll set into the queue, or ends it when the queue is full. */
  lemma RequestMoves(s: Pool, task: Task, fd: int)
    requires Conserved(s) && Enabled(s, Request(task))
    ensures Places(Step(s, Request(task)), fd) == Places(s, fd)
  {
    hide Queued, Held, Piped;
    assert Places(s, task.fd) == One(task.fd in s.accepted);
    QueuedAppend(s.history.queue, [task], fd);
    QueuedOne(task, fd);
  }

  lemma QueuedOne(task: Task, fd: int)
    ensures Queued([task], fd) == One(task.fd == fd)
  {
    assert [task][1..] == [];
  }

  /** Each step moves connections from one place to another and loses or doubles none. */
  lemma StepConserves(s: Pool, e: Event)
    requires Conserved(s) && Enabled(s, e)
    ensures Conserved(Step(s, e))
  {
    forall fd ensures Places(Step(s, e), fd) == One(fd in Step(s, e).accepted) {
      assert Places(s, fd) == One(fd in s.accepted);
      match e
      case Accept(x) =>
      case Hangup(x) => assert Places(s, x) == One(x in s.accepted);
      case Request(task) => RequestMoves(s, task, fd);
      case Return => assert Places(s, s.pipe[0]) == One(s.pipe[0] in s.accepted);
      case Quit =>
      case Take(w) => TakeMoves(s, w, fd);
      case Finish(w) => FinishMoves(s, w, fd);
      case Leave(w) => HeldUpdate(s.workers, w, Gone, fd);
    }
  }

  // ---------------------------------------------------------------------------
  // Runs
  // ---------------------------------------------------------------------------

  ghost predicate Run(states: seq<Pool>, events: seq<Event>, workers: nat) {
    && |states| == |events| + 1
    && states[0] == Init(workers)
    && forall i :: 0 <= i < |events| ==> Enabled(states[i], events[i]) && states[i + 1] == Step(states[i], events[i])
  }

  /** In every reachable state each accepted connection is in exactly one place. */
  lemma {:induction false} ExactlyOnePlace(states: seq<Pool>, events: seq<Event>, workers: nat, i: nat)
    requires Run(states, events, workers) && i < |states|
    ensures Conserved(states[i])
  {
    if i == 0 {
      forall fd ensures Places(states[0], fd) == 0 {
        HeldNone(states[0].workers, fd);
      }
    } else {
      ExactlyOnePlace(states, events, workers, i - 1);
      StepConserves(states[i - 1], events[i - 1]);
    }
  }

  lemma {:induction false} QueuedTwice(q: seq<Task>, i: nat, j: nat)
    requires i < j < |q| && q[i].fd == q[j].fd
    ensures Queued(q, q[i].fd) >= 2
  {
    QueuedWithout(q, j, q[i].fd);
    assert Without(q, j)[i] == q[i];
    QueuedWithout(Without(q, j), i, q[i].fd);
  }

  lemma HeldTwice(ws: seq<Worker>, v: nat, w: nat, fd: int)
    requires v < w < |ws| && Holds(ws[v], fd) && Holds(ws[w], fd)
    ensures Held(ws, fd) >= 2
  {
    HeldUpdate(ws, v, Idle, fd);
    HeldUpdate(ws[v := Idle], w, Idle, fd);
  }

  /** So no connection ever has two tasks queued, nor two being served, nor one queued while another is served. */
  lemma OneTaskAtATime(states: seq<Pool>, events: seq<Event>, workers: nat, n: nat)
    requires Run(states, events, workers) && n < |states|
    ensures var q, ws := states[n].history.queue, states[n].workers;
            && (forall i, j :: 0 <= i < j < |q| ==> q[i].fd != q[j].fd)
            && (forall i, w :: 0 <= i < |q| && 0 <= w < |ws| ==> !Holds(ws[w], q[i].fd))
            && (forall v, w, fd :: 0 <= v < w < |ws| ==> !(Holds(ws[v], fd) && Holds(ws[w], fd)))
  {
    var s := states[n];
    var q, ws := s.history.queue, s.workers;
    ExactlyOnePlace(states, events, workers, n);
    forall i, j | 0 <= i < j < |q| ensures q[i].fd != q[j].fd {
      assert Places(s, q[i].fd) == One(q[i].fd in s.accepted);
      if q[i].fd == q[j].fd {
        QueuedTwice(q, i, j);
      }
    }
    forall i, w | 0 <= i < |q| && 0 <= w < |ws| ensures !Holds(ws[w], q[i].fd) {
      assert Places(s, q[i].fd) == One(q[i].fd in s.accepted);
      QueuedWithout(q, i, q[i].fd);
      HeldUpdate(ws, w, Idle, q[i].fd);
    }
    forall v, w, fd | 0 <= v < w < |ws| ensures !(Holds(ws[v], fd) && Holds(ws[w], fd)) {
      assert Places(s, fd) == One(fd in s.accepted);
      if Holds(ws[v], fd) && Holds(ws[w], fd) {
        HeldTwice(ws, v, w, fd);
      }
    }
  }

  /** A connection ends by hanging up, by a request that finds the queue full, or after a long command. */
  predicate Ends(s: Pool, e: Event, fd: int)
    requires Enabled(s, e)
  {
    match e
    case Hangup(x) => x == fd
    case Request(task) => task.fd == fd && |s.history.queue| == s.maxSize
    case Finish(w) => s.workers[w].task.fd == fd && IsLong(s.workers[w].task)
    case _ => false
  }

  lemma EndsFinishes(s: Pool, e: Event, fd: int)
    requires Enabled(s, e)
    ensures fd in Step(s, e).finished <==> fd in s.finished || Ends(s, e, fd)
    ensures Step(s, e).maxSize == s.maxSize
  {
  }

  ghost predicate EndedBefore(states: seq<Pool>, events: seq<Event>, n: nat, fd: int)
    requires |states| == |events| + 1 && n <= |events|
  {
    exists i :: 0 <= i < n && Enabled(states[i], events[i]) && Ends(states[i], events[i], fd)
  }

  /** In every run the finished connections are exactly those that ended in one of these ways. */
  lemma {:induction false} FinishedIffEnded(states: seq<Pool>, events: seq<Event>, workers: nat, n: nat, fd: int)
    requires Run(states, events, workers) && n <= |events|
    ensures states[n].maxSize == 3 * workers
    ensures fd in states[n].finished <==> EndedBefore(states, events, n, fd)
  {
    if n > 0 {
      FinishedIffEnded(states, events, workers, n - 1, fd);
      EndsFinishes(states[n - 1], events[n - 1], fd);
      if Ends(states[n - 1], events[n - 1], fd) {
        assert EndedBefore(states, events, n, fd);
      }
    }
  }

  // ---------------------------------------------------------------------------
  // Shutdown
  // ---------------------------------------------------------------------------

  /** Nobody leaves before the exit flag, and no long-capable worker leaves tasks behind. */
  ghost predicate OrderlyExit(s: Pool) {
    && (forall w :: 0 <= w < |s.workers| && s.workers[w].Gone? ==> s.exit)
    && (forall w :: 0 < w < |s.workers| && s.workers[w].Gone? ==> s.history.queue == [])
  }

  lemma StepKeepsOrderlyExit(s: Pool, e: Event)
    requires OrderlyExit(s) && Enabled(s, e)
    ensures OrderlyExit(Step(s, e)) && |Step(s, e).workers| == |s.workers|
  {
    if e.Take? {
      GuardFindsTask(s, e.w);
    }
  }

  /** The queue of a run obeys the per-class order, whatever the interleaving. */
  lemma StepKeepsFifo(s: Pool, e: Event, long: bool)
    requires Enabled(s, e)
    requires OfClass(s.history.taken, long) + OfClass(s.history.queue, long) == OfClass(s.history.accepted, long)
    ensures var h := Step(s, e).history;
            OfClass(h.taken, long) + OfClass(h.queue, long) == OfClass(h.accepted, long)
  {
    hide OfClass, Happen;
    match e
    case Request(task) => FifoStep(s.history, Enqueue(task), s.maxSize, long);
    case Take(w) => FifoStep(s.history, Dequeue(w == 0), s.maxSize, long);
    case _ =>
  }

  lemma {:induction false} RunInvariant(states: seq<Pool>, events: seq<Event>, workers: nat, i: nat, long: bool)
    requires Run(states, events, workers) && i < |states|
    ensures OrderlyExit(states[i]) && |states[i].workers| == workers
    ensures var h := states[i].history;
            OfClass(h.taken, long) + OfClass(h.queue, long) == OfClass(h.accepted, long)
  {
    if i > 0 {
      RunInvariant(states, events, workers, i - 1, long);
      StepKeepsOrderlyExit(states[i - 1], events[i - 1]);
      StepKeepsFifo(states[i - 1], events[i - 1], long);
    }
  }

  /**
   * When all of at least two workers have left, the queue is empty and every enqueued task was
   * taken, in order within its class.
   */
  lemma ExitLeavesNothing(states: seq<Pool>, events: seq<Event>, workers: nat, i: nat, long: bool)
    requires Run(states, events, workers) && i < |states| && workers >= 2
    requires forall w :: 0 <= w < |states[i].workers| ==> states[i].workers[w].Gone?
    ensures states[i].history.queue == []
    ensures OfClass(states[i].history.taken, long) == OfClass(states[i].history.accepted, long)
  {
    RunInvariant(states, events, workers, i, long);
    assert states[i].workers[1].Gone?;
  }

  /** With a single worker, which is the short one, a long task can be left behind. */
  lemma SingleWorkerStrands() returns (states: seq<Pool>, events: seq<Event>)
    ensures Run(states, events, 1)
    ensures states[|events|].workers == [Gone] && states[|events|].history.queue != []
  {
    var t := Task(7, 5, "puts a b");
    events := [Accept(7), Request(t), Quit, Leave(0)];
    var s0 := Init(1);
    var s1 := Step(s0, Accept(7));
    var s2 := Step(s1, Request(t));
    var s3 := Step(s2, Quit);
    assert s2.history.queue == [t];
    assert OfClass([t], false) == [] by { OneOfClass(t, false); }
    var s4 := Step(s3, Leave(0));
    states := [s0, s1, s2, s3, s4];
  }
}
