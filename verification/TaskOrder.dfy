/**
 * The order in which the two-class queue hands out tasks, on sequences: one worker takes only short
 * commands, the others take the first long one and fall back to the head.
 */
module TaskOrder {
  import opened Prelude

  /** A queued request: the connection and the command number that came with it. */
  datatype Task = Task(fd: int, command: int, data: string)

  /** puts (5) and gets (6) */
  predicate IsLong(t: Task) {
    t.command == 5 || t.command == 6
  }

  /** The commands by number. */
  const COMMANDS := ["cd", "ls", "ll", "pwd", "mkdir", "puts", "gets", "rm"]

  /** The long commands are the two transfers. */
  lemma LongIsTransfer(t: Task)
    requires 0 <= t.command < |COMMANDS|
    ensures IsLong(t) <==> COMMANDS[t.command] == "puts" || COMMANDS[t.command] == "gets"
  {
    assert COMMANDS[0][0] == 'c' && COMMANDS[1][0] == 'l' && COMMANDS[2][0] == 'l' && COMMANDS[3][1] == 'w';
    assert COMMANDS[4][0] == 'm' && COMMANDS[7][0] == 'r';
  }

  /** The subsequence of one class. */
  function OfClass(q: seq<Task>, long: bool): seq<Task> {
    if q == [] then []
    else (if IsLong(q[0]) == long then [q[0]] else []) + OfClass(q[1..], long)
  }

  /** The index of the first task of a class, or the length. */
  function First(q: seq<Task>, long: bool): (i: nat)
    ensures i <= |q|
    ensures i < |q| ==> IsLong(q[i]) == long
    ensures forall j :: 0 <= j < i ==> IsLong(q[j]) != long
  {
    if q == [] then 0 else if IsLong(q[0]) == long then 0 else 1 + First(q[1..], long)
  }

  /** Which task a worker takes. */
  function Pick(q: seq<Task>, shortWorker: bool): (r: Option<nat>)
    ensures r.Some? ==> r.value < |q|
    ensures r.None? <==> q == [] || (shortWorker && forall j :: 0 <= j < |q| ==> IsLong(q[j]))
  {
    var i := First(q, !shortWorker);
    if i < |q| then Some(i)
    else if shortWorker || q == [] then None
    else Some(0)
  }

  function Without<T>(q: seq<T>, i: nat): (r: seq<T>)
    requires i < |q|
    ensures |r| == |q| - 1
  {
    q[..i] + q[i + 1..]
  }

  lemma {:induction false} OfClassAppend(a: seq<Task>, b: seq<Task>, long: bool)
    ensures OfClass(a + b, long) == OfClass(a, long) + OfClass(b, long)
  {
    if a == [] {
      assert a + b == b;
    } else {
      hide IsLong;
      assert (a + b)[1..] == a[1..] + b && (a + b)[0] == a[0];
      OfClassAppend(a[1..], b, long);
      Regroup(if IsLong(a[0]) == long then [a[0]] else [], OfClass(a[1..], long), OfClass(b, long));
    }
  }

  lemma {:induction false} NoneOfClass(q: seq<Task>, long: bool)
    requires forall j :: 0 <= j < |q| ==> IsLong(q[j]) != long
    ensures OfClass(q, long) == []
  {
    if q != [] {
      NoneOfClass(q[1..], long);
    }
  }

  lemma {:induction false} NoneOfClassIff(q: seq<Task>, long: bool)
    ensures OfClass(q, long) == [] <==> forall j :: 0 <= j < |q| ==> IsLong(q[j]) != long
  {
    if q != [] {
      NoneOfClassIff(q[1..], long);
      if forall j :: 0 <= j < |q| ==> IsLong(q[j]) != long {
        assert IsLong(q[0]) != long;
        forall j | 0 <= j < |q[1..]| ensures IsLong(q[1..][j]) != long {
          assert q[1..][j] == q[j + 1];
        }
      }
    }
  }

  lemma OfClassAround(q: seq<Task>, i: nat, long: bool)
    requires i < |q|
    ensures OfClass(q, long) == OfClass(q[..i], long) + OfClass([q[i]], long) + OfClass(q[i + 1..], long)
    ensures OfClass(Without(q, i), long) == OfClass(q[..i], long) + OfClass(q[i + 1..], long)
  {
    hide OfClass;
    assert q == q[..i] + [q[i]] + q[i + 1..];
    OfClassAppend(q[..i] + [q[i]], q[i + 1..], long);
    OfClassAppend(q[..i], [q[i]], long);
    OfClassAppend(q[..i], q[i + 1..], long);
  }

  /** The taken task is the first of its class, and the other class is untouched. */
  lemma PickTakesFirst(q: seq<Task>, shortWorker: bool)
    requires Pick(q, shortWorker).Some?
    ensures var i := Pick(q, shortWorker).value;
            && OfClass(q, IsLong(q[i])) == [q[i]] + OfClass(Without(q, i), IsLong(q[i]))
            && OfClass(q, !IsLong(q[i])) == OfClass(Without(q, i), !IsLong(q[i]))
  {
    hide OfClass, Without, IsLong;
    var i := Pick(q, shortWorker).value;
    OfClassAround(q, i, IsLong(q[i]));
    OfClassAround(q, i, !IsLong(q[i]));
    NoneOfClass(q[..i], IsLong(q[i]));
    OneOfClass(q[i], IsLong(q[i]));
    OneOfClass(q[i], !IsLong(q[i]));
  }

  /** A long-capable worker takes a short task only when no long one is queued; the short worker never takes a long one. */
  lemma PickPrefersLong(q: seq<Task>, shortWorker: bool)
    requires Pick(q, shortWorker).Some?
    ensures var t := q[Pick(q, shortWorker).value];
            && (shortWorker ==> !IsLong(t))
            && (!shortWorker && !IsLong(t) ==> OfClass(q, true) == [])
  {
    if !shortWorker && !IsLong(q[Pick(q, shortWorker).value]) {
      NoneOfClass(q, true);
    }
  }

  // ---------------------------------------------------------------------------
  // Whole runs of interleaved enqueues and dequeues
  // ---------------------------------------------------------------------------

  datatype Event = Enqueue(task: Task) | Dequeue(shortWorker: bool)

  /** The queue with the tasks accepted and the tasks handed out so far. */
  datatype History = History(queue: seq<Task>, accepted: seq<Task>, taken: seq<Task>)

  function Happen(h: History, e: Event, maxSize: nat): History {
    match e
    case Enqueue(task) =>
      if |h.queue| == maxSize then h else History(h.queue + [task], h.accepted + [task], h.taken)
    case Dequeue(shortWorker) =>
      match Pick(h.queue, shortWorker)
      case None => h
      case Some(i) => History(Without(h.queue, i), h.accepted, h.taken + [h.queue[i]])
  }

  function Play(events: seq<Event>, maxSize: nat): History {
    if events == [] then History([], [], [])
    else Happen(Play(events[..|events| - 1], maxSize), events[|events| - 1], maxSize)
  }

  /**
   * For each class, in every run by any workers: what was handed out followed by what is queued is
   * what was accepted, in order. Nothing is lost, duplicated or reordered within a class.
   */
  lemma {:induction false} ClassesAreFifo(events: seq<Event>, maxSize: nat, long: bool)
    ensures var h := Play(events, maxSize);
            && OfClass(h.taken, long) + OfClass(h.queue, long) == OfClass(h.accepted, long)
            && |h.queue| <= maxSize
  {
    if events != [] {
      ClassesAreFifo(events[..|events| - 1], maxSize, long);
      FifoStep(Play(events[..|events| - 1], maxSize), events[|events| - 1], maxSize, long);
    }
  }

  lemma FifoStep(h: History, e: Event, maxSize: nat, long: bool)
    requires OfClass(h.taken, long) + OfClass(h.queue, long) == OfClass(h.accepted, long)
    ensures var h' := Happen(h, e, maxSize);
            OfClass(h'.taken, long) + OfClass(h'.queue, long) == OfClass(h'.accepted, long)
  {
    hide OfClass, Pick, Without;
    match e
    case Enqueue(task) =>
      OfClassAppend(h.queue, [task], long);
      OfClassAppend(h.accepted, [task], long);
      Regroup(OfClass(h.taken, long), OfClass(h.queue, long), OfClass([task], long));
    case Dequeue(shortWorker) =>
      if Pick(h.queue, shortWorker).Some? {
        var i := Pick(h.queue, shortWorker).value;
        PickTakesFirst(h.queue, shortWorker);
        OfClassAppend(h.taken, [h.queue[i]], long);
        OneOfClass(h.queue[i], long);
        Regroup(OfClass(h.taken, long), OfClass([h.queue[i]], long), OfClass(Without(h.queue, i), long));
      }
  }

  lemma OneOfClass(t: Task, long: bool)
    ensures OfClass([t], long) == if IsLong(t) == long then [t] else []
    ensures forall q :: [] + q == OfClass([], long) + q == q
  {
    assert [t][1..] == [];
  }
}
