/**
 * The bounded linked queue of server/taskQueue.c on the heap: nodes, head, tail and the two
 * counters, with a ghost sequence of the queued nodes.
 */
module TaskQueue {
  import opened Prelude
  import opened TaskOrder

  class Node {
    const task: Task
    var next: Node?

    constructor (task: Task)
      ensures this.task == task && next == null
    {
      this.task := task;
      next := null;
    }
  }

  /** The tasks of a run of nodes. */
  ghost function TasksOf(nodes: seq<Node>): (q: seq<Task>)
    ensures |q| == |nodes|
    ensures forall i :: 0 <= i < |nodes| ==> q[i] == nodes[i].task
  {
    seq(|nodes|, i requires 0 <= i < |nodes| => nodes[i].task)
  }

  /** Distinct nodes, each pointing to the next one and the last to nothing: acyclic. */
  ghost predicate Linked(nodes: seq<Node>)
    reads nodes
  {
    && (forall i, j :: 0 <= i < j < |nodes| ==> nodes[i] != nodes[j])
    && (forall i :: 0 <= i < |nodes| - 1 ==> nodes[i].next == nodes[i + 1])
    && (nodes != [] ==> nodes[|nodes| - 1].next == null)
  }

  lemma WithoutTasks(nodes: seq<Node>, i: nat)
    requires i < |nodes|
    ensures TasksOf(Without(nodes, i)) == Without(TasksOf(nodes), i)
  {
  }

  lemma WithoutFirst(nodes: seq<Node>, i: nat)
    requires i < |nodes|
    ensures |nodes| > 1 ==> Without(nodes, i)[0] == if i == 0 then nodes[1] else nodes[0]
  {
  }

  lemma AppendTasks(nodes: seq<Node>, n: Node)
    ensures TasksOf(nodes + [n]) == TasksOf(nodes) + [n.task]
  {
  }

  class Queue {
    var head: Node?
    var tail: Node?
    var queueSize: int
    const maxSize: int
    var shortCommandSize: int
    ghost var nodes: seq<Node>

    /** Everything but the head pointer: the nodes, the tail and the counters. */
    ghost predicate Kept()
      reads this, nodes
    {
      && Linked(nodes)
      && (nodes != [] ==> tail == nodes[|nodes| - 1])
      && queueSize == |nodes| <= maxSize
      && shortCommandSize == |OfClass(TasksOf(nodes), false)|
    }

    /** A queue whose head can be followed; an empty one is recognised by its size alone. */
    ghost predicate Valid()
      reads this, nodes
    {
      Kept() && (nodes != [] ==> head == nodes[0])
    }

    ghost function Tasks(): seq<Task>
      reads this
    {
      TasksOf(nodes)
    }

    constructor (maxSize: nat)
      ensures Valid() && nodes == [] && this.maxSize == maxSize && head == null
    {
      head, tail := null, null;
      queueSize, shortCommandSize := 0, 0;
      this.maxSize := maxSize;
      nodes := [];
    }

    /** enqueue: appends, or rejects when the queue is full. */
    method Enqueue(task: Task) returns (ret: int)
      requires Valid()
      modifies this, nodes
      ensures Valid()
      ensures ret == if |old(nodes)| == maxSize then -1 else 0
      ensures ret == -1 ==> nodes == old(nodes)
      ensures ret == 0 ==> |nodes| == |old(nodes)| + 1 && nodes[..|old(nodes)|] == old(nodes) && fresh(nodes[|old(nodes)|])
      ensures Tasks() == if ret == 0 then old(Tasks()) + [task] else old(Tasks())
    {
      hide OfClass, TasksOf, Linked;
      if queueSize == maxSize {
        return -1;
      }
      ghost var q := Tasks();
      var fdNode := new Node(task);
      Append(fdNode);
      AppendTasks(old(nodes), fdNode);
      CountIn(task, q);
      return 0;
    }

    /** The counters after a node is appended. */
    method CountIn(task: Task, ghost q: seq<Task>)
      requires Linked(nodes) && nodes != [] && tail == nodes[|nodes| - 1] && TasksOf(nodes) == q + [task]
      requires queueSize == |q| < maxSize && shortCommandSize == |OfClass(q, false)|
      modifies this`queueSize, this`shortCommandSize
      ensures Kept()
    {
      hide OfClass, TasksOf, Linked;
      OfClassAppend(q, [task], false);
      OneOfClass(task, false);
      queueSize := queueSize + 1;
      if task.command != 5 && task.command != 6 {
        shortCommandSize := shortCommandSize + 1;
      }
    }

    method Append(fdNode: Node)
      requires Linked(nodes) && fdNode !in nodes && fdNode.next == null && queueSize == |nodes|
      requires nodes != [] ==> head == nodes[0] && tail == nodes[|nodes| - 1]
      modifies this`head, this`tail, this`nodes, nodes
      ensures nodes == old(nodes) + [fdNode] && Linked(nodes)
      ensures head == nodes[0] && tail == fdNode
    {
      if queueSize == 0 {
        head := fdNode;
      } else {
        tail.next := fdNode;
      }
      tail := fdNode;
      nodes := nodes + [fdNode];
    }

    /** The search loop of dequeue, from the dummy node in front of the list. */
    method Find(shortWorker: bool, temp: Node) returns (prev: Node, cur: Node?, ghost i: nat)
      requires Valid() && nodes != [] && temp !in nodes && temp.next == head
      ensures i == First(Tasks(), !shortWorker) <= |nodes|
      ensures cur == if First(Tasks(), !shortWorker) < |nodes| then nodes[First(Tasks(), !shortWorker)] else null
      ensures prev == if First(Tasks(), !shortWorker) == 0 then temp else nodes[First(Tasks(), !shortWorker) - 1]
    {
      prev, cur, i := temp, head, 0;
      while cur != null
        invariant i <= |nodes|
        invariant cur == if i < |nodes| then nodes[i] else null
        invariant prev == if i == 0 then temp else nodes[i - 1]
        invariant forall j :: 0 <= j < i ==> IsLong(nodes[j].task) == shortWorker
        decreases |nodes| - i
      {
        if cur.task.command == 5 || cur.task.command == 6 {
          if !shortWorker {
            break;
          }
        } else if shortWorker && cur.task.command != 5 && cur.task.command != 6 {
          break;
        }
        cur := cur.next;
        prev := prev.next;
        i := i + 1;
      }
      FirstIs(Tasks(), !shortWorker, i);
    }

    /**
     * dequeue. The source unlinks a match behind the dummy node and never copies the dummy's
     * successor back to `head`; `relinkHead` says whether that missing assignment is made. Without
     * it the head goes stale exactly when the match is the first of several nodes.
     */
    method Dequeue(shortWorker: bool, relinkHead: bool) returns (ret: int, train: Option<Task>)
      requires Valid() && (nodes == [] ==> head == null)
      modifies this, nodes
      ensures Kept()
      ensures match Pick(old(Tasks()), shortWorker)
              case None => ret == -1 && train == None && nodes == old(nodes) && Valid()
              case Some(i) =>
                && nodes == Without(old(nodes), i)
                && train == Some(old(Tasks())[i]) && ret == old(Tasks())[i].fd
                && (relinkHead ==> Valid() && (nodes == [] ==> head == null))
                && (!relinkHead ==>
                      (Valid() <==> !(i == 0 && First(old(Tasks()), !shortWorker) == 0 && |old(nodes)| > 1)))
    {
      hide OfClass, First, Without, TasksOf, Pick;
      PickCases(Tasks(), shortWorker);
      if head == null {
        return -1, None;
      }
      ghost var q := Tasks();
      var temp := new Node(head.task);
      temp.next := head;
      var prev, cur;
      ghost var i;
      prev, cur, i := Find(shortWorker, temp);
      if cur == null && shortWorker {
        return -1, None;
      }
      var taken;
      taken, i := Detach(prev, cur, temp, i, relinkHead);
      WithoutTasks(old(nodes), i);
      WithoutFirst(old(nodes), i);
      ret, train := HandOut(taken, q, i, shortWorker);
    }

    /** The match is unlinked, or without one the head is taken. */
    method Detach(prev: Node, cur: Node?, temp: Node, ghost i: nat, relinkHead: bool) returns (taken: Node, ghost k: nat)
      requires Linked(nodes) && nodes != [] && i <= |nodes|
      requires head == nodes[0] && tail == nodes[|nodes| - 1]
      requires temp !in nodes && temp.next == head
      requires cur == if i < |nodes| then nodes[i] else null
      requires prev == if i == 0 then temp else nodes[i - 1]
      modifies this`head, this`tail, this`nodes, nodes, temp
      ensures k == if i < |old(nodes)| then i else 0
      ensures taken == old(nodes)[k] && nodes == Without(old(nodes), k) && Linked(nodes)
      ensures nodes != [] ==> tail == nodes[|nodes| - 1]
      ensures head == if i < |old(nodes)| && !relinkHead then old(nodes)[0] else if nodes == [] then null else nodes[0]
    {
      hide Without;
      if cur == null {
        taken := TakeHead(prev);
        k := 0;
      } else {
        taken := cur;
        Unlink(prev, cur, temp, i, relinkHead);
        k := i;
      }
    }

    /** The counters after a node is unlinked, and what the worker receives. */
    method HandOut(cur: Node, ghost q: seq<Task>, ghost i: nat, ghost shortWorker: bool)
      returns (ret: int, train: Option<Task>)
      requires Linked(nodes) && (nodes != [] ==> tail == nodes[|nodes| - 1])
      requires Pick(q, shortWorker) == Some(i) && TasksOf(nodes) == Without(q, i) && cur.task == q[i]
      requires queueSize == |q| <= maxSize && shortCommandSize == |OfClass(q, false)|
      modifies this`queueSize, this`shortCommandSize
      ensures Kept() && ret == q[i].fd && train == Some(q[i])
    {
      hide OfClass, Without, TasksOf, Pick;
      ShortCount(q, shortWorker);
      queueSize := queueSize - 1;
      train := Some(cur.task);
      if cur.task.command != 5 && cur.task.command != 6 {
        shortCommandSize := shortCommandSize - 1;
      }
      ret := cur.task.fd;
    }

    /** No match and a long-capable worker: the head is taken. */
    method TakeHead(prev: Node) returns (cur: Node)
      requires Linked(nodes) && nodes != [] && head == nodes[0] && tail == nodes[|nodes| - 1]
      requires prev == nodes[|nodes| - 1]
      modifies this`head, this`tail, this`nodes, nodes
      ensures cur == old(nodes)[0] && nodes == Without(old(nodes), 0) && Linked(nodes)
      ensures nodes != [] ==> tail == nodes[|nodes| - 1]
      ensures head == if nodes == [] then null else nodes[0]
    {
      cur := head;
      head := head.next;
      if cur.next == null {
        tail := prev;
      }
      cur.next := null;
      nodes := Without(nodes, 0);
    }

    /** A match at index i is unlinked behind prev, which is the dummy for the first node. */
    method Unlink(prev: Node, cur: Node, temp: Node, ghost i: nat, relinkHead: bool)
      requires Linked(nodes) && i < |nodes| && cur == nodes[i]
      requires head == nodes[0] && tail == nodes[|nodes| - 1]
      requires temp !in nodes && temp.next == head && prev == if i == 0 then temp else nodes[i - 1]
      modifies this`head, this`tail, this`nodes, nodes, temp
      ensures nodes == Without(old(nodes), i) && Linked(nodes)
      ensures nodes != [] ==> tail == nodes[|nodes| - 1]
      ensures relinkHead ==> head == if nodes == [] then null else nodes[0]
      ensures !relinkHead ==> head == old(nodes)[0]
    {
      assert cur.next == if i == |nodes| - 1 then null else nodes[i + 1];
      prev.next := cur.next;
      if relinkHead {
        head := temp.next;
      }
      if cur.next == null {
        tail := prev;
      }
      cur.next := null;
      nodes := Without(nodes, i);
    }
  }

  /** Taking a task lowers the number of short tasks exactly when it is a short one. */
  lemma ShortCount(q: seq<Task>, shortWorker: bool)
    requires Pick(q, shortWorker).Some?
    ensures var i := Pick(q, shortWorker).value;
            |OfClass(Without(q, i), false)| == |OfClass(q, false)| - (if IsLong(q[i]) then 0 else 1)
  {
    hide OfClass, Without, Pick;
    PickTakesFirst(q, shortWorker);
  }

  lemma PickCases(q: seq<Task>, shortWorker: bool)
    ensures var i := First(q, !shortWorker);
            Pick(q, shortWorker) == if i < |q| then Some(i) else if shortWorker || q == [] then None else Some(0)
  {
  }

  lemma {:induction false} FirstIs(q: seq<Task>, long: bool, i: nat)
    requires i <= |q| && forall j :: 0 <= j < i ==> IsLong(q[j]) != long
    requires i < |q| ==> IsLong(q[i]) == long
    ensures First(q, long) == i
  {
    if q != [] && i > 0 {
      FirstIs(q[1..], long, i - 1);
    }
  }
}
