/**
 * The counted slots of the database connection pool, as values: what one call of get_connection or
 * release_connection does, and what holds in every run of workers that release only what they hold.
 */
module PoolRuns {
  import opened Prelude

  /** One slot: the connection it owns, and whether it is handed out. */
  datatype Slot = Slot(connection: int, inUse: bool)

  datatype Slots = Slots(connects: seq<Slot>, available: int)

  /** The first free slot, or the number of slots. */
  function FirstFree(c: seq<Slot>): (i: nat)
    ensures i <= |c|
    ensures i < |c| ==> !c[i].inUse
    ensures forall j :: 0 <= j < i ==> c[j].inUse
  {
    if c == [] then 0 else if !c[0].inUse then 0 else 1 + FirstFree(c[1..])
  }

  /** The slot that owns a connection, or the number of slots. */
  function Owner(c: seq<Slot>, connection: int): (i: nat)
    ensures i <= |c|
    ensures i < |c| ==> c[i].connection == connection
    ensures forall j :: 0 <= j < i ==> c[j].connection != connection
  {
    if c == [] then 0 else if c[0].connection == connection then 0 else 1 + Owner(c[1..], connection)
  }

  function Free(c: seq<Slot>): (n: nat)
    ensures n <= |c|
  {
    if c == [] then 0 else (if c[0].inUse then 0 else 1) + Free(c[1..])
  }

  function Mark(c: seq<Slot>, i: nat, inUse: bool): (r: seq<Slot>)
    requires i < |c|
    ensures |r| == |c|
  {
    c[i := c[i].(inUse := inUse)]
  }

  datatype Answer = Waits | Null | Given(connection: int)

  /** What get_connection does when the mutex is free: wait, return NULL, or hand out the first free slot. */
  function Ask(p: Slots): Answer {
    if p.available == 0 then Waits
    else if FirstFree(p.connects) == |p.connects| then Null
    else Given(p.connects[FirstFree(p.connects)].connection)
  }

  function AfterGet(p: Slots): Slots {
    if Ask(p).Given? then Slots(Mark(p.connects, FirstFree(p.connects), true), p.available - 1) else p
  }

  /** release_connection does not look at the slot's flag, and ignores a connection the pool does not own. */
  function AfterRelease(p: Slots, connection: int): Slots {
    var i := Owner(p.connects, connection);
    if i < |p.connects| then Slots(Mark(p.connects, i, false), p.available + 1) else p
  }

  ghost predicate Distinct(c: seq<Slot>) {
    forall i, j :: 0 <= i < j < |c| ==> c[i].connection != c[j].connection
  }

  /** The slots own different connections and the counter is the number of free ones. */
  ghost predicate Counted(p: Slots) {
    Distinct(p.connects) && p.available == Free(p.connects)
  }

  // ---------------------------------------------------------------------------
  // One call
  // ---------------------------------------------------------------------------

  lemma {:induction false} FreeMark(c: seq<Slot>, i: nat, inUse: bool)
    requires i < |c|
    ensures Free(Mark(c, i, inUse)) == Free(c) + (if c[i].inUse then 1 else 0) - (if inUse then 1 else 0)
  {
    if i == 0 {
      assert Mark(c, 0, inUse)[1..] == c[1..];
    } else {
      assert Mark(c, i, inUse)[1..] == Mark(c[1..], i - 1, inUse);
      FreeMark(c[1..], i - 1, inUse);
    }
  }

  lemma {:induction false} NoneFree(c: seq<Slot>)
    ensures Free(c) == 0 <==> FirstFree(c) == |c|
    ensures Free(c) == |c| <==> forall i :: 0 <= i < |c| ==> !c[i].inUse
  {
    if c != [] {
      NoneFree(c[1..]);
      if forall i :: 0 <= i < |c| ==> !c[i].inUse {
        assert !c[0].inUse;
        forall i | 0 <= i < |c[1..]| ensures !c[1..][i].inUse {
          assert c[1..][i] == c[i + 1];
        }
      }
    }
  }

  /** With a true counter, get_connection never returns NULL, waits only when every slot is out, and keeps the counter true. */
  lemma GetKeepsCounted(p: Slots)
    requires Counted(p)
    ensures !Ask(p).Null?
    ensures Ask(p).Waits? <==> forall i :: 0 <= i < |p.connects| ==> p.connects[i].inUse
    ensures Counted(AfterGet(p))
  {
    NoneFree(p.connects);
    if Ask(p).Given? {
      FreeMark(p.connects, FirstFree(p.connects), true);
    }
  }

  /** A release keeps the counter true exactly when the connection is handed out, or not the pool's at all. */
  lemma ReleaseKeepsCountedIff(p: Slots, connection: int)
    requires Counted(p)
    ensures var i := Owner(p.connects, connection);
            Counted(AfterRelease(p, connection)) <==> (i < |p.connects| ==> p.connects[i].inUse)
  {
    var i := Owner(p.connects, connection);
    if i < |p.connects| {
      FreeMark(p.connects, i, false);
    }
  }

  lemma OwnerOfSlot(c: seq<Slot>, i: nat)
    requires Distinct(c) && i < |c|
    ensures Owner(c, c[i].connection) == i
  {
  }

  /** Returning the connection that was handed out restores the pool. */
  lemma ReturnRestores(p: Slots)
    requires Counted(p) && Ask(p).Given?
    ensures AfterRelease(AfterGet(p), Ask(p).connection) == p
  {
    var i := FirstFree(p.connects);
    OwnerMark(p.connects, i, true, Ask(p).connection);
    OwnerOfSlot(p.connects, i);
    assert Mark(Mark(p.connects, i, true), i, false) == p.connects;
  }

  /** A second release of the same connection lets the pool reach its NULL return. */
  lemma DoubleReleaseReachesNull(a: int, b: int)
    requires a != b
    ensures var p := AfterGet(Slots([Slot(a, false), Slot(b, true)], 1));
            var q := AfterRelease(AfterRelease(p, a), a);
            && Counted(p) && Ask(AfterGet(q)).Null?
  {
    var p := AfterGet(Slots([Slot(a, false), Slot(b, true)], 1));
    assert p == Slots([Slot(a, true), Slot(b, true)], 0);
    assert p.connects[1..] == [Slot(b, true)];
    var once := AfterRelease(p, a);
    assert once == Slots([Slot(a, false), Slot(b, true)], 1);
    var q := AfterRelease(once, a);
    assert q == Slots([Slot(a, false), Slot(b, true)], 2);
    var r := AfterGet(q);
    assert r == Slots([Slot(a, true), Slot(b, true)], 1);
    assert r.connects[1..] == [Slot(b, true)];
    assert [Slot(b, true)][1..] == [];
  }

  // ---------------------------------------------------------------------------
  // Runs
  // ---------------------------------------------------------------------------

  /** The pool and the connection each worker holds; a query holds at most one. */
  datatype State = State(pool: Slots, held: seq<Option<int>>)

  datatype Event = Get(w: nat) | Release(w: nat)

  predicate Enabled(s: State, e: Event) {
    match e
    case Get(w) => w < |s.held| && s.held[w].None?
    case Release(w) => w < |s.held| && s.held[w].Some?
  }

  function Step(s: State, e: Event): State
    requires Enabled(s, e)
  {
    match e
    case Get(w) =>
      (match Ask(s.pool)
       case Given(c) => State(AfterGet(s.pool), s.held[w := Some(c)])
       case Null => s
       case Waits => s)
    case Release(w) => State(AfterRelease(s.pool, s.held[w].value), s.held[w := None])
  }

  function Init(connections: seq<int>, workers: nat): State {
    State(Slots(seq(|connections|, i requires 0 <= i < |connections| => Slot(connections[i], false)), |connections|),
          seq(workers, _ => None))
  }

  ghost predicate Run(states: seq<State>, events: seq<Event>, connections: seq<int>, workers: nat) {
    && |states| == |events| + 1
    && states[0] == Init(connections, workers)
    && forall i :: 0 <= i < |events| ==> Enabled(states[i], events[i]) && states[i + 1] == Step(states[i], events[i])
  }

  ghost predicate AllDifferent(connections: seq<int>) {
    forall i, j :: 0 <= i < j < |connections| ==> connections[i] != connections[j]
  }

  function Holders(held: seq<Option<int>>): (n: nat)
    ensures n <= |held|
  {
    if held == [] then 0 else (if held[0].Some? then 1 else 0) + Holders(held[1..])
  }

  /** A held connection is that of a slot in use. */
  ghost predicate Out(p: Slots, connection: int) {
    var i := Owner(p.connects, connection);
    i < |p.connects| && p.connects[i].inUse
  }

  /** The counter is true, every holder holds a different slot in use, and there are no other slots in use. */
  ghost predicate Sound(s: State) {
    && Counted(s.pool)
    && (forall w :: 0 <= w < |s.held| && s.held[w].Some? ==> Out(s.pool, s.held[w].value))
    && (forall v, w :: 0 <= v < w < |s.held| && s.held[v].Some? ==> s.held[v] != s.held[w])
    && Free(s.pool.connects) + Holders(s.held) == |s.pool.connects|
  }

  lemma {:induction false} HoldersUpdate(held: seq<Option<int>>, w: nat, x: Option<int>)
    requires w < |held|
    ensures Holders(held[w := x]) == Holders(held) - (if held[w].Some? then 1 else 0) + (if x.Some? then 1 else 0)
  {
    if w == 0 {
      assert held[0 := x][1..] == held[1..];
    } else {
      assert held[w := x][1..] == held[1..][w - 1 := x];
      HoldersUpdate(held[1..], w - 1, x);
    }
  }

  lemma {:induction false} HoldersBelow(held: seq<Option<int>>)
    ensures Holders(held) < |held| <==> exists w :: 0 <= w < |held| && held[w].None?
  {
    if held != [] {
      HoldersBelow(held[1..]);
      if exists w :: 0 <= w < |held| && held[w].None? {
        var w :| 0 <= w < |held| && held[w].None?;
        assert w > 0 ==> held[1..][w - 1].None?;
      }
    }
  }

  /** Marking a slot does not change who owns what. */
  lemma OwnerMark(c: seq<Slot>, i: nat, inUse: bool, connection: int)
    requires i < |c|
    ensures Owner(Mark(c, i, inUse), connection) == Owner(c, connection)
  {
    var a, b := Owner(c, connection), Owner(Mark(c, i, inUse), connection);
    assert forall j :: 0 <= j < |c| ==> Mark(c, i, inUse)[j].connection == c[j].connection;
    assert a < |c| ==> Mark(c, i, inUse)[a].connection == connection;
    assert b < |c| ==> c[b].connection == connection;
  }

  lemma GetKeepsSound(s: State, w: nat)
    requires Sound(s) && Enabled(s, Get(w))
    ensures Sound(Step(s, Get(w)))
  {
    hide Free, Holders, FirstFree, Owner;
    var p := s.pool;
    GetKeepsCounted(p);
    if Ask(p).Given? {
      var i := FirstFree(p.connects);
      var c := p.connects[i].connection;
      FreeMark(p.connects, i, true);
      HoldersUpdate(s.held, w, Some(c));
      OwnerOfSlot(p.connects, i);
      forall x ensures Owner(AfterGet(p).connects, x) == Owner(p.connects, x) {
        OwnerMark(p.connects, i, true, x);
      }
    }
  }

  lemma ReleaseKeepsSound(s: State, w: nat)
    requires Sound(s) && Enabled(s, Release(w))
    ensures Sound(Step(s, Release(w)))
  {
    hide Free, Holders, Owner;
    var p, c := s.pool, s.held[w].value;
    var i := Owner(p.connects, c);
    assert Out(p, c);
    ReleaseKeepsCountedIff(p, c);
    FreeMark(p.connects, i, false);
    HoldersUpdate(s.held, w, None);
    forall x ensures Owner(AfterRelease(p, c).connects, x) == Owner(p.connects, x) {
      OwnerMark(p.connects, i, false, x);
    }
    forall v | 0 <= v < |s.held| && v != w && s.held[v].Some?
      ensures Out(AfterRelease(p, c), s.held[v].value)
    {
      assert s.held[v] != s.held[w];
      assert Out(p, s.held[v].value);
    }
  }

  lemma InitSound(connections: seq<int>, workers: nat)
    requires AllDifferent(connections)
    ensures Sound(Init(connections, workers))
  {
    var s := Init(connections, workers);
    NoneFree(s.pool.connects);
    NoHolders(s.held);
  }

  lemma {:induction false} NoHolders(held: seq<Option<int>>)
    requires forall w :: 0 <= w < |held| ==> held[w].None?
    ensures Holders(held) == 0
  {
    if held != [] {
      NoHolders(held[1..]);
    }
  }

  /** In every reachable state: the counter is true, and no connection has two holders. */
  lemma {:induction false} RunSound(states: seq<State>, events: seq<Event>, connections: seq<int>, workers: nat, n: nat)
    requires AllDifferent(connections) && Run(states, events, connections, workers) && n < |states|
    ensures Sound(states[n])
    ensures |states[n].pool.connects| == |connections| && |states[n].held| == workers
  {
    if n == 0 {
      InitSound(connections, workers);
    } else {
      RunSound(states, events, connections, workers, n - 1);
      match events[n - 1]
      case Get(w) => GetKeepsSound(states[n - 1], w);
      case Release(w) => ReleaseKeepsSound(states[n - 1], w);
    }
  }

  /**
   * No run reaches the NULL return, and a worker that asks has to wait exactly when as many workers
   * as there are slots hold one.
   */
  lemma NeverNullWaitsIff(states: seq<State>, events: seq<Event>, connections: seq<int>, workers: nat, n: nat)
    requires AllDifferent(connections) && Run(states, events, connections, workers) && n < |states|
    ensures !Ask(states[n].pool).Null?
    ensures Ask(states[n].pool).Waits? <==> Holders(states[n].held) == |connections|
  {
    RunSound(states, events, connections, workers, n);
    GetKeepsCounted(states[n].pool);
  }

  /** With at least as many slots as workers, a worker that asks is given a connection, in every run. */
  lemma EnoughSlotsNeverWait(states: seq<State>, events: seq<Event>, connections: seq<int>, workers: nat, n: nat, w: nat)
    requires AllDifferent(connections) && Run(states, events, connections, workers) && n < |states|
    requires workers <= |connections| && Enabled(states[n], Get(w))
    ensures Ask(states[n].pool).Given?
  {
    RunSound(states, events, connections, workers, n);
    NeverNullWaitsIff(states, events, connections, workers, n);
    HoldersBelow(states[n].held);
  }

  /** With fewer slots than workers some run makes a worker wait: the first workers take them all. */
  lemma {:induction false} TooFewSlotsWait(connections: seq<int>, workers: nat, n: nat)
      returns (states: seq<State>, events: seq<Event>)
    requires AllDifferent(connections) && n <= |connections| < workers
    ensures |events| == n && Run(states, events, connections, workers)
    ensures |states[n].held| == workers && Holders(states[n].held) == n
    ensures Enabled(states[n], Get(n))
    ensures forall w :: n <= w < workers ==> states[n].held[w].None?
    ensures n == |connections| ==> Ask(states[n].pool).Waits?
  {
    hide AllDifferent, Sound, Holders, FirstFree, AfterGet, AfterRelease;
    if n == 0 {
      states, events := [Init(connections, workers)], [];
      NoHolders(states[0].held);
    } else {
      states, events := TooFewSlotsWait(connections, workers, n - 1);
      var s := states[n - 1];
      var next := Step(s, Get(n - 1));
      NeverNullWaitsIff(states, events, connections, workers, n - 1);
      RunSound(states, events, connections, workers, n - 1);
      HoldersUpdate(s.held, n - 1, Some(Ask(s.pool).connection));
      states, events := states + [next], events + [Get(n - 1)];
    }
    RunSound(states, events, connections, workers, n);
    NeverNullWaitsIff(states, events, connections, workers, n);
  }
}
