/** The database connection pool: the slots, the counter and the three operations, as they are under the mutex. */
module ConnectionPool {
  import opened PoolRuns

  const MAX_POOL_SIZE := 4

  /** Slot i, free while all before it are in use, is taken; the others stay. */
  predicate TookFirstFree(before: seq<Slot>, after: seq<Slot>, i: nat)
    requires i < |before|
  {
    && !before[i].inUse && (forall j :: 0 <= j < i ==> before[j].inUse)
    && after == before[i := Slot(before[i].connection, true)]
  }

  /** Slot i, the first that owns the connection, is free; the others stay. */
  predicate Freed(before: seq<Slot>, after: seq<Slot>, i: nat, connection: int)
    requires i < |before|
  {
    && before[i].connection == connection && (forall j :: 0 <= j < i ==> before[j].connection != connection)
    && after == before[i := Slot(connection, false)]
  }

  class Pool {
    const connects: array<Slot>
    var available: int

    ghost function Value(): Slots
      reads this, connects
    {
      Slots(connects[..], available)
    }

    ghost predicate Valid()
      reads this, connects
    {
      connects.Length == MAX_POOL_SIZE && Counted(Value())
    }

    /** A caller does not have to wait, or has waited. */
    ghost predicate Ready()
      reads this, connects
    {
      Valid() && available > 0
    }

    /** init_database_pool, given the connections that were opened. */
    constructor (connections: seq<int>)
      requires |connections| == MAX_POOL_SIZE && AllDifferent(connections)
      ensures Valid() && fresh(connects)
      ensures Value() == Init(connections, 0).pool
    {
      connects := new Slot[MAX_POOL_SIZE];
      available := MAX_POOL_SIZE;
      new;
      for i := 0 to MAX_POOL_SIZE
        invariant available == MAX_POOL_SIZE && fresh(connects)
        invariant forall j :: 0 <= j < i ==> connects[j] == Slot(connections[j], false)
      {
        connects[i] := Slot(connections[i], false);
      }
      assert Value() == Init(connections, 0).pool;
      InitSound(connections, 0);
    }

    /** get_connection; `Waits` is the caller blocked on the condition variable. */
    method Get() returns (a: Answer)
      modifies this`available, connects
      ensures a.Waits? <==> old(available) == 0
      ensures a.Given? ==>
                exists i :: 0 <= i < connects.Length && TookFirstFree(old(connects[..]), connects[..], i)
                            && a.connection == connects[i].connection && available == old(available) - 1
      ensures !a.Given? ==> Value() == old(Value())
      ensures a == old(Ask(Value())) && Value() == old(AfterGet(Value()))
      ensures old(Valid()) ==> Valid() && !a.Null?
    {
      if available == 0 {
        GetKeeps();
        return Waits;
      }
      for i := 0 to connects.Length
        invariant connects[..] == old(connects[..])
        invariant forall j :: 0 <= j < i ==> connects[j].inUse
      {
        if !connects[i].inUse {
          assert FirstFree(connects[..]) == i;
          GetKeeps();
          connects[i] := connects[i].(inUse := true);
          available := available - 1;
          return Given(connects[i].connection);
        }
      }
      assert FirstFree(connects[..]) == connects.Length;
      GetKeeps();
      return Null;
    }

    lemma GetKeeps()
      ensures Valid() ==> Counted(AfterGet(Value())) && !Ask(Value()).Null?
    {
      if Valid() {
        GetKeepsCounted(Value());
      }
    }

    /** release_connection: the counter stays true exactly when the connection was out, or is not the pool's. */
    method Release(connection: int)
      modifies this`available, connects
      ensures (exists i :: 0 <= i < connects.Length && old(connects[i]).connection == connection) ==>
                available == old(available) + 1
                && exists i :: 0 <= i < connects.Length && Freed(old(connects[..]), connects[..], i, connection)
      ensures (forall i :: 0 <= i < connects.Length ==> old(connects[i]).connection != connection) ==>
                Value() == old(Value())
      ensures Value() == old(AfterRelease(Value(), connection))
      ensures old(Valid()) ==>
        (Valid() <==> forall i :: 0 <= i < connects.Length && old(connects[i]).connection == connection ==> old(connects[i]).inUse)
    {
      if Valid() {
        ReleaseKeepsCountedIff(Value(), connection);
        OwnerIsOnly(connects[..], connection);
      }
      for i := 0 to connects.Length
        invariant connects[..] == old(connects[..]) && available == old(available)
        invariant forall j :: 0 <= j < i ==> connects[j].connection != connection
      {
        if connects[i].connection == connection {
          assert Owner(connects[..], connection) == i;
          connects[i] := connects[i].(inUse := false);
          available := available + 1;
          assert Freed(old(connects[..]), connects[..], i, connection);
          return;
        }
      }
      assert Owner(connects[..], connection) == connects.Length;
    }

    /** destory_database_pool: it closes every connection once, and with a true counter only when none is out. */
    method Destroy() returns (waits: bool, closed: seq<int>)
      requires connects.Length == MAX_POOL_SIZE
      ensures waits ==> closed == []
      ensures !waits ==> |closed| == MAX_POOL_SIZE && forall i :: 0 <= i < MAX_POOL_SIZE ==> closed[i] == connects[i].connection
      ensures Valid() ==> (waits <==> exists i :: 0 <= i < MAX_POOL_SIZE && connects[i].inUse)
    {
      closed := [];
      waits := available != MAX_POOL_SIZE;
      NoneFree(connects[..]);
      assert (exists i :: 0 <= i < MAX_POOL_SIZE && connects[i].inUse) <==>
             (exists i :: 0 <= i < MAX_POOL_SIZE && connects[..][i].inUse);
      if !waits {
        for i := 0 to MAX_POOL_SIZE
          invariant |closed| == i && forall j :: 0 <= j < i ==> closed[j] == connects[j].connection
        {
          closed := closed + [connects[i].connection];
        }
      }
    }
  }

  lemma OwnerIsOnly(c: seq<Slot>, connection: int)
    requires Distinct(c)
    ensures var i := Owner(c, connection);
            (i < |c| ==> c[i].inUse) <==> forall j :: 0 <= j < |c| && c[j].connection == connection ==> c[j].inUse
  {
  }

  /** The server's four workers never wait for one of its four connections. */
  lemma FourWorkersNeverWait(states: seq<State>, events: seq<Event>, connections: seq<int>, n: nat, w: nat)
    requires |connections| == MAX_POOL_SIZE && AllDifferent(connections) && Run(states, events, connections, 4)
    requires n < |states| && Enabled(states[n], Get(w))
    ensures Ask(states[n].pool).Given?
  {
    EnoughSlotsNeverWait(states, events, connections, 4, n, w);
  }
}
