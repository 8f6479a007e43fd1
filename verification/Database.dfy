/**
 * The query_* operations of the server over the three tables, each one atomic step. Methods take
 * what the database answered to query_cd's select as a parameter: every ordering of equal ids. They
 * take their connections from the pool, of which a slot is free when they start.
 */
module Database {
  import opened Prelude
  import opened Tables
  import opened PathScan
  import opened TableSteps
  import opened TableEffects
  import opened Paths
  import opened PathBuffers
  import opened ConnectionPool
  import PoolRuns

  class Store {
    var users: set<User>
    var files: map<nat, FileRow>
    var links: set<Link>
    var lastUser: nat
    var lastFile: nat
    var lastLink: nat

    constructor ()
      ensures Tab() == EMPTY_DB
    {
      users, files, links := {}, map[], {};
      lastUser, lastFile, lastLink := 0, 0, 0;
    }

    /** The tables as a value. */
    function Tab(): Db
      reads this
    {
      Db(users, files, links, lastUser, lastFile, lastLink)
    }

    /**
     * get_connection, by a caller that holds no connection: the pool is as it was at the start of
     * its query, `home`.
     */
    method Connect(pool: Pool, ghost home: PoolRuns.Slots) returns (connect: int)
      requires pool.Ready() && pool.Value() == home
      modifies pool`available, pool.connects
      ensures pool.Value() == PoolRuns.AfterGet(home) && PoolRuns.Ask(home) == PoolRuns.Given(connect)
    {
      var a := pool.Get();
      connect := a.connection;
    }

    /** release_connection of the connection taken last: the pool is as at the start again. */
    method Disconnect(pool: Pool, connect: int, ghost home: PoolRuns.Slots)
      requires PoolRuns.Counted(home) && PoolRuns.Ask(home) == PoolRuns.Given(connect)
      requires pool.Value() == PoolRuns.AfterGet(home)
      modifies pool`available, pool.connects
      ensures pool.Value() == home
    {
      PoolRuns.ReturnRestores(home);
      pool.Release(connect);
    }

    /** query_cd: one pass over the rows, advancing through the path at each confirmed component. */
    method QueryCd(pool: Pool, path: string, user: nat, rows: seq<Link>) returns (ret: int)
      requires pool.Ready()
      requires path != "" && Answer(Tab(), user, rows)
      modifies pool`available, pool.connects
      ensures pool.Value() == old(pool.Value())
      ensures ret == Cd(rows, Components(path))
      ensures ret < 0 <==> rows == []
      ensures Tree(Tab()) && Ordered(Tab(), user) && Registered(Tab(), user) ==>
                ret == Walked(Tab(), user, Components(path))
    {
      ghost var home := pool.Value();
      var connect := Connect(pool, home);
      if |rows| == 0 {
        ghost var isTree := Tree(Tab()) && Registered(Tab(), user);
        if isTree { RegisteredHasRows(Tab(), user, rows); }
        Disconnect(pool, connect, home);
        return -1;
      }
      var pathName := SplitFileName(path);
      var parentId, pathConfirm, i := rows[0].parent, 0, 0;
      while i < |rows|
        invariant 0 <= i <= |rows| && 0 <= pathConfirm <= |pathName|
        invariant Scan(rows, pathName, i, parentId, pathConfirm) == Scan(rows, pathName, 0, rows[0].parent, 0)
      {
        if pathConfirm == |pathName| {
          break;
        }
        if rows[i].name == pathName[pathConfirm] && parentId == rows[i].parent {
          parentId := rows[i].file;
          pathConfirm := pathConfirm + 1;
        }
        i := i + 1;
      }
      Disconnect(pool, connect, home);
      ret := if pathConfirm == |pathName| then parentId else 0;
      if Tree(Tab()) && Ordered(Tab(), user) && Registered(Tab(), user) {
        CdIsWalk(Tab(), user, rows, pathName);
      }
    }

    /** user_register: the user row, a directory row and the root row in one transaction. */
    method UserRegister(pool: Pool, account: string, hashWord: string) returns (ret: int)
      requires pool.Ready()
      requires Referential(Tab())
      modifies this, pool`available, pool.connects
      ensures pool.Value() == old(pool.Value())
      ensures ret > 0 ==> users == old(users) + {User(ret, account, hashWord)} && ret > old(lastUser)
      ensures ret <= 0 <==> exists u :: u in old(users) && u.name == account
      ensures Next(old(Tab()), CmdRegister(account, hashWord), Tab(), ret)
    {
      ghost var home := pool.Value();
      var connect := Connect(pool, home);
      if exists u :: u in users && u.name == account {
        Disconnect(pool, connect, home);
        return 0;
      }
      lastUser := lastUser + 1;
      users := users + {User(lastUser, account, hashWord)};
      InsertFile(DIR_ROW);
      InsertLink(account, lastUser, lastFile, 0);
      Disconnect(pool, connect, home);
      ret := lastUser;
    }

    method InsertFile(row: FileRow)
      modifies this
      ensures Tab() == AddFile(old(Tab()), row)
    {
      lastFile := lastFile + 1;
      files := files[lastFile := row];
    }

    method InsertLink(name: string, user: nat, file: nat, parent: nat)
      modifies this
      ensures Tab() == Bind(old(Tab()), user, name, file, parent)
    {
      lastLink := lastLink + 1;
      links := links + {Link(lastLink, name, user, file, parent)};
    }

    /** query_mkdir: -1 without rows, 0 for an illegal path, 1 for a namesake, 2 on success. */
    method QueryMkdir(pool: Pool, path: string, dirName: string, user: nat, rows: seq<Link>) returns (ret: int)
      requires pool.Ready()
      requires path != "" && Referential(Tab()) && Answer(Tab(), user, rows)
      modifies this, pool`available, pool.connects
      ensures pool.Value() == old(pool.Value())
      ensures Next(old(Tab()), CmdMkdir(user, Components(path), dirName, rows), Tab(), ret)
    {
      var curDirId := QueryCd(pool, path, user, rows);
      if curDirId <= 0 {
        return curDirId;
      }
      ghost var home := pool.Value();
      var connect := Connect(pool, home);
      if Namesakes(Tab(), curDirId, dirName) != {} {
        Disconnect(pool, connect, home);
        return 1;
      }
      InsertFile(DIR_ROW);
      InsertLink(dirName, user, lastFile, curDirId);
      Disconnect(pool, connect, home);
      ret := 2;
    }

    /**
     * query_puts: -2 without rows, -1 for an illegal path, 0 for another file of that name,
     * 1 if content is to be sent, 2 if it is complete already.
     */
    method QueryPuts(pool: Pool, path: string, fileName: string, hashValue: string, user: nat, rows: seq<Link>)
      returns (ret: int)
      requires pool.Ready()
      requires path != "" && Referential(Tab()) && Answer(Tab(), user, rows)
      modifies this, pool`available, pool.connects
      ensures pool.Value() == old(pool.Value())
      ensures Next(old(Tab()), CmdPuts(user, Components(path), fileName, hashValue, rows), Tab(), ret)
    {
      var curDirId := QueryCd(pool, path, user, rows);
      if curDirId < 0 {
        return -2;
      }
      if curDirId == 0 {
        return -1;
      }
      ghost var home := pool.Value();
      var connect := Connect(pool, home);
      var same := Namesakes(Tab(), curDirId, fileName);
      if same != {} {
        var first :| first in same;
        var row := files[first.file];
        ret := if hashValue == HashText(row) then Progress(row) else 0;
        Disconnect(pool, connect, home);
        return;
      }
      var hits := Stored(Tab(), hashValue);
      if hits == {} {
        InsertFile(NewFileRow(hashValue));
        InsertLink(fileName, user, lastFile, curDirId);
        Disconnect(pool, connect, home);
        return 1;
      }
      var id :| id in hits;
      ret := Progress(files[id]);
      InsertLink(fileName, user, id, curDirId);
      Disconnect(pool, connect, home);
    }

    /** query_update: the stored content with this hash becomes complete; no path changes its meaning. */
    method QueryUpdate(pool: Pool, hashValue: string)
      requires pool.Ready()
      requires Referential(Tab())
      modifies this`files, pool`available, pool.connects
      ensures pool.Value() == old(pool.Value())
      ensures files.Keys == old(files.Keys)
      ensures forall f :: f in files ==>
                && files[f].kind == old(files)[f].kind && files[f].hash == old(files)[f].hash
                && (files[f].complete <==> old(files)[f].complete || old(files)[f].hash == Some(hashValue))
      ensures Next(old(Tab()), CmdUpdate(hashValue), Tab(), 0)
      ensures forall user, path :: Resolve(Tab(), user, path) == old(Resolve(Tab(), user, path))
    {
      ghost var home := pool.Value();
      var connect := Connect(pool, home);
      files := Complete(Tab(), hashValue).files;
      Disconnect(pool, connect, home);
    }

    /** query_remove: 0 on success (and for an illegal path), 1 if nothing matches, 2 for a non-empty directory. */
    method QueryRemove(pool: Pool, path: string, fileName: string, user: nat, rows: seq<Link>) returns (ret: int)
      requires pool.Ready()
      requires path != "" && Referential(Tab()) && Answer(Tab(), user, rows)
      modifies this, pool`available, pool.connects
      ensures pool.Value() == old(pool.Value())
      ensures Next(old(Tab()), CmdRemove(user, Components(path), fileName, rows), Tab(), ret)
    {
      var curDirId := QueryCd(pool, path, user, rows);
      if curDirId <= 0 {
        return curDirId;
      }
      ghost var home := pool.Value();
      var connect := Connect(pool, home);
      var matches := Candidates(Tab(), user, curDirId, fileName);
      if matches == {} {
        Disconnect(pool, connect, home);
        return 1;
      }
      var first :| first in matches;
      var fileId := first.file;
      if files[fileId].kind.Dir? && exists l :: l in links && l.parent == fileId {
        Disconnect(pool, connect, home);
        return 2;
      }
      links := Unlink(links, user, fileId);
      Disconnect(pool, connect, home);
      ret := 0;
    }

    /** query_gets: the hash of a complete regular file at the path, or why there is none. */
    method QueryGets(pool: Pool, path: string, fileName: string, user: nat, rows: seq<Link>)
      returns (ret: int, hash: string)
      requires pool.Ready()
      requires path != "" && Referential(Tab()) && Answer(Tab(), user, rows)
      modifies pool`available, pool.connects
      ensures pool.Value() == old(pool.Value())
      ensures Cd(rows, Components(path)) < 0 ==> ret == -1
      ensures Cd(rows, Components(path)) >= 0 ==> ret in {0, 1}
      ensures Tree(Tab()) && Ordered(Tab(), user) && Registered(Tab(), user) ==>
                match Resolve(Tab(), user, Components(path) + [fileName])
                case None => ret == 0
                case Some(f) =>
                  && (ret == 1 <==> Hands(Tab(), user, Components(path) + [fileName]))
                  && f in files
                  && (ret == 1 <==> files[f].kind.File? && files[f].complete)
                  && (ret == 1 ==> files[f].hash == Some(hash))
    {
      var curDirId := QueryCd(pool, path, user, rows);
      if Tree(Tab()) && Ordered(Tab(), user) && Registered(Tab(), user) {
        GettableIsEntry(Tab(), user, Components(path), fileName);
      }
      if curDirId < 0 {
        return -1, "";
      }
      if curDirId == 0 {
        return 0, "";
      }
      ghost var home := pool.Value();
      var connect := Connect(pool, home);
      var hits := Gettable(Tab(), user, curDirId, fileName);
      if hits == {} {
        Disconnect(pool, connect, home);
        return 0, "";
      }
      var id :| id in hits;
      if !files[id].complete {
        Disconnect(pool, connect, home);
        return 0, "";
      }
      Disconnect(pool, connect, home);
      return 1, HashText(files[id]);
    }
  }

  /** The path names a complete regular file. */
  ghost predicate Hands(db: Db, user: nat, path: seq<string>) {
    match Resolve(db, user, path)
    case None => false
    case Some(f) => f in db.files && db.files[f].kind.File? && db.files[f].complete
  }

  /** After an update exactly those paths are handed out that were before, or name content with its hash. */
  lemma UpdateHandsIff(db: Db, cmd: Command, db': Db, ret: int, user: nat, path: seq<string>)
    requires Tree(db) && cmd.CmdUpdate? && Next(db, cmd, db', ret) && path != []
    ensures Hands(db', user, path) <==>
            Hands(db, user, path) ||
            match Resolve(db, user, path)
            case None => false
            case Some(f) => f in db.files && db.files[f].hash == Some(cmd.hash)
  {
    StepKeepsFiles(db, cmd, db', ret);
    assert Resolve(db', user, path) == Resolve(db, user, path);
  }

  /** The regular files linked under the name in the user's directory. */
  function Gettable(db: Db, user: nat, dir: int, name: string): set<nat>
    requires Referential(db)
  {
    set l | l in db.links && l.user == user && l.parent == dir && l.name == name && db.files[l.file].kind.File? :: l.file
  }

  /** In a tree they are what the path with the name resolves to, if that is a regular file. */
  lemma GettableIsEntry(db: Db, user: nat, path: seq<string>, name: string)
    requires Tree(db)
    ensures Resolve(db, user, path) == None ==> Resolve(db, user, path + [name]) == None
    ensures match Resolve(db, user, path)
            case None => true
            case Some(dir) =>
              match Resolve(db, user, path + [name])
              case None => Gettable(db, user, dir, name) == {}
              case Some(f) => f in db.files && Gettable(db, user, dir, name) == if IsDir(db, f) then {} else {f}
  {
    WalkAppend(db.links, user, 0, path, [name]);
    if Resolve(db, user, path).Some? {
      var dir := Resolve(db, user, path).value;
      forall l | l in db.links && IsChild(l, user, dir, name)
        ensures Resolve(db, user, path + [name]) == Some(l.file)
      {
        WalkStep(db.links, l, [name]);
      }
      if Resolve(db, user, path + [name]).Some? {
        var l := WalkEnds(db.links, user, 0, path + [name]);
        assert (path + [name])[..|path|] == path;
      }
    }
  }
}
