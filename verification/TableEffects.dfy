/**
 * What the steps do to the map from paths to files, when they keep the order that query_cd's
 * single pass needs, and what holds in every run.
 */
module TableEffects {
  import opened Prelude
  import opened Tables
  import opened PathScan
  import opened TableSteps

  // ---------------------------------------------------------------------------
  // One inserted row adds one key; unlinking a file removes that user's keys bound to it
  // ---------------------------------------------------------------------------

  /** `path` walks to `parent` and then takes the name. */
  ghost predicate NamesEntry(links: set<Link>, user: nat, from: nat, path: seq<string>, parent: nat, name: string) {
    path != [] && path[|path| - 1] == name && Walk(links, user, from, path[..|path| - 1]) == Some(parent)
  }

  lemma {:induction false} InsertWalk(links: set<Link>, n: Link, user: nat, from: nat, path: seq<string>)
    requires SiblingsUnique(links + {n}) && n !in links
    requires n.parent != n.file && forall l :: l in links ==> l.parent != n.file
    ensures Walk(links + {n}, user, from, path) ==
            if user == n.user && NamesEntry(links, user, from, path, n.parent, n.name) then Some(n.file)
            else Walk(links, user, from, path)
    decreases |path|
  {
    var links' := links + {n};
    if path != [] {
      var rest := path[1..];
      if IsChild(n, user, from, path[0]) {
        assert !HasChild(links, user, from, path[0]) by {
          forall l | l in links ensures !IsChild(l, user, from, path[0]) {}
        }
        WalkStep(links', n, path);
        assert rest != [] ==> !HasChild(links', user, n.file, rest[0]);
        assert rest == [] ==> path[..|path| - 1] == [];
        assert rest != [] ==> path[..|path| - 1] != [] && path[..|path| - 1][0] == path[0];
      } else if HasChild(links, user, from, path[0]) {
        var l := Child(links, user, from, path[0]);
        WalkStep(links', l, path);
        InsertWalk(links, n, user, l.file, rest);
        if rest != [] {
          assert path[..|path| - 1][1..] == rest[..|rest| - 1];
        } else {
          assert path[..|path| - 1] == [];
        }
      } else {
        assert !HasChild(links', user, from, path[0]);
        if rest != [] {
          assert path[..|path| - 1][0] == path[0];
        } else {
          assert path[..|path| - 1] == [];
        }
      }
    }
  }

  lemma {:induction false} UnlinkWalk(links: set<Link>, owner: nat, file: nat, user: nat, from: nat, path: seq<string>)
    requires SiblingsUnique(links)
    requires forall l :: l in links ==> l.parent != file
    ensures Walk(Unlink(links, owner, file), user, from, path) ==
            if user == owner && path != [] && Walk(links, user, from, path) == Some(file) then None
            else Walk(links, user, from, path)
    decreases |path|
  {
    var links' := Unlink(links, owner, file);
    if path != [] {
      if HasChild(links, user, from, path[0]) {
        var l := Child(links, user, from, path[0]);
        WalkStep(links, l, path);
        if l in links' {
          WalkStep(links', l, path);
          UnlinkWalk(links, owner, file, user, l.file, path[1..]);
        } else {
          assert path[1..] != [] ==> !HasChild(links, user, file, path[1..][0]);
          forall m | m in links' ensures !IsChild(m, user, from, path[0]) {}
        }
      } else {
        assert !HasChild(links', user, from, path[0]);
      }
    }
  }

  // ---------------------------------------------------------------------------
  // The steps on the map from paths to files
  // ---------------------------------------------------------------------------

  /** With the root first, query_cd's positive answer is what the walk reaches. */
  lemma TargetIsResolved(db: Db, cmd: Command)
    requires Tree(db) && HasTarget(cmd) && cmd.path != [] && Answer(db, cmd.user, cmd.rows)
    requires RootFirst(cmd.rows) && Target(cmd) > 0
    ensures Resolve(db, cmd.user, cmd.path) == Some(Target(cmd))
  {
    CdIsAWalk(db, cmd.user, cmd.rows, cmd.path);
  }

  /** Stored content is stored once. */
  lemma StoredOnce(db: Db, hash: string, f: nat)
    requires HashesUnique(db) && f in Stored(db, hash)
    ensures Stored(db, hash) == {f}
  {
    assert forall g :: g in Stored(db, hash) ==> SameHash(db.files[f], db.files[g]);
  }

  lemma NobodyBelow(db: Db, file: nat)
    requires Tree(db) && (file > db.lastFile || (file in db.files && !IsDir(db, file)))
    ensures forall l :: l in db.links ==> l.parent != file
  {
    forall l | l in db.links ensures l.parent != file {
      assert l.parent != 0 ==> LiveDir(db, l.user, l.parent);
    }
  }

  /**
   * A successful mkdir or puts adds exactly one key, the target path with the new name, which
   * resolved to nothing before; every other path of every user resolves as before.
   */
  lemma InsertEffect(db: Db, cmd: Command, db': Db, ret: int) returns (file: nat)
    requires Tree(db) && Next(db, cmd, db', ret) && Inserts(db, cmd) && DirTarget(db, cmd)
    requires RootFirst(cmd.rows)
    ensures cmd.CmdMkdir? ==> file !in db.files && IsDir(db', file)
    ensures cmd.CmdPuts? ==> Stored(db', cmd.hash) == {file}
    ensures Resolve(db, cmd.user, cmd.path + [cmd.name]) == None
    ensures forall user, path :: path != [] ==>
              Resolve(db', user, path) ==
              if user == cmd.user && path == cmd.path + [cmd.name] then Some(file) else Resolve(db, user, path)
  {
    var n := InsertForm(db, cmd, db', ret);
    file := n.file;
    StepKeepsTreeIff(db, cmd, db', ret);
    TargetIsResolved(db, cmd);
    InsertedFileIsLeaf(db, cmd, db', n);
    InsertedKeyIsFree(db, cmd);
    forall user, path | path != []
      ensures Resolve(db', user, path) ==
              if user == cmd.user && path == cmd.path + [cmd.name] then Some(file) else Resolve(db, user, path)
    {
      InsertWalk(db.links, n, user, 0, path);
      EntryIsKey(db, cmd, path);
    }
  }

  lemma InsertedFileIsLeaf(db: Db, cmd: Command, db': Db, n: Link)
    requires Tree(db) && (cmd.CmdMkdir? || cmd.CmdPuts?) && InsertedAs(db, cmd, db', n)
    requires DirTarget(db, cmd)
    ensures n.parent != n.file && forall l :: l in db.links ==> l.parent != n.file
    ensures cmd.CmdMkdir? ==> n.file !in db.files && IsDir(db', n.file)
    ensures cmd.CmdPuts? ==> Stored(db', cmd.hash) == {n.file}
  {
    NobodyBelow(db, n.file);
    if cmd.CmdPuts? {
      if StoresNew(db, cmd) {
        assert forall g :: g in Stored(db', cmd.hash) && g in db.files ==> g in Stored(db, cmd.hash);
      } else {
        StoredOnce(db, cmd.hash, n.file);
      }
    }
  }

  lemma InsertedKeyIsFree(db: Db, cmd: Command)
    requires (cmd.CmdMkdir? || cmd.CmdPuts?) && Target(cmd) > 0
    requires Resolve(db, cmd.user, cmd.path) == Some(Target(cmd))
    requires Namesakes(db, Target(cmd), cmd.name) == {}
    ensures Resolve(db, cmd.user, cmd.path + [cmd.name]) == None
  {
    WalkAppend(db.links, cmd.user, 0, cmd.path, [cmd.name]);
    forall l | l in db.links ensures !IsChild(l, cmd.user, Target(cmd), cmd.name) {
      assert l !in Namesakes(db, Target(cmd), cmd.name);
    }
  }

  lemma EntryIsKey(db: Db, cmd: Command, path: seq<string>)
    requires Tree(db) && (cmd.CmdMkdir? || cmd.CmdPuts?) && DirTarget(db, cmd)
    requires Resolve(db, cmd.user, cmd.path) == Some(Target(cmd)) && path != []
    ensures NamesEntry(db.links, cmd.user, 0, path, Target(cmd), cmd.name) <==> path == cmd.path + [cmd.name]
  {
    if NamesEntry(db.links, cmd.user, 0, path, Target(cmd), cmd.name) {
      DirPathUnique(db, cmd.user, path[..|path| - 1], cmd.path, Target(cmd));
    }
  }

  /**
   * A successful rm removes exactly the user's keys bound to one file that is linked in the target
   * directory; for a directory this is one key. Every other path of every user resolves as before.
   */
  lemma RemoveEffect(db: Db, cmd: Command, db': Db) returns (file: nat, name: string)
    requires Tree(db) && cmd.CmdRemove? && Next(db, cmd, db', 0) && Target(cmd) > 0
    requires RootFirst(cmd.rows)
    ensures LinkedIn(db, cmd.user, Target(cmd), file) && Like(cmd.pattern, name)
    ensures exists c :: c in db.links && c.file == file && c.name == name
    ensures forall user, path :: path != [] ==>
              Resolve(db', user, path) ==
              if user == cmd.user && Resolve(db, user, path) == Some(file) then None else Resolve(db, user, path)
    ensures IsDir(db, file) ==>
              forall path :: Resolve(db, cmd.user, path) == Some(file) <==> path == cmd.path + [name]
  {
    TargetIsResolved(db, cmd);
    var c, l := RemoveForm(db, cmd, db');
    file, name := c.file, c.name;
    forall user, path | path != []
      ensures Resolve(db', user, path) ==
              if user == cmd.user && Resolve(db, user, path) == Some(file) then None else Resolve(db, user, path)
    {
      UnlinkWalk(db.links, cmd.user, file, user, 0, path);
    }
    if IsDir(db, file) {
      DirHasOneKey(db, cmd.user, cmd.path, c);
    }
  }

  lemma RemoveForm(db: Db, cmd: Command, db': Db) returns (c: Link, l: Link)
    requires Tree(db) && cmd.CmdRemove? && Next(db, cmd, db', 0) && Target(cmd) > 0
    ensures c in db.links && Like(cmd.pattern, c.name)
    ensures l in db.links && l.user == cmd.user && l.parent == Target(cmd) && l.file == c.file
    ensures IsDir(db, c.file) ==> c == l
    ensures db' == db.(links := Unlink(db.links, cmd.user, c.file))
    ensures forall m :: m in db.links ==> m.parent != c.file
  {
    c :| c in Candidates(db, cmd.user, Target(cmd), cmd.pattern) && (db', 0) == RemoveFile(db, cmd.user, c.file);
    l := CandidateIsEntry(db, cmd.user, Target(cmd), cmd.pattern, c);
  }

  lemma DirHasOneKey(db: Db, user: nat, parentPath: seq<string>, l: Link)
    requires Tree(db) && l in db.links && l.user == user && IsDir(db, l.file)
    requires Resolve(db, user, parentPath) == Some(l.parent)
    ensures forall path :: Resolve(db, user, path) == Some(l.file) <==> path == parentPath + [l.name]
  {
    WalkAppend(db.links, user, 0, parentPath, [l.name]);
    WalkStep(db.links, l, [l.name]);
    forall path ensures Resolve(db, user, path) == Some(l.file) <==> path == parentPath + [l.name] {
      if Resolve(db, user, path) == Some(l.file) {
        DirPathUnique(db, user, path, parentPath + [l.name], l.file);
      }
    }
  }

  /** A registration gives the new user one key, the root; nobody else's paths change. */
  lemma RegisterEffect(db: Db, name: string, password: string)
    requires Tree(db) && Register(db, name, password).1 > 0
    ensures var (db', id) := Register(db, name, password);
            forall user, path :: path != [] ==>
              Resolve(db', user, path) ==
              if user == id then if path == [name] then Some(db.lastFile + 1) else None
              else Resolve(db, user, path)
  {
    hide Tree, Resolve;
    var (db', id) := Register(db, name, password);
    forall user, path | path != []
      ensures Resolve(db', user, path) ==
              if user == id then if path == [name] then Some(db.lastFile + 1) else None
              else Resolve(db, user, path)
    {
      RegisterWalk(db, name, password, user, path);
    }
  }

  lemma RegisterWalk(db: Db, name: string, password: string, user: nat, path: seq<string>)
    requires Tree(db) && Register(db, name, password).1 > 0 && path != []
    ensures Resolve(Register(db, name, password).0, user, path) ==
            if user == db.lastUser + 1 then if path == [name] then Some(db.lastFile + 1) else None
            else Resolve(db, user, path)
  {
    hide Resolve, Walk, NamesEntry, Tree, SiblingsUnique;
    var id := db.lastUser + 1;
    var root := Link(db.lastLink + 1, name, id, db.lastFile + 1, 0);
    RootRowIsNew(db, name, password, root);
    InsertResolves(db.links, root, db, Register(db, name, password).0, user, path);
    StrangerHasNothing(db, id, path);
    RootEntry(db, id, path, name);
  }

  lemma RootRowIsNew(db: Db, name: string, password: string, root: Link)
    requires Tree(db) && Register(db, name, password).1 > 0
    requires root == Link(db.lastLink + 1, name, db.lastUser + 1, db.lastFile + 1, 0)
    ensures Register(db, name, password).0.links == db.links + {root} && SiblingsUnique(db.links + {root})
    ensures Referential(db) && root !in db.links && forall l :: l in db.links ==> l.parent != root.file
  {
    RegisterKeepsTree(db, name, password);
    NobodyBelow(db, db.lastFile + 1);
  }

  lemma InsertResolves(links: set<Link>, n: Link, db: Db, db': Db, user: nat, path: seq<string>)
    requires SiblingsUnique(links + {n}) && n !in links && n.parent != n.file && forall l :: l in links ==> l.parent != n.file
    requires db.links == links && db'.links == links + {n}
    ensures Resolve(db', user, path) ==
            if user == n.user && NamesEntry(links, user, 0, path, n.parent, n.name) then Some(n.file)
            else Resolve(db, user, path)
  {
    InsertWalk(links, n, user, 0, path);
  }

  /** A user that is not registered has no paths. */
  lemma StrangerHasNothing(db: Db, user: nat, path: seq<string>)
    requires Referential(db) && user > db.lastUser && path != []
    ensures Resolve(db, user, path) == None
  {
    forall l | l in db.links ensures l.user != user {
      assert Registered(db, l.user);
    }
    if Resolve(db, user, path).Some? {
      var l := WalkEnds(db.links, user, 0, path);
    }
  }

  /** The root's entry is named by its name alone. */
  lemma RootEntry(db: Db, user: nat, path: seq<string>, name: string)
    requires Referential(db)
    ensures NamesEntry(db.links, user, 0, path, 0, name) <==> path == [name]
  {
    if NamesEntry(db.links, user, 0, path, 0, name) {
      OnlyEmptyPathAtTop(db, user, path[..|path| - 1]);
    }
  }

  // ---------------------------------------------------------------------------
  // The order of the rows
  // ---------------------------------------------------------------------------

  /** The content is already stored, under an id that is not above the target directory's. */
  ghost predicate SharesOlder(db: Db, cmd: Command) {
    cmd.CmdPuts? && exists f :: f in Stored(db, cmd.hash) && f <= Target(cmd)
  }

  /** A step keeps a user's rows in order unless that user's upload shares an older file. */
  lemma StepKeepsOrderIff(db: Db, cmd: Command, db': Db, ret: int, user: nat)
    requires Tree(db) && Next(db, cmd, db', ret) && Ordered(db, user)
    ensures Ordered(db', user) <==> !(Inserts(db, cmd) && cmd.user == user && SharesOlder(db, cmd))
  {
    if Inserts(db, cmd) {
      var n := InsertForm(db, cmd, db', ret);
      var l := TargetRow(db, cmd, db', ret);
      InsertOrderIff(db, cmd, db', n, user);
    } else if cmd.CmdMkdir? || cmd.CmdPuts? {
      InsertsOrUnchanged(db, cmd, db', ret);
    }
  }

  lemma InsertOrderIff(db: Db, cmd: Command, db': Db, n: Link, user: nat)
    requires Tree(db) && (cmd.CmdMkdir? || cmd.CmdPuts?) && InsertedAs(db, cmd, db', n)
    requires n.parent in db.files && Ordered(db, user)
    ensures Ordered(db', user) <==> !(cmd.user == user && SharesOlder(db, cmd))
  {
    assert n in db'.links;
    if cmd.CmdPuts? && !StoresNew(db, cmd) {
      StoredOnce(db, cmd.hash, n.file);
    }
  }

  /**
   * After a step between trees, query_cd still agrees with the walk on every path of the user
   * exactly when the step did not share an older file into the user's tree.
   */
  lemma StepKeepsCdIff(db: Db, cmd: Command, db': Db, ret: int, user: nat, rows: seq<Link>)
    requires Tree(db) && Next(db, cmd, db', ret) && Tree(db') && Ordered(db, user)
    requires Registered(db', user) && Answer(db', user, rows)
    ensures (forall path :: path != [] ==> Cd(rows, path) == Walked(db', user, path))
            <==> !(Inserts(db, cmd) && cmd.user == user && SharesOlder(db, cmd))
  {
    StepKeepsOrderIff(db, cmd, db', ret, user);
    CdAgreesIff(db', user, rows);
  }

  /** Every row of an ordered tree is at or above the user's root. */
  lemma {:induction false} RootIsLowest(db: Db, root: Link, l: Link)
    requires Tree(db) && root in db.links && root.parent == 0
    requires l in db.links && l.user == root.user && Ordered(db, l.user)
    ensures root.file <= l.file
    decreases l.parent
  {
    if l.parent != 0 {
      RootIsLowest(db, root, ParentRow(db, l));
    }
  }

  lemma RootIsLowestOfAll(db: Db, root: Link)
    requires Tree(db) && root in db.links && root.parent == 0 && Ordered(db, root.user)
    ensures forall l :: l in db.links && l.user == root.user ==> root.file <= l.file
  {
    forall l | l in db.links && l.user == root.user ensures root.file <= l.file {
      RootIsLowest(db, root, l);
    }
  }

  /** Sharing content stored before the user registered makes the user's whole namespace unreachable. */
  lemma SharingBelowRootHidesAll(db: Db, cmd: Command, db': Db, ret: int, u: User, root: Link, f: nat, rows: seq<Link>)
    requires Tree(db) && Next(db, cmd, db', ret) && Inserts(db, cmd) && DirTarget(db, cmd)
    requires u in db.users && cmd.user == u.id && Ordered(db, u.id)
    requires root in db.links && root.user == u.id && root.parent == 0
    requires cmd.CmdPuts? && f in Stored(db, cmd.hash) && f < root.file
    requires Answer(db', u.id, rows)
    ensures Resolve(db', u.id, [u.name]).Some? && Cd(rows, [u.name]) != Walked(db', u.id, [u.name])
  {
    hide Tree, Next, Inserts, DirTarget, Answer, Stored, Resolve, Walked, Cd, Ordered;
    var n := SharedRow(db, cmd, db', ret, f);
    RootIsLowestOfAll(db, root);
    SharedHidesRoot(db', u, n, rows);
  }

  lemma SharedRow(db: Db, cmd: Command, db': Db, ret: int, f: nat) returns (n: Link)
    requires Tree(db) && Next(db, cmd, db', ret) && Inserts(db, cmd)
    requires DirTarget(db, cmd) && cmd.CmdPuts? && f in Stored(db, cmd.hash)
    ensures n.user == cmd.user && n.file == f && n.parent > 0
    ensures Tree(db') && db'.links == db.links + {n} && db'.users == db.users
  {
    InsertUnderDirKeepsTree(db, cmd, db', ret);
    n := InsertForm(db, cmd, db', ret);
    StoredOnce(db, cmd.hash, f);
  }

  lemma SharedHidesRoot(db: Db, u: User, n: Link, rows: seq<Link>)
    requires Tree(db) && u in db.users && Answer(db, u.id, rows)
    requires n in db.links && n.user == u.id && n.parent > 0
    requires forall l :: l in db.links && l.user == u.id && l != n ==> n.file < l.file
    ensures Resolve(db, u.id, [u.name]).Some? && Cd(rows, [u.name]) != Walked(db, u.id, [u.name])
  {
    LowestComesFirst(db, u.id, rows, n);
    DisorderHidesRoot(db, u, rows);
  }

  lemma LowestComesFirst(db: Db, user: nat, rows: seq<Link>, n: Link)
    requires Answer(db, user, rows) && n in db.links && n.user == user
    requires forall l :: l in db.links && l.user == user && l != n ==> n.file < l.file
    ensures rows != [] && rows[0] == n
  {
    assert n in rows;
    assert rows[0] in rows;
  }

  // ---------------------------------------------------------------------------
  // What query_remove may hit
  // ---------------------------------------------------------------------------

  /** A name without wildcards matches only itself. */
  lemma {:induction false} LikeLiteral(pattern: string, s: string)
    requires '%' !in pattern && '_' !in pattern && '\\' !in pattern
    ensures Like(pattern, s) <==> pattern == s
  {
    if pattern != "" && s != "" {
      LikeLiteral(pattern[1..], s[1..]);
      assert pattern == [pattern[0]] + pattern[1..] && s == [s[0]] + s[1..];
    }
  }

  /**
   * The selection by name is not confined to the directory: a row anywhere, of any user, that gives
   * a file of the directory a name the pattern matches makes that file a possible victim, whatever
   * it is called in the directory itself.
   */
  lemma RemoveMayHitAnotherName(db: Db, user: nat, dir: nat, name: string, l: Link, c: Link)
    requires Tree(db) && dir > 0
    requires l in db.links && l.user == user && l.parent == dir && !IsDir(db, l.file)
    requires c in db.links && c.file == l.file && Like(name, c.name)
    ensures exists db' :: Remove(db, user, dir, name, db', 0) && l !in db'.links
  {
    assert LinkedIn(db, user, dir, c.file);
    assert c in Candidates(db, user, dir, name);
    var db' := RemoveFile(db, user, c.file).0;
    assert Remove(db, user, dir, name, db', 0);
  }

  /** What rm means: the entry of that name in the directory goes, if there is one. */
  ghost predicate RemovesNamed(db: Db, user: nat, dir: nat, name: string, db': Db, ret: int) {
    if HasChild(db.links, user, dir, name)
    then (db', ret) == RemoveFile(db, user, Child(db.links, user, dir, name).file)
    else db' == db && ret == 1
  }

  /** A directory with entries, which rm refuses to remove. */
  predicate FullDir(db: Db, file: nat) {
    IsDir(db, file) && exists l :: l in db.links && l.parent == file
  }

  /** The selected row is bound to the named entry's file, or both are directories with entries. */
  ghost predicate AsGood(db: Db, user: nat, dir: nat, name: string, c: Link) {
    && HasChild(db.links, user, dir, name)
    && var e := Child(db.links, user, dir, name);
       c.file == e.file || (FullDir(db, c.file) && FullDir(db, e.file))
  }

  /** Every row rm selects is as good as the named entry, and if that exists some row is selected. */
  ghost predicate SelectsNamed(db: Db, user: nat, dir: nat, name: string) {
    && (forall c :: c in Candidates(db, user, dir, name) ==> AsGood(db, user, dir, name, c))
    && (HasChild(db.links, user, dir, name) ==> Candidates(db, user, dir, name) != {})
  }

  /** Two files are removed alike exactly when they are the same or both directories with entries. */
  lemma RemovedAlikeIff(db: Db, user: nat, e: Link, file: nat)
    requires e in db.links && e.user == user
    ensures RemoveFile(db, user, file) == RemoveFile(db, user, e.file)
            <==> file == e.file || (FullDir(db, file) && FullDir(db, e.file))
  {
    assert e !in Unlink(db.links, user, e.file);
    assert file != e.file ==> e in Unlink(db.links, user, file);
  }

  /** For every name, rm does what it means, whichever row comes first, exactly in that case. */
  lemma RemoveHitsNamedIff(db: Db, user: nat, dir: nat, name: string)
    requires dir > 0
    ensures (forall db', ret :: Remove(db, user, dir, name, db', ret) ==> RemovesNamed(db, user, dir, name, db', ret))
            <==> SelectsNamed(db, user, dir, name)
  {
    hide Candidates, RemoveFile, HasChild;
    if SelectsNamed(db, user, dir, name) {
      forall db', ret | Remove(db, user, dir, name, db', ret) ensures RemovesNamed(db, user, dir, name, db', ret) {
        SelectedRemoves(db, user, dir, name, db', ret);
      }
    } else if HasChild(db.links, user, dir, name) && Candidates(db, user, dir, name) == {} {
      NothingRemoved(db, user, dir, name);
    } else {
      var c :| c in Candidates(db, user, dir, name) && !AsGood(db, user, dir, name, c);
      OtherVictim(db, user, dir, name, c);
    }
  }

  lemma SelectedRemoves(db: Db, user: nat, dir: nat, name: string, db': Db, ret: int)
    requires dir > 0 && SelectsNamed(db, user, dir, name) && Remove(db, user, dir, name, db', ret)
    ensures RemovesNamed(db, user, dir, name, db', ret)
  {
    hide Candidates, RemoveFile;
    if Candidates(db, user, dir, name) != {} {
      var c :| c in Candidates(db, user, dir, name) && (db', ret) == RemoveFile(db, user, c.file);
      assert AsGood(db, user, dir, name, c);
      RemovedAlikeIff(db, user, Child(db.links, user, dir, name), c.file);
    }
  }

  lemma NothingRemoved(db: Db, user: nat, dir: nat, name: string)
    requires dir > 0 && HasChild(db.links, user, dir, name) && Candidates(db, user, dir, name) == {}
    ensures Remove(db, user, dir, name, db, 1) && !RemovesNamed(db, user, dir, name, db, 1)
  {
  }

  /** A row that is not as good makes rm remove something else, or remove where it should refuse. */
  lemma OtherVictim(db: Db, user: nat, dir: nat, name: string, c: Link)
    requires dir > 0 && c in Candidates(db, user, dir, name) && !AsGood(db, user, dir, name, c)
    ensures var (db', ret) := RemoveFile(db, user, c.file);
            Remove(db, user, dir, name, db', ret) && !RemovesNamed(db, user, dir, name, db', ret)
  {
    var (db', ret) := RemoveFile(db, user, c.file);
    hide Candidates;
    assert ret != 1;
    if HasChild(db.links, user, dir, name) {
      RemovedAlikeIff(db, user, Child(db.links, user, dir, name), c.file);
    }
  }

  /** '%' matches any beginning, '_' any one character, and a backslash makes the next character stand for itself. */
  lemma {:induction false} LikePercentIff(pattern: string, s: string)
    ensures Like("%" + pattern, s) <==> exists k :: 0 <= k <= |s| && Like(pattern, s[k..])
    decreases |s|
  {
    assert ("%" + pattern)[1..] == pattern && s[0..] == s;
    if s != "" {
      LikePercentIff(pattern, s[1..]);
      forall k | 0 <= k <= |s| - 1 ensures s[1..][k..] == s[k + 1..] {}
      if Like("%" + pattern, s[1..]) {
        var k :| 0 <= k <= |s[1..]| && Like(pattern, s[1..][k..]);
        assert Like(pattern, s[k + 1..]);
      }
      if exists k :: 0 <= k <= |s| && Like(pattern, s[k..]) {
        var k :| 0 <= k <= |s| && Like(pattern, s[k..]);
        assert k > 0 ==> Like(pattern, s[1..][k - 1..]);
      }
    }
  }

  lemma LikeOneIff(pattern: string, s: string)
    ensures Like("_" + pattern, s) <==> s != "" && Like(pattern, s[1..])
  {
    assert ("_" + pattern)[1..] == pattern;
  }

  lemma LikeEscapedIff(c: char, pattern: string, s: string)
    ensures Like("\\" + [c] + pattern, s) <==> s != "" && s[0] == c && Like(pattern, s[1..])
  {
    assert ("\\" + [c] + pattern)[2..] == pattern;
  }

  lemma LikeCharIff(c: char, pattern: string, s: string)
    requires c != '%' && c != '_' && c != '\\'
    ensures Like([c] + pattern, s) <==> s != "" && s[0] == c && Like(pattern, s[1..])
  {
    assert ([c] + pattern)[1..] == pattern;
  }

  predicate Literal(name: string) {
    '%' !in name && '_' !in name && '\\' !in name
  }

  /** No file of the directory that goes by another name there has this name anywhere else. */
  ghost predicate NoNamesakeElsewhere(db: Db, user: nat, dir: nat, name: string) {
    forall l, c :: l in db.links && l.user == user && l.parent == dir && c in db.links && c.file == l.file && c.name == name
      ==> HasChild(db.links, user, dir, name) && Child(db.links, user, dir, name).file == l.file
  }

  /** For a name without wildcards, in a tree, only such namesakes stand in the way. */
  lemma LiteralSelectsIff(db: Db, user: nat, dir: nat, name: string)
    requires Tree(db) && dir > 0 && Literal(name)
    ensures SelectsNamed(db, user, dir, name) <==> NoNamesakeElsewhere(db, user, dir, name)
  {
    hide Tree, Candidates, Literal;
    LiteralCandidates(db, user, dir, name);
    if NoNamesakeElsewhere(db, user, dir, name) {
      forall c | c in Candidates(db, user, dir, name) ensures AsGood(db, user, dir, name, c) {
        var l := CandidateIsEntry(db, user, dir, name, c);
      }
      if HasChild(db.links, user, dir, name) {
        var e := Child(db.links, user, dir, name);
        assert LinkedIn(db, user, dir, e.file) && e in Candidates(db, user, dir, name);
      }
    }
    if SelectsNamed(db, user, dir, name) {
      forall l, c | l in db.links && l.user == user && l.parent == dir && c in db.links && c.file == l.file && c.name == name
        ensures HasChild(db.links, user, dir, name) && Child(db.links, user, dir, name).file == l.file
      {
        assert LinkedIn(db, user, dir, c.file) && c in Candidates(db, user, dir, name);
        assert AsGood(db, user, dir, name, c);
        NamedDirIsChild(db, user, dir, name, c);
      }
    }
  }

  lemma NamedDirIsChild(db: Db, user: nat, dir: nat, name: string, c: Link)
    requires Tree(db) && dir > 0 && c in Candidates(db, user, dir, name) && c.name == name
    ensures IsDir(db, c.file) ==> HasChild(db.links, user, dir, name) && Child(db.links, user, dir, name) == c
  {
    var l := CandidateIsEntry(db, user, dir, name, c);
    if IsDir(db, c.file) {
      assert IsChild(c, user, dir, name);
    }
  }

  lemma LiteralCandidates(db: Db, user: nat, dir: nat, name: string)
    requires Literal(name)
    ensures forall c :: c in Candidates(db, user, dir, name) <==>
                        c in db.links && c.name == name && LinkedIn(db, user, dir, c.file)
  {
    forall s ensures Like(name, s) <==> name == s {
      LikeLiteral(name, s);
    }
  }

  // ---------------------------------------------------------------------------
  // Whole runs
  // ---------------------------------------------------------------------------

  ghost predicate Run(dbs: seq<Db>, cmds: seq<Command>, rets: seq<int>) {
    && |dbs| == |cmds| + 1 && |rets| == |cmds|
    && dbs[0] == EMPTY_DB
    && forall i :: 0 <= i < |cmds| ==> Referential(dbs[i]) && Next(dbs[i], cmds[i], dbs[i + 1], rets[i])
  }

  /** Rows are only ever inserted under directories. */
  ghost predicate DirectoryTargets(dbs: seq<Db>, cmds: seq<Command>)
    requires |dbs| == |cmds| + 1
  {
    forall i :: 0 <= i < |cmds| && Inserts(dbs[i], cmds[i]) ==> DirTarget(dbs[i], cmds[i])
  }

  ghost predicate NoOlderShares(dbs: seq<Db>, cmds: seq<Command>)
    requires |dbs| == |cmds| + 1
  {
    forall i :: 0 <= i < |cmds| && Inserts(dbs[i], cmds[i]) ==> !SharesOlder(dbs[i], cmds[i])
  }

  /** In every run with directory targets every user's rows form a tree at every point. */
  lemma {:induction false} RunIsTree(dbs: seq<Db>, cmds: seq<Command>, rets: seq<int>, i: nat)
    requires Run(dbs, cmds, rets) && DirectoryTargets(dbs, cmds) && i < |dbs|
    ensures Tree(dbs[i])
  {
    hide Next, Inserts, DirTarget;
    if i > 0 {
      RunIsTree(dbs, cmds, rets, i - 1);
      StepKeepsTreeIff(dbs[i - 1], cmds[i - 1], dbs[i], rets[i - 1]);
    }
  }

  /** Every user's rows form a tree at every point of a run exactly when rows are inserted only below directories. */
  lemma RunIsTreeIff(dbs: seq<Db>, cmds: seq<Command>, rets: seq<int>)
    requires Run(dbs, cmds, rets)
    ensures (forall i :: 0 <= i < |dbs| ==> Tree(dbs[i])) <==> DirectoryTargets(dbs, cmds)
  {
    hide Tree, Next, DirTarget, Inserts;
    if DirectoryTargets(dbs, cmds) {
      forall i | 0 <= i < |dbs| ensures Tree(dbs[i]) {
        RunIsTree(dbs, cmds, rets, i);
      }
    } else {
      var i :| 0 <= i < |cmds| && Inserts(dbs[i], cmds[i]) && !DirTarget(dbs[i], cmds[i]);
      if Tree(dbs[i]) {
        StepKeepsTreeIff(dbs[i], cmds[i], dbs[i + 1], rets[i]);
      }
    }
  }

  /** An update with the hash of stored content has happened before point i, when that content was stored already. */
  ghost predicate Updated(dbs: seq<Db>, cmds: seq<Command>, i: nat, f: nat)
    requires |dbs| == |cmds| + 1 && i <= |cmds|
  {
    exists j :: 0 <= j < i && cmds[j].CmdUpdate? && f in dbs[j].files && dbs[j].files[f].hash == Some(cmds[j].hash)
  }

  /** At every point of every run, stored content is complete exactly if an update with its hash came after it was stored. */
  lemma {:induction false} CompleteIffUpdated(dbs: seq<Db>, cmds: seq<Command>, rets: seq<int>, i: nat, f: nat)
    requires Run(dbs, cmds, rets) && i < |dbs| && f in dbs[i].files && dbs[i].files[f].kind.File?
    ensures dbs[i].files[f].complete <==> Updated(dbs, cmds, i, f)
  {
    hide Next;
    if i > 0 {
      StepKeepsFiles(dbs[i - 1], cmds[i - 1], dbs[i], rets[i - 1]);
      if f in dbs[i - 1].files {
        CompleteIffUpdated(dbs, cmds, rets, i - 1, f);
      } else {
        StoredLate(dbs, cmds, rets, i, f);
      }
    }
  }

  /** Content that is not stored yet was not stored before. */
  lemma {:induction false} NotStoredBefore(dbs: seq<Db>, cmds: seq<Command>, rets: seq<int>, i: nat, j: nat, f: nat)
    requires Run(dbs, cmds, rets) && j <= i < |dbs| && f !in dbs[i].files
    ensures f !in dbs[j].files
    decreases i
  {
    hide Next;
    if j < i {
      StepKeepsFiles(dbs[i - 1], cmds[i - 1], dbs[i], rets[i - 1]);
      NotStoredBefore(dbs, cmds, rets, i - 1, j, f);
    }
  }

  lemma StoredLate(dbs: seq<Db>, cmds: seq<Command>, rets: seq<int>, i: nat, f: nat)
    requires Run(dbs, cmds, rets) && 0 < i < |dbs| && f !in dbs[i - 1].files
    ensures !Updated(dbs, cmds, i, f)
  {
    hide Next;
    forall j | 0 <= j < i ensures f !in dbs[j].files {
      NotStoredBefore(dbs, cmds, rets, i - 1, j, f);
    }
  }

  /** If moreover no upload shares an older file, the rows are in order at every point. */
  lemma {:induction false} RunIsOrdered(dbs: seq<Db>, cmds: seq<Command>, rets: seq<int>, i: nat, user: nat)
    requires Run(dbs, cmds, rets) && DirectoryTargets(dbs, cmds) && NoOlderShares(dbs, cmds) && i < |dbs|
    ensures Tree(dbs[i]) && Ordered(dbs[i], user)
  {
    hide Tree, Next, Inserts, SharesOlder;
    RunIsTree(dbs, cmds, rets, i);
    if i > 0 {
      RunIsOrdered(dbs, cmds, rets, i - 1, user);
      StepKeepsOrderIff(dbs[i - 1], cmds[i - 1], dbs[i], rets[i - 1], user);
    } else {
      EmptyIsOrdered(user);
    }
  }

  lemma EmptyIsOrdered(user: nat)
    ensures Ordered(EMPTY_DB, user)
  {
  }

  /** query_cd is the walk for every registered user and path. */
  ghost predicate CdRight(db: Db) {
    forall user, rows, path :: Registered(db, user) && Answer(db, user, rows) && path != [] ==>
                                 Cd(rows, path) == Walked(db, user, path)
  }

  /**
   * In a run with directory targets, query_cd is right at every point, for every user, path and
   * answer of the database, exactly when no upload shares an older file.
   */
  lemma RunCdIsWalkIff(dbs: seq<Db>, cmds: seq<Command>, rets: seq<int>)
    requires Run(dbs, cmds, rets) && DirectoryTargets(dbs, cmds)
    ensures (forall i :: 0 <= i < |dbs| ==> CdRight(dbs[i])) <==> NoOlderShares(dbs, cmds)
  {
    hide Tree, Next, Inserts, SharesOlder, CdRight, Ordered;
    if NoOlderShares(dbs, cmds) {
      forall i | 0 <= i < |dbs| ensures CdRight(dbs[i]) {
        RunIsTree(dbs, cmds, rets, i);
        forall user ensures Ordered(dbs[i], user) {
          RunIsOrdered(dbs, cmds, rets, i, user);
        }
        OrderedIsRight(dbs[i]);
      }
    } else {
      var i :| 0 <= i < |cmds| && Inserts(dbs[i], cmds[i]) && SharesOlder(dbs[i], cmds[i]);
      RunIsTree(dbs, cmds, rets, i);
      RunIsTree(dbs, cmds, rets, i + 1);
      if CdRight(dbs[i]) {
        OlderShareIsWrong(dbs[i], cmds[i], dbs[i + 1], rets[i]);
      }
    }
  }

  lemma OrderedIsRight(db: Db)
    requires Tree(db) && forall user :: Ordered(db, user)
    ensures CdRight(db)
  {
    hide Tree, Ordered;
    forall user, rows, path | Registered(db, user) && Answer(db, user, rows) && path != []
      ensures Cd(rows, path) == Walked(db, user, path)
    {
      CdIsWalk(db, user, rows, path);
    }
  }

  /** Right answers for a user imply ordered rows: the database always has some answer to give. */
  lemma RightIsOrdered(db: Db, user: nat)
    requires Tree(db) && Registered(db, user) && CdRight(db)
    ensures Ordered(db, user)
  {
    hide Tree, Ordered;
    var rows := AnswerExists(db, user);
    CdAgreesIff(db, user, rows);
  }

  lemma OlderShareIsWrong(db: Db, cmd: Command, db': Db, ret: int)
    requires Tree(db) && CdRight(db) && Next(db, cmd, db', ret) && Tree(db')
    requires Inserts(db, cmd) && SharesOlder(db, cmd)
    ensures !CdRight(db')
  {
    hide Tree, CdRight, Ordered;
    TreeIsReferential(db);
    var l := TargetRow(db, cmd, db', ret);
    RightIsOrdered(db, cmd.user);
    StepKeepsOrderIff(db, cmd, db', ret, cmd.user);
    InsertKeepsUsers(db, cmd, db', ret);
    if CdRight(db') {
      RightIsOrdered(db', cmd.user);
    }
  }

  lemma InsertKeepsUsers(db: Db, cmd: Command, db': Db, ret: int)
    requires Referential(db) && Next(db, cmd, db', ret) && Inserts(db, cmd) && Registered(db, cmd.user)
    ensures Registered(db', cmd.user)
  {
    var n := InsertForm(db, cmd, db', ret);
    var r :| r in db.users && r.id == cmd.user;
    assert r in db'.users;
  }
}
