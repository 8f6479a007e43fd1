/**
 * What one command does to the next: the command functions take the directory from the normalised
 * path and the name from the raw argument, and pass both to the tables. This module joins the path
 * algebra, the single pass and the steps on the tables.
 */
module Commands {
  import opened Prelude
  import opened Tables
  import opened PathScan
  import opened TableSteps
  import opened TableEffects
  import opened Paths
  import opened Sessions

  /** The directory add_dir and remove_file look up. */
  function Directory(workpath: string, argument: string): (path: seq<string>)
    requires workpath != ""
    ensures path != []
  {
    Components(StripLast(ResolvePath(workpath, argument)))
  }

  /** The path that cd with the same argument looks up. */
  function Whole(workpath: string, argument: string): (path: seq<string>)
    requires workpath != ""
    ensures path != []
  {
    Components(ResolvePath(workpath, argument))
  }

  /** The path whose entry the command works on. */
  function Key(workpath: string, argument: string): (path: seq<string>)
    requires workpath != ""
    ensures |path| >= 2
  {
    Directory(workpath, argument) + [LastComponent(argument)]
  }

  /** The argument ends in a proper name, and names something below the user's root. */
  predicate Proper(workpath: string, argument: string)
    requires workpath != ""
  {
    IsName(LastComponent(argument)) && |Whole(workpath, argument)| >= 2
  }

  /** The commands work on the path the argument resolves to exactly for proper arguments. */
  lemma KeyIsWholeIff(workpath: string, argument: string)
    requires workpath != "" && Canonical(workpath)
    ensures Key(workpath, argument) == Whole(workpath, argument) <==> Proper(workpath, argument)
  {
    hide StripLast, LastComponent, Components, Canonical, IsName, Joined;
    var resolved := ResolvePath(workpath, argument);
    ResolveKeepsCanonical(workpath, argument);
    if |Whole(workpath, argument)| >= 2 {
      CanonicalParts(resolved);
      var key, whole := Key(workpath, argument), Whole(workpath, argument);
      assert key[|key| - 1] == LastComponent(argument) && whole[|whole| - 1] == LastComponent(resolved);
      if IsName(LastComponent(argument)) {
        EmptyIsNoName(argument);
        RawNameAgrees(workpath, argument);
      }
    }
  }

  lemma EmptyIsNoName(argument: string)
    requires IsName(LastComponent(argument))
    ensures argument != ""
  {
  }

  lemma CanonicalParts(path: string)
    requires path != "" && Canonical(path) && |Components(path)| >= 2
    ensures Components(StripLast(path)) + [LastComponent(path)] == Components(path)
    ensures path != "/" && IsName(LastComponent(path))
  {
    hide StripLast, LastComponent, Components, Canon, IsName;
    var stack :| AllNames(stack) && path == Canon(stack);
    CanonParts(stack);
  }

  lemma CanonParts(stack: seq<string>)
    requires AllNames(stack) && |Components(Canon(stack))| >= 2
    ensures Components(StripLast(Canon(stack))) + [LastComponent(Canon(stack))] == Components(Canon(stack))
    ensures Canon(stack) != "/" && IsName(LastComponent(Canon(stack)))
  {
    hide StripLast, LastComponent, Components, Canon, IsName;
    ComponentsOfCanon(stack);
    StripRebuilds(stack);
    ComponentsOfCanon(stack[..|stack| - 1]);
    assert stack == stack[..|stack| - 1] + [stack[|stack| - 1]];
    RootIsOne();
  }

  lemma RootIsOne()
    ensures |Components("/")| == 1
  {
  }

  /** "../bob" from "/bob" resolves to "/bob", but the commands work on "bob" inside it. */
  lemma OwnRootIsMissed(name: string)
    requires IsName(name)
    ensures Whole("/" + name, "../" + name) == [name]
    ensures Key("/" + name, "../" + name) == [name, name]
  {
    hide Components, ResolvePath, IsName;
    CanonOfOne(name);
    UpAndDown(name, name);
    LastComponentJoin("..", name);
    StripKeepsRoots(name);
    assert ".." + "/" + name == "../" + name;
  }

  lemma CanonOfOne(name: string)
    ensures Canon([name]) == "/" + name && (IsName(name) ==> '/' !in name)
  {
    assert [name][..0] == [];
  }

  function MkdirCommand(workpath: string, argument: string, user: nat, rows: seq<Link>): Command
    requires workpath != ""
  {
    CmdMkdir(user, Directory(workpath, argument), LastComponent(argument), rows)
  }

  function RemoveCommand(workpath: string, argument: string, user: nat, rows: seq<Link>): Command
    requires workpath != ""
  {
    CmdRemove(user, Directory(workpath, argument), LastComponent(argument), rows)
  }

  /** Tables as query_cd needs them for a user, and an answer to its select. */
  ghost predicate Met(db: Db, user: nat, rows: seq<Link>) {
    Tree(db) && Ordered(db, user) && Registered(db, user) && Answer(db, user, rows)
  }

  lemma MetIsRootFirst(db: Db, user: nat, rows: seq<Link>)
    requires Met(db, user, rows)
    ensures RootFirst(rows)
  {
    RegisteredHasRows(db, user, rows);
    FirstRowIsRoot(db, user, rows);
  }

  /** mkdir's effect in terms of its raw argument: the new directory is what it resolves to exactly if it is proper. */
  lemma MkdirAdds(workpath: string, argument: string, db: Db, user: nat, rows: seq<Link>, db': Db) returns (file: nat)
    requires workpath != "" && Met(db, user, rows)
    requires var cmd := MkdirCommand(workpath, argument, user, rows); Next(db, cmd, db', 2) && DirTarget(db, cmd)
    ensures Tree(db') && Ordered(db', user) && Registered(db', user)
    ensures file > 0 && IsDir(db', file) && file !in db.files
    ensures Resolve(db, user, Key(workpath, argument)) == None
    ensures forall u, path :: path != [] ==>
              Resolve(db', u, path) ==
              if u == user && path == Key(workpath, argument) then Some(file) else Resolve(db, u, path)
    ensures Canonical(workpath) ==>
              (Resolve(db', user, Whole(workpath, argument)) == Some(file) <==> Proper(workpath, argument))
  {
    hide Resolve, LastComponent, Directory, Whole, Proper, Canonical, Tree, Next;
    var cmd := MkdirCommand(workpath, argument, user, rows);
    MkdirKeeps(db, cmd, db');
    MetIsRootFirst(db, user, rows);
    file := InsertEffect(db, cmd, db', 2);
    TreeIsReferential(db');
    NoSuchFile(db, user, Whole(workpath, argument), file);
    if Canonical(workpath) {
      KeyIsWholeIff(workpath, argument);
    }
  }

  lemma NoSuchFile(db: Db, user: nat, path: seq<string>, file: nat)
    requires Tree(db) && path != [] && file !in db.files
    ensures Resolve(db, user, path) != Some(file)
  {
    if Resolve(db, user, path).Some? {
      var l := WalkEnds(db.links, user, 0, path);
    }
  }

  lemma MkdirKeeps(db: Db, cmd: Command, db': Db)
    requires Tree(db) && cmd.CmdMkdir? && Next(db, cmd, db', 2) && DirTarget(db, cmd)
    requires Ordered(db, cmd.user) && Registered(db, cmd.user)
    ensures Inserts(db, cmd) && Tree(db') && Ordered(db', cmd.user) && Registered(db', cmd.user)
  {
    StepKeepsTreeIff(db, cmd, db', 2);
    StepKeepsOrderIff(db, cmd, db', 2, cmd.user);
    InsertKeepsUsers(db, cmd, db', 2);
  }

  /**
   * After a successful mkdir, cd with the same argument enters the new directory exactly if the
   * argument is proper; before it, such an argument was rejected.
   */
  lemma MkdirThenCdIff(workpath: string, argument: string, db: Db, user: nat, rows: seq<Link>, db': Db, rows': seq<Link>)
      returns (file: nat)
    requires workpath != "" && Canonical(workpath) && Met(db, user, rows)
    requires var cmd := MkdirCommand(workpath, argument, user, rows); Next(db, cmd, db', 2) && DirTarget(db, cmd)
    requires Answer(db', user, rows')
    ensures file > 0 && IsDir(db', file) && file !in db.files
    ensures Cd(rows', Whole(workpath, argument)) == file <==> Proper(workpath, argument)
    ensures Proper(workpath, argument) ==>
              Cd(rows, Whole(workpath, argument)) == 0 && AfterCd(workpath, argument, rows') == ResolvePath(workpath, argument)
  {
    hide Resolve, Proper, Canonical, Tree, Next, Key, Ordered, Registered;
    file := MkdirAdds(workpath, argument, db, user, rows, db');
    CdIsWalk(db, user, rows, Whole(workpath, argument));
    CdIsWalk(db', user, rows', Whole(workpath, argument));
    if Proper(workpath, argument) {
      KeyIsWholeIff(workpath, argument);
    }
  }

  /** Every path of every user resolves in both tables alike. */
  ghost predicate SamePaths(db: Db, db': Db) {
    forall u, path :: path != [] ==> Resolve(db', u, path) == Resolve(db, u, path)
  }

  /**
   * rm with the same argument undoes mkdir, whichever row comes first, exactly if all it selects
   * after the mkdir is the new directory.
   */
  lemma MkdirThenRemoveIff(workpath: string, argument: string, db: Db, user: nat, rows: seq<Link>, db1: Db, rows1: seq<Link>)
    requires workpath != "" && Met(db, user, rows)
    requires var cmd := MkdirCommand(workpath, argument, user, rows); Next(db, cmd, db1, 2) && DirTarget(db, cmd)
    requires Referential(db1) && Answer(db1, user, rows1)
    ensures (forall db2, ret :: Next(db1, RemoveCommand(workpath, argument, user, rows1), db2, ret) ==> ret == 0 && SamePaths(db, db2))
            <==> SelectsNamed(db1, user, Cd(rows, Directory(workpath, argument)), LastComponent(argument))
  {
    hide Next, Remove, Tree, Met, Answer, SamePaths, SelectsNamed, LastComponent, Directory, DirTarget;
    var cmd, rm := MkdirCommand(workpath, argument, user, rows), RemoveCommand(workpath, argument, user, rows1);
    var dir, name := Target(cmd), cmd.name;
    var l := Undoable(workpath, argument, db, user, rows, db1, rows1);
    RemoveHitsNamedIff(db1, user, dir, name);
    forall db2, ret ensures Next(db1, rm, db2, ret) <==> Remove(db1, user, dir, name, db2, ret) {
      RemoveIsNext(db1, rm, db2, ret);
    }
    forall db2, ret | Remove(db1, user, dir, name, db2, ret)
      ensures ret == 0 && SamePaths(db, db2) <==> RemovesNamed(db1, user, dir, name, db2, ret)
    {
      UndoneIff(db, db1, user, Key(workpath, argument), l, db2, ret);
    }
  }

  lemma RemoveIsNext(db: Db, rm: Command, db': Db, ret: int)
    requires Referential(db) && rm.CmdRemove? && rm.path != [] && Answer(db, rm.user, rm.rows)
    ensures Next(db, rm, db', ret) <==> Remove(db, rm.user, Target(rm), rm.pattern, db', ret)
  {
  }

  /** What the tables after a mkdir have over those before: one childless directory under one new path. */
  ghost predicate Added(db: Db, db1: Db, user: nat, key: seq<string>, l: Link) {
    && Tree(db1) && l in db1.links && l.user == user && l.parent > 0 && IsDir(db1, l.file)
    && (forall m :: m in db1.links ==> m.parent != l.file)
    && Resolve(db, user, key) == None && key != []
    && (forall u, path :: path != [] ==>
          Resolve(db1, u, path) == if u == user && path == key then Some(l.file) else Resolve(db, u, path))
  }

  lemma Undoable(workpath: string, argument: string, db: Db, user: nat, rows: seq<Link>, db1: Db, rows1: seq<Link>)
      returns (l: Link)
    requires workpath != "" && Met(db, user, rows)
    requires var cmd := MkdirCommand(workpath, argument, user, rows); Next(db, cmd, db1, 2) && DirTarget(db, cmd)
    requires Answer(db1, user, rows1)
    ensures Target(MkdirCommand(workpath, argument, user, rows)) > 0
    ensures Cd(rows1, Directory(workpath, argument)) == Cd(rows, Directory(workpath, argument)) == l.parent
    ensures l.name == LastComponent(argument) && Added(db, db1, user, Key(workpath, argument), l)
  {
    hide Resolve, LastComponent, Directory, Tree, Mkdir, Ordered;
    var cmd := MkdirCommand(workpath, argument, user, rows);
    var file := MkdirAdds(workpath, argument, db, user, rows, db1);
    SameDirectory(workpath, argument, db, user, rows, db1, rows1);
    l := FreshEntry(db, cmd, db1);
    FreshIsEmpty(db, cmd, db1, l);
    KeyOf(db1, workpath, argument, user, rows1, l);
  }

  /** An outcome of rm undoes the mkdir exactly if it is the removal of the new entry. */
  lemma UndoneIff(db: Db, db1: Db, user: nat, key: seq<string>, l: Link, db2: Db, ret: int)
    requires Added(db, db1, user, key, l) && Remove(db1, user, l.parent, l.name, db2, ret)
    ensures ret == 0 && SamePaths(db, db2) <==> RemovesNamed(db1, user, l.parent, l.name, db2, ret)
  {
    hide Resolve, Tree, Remove, Unlink;
    NamedIs(db1, user, l);
    if RemovesNamed(db1, user, l.parent, l.name, db2, ret) {
      forall u, path | path != [] ensures Resolve(db2, u, path) == Resolve(db, u, path) {
        UnlinkResolves(db1, user, l.file, db2, u, path);
        FileHasOneKey(db1, user, l, key, path);
      }
    } else if ret == 0 {
      var file := OtherUnlinked(db1, user, l, db2);
      UnlinkResolves(db1, user, file, db2, user, key);
    }
  }

  lemma NamedIs(db: Db, user: nat, l: Link)
    requires Tree(db) && l in db.links && l.user == user
    ensures HasChild(db.links, user, l.parent, l.name) && Child(db.links, user, l.parent, l.name) == l
  {
    assert IsChild(l, user, l.parent, l.name);
  }

  lemma OtherUnlinked(db: Db, user: nat, l: Link, db': Db) returns (file: nat)
    requires Tree(db) && l in db.links && l.user == user && l.parent > 0
    requires forall m :: m in db.links ==> m.parent != l.file
    requires Remove(db, user, l.parent, l.name, db', 0) && !RemovesNamed(db, user, l.parent, l.name, db', 0)
    ensures file != l.file && db' == db.(links := Unlink(db.links, user, file))
    ensures forall m :: m in db.links ==> m.parent != file
  {
    hide Candidates;
    NamedIs(db, user, l);
    var c :| c in Candidates(db, user, l.parent, l.name) && (db', 0) == RemoveFile(db, user, c.file);
    var e := CandidateIsEntry(db, user, l.parent, l.name, c);
    file := c.file;
  }

  lemma UnlinkResolves(db: Db, user: nat, file: nat, db': Db, u: nat, path: seq<string>)
    requires Tree(db) && path != []
    requires forall m :: m in db.links ==> m.parent != file
    requires db' == db.(links := Unlink(db.links, user, file))
    ensures Resolve(db', u, path) == if u == user && Resolve(db, u, path) == Some(file) then None else Resolve(db, u, path)
  {
    UnlinkWalk(db.links, user, file, u, 0, path);
  }

  /** The directory is found under the same id after a mkdir in it. */
  lemma SameDirectory(workpath: string, argument: string, db: Db, user: nat, rows: seq<Link>, db': Db, rows': seq<Link>)
    requires workpath != "" && Met(db, user, rows)
    requires var cmd := MkdirCommand(workpath, argument, user, rows); Next(db, cmd, db', 2) && DirTarget(db, cmd)
    requires Answer(db', user, rows')
    ensures Cd(rows', Directory(workpath, argument)) == Cd(rows, Directory(workpath, argument))
  {
    hide Resolve, LastComponent, Components, StripLast, ResolvePath, Tree, Ordered, Next;
    var file := MkdirAdds(workpath, argument, db, user, rows, db');
    CdIsWalk(db, user, rows, Directory(workpath, argument));
    CdIsWalk(db', user, rows', Directory(workpath, argument));
  }

  lemma FreshEntry(db: Db, cmd: Command, db': Db) returns (l: Link)
    requires Tree(db) && cmd.CmdMkdir? && Next(db, cmd, db', 2) && DirTarget(db, cmd)
    ensures l == Link(db.lastLink + 1, cmd.name, cmd.user, db.lastFile + 1, Target(cmd))
    ensures Tree(db') && l in db'.links && db'.links == db.links + {l} && IsDir(db', l.file)
  {
    hide Tree;
    StepKeepsTreeIff(db, cmd, db', 2);
    l := Link(db.lastLink + 1, cmd.name, cmd.user, db.lastFile + 1, Target(cmd));
  }

  lemma FreshIsEmpty(db: Db, cmd: Command, db': Db, l: Link)
    requires Tree(db) && cmd.CmdMkdir? && l.file == db.lastFile + 1 && l.parent == Target(cmd) && DirTarget(db, cmd)
    requires db'.links == db.links + {l}
    ensures forall m :: m in db'.links ==> m.parent != l.file
  {
    NobodyBelow(db, l.file);
  }

  lemma KeyOf(db: Db, workpath: string, argument: string, user: nat, rows: seq<Link>, l: Link)
    requires workpath != "" && Met(db, user, rows) && l in db.links && l.user == user
    requires l.name == LastComponent(argument) && l.parent == Cd(rows, Directory(workpath, argument)) && l.parent > 0
    ensures Resolve(db, user, Key(workpath, argument)) == Some(l.file)
  {
    hide LastComponent, Directory;
    CdIsWalk(db, user, rows, Directory(workpath, argument));
    WalkAppend(db.links, user, 0, Directory(workpath, argument), [l.name]);
    WalkStep(db.links, l, [l.name]);
  }

  lemma FileHasOneKey(db: Db, user: nat, l: Link, whole: seq<string>, path: seq<string>)
    requires Tree(db) && l in db.links && IsDir(db, l.file) && Resolve(db, user, whole) == Some(l.file)
    ensures Resolve(db, user, path) == Some(l.file) <==> path == whole
  {
    if Resolve(db, user, path) == Some(l.file) {
      DirPathUnique(db, user, path, whole, l.file);
    }
  }

  /**
   * A puts that links content, followed by the update at the end of its transfer: the path names a
   * complete regular file with the uploaded hash, which is what query_gets asks for.
   */
  lemma PutsThenGets(db: Db, cmd: Command, db1: Db, ret: int) returns (file: nat)
    requires Tree(db) && cmd.CmdPuts? && Next(db, cmd, db1, ret) && Inserts(db, cmd) && DirTarget(db, cmd)
    requires RootFirst(cmd.rows)
    ensures var db2 := Complete(db1, cmd.hash);
            && Tree(db2) && Resolve(db2, cmd.user, cmd.path + [cmd.name]) == Some(file)
            && file in db2.files && db2.files[file] == FileRow(File, Some(cmd.hash), true)
            && (Ordered(db, cmd.user) ==> (Ordered(db2, cmd.user) <==> !SharesOlder(db, cmd)))
  {
    hide Next, Inserts, SharesOlder, Resolve, Ordered, Tree, Complete, Stored, DirTarget;
    file := InsertEffect(db, cmd, db1, ret);
    StepKeepsTreeIff(db, cmd, db1, ret);
    if Ordered(db, cmd.user) {
      StepKeepsOrderIff(db, cmd, db1, ret, cmd.user);
    }
    CompleteKeepsTree(db1, cmd.hash);
    CompleteKeepsPaths(db1, cmd.hash, cmd.user, cmd.path + [cmd.name]);
    StoredCompletes(db1, cmd.hash, file);
  }

  lemma CompleteKeepsPaths(db: Db, hash: string, user: nat, path: seq<string>)
    ensures Resolve(Complete(db, hash), user, path) == Resolve(db, user, path)
    ensures Ordered(Complete(db, hash), user) <==> Ordered(db, user)
  {
  }

  lemma StoredCompletes(db: Db, hash: string, file: nat)
    requires Tree(db) && file in Stored(db, hash)
    ensures file in Complete(db, hash).files && Complete(db, hash).files[file] == FileRow(File, Some(hash), true)
  {
  }

  // ---------------------------------------------------------------------------
  // What the numbers a query returns say about paths
  // ---------------------------------------------------------------------------

  /** Rows below a directory belong to its owner, and one bears the name exactly if the path extended by it resolves. */
  lemma Below(db: Db, user: nat, path: seq<string>, name: string)
    requires Tree(db) && path != [] && Resolve(db, user, path).Some?
    ensures var dir := Resolve(db, user, path).value;
            && dir > 0
            && (Resolve(db, user, path + [name]).None? <==> Namesakes(db, dir, name) == {})
            && (forall l :: l in db.links && l.parent == dir ==> l.user == user)
            && (forall l :: l in Namesakes(db, dir, name) ==> Resolve(db, user, path + [name]) == Some(l.file))
  {
    var d := WalkEnds(db.links, user, 0, path);
    WalkAppend(db.links, user, 0, path, [name]);
    forall l | l in db.links && l.parent == d.file ensures l.user == user {
      assert LiveDir(db, l.user, l.parent);
    }
    forall l | l in Namesakes(db, d.file, name) ensures Resolve(db, user, path + [name]) == Some(l.file) {
      WalkStep(db.links, l, [name]);
    }
    if Resolve(db, user, path + [name]).Some? {
      var l := WalkEnds(db.links, user, 0, path + [name]);
      assert (path + [name])[..|path|] == path;
      assert l in Namesakes(db, d.file, name);
    }
  }

  /** What query_cd answers for a command's directory. */
  lemma TargetIsWalked(db: Db, cmd: Command, db': Db, ret: int)
    requires Tree(db) && HasTarget(cmd) && Next(db, cmd, db', ret)
    requires Ordered(db, cmd.user) && Registered(db, cmd.user)
    ensures cmd.path != [] && Target(cmd) == Walked(db, cmd.user, cmd.path) >= 0
  {
    CdIsWalk(db, cmd.user, cmd.rows, cmd.path);
  }

  /** mkdir: 0 if the directory does not exist, 1 if the entry exists already, else 2. */
  lemma MkdirAnswers(db: Db, cmd: Command, db': Db, ret: int)
    requires Tree(db) && cmd.CmdMkdir? && Next(db, cmd, db', ret)
    requires Ordered(db, cmd.user) && Registered(db, cmd.user)
    ensures ret == if Resolve(db, cmd.user, cmd.path).None? then 0
                   else if Resolve(db, cmd.user, cmd.path + [cmd.name]).Some? then 1
                   else 2
  {
    hide Tree, Resolve, Ordered, Registered, Answer, Namesakes, Bind, AddFile;
    TargetIsWalked(db, cmd, db', ret);
    if Resolve(db, cmd.user, cmd.path).Some? {
      Below(db, cmd.user, cmd.path, cmd.name);
    }
  }

  /** The progress of the content at a path, for an uploader with a hash. */
  function Verdict(row: FileRow, hash: string): int {
    if HashText(row) != hash then 0 else if row.complete then 2 else 1
  }

  /**
   * puts: -1 if the directory does not exist; otherwise the path names an entry afterwards, and the
   * answer is 0 if it is other content, 2 if it is this content and complete, 1 if it is incomplete.
   */
  lemma PutsAnswers(db: Db, cmd: Command, db': Db, ret: int)
    requires Tree(db) && cmd.CmdPuts? && Next(db, cmd, db', ret)
    requires Ordered(db, cmd.user) && Registered(db, cmd.user)
    requires Inserts(db, cmd) ==> DirTarget(db, cmd)
    ensures ret == -1 <==> Resolve(db, cmd.user, cmd.path).None?
    ensures Resolve(db, cmd.user, cmd.path).Some? ==>
              match Resolve(db', cmd.user, cmd.path + [cmd.name])
              case None => false
              case Some(f) => f in db'.files && ret == Verdict(db'.files[f], cmd.hash)
  {
    hide Tree, Resolve, Ordered, Registered, Answer, Namesakes, Stored;
    TargetIsWalked(db, cmd, db', ret);
    if Resolve(db, cmd.user, cmd.path).Some? {
      Below(db, cmd.user, cmd.path, cmd.name);
      if Namesakes(db, Target(cmd), cmd.name) == {} {
        MetIsRootFirst(db, cmd.user, cmd.rows);
        var file := InsertEffect(db, cmd, db', ret);
        PutsProgress(db, cmd, db', ret, file);
      } else {
        PutsFinds(db, cmd, db', ret);
      }
    }
  }

  lemma PutsProgress(db: Db, cmd: Command, db': Db, ret: int, file: nat)
    requires Tree(db) && cmd.CmdPuts? && Next(db, cmd, db', ret)
    requires Target(cmd) > 0 && Namesakes(db, Target(cmd), cmd.name) == {}
    requires Stored(db', cmd.hash) == {file}
    ensures file in db'.files && ret == Verdict(db'.files[file], cmd.hash)
  {
    hide Resolve, Answer, Cd;
    assert file in Stored(db', cmd.hash);
    if Stored(db, cmd.hash) == {} {
      assert db' == PutsNew(db, cmd.user, Target(cmd), cmd.name, cmd.hash);
      assert db'.lastFile in Stored(db', cmd.hash);
    } else {
      var f :| f in Stored(db, cmd.hash) && ret == Progress(db.files[f]) && db'.files == db.files;
      assert f in Stored(db', cmd.hash);
    }
  }

  lemma PutsFinds(db: Db, cmd: Command, db': Db, ret: int)
    requires Tree(db) && cmd.CmdPuts? && Next(db, cmd, db', ret)
    requires Target(cmd) > 0 && Namesakes(db, Target(cmd), cmd.name) != {}
    ensures db' == db
    ensures exists l :: l in Namesakes(db, Target(cmd), cmd.name) && l.file in db.files
                        && ret == Verdict(db.files[l.file], cmd.hash)
  {
  }

  /**
   * rm, as long as it selects what is named: 2 if the path names a directory with an entry, 1 if the
   * directory exists and the entry does not, and 0 otherwise, be it removed or the directory missing.
   */
  lemma RemoveAnswers(db: Db, cmd: Command, db': Db, ret: int)
    requires Tree(db) && cmd.CmdRemove? && Next(db, cmd, db', ret)
    requires Ordered(db, cmd.user) && Registered(db, cmd.user)
    requires Resolve(db, cmd.user, cmd.path).Some? ==>
               SelectsNamed(db, cmd.user, Resolve(db, cmd.user, cmd.path).value, cmd.pattern)
    ensures ret == if Resolve(db, cmd.user, cmd.path).None? then 0
                   else match Resolve(db, cmd.user, cmd.path + [cmd.pattern])
                        case None => 1
                        case Some(f) => if IsDir(db, f) && HasEntry(db, cmd.user, cmd.path + [cmd.pattern]) then 2 else 0
  {
    hide Tree, Resolve, Ordered, Registered, Answer, SelectsNamed, HasEntry, RemoveFile;
    TargetIsWalked(db, cmd, db', ret);
    if Resolve(db, cmd.user, cmd.path).Some? {
      Below(db, cmd.user, cmd.path, cmd.pattern);
      var dir := Target(cmd);
      RemoveHitsNamedIff(db, cmd.user, dir, cmd.pattern);
      assert RemovesNamed(db, cmd.user, dir, cmd.pattern, db', ret);
      NamedIsEntry(db, cmd.user, dir, cmd.pattern);
      if HasChild(db.links, cmd.user, dir, cmd.pattern) {
        RemovedIfEmpty(db, cmd.user, cmd.path + [cmd.pattern], Child(db.links, cmd.user, dir, cmd.pattern).file, db', ret);
      }
    }
  }

  ghost predicate HasEntry(db: Db, user: nat, path: seq<string>) {
    exists name :: Resolve(db, user, path + [name]).Some?
  }

  lemma NamedIsEntry(db: Db, user: nat, dir: nat, name: string)
    requires forall l :: l in db.links && l.parent == dir ==> l.user == user
    ensures HasChild(db.links, user, dir, name) <==> Namesakes(db, dir, name) != {}
    ensures HasChild(db.links, user, dir, name) ==> Child(db.links, user, dir, name) in Namesakes(db, dir, name)
  {
    forall l | l in Namesakes(db, dir, name) ensures HasChild(db.links, user, dir, name) {
      assert IsChild(l, user, dir, name);
    }
    if HasChild(db.links, user, dir, name) {
      assert Child(db.links, user, dir, name) in Namesakes(db, dir, name);
    }
  }

  /** The path has an entry exactly when some row has its file as the parent. */
  lemma HasEntryIff(db: Db, user: nat, path: seq<string>, file: nat)
    requires Tree(db) && path != [] && Resolve(db, user, path) == Some(file)
    ensures HasEntry(db, user, path) <==> exists l :: l in db.links && l.parent == file
  {
    hide Resolve;
    if exists l :: l in db.links && l.parent == file {
      var l :| l in db.links && l.parent == file;
      Below(db, user, path, l.name);
      assert l in Namesakes(db, file, l.name);
      assert Resolve(db, user, path + [l.name]).Some?;
    }
    if HasEntry(db, user, path) {
      var name :| Resolve(db, user, path + [name]).Some?;
      Below(db, user, path, name);
      var l :| l in Namesakes(db, file, name);
    }
  }

  lemma RemovedIfEmpty(db: Db, user: nat, path: seq<string>, file: nat, db': Db, ret: int)
    requires Tree(db) && path != [] && Resolve(db, user, path) == Some(file)
    requires (db', ret) == RemoveFile(db, user, file)
    ensures ret == if IsDir(db, file) && HasEntry(db, user, path) then 2 else 0
  {
    hide Resolve, HasEntry, Tree;
    HasEntryIff(db, user, path, file);
  }
}
