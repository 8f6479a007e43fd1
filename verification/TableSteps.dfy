/**
 * register, mkdir, puts, update and rm as steps over the tables, the invariant every step keeps,
 * and what each step does to the map from paths to files.
 */
module TableSteps {
  import opened Prelude
  import opened Tables
  import opened PathScan

  // ---------------------------------------------------------------------------
  // The steps
  // ---------------------------------------------------------------------------

  function AddFile(db: Db, row: FileRow): Db {
    db.(files := db.files[db.lastFile + 1 := row], lastFile := db.lastFile + 1)
  }

  function Bind(db: Db, user: nat, name: string, file: nat, parent: nat): Db {
    db.(links := db.links + {Link(db.lastLink + 1, name, user, file, parent)}, lastLink := db.lastLink + 1)
  }

  function AddUser(db: Db, name: string, password: string): Db {
    db.(users := db.users + {User(db.lastUser + 1, name, password)}, lastUser := db.lastUser + 1)
  }

  const DIR_ROW := FileRow(Dir, None, true)

  function NewFileRow(hash: string): FileRow {
    FileRow(File, Some(hash), false)
  }

  /** user_register: 0 for a taken name, else the new user's id. */
  function Register(db: Db, name: string, password: string): (Db, int) {
    if exists u :: u in db.users && u.name == name then (db, 0)
    else (Enrol(db, name, password), db.lastUser + 1)
  }

  /** The three inserts of a registration: the user, a directory, and the parentless row between them. */
  function Enrol(db: Db, name: string, password: string): Db {
    Bind(AddFile(AddUser(db, name, password), DIR_ROW), db.lastUser + 1, name, db.lastFile + 1, 0)
  }

  /** The rows "where parent_id = dir and name = name", of whatever user. */
  function Namesakes(db: Db, dir: int, name: string): set<Link> {
    set l | l in db.links && l.parent == dir && l.name == name
  }

  /** query_mkdir after query_cd answered `dir`. */
  function Mkdir(db: Db, user: nat, dir: int, name: string): (Db, int) {
    if dir <= 0 then (db, dir)
    else if Namesakes(db, dir, name) != {} then (db, 1)
    else (Bind(AddFile(db, DIR_ROW), user, name, db.lastFile + 1, dir), 2)
  }

  /** The hash as query_puts sees it: a directory's NULL reads as the empty string. */
  function HashText(row: FileRow): string {
    match row.hash case None => "" case Some(h) => h
  }

  /** The file rows "where hash = hash". */
  function Stored(db: Db, hash: string): set<nat> {
    set f | f in db.files && db.files[f].hash == Some(hash)
  }

  function Progress(row: FileRow): int {
    if row.complete then 2 else 1
  }

  function PutsNew(db: Db, user: nat, dir: nat, name: string, hash: string): Db {
    Bind(AddFile(db, NewFileRow(hash)), user, name, db.lastFile + 1, dir)
  }

  /** query_puts after query_cd answered `dir`; the database may return any matching row first. */
  ghost predicate Puts(db: Db, user: nat, dir: int, name: string, hash: string, db': Db, ret: int)
    requires Referential(db)
  {
    if dir < 0 then db' == db && ret == -2
    else if dir == 0 then db' == db && ret == -1
    else if Namesakes(db, dir, name) != {} then
      db' == db && exists l :: l in Namesakes(db, dir, name) &&
                               ret == if hash == HashText(db.files[l.file]) then Progress(db.files[l.file]) else 0
    else if Stored(db, hash) == {} then db' == PutsNew(db, user, dir, name, hash) && ret == 1
    else exists f :: f in Stored(db, hash) && db' == Bind(db, user, name, f, dir) && ret == Progress(db.files[f])
  }

  /** query_update: every row with the hash becomes complete. */
  function Complete(db: Db, hash: string): Db {
    db.(files := map f | f in db.files ::
          if db.files[f].hash == Some(hash) then db.files[f].(complete := true) else db.files[f])
  }

  /** SQL LIKE: '%' matches any text, '_' one character, a backslash takes the next one literally. */
  predicate Like(pattern: string, s: string)
    decreases |pattern| + |s|
  {
    if pattern == "" then s == ""
    else if pattern[0] == '%' then Like(pattern[1..], s) || (s != "" && Like(pattern, s[1..]))
    else if pattern[0] == '\\' && |pattern| > 1 then
      s != "" && s[0] == pattern[1] && Like(pattern[2..], s[1..])
    else s != "" && (pattern[0] == '_' || pattern[0] == s[0]) && Like(pattern[1..], s[1..])
  }

  /**
   * The rows query_remove selects: the name matches, and the file id is that of some row of the
   * user in the directory. The row itself may be of another user or in another directory.
   */
  function Candidates(db: Db, user: nat, dir: int, pattern: string): set<Link> {
    set c | c in db.links && Like(pattern, c.name) && LinkedIn(db, user, dir, c.file)
  }

  predicate LinkedIn(db: Db, user: nat, dir: int, file: nat) {
    exists l :: l in db.links && l.user == user && l.parent == dir && l.file == file
  }

  function Unlink(links: set<Link>, user: nat, file: nat): set<Link> {
    set l | l in links && !(l.user == user && l.file == file)
  }

  /** The deletion once a row with this file id is chosen; 2 for a directory that has entries. */
  function RemoveFile(db: Db, user: nat, file: nat): (Db, int) {
    if IsDir(db, file) && exists l :: l in db.links && l.parent == file then (db, 2)
    else (db.(links := Unlink(db.links, user, file)), 0)
  }

  /** query_remove after query_cd answered `dir`. An illegal path (0) reports what success reports. */
  ghost predicate Remove(db: Db, user: nat, dir: int, pattern: string, db': Db, ret: int) {
    if dir <= 0 then db' == db && ret == dir
    else if Candidates(db, user, dir, pattern) == {} then db' == db && ret == 1
    else exists c :: c in Candidates(db, user, dir, pattern) && (db', ret) == RemoveFile(db, user, c.file)
  }

  /** A command with what the database answered to query_cd's select. */
  datatype Command =
    | CmdRegister(name: string, password: string)
    | CmdMkdir(user: nat, path: seq<string>, name: string, rows: seq<Link>)
    | CmdPuts(user: nat, path: seq<string>, name: string, hash: string, rows: seq<Link>)
    | CmdUpdate(hash: string)
    | CmdRemove(user: nat, path: seq<string>, pattern: string, rows: seq<Link>)

  predicate HasTarget(cmd: Command) {
    cmd.CmdMkdir? || cmd.CmdPuts? || cmd.CmdRemove?
  }

  function Target(cmd: Command): int
    requires HasTarget(cmd)
  {
    Cd(cmd.rows, cmd.path)
  }

  ghost predicate Next(db: Db, cmd: Command, db': Db, ret: int)
    requires Referential(db)
  {
    && (HasTarget(cmd) ==> cmd.path != [] && Answer(db, cmd.user, cmd.rows))
    && match cmd
       case CmdRegister(name, password) => (db', ret) == Register(db, name, password)
       case CmdMkdir(user, path, name, rows) => (db', ret) == Mkdir(db, user, Cd(rows, path), name)
       case CmdPuts(user, path, name, hash, rows) => Puts(db, user, Cd(rows, path), name, hash, db', ret)
       case CmdUpdate(hash) => db' == Complete(db, hash) && ret == 0
       case CmdRemove(user, path, pattern, rows) => Remove(db, user, Cd(rows, path), pattern, db', ret)
  }

  // ---------------------------------------------------------------------------
  // Keeping the tree
  // ---------------------------------------------------------------------------

  /** The four link invariants depend on the file table only through which linked ids are directories. */
  lemma LinksKeepShape(db: Db, db': Db)
    requires Tree(db) && db'.links == db.links && db'.users == db.users
    requires forall l :: l in db.links ==> (IsDir(db', l.file) <==> IsDir(db, l.file))
    ensures Rooted(db') && SiblingsUnique(db'.links) && DirsOnce(db') && ParentsLive(db')
  {
    forall l | l in db'.links && l.parent != 0 ensures LiveDir(db', l.user, l.parent) {
      assert LiveDir(db, l.user, l.parent);
    }
  }

  lemma AddFileKeepsTree(db: Db, row: FileRow)
    requires Tree(db)
    requires row.kind.Dir? <==> row.hash.None?
    requires row.hash.Some? ==> Stored(db, row.hash.value) == {}
    ensures Tree(AddFile(db, row))
  {
    AddFileReferential(db, row);
    AddFileKeepsHashes(db, row);
    LinksKeepShape(db, AddFile(db, row));
  }

  lemma AddFileKeepsHashes(db: Db, row: FileRow)
    requires Referential(db) && HashesUnique(db)
    requires row.kind.Dir? <==> row.hash.None?
    requires row.hash.Some? ==> Stored(db, row.hash.value) == {}
    ensures HashesUnique(AddFile(db, row))
  {
    assert forall f :: f in db.files && SameHash(row, db.files[f]) ==> f in Stored(db, row.hash.value);
  }

  lemma BindKeepsReferential(db: Db, user: nat, name: string, file: nat, parent: nat)
    requires Referential(db) && file in db.files && Registered(db, user)
    ensures Referential(Bind(db, user, name, file, parent))
  {
    var db' := Bind(db, user, name, file, parent);
    forall u | Registered(db, u) ensures Registered(db', u) {
      var r :| r in db.users && r.id == u;
      assert r in db'.users;
    }
  }

  lemma BindKeepsSiblings(db: Db, user: nat, name: string, file: nat, parent: nat)
    requires SiblingsUnique(db.links) && !HasChild(db.links, user, parent, name)
    ensures SiblingsUnique(Bind(db, user, name, file, parent).links)
  {
    forall l | l in db.links ensures !IsChild(l, user, parent, name) {}
  }

  lemma BindKeepsDirsOnce(db: Db, user: nat, name: string, file: nat, parent: nat)
    requires DirsOnce(db)
    requires IsDir(db, file) ==> parent < file && forall l :: l in db.links ==> l.file != file
    ensures DirsOnce(Bind(db, user, name, file, parent))
  {
  }

  lemma BindKeepsParents(db: Db, user: nat, name: string, file: nat, parent: nat)
    requires ParentsLive(db) && (parent == 0 || LiveDir(db, user, parent))
    ensures ParentsLive(Bind(db, user, name, file, parent))
  {
    var db' := Bind(db, user, name, file, parent);
    forall u, d | LiveDir(db, u, d) ensures LiveDir(db', u, d) {
      var l :| l in db.links && l.user == u && l.file == d;
      assert l in db'.links;
    }
  }

  lemma HasChildMonotone(links: set<Link>, links': set<Link>, user: nat, parent: nat, name: string)
    requires links <= links' && HasChild(links, user, parent, name)
    ensures HasChild(links', user, parent, name)
  {
    assert Child(links, user, parent, name) in links';
  }

  lemma BindKeepsRooted(db: Db, user: nat, name: string, file: nat, parent: nat)
    requires Rooted(db) && parent != 0
    ensures Rooted(Bind(db, user, name, file, parent))
  {
    var db' := Bind(db, user, name, file, parent);
    forall u | u in db'.users ensures HasChild(db'.links, u.id, 0, u.name) {
      HasChildMonotone(db.links, db'.links, u.id, 0, u.name);
    }
  }

  /** A new row under a live directory keeps the tree if its name is free there. */
  lemma BindKeepsTree(db: Db, user: nat, name: string, file: nat, parent: nat)
    requires Tree(db) && file in db.files
    requires LiveDir(db, user, parent) && Namesakes(db, parent, name) == {}
    requires IsDir(db, file) ==> parent < file && forall l :: l in db.links ==> l.file != file
    ensures Tree(Bind(db, user, name, file, parent))
  {
    var db' := Bind(db, user, name, file, parent);
    forall l | l in db.links ensures !IsChild(l, user, parent, name) {
      assert l !in Namesakes(db, parent, name);
    }
    BindKeepsReferential(db, user, name, file, parent);
    BindKeepsSiblings(db, user, name, file, parent);
    BindKeepsDirsOnce(db, user, name, file, parent);
    BindKeepsParents(db, user, name, file, parent);
    BindKeepsRooted(db, user, name, file, parent);
  }

  /** What holds of every pair of rows survives when rows are deleted. */
  lemma FewerLinks(db: Db, links: set<Link>)
    requires Tree(db) && links <= db.links
    ensures Referential(db.(links := links)) && SiblingsUnique(links) && DirsOnce(db.(links := links))
  {
    var db' := db.(links := links);
    forall u | Registered(db, u) ensures Registered(db', u) {}
  }

  lemma UnlinkKeepsTree(db: Db, user: nat, file: nat)
    requires Tree(db)
    requires forall l :: l in db.links ==> l.parent != file
    requires forall l :: l in db.links && l.user == user && l.file == file ==> l.parent != 0
    ensures Tree(db.(links := Unlink(db.links, user, file)))
  {
    FewerLinks(db, Unlink(db.links, user, file));
    UnlinkKeepsRooted(db, user, file);
    UnlinkKeepsParents(db, user, file);
  }

  lemma UnlinkKeepsRooted(db: Db, user: nat, file: nat)
    requires Rooted(db)
    requires forall l :: l in db.links && l.user == user && l.file == file ==> l.parent != 0
    ensures Rooted(db.(links := Unlink(db.links, user, file)))
  {
    var links := Unlink(db.links, user, file);
    forall u | u in db.users ensures HasChild(links, u.id, 0, u.name) {
      assert HasChild(db.links, u.id, 0, u.name);
      assert Child(db.links, u.id, 0, u.name) in links;
    }
  }

  lemma UnlinkKeepsParents(db: Db, user: nat, file: nat)
    requires ParentsLive(db)
    requires forall l :: l in db.links ==> l.parent != file
    ensures ParentsLive(db.(links := Unlink(db.links, user, file)))
  {
    var db' := db.(links := Unlink(db.links, user, file));
    forall l | l in db'.links && l.parent != 0 ensures LiveDir(db', l.user, l.parent) {
      assert LiveDir(db, l.user, l.parent);
      var d :| d in db.links && d.user == l.user && d.file == l.parent;
      assert d in db'.links;
    }
  }

  lemma AddUserReferential(db: Db, name: string, password: string)
    requires Referential(db) && forall u :: u in db.users ==> u.name != name
    ensures Referential(AddUser(db, name, password))
    ensures Registered(AddUser(db, name, password), db.lastUser + 1)
  {
    var db' := AddUser(db, name, password);
    assert User(db.lastUser + 1, name, password) in db'.users;
    forall u | Registered(db, u) ensures Registered(db', u) {
      var r :| r in db.users && r.id == u;
      assert r in db'.users;
    }
  }

  lemma AddFileReferential(db: Db, row: FileRow)
    requires Referential(db)
    ensures Referential(AddFile(db, row))
    ensures forall u :: Registered(db, u) ==> Registered(AddFile(db, row), u)
  {
    var db' := AddFile(db, row);
    forall u | Registered(db, u) ensures Registered(db', u) {
      var r :| r in db.users && r.id == u;
      assert r in db'.users;
    }
  }

  lemma EnrolReferential(db: Db, name: string, password: string)
    requires Referential(db) && forall u :: u in db.users ==> u.name != name
    ensures Referential(Enrol(db, name, password))
  {
    var db1 := AddUser(db, name, password);
    AddUserReferential(db, name, password);
    AddFileReferential(db1, DIR_ROW);
    BindKeepsReferential(AddFile(db1, DIR_ROW), db.lastUser + 1, name, db.lastFile + 1, 0);
  }

  lemma EnrolShape(db: Db, name: string, password: string)
    requires Tree(db)
    ensures var db' := Enrol(db, name, password);
            SiblingsUnique(db'.links) && DirsOnce(db') && ParentsLive(db')
  {
    var db2 := AddFile(AddUser(db, name, password), DIR_ROW);
    var id, file := db.lastUser + 1, db.lastFile + 1;
    forall l | l in db.links ensures l.user <= db.lastUser && l.file != file && (IsDir(db2, l.file) <==> IsDir(db, l.file)) {
      assert Registered(db, l.user);
    }
    BindKeepsSiblings(db2, id, name, file, 0);
    BindKeepsDirsOnce(db2, id, name, file, 0);
    forall l | l in db2.links && l.parent != 0 ensures LiveDir(db2, l.user, l.parent) {
      assert LiveDir(db, l.user, l.parent);
    }
    BindKeepsParents(db2, id, name, file, 0);
  }

  lemma EnrolRoots(db: Db, name: string, password: string)
    requires Referential(db) && Rooted(db) && forall u :: u in db.users ==> u.name != name
    ensures Rooted(Enrol(db, name, password))
  {
    var db' := Enrol(db, name, password);
    var root := Link(db.lastLink + 1, name, db.lastUser + 1, db.lastFile + 1, 0);
    assert root in db'.links && IsChild(root, db.lastUser + 1, 0, name);
    forall u | u in db'.users ensures HasChild(db'.links, u.id, 0, u.name) {
      if u in db.users {
        HasChildMonotone(db.links, db'.links, u.id, 0, u.name);
      }
    }
    assert forall l :: l in db.links ==> Registered(db, l.user) && l.user <= db.lastUser;
  }

  lemma RegisterKeepsTree(db: Db, name: string, password: string)
    requires Tree(db)
    ensures Tree(Register(db, name, password).0)
  {
    if forall u :: u in db.users ==> u.name != name {
      EnrolReferential(db, name, password);
      EnrolShape(db, name, password);
      EnrolRoots(db, name, password);
      assert HashesUnique(Enrol(db, name, password));
    }
  }

  lemma CompleteKeepsTree(db: Db, hash: string)
    requires Tree(db)
    ensures Tree(Complete(db, hash))
  {
    var db' := Complete(db, hash);
    assert forall f :: f in db.files ==> db'.files[f].kind == db.files[f].kind && db'.files[f].hash == db.files[f].hash;
    assert forall f :: IsDir(db', f) <==> IsDir(db, f);
    assert forall f, g :: f in db.files && g in db.files && SameHash(db'.files[f], db'.files[g])
                          ==> SameHash(db.files[f], db.files[g]);
    forall l | l in db'.links ensures Registered(db', l.user) {
      assert Registered(db, l.user);
    }
    LinksKeepShape(db, db');
  }

  /** A positive answer of query_cd is the file id of one of the user's rows. */
  lemma CdNamesARow(db: Db, user: nat, rows: seq<Link>, path: seq<string>) returns (l: Link)
    requires SiblingsUnique(db.links) && Answer(db, user, rows) && path != [] && Cd(rows, path) > 0
    ensures l in db.links && l.user == user && l.file == Cd(rows, path)
  {
    var j := ScanEndsAt(db, user, rows, path, 0, rows[0].parent, 0);
    l := rows[j];
  }

  // ---------------------------------------------------------------------------
  // Every step keeps the tree, exactly when it inserts only under directories
  // ---------------------------------------------------------------------------

  /** Whether a mkdir or puts is going to insert a row: query_cd accepts the path and the name is free. */
  predicate Inserts(db: Db, cmd: Command) {
    (cmd.CmdMkdir? || cmd.CmdPuts?) && Target(cmd) > 0 && Namesakes(db, Target(cmd), cmd.name) == {}
  }

  ghost predicate DirTarget(db: Db, cmd: Command) {
    HasTarget(cmd) && Target(cmd) > 0 && IsDir(db, Target(cmd))
  }

  lemma FreshFileFacts(db: Db, row: FileRow, user: nat, dir: nat)
    requires Referential(db) && LiveDir(db, user, dir)
    ensures var db1 := AddFile(db, row);
            && LiveDir(db1, user, dir) && db.lastFile + 1 in db1.files && dir < db.lastFile + 1
            && (forall l :: l in db1.links ==> l.file != db.lastFile + 1)
  {
    var l :| l in db.links && l.user == user && l.file == dir;
    assert l in AddFile(db, row).links;
  }

  /** mkdir, and puts of new content: a new file row bound under a live directory. */
  lemma NewFileKeepsTree(db: Db, row: FileRow, user: nat, dir: nat, name: string)
    requires Tree(db) && LiveDir(db, user, dir) && Namesakes(db, dir, name) == {}
    requires row.kind.Dir? <==> row.hash.None?
    requires row.hash.Some? ==> Stored(db, row.hash.value) == {}
    ensures Tree(Bind(AddFile(db, row), user, name, db.lastFile + 1, dir))
  {
    FreshFileFacts(db, row, user, dir);
    AddFileKeepsTree(db, row);
    BindKeepsTree(AddFile(db, row), user, name, db.lastFile + 1, dir);
  }

  /** The chosen row of query_remove is a file, or is itself the user's entry in the directory. */
  lemma CandidateIsEntry(db: Db, user: nat, dir: nat, pattern: string, c: Link) returns (l: Link)
    requires Tree(db) && dir > 0 && c in Candidates(db, user, dir, pattern)
    ensures l in db.links && l.user == user && l.parent == dir && l.file == c.file
    ensures IsDir(db, c.file) ==> c == l
    ensures !IsDir(db, c.file) ==> forall m :: m in db.links ==> m.parent != c.file
    ensures forall m :: m in db.links && m.user == user && m.file == c.file ==> m.parent != 0
  {
    assert LinkedIn(db, user, dir, c.file);
    l :| l in db.links && l.user == user && l.parent == dir && l.file == c.file;
    forall m | m in db.links && m.parent == c.file ensures IsDir(db, c.file) {
      assert LiveDir(db, m.user, m.parent);
    }
  }

  lemma RemoveKeepsTree(db: Db, user: nat, dir: int, pattern: string, db': Db, ret: int)
    requires Tree(db) && Remove(db, user, dir, pattern, db', ret)
    ensures Tree(db')
  {
    if dir > 0 && Candidates(db, user, dir, pattern) != {} {
      var c :| c in Candidates(db, user, dir, pattern) && (db', ret) == RemoveFile(db, user, c.file);
      hide Tree, Like;
      var l := CandidateIsEntry(db, user, dir, pattern, c);
      if ret == 0 {
        UnlinkKeepsTree(db, user, c.file);
      }
    }
  }

  /** A mkdir, or a puts of content that is not stored yet, also inserts a file row. */
  ghost predicate StoresNew(db: Db, cmd: Command) {
    cmd.CmdMkdir? || (cmd.CmdPuts? && Stored(db, cmd.hash) == {})
  }

  function NewRow(cmd: Command): FileRow
    requires cmd.CmdMkdir? || cmd.CmdPuts?
  {
    if cmd.CmdMkdir? then DIR_ROW else NewFileRow(cmd.hash)
  }

  /** The tables after a mkdir or puts that inserted the row n. */
  ghost predicate InsertedAs(db: Db, cmd: Command, db': Db, n: Link)
    requires cmd.CmdMkdir? || cmd.CmdPuts?
  {
    && n.parent == Target(cmd) && n.user == cmd.user && n.name == cmd.name && n.id == db.lastLink + 1
    && db' == Bind(if StoresNew(db, cmd) then AddFile(db, NewRow(cmd)) else db, n.user, n.name, n.file, n.parent)
    && if StoresNew(db, cmd) then n.file == db.lastFile + 1 else n.file in Stored(db, cmd.hash)
  }

  /** What a mkdir or puts that inserts a row does to the tables. */
  lemma InsertForm(db: Db, cmd: Command, db': Db, ret: int) returns (n: Link)
    requires Referential(db) && Next(db, cmd, db', ret) && Inserts(db, cmd)
    ensures InsertedAs(db, cmd, db', n)
    ensures n.parent > 0 && Namesakes(db, n.parent, n.name) == {}
    ensures n !in db.links && db'.links == db.links + {n}
  {
    var file: nat;
    if StoresNew(db, cmd) {
      file := db.lastFile + 1;
    } else {
      file :| file in Stored(db, cmd.hash) && db' == Bind(db, cmd.user, cmd.name, file, Target(cmd));
    }
    n := Link(db.lastLink + 1, cmd.name, cmd.user, file, Target(cmd));
  }

  lemma TargetRow(db: Db, cmd: Command, db': Db, ret: int) returns (l: Link)
    requires Tree(db) && Next(db, cmd, db', ret) && HasTarget(cmd) && Target(cmd) > 0
    ensures l in db.links && l.user == cmd.user && l.file == Target(cmd) && l.file in db.files
    ensures Registered(db, cmd.user)
  {
    l := CdNamesARow(db, cmd.user, cmd.rows, cmd.path);
  }

  /** A row under anything but a directory is no tree. */
  lemma InsertUnderFileBreaksTree(db: Db, cmd: Command, db': Db, ret: int)
    requires Tree(db) && Next(db, cmd, db', ret) && Inserts(db, cmd) && !IsDir(db, Target(cmd))
    ensures !ParentsLive(db')
  {
    hide Tree, Next, Cd;
    TreeIsReferential(db);
    var n := InsertForm(db, cmd, db', ret);
    var l := TargetRow(db, cmd, db', ret);
    StillNoDir(db, cmd, db', n, l.file);
    assert n in db'.links && !LiveDir(db', n.user, n.parent);
  }

  lemma TreeIsReferential(db: Db)
    requires Tree(db)
    ensures Referential(db)
  {
  }

  lemma StillNoDir(db: Db, cmd: Command, db': Db, n: Link, file: nat)
    requires Referential(db) && (cmd.CmdMkdir? || cmd.CmdPuts?) && InsertedAs(db, cmd, db', n)
    requires file in db.files && !IsDir(db, file)
    ensures !IsDir(db', file)
  {
  }

  lemma InsertUnderDirKeepsTree(db: Db, cmd: Command, db': Db, ret: int)
    requires Tree(db) && Next(db, cmd, db', ret) && Inserts(db, cmd) && IsDir(db, Target(cmd))
    ensures Tree(db')
  {
    var n := InsertForm(db, cmd, db', ret);
    var l := TargetRow(db, cmd, db', ret);
    assert LiveDir(db, n.user, n.parent);
    if StoresNew(db, cmd) {
      NewFileKeepsTree(db, NewRow(cmd), n.user, n.parent, n.name);
    } else {
      BindKeepsTree(db, n.user, n.name, n.file, n.parent);
    }
  }

  /** A mkdir or puts that inserts no row changes nothing. */
  lemma InsertsOrUnchanged(db: Db, cmd: Command, db': Db, ret: int)
    requires Referential(db) && Next(db, cmd, db', ret)
    requires (cmd.CmdMkdir? || cmd.CmdPuts?) && !Inserts(db, cmd)
    ensures db' == db
  {
  }

  /** The condition on the tables before the step says whether rows are added by it. */
  lemma InsertsIffGrows(db: Db, cmd: Command, db': Db, ret: int)
    requires Referential(db) && Next(db, cmd, db', ret) && (cmd.CmdMkdir? || cmd.CmdPuts?)
    ensures Inserts(db, cmd) <==> db'.links != db.links
  {
    if Inserts(db, cmd) {
      var n := InsertForm(db, cmd, db', ret);
      assert n in db'.links;
    } else {
      InsertsOrUnchanged(db, cmd, db', ret);
    }
  }

  /**
   * From a tree, every step leads to a tree, except a mkdir or puts that inserts under a target
   * which is not a directory: such a step always destroys the tree.
   */
  lemma StepKeepsTreeIff(db: Db, cmd: Command, db': Db, ret: int)
    requires Tree(db) && Next(db, cmd, db', ret)
    ensures Tree(db') <==> (Inserts(db, cmd) ==> DirTarget(db, cmd))
  {
    match cmd
    case CmdRegister(name, password) => RegisterKeepsTree(db, name, password);
    case CmdUpdate(hash) => CompleteKeepsTree(db, hash);
    case CmdRemove(user, path, pattern, rows) => RemoveKeepsTree(db, user, Target(cmd), pattern, db', ret);
    case _ =>
      if !Inserts(db, cmd) {
        InsertsOrUnchanged(db, cmd, db', ret);
      } else {
        var n := InsertForm(db, cmd, db', ret);
        if IsDir(db, Target(cmd)) {
          InsertUnderDirKeepsTree(db, cmd, db', ret);
        } else {
          InsertUnderFileBreaksTree(db, cmd, db', ret);
        }
      }
  }

  // ---------------------------------------------------------------------------
  // What a step leaves alone
  // ---------------------------------------------------------------------------

  /**
   * Every file row is kept with its kind and hash, and becomes complete exactly by an update with
   * its hash; a file row that is added is an empty directory's or that of incomplete new content.
   */
  lemma StepKeepsFiles(db: Db, cmd: Command, db': Db, ret: int)
    requires Referential(db) && Next(db, cmd, db', ret)
    ensures forall f :: f in db.files ==>
              && f in db'.files && db'.files[f].kind == db.files[f].kind && db'.files[f].hash == db.files[f].hash
              && (db'.files[f].complete
                  <==> db.files[f].complete || (cmd.CmdUpdate? && db.files[f].hash == Some(cmd.hash)))
    ensures forall f :: f in db'.files && f !in db.files ==>
              && f == db.lastFile + 1 == db'.lastFile
              && db'.files[f] == if cmd.CmdPuts? then FileRow(File, Some(cmd.hash), false) else FileRow(Dir, None, true)
  {
    if cmd.CmdMkdir? || cmd.CmdPuts? {
      if Inserts(db, cmd) {
        var n := InsertForm(db, cmd, db', ret);
      } else {
        InsertsOrUnchanged(db, cmd, db', ret);
      }
    }
  }

  /**
   * User rows are kept, and only a registration adds one: the given name and password under a new
   * id. Entries are kept except by rm, which deletes entries of its own user; every added entry has a new id.
   */
  lemma StepKeepsRows(db: Db, cmd: Command, db': Db, ret: int)
    requires Referential(db) && Next(db, cmd, db', ret)
    ensures db'.users == if cmd.CmdRegister? && ret > 0 then db.users + {User(ret, cmd.name, cmd.password)} else db.users
    ensures cmd.CmdRegister? && ret > 0 ==> ret > db.lastUser && forall u :: u in db.users ==> u.name != cmd.name
    ensures forall l :: l in db.links && l !in db'.links ==> cmd.CmdRemove? && l.user == cmd.user
    ensures forall l :: l in db'.links && l !in db.links ==> l.id == db.lastLink + 1 == db'.lastLink
  {
    if cmd.CmdMkdir? || cmd.CmdPuts? {
      if Inserts(db, cmd) {
        var n := InsertForm(db, cmd, db', ret);
      } else {
        InsertsOrUnchanged(db, cmd, db', ret);
      }
    }
  }
}
