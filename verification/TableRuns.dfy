/**
 * Short runs from the empty tables, each reachable by ordinary commands, in which an operation does
 * not do what it means.
 */
module TableRuns {
  import opened Prelude
  import opened Tables
  import opened PathScan
  import opened TableSteps
  import opened TableEffects

  lemma EnrolIsStep(db: Db, name: string, password: string)
    requires Tree(db) && forall u :: u in db.users ==> u.name != name
    ensures Next(db, CmdRegister(name, password), Enrol(db, name, password), db.lastUser + 1)
    ensures Tree(Enrol(db, name, password))
  {
    RegisterKeepsTree(db, name, password);
  }

  lemma PutsNewIsStep(db: Db, user: nat, path: seq<string>, name: string, hash: string, rows: seq<Link>, dir: nat)
    requires Tree(db) && path != [] && Answer(db, user, rows) && Cd(rows, path) == dir && LiveDir(db, user, dir)
    requires Namesakes(db, dir, name) == {} && Stored(db, hash) == {}
    ensures Next(db, CmdPuts(user, path, name, hash, rows), PutsNew(db, user, dir, name, hash), 1)
    ensures Tree(PutsNew(db, user, dir, name, hash))
  {
    hide Tree, Answer;
    TreeIsReferential(db);
    NewFileKeepsTree(db, NewFileRow(hash), user, dir, name);
  }

  lemma ShareIsStep(db: Db, user: nat, path: seq<string>, name: string, hash: string, rows: seq<Link>, dir: nat, f: nat)
    requires Tree(db) && path != [] && Answer(db, user, rows) && Cd(rows, path) == dir && LiveDir(db, user, dir)
    requires Namesakes(db, dir, name) == {} && f in Stored(db, hash)
    ensures Next(db, CmdPuts(user, path, name, hash, rows), Bind(db, user, name, f, dir), Progress(db.files[f]))
    ensures Tree(Bind(db, user, name, f, dir))
  {
    BindKeepsTree(db, user, name, f, dir);
  }

  lemma MkdirIsStep(db: Db, user: nat, path: seq<string>, name: string, rows: seq<Link>, dir: nat)
    requires Tree(db) && path != [] && Answer(db, user, rows) && Cd(rows, path) == dir && LiveDir(db, user, dir)
    requires Namesakes(db, dir, name) == {}
    ensures Next(db, CmdMkdir(user, path, name, rows), Bind(AddFile(db, DIR_ROW), user, name, db.lastFile + 1, dir), 2)
    ensures Tree(Bind(AddFile(db, DIR_ROW), user, name, db.lastFile + 1, dir))
  {
    hide Tree, Answer;
    TreeIsReferential(db);
    NewFileKeepsTree(db, DIR_ROW, user, dir, name);
  }

  // ---------------------------------------------------------------------------
  // Sharing older content
  // ---------------------------------------------------------------------------

  const ANN_ROOT := Link(1, "ann", 1, 1, 0)
  const ANN_FILE := Link(2, "a.txt", 1, 2, 1)
  const BOB_ROOT := Link(3, "bob", 2, 3, 0)
  const BOB_FILE := Link(4, "b.txt", 2, 2, 3)
  const ANN := User(1, "ann", "x")
  const BOB := User(2, "bob", "y")
  const DB1 := Db({ANN}, map[1 := DIR_ROW], {ANN_ROOT}, 1, 1, 1)
  const DB2 := Db({ANN}, map[1 := DIR_ROW, 2 := NewFileRow("h")], {ANN_ROOT, ANN_FILE}, 1, 2, 2)
  const DB3 := Db({ANN, BOB}, map[1 := DIR_ROW, 2 := NewFileRow("h"), 3 := DIR_ROW],
                  {ANN_ROOT, ANN_FILE, BOB_ROOT}, 2, 3, 3)
  const DB4 := Db({ANN, BOB}, map[1 := DIR_ROW, 2 := NewFileRow("h"), 3 := DIR_ROW],
                  {ANN_ROOT, ANN_FILE, BOB_ROOT, BOB_FILE}, 2, 3, 4)

  lemma RootAnswers(db: Db, root: Link)
    requires root.parent == 0 && root.file > 0 && root in db.links
    requires forall l :: l in db.links && l.user == root.user ==> l == root
    ensures Answer(db, root.user, [root]) && Cd([root], [root.name]) == root.file
  {
    assert [root][0] == root && root in [root];
    assert Scan([root], [root.name], 1, root.file, 1) == (root.file, 1);
  }

  lemma AnnRegisters()
    ensures Next(EMPTY_DB, CmdRegister("ann", "x"), DB1, 1) && Tree(DB1)
  {
    assert Enrol(EMPTY_DB, "ann", "x") == DB1;
    EnrolIsStep(EMPTY_DB, "ann", "x");
  }

  lemma AnnStores()
    requires Tree(DB1)
    ensures Next(DB1, CmdPuts(1, ["ann"], "a.txt", "h", [ANN_ROOT]), DB2, 1) && Tree(DB2)
  {
    assert PutsNew(DB1, 1, 1, "a.txt", "h") == DB2;
    assert ANN_ROOT in DB1.links && LiveDir(DB1, 1, 1);
    RootAnswers(DB1, ANN_ROOT);
    PutsNewIsStep(DB1, 1, ["ann"], "a.txt", "h", [ANN_ROOT], 1);
  }

  lemma BobRegisters()
    requires Tree(DB2)
    ensures Next(DB2, CmdRegister("bob", "y"), DB3, 2) && Tree(DB3)
  {
    var db3 := Enrol(DB2, "bob", "y");
    assert db3.users == DB3.users && db3.files == DB3.files && db3.links == DB3.links;
    EnrolIsStep(DB2, "bob", "y");
  }

  lemma BobShares()
    requires Tree(DB3)
    ensures Next(DB3, CmdPuts(2, ["bob"], "b.txt", "h", [BOB_ROOT]), DB4, 1) && Tree(DB4)
  {
    var db4 := Bind(DB3, 2, "b.txt", 2, 3);
    assert db4.links == DB4.links;
    assert BOB_ROOT in DB3.links && LiveDir(DB3, 2, 3);
    assert 2 in Stored(DB3, "h");
    RootAnswers(DB3, BOB_ROOT);
    ShareIsStep(DB3, 2, ["bob"], "b.txt", "h", [BOB_ROOT], 3, 2);
  }

  lemma BobIsLost(rows: seq<Link>)
    requires Tree(DB4) && Answer(DB4, 2, rows)
    ensures Resolve(DB4, 2, ["bob"]) == Some(3) && Cd(rows, ["bob"]) == 0
  {
    WalkStep(DB4.links, BOB_ROOT, ["bob"]);
    LowestComesFirst(DB4, 2, rows, BOB_FILE);
    var j := ScanEndsAt(DB4, 2, rows, ["bob"], 0, 3, 0);
  }

  /**
   * Reachable from the empty tables: ann stores content, bob registers and uploads the same
   * content, and from then on query_cd rejects bob's own root.
   */
  lemma SharingRunLosesRoot(rows: seq<Link>)
    requires Answer(DB4, 2, rows)
    ensures Next(EMPTY_DB, CmdRegister("ann", "x"), DB1, 1)
    ensures Tree(DB1) && Next(DB1, CmdPuts(1, ["ann"], "a.txt", "h", [ANN_ROOT]), DB2, 1)
    ensures Tree(DB2) && Next(DB2, CmdRegister("bob", "y"), DB3, 2)
    ensures Tree(DB3) && Next(DB3, CmdPuts(2, ["bob"], "b.txt", "h", [BOB_ROOT]), DB4, 1)
    ensures Tree(DB4) && Resolve(DB4, 2, ["bob"]) == Some(3) && Cd(rows, ["bob"]) == 0
  {
    AnnRegisters();
    AnnStores();
    BobRegisters();
    BobShares();
    BobIsLost(rows);
  }

  // ---------------------------------------------------------------------------
  // A directory below a file
  // ---------------------------------------------------------------------------

  /** The pass over the first rows of a list. */
  lemma TwoRows(a: Link, b: Link)
    requires a.parent == 0 && b.parent == a.file && a.file > 0 && b.file > 0
    ensures Cd([a, b], [a.name, b.name]) == b.file
  {
    var rows, path := [a, b], [a.name, b.name];
    assert Scan(rows, path, 2, b.file, 2) == (b.file, 2);
    assert Scan(rows, path, 1, a.file, 1) == (b.file, 2);
  }

  lemma AnnsRows()
    ensures Answer(DB2, 1, [ANN_ROOT, ANN_FILE])
  {
    assert [ANN_ROOT, ANN_FILE][0] == ANN_ROOT && [ANN_ROOT, ANN_FILE][1] == ANN_FILE;
  }

  /**
   * Reachable from the empty tables: ann stores a.txt and makes a directory below it, by
   * "mkdir a.txt/d". Her rows are a tree no more.
   */
  lemma MkdirBelowFileRun() returns (db: Db)
    ensures Next(EMPTY_DB, CmdRegister("ann", "x"), DB1, 1)
    ensures Tree(DB1) && Next(DB1, CmdPuts(1, ["ann"], "a.txt", "h", [ANN_ROOT]), DB2, 1)
    ensures Tree(DB2) && Next(DB2, CmdMkdir(1, ["ann", "a.txt"], "d", [ANN_ROOT, ANN_FILE]), db, 2)
    ensures !Tree(db)
  {
    hide Tree, ParentsLive;
    AnnRegisters();
    AnnStores();
    db := Bind(AddFile(DB2, DIR_ROW), 1, "d", 3, 2);
    var cmd := CmdMkdir(1, ["ann", "a.txt"], "d", [ANN_ROOT, ANN_FILE]);
    TwoRows(ANN_ROOT, ANN_FILE);
    AnnsRows();
    InsertUnderFileBreaksTree(DB2, cmd, db, 2);
    TreeNeedsParents(db);
  }

  lemma TreeNeedsParents(db: Db)
    requires !ParentsLive(db)
    ensures !Tree(db)
  {
  }

  // ---------------------------------------------------------------------------
  // rm with a wildcard in the name
  // ---------------------------------------------------------------------------

  const AXB := Link(2, "axb", 1, 2, 1)
  const DB5 := Db({ANN}, map[1 := DIR_ROW, 2 := DIR_ROW], {ANN_ROOT, AXB}, 1, 2, 2)
  const DB6 := Db({ANN}, map[1 := DIR_ROW, 2 := DIR_ROW], {ANN_ROOT}, 1, 2, 2)

  lemma UnderscoreMatches()
    ensures Like("a_b", "axb")
  {
    assert "a_b"[1..] == "_b" && "axb"[1..] == "xb" && "_b"[1..] == "b" && "xb"[1..] == "b" && "b"[1..] == "";
    assert Like("b", "b");
    assert Like("_b", "xb");
  }

  lemma AnnMakesAxb()
    requires Tree(DB1)
    ensures Next(DB1, CmdMkdir(1, ["ann"], "axb", [ANN_ROOT]), DB5, 2) && Tree(DB5)
  {
    assert Bind(AddFile(DB1, DIR_ROW), 1, "axb", 2, 1) == DB5;
    assert ANN_ROOT in DB1.links && LiveDir(DB1, 1, 1);
    RootAnswers(DB1, ANN_ROOT);
    MkdirIsStep(DB1, 1, ["ann"], "axb", [ANN_ROOT], 1);
  }

  lemma RootOfTwo(a: Link, b: Link)
    requires a.parent == 0 && a.file > 0
    ensures Cd([a, b], [a.name]) == a.file
  {
    assert Scan([a, b], [a.name], 1, a.file, 1) == (a.file, 1);
  }

  lemma AnnRemovesUnderscore()
    ensures Next(DB5, CmdRemove(1, ["ann"], "a_b", [ANN_ROOT, AXB]), DB6, 0)
  {
    RootOfTwo(ANN_ROOT, AXB);
    assert [ANN_ROOT, AXB][0] == ANN_ROOT && [ANN_ROOT, AXB][1] == AXB;
    UnderscoreMatches();
    assert AXB in DB5.links && LinkedIn(DB5, 1, 1, 2);
    assert AXB in Candidates(DB5, 1, 1, "a_b");
    assert Unlink(DB5.links, 1, 2) == DB6.links;
    assert RemoveFile(DB5, 1, 2) == (DB6, 0);
  }

  /** Reachable from the empty tables: ann makes axb, and "rm a_b" removes it, though there is no a_b. */
  lemma WildcardRun()
    ensures Next(EMPTY_DB, CmdRegister("ann", "x"), DB1, 1)
    ensures Tree(DB1) && Next(DB1, CmdMkdir(1, ["ann"], "axb", [ANN_ROOT]), DB5, 2)
    ensures Tree(DB5) && !HasChild(DB5.links, 1, 1, "a_b") && HasChild(DB5.links, 1, 1, "axb")
    ensures Next(DB5, CmdRemove(1, ["ann"], "a_b", [ANN_ROOT, AXB]), DB6, 0)
    ensures !HasChild(DB6.links, 1, 1, "axb")
  {
    hide Tree, Next;
    AnnRegisters();
    AnnMakesAxb();
    AnnRemovesUnderscore();
    assert AXB in DB5.links && IsChild(AXB, 1, 1, "axb");
  }

  // ---------------------------------------------------------------------------
  // rm of a name that an entry bears elsewhere
  // ---------------------------------------------------------------------------

  const D := Link(2, "d", 1, 2, 1)
  const X := Link(3, "x", 1, 3, 1)
  const Y := Link(4, "y", 1, 3, 2)
  const TWO_DIRS := map[1 := DIR_ROW, 2 := DIR_ROW]
  const WITH_CONTENT := map[1 := DIR_ROW, 2 := DIR_ROW, 3 := NewFileRow("h")]
  const DB7 := Db({ANN}, TWO_DIRS, {ANN_ROOT, D}, 1, 2, 2)
  const DB8 := Db({ANN}, WITH_CONTENT, {ANN_ROOT, D, X}, 1, 3, 3)
  const DB9 := Db({ANN}, WITH_CONTENT, {ANN_ROOT, D, X, Y}, 1, 3, 4)
  const DB10 := Db({ANN}, WITH_CONTENT, {ANN_ROOT, D}, 1, 3, 4)

  lemma AnnMakesD()
    requires Tree(DB1)
    ensures Next(DB1, CmdMkdir(1, ["ann"], "d", [ANN_ROOT]), DB7, 2) && Tree(DB7)
  {
    assert Bind(AddFile(DB1, DIR_ROW), 1, "d", 2, 1) == DB7;
    assert ANN_ROOT in DB1.links && LiveDir(DB1, 1, 1);
    RootAnswers(DB1, ANN_ROOT);
    MkdirIsStep(DB1, 1, ["ann"], "d", [ANN_ROOT], 1);
  }

  lemma AnnStoresX()
    requires Tree(DB7)
    ensures Next(DB7, CmdPuts(1, ["ann"], "x", "h", [ANN_ROOT, D]), DB8, 1) && Tree(DB8)
  {
    assert PutsNew(DB7, 1, 1, "x", "h") == DB8;
    assert ANN_ROOT in DB7.links && LiveDir(DB7, 1, 1);
    RootOfTwo(ANN_ROOT, D);
    assert [ANN_ROOT, D][0] == ANN_ROOT && [ANN_ROOT, D][1] == D;
    PutsNewIsStep(DB7, 1, ["ann"], "x", "h", [ANN_ROOT, D], 1);
  }

  /** A third and fourth row do not matter once the path is confirmed. */
  lemma TwoRowsAndMore(a: Link, b: Link, more: seq<Link>)
    requires a.parent == 0 && b.parent == a.file && a.file > 0 && b.file > 0
    ensures Cd([a, b] + more, [a.name, b.name]) == b.file
  {
    var rows, path := [a, b] + more, [a.name, b.name];
    assert Scan(rows, path, 2, b.file, 2) == (b.file, 2);
    assert Scan(rows, path, 1, a.file, 1) == (b.file, 2);
  }

  lemma AnnSharesY()
    requires Tree(DB8)
    ensures Next(DB8, CmdPuts(1, ["ann", "d"], "y", "h", [ANN_ROOT, D, X]), DB9, 1) && Tree(DB9)
  {
    hide Tree, Next, Scan, Cd;
    var rows := [ANN_ROOT, D, X];
    assert rows == [ANN_ROOT, D] + [X];
    TwoRowsAndMore(ANN_ROOT, D, [X]);
    assert rows[0] == ANN_ROOT && rows[1] == D && rows[2] == X;
    assert D in DB8.links && LiveDir(DB8, 1, 2);
    assert 3 in Stored(DB8, "h");
    assert Bind(DB8, 1, "y", 3, 2) == DB9;
    ShareIsStep(DB8, 1, ["ann", "d"], "y", "h", rows, 2, 3);
  }

  lemma AnnRemovesX()
    ensures Next(DB9, CmdRemove(1, ["ann", "d"], "x", [ANN_ROOT, D, X, Y]), DB10, 0)
  {
    hide Tree, Scan, Cd;
    var rows := [ANN_ROOT, D, X, Y];
    assert rows == [ANN_ROOT, D] + [X, Y];
    TwoRowsAndMore(ANN_ROOT, D, [X, Y]);
    assert rows[0] == ANN_ROOT && rows[1] == D && rows[2] == X && rows[3] == Y;
    assert Answer(DB9, 1, rows);
    LikeLiteral("x", "x");
    assert Y in DB9.links && LinkedIn(DB9, 1, 2, 3);
    assert X in Candidates(DB9, 1, 2, "x");
    assert Unlink(DB9.links, 1, 3) == DB10.links;
    assert RemoveFile(DB9, 1, 3) == (DB10, 0);
  }

  /**
   * Reachable from the empty tables: ann stores content as x in her root and as y in d. In d there is
   * no x, yet "rm d/x" succeeds and removes y there, and x in the root as well.
   */
  lemma NamesakeRun()
    ensures Next(EMPTY_DB, CmdRegister("ann", "x"), DB1, 1)
    ensures Tree(DB1) && Next(DB1, CmdMkdir(1, ["ann"], "d", [ANN_ROOT]), DB7, 2)
    ensures Tree(DB7) && Next(DB7, CmdPuts(1, ["ann"], "x", "h", [ANN_ROOT, D]), DB8, 1)
    ensures Tree(DB8) && Next(DB8, CmdPuts(1, ["ann", "d"], "y", "h", [ANN_ROOT, D, X]), DB9, 1)
    ensures Tree(DB9) && HasChild(DB9.links, 1, 2, "y") && HasChild(DB9.links, 1, 1, "x") && !HasChild(DB9.links, 1, 2, "x")
    ensures Next(DB9, CmdRemove(1, ["ann", "d"], "x", [ANN_ROOT, D, X, Y]), DB10, 0)
    ensures !HasChild(DB10.links, 1, 2, "y") && !HasChild(DB10.links, 1, 1, "x")
  {
    hide Tree, Next, HasChild;
    AnnRegisters();
    AnnMakesD();
    AnnStoresX();
    AnnSharesY();
    AnnRemovesX();
    EntriesOfX();
  }

  lemma EntriesOfX()
    ensures HasChild(DB9.links, 1, 2, "y") && HasChild(DB9.links, 1, 1, "x") && !HasChild(DB9.links, 1, 2, "x")
    ensures !HasChild(DB10.links, 1, 2, "y") && !HasChild(DB10.links, 1, 1, "x")
  {
    assert Y in DB9.links && IsChild(Y, 1, 2, "y") && X in DB9.links && IsChild(X, 1, 1, "x");
  }
}
