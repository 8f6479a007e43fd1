/**
 * The working directory of a logged-in client: change_dir is its only update. This module joins the
 * path algebra with the namespace tables.
 */
module Sessions {
  import opened Prelude
  import opened Tables
  import opened PathScan
  import opened TableEffects
  import opened TableRuns
  import opened Paths
  import opened PathBuffers
  import opened ConnectionPool
  import opened Database

  /** The working path after one cd, given what the database answered. */
  function AfterCd(workpath: string, argument: string, rows: seq<Link>): (r: string)
    requires workpath != ""
    ensures r != ""
  {
    var userPath := ResolvePath(workpath, argument);
    if Cd(rows, Components(userPath)) > 0 then userPath else workpath
  }

  class Token {
    var userId: nat
    var workpath: string

    constructor (userId: nat, userName: string)
      ensures this.userId == userId && workpath == "/" + userName
    {
      this.userId := userId;
      workpath := "/" + userName;
    }

    /** change_dir: the working path is overwritten only if query_cd accepts the resolved path. */
    method ChangeDir(argument: string, store: Store, pool: Pool, rows: seq<Link>) returns (ret: int)
      requires workpath != "" && Answer(store.Tab(), userId, rows) && pool.Ready()
      modifies this`workpath, pool`available, pool.connects
      ensures pool.Value() == old(pool.Value())
      ensures workpath == if ret > 0 then ResolvePath(old(workpath), argument) else old(workpath)
      ensures workpath == AfterCd(old(workpath), argument, rows)
      ensures ret == Cd(rows, Components(ResolvePath(old(workpath), argument)))
    {
      var userPath := GetUserPath(argument, workpath);
      ret := store.QueryCd(pool, userPath, userId, rows);
      if ret > 0 {
        workpath := userPath;
      }
    }
  }

  /** The working path after a series of cds, given what the database answered to each. */
  function Session(workpath: string, arguments: seq<string>, answers: seq<seq<Link>>): (r: string)
    requires workpath != "" && |arguments| == |answers|
    ensures r != ""
    decreases |arguments|
  {
    if arguments == [] then workpath
    else Session(AfterCd(workpath, arguments[0], answers[0]), arguments[1..], answers[1..])
  }

  /** A working path inside the user's own root. */
  ghost predicate Inside(workpath: string, u: User) {
    workpath != "" && Canonical(workpath) && Components(workpath)[0] == u.name
  }

  lemma LoginInside(u: User)
    requires IsName(u.name)
    ensures Inside("/" + u.name, u)
  {
    assert [u.name][..0] == [];
    assert "/" + u.name == Canon([u.name]);
    ComponentsOfCanon([u.name]);
  }

  lemma InsideIsPath(workpath: string, u: User)
    requires Inside(workpath, u)
    ensures workpath != ""
  {
  }

  // ---------------------------------------------------------------------------
  // Staying canonical and inside
  // ---------------------------------------------------------------------------

  /** Whatever the tables and the answers, the working path stays canonical. */
  lemma {:induction false} SessionCanonical(workpath: string, arguments: seq<string>, answers: seq<seq<Link>>)
    requires workpath != "" && Canonical(workpath) && |arguments| == |answers|
    ensures Canonical(Session(workpath, arguments, answers))
    decreases |arguments|
  {
    if arguments != [] {
      ResolveKeepsCanonical(workpath, arguments[0]);
      SessionCanonical(AfterCd(workpath, arguments[0], answers[0]), arguments[1..], answers[1..]);
    }
  }

  /** What a canonical path can begin with; the empty name is that of "/" itself. */
  predicate Leading(name: string) {
    name == "" || IsName(name)
  }

  /** Every row that the pass can begin with and a canonical path can name bears the user's name. */
  predicate BeginsAtRoot(rows: seq<Link>, name: string) {
    forall i :: 0 <= i < |rows| && rows[i].parent == rows[0].parent && Leading(rows[i].name) ==> rows[i].name == name
  }

  lemma CanonicalLeads(path: string)
    requires path != "" && Canonical(path)
    ensures Leading(Components(path)[0])
  {
    hide Components, Canon, IsName;
    var stack :| AllNames(stack) && path == Canon(stack);
    ComponentsOfCanon(stack);
  }

  lemma CdStaysInside(workpath: string, argument: string, u: User, rows: seq<Link>)
    requires Inside(workpath, u) && BeginsAtRoot(rows, u.name)
    ensures Inside(AfterCd(workpath, argument, rows), u)
  {
    hide ResolvePath, Components, Canonical, Leading;
    var userPath := ResolvePath(workpath, argument);
    ResolveKeepsCanonical(workpath, argument);
    CanonicalLeads(userPath);
    if Cd(rows, Components(userPath)) > 0 {
      ScanBegins(rows, Components(userPath), 0, rows[0].parent);
    }
  }

  /** An absolute argument that climbs above the root names any single component. */
  function Climb(name: string): string {
    "/../" + name
  }

  lemma ClimbResolves(workpath: string, name: string)
    requires workpath != "" && Canonical(workpath) && Leading(name)
    ensures ResolvePath(workpath, Climb(name)) == "/" + name
    ensures Components("/" + name) == [name] && Canonical("/" + name)
  {
    hide Canonical;
    var root := Components(workpath)[0];
    CanonicalLeads(workpath);
    var path := Joined(workpath, Climb(name));
    assert path == "/" + root + ("/../" + name);
    assert path[1..] == root + "/" + (".." + "/" + name);
    ClimbSplits(root, name);
    ClimbFolds(root, name);
    assert ("/" + name)[1..] == name;
    SplitPiece(name);
    SimplifyCanonical(path);
  }

  lemma ClimbSplits(root: string, name: string)
    requires Leading(root) && Leading(name)
    ensures Split(root + "/" + (".." + "/" + name)) == [root, "..", name]
  {
    hide Split;
    SplitJoin(root, ".." + "/" + name);
    SplitJoin("..", name);
    SplitPiece(root);
    SplitPiece("..");
    SplitPiece(name);
    assert [root] + ([".."] + [name]) == [root, "..", name];
  }

  lemma ClimbFolds(root: string, name: string)
    requires Leading(root) && Leading(name)
    ensures Canon(Fold([], [root, "..", name])) == "/" + name
  {
    FoldThree(root, "..", name);
    assert name != "" ==> [name][..0] == [] && [] + [name] == [name];
    assert [] + [root] == [root] && [root][..0] == [];
  }

  lemma FoldThree(a: string, b: string, c: string)
    ensures Fold([], [a, b, c]) == Enter(Enter(Enter([], a), b), c)
  {
    hide Enter, Fold;
    FoldSnoc([], [a] + [b], c);
    FoldSnoc([], [a], b);
    FoldSnoc([], [], a);
    assert [a] + [b] + [c] == [a, b, c] && [] + [a] == [a];
    FoldNothing();
  }

  lemma FoldNothing()
    ensures Fold([], []) == []
  {
  }

  lemma ClimbEscapes(workpath: string, u: User, rows: seq<Link>, i: nat)
    requires Inside(workpath, u) && forall k :: 0 <= k < |rows| ==> rows[k].file > 0
    requires i < |rows| && rows[i].parent == rows[0].parent && Leading(rows[i].name) && rows[i].name != u.name
    ensures AfterCd(workpath, Climb(rows[i].name), rows) == "/" + rows[i].name
    ensures !Inside("/" + rows[i].name, u)
  {
    hide ResolvePath, Components, Canonical, Leading;
    ClimbResolves(workpath, rows[i].name);
    assert Begins(rows, i, rows[0].parent, rows[i].name);
    CdOneIff(rows, rows[i].name);
  }

  /**
   * One cd, over any tables: all arguments keep the working path inside the user's root exactly when
   * every row the pass can begin with bears the user's name.
   */
  lemma CdStaysInsideIff(workpath: string, u: User, rows: seq<Link>)
    requires Inside(workpath, u) && forall k :: 0 <= k < |rows| ==> rows[k].file > 0
    ensures (forall argument :: Inside(AfterCd(workpath, argument, rows), u)) <==> BeginsAtRoot(rows, u.name)
  {
    hide AfterCd, Inside, Leading;
    InsideIsPath(workpath, u);
    if BeginsAtRoot(rows, u.name) {
      forall argument ensures Inside(AfterCd(workpath, argument, rows), u) {
        CdStaysInside(workpath, argument, u, rows);
      }
    } else {
      var i :| 0 <= i < |rows| && rows[i].parent == rows[0].parent && Leading(rows[i].name) && rows[i].name != u.name;
      ClimbEscapes(workpath, u, rows, i);
    }
  }

  lemma {:induction false} SessionStaysInside(workpath: string, arguments: seq<string>, answers: seq<seq<Link>>, u: User)
    requires Inside(workpath, u) && |arguments| == |answers|
    requires forall i :: 0 <= i < |answers| ==> BeginsAtRoot(answers[i], u.name)
    ensures Inside(Session(workpath, arguments, answers), u)
    decreases |arguments|
  {
    hide Inside, BeginsAtRoot, AfterCd;
    InsideIsPath(workpath, u);
    if arguments != [] {
      CdStaysInside(workpath, arguments[0], u, answers[0]);
      SessionStaysInside(AfterCd(workpath, arguments[0], answers[0]), arguments[1..], answers[1..], u);
    }
  }

  /** A session of cds without an argument goes nowhere. */
  lemma {:induction false} SessionStays(workpath: string, answers: seq<seq<Link>>)
    requires workpath != ""
    ensures Session(workpath, seq(|answers|, _ => ""), answers) == workpath
    decreases |answers|
  {
    if answers != [] {
      SessionStays(workpath, answers[1..]);
      assert seq(|answers|, _ => "")[1..] == seq(|answers[1..]|, _ => "");
    }
  }

  lemma {:induction false} SessionEscapes(workpath: string, answers: seq<seq<Link>>, u: User, i: nat)
      returns (arguments: seq<string>)
    requires Inside(workpath, u) && i < |answers|
    requires forall k :: 0 <= k < |answers[i]| ==> answers[i][k].file > 0
    requires !BeginsAtRoot(answers[i], u.name)
    ensures |arguments| == |answers| && !Inside(Session(workpath, arguments, answers), u)
    decreases i
  {
    hide Inside, BeginsAtRoot, AfterCd;
    InsideIsPath(workpath, u);
    if i == 0 {
      CdStaysInsideIff(workpath, u, answers[0]);
      var argument :| !Inside(AfterCd(workpath, argument, answers[0]), u);
      arguments := [argument] + seq(|answers[1..]|, _ => "");
      SessionStays(AfterCd(workpath, argument, answers[0]), answers[1..]);
      assert arguments[1..] == seq(|answers[1..]|, _ => "");
    } else {
      var rest := SessionEscapes(workpath, answers[1..], u, i - 1);
      arguments := [""] + rest;
      assert arguments[1..] == rest;
      StaysPut(workpath, answers[0]);
    }
  }

  lemma StaysPut(workpath: string, rows: seq<Link>)
    requires workpath != ""
    ensures AfterCd(workpath, "", rows) == workpath
  {
  }

  /**
   * Whole sessions, over tables that change in any way in between: all sequences of arguments keep
   * the working path inside the user's root exactly when every answer begins there.
   */
  lemma SessionStaysInsideIff(workpath: string, answers: seq<seq<Link>>, u: User)
    requires Inside(workpath, u)
    requires forall i, k :: 0 <= i < |answers| && 0 <= k < |answers[i]| ==> answers[i][k].file > 0
    ensures (forall arguments :: |arguments| == |answers| ==> Inside(Session(workpath, arguments, answers), u))
            <==> forall i :: 0 <= i < |answers| ==> BeginsAtRoot(answers[i], u.name)
  {
    hide Inside, BeginsAtRoot, Session;
    InsideIsPath(workpath, u);
    if forall i :: 0 <= i < |answers| ==> BeginsAtRoot(answers[i], u.name) {
      forall arguments: seq<string> | |arguments| == |answers| ensures Inside(Session(workpath, arguments, answers), u) {
        SessionStaysInside(workpath, arguments, answers, u);
      }
    } else {
      var i :| 0 <= i < |answers| && !BeginsAtRoot(answers[i], u.name);
      var arguments := SessionEscapes(workpath, answers, u, i);
    }
  }

  // ---------------------------------------------------------------------------
  // The tables a session meets
  // ---------------------------------------------------------------------------

  /** In a tree whose first row is the root, answers begin at the root. */
  lemma RootFirstBegins(db: Db, u: User, rows: seq<Link>)
    requires Tree(db) && u in db.users && Answer(db, u.id, rows)
    requires rows != [] ==> RootFirst(rows)
    ensures BeginsAtRoot(rows, u.name)
  {
    assert HasChild(db.links, u.id, 0, u.name);
    assert forall i :: 0 <= i < |rows| ==> rows[i] in rows;
  }

  /** Rows in order have the root first. */
  lemma OrderedBegins(db: Db, u: User, rows: seq<Link>)
    requires Tree(db) && Ordered(db, u.id) && u in db.users && Answer(db, u.id, rows)
    ensures BeginsAtRoot(rows, u.name)
  {
    if rows != [] {
      FirstRowIsRoot(db, u.id, rows);
    }
    RootFirstBegins(db, u, rows);
  }

  /**
   * An accepted cd leads to an entry that walking from the first row's parent reaches, whatever the
   * order of the rows; with the root first it is the one the user's path names.
   */
  lemma CdLeadsToEntry(workpath: string, argument: string, db: Db, user: nat, rows: seq<Link>)
    requires workpath != "" && SiblingsUnique(db.links) && Answer(db, user, rows)
    ensures var path := Components(ResolvePath(workpath, argument));
            Cd(rows, path) > 0 ==>
              && AfterCd(workpath, argument, rows) == ResolvePath(workpath, argument)
              && Walk(db.links, user, rows[0].parent, path) == Some(Cd(rows, path))
              && (RootFirst(rows) ==> Resolve(db, user, path) == Some(Cd(rows, path)))
  {
    hide ResolvePath, Components;
    var path := Components(ResolvePath(workpath, argument));
    if Cd(rows, path) > 0 {
      CdIsAWalk(db, user, rows, path);
    }
  }

  lemma UpAndDown(name: string, other: string)
    requires IsName(name) && IsName(other)
    ensures ResolvePath("/" + name, "../" + other) == "/" + other && Components("/" + other) == [other]
  {
    var path := "/" + name + "/" + ("../" + other);
    assert Joined("/" + name, "../" + other) == path;
    assert path[1..] == name + "/" + (".." + "/" + other);
    ClimbSplits(name, other);
    ClimbFolds(name, other);
    assert ("/" + other)[1..] == other;
    SplitPiece(other);
  }

  /** One step up from the user's root names what the pass begins with. */
  lemma UpEscapes(u: User, rows: seq<Link>, other: string)
    requires IsName(u.name) && IsName(other) && other != u.name
    requires forall k :: 0 <= k < |rows| ==> rows[k].file > 0
    requires rows != [] && rows[0].name == other
    ensures Inside("/" + u.name, u)
    ensures AfterCd("/" + u.name, "../" + other, rows) == "/" + other && !Inside("/" + other, u)
  {
    hide ResolvePath, Components, Canonical, IsName;
    LoginInside(u);
    UpAndDown(u.name, other);
    assert Begins(rows, 0, rows[0].parent, other);
    CdOneIff(rows, other);
  }

  /**
   * In the reachable tables in which bob has shared ann's older file, his own root is not what the
   * pass begins with: "cd ../b.txt" takes his working path out of his root, to the file's name.
   */
  lemma SharingRunEscapes(rows: seq<Link>)
    requires Answer(DB4, 2, rows)
    ensures BOB in DB4.users && Inside("/bob", BOB)
    ensures AfterCd("/bob", "../b.txt", rows) == "/b.txt" && !Inside("/b.txt", BOB)
  {
    hide Inside, AfterCd;
    BobsFileIsFirst(rows);
    assert "/" + "bob" == "/bob" && "/" + "b.txt" == "/b.txt" && "../" + "b.txt" == "../b.txt";
    UpEscapes(BOB, rows, "b.txt");
  }

  lemma BobsFileIsFirst(rows: seq<Link>)
    requires Answer(DB4, 2, rows)
    ensures rows != [] && rows[0] == BOB_FILE && forall k :: 0 <= k < |rows| ==> rows[k].file > 0
  {
    LowestComesFirst(DB4, 2, rows, BOB_FILE);
    forall k | 0 <= k < |rows| ensures rows[k].file > 0 {
      assert rows[k] in rows;
    }
  }

  /** Two relative cds that both succeed leave the working path of one joined cd. */
  lemma TwoCdsAreOne(workpath: string, a: string, b: string, rows: seq<Link>)
    requires workpath != "" && a != "" && a[0] != '/' && b != "" && b[0] != '/'
    requires Cd(rows, Components(ResolvePath(workpath, a))) > 0
    ensures AfterCd(AfterCd(workpath, a, rows), b, rows) ==
            if Cd(rows, Components(ResolvePath(workpath, a + "/" + b))) > 0 then AfterCd(workpath, a + "/" + b, rows)
            else AfterCd(workpath, a, rows)
  {
    RelativeCdsCompose(workpath, a, b);
  }

  /** An absolute argument means the same from every working path inside the user's root. */
  lemma AbsoluteIsFromRoot(workpath: string, u: User, b: string)
    requires Inside(workpath, u) && IsName(u.name) && b != "" && b[0] != '/'
    ensures ResolvePath(workpath, "/" + b) == ResolvePath("/" + u.name, b)
  {
    hide Simplify, Components, Canonical, IsName;
    assert Joined(workpath, "/" + b) == "/" + u.name + ("/" + b);
    assert Joined("/" + u.name, b) == "/" + u.name + "/" + b;
    assert "/" + u.name + ("/" + b) == "/" + u.name + "/" + b;
  }
}
