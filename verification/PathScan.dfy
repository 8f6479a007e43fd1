/**
 * query_cd resolves a path in one pass over the user's rows sorted by file id, instead of walking
 * the tree level by level. This module proves exactly when the two agree.
 */
module PathScan {
  import opened Prelude
  import opened Tables

  /**
   * What "select * from user_file where user_id = .. order by file_id" may return: the user's rows
   * by increasing file id, rows of equal file id in any order.
   */
  ghost predicate Answer(db: Db, user: nat, rows: seq<Link>) {
    && (forall l :: l in rows <==> l in db.links && l.user == user)
    && (forall i, j :: 0 <= i < j < |rows| ==> rows[i] != rows[j] && rows[i].file <= rows[j].file)
  }

  /** The pass from row i on, having confirmed k components and standing at `parent`. */
  function Scan(rows: seq<Link>, path: seq<string>, i: nat, parent: nat, k: nat): (nat, nat)
    requires i <= |rows| && k <= |path|
    decreases |rows| - i
  {
    if i == |rows| || k == |path| then (parent, k)
    else if rows[i].name == path[k] && parent == rows[i].parent then
      Scan(rows, path, i + 1, rows[i].file, k + 1)
    else Scan(rows, path, i + 1, parent, k)
  }

  /** query_cd's result: -1 without rows, 0 for a path that is not confirmed, else a file id. */
  function Cd(rows: seq<Link>, path: seq<string>): int {
    if rows == [] then -1
    else
      var (id, confirmed) := Scan(rows, path, 0, rows[0].parent, 0);
      if confirmed == |path| then id else 0
  }

  /** The walk's answer in query_cd's encoding. */
  ghost function Walked(db: Db, user: nat, path: seq<string>): int {
    match Resolve(db, user, path) case None => 0 case Some(f) => f
  }

  // ---------------------------------------------------------------------------
  // Ordered rows: the pass is the walk
  // ---------------------------------------------------------------------------

  /** No row already passed is the child the scan is looking for. */
  ghost predicate NothingMissed(rows: seq<Link>, user: nat, path: seq<string>, i: nat, parent: nat, k: nat)
    requires i <= |rows| && k <= |path|
  {
    k < |path| ==> forall j :: 0 <= j < i ==> !IsChild(rows[j], user, parent, path[k])
  }

  lemma {:induction false} ScanFollowsWalk(db: Db, user: nat, rows: seq<Link>, path: seq<string>,
                                           i: nat, parent: nat, k: nat)
    requires SiblingsUnique(db.links) && Ordered(db, user) && Answer(db, user, rows)
    requires i <= |rows| && k <= |path|
    requires NothingMissed(rows, user, path, i, parent, k)
    ensures var (id, confirmed) := Scan(rows, path, i, parent, k);
            Walk(db.links, user, parent, path[k..]) == if confirmed == |path| then Some(id) else None
    decreases |rows| - i
  {
    if k == |path| {
    } else if i == |rows| {
      forall l | l in db.links ensures !IsChild(l, user, parent, path[k]) {
        assert l.user == user ==> l in rows;
      }
    } else if rows[i].name == path[k] && parent == rows[i].parent {
      assert rows[i] in rows;
      WalkStep(db.links, rows[i], path[k..]);
      assert path[k..][1..] == path[k + 1..];
      forall j | 0 <= j < i + 1 ensures rows[j].parent < rows[i].file {
        assert rows[j] in rows;
      }
      ScanFollowsWalk(db, user, rows, path, i + 1, rows[i].file, k + 1);
    } else {
      ScanFollowsWalk(db, user, rows, path, i + 1, parent, k);
    }
  }

  /** The user's root has the smallest file id, so the pass begins with it. */
  predicate RootFirst(rows: seq<Link>) {
    rows != [] && rows[0].parent == 0
  }

  /** With every row above its parent, the first row is the root. */
  lemma FirstRowIsRoot(db: Db, user: nat, rows: seq<Link>)
    requires Tree(db) && Ordered(db, user) && Answer(db, user, rows) && rows != []
    ensures RootFirst(rows)
  {
    var first := rows[0];
    assert first in rows;
    assert forall l :: l in db.links && l.user == user ==> l in rows && first.file <= l.file;
    assert first.parent != 0 ==> LiveDir(db, user, first.parent);
  }

  lemma RegisteredHasRows(db: Db, user: nat, rows: seq<Link>)
    requires Tree(db) && Registered(db, user) && Answer(db, user, rows)
    ensures rows != []
  {
    var u :| u in db.users && u.id == user;
    assert HasChild(db.links, user, 0, u.name);
    assert Child(db.links, user, 0, u.name) in rows;
  }

  lemma CdIsWalk(db: Db, user: nat, rows: seq<Link>, path: seq<string>)
    requires Tree(db) && Ordered(db, user) && Answer(db, user, rows) && Registered(db, user)
    ensures Cd(rows, path) == Walked(db, user, path)
  {
    RegisteredHasRows(db, user, rows);
    FirstRowIsRoot(db, user, rows);
    ScanFollowsWalk(db, user, rows, path, 0, 0, 0);
    assert path[0..] == path;
  }

  // ---------------------------------------------------------------------------
  // Any order: what a successful pass still means
  // ---------------------------------------------------------------------------

  /** Row j is where a pass from `parent` with k components confirmed found the last component. */
  ghost predicate EndsAt(db: Db, user: nat, rows: seq<Link>, path: seq<string>, parent: nat, k: nat, j: nat, id: nat)
    requires k < |path|
  {
    && j < |rows| && rows[j] in db.links && rows[j].user == user
    && rows[j].file == id && rows[j].name == path[|path| - 1]
    && (rows[j].parent == parent || rows[j].parent <= rows[j].file)
    && (k + 1 == |path| ==> rows[j].parent == parent)
    && Walk(db.links, user, parent, path[k..|path| - 1]) == Some(rows[j].parent)
  }

  /**
   * A completed pass ended at a row which the walk from the same start reaches too, and whose
   * parent is that start or is not above the row in the order.
   */
  lemma {:induction false} ScanEndsAt(db: Db, user: nat, rows: seq<Link>, path: seq<string>,
                                      i: nat, parent: nat, k: nat) returns (j: nat)
    requires SiblingsUnique(db.links) && Answer(db, user, rows)
    requires i <= |rows| && k < |path|
    ensures var (id, confirmed) := Scan(rows, path, i, parent, k);
            confirmed == |path| ==> i <= j && EndsAt(db, user, rows, path, parent, k, j, id)
    decreases |rows| - i
  {
    j := i;
    if i < |rows| && rows[i].name == path[k] && parent == rows[i].parent {
      assert rows[i] in rows;
      if k + 1 < |path| {
        j := ScanEndsAt(db, user, rows, path, i + 1, rows[i].file, k + 1);
        WalkStep(db.links, rows[i], path[k..|path| - 1]);
        assert path[k..|path| - 1][1..] == path[k + 1..|path| - 1];
      }
    } else if i < |rows| {
      j := ScanEndsAt(db, user, rows, path, i + 1, parent, k);
    }
  }

  /** If the root comes first, a row not above its parent cannot be found. */
  lemma DisorderHidesRow(db: Db, user: nat, rows: seq<Link>, v: Link)
    requires Tree(db) && Answer(db, user, rows)
    requires v in db.links && v.user == user && v.file <= v.parent
    requires rows != [] && rows[0].parent == 0
    ensures Resolve(db, user, PathOf(db, v)) == Some(v.file) && Cd(rows, PathOf(db, v)) == 0
    ensures Cd(rows, PathOf(db, v)) != Walked(db, user, PathOf(db, v))
  {
    var path := PathOf(db, v);
    PathOfResolves(db, v);
    assert LiveDir(db, user, v.parent);
    var j := ScanEndsAt(db, user, rows, path, 0, 0, 0);
    assert path[0..|path| - 1] == path[..|path| - 1];
    assert Scan(rows, path, 0, 0, 0).1 == |path| ==> rows[j] == v;
  }

  /** If another row comes first, even the user's root is not found. */
  lemma DisorderHidesRoot(db: Db, u: User, rows: seq<Link>)
    requires Tree(db) && Answer(db, u.id, rows) && u in db.users
    requires rows != [] && rows[0].parent != 0
    ensures Resolve(db, u.id, [u.name]).Some? && Cd(rows, [u.name]) != Walked(db, u.id, [u.name])
  {
    assert HasChild(db.links, u.id, 0, u.name);
    var root := Child(db.links, u.id, 0, u.name);
    WalkStep(db.links, root, [u.name]);
    var j := ScanEndsAt(db, u.id, rows, [u.name], 0, rows[0].parent, 0);
  }

  lemma DisorderShows(db: Db, user: nat, rows: seq<Link>) returns (path: seq<string>)
    requires Tree(db) && Answer(db, user, rows) && Registered(db, user) && !Ordered(db, user)
    ensures path != [] && Cd(rows, path) != Walked(db, user, path)
  {
    RegisteredHasRows(db, user, rows);
    if rows[0].parent == 0 {
      var v :| v in db.links && v.user == user && v.file <= v.parent;
      DisorderHidesRow(db, user, rows, v);
      path := PathOf(db, v);
    } else {
      var u :| u in db.users && u.id == user;
      path := [u.name];
      DisorderHidesRoot(db, u, rows);
    }
  }

  /** The single pass agrees with the walk on all paths exactly when every row is above its parent. */
  lemma CdAgreesIff(db: Db, user: nat, rows: seq<Link>)
    requires Tree(db) && Answer(db, user, rows) && Registered(db, user)
    ensures (forall path :: path != [] ==> Cd(rows, path) == Walked(db, user, path)) <==> Ordered(db, user)
  {
    if Ordered(db, user) {
      forall path | path != [] ensures Cd(rows, path) == Walked(db, user, path) {
        CdIsWalk(db, user, rows, path);
      }
    } else {
      var path := DisorderShows(db, user, rows);
    }
  }

  // ---------------------------------------------------------------------------
  // Positive answers alone
  // ---------------------------------------------------------------------------

  /** A row the pass can begin with, for a path that begins with the name. */
  predicate Begins(rows: seq<Link>, i: nat, parent: nat, name: string) {
    i < |rows| && rows[i].parent == parent && rows[i].name == name
  }

  lemma {:induction false} ScanBegins(rows: seq<Link>, path: seq<string>, i: nat, parent: nat)
    requires i <= |rows| && path != [] && Scan(rows, path, i, parent, 0).1 == |path|
    ensures exists j :: Begins(rows, j, parent, path[0])
    decreases |rows| - i
  {
    if !Begins(rows, i, parent, path[0]) {
      ScanBegins(rows, path, i + 1, parent);
    }
  }

  /** A path of one component is found at the first row the pass can begin with. */
  lemma {:induction false} ScanOne(rows: seq<Link>, name: string, i: nat, parent: nat, j: nat)
    requires i <= j && Begins(rows, j, parent, name)
    requires forall k :: i <= k < j ==> !Begins(rows, k, parent, name)
    ensures Scan(rows, [name], i, parent, 0) == (rows[j].file, 1)
    decreases j - i
  {
    if i < j {
      assert !Begins(rows, i, parent, name);
      ScanOne(rows, name, i + 1, parent, j);
    }
  }

  lemma {:induction false} FirstBegin(rows: seq<Link>, name: string, parent: nat, j: nat) returns (k: nat)
    requires Begins(rows, j, parent, name)
    ensures Begins(rows, k, parent, name) && forall m :: 0 <= m < k ==> !Begins(rows, m, parent, name)
    decreases j
  {
    if exists m :: 0 <= m < j && Begins(rows, m, parent, name) {
      var m :| 0 <= m < j && Begins(rows, m, parent, name);
      k := FirstBegin(rows, name, parent, m);
    } else {
      k := j;
    }
  }

  /** query_cd accepts a path of one component exactly when some row has the first row's parent and that name. */
  lemma CdOneIff(rows: seq<Link>, name: string)
    requires forall i :: 0 <= i < |rows| ==> rows[i].file > 0
    ensures Cd(rows, [name]) > 0 <==> rows != [] && exists j :: Begins(rows, j, rows[0].parent, name)
    ensures rows != [] && rows[0].name == name ==> Cd(rows, [name]) == rows[0].file
  {
    if rows != [] {
      var parent := rows[0].parent;
      assert Cd(rows, [name]) > 0 <==> Scan(rows, [name], 0, parent, 0).1 == 1 && Scan(rows, [name], 0, parent, 0).0 > 0;
      if exists j :: Begins(rows, j, parent, name) {
        var j :| Begins(rows, j, parent, name);
        var k := FirstBegin(rows, name, parent, j);
        ScanOne(rows, name, 0, parent, k);
        assert rows[0].name == name ==> Begins(rows, 0, parent, name) && k == 0;
      } else if Scan(rows, [name], 0, parent, 0).1 == 1 {
        ScanBegins(rows, [name], 0, parent);
      }
    }
  }

  /** A positive answer is what a walk from the first row's parent reaches, whatever the order. */
  lemma CdIsAWalk(db: Db, user: nat, rows: seq<Link>, path: seq<string>)
    requires SiblingsUnique(db.links) && Answer(db, user, rows) && path != [] && Cd(rows, path) > 0
    ensures Walk(db.links, user, rows[0].parent, path) == Some(Cd(rows, path))
  {
    var j := ScanEndsAt(db, user, rows, path, 0, rows[0].parent, 0);
    var init, last := path[..|path| - 1], path[|path| - 1];
    assert path == init + [last] && path[0..|path| - 1] == init;
    WalkAppend(db.links, user, rows[0].parent, init, [last]);
    WalkStep(db.links, rows[j], [last]);
  }

  /** Every positive answer is right exactly when the first row is the root: any other order is harmless to it. */
  lemma CdPositiveIff(db: Db, u: User, rows: seq<Link>)
    requires Tree(db) && u in db.users && Answer(db, u.id, rows)
    ensures (forall path :: path != [] && Cd(rows, path) > 0 ==> Resolve(db, u.id, path) == Some(Cd(rows, path)))
            <==> RootFirst(rows)
  {
    assert Registered(db, u.id);
    RegisteredHasRows(db, u.id, rows);
    if rows[0].parent == 0 {
      forall path | path != [] && Cd(rows, path) > 0 ensures Resolve(db, u.id, path) == Some(Cd(rows, path)) {
        CdIsAWalk(db, u.id, rows, path);
      }
    } else {
      var path := [rows[0].name];
      assert rows[0] in rows;
      forall i | 0 <= i < |rows| ensures rows[i].file > 0 {
        assert rows[i] in rows;
      }
      CdOneIff(rows, rows[0].name);
      assert Begins(rows, 0, rows[0].parent, rows[0].name);
      NoRootAt(db, u.id, rows[0]);
    }
  }

  lemma NoRootAt(db: Db, user: nat, l: Link)
    requires Tree(db) && l in db.links && l.user == user && l.parent != 0
    ensures Resolve(db, user, [l.name]) != Some(l.file)
  {
    assert [l.name][..0] == [];
    if Resolve(db, user, [l.name]).Some? {
      var root := WalkEnds(db.links, user, 0, [l.name]);
    }
  }

  // ---------------------------------------------------------------------------
  // The database always has an answer
  // ---------------------------------------------------------------------------

  ghost predicate Sorted(links: set<Link>, rows: seq<Link>) {
    && (forall l :: l in rows <==> l in links)
    && (forall i, j :: 0 <= i < j < |rows| ==> rows[i] != rows[j] && rows[i].file <= rows[j].file)
  }

  lemma {:induction false} SortedExists(links: set<Link>) returns (rows: seq<Link>)
    ensures Sorted(links, rows)
    decreases |links|
  {
    if links == {} {
      rows := [];
    } else {
      var l :| l in links;
      var rest := SortedExists(links - {l});
      var i := Place(rest, l.file);
      rows := rest[..i] + [l] + rest[i..];
      assert forall m :: m in rows <==> m == l || m in rest by {
        assert rest == rest[..i] + rest[i..];
      }
    }
  }

  /** How many rows come before a file id. */
  lemma {:induction false} Place(rows: seq<Link>, file: nat) returns (i: nat)
    requires forall i, j :: 0 <= i < j < |rows| ==> rows[i].file <= rows[j].file
    ensures i <= |rows| && (forall j :: 0 <= j < i ==> rows[j].file <= file) && (forall j :: i <= j < |rows| ==> file <= rows[j].file)
  {
    if rows == [] || rows[|rows| - 1].file <= file {
      i := |rows|;
    } else {
      i := Place(rows[..|rows| - 1], file);
    }
  }

  lemma AnswerExists(db: Db, user: nat) returns (rows: seq<Link>)
    ensures Answer(db, user, rows)
  {
    rows := SortedExists(set l | l in db.links && l.user == user);
  }
}
