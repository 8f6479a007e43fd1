/**
 * The three tables behind a user's namespace and what a path means in them.
 * A user_file row is a Link: it binds a name in a parent directory to a file id.
 */
module Tables {
  import opened Prelude

  datatype Kind = Dir | File

  datatype User = User(id: nat, name: string, password: string)

  /** A row of the file table; directories have no hash (NULL). */
  datatype FileRow = FileRow(kind: Kind, hash: Option<string>, complete: bool)

  /** A row of user_file. Parent 0 stands for NULL: the row is a user's root. */
  datatype Link = Link(id: nat, name: string, user: nat, file: nat, parent: nat)

  /** The tables, and the last id each auto-increment column has given out. */
  datatype Db = Db(users: set<User>, files: map<nat, FileRow>, links: set<Link>,
                   lastUser: nat, lastFile: nat, lastLink: nat)

  const EMPTY_DB := Db({}, map[], {}, 0, 0, 0)

  predicate IsDir(db: Db, file: nat) {
    file in db.files && db.files[file].kind.Dir?
  }

  // ---------------------------------------------------------------------------
  // The meaning of a path: a level-by-level walk
  // ---------------------------------------------------------------------------

  predicate IsChild(l: Link, user: nat, parent: nat, name: string) {
    l.user == user && l.parent == parent && l.name == name
  }

  ghost predicate HasChild(links: set<Link>, user: nat, parent: nat, name: string) {
    exists l :: l in links && IsChild(l, user, parent, name)
  }

  ghost function Child(links: set<Link>, user: nat, parent: nat, name: string): (l: Link)
    requires HasChild(links, user, parent, name)
    ensures l in links && IsChild(l, user, parent, name)
  {
    var l :| l in links && IsChild(l, user, parent, name);
    l
  }

  /** The file id reached from `from` by descending one component at a time. */
  ghost function Walk(links: set<Link>, user: nat, from: nat, path: seq<string>): Option<nat>
    decreases |path|
  {
    if path == [] then Some(from)
    else if HasChild(links, user, from, path[0]) then
      Walk(links, user, Child(links, user, from, path[0]).file, path[1..])
    else None
  }

  /** What a user's absolute path names: the walk starts above the root row. */
  ghost function Resolve(db: Db, user: nat, path: seq<string>): Option<nat> {
    Walk(db.links, user, 0, path)
  }

  // ---------------------------------------------------------------------------
  // Invariants
  // ---------------------------------------------------------------------------

  ghost predicate Registered(db: Db, user: nat) {
    exists u :: u in db.users && u.id == user
  }

  /** Ids are below the counters, rows refer to rows that exist. */
  ghost predicate Referential(db: Db) {
    && (forall f :: f in db.files ==> 0 < f <= db.lastFile)
    && (forall u :: u in db.users ==> 0 < u.id <= db.lastUser)
    && (forall u, v :: u in db.users && v in db.users && (u.id == v.id || u.name == v.name) ==> u == v)
    && (forall l :: l in db.links ==> l.id <= db.lastLink && l.file in db.files)
    && (forall l :: l in db.links ==> Registered(db, l.user))
    && (forall l, m :: l in db.links && m in db.links && l.id == m.id ==> l == m)
  }

  predicate SameHash(f: FileRow, g: FileRow) {
    f.hash.Some? && f.hash == g.hash
  }

  /** Every file row has a hash no other row has; directories have none. */
  ghost predicate HashesUnique(db: Db) {
    && (forall f :: f in db.files ==> (db.files[f].kind.Dir? <==> db.files[f].hash.None?))
    && (forall f, g :: f in db.files && g in db.files && SameHash(db.files[f], db.files[g]) ==> f == g)
  }

  /** Each user has exactly one parentless row: a directory bearing the user's name. */
  ghost predicate Rooted(db: Db) {
    && (forall u :: u in db.users ==> HasChild(db.links, u.id, 0, u.name))
    && (forall l, m :: l in db.links && m in db.links && l.parent == 0 && m.parent == 0 && l.user == m.user ==> l == m)
    && (forall l :: l in db.links && l.parent == 0 ==> IsDir(db, l.file))
  }

  ghost predicate SiblingsUnique(links: set<Link>) {
    forall l, m :: l in links && m in links && l.user == m.user && l.parent == m.parent && l.name == m.name ==> l == m
  }

  /** A directory has one row, and its id exceeds its parent's. */
  ghost predicate DirsOnce(db: Db) {
    && (forall l, m :: l in db.links && m in db.links && IsDir(db, l.file) && l.file == m.file ==> l == m)
    && (forall l :: l in db.links && IsDir(db, l.file) ==> l.parent < l.file)
  }

  ghost predicate LiveDir(db: Db, user: nat, dir: nat) {
    IsDir(db, dir) && exists d :: d in db.links && d.user == user && d.file == dir
  }

  ghost predicate ParentsLive(db: Db) {
    forall l :: l in db.links && l.parent != 0 ==> LiveDir(db, l.user, l.parent)
  }

  /** Each user's rows form a tree rooted at the user's own directory. */
  ghost predicate Tree(db: Db) {
    && Referential(db) && HashesUnique(db)
    && Rooted(db) && SiblingsUnique(db.links) && DirsOnce(db) && ParentsLive(db)
  }

  /** Every row of the user has a larger file id than its parent: what the single pass needs. */
  ghost predicate Ordered(db: Db, user: nat) {
    forall l :: l in db.links && l.user == user ==> l.parent < l.file
  }

  // ---------------------------------------------------------------------------
  // Facts about walking
  // ---------------------------------------------------------------------------

  /** With unique siblings a step of the walk goes to the one matching row. */
  lemma WalkStep(links: set<Link>, l: Link, path: seq<string>)
    requires SiblingsUnique(links) && l in links
    requires path != [] && path[0] == l.name
    ensures Walk(links, l.user, l.parent, path) == Walk(links, l.user, l.file, path[1..])
  {
    assert IsChild(l, l.user, l.parent, path[0]);
  }

  lemma {:induction false} WalkAppend(links: set<Link>, user: nat, from: nat, a: seq<string>, b: seq<string>)
    ensures Walk(links, user, from, a + b) ==
            match Walk(links, user, from, a) case None => None case Some(f) => Walk(links, user, f, b)
    decreases |a|
  {
    if a == [] {
      assert a + b == b;
    } else {
      assert (a + b)[1..] == a[1..] + b && (a + b)[0] == a[0];
      if HasChild(links, user, from, a[0]) {
        WalkAppend(links, user, Child(links, user, from, a[0]).file, a[1..], b);
      }
    }
  }

  /** A walk of at least one step ends at a row, whose parent the walk without its last step reaches. */
  lemma WalkEnds(links: set<Link>, user: nat, from: nat, path: seq<string>) returns (l: Link)
    requires path != [] && Walk(links, user, from, path).Some?
    ensures l in links && l.user == user && l.name == path[|path| - 1]
    ensures Walk(links, user, from, path) == Some(l.file)
    ensures Walk(links, user, from, path[..|path| - 1]) == Some(l.parent)
  {
    var init, last := path[..|path| - 1], path[|path| - 1];
    assert path == init + [last];
    WalkAppend(links, user, from, init, [last]);
    var p := Walk(links, user, from, init).value;
    assert HasChild(links, user, p, last);
    l := Child(links, user, p, last);
  }

  ghost function ParentRow(db: Db, l: Link): (d: Link)
    requires Tree(db) && l in db.links && l.parent != 0
    ensures d in db.links && d.user == l.user && d.file == l.parent && d.parent < l.parent
  {
    assert LiveDir(db, l.user, l.parent);
    var d :| d in db.links && d.user == l.user && d.file == l.parent;
    d
  }

  /** Following parents from a row reaches the root: the path this spells. */
  ghost function PathOf(db: Db, l: Link): (path: seq<string>)
    requires Tree(db) && l in db.links
    ensures path != [] && path[|path| - 1] == l.name
    decreases l.parent
  {
    if l.parent == 0 then [l.name]
    else PathOf(db, ParentRow(db, l)) + [l.name]
  }

  /** In a tree every row is reachable: walking the path of a row leads to its file. */
  lemma {:induction false} PathOfResolves(db: Db, l: Link)
    requires Tree(db) && l in db.links
    ensures Resolve(db, l.user, PathOf(db, l)) == Some(l.file)
    ensures Walk(db.links, l.user, 0, PathOf(db, l)[..|PathOf(db, l)| - 1]) == Some(l.parent)
    decreases l.parent
  {
    if l.parent == 0 {
      WalkStep(db.links, l, [l.name]);
    } else {
      var d := ParentRow(db, l);
      PathOfResolves(db, d);
      WalkAppend(db.links, l.user, 0, PathOf(db, d), [l.name]);
      WalkStep(db.links, l, [l.name]);
    }
  }

  /** The last step of two walks to the same directory is over the same row. */
  lemma DirStepUnique(db: Db, user: nat, p: seq<string>, q: seq<string>, dir: nat) returns (l: Link)
    requires Tree(db) && IsDir(db, dir) && p != [] && q != []
    requires Resolve(db, user, p) == Some(dir) && Resolve(db, user, q) == Some(dir)
    ensures l.name == p[|p| - 1] == q[|q| - 1]
    ensures Resolve(db, user, p[..|p| - 1]) == Some(l.parent) == Resolve(db, user, q[..|q| - 1])
    ensures l.parent == 0 || IsDir(db, l.parent)
  {
    l := WalkEnds(db.links, user, 0, p);
    var m := WalkEnds(db.links, user, 0, q);
    assert l == m;
    assert l.parent != 0 ==> LiveDir(db, user, l.parent);
  }

  /** A directory is named by exactly one path. */
  lemma {:induction false} DirPathUnique(db: Db, user: nat, p: seq<string>, q: seq<string>, dir: nat)
    requires Tree(db) && (dir == 0 || IsDir(db, dir))
    requires Resolve(db, user, p) == Some(dir) && Resolve(db, user, q) == Some(dir)
    ensures p == q
    decreases |p|
  {
    if dir == 0 {
      OnlyEmptyPathAtTop(db, user, p);
      OnlyEmptyPathAtTop(db, user, q);
    } else {
      var l := DirStepUnique(db, user, p, q, dir);
      DirPathUnique(db, user, p[..|p| - 1], q[..|q| - 1], l.parent);
      assert p == p[..|p| - 1] + [l.name] && q == q[..|q| - 1] + [l.name];
    }
  }

  lemma OnlyEmptyPathAtTop(db: Db, user: nat, p: seq<string>)
    requires Referential(db) && Resolve(db, user, p) == Some(0)
    ensures p == []
  {
    if p != [] {
      var l := WalkEnds(db.links, user, 0, p);
    }
  }

  /** Every path that resolves starts with the user's own name. */
  lemma ResolvedPathStartsAtRoot(db: Db, u: User, path: seq<string>)
    requires Tree(db) && u in db.users && path != []
    requires Resolve(db, u.id, path).Some?
    ensures path[0] == u.name
  {
    assert HasChild(db.links, u.id, 0, path[0]) && HasChild(db.links, u.id, 0, u.name);
  }
}
