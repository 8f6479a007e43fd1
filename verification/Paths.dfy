/**
 * The path algebra of the server: splitting on '/', the stack of components that
 * normalisation computes, and the working-directory resolver.
 * The imperative forms are in PathBuffers.dfy.
 */
module Paths {

  /** The pieces of `s` between its slashes; n slashes give n + 1 pieces. */
  function Split(s: string): (r: seq<string>)
    ensures |r| > 0
    ensures |r| <= |s| + 1
  {
    if s == [] then [""]
    else if s[0] == '/' then [""] + Split(s[1..])
    else var r := Split(s[1..]); [[s[0]] + r[0]] + r[1..]
  }

  /** The components of a path: what follows the first character, split on '/'. */
  function Components(path: string): (r: seq<string>)
    requires path != ""
    ensures |r| > 0
    ensures |r| <= |path|
  {
    Split(path[1..])
  }

  /** A component that normalisation keeps. */
  predicate IsName(c: string) {
    c != "" && c != "." && c != ".." && '/' !in c
  }

  predicate AllNames(stack: seq<string>) {
    forall i :: 0 <= i < |stack| ==> IsName(stack[i])
  }

  predicate NoSlashes(cs: seq<string>) {
    forall i :: 0 <= i < |cs| ==> '/' !in cs[i]
  }

  /** One component applied to the stack of directories entered so far. */
  function Enter(stack: seq<string>, c: string): (r: seq<string>) {
    if c == "" || c == "." then stack
    else if c == ".." then if stack == [] then [] else stack[..|stack| - 1]
    else stack + [c]
  }

  function Fold(stack: seq<string>, cs: seq<string>): seq<string>
    decreases |cs|
  {
    if cs == [] then stack else Fold(Enter(stack, cs[0]), cs[1..])
  }

  /** "/a/b/": every component followed by a slash. */
  function Render(stack: seq<string>): (r: string)
    ensures |r| > 0 && r[0] == '/' && r[|r| - 1] == '/'
  {
    if stack == [] then "/" else Render(stack[..|stack| - 1]) + stack[|stack| - 1] + "/"
  }

  /** The canonical absolute path of a stack: no trailing slash except for the root. */
  function Canon(stack: seq<string>): (r: string)
    ensures r != "" && r[0] == '/'
  {
    if stack == [] then "/" else Render(stack[..|stack| - 1]) + stack[|stack| - 1]
  }

  function Simplify(path: string): (r: string)
    requires path != ""
    ensures r != "" && r[0] == '/'
  {
    Canon(Fold([], Components(path)))
  }

  /** A path is canonical when it is the rendering of proper names. */
  ghost predicate Canonical(path: string) {
    exists stack :: AllNames(stack) && path == Canon(stack)
  }

  /** Where the text after the last slash begins. */
  function TailStart(s: string): (k: nat)
    ensures k <= |s|
    ensures k > 0 ==> s[k - 1] == '/'
    ensures forall j :: k <= j < |s| ==> s[j] != '/'
  {
    if s == "" then 0
    else if s[|s| - 1] == '/' then |s|
    else TailStart(s[..|s| - 1])
  }

  /** What follows the last slash. */
  function LastComponent(s: string): string {
    s[TailStart(s)..]
  }

  /** The path cut at its last slash that is not its first character. */
  function StripLast(path: string): (r: string)
    ensures path != "" ==> r != ""
  {
    if TailStart(path) > 1 then path[..TailStart(path) - 1] else path
  }

  /** get_user_path: empty keeps the working path, '/' restarts at the user's root, else relative. */
  function ResolvePath(workpath: string, argument: string): (r: string)
    requires workpath != ""
    ensures r != ""
  {
    if argument == "" then workpath else Simplify(Joined(workpath, argument))
  }

  function Joined(workpath: string, argument: string): (r: string)
    requires workpath != "" && argument != ""
    ensures r != ""
  {
    if argument[0] == '/' then "/" + Components(workpath)[0] + argument else workpath + "/" + argument
  }

  // ---------------------------------------------------------------------------
  // Splitting and joining
  // ---------------------------------------------------------------------------

  lemma {:induction false} SplitPiece(s: string)
    requires '/' !in s
    ensures Split(s) == [s]
  {
    if s != [] {
      SplitPiece(s[1..]);
      assert s == [s[0]] + s[1..];
    }
  }

  lemma {:induction false} SplitJoin(a: string, b: string)
    ensures Split(a + "/" + b) == Split(a) + Split(b)
  {
    var s := a + "/" + b;
    if a == [] {
      assert s[1..] == b;
    } else {
      assert s[1..] == a[1..] + "/" + b;
      SplitJoin(a[1..], b);
    }
  }

  lemma {:induction false} SplitNoSlashes(s: string)
    ensures NoSlashes(Split(s))
  {
    if s != [] {
      SplitNoSlashes(s[1..]);
    }
  }

  lemma {:induction false} FoldAppend(stack: seq<string>, a: seq<string>, b: seq<string>)
    ensures Fold(stack, a + b) == Fold(Fold(stack, a), b)
    decreases |a|
  {
    if a == [] {
      assert a + b == b;
    } else {
      assert (a + b)[1..] == a[1..] + b;
      FoldAppend(Enter(stack, a[0]), a[1..], b);
    }
  }

  lemma FoldSnoc(stack: seq<string>, a: seq<string>, c: string)
    ensures Fold(stack, a + [c]) == Enter(Fold(stack, a), c)
  {
    FoldAppend(stack, a, [c]);
  }

  lemma {:induction false} FoldNames(stack: seq<string>, cs: seq<string>)
    requires AllNames(stack) && NoSlashes(cs)
    ensures AllNames(Fold(stack, cs))
    decreases |cs|
  {
    if cs != [] {
      FoldNames(Enter(stack, cs[0]), cs[1..]);
    }
  }

  /** Proper names are pushed one after the other. */
  lemma {:induction false} FoldPushesNames(stack: seq<string>, names: seq<string>)
    requires AllNames(names)
    ensures Fold(stack, names) == stack + names
    decreases |names|
  {
    if names == [] {
      assert stack + names == stack;
    } else {
      assert IsName(names[0]);
      FoldPushesNames(Enter(stack, names[0]), names[1..]);
      assert stack + names == (stack + [names[0]]) + names[1..];
    }
  }

  /** Splitting inverts joining: the components of a canonical path are its stack. */
  lemma {:induction false} ComponentsOfCanon(stack: seq<string>)
    requires AllNames(stack)
    ensures Components(Canon(stack)) == if stack == [] then [""] else stack
    decreases |stack|
  {
    if |stack| == 1 {
      assert IsName(stack[0]);
      OneComponent(stack[0]);
      assert [stack[0]] == stack;
    } else if |stack| > 1 {
      hide Split, Canon;
      var init, last := stack[..|stack| - 1], stack[|stack| - 1];
      assert IsName(last);
      ComponentsOfCanon(init);
      CanonOfInit(stack);
      assert Canon(stack)[1..] == Canon(init)[1..] + "/" + last;
      SplitJoin(Canon(init)[1..], last);
      SplitPiece(last);
      assert stack == init + [last];
    }
  }

  lemma OneComponent(name: string)
    requires '/' !in name
    ensures Canon([name]) == "/" + name && Components("/" + name) == [name]
  {
    assert [name][..0] == [];
    assert ("/" + name)[1..] == name;
    SplitPiece(name);
  }

  lemma CanonOfInit(stack: seq<string>)
    requires |stack| > 1
    ensures Canon(stack) == Canon(stack[..|stack| - 1]) + "/" + stack[|stack| - 1]
  {
  }

  lemma FoldOfCanon(stack: seq<string>)
    requires AllNames(stack)
    ensures Fold([], Components(Canon(stack))) == stack
  {
    ComponentsOfCanon(stack);
    if stack != [] {
      FoldPushesNames([], stack);
    } else {
      assert Enter([], "") == [];
    }
  }

  // ---------------------------------------------------------------------------
  // Properties of normalisation
  // ---------------------------------------------------------------------------

  /** The normal form is canonical, and its components are the folded stack. */
  lemma SimplifyCanonical(path: string)
    requires path != ""
    ensures Canonical(Simplify(path))
    ensures AllNames(Fold([], Components(path)))
  {
    SplitNoSlashes(path[1..]);
    FoldNames([], Components(path));
  }

  /** A canonical path is its own normal form, and only such paths are fixed points. */
  lemma SimplifyFixesCanonical(path: string)
    requires path != ""
    ensures Simplify(path) == path <==> Canonical(path)
  {
    SimplifyCanonical(path);
    if Canonical(path) {
      var stack :| AllNames(stack) && path == Canon(stack);
      FoldOfCanon(stack);
    }
  }

  lemma SimplifyIdempotent(path: string)
    requires path != ""
    ensures Simplify(Simplify(path)) == Simplify(path)
  {
    SimplifyCanonical(path);
    SimplifyFixesCanonical(Simplify(path));
  }

  lemma FoldOfSimplify(path: string)
    requires path != ""
    ensures Fold([], Components(Simplify(path))) == Fold([], Components(path))
  {
    SimplifyCanonical(path);
    FoldOfCanon(Fold([], Components(path)));
  }

  lemma ComponentsJoin(p: string, q: string)
    requires p != ""
    ensures Components(p + "/" + q) == Components(p) + Split(q)
  {
    assert (p + "/" + q)[1..] == p[1..] + "/" + q;
    SplitJoin(p[1..], q);
  }

  /** Normalisation composes: normalising a prefix first changes nothing. */
  lemma SimplifyComposes(p: string, q: string)
    requires p != ""
    ensures Simplify(Simplify(p) + "/" + q) == Simplify(p + "/" + q)
  {
    ComponentsJoin(p, q);
    ComponentsJoin(Simplify(p), q);
    FoldAppend([], Components(p), Split(q));
    FoldAppend([], Components(Simplify(p)), Split(q));
    FoldOfSimplify(p);
  }

  // ---------------------------------------------------------------------------
  // The working directory
  // ---------------------------------------------------------------------------

  /** Two relative cds lead where one joined cd leads. */
  lemma RelativeCdsCompose(workpath: string, a: string, b: string)
    requires workpath != ""
    requires a != "" && a[0] != '/' && b != "" && b[0] != '/'
    ensures ResolvePath(ResolvePath(workpath, a), b) == ResolvePath(workpath, a + "/" + b)
  {
    hide Simplify;
    SimplifyComposes(workpath + "/" + a, b);
    assert workpath + "/" + (a + "/" + b) == workpath + "/" + a + "/" + b;
  }

  lemma ResolveKeepsCanonical(workpath: string, argument: string)
    requires workpath != "" && Canonical(workpath)
    ensures Canonical(ResolvePath(workpath, argument))
  {
    if argument != "" {
      SimplifyCanonical(Joined(workpath, argument));
    }
  }

  // ---------------------------------------------------------------------------
  // Parent and name
  // ---------------------------------------------------------------------------

  lemma TailStartAt(s: string, m: nat)
    requires m < |s| && s[m] == '/' && '/' !in s[m + 1..]
    ensures TailStart(s) == m + 1
  {
    forall j | m < j < |s| ensures s[j] != '/' {
      assert s[j] == s[m + 1..][j - m - 1];
    }
  }

  lemma LastComponentJoin(a: string, c: string)
    requires '/' !in c
    ensures TailStart(a + "/" + c) == |a| + 1
    ensures LastComponent(a + "/" + c) == c
  {
    var s := a + "/" + c;
    assert s[|a| + 1..] == c;
    TailStartAt(s, |a|);
  }

  /** The stripped parent and the last component rebuild a canonical path of depth two or more. */
  lemma StripRebuilds(stack: seq<string>)
    requires AllNames(stack) && |stack| >= 2
    ensures StripLast(Canon(stack)) == Canon(stack[..|stack| - 1])
    ensures LastComponent(Canon(stack)) == stack[|stack| - 1]
    ensures StripLast(Canon(stack)) + "/" + LastComponent(Canon(stack)) == Canon(stack)
  {
    var init, last := stack[..|stack| - 1], stack[|stack| - 1];
    assert IsName(last);
    assert Canon(stack) == Canon(init) + "/" + last;
    LastComponentJoin(Canon(init), last);
  }

  /** A path of depth one is not stripped: the user's root is its own "parent". */
  lemma StripKeepsRoots(name: string)
    requires IsName(name)
    ensures StripLast(Canon([name])) == Canon([name]) && LastComponent(Canon([name])) == name
  {
    assert [name][..0] == [];
    assert Canon([name]) == "" + "/" + name;
    LastComponentJoin("", name);
  }

  lemma LastOfJoin(a: string, c: string)
    requires '/' !in c
    ensures Split(a + "/" + c)[|Split(a + "/" + c)| - 1] == c && Split(c)[|Split(c)| - 1] == c
  {
    hide Split;
    SplitJoin(a, c);
    SplitPiece(c);
  }

  lemma LastComponentSplit(s: string)
    ensures Split(s)[|Split(s)| - 1] == LastComponent(s)
  {
    hide Split, TailStart;
    var k := TailStart(s);
    var c := s[k..];
    assert '/' !in c;
    LastOfJoin(if k > 0 then s[..k - 1] else "", c);
    assert k > 0 ==> s == s[..k - 1] + "/" + c;
    assert k == 0 ==> s == c;
  }

  /** The last component of the argument is the last component of the joined path. */
  lemma RawNameIsLast(workpath: string, argument: string)
    requires workpath != "" && argument != ""
    ensures var cs := Components(Joined(workpath, argument));
            cs[|cs| - 1] == LastComponent(argument)
  {
    if argument[0] == '/' {
      var root := Components(workpath)[0];
      var rest := argument[1..];
      assert ("/" + root + argument)[1..] == root + "/" + rest;
      SplitJoin(root, rest);
      LastComponentSplit(rest);
      assert argument == "" + "/" + rest;
      SplitJoin("", rest);
      LastComponentSplit(argument);
    } else {
      ComponentsJoin(workpath, argument);
      LastComponentSplit(argument);
    }
  }

  lemma LastOfCanon(stack: seq<string>)
    requires AllNames(stack) && stack != []
    ensures LastComponent(Canon(stack)) == stack[|stack| - 1]
  {
    if |stack| == 1 {
      assert stack == [stack[0]];
      StripKeepsRoots(stack[0]);
    } else {
      StripRebuilds(stack);
    }
  }

  /** The top of the stack is the last component exactly when that component is a proper name. */
  lemma FoldLast(cs: seq<string>)
    requires cs != [] && NoSlashes(cs) && Fold([], cs) != []
    ensures var stack := Fold([], cs);
            stack[|stack| - 1] == cs[|cs| - 1] <==> IsName(cs[|cs| - 1])
  {
    var c := cs[|cs| - 1];
    assert cs == cs[..|cs| - 1] + [c];
    FoldSnoc([], cs[..|cs| - 1], c);
    FoldNames([], cs);
    assert IsName(Fold([], cs)[|Fold([], cs)| - 1]);
    if IsName(c) {
      assert Enter(Fold([], cs[..|cs| - 1]), c) == Fold([], cs[..|cs| - 1]) + [c];
    }
  }

  /**
   * add_dir and remove_file take the directory from the normalised path but the name from the raw
   * argument. The two agree exactly when the argument's last component is a proper name; for
   * "docs/" or "." they do not.
   */
  lemma RawNameAgrees(workpath: string, argument: string)
    requires workpath != "" && argument != ""
    requires ResolvePath(workpath, argument) != "/"
    ensures LastComponent(argument) == LastComponent(ResolvePath(workpath, argument))
            <==> IsName(LastComponent(argument))
  {
    var cs := Components(Joined(workpath, argument));
    RawNameIsLast(workpath, argument);
    SimplifyCanonical(Joined(workpath, argument));
    SplitNoSlashes(Joined(workpath, argument)[1..]);
    FoldLast(cs);
    LastOfCanon(Fold([], cs));
  }

  /** A directory argument with a trailing slash is created under the empty name. */
  lemma TrailingSlashGivesEmptyName(workpath: string, name: string)
    requires workpath != "" && Canonical(workpath) && IsName(name)
    ensures LastComponent(name + "/") == ""
    ensures ResolvePath(workpath, name + "/") == ResolvePath(workpath, name)
  {
    LastComponentJoin(name, "");
    assert name + "/" + "" == name + "/";
    assert name[0] != '/';
    var full := workpath + "/" + name;
    assert full + "/" + "" == workpath + "/" + (name + "/");
    ComponentsJoin(full, "");
    FoldSnoc([], Components(full), "");
  }

  // ---------------------------------------------------------------------------
  // "." and ".." as arguments
  // ---------------------------------------------------------------------------

  lemma ResolveRelative(stack: seq<string>, argument: string)
    requires AllNames(stack) && argument != "" && argument[0] != '/'
    ensures ResolvePath(Canon(stack), argument) == Canon(Fold(stack, Split(argument)))
  {
    hide Canon, Fold, Split, Components;
    ComponentsJoin(Canon(stack), argument);
    FoldAppend([], Components(Canon(stack)), Split(argument));
    FoldOfCanon(stack);
  }

  lemma SplitOne(c: string)
    requires '/' !in c
    ensures Fold([], []) == [] && forall stack :: Fold(stack, Split(c)) == Enter(stack, c)
  {
    SplitPiece(c);
    forall stack ensures Fold(stack, [c]) == Enter(stack, c) {
      assert [c][1..] == [];
    }
  }

  lemma SplitTwo(stack: seq<string>, a: string, b: string)
    requires '/' !in a && '/' !in b
    ensures Fold(stack, Split(a + "/" + b)) == Enter(Enter(stack, a), b)
  {
    hide Enter;
    SplitJoin(a, b);
    SplitPiece(a);
    SplitPiece(b);
    assert [a] + [b] == [a, b];
    FoldSnoc(stack, [a], b);
    assert [a][1..] == [];
  }

  /** "cd .." goes to the parent, from every canonical path of depth two or more. */
  lemma UpIsParent(w: string)
    requires w != "" && Canonical(w) && |Components(w)| >= 2
    ensures ResolvePath(w, "..") == StripLast(w)
  {
    hide Canon, Fold, Split, Components, StripLast;
    var stack :| AllNames(stack) && w == Canon(stack);
    ComponentsOfCanon(stack);
    ResolveRelative(stack, "..");
    SplitOne("..");
    StripRebuilds(stack);
  }

  /** Into a directory and out again leads back; from every canonical path. */
  lemma InAndOut(w: string, n: string)
    requires w != "" && Canonical(w) && IsName(n)
    ensures ResolvePath(w, n + "/..") == w
  {
    hide Canon, Fold, Split;
    var stack :| AllNames(stack) && w == Canon(stack);
    var argument := n + "/" + "..";
    assert argument == n + "/..";
    ResolveRelative(stack, argument);
    SplitTwo(stack, n, "..");
  }

  /** A leading "./" makes no difference. */
  lemma HereIsNothing(w: string, n: string)
    requires w != "" && Canonical(w) && IsName(n)
    ensures ResolvePath(w, "./" + n) == ResolvePath(w, n)
    ensures ResolvePath(w, ".") == w
  {
    hide Canon, Fold, Split;
    var stack :| AllNames(stack) && w == Canon(stack);
    var argument := "." + "/" + n;
    assert argument == "./" + n;
    ResolveRelative(stack, argument);
    SplitTwo(stack, ".", n);
    ResolveRelative(stack, n);
    SplitOne(n);
    ResolveRelative(stack, ".");
    SplitOne(".");
  }

  /** An argument that is a name goes one level down, and ".." from the user's root or above ends at the top. */
  lemma DownAppends(w: string, n: string)
    requires w != "" && Canonical(w) && IsName(n)
    ensures Components(ResolvePath(w, n)) == (if w == "/" then [] else Components(w)) + [n]
    ensures |Components(w)| == 1 ==> ResolvePath(w, "..") == "/"
  {
    hide Canon, Fold, Split, Components;
    var stack :| AllNames(stack) && w == Canon(stack);
    ComponentsOfCanon(stack);
    ComponentsOfCanon(stack + [n]);
    ResolveRelative(stack, n);
    SplitOne(n);
    ResolveRelative(stack, "..");
    SplitOne("..");
    assert |stack| == 1 ==> stack[..0] == [];
    TopIsRoot(stack);
    TopIsRoot([]);
  }

  lemma TopIsRoot(stack: seq<string>)
    requires AllNames(stack)
    ensures Canon(stack) == "/" <==> stack == []
  {
    if stack != [] {
      assert IsName(stack[|stack| - 1]);
    }
  }
}
