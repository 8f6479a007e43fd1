/**
 * The buffer-level forms of the path functions: loops that fill character arrays and rewind an
 * index, as server/tool.c does. Each is proved to compute its function in module Paths, and every
 * array access is proved to stay in bounds.
 */
module PathBuffers {
  import opened Paths

  /** The text that `buffer` holds before its terminator at `len`. */
  ghost predicate Holds(buffer: array<char>, len: nat, text: string)
    reads buffer
  {
    len < buffer.Length && buffer[..len] == text && buffer[len] == '\0'
  }

  /** The components completed when the last slash seen is at `slash`. */
  ghost function Completed(path: string, slash: nat): seq<string>
    requires slash <= |path|
  {
    if slash == 0 then [] else Split(path[1..slash])
  }

  /** The next slash, or the end, completes one more component. */
  lemma CompleteOne(path: string, slash: nat, i: nat)
    requires slash < i <= |path|
    requires slash > 0 ==> path[slash] == '/'
    requires forall j :: slash < j < i ==> path[j] != '/'
    ensures '/' !in path[slash + 1..i]
    ensures Completed(path, i) == Completed(path, slash) + [path[slash + 1..i]]
  {
    var c := path[slash + 1..i];
    SplitPiece(c);
    if slash > 0 {
      assert path[1..i] == path[1..slash] + "/" + c;
      SplitJoin(path[1..slash], c);
    }
  }

  /** Where the slash after each component stands in the output, the first one at 0. */
  ghost function Slashes(stack: seq<string>): (r: seq<int>)
    ensures |r| == |stack| + 1
    ensures r[|stack|] == |Render(stack)| - 1
  {
    if stack == [] then [0] else Slashes(stack[..|stack| - 1]) + [|Render(stack)| - 1]
  }

  lemma Push(stack: seq<string>, c: string)
    ensures Render(stack + [c]) == Render(stack) + c + "/"
    ensures Slashes(stack + [c]) == Slashes(stack) + [|Render(stack + [c])| - 1]
  {
    assert (stack + [c])[..|stack|] == stack;
  }

  /** Every component takes at least two places, so the slash list never fills up. */
  lemma {:induction false} RenderLength(stack: seq<string>)
    requires AllNames(stack)
    ensures |Render(stack)| >= 2 * |stack| + 1
  {
    if stack != [] {
      RenderLength(stack[..|stack| - 1]);
      assert IsName(stack[|stack| - 1]);
    }
  }

  /** The characters copied since the last slash. */
  ghost function Partial(path: string, slash: nat, i: nat): string
    requires slash < i <= |path| + 1
  {
    if i <= |path| then path[slash + 1..i] else ""
  }

  /** The buffer, the index list and the write position stand for the stack and the unfinished piece. */
  ghost predicate Tracks(name: array<char>, nameIdx: int, list: array<int>, listIdx: int,
                         stack: seq<string>, partial: string)
    reads name, list
  {
    && 0 <= nameIdx <= name.Length
    && 0 <= listIdx <= list.Length
    && name[..nameIdx] == Render(stack) + partial
    && list[..listIdx] == Slashes(stack)
  }

  lemma EnterNames(stack: seq<string>, c: string)
    requires AllNames(stack) && '/' !in c
    ensures AllNames(Enter(stack, c))
  {
    assert Enter(stack, c) == Fold(stack, [c]) by { assert [c][1..] == []; }
    FoldNames(stack, [c]);
  }

  lemma CanonOfRender(stack: seq<string>)
    ensures Canon(stack) == if stack == [] then "/" else Render(stack)[..|Render(stack)| - 1]
    ensures stack == [] <==> |Render(stack)| == 1
  {
  }

  /** What the scan knows before it looks at character i: the stack of all completed components. */
  ghost predicate Scanned(path: string, lastSlash: int, i: int, stack: seq<string>) {
    && 0 <= lastSlash < i <= |path| + 1
    && (i == |path| + 1 ==> lastSlash == |path|)
    && (0 < lastSlash < |path| ==> path[lastSlash] == '/')
    && (forall j :: lastSlash < j < i && j < |path| ==> path[j] != '/')
    && stack == Fold([], Completed(path, lastSlash))
    && AllNames(stack)
  }

  lemma ScanChar(path: string, lastSlash: int, i: int, stack: seq<string>)
    requires Scanned(path, lastSlash, i, stack)
    requires i < |path| && path[i] != '/'
    ensures Scanned(path, lastSlash, i + 1, stack)
    ensures Partial(path, lastSlash, i + 1) == Partial(path, lastSlash, i) + [path[i]]
  {
    assert path[lastSlash + 1..i + 1] == path[lastSlash + 1..i] + [path[i]];
  }

  lemma ScanSlash(path: string, lastSlash: int, i: int, stack: seq<string>)
    requires Scanned(path, lastSlash, i, stack)
    requires i == |path| || (i < |path| && path[i] == '/')
    ensures '/' !in path[lastSlash + 1..i]
    ensures Scanned(path, i, i + 1, Enter(stack, path[lastSlash + 1..i]))
  {
    var c := path[lastSlash + 1..i];
    CompleteOne(path, lastSlash, i);
    FoldSnoc([], Completed(path, lastSlash), c);
    EnterNames(stack, c);
  }

  lemma ScanEnd(path: string, lastSlash: int, stack: seq<string>)
    requires path != "" && Scanned(path, lastSlash, |path| + 1, stack)
    ensures Simplify(path) == if |Render(stack)| == 1 then "/" else Render(stack)[..|Render(stack)| - 1]
  {
    assert path[1..|path|] == path[1..];
    CanonOfRender(stack);
  }

  lemma PieceIsName(path: string, slash: nat, i: nat)
    requires slash + 1 < i <= |path|
    requires !(i - slash == 2 && path[i - 1] == '.')
    requires !(i - slash == 3 && path[i - 1] == '.' && path[i - 2] == '.')
    ensures path[slash + 1..i] != "" && path[slash + 1..i] != "." && path[slash + 1..i] != ".."
  {
    var c := path[slash + 1..i];
    assert c[|c| - 1] == path[i - 1];
    if |c| == 2 { assert c[0] == path[i - 2]; }
  }

  /** Everything simplifyPath maintains before it looks at character i. */
  ghost predicate State(path: string, i: int, lastSlash: int, name: array<char>, nameIdx: int,
                        list: array<int>, listIdx: int, stack: seq<string>)
    reads name, list
  {
    && Scanned(path, lastSlash, i, stack)
    && name.Length == |path| + 1 && list.Length == |path|
    && nameIdx <= i
    && Tracks(name, nameIdx, list, listIdx, stack, Partial(path, lastSlash, i))
  }

  lemma Started(path: string, name: array<char>, list: array<int>)
    requires path != "" && name.Length == |path| + 1 && list.Length == |path|
    requires name[0] == '/' && list[0] == 0
    ensures State(path, 1, 0, name, 1, list, 1, [])
  {
    assert name[..1] == "/" && list[..1] == [0];
  }

  /** A character that is not a slash is copied. */
  method CopyChar(path: string, i: nat, lastSlash: nat, name: array<char>, nameIdx: nat,
                  list: array<int>, listIdx: nat, ghost stack: seq<string>)
    returns (nameIdx': nat)
    requires State(path, i, lastSlash, name, nameIdx, list, listIdx, stack)
    requires i < |path| && path[i] != '/'
    modifies name
    ensures State(path, i + 1, lastSlash, name, nameIdx', list, listIdx, stack)
  {
    ScanChar(path, lastSlash, i, stack);
    nameIdx' := WriteChar(name, nameIdx, list, listIdx, stack, path[lastSlash + 1..i], path[i]);
  }

  method WriteChar(name: array<char>, nameIdx: nat, list: array<int>, listIdx: nat,
                   ghost stack: seq<string>, ghost partial: string, c: char)
    returns (nameIdx': nat)
    requires nameIdx < name.Length && Tracks(name, nameIdx, list, listIdx, stack, partial)
    modifies name
    ensures nameIdx' == nameIdx + 1
    ensures Tracks(name, nameIdx', list, listIdx, stack, partial + [c])
  {
    ghost var text := name[..nameIdx];
    name[nameIdx] := c;
    nameIdx' := nameIdx + 1;
    assert name[..nameIdx'] == text + [c];
  }

  /** The trailing slash is overwritten by the terminator, except for the root. */
  method Terminate(path: string, lastSlash: nat, name: array<char>, nameIdx: nat,
                   list: array<int>, listIdx: nat, ghost stack: seq<string>)
    returns (len: nat)
    requires path != "" && State(path, |path| + 1, lastSlash, name, nameIdx, list, listIdx, stack)
    modifies name
    ensures Holds(name, len, Simplify(path))
  {
    ScanEnd(path, lastSlash, stack);
    ghost var text := name[..nameIdx];
    assert text == Render(stack);
    var num := if nameIdx == 1 then 0 else 1;
    len := nameIdx - num;
    assert name[..len] == text[..len];
    name[len] := '\0';
  }

  /** The component is kept: its slash is written and its place recorded. */
  method RecordSlash(path: string, i: nat, name: array<char>, nameIdx: nat,
                     list: array<int>, listIdx: nat, ghost stack: seq<string>, ghost c: string)
    returns (nameIdx': nat, listIdx': nat)
    requires nameIdx <= i <= |path| && name.Length == |path| + 1 && list.Length == |path|
    requires AllNames(stack) && c != ""
    requires Tracks(name, nameIdx, list, listIdx, stack, c)
    modifies name, list
    ensures nameIdx' == nameIdx + 1
    ensures Tracks(name, nameIdx', list, listIdx', stack + [c], "")
  {
    RenderLength(stack);
    Push(stack, c);
    ghost var text, slashes := name[..nameIdx], list[..listIdx];
    name[nameIdx] := '/';
    nameIdx' := nameIdx + 1;
    list[listIdx] := nameIdx' - 1;
    listIdx' := listIdx + 1;
    assert name[..nameIdx'] == text + "/";
    assert list[..listIdx'] == slashes + [nameIdx];
  }

  /** simplifyPath's work at a slash or at the end: rewind the buffer or record one more slash. */
  method CloseComponent(path: string, i: nat, lastSlash: nat, name: array<char>, nameIdx: nat,
                        list: array<int>, listIdx: nat, ghost stack: seq<string>)
    returns (nameIdx': nat, listIdx': nat, ghost stack': seq<string>)
    requires State(path, i, lastSlash, name, nameIdx, list, listIdx, stack)
    requires i == |path| || (i < |path| && path[i] == '/')
    modifies name, list
    ensures State(path, i + 1, i, name, nameIdx', list, listIdx', stack')
  {
    ScanSlash(path, lastSlash, i, stack);
    nameIdx', listIdx' := Rewind(path, i, lastSlash, name, nameIdx, list, listIdx, stack);
    stack' := Enter(stack, path[lastSlash + 1..i]);
  }

  /** "." and "..": the write position goes back behind a slash that the list records. */
  method BackTo(name: array<char>, nameIdx: nat, list: array<int>, listIdx: nat, listIdx': nat,
                ghost stack: seq<string>, ghost below: seq<string>, ghost partial: string)
    returns (nameIdx': nat)
    requires Tracks(name, nameIdx, list, listIdx, stack, partial)
    requires below <= stack && listIdx' == |below| + 1 <= listIdx
    requires Slashes(below) <= Slashes(stack) && Render(below) <= Render(stack)
    ensures nameIdx' <= nameIdx && Tracks(name, nameIdx', list, listIdx', below, "")
  {
    hide Slashes, Render;
    assert list[..listIdx][listIdx' - 1] == Slashes(below)[|below|];
    nameIdx' := list[listIdx' - 1] + 1;
    assert name[..nameIdx'] == name[..nameIdx][..nameIdx'];
    assert list[..listIdx'] == list[..listIdx][..listIdx'];
  }

  lemma SlashesBelow(stack: seq<string>)
    requires stack != []
    ensures var below := stack[..|stack| - 1];
            Slashes(below) <= Slashes(stack) && Render(below) <= Render(stack)
  {
  }

  /** With nothing below the root, only its slash is kept. */
  lemma RootOnly(stack: seq<string>, text: string, partial: string)
    requires |stack| == 0 && text == Render(stack) + partial
    ensures |text| >= 1 && text[..1] == Render(stack)
  {
  }

  /** The branches of that work. */
  method Rewind(path: string, i: nat, lastSlash: nat, name: array<char>, nameIdx: nat,
                list: array<int>, listIdx: nat, ghost stack: seq<string>)
    returns (nameIdx': nat, listIdx': nat)
    requires lastSlash < i <= |path|
    requires name.Length == |path| + 1 && list.Length == |path|
    requires AllNames(stack)
    requires nameIdx <= i && Tracks(name, nameIdx, list, listIdx, stack, path[lastSlash + 1..i])
    modifies name, list
    ensures nameIdx' <= i + 1
    ensures Tracks(name, nameIdx', list, listIdx', Enter(stack, path[lastSlash + 1..i]), "")
  {
    hide Slashes, Render, AllNames;
    ghost var c := path[lastSlash + 1..i];
    var nameLen := i - lastSlash;
    nameIdx', listIdx' := nameIdx, listIdx;
    if nameLen == 1 {
      assert c == "";
    } else if nameLen == 2 && path[i - 1] == '.' {
      assert c == ".";
      nameIdx' := BackTo(name, nameIdx, list, listIdx, listIdx, stack, stack, c);
    } else if nameLen == 3 && path[i - 1] == '.' && path[i - 2] == '.' {
      assert c == "..";
      if listIdx <= 1 {
        listIdx' := 1;
        nameIdx' := 1;
        RootOnly(stack, name[..nameIdx], c);
        assert name[..1] == name[..nameIdx][..1] && list[..1] == list[..listIdx];
      } else {
        listIdx' := listIdx - 1;
        SlashesBelow(stack);
        nameIdx' := BackTo(name, nameIdx, list, listIdx, listIdx', stack, stack[..|stack| - 1], c);
      }
    } else {
      PieceIsName(path, lastSlash, i);
      nameIdx', listIdx' := RecordSlash(path, i, name, nameIdx, list, listIdx, stack, c);
    }
  }

  /** The loop body of simplifyPath. */
  method ScanOne(path: string, i: nat, lastSlash: nat, name: array<char>, nameIdx: nat,
                 list: array<int>, listIdx: nat, ghost stack: seq<string>)
    returns (nameIdx': nat, listIdx': nat, lastSlash': nat, ghost stack': seq<string>)
    requires i <= |path| && State(path, i, lastSlash, name, nameIdx, list, listIdx, stack)
    modifies name, list
    ensures State(path, i + 1, lastSlash', name, nameIdx', list, listIdx', stack')
  {
    if i < |path| && path[i] != '/' {
      nameIdx' := CopyChar(path, i, lastSlash, name, nameIdx, list, listIdx, stack);
      listIdx', lastSlash', stack' := listIdx, lastSlash, stack;
    } else {
      nameIdx', listIdx', stack' := CloseComponent(path, i, lastSlash, name, nameIdx, list, listIdx, stack);
      lastSlash' := i;
    }
  }

  /** simplifyPath: one output buffer, rewound to a recorded slash on "." and "..". */
  method SimplifyPath(path: string) returns (name: array<char>, len: nat)
    requires path != ""
    ensures fresh(name)
    ensures Holds(name, len, Simplify(path))
  {
    hide State, Simplify, Holds;
    name := new char[|path| + 1];
    var list := new int[|path|];
    var nameIdx: nat, listIdx: nat, lastSlash := 1, 1, 0;
    name[0] := '/';
    list[0] := 0;
    ghost var stack: seq<string> := [];
    Started(path, name, list);

    var i := 1;
    while i <= |path|
      invariant i <= |path| + 1
      invariant State(path, i, lastSlash, name, nameIdx, list, listIdx, stack)
    {
      nameIdx, listIdx, lastSlash, stack :=
        ScanOne(path, i, lastSlash, name, nameIdx, list, listIdx, stack);
      i := i + 1;
    }
    len := Terminate(path, lastSlash, name, nameIdx, list, listIdx, stack);
  }

  // ---------------------------------------------------------------------------
  // Splitting, last component, parent
  // ---------------------------------------------------------------------------

  /** The name table and the two pointers in the middle of the pass. */
  ghost predicate Splitting(path: string, dirName: array<string>, dirSize: int, start: int, end: int)
    reads dirName
  {
    && 0 <= start <= end <= |path| == dirName.Length
    && (start == end ==> end == 0)
    && (start > 0 ==> path[start] == '/')
    && (forall j :: start < j < end ==> path[j] != '/')
    && dirSize == |Completed(path, start)| <= start
    && dirName[..dirSize] == Completed(path, start)
  }

  /** A component is entered into the name table when the next slash, or the end, is met. */
  method RecordName(path: string, dirName: array<string>, dirSize: nat, start: nat, end: nat)
    requires Splitting(path, dirName, dirSize, start, end) && start < end
    modifies dirName
    ensures dirName[..dirSize + 1] == Completed(path, end) && dirSize + 1 == |Completed(path, end)|
  {
    hide Completed;
    CompleteOne(path, start, end);
    ghost var before := dirName[..dirSize];
    dirName[dirSize] := path[start + 1..end];
    assert dirName[..dirSize + 1] == before + [path[start + 1..end]];
  }

  lemma CompletedAll(path: string)
    requires path != ""
    ensures Completed(path, |path|) == Components(path)
  {
    assert path[1..|path|] == path[1..];
  }

  /** splite_file_name: one pass with two pointers; the name table has one entry per character. */
  method SplitFileName(path: string) returns (names: seq<string>)
    requires path != ""
    ensures names == Components(path)
  {
    var dirName := new string[|path|](_ => "");
    var dirSize: nat, start: nat, end: nat := 0, 0, 0;
    assert Completed(path, 0) == [];
    hide Completed, Components;
    while end < |path|
      invariant end <= |path| && Splitting(path, dirName, dirSize, start, end)
    {
      if path[end] == '/' {
        if end == start {
          end := end + 1;
          continue;
        }
        RecordName(path, dirName, dirSize, start, end);
        dirSize := dirSize + 1;
        start := end;
      }
      end := end + 1;
    }
    RecordName(path, dirName, dirSize, start, end);
    dirSize := dirSize + 1;
    CompletedAll(path);
    names := dirName[..dirSize];
  }

  /** reverseString: swap from both ends of the first `length` characters. */
  method ReverseString(str: array<char>, length: nat)
    requires length <= str.Length
    modifies str
    ensures forall k :: 0 <= k < length ==> str[k] == old(str[length - 1 - k])
    ensures forall k :: length <= k < str.Length ==> str[k] == old(str[k])
  {
    var i := 0;
    while i < length / 2
      invariant 0 <= i <= length / 2
      invariant forall k :: 0 <= k < i ==> str[k] == old(str[length - 1 - k]) && str[length - 1 - k] == old(str[k])
      invariant forall k :: i <= k < length - i ==> str[k] == old(str[k])
      invariant forall k :: length <= k < str.Length ==> str[k] == old(str[k])
    {
      var temp := str[i];
      str[i] := str[length - i - 1];
      str[length - i - 1] := temp;
      i := i + 1;
    }
  }

  /** get_file_name: copy backwards to the last slash into a 1024-character buffer, then reverse. */
  method GetFileName(localPath: string) returns (ret: string)
    requires |LastComponent(localPath)| < 1024
    ensures ret == LastComponent(localPath)
  {
    var temp := new char[1024](_ => '\0');
    var i, len := 0, |localPath|;
    while i < len
      invariant 0 <= i <= len - TailStart(localPath)
      invariant forall k :: 0 <= k < i ==> temp[k] == localPath[len - 1 - k]
    {
      if localPath[len - 1 - i] == '/' {
        break;
      }
      temp[i] := localPath[len - 1 - i];
      i := i + 1;
    }
    ReverseString(temp, i);
    ret := temp[..i];
  }

  /** The loop of send_file, remove_file and add_dir that cuts the path at its last slash. */
  method StripParent(userPath: array<char>, len: nat) returns (len': nat)
    requires len < userPath.Length && userPath[len] == '\0'
    modifies userPath
    ensures Holds(userPath, len', StripLast(old(userPath[..len])))
  {
    ghost var path := userPath[..len];
    var i := len - 1;
    len' := len;
    while i > 0
      invariant -1 <= i < len
      invariant userPath[..len] == path && userPath[len] == '\0'
      invariant forall j :: i < j < len ==> path[j] != '/'
    {
      if userPath[i] == '/' {
        userPath[i] := '\0';
        len' := i;
        TailStartAt(path, i);
        assert userPath[..i] == path[..i];
        return;
      }
      i := i - 1;
    }
  }

  /** get_user_path: the path a command works on, from the working path and the raw argument. */
  method GetUserPath(argument: string, workpath: string) returns (userPath: string)
    requires workpath != ""
    ensures userPath == ResolvePath(workpath, argument)
  {
    if |argument| == 0 {
      return workpath;
    }
    var res := SplitFileName(workpath);
    if argument[0] == '/' {
      userPath := "/" + res[0] + argument;
    } else {
      userPath := workpath + "/" + argument;
    }
    var temp, len := SimplifyPath(userPath);
    userPath := temp[..len];
  }
}
