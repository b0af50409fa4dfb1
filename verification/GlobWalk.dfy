/** glob_lib.c and PathWalk of file_lib.c: finding what matches a pattern, component by component, and
    starting the walk at the deepest directory that the pattern names literally. */
module GlobWalk {
  datatype Option<T> = None | Some(value: T)

  /** A directory tree that can be listed throughout. */
  datatype Node = File | Dir(entries: seq<Entry>)
  datatype Entry = Entry(name: string, node: Node)

  /** A component and a name: whether the name matches. */
  type Matcher = (string, string) -> bool

  const META := "*?[]{}"

  predicate IsWildcard(s: string) { exists i :: 0 <= i < |s| && s[i] in META }

  /** A component without metacharacters and backslashes matches only itself. */
  ghost predicate Literally(m: Matcher) {
    forall p, n :: !IsWildcard(p) && '\\' !in p ==> (m(p, n) <==> p == n)
  }

  /** The pattern's components: not empty, and neither the directory itself nor its parent. */
  predicate Plain(comps: seq<string>) {
    forall i :: 0 <= i < |comps| ==>
      comps[i] != "" && comps[i] != "." && comps[i] != ".." && '\\' !in comps[i] && '/' !in comps[i]
  }

  predicate Names(es: seq<Entry>) {
    && (forall i :: 0 <= i < |es| ==> es[i].name != "" && es[i].name != "." && es[i].name != "..")
    && (forall i, j :: 0 <= i < j < |es| ==> es[i].name != es[j].name)
  }

  /** In every directory of the tree the names are different. */
  predicate Listable(es: seq<Entry>)
    decreases es
  {
    Names(es) && forall i :: 0 <= i < |es| ==> (es[i].node.Dir? ==> Listable(es[i].node.entries))
  }

  // ----- paths -----

  function JoinPath(dir: string, leaf: string): string {
    if dir != "" && dir[|dir| - 1] == '/' then dir + leaf else dir + "/" + leaf
  }

  /** What a child of the directory is called; children of the working directory go by their names. */
  function Child(path: string, name: string): string {
    if path == "." then name else JoinPath(path, name)
  }

  function Below(path: string, names: seq<string>): string
    decreases |names|
  {
    if names == [] then path else Below(Child(path, names[0]), names[1..])
  }

  /** Names with slashes between them. */
  function Slashed(names: seq<string>): string
    requires names != []
  {
    if |names| == 1 then names[0] else names[0] + "/" + Slashed(names[1..])
  }

  /** Names as directories have them. */
  predicate Proper(names: seq<string>) {
    forall i :: 0 <= i < |names| ==> names[i] != "" && names[i] != "." && '/' !in names[i]
  }

  /** The path of what is found: the names below the directory with slashes between them, behind the directory and
      a slash, unless it ends in one; and without the directory if that is the working directory. */
  lemma {:induction false} BelowIs(path: string, names: seq<string>)
    requires names != [] && Proper(names)
    ensures Below(path, names)
         == (if path == "." then "" else if path != "" && path[|path| - 1] == '/' then path else path + "/") + Slashed(names)
    decreases |names|
  {
    var child := Child(path, names[0]);
    assert child[|child| - 1] == names[0][|names[0]| - 1] && names[0][|names[0]| - 1] in names[0];
    if |names| == 1 {
      assert Below(child, names[1..]) == child;
    } else {
      BelowIs(child, names[1..]);
      var tail := Slashed(names[1..]);
      ChildIs(path, names[0]);
      assert Slashed(names) == names[0] + "/" + tail && Below(path, names) == Below(child, names[1..]);
      hide Slashed, Below;
      Regroup(path, names[0], tail);
    }
  }

  lemma Regroup(path: string, name: string, tail: string)
    ensures path + name + "/" + tail == path + (name + "/" + tail)
    ensures path + "/" + name + "/" + tail == path + "/" + (name + "/" + tail)
  {
  }

  lemma ChildIs(path: string, name: string)
    requires name != "" && name != "." && '/' !in name
    ensures Child(path, name) != "."
  {
    assert path != "." ==> |Child(path, name)| >= 2;
  }

  // ----- the walk -----

  /** What the walk from a directory collects, in order: files that match the last component, and
      then what is found in the subdirectories that match. */
  function Walk(m: Matcher, path: string, es: seq<Entry>, comps: seq<string>): seq<string>
    decreases es, 1
  {
    if comps == [] then [path + "/"]
    else Files(m, path, es, comps) + Subdirs(m, path, es, comps)
  }

  function Files(m: Matcher, path: string, es: seq<Entry>, comps: seq<string>): seq<string>
    requires comps != []
  {
    if es == [] || |comps| != 1 then []
    else
      (if es[0].node.File? && m(comps[0], es[0].name) then [Child(path, es[0].name)] else [])
      + Files(m, path, es[1..], comps)
  }

  function Subdirs(m: Matcher, path: string, es: seq<Entry>, comps: seq<string>): seq<string>
    requires comps != []
    decreases es, 0
  {
    if es == [] then []
    else
      (if es[0].node.Dir? && m(comps[0], es[0].name)
       then Walk(m, Child(path, es[0].name), es[0].node.entries, comps[1..]) else [])
      + Subdirs(m, path, es[1..], comps)
  }

  // ----- what is found -----

  function Lookup(es: seq<Entry>, name: string): (r: Option<Node>)
    ensures r.Some? ==> exists i :: 0 <= i < |es| && es[i] == Entry(name, r.value)
    ensures r.None? ==> forall i :: 0 <= i < |es| ==> es[i].name != name
  {
    if es == [] then None else if es[0].name == name then Some(es[0].node) else Lookup(es[1..], name)
  }

  /** stat: what the names lead to. */
  function Resolve(es: seq<Entry>, names: seq<string>): Option<Node>
    decreases |names|
  {
    if names == [] then Some(Dir(es))
    else
      match Lookup(es, names[0])
      case Some(Dir(sub)) => Resolve(sub, names[1..])
      case Some(File) => if |names| == 1 then Some(File) else None
      case None => None
  }

  predicate MatchAll(m: Matcher, comps: seq<string>, names: seq<string>) {
    |comps| == |names| && forall i :: 0 <= i < |comps| ==> m(comps[i], names[i])
  }

  /** The names lead to something, they match one by one, and this is how it is reported. */
  ghost predicate Reported(m: Matcher, path: string, es: seq<Entry>, comps: seq<string>, names: seq<string>, r: string) {
    && MatchAll(m, comps, names) && Resolve(es, names).Some?
    && r == Below(path, names) + if Resolve(es, names).value.Dir? then "/" else ""
  }

  lemma LookupAt(es: seq<Entry>, i: nat)
    requires Names(es) && i < |es|
    ensures Lookup(es, es[i].name) == Some(es[i].node)
  {
  }

  lemma {:induction false} FilesHas(m: Matcher, path: string, es: seq<Entry>, comps: seq<string>, r: string)
    requires |comps| == 1
    ensures r in Files(m, path, es, comps)
       <==> exists i :: 0 <= i < |es| && es[i].node.File? && m(comps[0], es[i].name) && r == Child(path, es[i].name)
    decreases |es|
  {
    if es != [] {
      FilesHas(m, path, es[1..], comps, r);
      assert forall i :: 1 <= i < |es| ==> es[i] == es[1..][i - 1];
      assert forall i :: 0 <= i < |es| - 1 ==> es[1..][i] == es[i + 1];
    }
  }

  lemma {:induction false} SubdirsHas(m: Matcher, path: string, es: seq<Entry>, comps: seq<string>, r: string)
    requires comps != []
    ensures r in Subdirs(m, path, es, comps)
       <==> exists i :: 0 <= i < |es| && es[i].node.Dir? && m(comps[0], es[i].name)
                        && r in Walk(m, Child(path, es[i].name), es[i].node.entries, comps[1..])
    decreases |es|
  {
    if es != [] {
      SubdirsHas(m, path, es[1..], comps, r);
      assert forall i :: 1 <= i < |es| ==> es[i] == es[1..][i - 1];
      assert forall i :: 0 <= i < |es| - 1 ==> es[1..][i] == es[i + 1];
    }
  }

  /** The walk finds exactly what matches the pattern component by component. */
  lemma {:induction false} WalkFinds(m: Matcher, path: string, es: seq<Entry>, comps: seq<string>, r: string)
    requires Listable(es)
    ensures r in Walk(m, path, es, comps) <==> exists names :: Reported(m, path, es, comps, names, r)
    decreases |comps|
  {
    if comps == [] {
      assert Reported(m, path, es, comps, [], path + "/");
    } else {
      SubdirsHas(m, path, es, comps, r);
      if |comps| == 1 {
        FilesHas(m, path, es, comps, r);
      }
      if r in Walk(m, path, es, comps) {
        WalkReports(m, path, es, comps, r);
      }
      if names :| Reported(m, path, es, comps, names, r) {
        ReportWalks(m, path, es, comps, names, r);
      }
    }
  }

  lemma {:induction false} WalkReports(m: Matcher, path: string, es: seq<Entry>, comps: seq<string>, r: string)
    requires Listable(es) && comps != [] && r in Walk(m, path, es, comps)
    ensures exists names :: Reported(m, path, es, comps, names, r)
    decreases |comps|, 0
  {
    hide Subdirs, Files, Reported, Child;
    SubdirsHas(m, path, es, comps, r);
    if r in Subdirs(m, path, es, comps) {
      var i :| 0 <= i < |es| && es[i].node.Dir? && m(comps[0], es[i].name)
               && r in Walk(m, Child(path, es[i].name), es[i].node.entries, comps[1..]);
      WalkFinds(m, Child(path, es[i].name), es[i].node.entries, comps[1..], r);
      var names :| Reported(m, Child(path, es[i].name), es[i].node.entries, comps[1..], names, r);
      LookupAt(es, i);
      ReportedBelow(m, path, es, comps, es[i].name, names, r);
    } else {
      assert r in Files(m, path, es, comps);
      NoFiles(m, path, es, comps);
      FilesHas(m, path, es, comps, r);
      var i :| 0 <= i < |es| && es[i].node.File? && m(comps[0], es[i].name) && r == Child(path, es[i].name);
      LookupAt(es, i);
      FileReported(m, path, es, comps, es[i].name, r);
    }
  }

  lemma NoFiles(m: Matcher, path: string, es: seq<Entry>, comps: seq<string>)
    requires comps != []
    ensures |comps| != 1 ==> Files(m, path, es, comps) == []
  {
  }

  lemma FileReported(m: Matcher, path: string, es: seq<Entry>, comps: seq<string>, name: string, r: string)
    requires |comps| == 1 && m(comps[0], name) && Lookup(es, name) == Some(File) && r == Child(path, name)
    ensures Reported(m, path, es, comps, [name], r)
  {
    assert Below(Child(path, name), []) == r;
    assert [name][1..] == [] && r + "" == r;
  }

  lemma ReportedBelow(m: Matcher, path: string, es: seq<Entry>, comps: seq<string>, name: string,
                      names: seq<string>, r: string)
    requires comps != [] && m(comps[0], name) && Lookup(es, name).Some? && Lookup(es, name).value.Dir?
    requires Reported(m, Child(path, name), Lookup(es, name).value.entries, comps[1..], names, r)
    ensures Reported(m, path, es, comps, [name] + names, r)
  {
    var all := [name] + names;
    assert all[1..] == names;
    forall i | 0 <= i < |comps| ensures m(comps[i], all[i]) {
      if i > 0 {
        assert comps[i] == comps[1..][i - 1] && all[i] == names[i - 1];
      }
    }
  }

  lemma {:induction false} ReportWalks(m: Matcher, path: string, es: seq<Entry>, comps: seq<string>,
                                       names: seq<string>, r: string)
    requires Listable(es) && comps != [] && Reported(m, path, es, comps, names, r)
    ensures r in Walk(m, path, es, comps)
    decreases |comps|, 0
  {
    hide Subdirs, Files;
    var node := Lookup(es, names[0]).value;
    var i :| 0 <= i < |es| && es[i] == Entry(names[0], node);
    if node.Dir? {
      assert MatchAll(m, comps[1..], names[1..]);
      assert Reported(m, Child(path, names[0]), node.entries, comps[1..], names[1..], r);
      WalkFinds(m, Child(path, names[0]), node.entries, comps[1..], r);
      SubdirsHas(m, path, es, comps, r);
    } else {
      assert names == [names[0]] && names[1..] == [];
      assert Below(Child(path, names[0]), []) + "" == Child(path, names[0]);
      FilesHas(m, path, es, comps, r);
    }
  }

  // ----- literal prefixes -----

  /** How many components are peeled off: all literal ones at the head, but not the last component. */
  function Peeled(comps: seq<string>): (k: nat)
    ensures k <= |comps| && (comps != [] ==> k < |comps|)
  {
    if |comps| <= 1 || IsWildcard(comps[0]) then 0 else 1 + Peeled(comps[1..])
  }

  lemma {:induction false} LiteralSubdir(m: Matcher, path: string, es: seq<Entry>, comps: seq<string>)
    requires Literally(m) && |comps| > 1 && !IsWildcard(comps[0]) && '\\' !in comps[0]
    requires Names(es)
    ensures Subdirs(m, path, es, comps)
         == match Lookup(es, comps[0])
            case Some(Dir(sub)) => Walk(m, Child(path, comps[0]), sub, comps[1..])
            case _ => []
    decreases |es|
  {
    if es != [] {
      LiteralSubdir(m, path, es[1..], comps);
      assert m(comps[0], es[0].name) <==> comps[0] == es[0].name;
      if es[0].name == comps[0] {
        NotAgain(es[1..], comps[0]);
      }
    }
  }

  lemma NotAgain(es: seq<Entry>, name: string)
    requires forall i :: 0 <= i < |es| ==> es[i].name != name
    ensures Lookup(es, name) == None
  {
  }

  /** Starting the walk below the literal components finds the same, in the same order; and if they do
      not lead to a directory there is nothing to find. */
  lemma {:induction false} PeelKeepsMatches(m: Matcher, path: string, es: seq<Entry>, comps: seq<string>)
    requires Literally(m) && Plain(comps) && Listable(es)
    ensures var k := Peeled(comps);
      Walk(m, path, es, comps)
      == match Resolve(es, comps[..k])
         case Some(Dir(sub)) => Walk(m, Below(path, comps[..k]), sub, comps[k..])
         case _ => []
    decreases |comps|
  {
    hide Subdirs, Files, Lookup;
    var k := Peeled(comps);
    if k == 0 {
      assert comps[..0] == [] && comps[0..] == comps;
    } else {
      NoFiles(m, path, es, comps);
      LiteralSubdir(m, path, es, comps);
      assert comps[..k][0] == comps[0] && comps[..k][1..] == comps[1..][..k - 1] && comps[1..][k - 1..] == comps[k..];
      var node := Lookup(es, comps[0]);
      if node.Some? && node.value.Dir? {
        SubListable(es, comps[0]);
        PeelKeepsMatches(m, Child(path, comps[0]), node.value.entries, comps[1..]);
      }
    }
  }

  lemma SubListable(es: seq<Entry>, name: string)
    requires Listable(es) && Lookup(es, name).Some? && Lookup(es, name).value.Dir?
    ensures Listable(Lookup(es, name).value.entries)
  {
    var i :| 0 <= i < |es| && es[i] == Entry(name, Lookup(es, name).value);
  }

  // ----- the functions as they run -----

  method IsWildcardPattern(s: string) returns (r: bool)
    ensures r <==> IsWildcard(s)
  {
    for i := 0 to |s|
      invariant forall j :: 0 <= j < i ==> s[j] !in META
    {
      if s[i] in META {
        return true;
      }
    }
    return false;
  }

  /** What the callback is given: the names of the subdirectories and of the other files. */
  function DirNames(es: seq<Entry>): seq<string> {
    if es == [] then [] else (if es[0].node.Dir? then [es[0].name] else []) + DirNames(es[1..])
  }

  function FileNames(es: seq<Entry>): seq<string> {
    if es == [] then [] else (if es[0].node.File? then [es[0].name] else []) + FileNames(es[1..])
  }

  /** What the callback makes of the names of the subdirectories: those that do not match are
      crossed out. */
  function Kept(m: Matcher, sub: string, names: seq<string>): (r: seq<Option<string>>)
    ensures |r| == |names|
    ensures forall i :: 0 <= i < |names| ==> r[i] == if m(sub, names[i]) then Some(names[i]) else None
  {
    seq(|names|, i requires 0 <= i < |names| => if m(sub, names[i]) then Some(names[i]) else None)
  }

  function FileMatches(m: Matcher, path: string, sub: string, names: seq<string>): seq<string> {
    if names == [] then []
    else (if m(sub, names[0]) then [Child(path, names[0])] else []) + FileMatches(m, path, sub, names[1..])
  }

  lemma {:induction false} FileMatchesSplit(m: Matcher, path: string, sub: string, a: seq<string>, b: seq<string>)
    ensures FileMatches(m, path, sub, a + b) == FileMatches(m, path, sub, a) + FileMatches(m, path, sub, b)
    decreases |a|
  {
    if a == [] {
      assert a + b == b;
    } else {
      assert (a + b)[1..] == a[1..] + b;
      FileMatchesSplit(m, path, sub, a[1..], b);
    }
  }

  lemma {:induction false} FilesAre(m: Matcher, path: string, es: seq<Entry>, comps: seq<string>)
    requires |comps| == 1
    ensures Files(m, path, es, comps) == FileMatches(m, path, comps[0], FileNames(es))
    decreases |es|
  {
    if es != [] {
      FilesAre(m, path, es[1..], comps);
      if es[0].node.File? {
        assert FileNames(es)[1..] == FileNames(es[1..]);
      } else {
        assert FileNames(es) == FileNames(es[1..]);
      }
    }
  }

  /** PathWalkCallback: the head of the components is taken off, the subdirectories that do not match
      are crossed out, and files are reported if that was the last component. With no component left
      the directory itself is reported and nothing below it is visited. */
  method PathWalkCallback(m: Matcher, dirpath: string, dirnames: seq<string>, filenames: seq<string>,
                          comps: seq<string>, matches: seq<string>)
    returns (left: seq<Option<string>>, rest: seq<string>, found: seq<string>)
    requires Plain(comps)
    ensures comps == [] ==> left == [] && rest == [] && found == matches + [dirpath + "/"]
    ensures comps != [] ==> left == Kept(m, comps[0], dirnames) && rest == comps[1..]
    ensures comps != [] ==>
      found == matches + if |comps| == 1 then FileMatches(m, dirpath, comps[0], filenames) else []
  {
    found, rest, left := matches, comps, [];
    if |comps| == 0 {
      found := found + [dirpath + "/"];
      return;
    }
    var sub := comps[0];
    rest := comps[1..];
    for i := 0 to |dirnames|
      invariant left == Kept(m, sub, dirnames)[..i]
    {
      left := left + [if m(sub, dirnames[i]) then Some(dirnames[i]) else None];
    }
    if |comps| != 1 {
      return;
    }
    for i := 0 to |filenames|
      invariant found == matches + FileMatches(m, dirpath, sub, filenames[..i])
    {
      assert filenames[..i + 1] == filenames[..i] + [filenames[i]] && [filenames[i]][1..] == [];
      FileMatchesSplit(m, dirpath, sub, filenames[..i], [filenames[i]]);
      if m(sub, filenames[i]) {
        found := found + [if dirpath == "." then filenames[i] else JoinPath(dirpath, filenames[i])];
      }
    }
    assert filenames[..|filenames|] == filenames;
  }

  /** PathWalk with that callback. */
  method PathWalk(m: Matcher, path: string, es: seq<Entry>, comps: seq<string>, matches: seq<string>)
    returns (found: seq<string>)
    requires Plain(comps) && Listable(es)
    ensures found == matches + Walk(m, path, es, comps)
    decreases |comps|, 1
  {
    hide Files, Subdirs, Listable;
    var dirnames, filenames := ListNames(es);
    var left, rest;
    left, rest, found := PathWalkCallback(m, path, dirnames, filenames, comps, matches);
    if comps != [] {
      if |comps| == 1 {
        FilesAre(m, path, es, comps);
      } else {
        NoFiles(m, path, es, comps);
      }
      found := WalkKept(m, path, es, comps, dirnames, left, found);
      assert matches + Files(m, path, es, comps) + Subdirs(m, path, es, comps) == matches + Walk(m, path, es, comps);
    }
  }

  /** Sorting the children into subdirectories and others. */
  method ListNames(es: seq<Entry>) returns (dirnames: seq<string>, filenames: seq<string>)
    ensures dirnames == DirNames(es) && filenames == FileNames(es)
  {
    dirnames, filenames := [], [];
    var rest := es;
    while rest != []
      invariant dirnames + DirNames(rest) == DirNames(es) && filenames + FileNames(rest) == FileNames(es)
      decreases |rest|
    {
      if rest[0].node.Dir? {
        dirnames := dirnames + [rest[0].name];
      } else {
        filenames := filenames + [rest[0].name];
      }
      rest := rest[1..];
    }
  }

  /** The directories among the entries, in order. */
  function Dirs(es: seq<Entry>): (r: seq<Entry>)
    ensures forall i :: 0 <= i < |r| ==> r[i].node.Dir? && r[i] in es
  {
    if es == [] then [] else (if es[0].node.Dir? then [es[0]] else []) + Dirs(es[1..])
  }

  lemma {:induction false} DirNamesAre(es: seq<Entry>)
    ensures |DirNames(es)| == |Dirs(es)| && forall i :: 0 <= i < |Dirs(es)| ==> DirNames(es)[i] == Dirs(es)[i].name
    decreases |es|
  {
    if es != [] {
      DirNamesAre(es[1..]);
    }
  }

  lemma {:induction false} SubdirsAre(m: Matcher, path: string, es: seq<Entry>, comps: seq<string>)
    requires comps != []
    ensures Subdirs(m, path, es, comps) == Subdirs(m, path, Dirs(es), comps)
    decreases |es|
  {
    if es != [] {
      SubdirsAre(m, path, es[1..], comps);
      if es[0].node.Dir? {
        assert Dirs(es)[1..] == Dirs(es[1..]) && Dirs(es)[0] == es[0];
      } else {
        assert Dirs(es) == Dirs(es[1..]);
        assert [] + Subdirs(m, path, es[1..], comps) == Subdirs(m, path, es[1..], comps);
      }
    }
  }

  /** The second loop of PathWalk: down into the directories that are left. */
  method WalkKept(m: Matcher, path: string, es: seq<Entry>, comps: seq<string>, dirnames: seq<string>,
                  left: seq<Option<string>>, matches: seq<string>)
    returns (found: seq<string>)
    requires Plain(comps) && comps != [] && Listable(es)
    requires dirnames == DirNames(es) && left == Kept(m, comps[0], dirnames)
    ensures found == matches + Subdirs(m, path, es, comps)
    decreases |comps|, 0
  {
    hide Listable, Subdirs, Walk;
    ghost var ds := Dirs(es);
    DirNamesAre(es);
    SubdirsAre(m, path, es, comps);
    found := matches;
    assert ds[0..] == ds;
    for i := 0 to |left|
      invariant found + Subdirs(m, path, ds[i..], comps) == matches + Subdirs(m, path, ds, comps)
    {
      assert ds[i..][0] == ds[i] && ds[i..][1..] == ds[i + 1..];
      SubdirsStep(m, path, ds[i..], comps);
      ghost var before := found;
      if left[i].Some? {
        EntryIs(es, ds[i]);
        found := PathWalk(m, Child(path, left[i].value), Lookup(es, left[i].value).value.entries, comps[1..], found);
      }
    }
    NoSubdirs(m, path, comps);
  }

  lemma SubdirsStep(m: Matcher, path: string, es: seq<Entry>, comps: seq<string>)
    requires comps != [] && es != [] && es[0].node.Dir?
    ensures Subdirs(m, path, es, comps)
         == (if m(comps[0], es[0].name) then Walk(m, Child(path, es[0].name), es[0].node.entries, comps[1..]) else [])
            + Subdirs(m, path, es[1..], comps)
  {
  }

  lemma NoSubdirs(m: Matcher, path: string, comps: seq<string>)
    requires comps != []
    ensures Subdirs(m, path, [], comps) == []
  {
  }

  lemma EntryIs(es: seq<Entry>, e: Entry)
    requires Listable(es) && e in es && e.node.Dir?
    ensures Lookup(es, e.name) == Some(e.node) && Listable(e.node.entries)
  {
    var i :| 0 <= i < |es| && es[i] == e;
    LookupAt(es, i);
  }

  /** PeelLiteralPrefix: the start directory and the components left, or nothing. `seed` is the root, or
      the working directory for a relative pattern. */
  method PeelLiteralPrefix(seed: string, root: seq<Entry>, comps: seq<string>)
    returns (start: Option<(string, seq<Entry>)>, rest: seq<string>)
    requires Plain(comps)
    ensures rest == comps[Peeled(comps)..]
    ensures start == match Resolve(root, comps[..Peeled(comps)])
                     case Some(Dir(sub)) => Some((Below(seed, comps[..Peeled(comps)]), sub))
                     case _ => None
  {
    hide Child, Resolve, Plain;
    var startDir, k := seed, 0;
    rest := comps;
    assert comps[0..] == comps && comps[..0] == [];
    while |rest| > 1
      invariant k <= |comps| && rest == comps[k..] && k + Peeled(rest) == Peeled(comps)
      invariant startDir == Below(seed, comps[..k])
    {
      var head := rest[0];
      var wild := IsWildcardPattern(head);
      if wild {
        break;
      }
      BelowLast(seed, comps[..k], head);
      assert comps[..k + 1] == comps[..k] + [head];
      startDir := Child(startDir, head);
      rest := rest[1..];
      k := k + 1;
    }
    var node := Resolve(root, comps[..k]);
    if node.Some? && node.value.Dir? {
      start := Some((startDir, node.value.entries));
    } else {
      start := None;
    }
  }

  lemma {:induction false} BelowLast(path: string, names: seq<string>, name: string)
    ensures Below(path, names + [name]) == Child(Below(path, names), name)
    decreases |names|
  {
    if names == [] {
      assert names + [name] == [name] && [name][1..] == [];
    } else {
      assert (names + [name])[1..] == names[1..] + [name];
      BelowLast(Child(path, names[0]), names[1..], name);
    }
  }

  /** GlobFind for one pattern without braces: the walk starts as deep as the pattern allows, and finds
      what the walk from the root or the working directory finds. */
  method FindOne(m: Matcher, seed: string, root: seq<Entry>, comps: seq<string>, matches: seq<string>)
    returns (found: seq<string>)
    requires Literally(m) && Plain(comps) && Listable(root)
    ensures found == matches + Walk(m, seed, root, comps)
    ensures forall r :: r in found <==> r in matches || exists names :: Reported(m, seed, root, comps, names, r)
  {
    hide Walk, Resolve, Plain, Listable, Reported;
    var start, rest := PeelLiteralPrefix(seed, root, comps);
    PeelKeepsMatches(m, seed, root, comps);
    if start.Some? {
      PeeledIsFine(root, comps, Peeled(comps));
      found := PathWalk(m, start.value.0, start.value.1, rest, matches);
    } else {
      found := matches;
    }
    forall r ensures r in Walk(m, seed, root, comps) <==> exists names :: Reported(m, seed, root, comps, names, r) {
      WalkFinds(m, seed, root, comps, r);
    }
  }

  lemma {:induction false} PeeledIsFine(es: seq<Entry>, comps: seq<string>, k: nat)
    requires Listable(es) && Plain(comps) && k <= |comps|
    ensures Plain(comps[k..])
    ensures var r := Resolve(es, comps[..k]); r.Some? && r.value.Dir? ==> Listable(r.value.entries)
    decreases k
  {
    if k > 0 {
      assert comps[..k][0] == comps[0] && comps[..k][1..] == comps[1..][..k - 1];
      var node := Lookup(es, comps[0]);
      if node.Some? && node.value.Dir? {
        SubListable(es, comps[0]);
        PeeledIsFine(node.value.entries, comps[1..], k - 1);
      }
    }
  }
}
