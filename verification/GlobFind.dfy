/** GlobFind of glob_lib.c on Unix: expand the braces, walk for every pattern, sort what was found. */
module GlobFind {
  import Braces
  import opened GlobWalk
  import SeqSort
  import opened Strings

  /** The file system: what is below the root, and what is below the working directory. */
  datatype Tree = Tree(root: seq<Entry>, here: seq<Entry>)

  /** Leading quotes do not count. */
  predicate Absolute(f: string) {
    f != "" && (f[0] == '/' || (f[0] == '"' && Absolute(f[1..])))
  }

  function NonEmpty(ss: seq<string>): seq<string> {
    if ss == [] then [] else (if ss[0] == "" then [] else [ss[0]]) + NonEmpty(ss[1..])
  }

  function Components(pattern: string): seq<string> { NonEmpty(Split(pattern, '/')) }

  /** The names between slashes, however many slashes there are. */
  lemma ComponentLaws(name: string, rest: string)
    requires name != "" && '/' !in name
    ensures Components("") == [] && Components(name) == [name]
    ensures Components("/" + rest) == Components(rest)
    ensures Components(name + "/" + rest) == [name] + Components(rest)
  {
    var pieces := Split(rest, '/');
    SplitJoins(rest, '/');
    JoinedSplits([name], '/');
    JoinedSplits([name] + pieces, '/');
    assert ([name] + pieces)[1..] == pieces && [name][1..] == [];
    assert Joined([name] + pieces, '/') == name + "/" + rest;
    assert ("/" + rest)[1..] == rest && ([""] + pieces)[1..] == pieces;
    assert Split("", '/') == [""] && [""][1..] == [];
  }

  /** A name is absolute if its first character that is not a quote is a slash. */
  lemma {:induction false} AbsoluteIff(f: string)
    ensures Absolute(f) <==> exists k :: 0 <= k < |f| && f[k] == '/' && forall i :: 0 <= i < k ==> f[i] == '"'
    decreases |f|
  {
    if f != "" && f[0] == '"' {
      var g := f[1..];
      AbsoluteIff(g);
      if k :| 0 <= k < |g| && g[k] == '/' && forall i :: 0 <= i < k ==> g[i] == '"' {
        assert f[k + 1] == '/' && forall i :: 0 <= i < k + 1 ==> f[i] == if i == 0 then '"' else g[i - 1];
      }
      if k :| 0 <= k < |f| && f[k] == '/' && forall i :: 0 <= i < k ==> f[i] == '"' {
        assert g[k - 1] == '/' && forall i :: 0 <= i < k - 1 ==> g[i] == f[i + 1];
      }
    }
  }

  function Seed(pattern: string): string { if Absolute(pattern) then "/" else "." }

  function Start(t: Tree, pattern: string): seq<Entry> { if Absolute(pattern) then t.root else t.here }

  /** What the walk for one pattern without braces collects when nothing is peeled. */
  function Collected(m: Matcher, t: Tree, pattern: string): seq<string> {
    Walk(m, Seed(pattern), Start(t, pattern), Components(pattern))
  }

  function Gathered(m: Matcher, t: Tree, patterns: seq<string>): seq<string> {
    if patterns == [] then []
    else Gathered(m, t, patterns[..|patterns| - 1]) + Collected(m, t, patterns[|patterns| - 1])
  }

  /** Something in the tree matches the pattern, and is reported as `r`. */
  ghost predicate Hit(m: Matcher, t: Tree, pattern: string, r: string) {
    exists names :: Reported(m, Seed(pattern), Start(t, pattern), Components(pattern), names, r)
  }

  ghost predicate Fit(m: Matcher, t: Tree) { Literally(m) && Listable(t.root) && Listable(t.here) }

  // ----- the parts -----

  method IsAbsoluteFileName(f: string) returns (r: bool)
    ensures r <==> Absolute(f)
  {
    var off := 0;
    while off < |f| && f[off] == '"'
      invariant off <= |f| && (Absolute(f[off..]) <==> Absolute(f))
    {
      assert f[off..][0] == '"' && f[off..][1..] == f[off + 1..];
      off := off + 1;
    }
    if off < |f| {
      assert f[off..][0] == f[off];
    }
    return off < |f| && f[off] == '/';
  }

  /** SeqFilter with EmptyStringFilter. */
  method DropEmpty(ss: seq<string>) returns (r: seq<string>)
    ensures r == NonEmpty(ss)
  {
    r := [];
    var rest := ss;
    while rest != []
      invariant r + NonEmpty(rest) == NonEmpty(ss)
      decreases |rest|
    {
      if rest[0] != "" {
        r := r + [rest[0]];
      }
      rest := rest[1..];
    }
  }

  /** One pattern of the set. */
  method FindPattern(m: Matcher, t: Tree, pattern: string, matches: seq<string>) returns (found: seq<string>)
    requires Fit(m, t) && Plain(Components(pattern))
    ensures found == matches + Collected(m, t, pattern)
    ensures forall r :: r in Collected(m, t, pattern) <==> Hit(m, t, pattern, r)
  {
    hide Walk, Reported, Listable, Plain;
    var pieces := StringSplit(pattern, '/');
    var components := DropEmpty(pieces);
    var absolute := IsAbsoluteFileName(pattern);
    if absolute {
      found := FindOne(m, "/", t.root, components, matches);
    } else {
      found := FindOne(m, ".", t.here, components, matches);
    }
    forall r ensures r in Collected(m, t, pattern) <==> Hit(m, t, pattern, r) {
      WalkFinds(m, Seed(pattern), Start(t, pattern), Components(pattern), r);
    }
  }

  /** SeqSort with strcmp. */
  method SortTexts(ss: seq<string>) returns (sorted: seq<string>)
    ensures SeqSort.Sorted(sorted, StrCmp) && multiset(sorted) == multiset(ss)
  {
    var a := new string[|ss|](i requires 0 <= i < |ss| => ss[i]);
    assert a[..] == ss;
    StrCmpIsComparator();
    SeqSort.Sort(a, StrCmp);
    sorted := a[..];
  }

  lemma GatheredMore(m: Matcher, t: Tree, patterns: seq<string>, p: string)
    ensures Gathered(m, t, []) == []
    ensures Gathered(m, t, patterns + [p]) == Gathered(m, t, patterns) + Collected(m, t, p)
  {
    assert (patterns + [p])[..|patterns|] == patterns;
  }

  ghost predicate AnyHit(m: Matcher, t: Tree, patterns: set<string>, r: string) {
    exists e :: e in patterns && Hit(m, t, e, r)
  }

  /** What has been gathered are the hits of the patterns dealt with. */
  ghost predicate Exactly(m: Matcher, t: Tree, patterns: set<string>, found: seq<string>) {
    forall r :: r in found <==> AnyHit(m, t, patterns, r)
  }

  lemma OneMore(m: Matcher, t: Tree, done: set<string>, p: string, found: seq<string>, more: seq<string>)
    requires Exactly(m, t, done, found) && forall r :: r in more <==> Hit(m, t, p, r)
    ensures Exactly(m, t, done + {p}, found + more)
  {
    hide Hit;
    forall r ensures AnyHit(m, t, done + {p}, r) <==> AnyHit(m, t, done, r) || Hit(m, t, p, r) {
      if Hit(m, t, p, r) {
        assert p in done + {p};
      }
    }
  }

  lemma NothingYet(m: Matcher, t: Tree)
    ensures Exactly(m, t, {}, []) && Gathered(m, t, []) == []
  {
  }

  lemma SameTexts(m: Matcher, t: Tree, patterns: set<string>, found: seq<string>, sorted: seq<string>)
    requires Exactly(m, t, patterns, found) && multiset(sorted) == multiset(found)
    ensures Exactly(m, t, patterns, sorted)
  {
    hide AnyHit;
    assert forall r :: r in sorted <==> r in multiset(sorted);
    assert forall r :: r in found <==> r in multiset(found);
  }

  /** `order` lists the patterns, each once. */
  ghost predicate Lists(order: seq<string>, patterns: set<string>) {
    |order| == |patterns| && forall e :: e in order <==> e in patterns
  }

  /** The loop over the set of patterns, which come in some order. */
  method FindAll(m: Matcher, t: Tree, patterns: set<string>) returns (matches: seq<string>, ghost order: seq<string>)
    requires Fit(m, t) && forall e :: e in patterns ==> Plain(Components(e))
    ensures Lists(order, patterns) && matches == Gathered(m, t, order) && Exactly(m, t, patterns, matches)
  {
    hide Fit, Plain, Components, Collected, Hit, Gathered, Exactly;
    matches, order := [], [];
    var todo := patterns;
    NothingYet(m, t);
    assert patterns - todo == {};
    while todo != {}
      invariant todo <= patterns && Lists(order, patterns - todo)
      invariant matches == Gathered(m, t, order) && Exactly(m, t, patterns - todo, matches)
      decreases |todo|
    {
      var e :| e in todo;
      GatheredMore(m, t, order, e);
      OneMoreIs(patterns, todo, e);
      var more := FindPattern(m, t, e, matches);
      OneMore(m, t, patterns - todo, e, matches, Collected(m, t, e));
      matches, todo, order := more, todo - {e}, order + [e];
    }
    assert patterns - todo == patterns;
  }

  lemma OneMoreIs(patterns: set<string>, todo: set<string>, e: string)
    requires todo <= patterns && e in todo
    ensures patterns - (todo - {e}) == patterns - todo + {e} && |patterns - todo + {e}| == |patterns - todo| + 1
  {
  }

  /** Each pattern is walked for once, in some order; the texts found are sorted; and they are exactly
      the reports of what matches one of the patterns that the braces stand for. */
  method Find(m: Matcher, t: Tree, pattern: string) returns (found: seq<string>, ghost order: seq<string>)
    requires Fit(m, t)
    requires forall e :: e in Braces.Expand(pattern) ==> Plain(Components(e))
    ensures SeqSort.Sorted(found, StrCmp)
    ensures pattern == "" ==> found == []
    ensures pattern != "" ==> Lists(order, Braces.Expand(pattern)) && multiset(found) == multiset(Gathered(m, t, order))
    ensures pattern != "" ==> Exactly(m, t, Braces.Expand(pattern), found)
  {
    hide Fit, Plain, Components, Gathered, Exactly, Lists, Braces.Expand;
    if pattern == "" {
      return [], [];
    }
    var expanded := Braces.ExpandBraces(pattern, {});
    assert expanded == Braces.Expand(pattern);
    var matches;
    matches, order := FindAll(m, t, expanded);
    found := SortTexts(matches);
    SameTexts(m, t, expanded, matches, found);
  }

  /** With the text of nested alternatives as the pattern: what is found is what matches one of the
      strings that they stand for. */
  method FindNested(m: Matcher, t: Tree, p: Braces.Pat) returns (found: seq<string>)
    requires Fit(m, t) && Braces.Proper(p, false)
    requires forall e :: Braces.Means(p, e) ==> Plain(Components(e))
    ensures SeqSort.Sorted(found, StrCmp)
    ensures Braces.Text(p) == "" ==> found == []
    ensures Braces.Text(p) != "" ==> forall r :: r in found <==> exists e :: Braces.Means(p, e) && Hit(m, t, e, r)
  {
    hide Fit, Plain, Components, Hit, Lists, Braces.Expand, Braces.Means, Braces.Text, Braces.Proper;
    forall e ensures e in Braces.Expand(Braces.Text(p)) <==> Braces.Means(p, e) {
      Braces.ExpandMeans(p, e);
    }
    ghost var order;
    found, order := Find(m, t, Braces.Text(p));
  }
}
