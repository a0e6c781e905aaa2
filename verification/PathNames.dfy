/**
 Path names (fs/name_inode.c:212-315): get_last_dir resolves every component that is
 followed by a slash, get_last_name scans the same string independently for the rest.
 */
module PathNames {
  import opened Basics

  /** Directory lookups: a directory and a name give an inode number, or nothing. */
  type Tree = map<(nat, string), nat>

  const SLASH: char := '/'

  function Find(tree: Tree, dir: nat, name: string): Option<nat> {
    if (dir, name) in tree then Some(tree[(dir, name)]) else None
  }

  /** Looks the names up one after the other. */
  function Resolve(tree: Tree, dir: nat, names: seq<string>): Option<nat>
    decreases |names|
  {
    if names == [] then Some(dir) else
    match Find(tree, dir, names[0])
    case None => None
    case Some(d) => Resolve(tree, d, names[1..])
  }

  predicate NoSlash(s: string) {
    forall i :: 0 <= i < |s| ==> s[i] != SLASH
  }

  /** The components of a string: what lies between its slashes. */
  function Split(s: string): (parts: seq<string>)
    ensures parts != [] && forall i :: 0 <= i < |parts| ==> NoSlash(parts[i])
  {
    if s == [] then [[]] else
    var rest := Split(s[1..]);
    if s[0] == SLASH then [[]] + rest else [[s[0]] + rest[0]] + rest[1..]
  }

  /** A path from its components: each is preceded by a slash. */
  function Join(names: seq<string>): string {
    if names == [] then [] else [SLASH] + names[0] + Join(names[1..])
  }

  lemma {:induction false} SplitNoSlash(s: string)
    requires NoSlash(s)
    ensures Split(s) == [s]
  {
    if s != [] {
      SplitNoSlash(s[1..]);
      assert [s[0]] + s[1..] == s;
      assert [s] + [s[1..]][1..] == [s];
    }
  }

  lemma {:induction false} SplitAtSlash(a: string, b: string)
    requires NoSlash(a)
    ensures Split(a + [SLASH] + b) == [a] + Split(b)
  {
    var s := a + [SLASH] + b;
    if a == [] {
      assert s[1..] == b;
    } else {
      assert s[1..] == a[1..] + [SLASH] + b;
      SplitAtSlash(a[1..], b);
      assert ([a[1..]] + Split(b))[1..] == Split(b);
      assert [a[0]] + a[1..] == a;
    }
  }

  /** Splitting the body of a joined path gives its components back. */
  lemma {:induction false} SplitJoin(names: seq<string>)
    requires names != [] && forall i :: 0 <= i < |names| ==> NoSlash(names[i])
    ensures Join(names)[0] == SLASH && Split(Join(names)[1..]) == names
  {
    var body, rest := Join(names)[1..], Join(names[1..]);
    assert body == names[0] + rest;
    if |names| == 1 {
      assert body == names[0];
      SplitNoSlash(names[0]);
    } else {
      SplitJoin(names[1..]);
      assert rest == [SLASH] + rest[1..];
      assert body == names[0] + [SLASH] + rest[1..];
      SplitAtSlash(names[0], rest[1..]);
    }
  }

  lemma {:induction false} ResolveAppend(tree: Tree, dir: nat, a: seq<string>, b: seq<string>)
    ensures Resolve(tree, dir, a + b) ==
      match Resolve(tree, dir, a) case None => None case Some(d) => Resolve(tree, d, b)
    decreases |a|
  {
    if a == [] {
      assert a + b == b;
    } else {
      assert (a + b)[1..] == a[1..] + b;
      match Find(tree, dir, a[0])
      case None =>
      case Some(d) => ResolveAppend(tree, d, a[1..], b);
    }
  }

  /** A scanner at p inside a component that starts at a, with the components before it in done. */
  ghost predicate Scanned(s: string, done: seq<string>, a: nat, p: nat) {
    a <= p <= |s| && NoSlash(s[a..p]) && Split(s) == done + Split(s[a..])
  }

  lemma ScanStart(s: string)
    ensures Scanned(s, [], 0, 0)
  {
    assert s[0..] == s;
  }

  lemma ScanChar(s: string, done: seq<string>, a: nat, p: nat)
    requires Scanned(s, done, a, p) && p < |s| && s[p] != SLASH
    ensures Scanned(s, done, a, p + 1)
  {
    assert s[a..p + 1] == s[a..p] + [s[p]];
  }

  lemma ScanSlash(s: string, done: seq<string>, a: nat, p: nat)
    requires Scanned(s, done, a, p) && p < |s| && s[p] == SLASH
    ensures Scanned(s, done + [s[a..p]], p + 1, p + 1)
    ensures Split(s) == done + [s[a..p]] + Split(s[p + 1..])
  {
    CutAtSlash(s, a, p);
    ConsAssoc(done, s[a..p], Split(s[p + 1..]));
    assert s[p + 1..p + 1] == [];
  }

  lemma CutAtSlash(s: string, a: nat, p: nat)
    requires a <= p < |s| && NoSlash(s[a..p]) && s[p] == SLASH
    ensures Split(s[a..]) == [s[a..p]] + Split(s[p + 1..])
  {
    assert s[a..] == s[a..p] + [SLASH] + s[p + 1..];
    SplitAtSlash(s[a..p], s[p + 1..]);
  }

  lemma ConsAssoc(done: seq<string>, name: string, rest: seq<string>)
    ensures done + ([name] + rest) == done + [name] + rest
  {
  }

  lemma ScanEnd(s: string, done: seq<string>, a: nat)
    requires Scanned(s, done, a, |s|)
    ensures Split(s) == done + [s[a..]] && Init(Split(s)) == done && Last(Split(s)) == s[a..]
  {
    assert s[a..|s|] == s[a..];
    SplitNoSlash(s[a..]);
  }

  function Init(parts: seq<string>): seq<string>
    requires parts != []
  {
    parts[..|parts| - 1]
  }

  function Last(parts: seq<string>): string
    requires parts != []
  {
    parts[|parts| - 1]
  }

  /** The part of a path the components are read from, and the directory they start in. */
  function Body(path: string): string {
    if path != [] && path[0] == SLASH then path[1..] else path
  }

  function StartDir(path: string, root: nat, pwd: nat): nat {
    if path != [] && path[0] == SLASH then root else pwd
  }

  /**
   get_last_dir (lines 212-281) on any path, absolute or relative, with or without empty
   components: all components but the last are looked up in order.
   */
  method GetLastDir(path: string, root: nat, pwd: nat, tree: Tree) returns (dir: Option<nat>)
    ensures path != [] && path[0] == SLASH ==> dir == Resolve(tree, root, Init(Split(path[1..])))
    ensures path == [] || path[0] != SLASH ==> dir == Resolve(tree, pwd, Init(Split(path)))
  {
    var s, inode := Body(path), StartDir(path, root, pwd);
    ghost var start, done: seq<string> := inode, [];
    var thisname, p := 0, 0;
    ScanStart(s);
    while p < |s|
      invariant Scanned(s, done, thisname, p)
      invariant Resolve(tree, start, done) == Some(inode)
    {
      if s[p] != SLASH {
        ScanChar(s, done, thisname, p);
        p := p + 1;
        continue;
      }
      var name := s[thisname..p];
      ScanSlash(s, done, thisname, p);
      p := p + 1;
      StepInto(tree, start, done, inode, name, Split(s[p..]));
      match Find(tree, inode, name)
      case None => return None;
      case Some(nr) =>
        inode := nr;
        done := done + [name];
        thisname := p;
    }
    ScanEnd(s, done, thisname);
    return Some(inode);
  }

  lemma StepInto(tree: Tree, start: nat, done: seq<string>, inode: nat, name: string, rest: seq<string>)
    requires Resolve(tree, start, done) == Some(inode) && rest != []
    ensures match Find(tree, inode, name)
      case Some(d) => Resolve(tree, start, done + [name]) == Some(d)
      case None => Resolve(tree, start, Init(done + [name] + rest)) == None
  {
    ResolveAppend(tree, start, done, [name]);
    assert Resolve(tree, inode, [name]) == Find(tree, inode, name) by {
      if (inode, name) in tree {
        assert [name][1..] == [];
      }
    }
    ResolveAppend(tree, start, done + [name], Init(rest));
    assert Init(done + [name] + rest) == done + [name] + Init(rest);
  }

  /** The length of the run of slashes that ends right before position i. */
  function SlashesBefore(s: string, i: nat): nat
    requires i <= |s|
  {
    if i == 0 || s[i - 1] != SLASH then 0 else 1 + SlashesBefore(s, i - 1)
  }

  /** What follows the last slash is the last component. */
  lemma {:induction false} AfterLastSlash(s: string, a: nat)
    requires a <= |s| && NoSlash(s[a..]) && (a == 0 || s[a - 1] == SLASH)
    ensures Last(Split(s)) == s[a..] && (a > 0 ==> |Split(s)| > 1)
  {
    if a == 0 {
      assert s[0..] == s;
      SplitNoSlash(s);
    } else {
      assert s[1..][a - 1..] == s[a..];
      AfterLastSlash(s[1..], a - 1);
    }
  }

  /** Where the last component of s starts. */
  function LastStart(s: string): nat {
    if |Last(Split(s))| <= |s| then |s| - |Last(Split(s))| else 0
  }

  /** The name starts at tmp as far as the characters before p tell. */
  predicate NameScan(s: string, tmp: nat, p: nat) {
    && p <= |s| && SlashesBefore(s, p) % 2 == 0
    && (tmp == 0 ==> NoSlash(s[..p]))
    && (tmp > 0 ==> tmp < p && SlashesBefore(s, tmp) % 2 == 1 && NoSlash(s[tmp + 1..p]))
  }

  lemma NameScanStep(s: string, tmp: nat, p: nat)
    requires NameScan(s, tmp, p) && p < |s| && SlashesBefore(s, |s|) % 2 == 0
    ensures if s[p] == SLASH then NameScan(s, p + 1, p + 2) else NameScan(s, tmp, p + 1)
  {
    if s[p] == SLASH {
      assert SlashesBefore(s, p + 1) == SlashesBefore(s, p) + 1;
      assert s[p + 2..p + 2] == [];
    } else if tmp == 0 {
      assert s[..p + 1] == s[..p] + [s[p]];
    } else {
      assert s[tmp + 1..p + 1] == s[tmp + 1..p] + [s[p]];
    }
  }

  /** A component of the part behind the first character starts with it or after an odd run of slashes. */
  predicate OddRun(s: string) {
    LastStart(s) == 0 || SlashesBefore(s, LastStart(s)) % 2 == 1
  }

  /**
   get_last_name (lines 283-306) on every path it reads to the end of.  The first character is
   skipped whatever it is, and behind a slash the next character is not looked at, so only every
   other slash of a run counts.  The last component, as get_last_dir splits the path, comes out
   if and only if the path has a slash at its front or somewhere behind it and the last
   component has an odd number of slashes before it, or none behind the first character.  (A path
   that ends in an odd number of slashes is read past its end.)
   */
  method GetLastName(path: string) returns (name: string)
    requires path != [] && SlashesBefore(path[1..], |path| - 1) % 2 == 0
    ensures name == Last(Split(Body(path))) <==> (path[0] == SLASH || SLASH in path[1..]) && OddRun(path[1..])
    ensures name == if OddRun(path[1..]) then Last(Split(path[1..])) else [SLASH] + Last(Split(path[1..]))
  {
    var s := path[1..];
    var tmp, p := 0, 0;
    while p < |s|
      invariant NameScan(s, tmp, p)
    {
      NameScanStep(s, tmp, p);
      if s[p] == SLASH {
        p := p + 1;
        tmp := p;
      }
      p := p + 1;
    }
    assert s[..p] == s && (tmp > 0 ==> s[tmp + 1..p] == s[tmp + 1..]);
    name := s[tmp..];
    LastOfScan(s, tmp);
    LastOfBody(path);
  }

  /** Skipping the first character keeps the last component, unless that is the whole path. */
  lemma LastOfBody(path: string)
    requires path != []
    ensures path[0] == SLASH || SLASH in path[1..] ==> Last(Split(Body(path))) == Last(Split(path[1..]))
    ensures !(path[0] == SLASH || SLASH in path[1..]) ==>
      Last(Split(Body(path))) == path && Last(Split(path[1..])) == path[1..] && LastStart(path[1..]) == 0
  {
    var s := path[1..];
    if path[0] == SLASH {
    } else if SLASH in s {
      var k := LastSlash(s);
      AfterLastSlash(s, k + 1);
      assert path[k + 2..] == s[k + 1..] && path[k + 1] == s[k];
      AfterLastSlash(path, k + 2);
    } else {
      SplitNoSlash(s);
      SplitNoSlash(path);
    }
  }

  /** The position of the last slash. */
  function LastSlash(s: string): (k: nat)
    requires SLASH in s
    ensures k < |s| && s[k] == SLASH && NoSlash(s[k + 1..])
  {
    var n := |s| - 1;
    if s[n] == SLASH then n
    else
      assert s == s[..n] + [s[n]];
      var k := LastSlash(s[..n]);
      assert s[k + 1..] == s[..n][k + 1..] + [s[n]];
      k
  }

  /** Where the scan leaves the string, position |s| being the terminator. */
  function ScanFrom(s: string, p: nat): nat
    decreases |s| + 2 - p
  {
    if p >= |s| then p else ScanFrom(s, if s[p] == SLASH then p + 2 else p + 1)
  }

  /** It stops at the terminator if and only if the path ends in an even number of slashes, or one past it. */
  lemma {:induction false} ScanEndExact(s: string, p: nat)
    requires p <= |s| && SlashesBefore(s, p) % 2 == 0
    ensures ScanFrom(s, p) == |s| + SlashesBefore(s, |s|) % 2
    decreases |s| - p
  {
    if p < |s| {
      if s[p] != SLASH {
        ScanEndExact(s, p + 1);
      } else {
        assert SlashesBefore(s, p + 1) == SlashesBefore(s, p) + 1;
        if p + 1 < |s| { ScanEndExact(s, p + 2); }
      }
    }
  }

  /** Where the scan stops: at the last component, or one slash before it. */
  lemma LastOfScan(s: string, tmp: nat)
    requires tmp == 0 ==> NoSlash(s)
    requires tmp > 0 ==> tmp < |s| && SlashesBefore(s, tmp) % 2 == 1 && NoSlash(s[tmp + 1..])
    ensures tmp <= |s|
    ensures s[tmp..] == if OddRun(s) then Last(Split(s)) else [SLASH] + Last(Split(s))
  {
    if tmp == 0 {
      AfterLastSlash(s, 0);
    } else if s[tmp] == SLASH {
      AfterLastSlash(s, tmp + 1);
      assert s[tmp..] == [SLASH] + s[tmp + 1..];
      assert SlashesBefore(s, tmp + 1) == SlashesBefore(s, tmp) + 1;
    } else {
      assert NoSlash(s[tmp..]);
      AfterLastSlash(s, tmp);
    }
  }

  /** For "foo" the first scanner leaves the component "foo", the second returns "oo". */
  lemma RelativeNameExample()
    ensures Body("foo") == "foo" && Last(Split(Body("foo"))) == "foo"
    ensures OddRun("foo"[1..]) && Last(Split("foo"[1..])) == "oo"
  {
    assert "foo"[1..] == "oo";
    SplitNoSlash("foo");
    SplitNoSlash("oo");
  }

  /** For the path "/a//b" the second scanner returns "/b". */
  lemma EmptyPartExample()
    ensures Last(Split("a//b")) == "b" && LastStart("a//b") == 3 && SlashesBefore("a//b", 3) == 2
  {
    AfterLastSlash("a//b", 3);
    assert "a//b"[3..] == "b";
    assert SlashesBefore("a//b", 1) == 0;
  }

  /** Every slash behind the first character is followed by a character that is no slash. */
  predicate NoEmptyPart(path: string) {
    path != [] && forall i :: 1 <= i < |path| && path[i] == SLASH ==> i + 1 < |path| && path[i + 1] != SLASH
  }

  /** Without empty components the two scanners agree. */
  lemma ScannersAgree(path: string)
    requires NoEmptyPart(path)
    ensures SlashesBefore(path[1..], |path| - 1) % 2 == 0 && OddRun(path[1..])
  {
    var s := path[1..];
    assert |s| > 0 ==> path[|s|] == s[|s| - 1] != SLASH;
    if SLASH in s {
      var k := LastSlash(s);
      assert path[k + 1] == SLASH && (k > 0 ==> path[k] == s[k - 1] != SLASH);
      SingleSlash(s, k);
    } else {
      NoSlashAtAll(s);
    }
  }

  /** One slash before the last component. */
  lemma SingleSlash(s: string, k: nat)
    requires k < |s| && s[k] == SLASH && NoSlash(s[k + 1..]) && (k > 0 ==> s[k - 1] != SLASH)
    ensures OddRun(s)
  {
    AfterLastSlash(s, k + 1);
    assert SlashesBefore(s, k + 1) == 1;
  }

  lemma NoSlashAtAll(s: string)
    requires SLASH !in s
    ensures OddRun(s)
  {
    SplitNoSlash(s);
  }

  lemma JoinHasNoEmptyPart(names: seq<string>)
    requires names != [] && forall i :: 0 <= i < |names| ==> NoSlash(names[i]) && names[i] != []
    ensures NoEmptyPart(Join(names))
  {
    forall i | 1 <= i < |Join(names)| && Join(names)[i] == SLASH
      ensures i + 1 < |Join(names)| && Join(names)[i + 1] != SLASH
    {
      SlashInJoin(names, i);
    }
  }

  lemma {:induction false} SlashInJoin(names: seq<string>, i: nat)
    requires forall i :: 0 <= i < |names| ==> NoSlash(names[i]) && names[i] != []
    requires i < |Join(names)| && Join(names)[i] == SLASH
    ensures i + 1 < |Join(names)| && Join(names)[i + 1] != SLASH
  {
    var n, rest := names[0], Join(names[1..]);
    var j := Join(names);
    assert j == [SLASH] + n + rest;
    if i == 0 {
      assert j[1] == n[0];
    } else {
      assert forall k :: 1 <= k <= |n| ==> j[k] == n[k - 1];
      assert j[i] == rest[i - 1 - |n|];
      SlashInJoin(names[1..], i - 1 - |n|);
      assert j[i + 1] == rest[i - |n|];
    }
  }

  /**
   dir_namei (lines 309-315): for an absolute path of n >= 1 components the two scanners agree;
   there is no directory exactly when one of the first n - 1 lookups fails.
   */
  method DirNamei(ghost names: seq<string>, path: string, root: nat, pwd: nat, tree: Tree)
    returns (dir: Option<nat>, name: string)
    requires names != [] && path == Join(names)
    requires forall i :: 0 <= i < |names| ==> NoSlash(names[i]) && names[i] != []
    ensures name == Last(names) && dir == Resolve(tree, root, Init(names))
    ensures dir == None <==> exists i :: 0 <= i < |names| - 1 && LookupFails(tree, root, names, i)
  {
    SplitJoin(names);
    JoinHasNoEmptyPart(names);
    dir := GetLastDir(path, root, pwd, tree);
    ScannersAgree(path);
    name := GetLastName(path);
    FailsSomewhere(tree, root, names, |names| - 1);
  }

  /**
   For a relative path of n >= 2 components the lookups start in the working directory and the
   name is the last component; a single component loses its first character.
   */
  method DirNameiRelative(ghost names: seq<string>, path: string, root: nat, pwd: nat, tree: Tree)
    returns (dir: Option<nat>, name: string)
    requires names != [] && path == Join(names)[1..]
    requires forall i :: 0 <= i < |names| ==> NoSlash(names[i]) && names[i] != []
    ensures dir == Resolve(tree, pwd, Init(names))
    ensures name == if |names| >= 2 then Last(names) else names[0][1..]
    ensures dir == None <==> exists i :: 0 <= i < |names| - 1 && LookupFails(tree, pwd, names, i)
  {
    SplitJoin(names);
    JoinHasNoEmptyPart(names);
    RelativeShape(names, path);
    dir := GetLastDir(path, root, pwd, tree);
    name := RelativeName(names, path);
    FailsSomewhere(tree, pwd, names, |names| - 1);
  }

  method RelativeName(ghost names: seq<string>, path: string) returns (name: string)
    requires path != [] && path[0] != SLASH && NoEmptyPart(path) && names != [] && Split(path) == names
    requires |names| >= 2 ==> SLASH in path[1..]
    requires |names| == 1 ==> path == names[0] && SLASH !in path[1..]
    ensures name == if |names| >= 2 then Last(names) else names[0][1..]
  {
    RelativeLast(names, path);
    name := GetLastName(path);
  }

  lemma RelativeLast(names: seq<string>, path: string)
    requires path != [] && path[0] != SLASH && NoEmptyPart(path) && names != [] && Split(path) == names
    requires |names| >= 2 ==> SLASH in path[1..]
    requires |names| == 1 ==> path == names[0] && SLASH !in path[1..]
    ensures SlashesBefore(path[1..], |path| - 1) % 2 == 0 && OddRun(path[1..])
    ensures Last(Split(path[1..])) == if |names| >= 2 then Last(names) else names[0][1..]
  {
    ScannersAgree(path);
    LastOfBody(path);
    assert Body(path) == path;
  }

  lemma RelativeShape(names: seq<string>, path: string)
    requires names != [] && path == Join(names)[1..] && NoEmptyPart(Join(names))
    requires forall i :: 0 <= i < |names| ==> NoSlash(names[i]) && names[i] != []
    ensures path != [] && path[0] != SLASH && NoEmptyPart(path)
    ensures |names| >= 2 ==> SLASH in path[1..]
    ensures |names| == 1 ==> path == names[0] && SLASH !in path[1..]
  {
    var n, rest := names[0], Join(names[1..]);
    JoinTail(names);
    assert path[0] == n[0];
    TailShape(Join(names));
    if |names| >= 2 {
      JoinFront(names[1..]);
      SlashBehind(n, rest);
    } else {
      assert rest == [];
    }
  }

  lemma JoinTail(names: seq<string>)
    requires names != []
    ensures Join(names) == [SLASH] + names[0] + Join(names[1..]) && Join(names)[1..] == names[0] + Join(names[1..])
  {
  }

  lemma JoinFront(names: seq<string>)
    requires names != []
    ensures Join(names) != [] && Join(names)[0] == SLASH
  {
  }

  lemma SlashBehind(n: string, rest: string)
    requires n != [] && rest != [] && rest[0] == SLASH
    ensures SLASH in (n + rest)[1..]
  {
    assert (n + rest)[1..][|n| - 1] == SLASH;
  }

  lemma TailShape(j: string)
    requires NoEmptyPart(j) && |j| > 1
    ensures NoEmptyPart(j[1..])
  {
    forall i | 1 <= i < |j[1..]| && j[1..][i] == SLASH ensures i + 1 < |j[1..]| && j[1..][i + 1] != SLASH {
      assert j[i + 1] == SLASH;
    }
  }

  /** Two lookups in a row. */
  lemma ResolveExample()
    ensures Resolve(map[(5, "a") := 7, (7, "b") := 9, (5, "b") := 3], 5, ["a", "b"]) == Some(9)
  {
    assert ["a", "b"][1..] == ["b"] && ["b"][1..] == [];
  }

  /** The first i lookups succeed and the next one fails. */
  ghost predicate LookupFails(tree: Tree, root: nat, names: seq<string>, i: nat)
    requires i < |names|
  {
    Resolve(tree, root, names[..i]) != None && Find(tree, Resolve(tree, root, names[..i]).value, names[i]) == None
  }

  lemma {:induction false} FailsSomewhere(tree: Tree, root: nat, names: seq<string>, n: nat)
    requires n <= |names|
    ensures Resolve(tree, root, names[..n]) == None <==> exists i :: 0 <= i < n && LookupFails(tree, root, names, i)
  {
    if n > 0 {
      FailsSomewhere(tree, root, names, n - 1);
      assert names[..n] == names[..n - 1] + [names[n - 1]];
      ResolveAppend(tree, root, names[..n - 1], [names[n - 1]]);
      if Resolve(tree, root, names[..n - 1]) != None {
        var d := Resolve(tree, root, names[..n - 1]).value;
        assert Resolve(tree, d, [names[n - 1]]) == Find(tree, d, names[n - 1]) by {
          if (d, names[n - 1]) in tree { assert [names[n - 1]][1..] == []; }
        }
        if Find(tree, d, names[n - 1]) == None {
          assert LookupFails(tree, root, names, n - 1);
        }
      }
    }
  }
}
