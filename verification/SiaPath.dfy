/** SiaPaths as strings, and the component lists they stand for. */
module SiaPath {
  import opened Bytes

  /** strings.Split(s, "/"). */
  function Split(s: string): (cs: seq<string>)
    ensures |cs| > 0
  {
    if s == "" then [""]
    else
      var rest := Split(s[1..]);
      if s[0] == '/' then [""] + rest else [[s[0]] + rest[0]] + rest[1..]
  }

  /** strings.Join(cs, "/"). */
  function JoinAll(cs: seq<string>): string
    requires |cs| > 0
  {
    if |cs| == 1 then cs[0] else cs[0] + "/" + JoinAll(cs[1..])
  }

  lemma SplitNext(s: string, x: char, t: string)
    requires s == [x] + t
    ensures Split(s) == if x == '/' then [""] + Split(t) else [[x] + Split(t)[0]] + Split(t)[1..]
  {
    assert s[0] == x && s[1..] == t;
  }

  lemma {:induction false} NoSlashInside(s: string)
    ensures forall c :: c in Split(s) ==> '/' !in c
  {
    if s != "" {
      NoSlashInside(s[1..]);
      var rest := Split(s[1..]);
      assert rest[0] in rest;
    }
  }

  lemma JoinNext(c: string, cs: seq<string>)
    ensures JoinAll([c] + cs) == if cs == [] then c else c + "/" + JoinAll(cs)
  {
    assert ([c] + cs)[1..] == cs;
  }

  lemma JoinFirst(x: string, c: string, cs: seq<string>)
    ensures JoinAll([x + c] + cs) == x + JoinAll([c] + cs)
  {
    hide JoinAll;
    JoinNext(x + c, cs);
    JoinNext(c, cs);
    if cs != [] {
      assert x + c + "/" + JoinAll(cs) == x + (c + "/" + JoinAll(cs));
    }
  }

  lemma {:induction false} JoinSplit(s: string)
    ensures JoinAll(Split(s)) == s
  {
    hide Split, JoinAll;
    if s == "" {
      SplitPlain(s);
      JoinNext("", []);
      assert [""] + [] == [""];
    } else {
      JoinSplit(s[1..]);
      var rest := Split(s[1..]);
      SplitNext(s, s[0], s[1..]);
      assert s == [s[0]] + s[1..];
      if s[0] == '/' {
        JoinNext("", rest);
        assert "" + "/" + s[1..] == s;
      } else {
        JoinFirst([s[0]], rest[0], rest[1..]);
        assert [rest[0]] + rest[1..] == rest;
      }
    }
  }

  lemma Regroup(x: char, cs: seq<string>, ds: seq<string>)
    requires |cs| > 0
    ensures (if x == '/' then [""] + (cs + ds) else [[x] + (cs + ds)[0]] + (cs + ds)[1..])
            == (if x == '/' then [""] + cs else [[x] + cs[0]] + cs[1..]) + ds
  {
    assert (cs + ds)[1..] == cs[1..] + ds;
  }

  /** Splitting at a slash splits the components. */
  lemma {:induction false} SplitAtSlash(a: string, b: string)
    ensures Split(a + "/" + b) == Split(a) + Split(b)
  {
    hide Split;
    if a == "" {
      SplitPlain(a);
      assert a + "/" + b == ['/'] + b;
      SplitNext(a + "/" + b, '/', b);
    } else {
      SplitAtSlash(a[1..], b);
      assert a == [a[0]] + a[1..] && a + "/" + b == [a[0]] + (a[1..] + "/" + b);
      SplitNext(a, a[0], a[1..]);
      SplitNext(a + "/" + b, a[0], a[1..] + "/" + b);
      Regroup(a[0], Split(a[1..]), Split(b));
    }
  }

  lemma {:induction false} SplitPlain(c: string)
    requires '/' !in c
    ensures Split(c) == [c]
  {
    if c != "" {
      SplitPlain(c[1..]);
      assert [c[0]] + c[1..] == c;
    }
  }

  /** Splitting undoes joining, for components without slashes. */
  lemma {:induction false} SplitJoin(cs: seq<string>)
    requires |cs| > 0 && forall c :: c in cs ==> '/' !in c
    ensures Split(JoinAll(cs)) == cs
  {
    hide Split, JoinAll;
    assert cs == [cs[0]] + cs[1..];
    JoinNext(cs[0], cs[1..]);
    SplitPlain(cs[0]);
    if |cs| > 1 {
      SplitJoin(cs[1..]);
      SplitAtSlash(cs[0], JoinAll(cs[1..]));
    }
  }

  // ----- Validation ------------------------------------------------------------------------

  predicate LegalComponent(c: string) {
    c != "" && c != "." && c != ".." && '/' !in c
  }

  predicate AllLegal(cs: seq<string>) {
    forall c :: c in cs ==> LegalComponent(c)
  }

  /** A valid path that is not the root. */
  predicate Legal(path: string) {
    AllLegal(Split(path))
  }

  /** A valid path, or the root. */
  predicate LegalOrRoot(path: string) {
    path == "" || Legal(path)
  }

  /** The components that a path stands for; the root has none. */
  function Components(path: string): seq<string> {
    if path == "" then [] else Split(path)
  }

  datatype PathError = EmptyPath | Dots | LeadingSlash | LeadingDots | DotElement | DoubleSlash

  lemma FirstElement(path: string, first: string, rest: string)
    requires path == first + rest && '/' !in first && (rest == "" || rest[0] == '/')
    ensures Split(path)[0] == first
  {
    if rest == "" {
      assert path == first;
      SplitPlain(first);
    } else {
      assert path == first + "/" + rest[1..];
      SplitAtSlash(first, rest[1..]);
      SplitPlain(first);
    }
  }

  lemma ElementsInside(path: string)
    ensures Split("") == [""]
    ensures path != "" && path[0] != '/' ==> Split(path)[0] != ""
    ensures path != "" && path[0] == '/' ==> Split(path)[0] == ""
    ensures path == "." || path == ".." ==> Split(path)[0] == path
    ensures "../" <= path ==> Split(path)[0] == ".."
    ensures "./" <= path ==> Split(path)[0] == "."
  {
    if path == "." || path == ".." {
      SplitPlain(path);
    }
    if "../" <= path {
      assert path == ".." + path[2..];
      FirstElement(path, "..", path[2..]);
    }
    if "./" <= path {
      assert path == "." + path[1..];
      FirstElement(path, ".", path[1..]);
    }
  }

  /** validatePath accepts exactly the joins of legal components, and the root if it is allowed. */
  method ValidatePath(path: string, isRoot: bool) returns (error: Option<PathError>)
    ensures error == None <==> Legal(path) || (path == "" && isRoot)
    ensures path == "" && !isRoot ==> error == Some(EmptyPath)
  {
    hide Split;
    ElementsInside(path);
    var elems := Split(path);
    assert elems[0] in elems;
    if path == "" && !isRoot {
      return Some(EmptyPath);
    }
    if path == ".." || path == "." {
      return Some(Dots);
    }
    if "/" <= path {
      return Some(LeadingSlash);
    }
    if "../" <= path || "./" <= path {
      return Some(LeadingDots);
    }
    var prevElem := "";
    for i := 0 to |elems|
      invariant path != "" ==> forall c :: c in elems[..i] ==> c != "" && c != "." && c != ".."
      invariant if i == 0 then prevElem == "" else prevElem == elems[i - 1]
    {
      var pathElem := elems[i];
      assert pathElem in elems && (i > 0 ==> prevElem in elems);
      assert "/"[0] == '/';
      if pathElem == "." || pathElem == ".." {
        return Some(DotElement);
      }
      if prevElem != "" && pathElem == "" {
        return Some(EmptyPath);
      }
      if prevElem == "/" || pathElem == "/" {
        return Some(DoubleSlash);
      }
      assert path != "" && i > 0 ==> elems[i - 1] in elems[..i];
      assert elems[..i + 1] == elems[..i] + [pathElem];
      prevElem := pathElem;
    }
    assert elems[..|elems|] == elems;
    NoSlashInside(path);
    return None;
  }

  // ----- Operations ------------------------------------------------------------------------

  function TrimPrefix(s: string, prefix: string): string {
    if prefix <= s then s[|prefix|..] else s
  }

  function TrimSlash(s: string): string {
    if s != "" && s[|s| - 1] == '/' then s[..|s| - 1] else s
  }

  /** clean, where slashes separate paths. */
  function Clean(s: string): string {
    TrimSlash(TrimPrefix(s, "/"))
  }

  method NewSiaPath(s: string) returns (path: Option<string>)
    ensures path == New(s)
  {
    var error := ValidatePath(Clean(s), false);
    path := if error == None then Some(Clean(s)) else None;
    RootIsNotLegal();
  }

  lemma RootIsNotLegal()
    ensures !Legal("")
  {
    assert Split("")[0] == "" && "" in Split("");
  }

  function New(s: string): Option<string> {
    if Legal(Clean(s)) then Some(Clean(s)) else None
  }

  function Join(path: string, s: string): Option<string> {
    if s == "" || Clean(s) == "" then None else New(path + "/" + Clean(s))
  }

  function Dir(path: string): Option<string> {
    var elems := Split(path);
    if |elems| <= 1 then Some("")
    else
      var dir := JoinAll(elems[..|elems| - 1]);
      if dir == "" || dir == "." then Some("") else New(dir)
  }

  function Name(path: string): string {
    var elems := Split(path);
    var name := elems[|elems| - 1];
    if name == "." then "" else name
  }

  function Slashes(s: string): nat {
    if s == "" then 0 else (if s[0] == '/' then 1 else 0) + Slashes(s[1..])
  }

  function Depth(path: string): nat {
    if path == "" then 0 else 1 + Slashes(path)
  }

  function Rebase(path: string, oldBase: string, newBase: string): Option<string> {
    if !(oldBase <= path) then None
    else
      var relPath := TrimPrefix(path, oldBase);
      if relPath == "" then Some(newBase) else Join(newBase, relPath)
  }

  // ----- Refinement of component lists -----------------------------------------------------

  /** Legal paths and nonempty lists of legal components are the same thing. */
  lemma LegalPaths(path: string, cs: seq<string>)
    ensures Legal(path) ==> Components(path) != [] && path == JoinAll(Components(path)) && AllLegal(Components(path))
    ensures cs != [] && AllLegal(cs) ==> Legal(JoinAll(cs)) && Components(JoinAll(cs)) == cs
  {
    hide Split, JoinAll;
    RootIsNotLegal();
    JoinSplit(path);
    if cs != [] && AllLegal(cs) {
      SplitJoin(cs);
    }
  }

  lemma LegalAtSlash(a: string, b: string)
    ensures Legal(a + "/" + b) <==> Legal(a) && Legal(b)
  {
    hide Split, LegalComponent;
    SplitAtSlash(a, b);
    var x, y := Split(a), Split(b);
    if AllLegal(x + y) {
      forall c | c in x || c in y ensures LegalComponent(c) {
        assert c in x + y;
      }
    }
  }

  /** A legal path neither begins nor ends with a slash. */
  lemma {:induction false} NoSlashAtEnds(path: string)
    requires Legal(path)
    ensures path != "" && path[0] != '/' && path[|path| - 1] != '/'
    ensures Clean(path) == path && TrimSlash(path) == path
  {
    ElementsInside(path);
    RootIsNotLegal();
    assert Split(path)[0] in Split(path);
    var n := |path| - 1;
    if path[n] == '/' {
      assert path == path[..n] + "/" + "";
      LegalAtSlash(path[..n], "");
    }
  }

  lemma NotDots(path: string)
    requires Legal(path)
    ensures path != "." && path != ".."
  {
    SplitPlain(".");
    SplitPlain("..");
    assert "." in Split(".") && ".." in Split("..");
  }

  lemma TrimEnds(s: string, t: string)
    requires s != "" && s[0] != '/'
    ensures Clean(s + "/" + t) == if t == "" then s else s + "/" + TrimSlash(t)
    ensures Clean("/" + t) == TrimSlash(t)
  {
    var u := s + "/" + t;
    assert u[0] == s[0];
    assert ("/" + t)[1..] == t;
    if t == "" {
      assert u[..|u| - 1] == s;
    } else {
      assert u[|u| - 1] == t[|t| - 1];
      assert u[..|u| - 1] == s + "/" + t[..|t| - 1];
    }
  }

  lemma TrimNothing()
    ensures Clean("") == TrimSlash("") == ""
  {
  }

  /** Join appends the components of its argument, from which it strips one slash at the front and up to
      two at the end; it fails exactly if what is left is not a legal path. */
  lemma JoinAppends(path: string, s: string)
    requires LegalOrRoot(path)
    ensures var t := TrimSlash(Clean(s));
            && (Join(path, s).Some? <==> Legal(t))
            && (Legal(t) ==>
                  var joined := Join(path, s).value;
                  Legal(joined) && Components(joined) == Components(path) + Components(t))
  {
    hide Split, AllLegal, Clean, TrimSlash;
    TrimNothing();
    var c := Clean(s);
    var t := TrimSlash(c);
    RootIsNotLegal();
    TrimEnds("x", c);
    if path == "" {
      assert "" + "/" + c == "/" + c;
      assert Components(path) + Components(t) == Components(t);
    } else {
      NoSlashAtEnds(path);
      TrimEnds(path, c);
      LegalAtSlash(path, t);
      SplitAtSlash(path, t);
    }
  }

  /** NewSiaPath strips one slash at either end and accepts what is then a legal path. */
  lemma NewIff(s: string, path: string)
    ensures New(s) == Some(path) <==>
            Legal(path) && (s == path || s == "/" + path || s == path + "/" || s == "/" + path + "/")
  {
    hide Legal;
    if Legal(path) {
      NoSlashAtEnds(path);
      CleanForms(path);
    }
    if Legal(Clean(s)) {
      NoSlashAtEnds(Clean(s));
      FormsOfClean(s);
    }
  }

  lemma CleanForms(path: string)
    requires path != "" && path[0] != '/' && path[|path| - 1] != '/'
    ensures Clean(path) == Clean("/" + path) == Clean(path + "/") == Clean("/" + path + "/") == path
    ensures Clean(path + "//") == Clean("/" + path + "//") == path + "/" && TrimSlash(path) == path
  {
    var p := path + "/";
    assert p[0] == path[0] && p[..|p| - 1] == path;
    assert ("/" + path)[1..] == path && ("/" + path + "/")[1..] == p;
    var q := path + "//";
    assert q[0] == path[0] && q[..|q| - 1] == p && ("/" + path + "//")[1..] == q;
  }

  lemma FormsOfClean(s: string)
    ensures var c := Clean(s); s == c || s == "/" + c || s == c + "/" || s == "/" + c + "/"
  {
    var t := TrimPrefix(s, "/");
    assert s == t || s == "/" + t;
    var c := TrimSlash(t);
    assert t == c || t == c + "/";
  }

  /** What Join makes of its argument: one slash at the front and up to two at the end do not matter. */
  lemma JoinForms(path: string, s: string, t: string)
    requires Legal(t)
    requires s == t || s == t + "/" || s == t + "//"
    ensures Join(path, s) == Join(path, "/" + s) == Join(path, t)
  {
    hide Legal, Clean;
    NoSlashAtEnds(t);
    CleanForms(t);
    assert "/" + (t + "/") == "/" + t + "/" && "/" + (t + "//") == "/" + t + "//";
    JoinOfClean(path, s, t);
    JoinOfClean(path, "/" + s, t);
  }

  lemma JoinOfClean(path: string, s: string, t: string)
    requires t != "" && t[|t| - 1] != '/' && s != "" && Clean(t) == t
    requires Clean(s) == t || Clean(s) == t + "/"
    ensures Join(path, s) == Join(path, t)
  {
    hide Legal, Clean;
    TrimSlashes(path, t);
  }

  lemma TrimSlashes(path: string, t: string)
    requires t != "" && t[|t| - 1] != '/'
    ensures Clean(path + "/" + (t + "/")) == Clean(path + "/" + t)
  {
    var u := path + "/" + t;
    assert path + "/" + (t + "/") == u + "/";
    assert u[|u| - 1] == t[|t| - 1];
    var v, w := TrimPrefix(u, "/"), TrimPrefix(u + "/", "/");
    assert w == v + "/";
    assert w[..|w| - 1] == v;
  }

  /** Dir drops the last component and Name is the last one. */
  lemma DirAndName(path: string)
    requires Legal(path)
    ensures var cs := Components(path);
            && cs != [] && Dir(path).Some? && LegalOrRoot(Dir(path).value)
            && Components(Dir(path).value) == cs[..|cs| - 1]
            && Name(path) == cs[|cs| - 1]
  {
    hide Split, JoinAll;
    RootIsNotLegal();
    var cs := Components(path);
    assert cs[|cs| - 1] in cs;
    if |cs| > 1 {
      var front := cs[..|cs| - 1];
      assert forall c :: c in front ==> c in cs;
      LegalPaths(path, front);
      var dir := JoinAll(front);
      NoSlashAtEnds(dir);
      NotDots(dir);
    }
    NotDots(path);
  }

  /** Joining the name to the directory gives the path back. */
  lemma DirJoinName(path: string)
    requires Legal(path)
    ensures Dir(path).Some? && Join(Dir(path).value, Name(path)) == Some(path)
  {
    hide Split, JoinAll, Dir, Name, Join;
    DirAndName(path);
    RootIsNotLegal();
    var cs, dir, name := Components(path), Dir(path).value, Name(path);
    assert name in cs;
    SplitPlain(name);
    NoSlashAtEnds(name);
    JoinAppends(dir, name);
    assert cs == cs[..|cs| - 1] + [name];
    LegalPaths(path, cs);
    LegalPaths(Join(dir, name).value, cs);
  }

  /** Depth is the number of components. */
  lemma {:induction false} DepthCounts(path: string)
    ensures |Split(path)| == 1 + Slashes(path)
    ensures Depth(path) == |Components(path)|
  {
    if path != "" {
      DepthCounts(path[1..]);
    }
  }

  /** The old base ends inside a component of the path. */
  predicate EndsInside(path: string, oldBase: string) {
    oldBase != "" && oldBase < path && path[|oldBase|] != '/'
  }

  lemma {:induction false} JoinAppend(cs: seq<string>, ds: seq<string>)
    requires |cs| > 0 && |ds| > 0
    ensures JoinAll(cs + ds) == JoinAll(cs) + "/" + JoinAll(ds)
  {
    hide JoinAll;
    var c, rest := cs[0], cs[1..];
    assert cs == [c] + rest && cs + ds == [c] + (rest + ds);
    JoinNext(c, rest);
    JoinNext(c, rest + ds);
    if rest == [] {
      assert rest + ds == ds;
    } else {
      JoinAppend(rest, ds);
      assert c + "/" + (JoinAll(rest) + "/" + JoinAll(ds)) == c + "/" + JoinAll(rest) + "/" + JoinAll(ds);
    }
  }

  /** A base in the sense of components is a string prefix that ends with a component. */
  lemma BaseIsPrefix(path: string, base: string)
    requires LegalOrRoot(path) && LegalOrRoot(base)
    ensures Components(base) <= Components(path) <==> base <= path && !EndsInside(path, base)
    ensures base != "" && base < path && !EndsInside(path, base) ==>
              var rest := path[|base| + 1..];
              path == base + "/" + rest && Legal(rest) && Components(path) == Components(base) + Components(rest)
  {
    hide Split, JoinAll;
    RootIsNotLegal();
    LegalPaths(path, []);
    LegalPaths(base, []);
    var cs, ds := Components(base), Components(path);
    if base != "" {
      if cs <= ds && |cs| < |ds| {
        assert ds == cs + ds[|cs|..];
        JoinAppend(cs, ds[|cs|..]);
        assert path == base + ("/" + JoinAll(ds[|cs|..]));
        assert base <= path && path[|base|] == '/';
      } else if cs <= ds {
        assert cs == ds;
      }
      if base <= path && |base| == |path| {
        assert base == path;
      } else if base < path && path[|base|] == '/' {
        var rest := path[|base| + 1..];
        assert path == base + "/" + rest;
        SplitAtSlash(base, rest);
        LegalAtSlash(base, rest);
      }
    }
  }

  /** Rebase replaces the components of the old base; but it also accepts an old base that ends inside a
      component, unless what is left of that component is one or two dots. */
  lemma RebaseIff(path: string, oldBase: string, newBase: string)
    requires LegalOrRoot(path) && LegalOrRoot(oldBase) && LegalOrRoot(newBase)
    ensures Rebase(path, oldBase, newBase).Some? <==>
            || Components(oldBase) <= Components(path)
            || (EndsInside(path, oldBase) && LegalComponent(Split(path[|oldBase|..])[0]))
    ensures Components(oldBase) <= Components(path) ==>
              Components(Rebase(path, oldBase, newBase).value)
              == Components(newBase) + Components(path)[|Components(oldBase)|..]
  {
    hide Split, JoinAll, Components, Join, LegalComponent, Legal;
    BaseIsPrefix(path, oldBase);
    if oldBase <= path {
      if EndsInside(path, oldBase) {
        RebaseInside(path, oldBase, newBase);
      } else {
        RebaseBase(path, oldBase, newBase);
      }
    }
  }

  lemma RebaseIs(path: string, oldBase: string, rel: string, newBase: string)
    requires path == oldBase + rel
    ensures Rebase(path, oldBase, newBase) == if rel == "" then Some(newBase) else Join(newBase, rel)
  {
    hide Join;
    assert oldBase <= path && path[|oldBase|..] == rel;
  }

  lemma RebaseInside(path: string, oldBase: string, newBase: string)
    requires LegalOrRoot(path) && LegalOrRoot(newBase) && EndsInside(path, oldBase)
    ensures Rebase(path, oldBase, newBase).Some? <==> LegalComponent(Split(path[|oldBase|..])[0])
  {
    hide Split, JoinAll, Components, Join, Clean, Rebase;
    var rel := path[|oldBase|..];
    assert path == oldBase + rel;
    RestInside(path, oldBase);
    RebaseIs(path, oldBase, rel, newBase);
    JoinAppends(newBase, rel);
  }

  lemma RebaseBase(path: string, oldBase: string, newBase: string)
    requires LegalOrRoot(path) && LegalOrRoot(oldBase) && LegalOrRoot(newBase)
    requires oldBase <= path && !EndsInside(path, oldBase)
    ensures Rebase(path, oldBase, newBase).Some? && Components(oldBase) <= Components(path)
    ensures Components(Rebase(path, oldBase, newBase).value)
            == Components(newBase) + Components(path)[|Components(oldBase)|..]
  {
    hide Split, JoinAll, Join, Legal, Components, Rebase, TrimSlash, Clean;
    BaseIsPrefix(path, oldBase);
    RootHasNone();
    var rel := path[|oldBase|..];
    assert path == oldBase + rel;
    RebaseIs(path, oldBase, rel, newBase);
    if rel == "" {
      assert path == oldBase;
      assert Components(newBase) + [] == Components(newBase);
    } else if oldBase == "" {
      assert rel == path;
      NoSlashAtEnds(path);
      JoinAppends(newBase, path);
      assert Components(path)[0..] == Components(path);
    } else {
      var rest := path[|oldBase| + 1..];
      NoSlashAtEnds(rest);
      TrimEnds("x", rest);
      assert rel == "/" + rest;
      JoinAppends(newBase, rel);
      assert (Components(oldBase) + Components(rest))[|Components(oldBase)|..] == Components(rest);
    }
  }

  lemma RootHasNone()
    ensures Components("") == []
  {
  }

  /** What is behind a base that ends inside a component. */
  lemma RestInside(path: string, base: string)
    requires Legal(path) && EndsInside(path, base)
    ensures var rel := path[|base|..];
            TrimSlash(Clean(rel)) == rel && (Legal(rel) <==> LegalComponent(Split(rel)[0]))
  {
    hide Split, LegalComponent;
    var rel := path[|base|..];
    NoSlashAtEnds(path);
    assert rel[0] == path[|base|] && rel[|rel| - 1] == path[|path| - 1];
    TailComponents(path, |base|);
    var cs, ds := Split(path), Split(rel);
    assert ds == [ds[0]] + ds[1..];
    forall c | c in ds[1..] ensures LegalComponent(c) {
      assert c in cs;
    }
  }

  /** Cutting characters off the front keeps all but the first of the remaining components. */
  lemma {:induction false} TailComponents(path: string, k: nat)
    requires k <= |path|
    ensures |Split(path[k..])| <= |Split(path)|
    ensures Split(path[k..])[1..] == Split(path)[|Split(path)| - |Split(path[k..])| + 1..]
  {
    hide Split;
    if k == 0 {
      assert path[0..] == path;
    } else {
      TailComponents(path[1..], k - 1);
      assert path[1..][k - 1..] == path[k..] && path == [path[0]] + path[1..];
      SplitNext(path, path[0], path[1..]);
    }
  }

  /** Rebasing there and back is the identity. */
  lemma RebaseThereAndBack(oldBase: string, newBase: string, rel: string)
    requires LegalOrRoot(oldBase) && LegalOrRoot(newBase) && Legal(rel)
    ensures Join(oldBase, rel).Some? && Join(newBase, rel).Some?
    ensures Rebase(Join(oldBase, rel).value, oldBase, newBase) == Join(newBase, rel)
    ensures Rebase(Join(newBase, rel).value, newBase, oldBase) == Join(oldBase, rel)
  {
    RebaseOne(oldBase, newBase, rel);
    RebaseOne(newBase, oldBase, rel);
  }

  lemma RebaseOne(oldBase: string, newBase: string, rel: string)
    requires LegalOrRoot(oldBase) && LegalOrRoot(newBase) && Legal(rel)
    ensures Join(oldBase, rel).Some? && Join(newBase, rel).Some?
    ensures Rebase(Join(oldBase, rel).value, oldBase, newBase) == Join(newBase, rel)
  {
    hide Split, JoinAll, Legal, New, Components, Clean, TrimSlash, Join, Rebase;
    NoSlashAtEnds(rel);
    JoinedString(oldBase, rel);
    JoinedString(newBase, rel);
    if oldBase == "" {
      assert rel == "" + rel;
      RebaseIs(rel, "", rel, newBase);
    } else {
      assert oldBase + "/" + rel == oldBase + ("/" + rel);
      RebaseIs(oldBase + "/" + rel, oldBase, "/" + rel, newBase);
    }
  }

  lemma JoinedString(path: string, s: string)
    requires LegalOrRoot(path) && Legal(s)
    ensures Join(path, s) == Join(path, "/" + s) == Some(if path == "" then s else path + "/" + s)
  {
    hide Split;
    NoSlashAtEnds(s);
    TrimEnds("x", s);
    assert "" + "/" + s == "/" + s;
    if path != "" {
      NoSlashAtEnds(path);
      TrimEnds(path, s);
      LegalAtSlash(path, s);
    }
  }

  /** A base that is only a string prefix is accepted. */
  lemma StringPrefixIsAccepted()
    ensures Rebase("ab/c", "a", "x").Some? && !(Components("a") <= Components("ab/c"))
  {
    hide Split, JoinAll, Join;
    SplitPlain("a");
    SplitPlain("ab");
    SplitPlain("b");
    SplitPlain("c");
    SplitPlain("x");
    SplitAtSlash("ab", "c");
    SplitAtSlash("b", "c");
    assert "ab" + "/" + "c" == "ab/c" && "b" + "/" + "c" == "b/c";
    assert "ab/c"[1..] == "b/c" && "a" <= "ab/c";
    assert Components("a")[0] == "a" && Components("ab/c")[0] == "ab";
    assert Split("x") == ["x"] && Split("b/c") == ["b", "c"];
    JoinedString("x", "b/c");
  }
}
