/** The parts of Go's `path/filepath` package (Unix flavour) the tool uses:
    Clean, Join, Split and Dir.  A path is cleaned by splitting it at the
    slashes and pushing its elements on a stack: empty and "." elements
    vanish, ".." pops the element before it (is kept at the front of a
    relative path, and dropped at the root of a rooted one). */
module FilePath {
  import opened Text

  /** A name that cleaning keeps as it is: what os.ReadDir reports. */
  predicate Plain(n: string)
  {
    n != "" && n != "." && n != ".." && '/' !in n
  }

  /** The element stacks cleaning produces: no empty or "." elements, no
      slashes, and ".." only at the front of a relative path. */
  predicate Normal(rooted: bool, st: seq<string>)
  {
    (forall k :: 0 <= k < |st| ==> st[k] != "" && st[k] != "." && '/' !in st[k] && (rooted ==> st[k] != "..")) &&
    (forall j, k :: 0 <= j < k < |st| && st[k] == ".." ==> st[j] == "..")
  }

  /** One element of the path read by Clean. */
  function Step(rooted: bool, st: seq<string>, seg: string): seq<string>
  {
    if seg == "" || seg == "." then st
    else if seg == ".." then
      if st != [] && st[|st| - 1] != ".." then st[..|st| - 1]
      else if rooted then st
      else st + [".."]
    else st + [seg]
  }

  function Eval(rooted: bool, st: seq<string>, segs: seq<string>): seq<string>
    decreases |segs|
  {
    if segs == [] then st else Eval(rooted, Step(rooted, st, segs[0]), segs[1..])
  }

  predicate IsRooted(path: string)
  {
    path != "" && path[0] == '/'
  }

  /** The element stack of a path. */
  function Elements(path: string): seq<string>
  {
    Eval(IsRooted(path), [], Split(path, '/'))
  }

  /** The path a stack stands for: "/" for the empty rooted stack, "." for
      the empty relative one. */
  function Render(rooted: bool, st: seq<string>): string
  {
    if rooted then "/" + Join(st, "/")
    else if st == [] then "."
    else Join(st, "/")
  }

  /** filepath.Clean ("" cleans to "."). */
  function Clean(path: string): string
  {
    Render(IsRooted(path), Elements(path))
  }

  /** filepath.Join of two elements: an empty first element is skipped,
      and two empty elements give "". */
  function JoinPath(dir: string, name: string): string
  {
    if dir == "" then (if name == "" then "" else Clean(name))
    else Clean(dir + "/" + name)
  }

  /** The index of the last slash, or -1. */
  function LastSlash(s: string): (i: int)
    ensures -1 <= i < |s|
    ensures i >= 0 ==> s[i] == '/'
    ensures forall k :: i < k < |s| ==> s[k] != '/'
  {
    if s == [] then -1
    else if s[|s| - 1] == '/' then |s| - 1
    else LastSlash(s[..|s| - 1])
  }

  /** filepath.Split: everything up to and including the last slash, and
      the rest. */
  function SplitPath(path: string): (r: (string, string))
    ensures r.0 + r.1 == path
    ensures '/' !in r.1
    ensures r.0 == "" || r.0[|r.0| - 1] == '/'
  {
    var i := LastSlash(path);
    (path[..i + 1], path[i + 1..])
  }

  /** filepath.Dir: the cleaned part up to the last slash. */
  function DirPath(path: string): string
  {
    Clean(SplitPath(path).0)
  }

  /** The parent directory as renameFilesAndDirs and expandAncestorDirs
      compute it: filepath.Dir of the directory part of filepath.Split. */
  function ParentDir(path: string): string
  {
    DirPath(SplitPath(path).0)
  }

  /** The last element of a path, as filepath.Split gives it. */
  function BaseName(path: string): string
  {
    SplitPath(path).1
  }

  lemma StepNormal(rooted: bool, st: seq<string>, seg: string)
    requires Normal(rooted, st) && '/' !in seg
    ensures Normal(rooted, Step(rooted, st, seg))
  {
  }

  lemma {:induction false} EvalNormal(rooted: bool, st: seq<string>, segs: seq<string>)
    requires Normal(rooted, st)
    requires forall k :: 0 <= k < |segs| ==> '/' !in segs[k]
    ensures Normal(rooted, Eval(rooted, st, segs))
    decreases |segs|
  {
    if segs != [] {
      StepNormal(rooted, st, segs[0]);
      EvalNormal(rooted, Step(rooted, st, segs[0]), segs[1..]);
    }
  }

  /** Cleaning always yields a normal stack. */
  lemma ElementsNormal(path: string)
    ensures Normal(IsRooted(path), Elements(path))
  {
    EvalNormal(IsRooted(path), [], Split(path, '/'));
  }

  /** Reading a normal stack element by element rebuilds it. */
  lemma {:induction false} EvalKeeps(rooted: bool, acc: seq<string>, st: seq<string>)
    requires Normal(rooted, acc + st)
    ensures Eval(rooted, acc, st) == acc + st
    decreases |st|
  {
    if st != [] {
      var all := acc + st;
      assert all[|acc|] == st[0];
      if st[0] == ".." {
        assert forall j :: 0 <= j < |acc| ==> all[j] == acc[j];
      }
      assert Step(rooted, acc, st[0]) == acc + [st[0]];
      assert (acc + [st[0]]) + st[1..] == all;
      EvalKeeps(rooted, acc + [st[0]], st[1..]);
    } else {
      assert acc + st == acc;
    }
  }

  lemma {:induction false} EvalAppend(rooted: bool, acc: seq<string>, a: seq<string>, b: seq<string>)
    ensures Eval(rooted, acc, a + b) == Eval(rooted, Eval(rooted, acc, a), b)
    decreases |a|
  {
    if a != [] {
      assert (a + b)[1..] == a[1..] + b;
      EvalAppend(rooted, Step(rooted, acc, a[0]), a[1..], b);
    } else {
      assert a + b == b;
    }
  }

  /** A normal stack is read back from the path it stands for. */
  lemma ParseRender(rooted: bool, st: seq<string>)
    requires Normal(rooted, st)
    ensures IsRooted(Render(rooted, st)) == rooted
    ensures Elements(Render(rooted, st)) == st
  {
    if st == [] {
      if rooted {
        RootElements();
      } else {
        SplitNoSep(".", '/');
      }
    } else {
      SplitRender(rooted, st);
      assert Normal(rooted, [] + st);
      EvalKeeps(rooted, [], st);
      if rooted {
        assert ([""] + st)[1..] == st;
      }
    }
  }

  /** The pieces of the path of a non-empty normal stack: its elements,
      after an empty piece when the path is rooted. */
  lemma SplitRender(rooted: bool, st: seq<string>)
    requires st != [] && Normal(rooted, st)
    ensures IsRooted(Render(rooted, st)) == rooted
    ensures Split(Render(rooted, st), '/') == if rooted then [""] + st else st
  {
    var x := Join(st, "/");
    SplitJoin(st, '/');
    JoinFirst(st);
    if rooted {
      assert Render(rooted, st) == [] + ['/'] + x;
      SplitAround("", x, '/');
    }
  }

  /** The path of a non-empty normal stack starts with its first element. */
  lemma JoinFirst(st: seq<string>)
    requires st != [] && st[0] != "" && '/' !in st[0]
    ensures Join(st, "/") != "" && Join(st, "/")[0] == st[0][0] != '/'
  {
    JoinCons(st[0], st[1..], "/");
    assert [st[0]] + st[1..] == st;
    assert st[0][0] in st[0];
  }

  /** Two normal stacks stand for the same path only if they are equal. */
  lemma RenderInjective(r1: bool, s1: seq<string>, r2: bool, s2: seq<string>)
    requires Normal(r1, s1) && Normal(r2, s2)
    ensures Render(r1, s1) == Render(r2, s2) <==> r1 == r2 && s1 == s2
  {
    ParseRender(r1, s1);
    ParseRender(r2, s2);
  }

  /** Cleaning a clean path changes nothing. */
  lemma CleanIdempotent(path: string)
    ensures IsRooted(Clean(path)) == IsRooted(path)
    ensures Elements(Clean(path)) == Elements(path)
    ensures Clean(Clean(path)) == Clean(path)
  {
    ElementsNormal(path);
    ParseRender(IsRooted(path), Elements(path));
  }

  /** A trailing slash does not change the cleaned path. */
  lemma CleanTrailingSlash(path: string)
    requires path != ""
    ensures Clean(path + "/") == Clean(path)
  {
    var r := IsRooted(path);
    assert IsRooted(path + "/") == r;
    assert path + "/" == path + ['/'] + "";
    SplitAround(path, "", '/');
    EvalAppend(r, [], Split(path, '/'), [""]);
  }

  /** Joining a plain name to a directory pushes the name on the
      directory's cleaned stack. */
  lemma JoinPlain(dir: string, n: string)
    requires Plain(n)
    ensures JoinPath(dir, n) == Render(IsRooted(dir), Elements(dir) + [n])
  {
    SplitNoSep(n, '/');
    if dir == "" {
      assert Split(dir, '/') == [""];
      assert Elements(dir) == [];
      assert Eval(false, [], [n]) == [n];
      assert n[0] != '/' by { assert n[0] in n; }
      assert Elements(n) == [n];
    } else {
      var r := IsRooted(dir);
      assert IsRooted(dir + "/" + n) == r;
      assert dir + "/" + n == dir + ['/'] + n;
      SplitAround(dir, n, '/');
      EvalAppend(r, [], Split(dir, '/'), [n]);
    }
  }

  /** The last slash of `x + "/" + n`, for a name without slashes, is the
      one before the name. */
  lemma LastSlashBefore(x: string, n: string)
    requires '/' !in n
    ensures LastSlash(x + "/" + n) == |x|
  {
    var p := x + "/" + n;
    var i := LastSlash(p);
    assert p[|x|] == '/';
  }

  /** The parent of `x + "/" + n` is the cleaned `x + "/"`. */
  lemma ParentOfSlash(x: string, n: string)
    requires '/' !in n
    ensures ParentDir(x + "/" + n) == Clean(x + "/")
  {
    LastSlashBefore(x, n);
    var d := x + "/";
    assert SplitPath(x + "/" + n).0 == d;
    LastSlashBefore(x, "");
    assert d + "" == d;
    assert SplitPath(d).0 == d;
  }

  /** "/" is the rooted path with no elements. */
  lemma RootElements()
    ensures IsRooted("/") && Elements("/") == []
  {
    assert "/" == "" + ['/'] + "";
    SplitAround("", "", '/');
    assert Split("/", '/') == ["", ""];
    assert ["", ""][1..] == [""];
    assert Eval(true, [], [""]) == [];
  }

  /** The parent of a clean path is the path of its stack without the last
      element. */
  lemma ParentOfRender(rooted: bool, st: seq<string>, n: string)
    requires Normal(rooted, st + [n])
    ensures ParentDir(Render(rooted, st + [n])) == Render(rooted, st)
  {
    assert (st + [n])[|st|] == n;
    if st == [] {
      ParentOfFirst(rooted, n);
    } else {
      assert Normal(rooted, st) by {
        assert forall k :: 0 <= k < |st| ==> (st + [n])[k] == st[k];
        forall j, k | 0 <= j < k < |st| && st[k] == ".." ensures st[j] == ".." {
          assert (st + [n])[k] == st[k] && (st + [n])[j] == st[j];
        }
      }
      ParentOfLater(rooted, st, n);
    }
  }

  lemma ParentOfFirst(rooted: bool, n: string)
    requires n != "" && '/' !in n
    ensures ParentDir(Render(rooted, [n])) == Render(rooted, [])
  {
    assert Join([n], "/") == n;
    if rooted {
      assert Render(rooted, [n]) == "" + "/" + n;
      ParentOfSlash("", n);
      assert "" + "/" == "/";
      RootElements();
    } else {
      ParentOfName(n);
    }
  }

  lemma ParentOfName(n: string)
    requires '/' !in n
    ensures ParentDir(n) == "."
  {
    SplitPathNoSlash(n);
    SplitPathNoSlash("");
    CleanEmpty();
  }

  /** A path without slashes has no directory part. */
  lemma SplitPathNoSlash(n: string)
    requires '/' !in n
    ensures SplitPath(n) == ("", n)
  {
    assert LastSlash(n) == -1;
  }

  /** The empty path cleans to ".". */
  lemma CleanEmpty()
    ensures Clean("") == "."
  {
    assert Split("", '/') == [""];
    assert Elements("") == [];
  }

  lemma ParentOfLater(rooted: bool, st: seq<string>, n: string)
    requires st != [] && Normal(rooted, st) && '/' !in n
    ensures ParentDir(Render(rooted, st + [n])) == Render(rooted, st)
  {
    var x := Render(rooted, st);
    RenderAppend(rooted, st, n);
    RenderNonEmpty(rooted, st);
    ParentOfSlash(x, n);
    CleanTrailingSlash(x);
    CleanRender(rooted, st);
  }

  /** Pushing a name on a non-empty stack appends "/" and the name to its
      path. */
  lemma RenderAppend(rooted: bool, st: seq<string>, n: string)
    requires st != []
    ensures Render(rooted, st + [n]) == Render(rooted, st) + "/" + n
  {
    JoinAppend(st, n, "/");
  }

  /** The path of a non-empty normal stack is not empty. */
  lemma RenderNonEmpty(rooted: bool, st: seq<string>)
    requires st != [] && Normal(rooted, st)
    ensures Render(rooted, st) != ""
  {
    assert st[0] != "";
    JoinCons(st[0], st[1..], "/");
    assert [st[0]] + st[1..] == st;
  }

  /** The path of a normal stack is clean. */
  lemma CleanRender(rooted: bool, st: seq<string>)
    requires Normal(rooted, st)
    ensures Clean(Render(rooted, st)) == Render(rooted, st)
  {
    ParseRender(rooted, st);
  }

  /** `p` is a clean path strictly inside the directory `base`, reached from
      it through plain names: what joining names to `base` produces. */
  predicate StrictlyBelow(base: string, p: string)
  {
    var sb, sp := Elements(base), Elements(p);
    p == Clean(p) && IsRooted(p) == IsRooted(base) && |sb| < |sp| && sp[..|sb|] == sb &&
    forall k :: |sb| <= k < |sp| ==> Plain(sp[k])
  }

  /** A path inside `JoinPath(dir, n)`, or that path itself, is strictly
      inside `dir`, under the element `n`. */
  lemma BelowJoin(dir: string, n: string, p: string)
    requires Plain(n)
    requires p == JoinPath(dir, n) || StrictlyBelow(JoinPath(dir, n), p)
    ensures StrictlyBelow(dir, p)
    ensures Elements(p)[|Elements(dir)|] == n
  {
    JoinBelow(dir, n);
    if p != JoinPath(dir, n) {
      BelowBelow(dir, JoinPath(dir, n), p);
    }
  }

  /** `JoinPath(dir, n)` is one level inside `dir`. */
  lemma JoinBelow(dir: string, n: string)
    requires Plain(n)
    ensures StrictlyBelow(dir, JoinPath(dir, n))
    ensures Elements(JoinPath(dir, n)) == Elements(dir) + [n]
  {
    var r, sd := IsRooted(dir), Elements(dir);
    var sj := sd + [n];
    JoinPlain(dir, n);
    ElementsNormal(dir);
    assert Normal(r, sj);
    assert sj[..|sd|] == sd;
    StackBelow(dir, r, sj);
  }

  /** Splitting a plain name joined onto a clean directory gives back the
      directory and the name. */
  lemma JoinSplitsBack(dir: string, n: string)
    requires dir == Clean(dir) && Plain(n)
    ensures ParentDir(JoinPath(dir, n)) == dir
    ensures BaseName(JoinPath(dir, n)) == n
  {
    var r, sd := IsRooted(dir), Elements(dir);
    JoinPlain(dir, n);
    ElementsNormal(dir);
    assert Normal(r, sd + [n]);
    ParentOfRender(r, sd, n);
    BaseNameOfRender(r, sd, n);
  }

  /** The parent directory of any path is clean. */
  lemma ParentDirClean(p: string)
    ensures Clean(ParentDir(p)) == ParentDir(p)
  {
    CleanIdempotent(SplitPath(SplitPath(p).0).0);
  }

  /** Strictly inside is transitive. */
  lemma BelowBelow(a: string, b: string, c: string)
    requires StrictlyBelow(a, b) && StrictlyBelow(b, c)
    ensures StrictlyBelow(a, c)
    ensures Elements(c)[..|Elements(b)|] == Elements(b)
  {
    var sa, sb, sc := Elements(a), Elements(b), Elements(c);
    assert sc[..|sa|] == sb[..|sa|];
    assert forall k :: |sa| <= k < |sb| ==> sc[k] == sb[k];
  }

  /** A normal stack that extends the stack of `base` with plain names
      stands for a path strictly inside `base`. */
  lemma StackBelow(base: string, rooted: bool, st: seq<string>)
    requires Normal(rooted, st) && rooted == IsRooted(base)
    requires |Elements(base)| < |st| && st[..|Elements(base)|] == Elements(base)
    requires forall k :: |Elements(base)| <= k < |st| ==> Plain(st[k])
    ensures StrictlyBelow(base, Render(rooted, st))
    ensures IsRooted(Render(rooted, st)) == rooted && Elements(Render(rooted, st)) == st
  {
    ParseRender(rooted, st);
    CleanRender(rooted, st);
  }

  /** The parent of a clean path with at least one element is the path of
      its stack without the last element. */
  lemma ParentOfClean(p: string)
    requires p == Clean(p) && Elements(p) != []
    ensures var sp := Elements(p);
      Normal(IsRooted(p), sp[..|sp| - 1]) && ParentDir(p) == Render(IsRooted(p), sp[..|sp| - 1])
    ensures IsRooted(ParentDir(p)) == IsRooted(p) && Elements(ParentDir(p)) == Elements(p)[..|Elements(p)| - 1]
  {
    var r, sp := IsRooted(p), Elements(p);
    var n := |sp| - 1;
    var st, x := sp[..n], sp[n];
    ElementsNormal(p);
    assert st + [x] == sp;
    assert p == Render(r, st + [x]);
    NormalPrefix(r, sp, n);
    ParentOfRender(r, st, x);
    ParseRender(r, st);
  }

  /** A prefix of a normal stack is normal. */
  lemma NormalPrefix(rooted: bool, st: seq<string>, m: nat)
    requires Normal(rooted, st) && m <= |st|
    ensures Normal(rooted, st[..m])
  {
    assert forall k :: 0 <= k < m ==> st[..m][k] == st[k];
  }

  /** The base name of a clean path is its last element. */
  lemma BaseNameOfRender(rooted: bool, st: seq<string>, n: string)
    requires Normal(rooted, st + [n])
    ensures BaseName(Render(rooted, st + [n])) == n
  {
    assert (st + [n])[|st|] == n;
    assert '/' !in n;
    var p := Render(rooted, st + [n]);
    if !rooted && st == [] {
      assert p == n;
      assert LastSlash(p) == -1;
    } else {
      var x := if st == [] then "" else Render(rooted, st);
      if st != [] {
        JoinAppend(st, n, "/");
      }
      assert p == x + "/" + n;
      LastSlashBefore(x, n);
      assert p[|x| + 1..] == n;
    }
  }
}
