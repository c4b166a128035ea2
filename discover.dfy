/** Discovery of the target files (findTargetFiles in replace-word.go): a
    depth-first walk of the directory tree that skips five directory names,
    keeps the files whose content looks like text, stops at the first
    directory or file it cannot read, and sorts what each directory
    yields. */
module Discover {
  import opened Io
  import opened Order
  import opened FilePath

  /** A directory entry as os.ReadDir reports it, with what reading it
      would give: a directory's entries, or a file's content.  Anything
      that is not a directory (a symbolic link included) is read as a file. */
  datatype Entry =
    | Dir(name: string, readable: bool, children: seq<Entry>)
    | File(name: string, readable: bool, content: string)

  /** The directory names that are never entered. */
  const Ignored: seq<string> := [".idea", ".git", "node_modules", "build", "public"]

  /** findTargetFiles(dir) for the directory `node` found at `dir`: the
      error of the first unreadable entry met, or the sorted target files.
      `isText` stands for the test that http.DetectContentType reports a
      "text/" type. */
  function Find(dir: string, node: Entry, isText: string -> bool): (r: Result<seq<string>>)
    requires node.Dir?
    ensures r.Ok? ==> Ascending(r.value)
    decreases node, 1
  {
    if !node.readable then Err(ReadDirFailed(dir))
    else
      match Scan(dir, node, 0, isText)
      case Err(e) => Err(e)
      case Ok(found) => Ok(SortAscending(found))
  }

  /** The unsorted paths contributed by the entries of `node` from index
      `k` on, in directory order. */
  function Scan(dir: string, node: Entry, k: nat, isText: string -> bool): Result<seq<string>>
    requires node.Dir? && k <= |node.children|
    decreases node, 0, |node.children| - k
  {
    if k == |node.children| then Ok([])
    else Then(Visit(dir, node.children[k], isText), Scan(dir, node, k + 1, isText))
  }

  /** What one entry of the directory at `dir` contributes: an ignored
      directory nothing, another directory what the walk finds in it, an
      unreadable file an error, a text file its path, any other file
      nothing. */
  function Visit(dir: string, c: Entry, isText: string -> bool): Result<seq<string>>
    decreases c, 2
  {
    var path := JoinPath(dir, c.name);
    if c.Dir? then
      if c.name in Ignored then Ok([]) else Find(path, c, isText)
    else if !c.readable then Err(ReadFileFailed(path))
    else if !isText(c.content) then Ok([])
    else Ok([path])
  }

  /** The first result followed by the second, unless the first failed. */
  function Then(a: Result<seq<string>>, b: Result<seq<string>>): Result<seq<string>>
  {
    match a
    case Err(e) => Err(e)
    case Ok(xs) => Extend(xs, b)
  }

  /** Put `xs` in front of a successful result. */
  function Extend(xs: seq<string>, r: Result<seq<string>>): Result<seq<string>>
  {
    match r
    case Ok(ys) => Ok(xs + ys)
    case Err(e) => Err(e)
  }

  lemma ExtendAssoc(xs: seq<string>, ys: seq<string>, r: Result<seq<string>>)
    ensures Extend(xs, Extend(ys, r)) == Extend(xs + ys, r)
    ensures Extend([], r) == r
  {
    if r.Ok? {
      assert xs + (ys + r.value) == (xs + ys) + r.value;
      assert [] + r.value == r.value;
    }
  }

  /** findTargetFiles. */
  method FindTargetFiles(dir: string, node: Entry, isText: string -> bool) returns (r: Result<seq<string>>)
    requires node.Dir?
    ensures r == Find(dir, node, isText)
    decreases node, 1
  {
    if !node.readable {
      return Err(ReadDirFailed(dir));
    }
    var paths: seq<string> := [];
    var i := 0;
    ExtendAssoc([], [], Scan(dir, node, 0, isText));
    while i < |node.children|
      invariant 0 <= i <= |node.children|
      invariant Scan(dir, node, 0, isText) == Extend(paths, Scan(dir, node, i, isText))
    {
      var found := VisitEntry(dir, node.children[i], isText);
      if found.Err? {
        return Err(found.error);
      }
      ExtendAssoc(paths, found.value, Scan(dir, node, i + 1, isText));
      paths := paths + found.value;
      i := i + 1;
    }
    assert paths + [] == paths;
    r := Ok(SortAscending(paths));
  }

  /** The body of the loop of findTargetFiles, for one entry. */
  method VisitEntry(dir: string, c: Entry, isText: string -> bool) returns (r: Result<seq<string>>)
    ensures r == Visit(dir, c, isText)
    decreases c, 2
  {
    var path := JoinPath(dir, c.name);
    if c.Dir? {
      if c.name in Ignored {
        return Ok([]);
      }
      r := FindTargetFiles(path, c, isText);
      return;
    }
    if !c.readable {
      return Err(ReadFileFailed(path));
    }
    if !isText(c.content) {
      return Ok([]);
    }
    return Ok([path]);
  }

  /** Every directory the walk enters can be listed and every file it meets
      can be read. */
  predicate AllReadable(node: Entry)
    decreases node, 1
  {
    node.Dir? && node.readable && forall k :: 0 <= k < |node.children| ==> ChildReadable(node.children[k])
  }

  predicate ChildReadable(c: Entry)
    decreases c, 2
  {
    if c.Dir? then c.name in Ignored || AllReadable(c) else c.readable
  }

  /** The walk succeeds exactly when everything it visits is readable. */
  lemma {:induction false} FindSucceeds(dir: string, node: Entry, isText: string -> bool)
    requires node.Dir?
    ensures Find(dir, node, isText).Ok? <==> AllReadable(node)
    decreases node, 1
  {
    if node.readable {
      ScanSucceeds(dir, node, 0, isText);
    }
  }

  lemma {:induction false} ScanSucceeds(dir: string, node: Entry, k: nat, isText: string -> bool)
    requires node.Dir? && k <= |node.children|
    ensures Scan(dir, node, k, isText).Ok? <==> forall j :: k <= j < |node.children| ==> ChildReadable(node.children[j])
    decreases node, 0, |node.children| - k
  {
    if k < |node.children| {
      var c := node.children[k];
      ScanSucceeds(dir, node, k + 1, isText);
      if c.Dir? && c.name !in Ignored {
        FindSucceeds(JoinPath(dir, c.name), c, isText);
      }
    }
  }

  /** `p` is a text file reachable from the directory `node` at `dir`
      without entering an ignored directory. */
  predicate Reaches(dir: string, node: Entry, p: string, isText: string -> bool)
    decreases node, 0
  {
    node.Dir? && exists k :: 0 <= k < |node.children| && ChildReaches(dir, node.children[k], p, isText)
  }

  predicate ChildReaches(dir: string, c: Entry, p: string, isText: string -> bool)
    decreases c, 1
  {
    var path := JoinPath(dir, c.name);
    if c.Dir? then c.name !in Ignored && Reaches(path, c, p, isText)
    else isText(c.content) && p == path
  }

  /** A successful walk returns exactly the reachable text files. */
  lemma {:induction false} FindMembers(dir: string, node: Entry, isText: string -> bool, ps: seq<string>)
    requires node.Dir? && Find(dir, node, isText) == Ok(ps)
    ensures forall p :: p in ps <==> Reaches(dir, node, p, isText)
    decreases node, 1
  {
    var found := Scan(dir, node, 0, isText).value;
    ScanMembers(dir, node, 0, isText, found);
    assert multiset(ps) == multiset(found);
    forall p ensures p in ps <==> p in found {
      assert p in ps <==> p in multiset(ps);
      assert p in found <==> p in multiset(found);
    }
  }

  lemma {:induction false} ScanMembers(dir: string, node: Entry, k: nat, isText: string -> bool, ps: seq<string>)
    requires node.Dir? && k <= |node.children| && Scan(dir, node, k, isText) == Ok(ps)
    ensures forall p :: p in ps <==> exists j :: k <= j < |node.children| && ChildReaches(dir, node.children[j], p, isText)
    decreases node, 0, |node.children| - k
  {
    if k < |node.children| {
      var c := node.children[k];
      var path := JoinPath(dir, c.name);
      var rest := Scan(dir, node, k + 1, isText).value;
      ScanMembers(dir, node, k + 1, isText, rest);
      if c.Dir? && c.name !in Ignored {
        var found := Find(path, c, isText).value;
        FindMembers(path, c, isText, found);
        assert ps == found + rest;
      } else if !c.Dir? && isText(c.content) {
        assert ps == [path] + rest;
      } else {
        assert ps == rest;
      }
      forall p ensures p in ps <==> exists j :: k <= j < |node.children| && ChildReaches(dir, node.children[j], p, isText) {
        if p in ps && !ChildReaches(dir, c, p, isText) {
          assert p in rest;
        }
        if exists j :: k <= j < |node.children| && ChildReaches(dir, node.children[j], p, isText) {
          var j :| k <= j < |node.children| && ChildReaches(dir, node.children[j], p, isText);
          if j > k {
            assert p in rest;
          }
        }
      }
    }
  }

  /** What os.ReadDir guarantees of a directory: plain names, none twice.
      It also returns the entries sorted by name; the walk visits
      `children` in the order given, so that order decides which
      unreadable entry is reported first.  None of the properties below
      depends on it, so it is not part of this predicate. */
  predicate WellFormed(node: Entry)
    decreases node
  {
    node.Dir? ==>
      (forall k :: 0 <= k < |node.children| ==> Plain(node.children[k].name) && WellFormed(node.children[k])) &&
      (forall i, j :: 0 <= i < j < |node.children| ==> node.children[i].name != node.children[j].name)
  }

  /** On a well-formed tree the walk returns no path twice, and every path
      lies strictly inside the directory it started from. */
  lemma {:induction false} FindShape(dir: string, node: Entry, isText: string -> bool, ps: seq<string>)
    requires node.Dir? && WellFormed(node) && Find(dir, node, isText) == Ok(ps)
    ensures Distinct(ps)
    ensures forall p :: p in ps ==> StrictlyBelow(dir, p)
    decreases node, 1
  {
    var found := Scan(dir, node, 0, isText).value;
    ScanShape(dir, node, 0, isText, found);
    assert multiset(ps) == multiset(found);
    forall i, j | 0 <= i < j < |ps| ensures ps[i] != ps[j] {
      DistinctByMultiset(found, ps, i, j);
    }
    forall p | p in ps ensures StrictlyBelow(dir, p) {
      assert p in multiset(found);
    }
  }

  lemma {:induction false} ScanShape(dir: string, node: Entry, k: nat, isText: string -> bool, ps: seq<string>)
    requires node.Dir? && WellFormed(node) && k <= |node.children| && Scan(dir, node, k, isText) == Ok(ps)
    ensures Distinct(ps)
    ensures forall p :: p in ps ==>
      (StrictlyBelow(dir, p) && exists j :: k <= j < |node.children| && Elements(p)[|Elements(dir)|] == node.children[j].name)
    decreases node, 0, |node.children| - k
  {
    if k < |node.children| {
      var c := node.children[k];
      var path := JoinPath(dir, c.name);
      var rest := Scan(dir, node, k + 1, isText).value;
      ScanShape(dir, node, k + 1, isText, rest);
      var head: seq<string>;
      if c.Dir? && c.name !in Ignored {
        head := Find(path, c, isText).value;
        FindShape(path, c, isText, head);
      } else if !c.Dir? && isText(c.content) {
        head := [path];
      } else {
        head := [];
      }
      assert ps == head + rest;
      forall p | p in head ensures StrictlyBelow(dir, p) && Elements(p)[|Elements(dir)|] == c.name {
        BelowJoin(dir, c.name, p);
      }
      forall x, y | x in head && y in rest ensures x != y {
        var j :| k + 1 <= j < |node.children| && Elements(y)[|Elements(dir)|] == node.children[j].name;
        assert node.children[k].name != node.children[j].name;
      }
      DistinctConcat(head, rest);
    }
  }

  lemma DistinctConcat(a: seq<string>, b: seq<string>)
    requires Distinct(a) && Distinct(b)
    requires forall x, y :: x in a && y in b ==> x != y
    ensures Distinct(a + b)
  {
    var c := a + b;
    forall i, j | 0 <= i < j < |c| ensures c[i] != c[j] {
      if j < |a| {
        assert c[i] == a[i] && c[j] == a[j];
      } else if i >= |a| {
        assert c[i] == b[i - |a|] && c[j] == b[j - |a|];
      } else {
        assert c[i] == a[i] && c[j] == b[j - |a|];
        assert a[i] in a && b[j - |a|] in b;
      }
    }
  }
}
