/** expandAncestorDirs in replace-word.go: a target path and every
    directory above it, leaf first, stopping below the target directory. */
module Expand {
  import opened Io
  import opened Text
  import opened FilePath

  /** The recursion of expandAncestorDirs, with the parent step `up` and
      the directory `stop` it compares against: `p` is kept, and unless
      `up(p)` is `stop` the chain of `up(p)` follows.  `fuel` bounds the
      depth of the recursion, and None means that the bound was reached. */
  function Climb(up: string -> string, stop: string, p: string, fuel: nat): Option<seq<string>>
    decreases fuel
  {
    if fuel == 0 then None
    else
      var dir := up(p);
      if dir == stop then Some([p])
      else
        match Climb(up, stop, dir, fuel - 1)
        case None => None
        case Some(rest) => Some([p] + rest)
  }

  /** A climb that never meets `stop` never ends. */
  lemma {:induction false} ClimbNeverStops(up: string -> string, stop: string, p: string, fuel: nat)
    requires forall q :: up(q) != stop
    ensures Climb(up, stop, p, fuel) == None
    decreases fuel
  {
    if fuel > 0 {
      ClimbNeverStops(up, stop, up(p), fuel - 1);
    }
  }

  /** A climb along `chain`, which meets `stop` only after its last entry,
      returns `chain` when the depth allowed is enough. */
  lemma {:induction false} ClimbFollows(up: string -> string, stop: string, chain: seq<string>, fuel: nat)
    requires 0 < |chain| <= fuel
    requires forall k :: 0 <= k < |chain| - 1 ==> up(chain[k]) == chain[k + 1] && up(chain[k]) != stop
    requires up(chain[|chain| - 1]) == stop
    ensures Climb(up, stop, chain[0], fuel) == Some(chain)
    decreases |chain|
  {
    if |chain| > 1 {
      var rest := chain[1..];
      forall k | 0 <= k < |rest| - 1 ensures up(rest[k]) == rest[k + 1] && up(rest[k]) != stop {
        assert rest[k] == chain[k + 1] && rest[k + 1] == chain[k + 2];
      }
      ClimbFollows(up, stop, rest, fuel - 1);
      assert [chain[0]] + rest == chain;
    } else {
      assert chain == [chain[0]];
    }
  }

  /** expandAncestorDirs as written: the parent (filepath.Dir of the
      directory part of filepath.Split) is compared with the target
      directory as the user typed it. */
  function ExpandAsWritten(base: string, p: string, fuel: nat): Option<seq<string>>
  {
    Climb(ParentDir, base, p, fuel)
  }

  /** expandAncestorDirs comparing the parent with the cleaned target
      directory. */
  function ExpandCorrected(base: string, p: string, fuel: nat): Option<seq<string>>
  {
    Climb(ParentDir, Clean(base), p, fuel)
  }

  /** How many levels `p` lies below `base`. */
  function Depth(base: string, p: string): int
  {
    |Elements(p)| - |Elements(base)|
  }

  /** The path `k` levels above `p`: the clean path of `p`'s elements
      without the last `k`. */
  function Ancestor(p: string, k: nat): string
    requires k <= |Elements(p)|
  {
    Render(IsRooted(p), Elements(p)[..|Elements(p)| - k])
  }

  /** The chain the corrected expandAncestorDirs returns: `p` and each
      directory above it, leaf first, down to but not including the target
      directory. */
  function ExpandAncestorDirs(base: string, p: string): (r: seq<string>)
    requires StrictlyBelow(base, p)
    ensures |r| == Depth(base, p) && r[0] == p
    ensures forall k :: 0 <= k < |r| ==>
      StrictlyBelow(base, r[k]) && IsRooted(r[k]) == IsRooted(p) && Elements(r[k]) == Elements(p)[..|Elements(p)| - k]
  {
    AncestorsBelow(base, p);
    seq(Depth(base, p), k requires 0 <= k < Depth(base, p) => Ancestor(p, k))
  }

  /** Every ancestor of `p` short of `base` is strictly inside `base`, and
      `p` is its own ancestor at level 0. */
  lemma AncestorsBelow(base: string, p: string)
    requires StrictlyBelow(base, p)
    ensures Ancestor(p, 0) == p
    ensures forall k: nat :: k < Depth(base, p) ==>
      StrictlyBelow(base, Ancestor(p, k)) && IsRooted(Ancestor(p, k)) == IsRooted(p) &&
      Elements(Ancestor(p, k)) == Elements(p)[..|Elements(p)| - k]
  {
    CleanIdempotent(p);
    assert Elements(p)[..|Elements(p)|] == Elements(p);
    forall k: nat | k < Depth(base, p)
      ensures StrictlyBelow(base, Ancestor(p, k)) && IsRooted(Ancestor(p, k)) == IsRooted(p)
      ensures Elements(Ancestor(p, k)) == Elements(p)[..|Elements(p)| - k]
    {
      AncestorBelow(base, p, k);
    }
  }

  lemma AncestorBelow(base: string, p: string, k: nat)
    requires StrictlyBelow(base, p) && k < Depth(base, p)
    ensures StrictlyBelow(base, Ancestor(p, k)) && IsRooted(Ancestor(p, k)) == IsRooted(p)
    ensures Elements(Ancestor(p, k)) == Elements(p)[..|Elements(p)| - k]
  {
    var r, sp, sb := IsRooted(p), Elements(p), Elements(base);
    var st := sp[..|sp| - k];
    assert Ancestor(p, k) == Render(r, st);
    PrefixNormal(p, |sp| - k);
    assert st[..|sb|] == sb;
    assert forall j :: |sb| <= j < |st| ==> st[j] == sp[j];
    StackBelow(base, r, st);
  }

  /** A prefix of a path's elements is a normal stack. */
  lemma PrefixNormal(p: string, m: nat)
    requires m <= |Elements(p)|
    ensures Normal(IsRooted(p), Elements(p)[..m])
  {
    ElementsNormal(p);
    NormalPrefix(IsRooted(p), Elements(p), m);
  }

  /** The parent of an ancestor short of the last is the next ancestor,
      which is not the cleaned target directory. */
  lemma InnerParent(base: string, p: string, k: nat)
    requires StrictlyBelow(base, p) && k + 1 < Depth(base, p)
    ensures ParentDir(Ancestor(p, k)) == Ancestor(p, k + 1)
    ensures Ancestor(p, k + 1) != Clean(base)
  {
    AncestorNotBase(base, p, k + 1);
    assert Ancestor(p, k + 1) != Clean(base);
    ParentOfAncestor(p, k);
  }

  /** The parent of the last ancestor is the cleaned target directory. */
  lemma LastParent(base: string, p: string)
    requires StrictlyBelow(base, p)
    ensures Depth(base, p) > 0
    ensures ParentDir(Ancestor(p, Depth(base, p) - 1)) == Clean(base)
  {
    var d := Depth(base, p);
    ParentOfAncestor(p, d - 1);
    AncestorNotBase(base, p, d);
  }

  /** The parent of an ancestor of a clean path is the next ancestor. */
  lemma ParentOfAncestor(p: string, k: nat)
    requires k < |Elements(p)|
    ensures ParentDir(Ancestor(p, k)) == Ancestor(p, k + 1)
  {
    var r, sp := IsRooted(p), Elements(p);
    var up := sp[..|sp| - (k + 1)];
    var x := sp[|sp| - (k + 1)];
    assert sp[..|sp| - k] == up + [x];
    PrefixNormal(p, |sp| - k);
    ParentOfRender(r, up, x);
  }

  /** The ancestors of `p` short of `base` differ from the cleaned `base`,
      and the one at `base`'s depth is the cleaned `base`. */
  lemma AncestorNotBase(base: string, p: string, k: nat)
    requires StrictlyBelow(base, p) && k <= Depth(base, p)
    ensures Ancestor(p, k) == Clean(base) <==> k == Depth(base, p)
  {
    var r, sp, sb := IsRooted(p), Elements(p), Elements(base);
    var up := sp[..|sp| - k];
    PrefixNormal(p, |sp| - k);
    ElementsNormal(base);
    RenderInjective(r, up, r, sb);
    assert Clean(base) == Render(r, sb);
    assert up[..|sb|] == sb;
    if k == Depth(base, p) {
      assert up == sb;
    }
  }

  /** Each entry of the chain has the next one as its parent, and only the
      last one has the cleaned target directory as its parent. */
  lemma ChainLinks(base: string, p: string)
    requires StrictlyBelow(base, p)
    ensures var r := ExpandAncestorDirs(base, p);
      (forall k :: 0 <= k < |r| - 1 ==> ParentDir(r[k]) == r[k + 1] && ParentDir(r[k]) != Clean(base)) &&
      ParentDir(r[|r| - 1]) == Clean(base)
  {
    ChainInnerLinks(base, p);
    ChainLastLink(base, p);
  }

  lemma ChainInnerLinks(base: string, p: string)
    requires StrictlyBelow(base, p)
    ensures var r := ExpandAncestorDirs(base, p);
      forall k :: 0 <= k < |r| - 1 ==> ParentDir(r[k]) == r[k + 1] && ParentDir(r[k]) != Clean(base)
  {
    var r := ExpandAncestorDirs(base, p);
    forall k | 0 <= k < |r| - 1
      ensures ParentDir(r[k]) == r[k + 1] && ParentDir(r[k]) != Clean(base)
    {
      ChainLink(base, p, k);
    }
  }

  lemma ChainLink(base: string, p: string, k: nat)
    requires StrictlyBelow(base, p) && k + 1 < Depth(base, p)
    ensures var r := ExpandAncestorDirs(base, p);
      ParentDir(r[k]) == r[k + 1] && ParentDir(r[k]) != Clean(base)
  {
    var r := ExpandAncestorDirs(base, p);
    assert r[k] == Ancestor(p, k) && r[k + 1] == Ancestor(p, k + 1);
    InnerParent(base, p, k);
  }

  lemma ChainLastLink(base: string, p: string)
    requires StrictlyBelow(base, p)
    ensures var r := ExpandAncestorDirs(base, p);
      ParentDir(r[|r| - 1]) == Clean(base)
  {
    var r := ExpandAncestorDirs(base, p);
    LastParent(base, p);
    assert r[|r| - 1] == Ancestor(p, |r| - 1);
  }

  /** The corrected recursion stops, for every path strictly inside the
      target directory, with the chain of that path. */
  lemma CorrectedTerminates(base: string, p: string, fuel: nat)
    requires StrictlyBelow(base, p) && fuel >= Depth(base, p)
    ensures ExpandCorrected(base, p, fuel) == Some(ExpandAncestorDirs(base, p))
  {
    var r := ExpandAncestorDirs(base, p);
    ChainLinks(base, p);
    ClimbFollows(ParentDir, Clean(base), r, fuel);
  }

  /** With a target directory that is already clean, the code as written
      computes the intended chain, given recursion depth enough. */
  lemma AsWrittenAgrees(base: string, p: string, fuel: nat)
    requires base == Clean(base) && StrictlyBelow(base, p) && fuel >= Depth(base, p)
    ensures ExpandAsWritten(base, p, fuel) == Some(ExpandAncestorDirs(base, p))
  {
    CorrectedTerminates(base, p, fuel);
  }

  /** The parent is always clean, so it never equals a target directory
      that cleaning changes. */
  lemma UncleanNeverParent(base: string, p: string)
    requires base != Clean(base)
    ensures ParentDir(p) != base
  {
    CleanIdempotent(SplitPath(SplitPath(p).0).0);
  }

  /** With a target directory that cleaning changes, the code as written
      recurses without end, whatever the depth allowed. */
  lemma AsWrittenDiverges(base: string, p: string, fuel: nat)
    requires base != Clean(base)
    ensures ExpandAsWritten(base, p, fuel) == None
  {
    forall q ensures ParentDir(q) != base {
      UncleanNeverParent(base, q);
    }
    ClimbNeverStops(ParentDir, base, p, fuel);
  }

  /** `--dir foo/` with a file `a` in it: discovery reports "foo/a", whose
      parents are "foo" and then "." forever, never "foo/"; the corrected
      chain is just ["foo/a"]. */
  lemma TrailingSlashExample()
    ensures JoinPath("foo/", "a") == "foo/a"
    ensures forall fuel: nat :: ExpandAsWritten("foo/", "foo/a", fuel) == None
    ensures StrictlyBelow("foo/", "foo/a") && ExpandAncestorDirs("foo/", "foo/a") == ["foo/a"]
  {
    FooDir();
    FooFile();
    assert Depth("foo/", "foo/a") == 1;
    var r := ExpandAncestorDirs("foo/", "foo/a");
    assert r == [r[0]];
    forall fuel: nat ensures ExpandAsWritten("foo/", "foo/a", fuel) == None {
      AsWrittenDiverges("foo/", "foo/a", fuel);
    }
  }

  /** "foo/" cleans to "foo". */
  lemma FooDir()
    ensures !IsRooted("foo/") && Elements("foo/") == ["foo"] && Clean("foo/") == "foo"
  {
    assert Render(false, ["foo"]) == "foo";
    ParseRender(false, ["foo"]);
    CleanTrailingSlash("foo");
    CleanIdempotent("foo/");
  }

  /** "a" joined to "foo/" is "foo/a", a clean path one level inside
      "foo/". */
  lemma FooFile()
    ensures JoinPath("foo/", "a") == "foo/a"
    ensures Elements("foo/a") == ["foo", "a"] && StrictlyBelow("foo/", "foo/a")
  {
    FooDir();
    JoinPlain("foo/", "a");
    var st := ["foo", "a"];
    assert Render(false, st) == "foo/a" by {
      assert Join(st, "/") == "foo/a";
    }
    assert st[..1] == ["foo"];
    StackBelow("foo/", false, st);
  }
}
