/** The rename phase (renameFilesAndDirs in replace-word.go): every target
    file and every directory above it, up to the target directory, is
    collected once, the list is sorted in descending order so that a path
    comes before the directories that hold it, and each entry whose base
    name the dictionary changes is renamed inside its own directory. */
module Rename {
  import opened Io
  import opened Text
  import opened Order
  import opened FilePath
  import opened Dictionary
  import opened Replace
  import opened Expand

  /** Every path is strictly inside the target directory. */
  predicate AllBelow(base: string, paths: seq<string>)
  {
    forall k :: 0 <= k < |paths| ==> StrictlyBelow(base, paths[k])
  }

  /** The chains of all paths, one after the other. */
  function Chains(base: string, paths: seq<string>): seq<string>
    requires AllBelow(base, paths)
    decreases |paths|
  {
    if paths == [] then [] else ExpandAncestorDirs(base, paths[0]) + Chains(base, paths[1..])
  }

  /** The entries of `s` not in `seen`, each at its first occurrence: what
      the `found` map lets through. */
  function Dedup(s: seq<string>, seen: set<string>): (r: seq<string>)
    ensures Distinct(r)
    ensures forall q :: q in r <==> q in s && q !in seen
    decreases |s|
  {
    if s == [] then []
    else if s[0] in seen then Dedup(s[1..], seen)
    else
      var rest := Dedup(s[1..], seen + {s[0]});
      assert forall q :: q in s <==> q == s[0] || q in s[1..];
      [s[0]] + rest
  }

  /** The rename plan: every path and directory once, in descending order. */
  function Plan(base: string, paths: seq<string>): seq<string>
    requires AllBelow(base, paths)
  {
    SortDescending(Dedup(Chains(base, paths), {}))
  }

  /** `q` is `p` or a directory above it, strictly inside `base`. */
  predicate AncestorOrSelf(base: string, q: string, p: string)
  {
    StrictlyBelow(base, q) && IsRooted(q) == IsRooted(p) &&
    |Elements(q)| <= |Elements(p)| && Elements(p)[..|Elements(q)|] == Elements(q)
  }

  /** The chain of `p` holds exactly `p` and the directories above it. */
  lemma ExpandMembers(base: string, p: string, q: string)
    requires StrictlyBelow(base, p)
    ensures q in ExpandAncestorDirs(base, p) <==> AncestorOrSelf(base, q, p)
  {
    var r := ExpandAncestorDirs(base, p);
    if q in r {
      ChainEntryIsAncestor(base, p, q);
    }
    if AncestorOrSelf(base, q, p) {
      AncestorInChain(base, p, q);
    }
  }

  lemma ChainEntryIsAncestor(base: string, p: string, q: string)
    requires StrictlyBelow(base, p) && q in ExpandAncestorDirs(base, p)
    ensures AncestorOrSelf(base, q, p)
  {
    var r := ExpandAncestorDirs(base, p);
    var k :| 0 <= k < |r| && r[k] == q;
    var sp, sq := Elements(p), Elements(q);
    assert StrictlyBelow(base, q) && IsRooted(q) == IsRooted(p) && sq == sp[..|sp| - k];
    TakeIsPrefix(sp, |sp| - k);
  }

  lemma TakeIsPrefix(s: seq<string>, n: nat)
    requires n <= |s|
    ensures |s[..n]| <= |s| && s[..|s[..n]|] == s[..n]
  {
  }

  lemma AncestorInChain(base: string, p: string, q: string)
    requires StrictlyBelow(base, p) && AncestorOrSelf(base, q, p)
    ensures q in ExpandAncestorDirs(base, p)
  {
    var r := ExpandAncestorDirs(base, p);
    var sp, sq := Elements(p), Elements(q);
    var k := |sp| - |sq|;
    assert r[k] == Ancestor(p, k);
    assert sp[..|sp| - k] == sq;
    assert Ancestor(p, k) == Render(IsRooted(q), sq);
    assert Render(IsRooted(q), sq) == Clean(q) == q;
  }

  lemma {:induction false} ChainsMembers(base: string, paths: seq<string>, q: string)
    requires AllBelow(base, paths)
    ensures q in Chains(base, paths) <==> exists k :: 0 <= k < |paths| && AncestorOrSelf(base, q, paths[k])
    decreases |paths|
  {
    if paths != [] {
      var tail := paths[1..];
      var c, rest := ExpandAncestorDirs(base, paths[0]), Chains(base, tail);
      assert Chains(base, paths) == c + rest;
      ExpandMembers(base, paths[0], q);
      ChainsMembers(base, tail, q);
      if q in rest {
        var k :| 0 <= k < |tail| && AncestorOrSelf(base, q, tail[k]);
        assert tail[k] == paths[k + 1];
      }
      if exists k :: 0 <= k < |paths| && AncestorOrSelf(base, q, paths[k]) {
        var k :| 0 <= k < |paths| && AncestorOrSelf(base, q, paths[k]);
        if k > 0 {
          assert tail[k - 1] == paths[k];
        }
      }
    }
  }

  /** The plan is strictly descending and holds exactly the target paths
      and the directories above them, strictly inside the target
      directory. */
  lemma PlanShape(base: string, paths: seq<string>)
    requires AllBelow(base, paths)
    ensures StrictlyDescending(Plan(base, paths))
    ensures forall q :: q in Plan(base, paths) <==> exists k :: 0 <= k < |paths| && AncestorOrSelf(base, q, paths[k])
  {
    var s := Dedup(Chains(base, paths), {});
    var plan := Plan(base, paths);
    forall q ensures q in plan <==> exists k :: 0 <= k < |paths| && AncestorOrSelf(base, q, paths[k]) {
      ChainsMembers(base, paths, q);
      assert q in plan <==> q in multiset(plan);
      assert q in s <==> q in multiset(s);
    }
  }

  /** A path within `a`: `a` itself or anything under it. */
  predicate Within(a: string, q: string)
  {
    q == a || IsPrefix(a + "/", q)
  }

  /** In a strictly descending plan no entry lies within an earlier one:
      whatever is inside a directory is renamed before the directory. */
  lemma DescendantsFirst(plan: seq<string>)
    requires StrictlyDescending(plan)
    ensures forall i, j :: 0 <= i < j < |plan| ==> !Within(plan[i], plan[j])
  {
    forall i, j | 0 <= i < j < |plan| ensures !Within(plan[i], plan[j]) {
      var a, q := plan[i], plan[j];
      if Within(a, q) {
        if q == a {
          LessIrreflexive(q);
        } else {
          assert q[..|a|] == (a + "/")[..|a|] == a;
          PrefixLess(a, q);
          LessAsymmetric(a, q);
        }
      }
    }
  }

  /** renameFilesAndDirs's first loop: each chain is walked and a path is
      kept when the `found` set has not seen it; the result is sorted. */
  method PlanRenames(base: string, paths: seq<string>) returns (plan: seq<string>)
    requires AllBelow(base, paths)
    ensures plan == Plan(base, paths)
  {
    var expanded: seq<string> := [];
    var found: set<string> := {};
    ghost var whole := Dedup(Chains(base, paths), {});
    for i := 0 to |paths|
      invariant whole == expanded + Dedup(Chains(base, paths[i..]), found)
    {
      var chain := ExpandAncestorDirs(base, paths[i]);
      ghost var later := Chains(base, paths[i + 1..]);
      ChainsCons(base, paths, i);
      expanded, found := KeepUnseen(chain, later, expanded, found);
    }
    assert expanded + [] == expanded;
    plan := SortDescending(expanded);
  }

  /** The inner loop over one chain: each path not yet in `found` is
      appended and recorded.  Walking the chain and then deduplicating what
      follows is deduplicating the chain and what follows. */
  method KeepUnseen(chain: seq<string>, ghost later: seq<string>, expanded0: seq<string>, found0: set<string>)
    returns (expanded: seq<string>, found: set<string>)
    ensures expanded + Dedup(later, found) == expanded0 + Dedup(chain + later, found0)
  {
    expanded, found := expanded0, found0;
    assert chain[0..] == chain;
    for m := 0 to |chain|
      invariant expanded + Dedup(chain[m..] + later, found) == expanded0 + Dedup(chain + later, found0)
    {
      var q := chain[m];
      DedupStep(expanded, chain, m, later, found);
      if q !in found {
        found := found + {q};
        expanded := expanded + [q];
      }
    }
    assert chain[|chain|..] + later == later;
  }

  lemma ChainsCons(base: string, paths: seq<string>, i: nat)
    requires AllBelow(base, paths) && i < |paths|
    ensures Chains(base, paths[i..]) == ExpandAncestorDirs(base, paths[i]) + Chains(base, paths[i + 1..])
  {
    assert paths[i..][1..] == paths[i + 1..];
  }

  /** One step of the inner loop: the next entry is kept exactly when
      `found` has not seen it. */
  lemma DedupStep(expanded: seq<string>, chain: seq<string>, m: nat, later: seq<string>, found: set<string>)
    requires m < |chain|
    ensures expanded + Dedup(chain[m..] + later, found) ==
      if chain[m] in found then expanded + Dedup(chain[m + 1..] + later, found)
      else (expanded + [chain[m]]) + Dedup(chain[m + 1..] + later, found + {chain[m]})
  {
    var s := chain[m..] + later;
    assert s[0] == chain[m] && s[1..] == chain[m + 1..] + later;
    var rest := Dedup(s[1..], found + {chain[m]});
    assert expanded + ([chain[m]] + rest) == (expanded + [chain[m]]) + rest;
  }

  /** What a path names on disk. */
  datatype Kind = RegularFile | Directory

  /** The paths that exist when the rename phase runs (the target directory
      among them), with what each is. */
  type Tree = map<string, Kind>

  /** A successful rename of `src` to `dst`: everything within `src` moves
      within `dst`, whatever was at `dst` is replaced, and every other path
      stays as it was. */
  function Move(fs: Tree, src: string, dst: string): Tree
    requires src in fs
  {
    var kept := set q | q in fs && !Within(src, q) && !Within(dst, q);
    var moved := set q | q in fs && Within(src, q) :: dst + q[|src|..];
    assert forall k :: k in moved ==> |dst| <= |k| && src + k[|dst|..] in fs by {
      forall k | k in moved ensures |dst| <= |k| && src + k[|dst|..] in fs {
        var q :| q in fs && Within(src, q) && k == dst + q[|src|..];
        assert k[|dst|..] == q[|src|..];
        assert src + q[|src|..] == q;
      }
    }
    map k | k in kept + moved :: if k in kept then fs[k] else fs[src + k[|dst|..]]
  }

  /** A rename leaves every path outside both `src` and `dst` alone, and
      puts what was at `src` at `dst`. */
  lemma MoveFrame(fs: Tree, src: string, dst: string)
    requires src in fs
    ensures forall q :: q in fs && !Within(src, q) && !Within(dst, q) ==> q in Move(fs, src, dst) && Move(fs, src, dst)[q] == fs[q]
    ensures dst in Move(fs, src, dst) && Move(fs, src, dst)[dst] == fs[src]
  {
    var m := Move(fs, src, dst);
    assert src[|src|..] == "";
    assert dst + src[|src|..] == dst;
    assert dst in m;
    assert src + dst[|dst|..] == src;
  }

  /** Renaming `src` to `q`'s place: a path within `src` has its
      counterpart within `dst`, and the counterpart leads back to it. */
  lemma MovedPath(src: string, dst: string, q: string)
    requires Within(src, q)
    ensures Within(dst, dst + q[|src|..])
    ensures |dst| <= |dst + q[|src|..]|
    ensures src + (dst + q[|src|..])[|dst|..] == q
  {
    var t := q[|src|..];
    assert (dst + t)[|dst|..] == t;
    if q != src {
      assert q[..|src| + 1] == src + "/";
      assert t[..1] == "/";
      assert (dst + t)[..|dst| + 1] == dst + "/";
    }
  }

  /** The whole tree after a rename: every path within `src` reappears at
      the same place within `dst` with what it was, `src` itself is gone
      unless it lies within `dst`, and every remaining path is either one
      that lay outside both and keeps what it was, or one within `dst` that
      came from `src`. */
  lemma MoveContents(fs: Tree, src: string, dst: string)
    requires src in fs
    ensures forall q :: q in fs && Within(src, q) ==>
      dst + q[|src|..] in Move(fs, src, dst) && Move(fs, src, dst)[dst + q[|src|..]] == fs[q]
    ensures forall k :: k in Move(fs, src, dst) ==>
      (k in fs && !Within(src, k) && !Within(dst, k) && Move(fs, src, dst)[k] == fs[k]) ||
      (Within(dst, k) && |dst| <= |k| && src + k[|dst|..] in fs && Move(fs, src, dst)[k] == fs[src + k[|dst|..]])
    ensures !Within(dst, src) ==> src !in Move(fs, src, dst)
  {
    var m := Move(fs, src, dst);
    forall q | q in fs && Within(src, q)
      ensures dst + q[|src|..] in m && m[dst + q[|src|..]] == fs[q]
    {
      MovedPath(src, dst, q);
    }
    forall k | k in m
      ensures (k in fs && !Within(src, k) && !Within(dst, k) && m[k] == fs[k]) ||
        (Within(dst, k) && |dst| <= |k| && src + k[|dst|..] in fs && m[k] == fs[src + k[|dst|..]])
    {
      if !(k in fs && !Within(src, k) && !Within(dst, k)) {
        var q :| q in fs && Within(src, q) && k == dst + q[|src|..];
        MovedPath(src, dst, q);
      }
    }
    if src in m {
      assert Within(src, src);
    }
  }

  /** os.Rename(src, dst) on Unix: Go first refuses an existing directory
      at `dst`, then rename(2) checks the source, the target's directory,
      a move of a directory into itself and a directory onto a file. */
  function RenameAttempt(fs: Tree, src: string, dst: string): Result<Tree>
  {
    match Refusal(fs, src, dst, ParentDir(dst))
    case Some(why) => Err(RenameFailed(src, dst, why))
    case None => Ok(Move(fs, src, dst))
  }

  /** The first check of os.Rename that fails, if any, where `parent` is
      the target's directory; a rename that passes them all finds its
      source. */
  function Refusal(fs: Tree, src: string, dst: string, parent: string): (r: Option<RenameFault>)
    ensures r.None? ==> src in fs
  {
    if dst in fs && fs[dst] == Directory then
      Some(if src in fs then TargetIsDirectory else SourceMissing)
    else if src !in fs then Some(SourceMissing)
    else if parent !in fs then Some(TargetParentMissing)
    else if fs[parent] != Directory then Some(TargetParentNotDirectory)
    else if fs[src] == Directory && Within(src, dst) then Some(IntoItself)
    else if fs[src] == Directory && dst in fs then Some(DirectoryOverFile)
    else None
  }

  /** os.Rename, given the tree it works on: the tree afterwards, or the
      error it reports. */
  type RenameCall = (Tree, string, string) -> Result<Tree>

  /** One printed line `dir/before => dir/after`. */
  datatype Renamed = Renamed(dir: string, before: string, after: string)

  /** What the rename loop works out for one entry of the plan: the entry,
      its line (directory, old and new base name) and its new path. */
  datatype Step = Step(src: string, line: Renamed, dst: string)

  /** The directory and base name of `src` (filepath.Split, then
      filepath.Dir of the directory part), the base name after the
      dictionary, and the two joined back with filepath.Join. */
  function StepOf(src: string, d: seq<Item>): Step
  {
    var dir := ParentDir(src);
    var before := BaseName(src);
    var after := ApplyDict(before, d);
    Step(src, Renamed(dir, before, after), JoinPath(dir, after))
  }

  /** The steps of a whole plan, entry by entry. */
  function Steps(plan: seq<string>, d: seq<Item>): seq<Step>
  {
    seq(|plan|, k requires 0 <= k < |plan| => StepOf(plan[k], d))
  }

  /** The error that stopped the phase (if any), the tree afterwards and the
      lines printed up to then. */
  datatype RenameOutcome = RenameOutcome(err: Option<Error>, fs: Tree, log: seq<Renamed>)

  /** One entry of renameFilesAndDirs's second loop: an entry whose base
      name the dictionary leaves alone is skipped; otherwise a real run
      renames it, and on success (or in a dry run) the line is printed. */
  function EntryOutcome(rename: RenameCall, fs: Tree, s: Step, dryRun: bool): RenameOutcome
  {
    if s.line.before == s.line.after then RenameOutcome(None, fs, [])
    else if dryRun then RenameOutcome(None, fs, [s.line])
    else
      match rename(fs, s.src, s.dst)
      case Err(e) => RenameOutcome(Some(e), fs, [])
      case Ok(next) => RenameOutcome(None, next, [s.line])
  }

  /** The second loop: the entries in turn, the first failure stopping
      the phase. */
  function RenameRun(rename: RenameCall, fs: Tree, steps: seq<Step>, dryRun: bool): RenameOutcome
    decreases |steps|
  {
    if steps == [] then RenameOutcome(None, fs, [])
    else
      var o := EntryOutcome(rename, fs, steps[0], dryRun);
      if o.err.Some? then o
      else
        var rest := RenameRun(rename, o.fs, steps[1..], dryRun);
        rest.(log := o.log + rest.log)
  }

  /** The body of the second loop, for the entry `src`. */
  method RenameEntry(rename: RenameCall, fs: Tree, src: string, d: seq<Item>, dryRun: bool)
    returns (err: Option<Error>, next: Tree, printed: seq<Renamed>)
    ensures RenameOutcome(err, next, printed) == EntryOutcome(rename, fs, StepOf(src, d), dryRun)
  {
    var dir := ParentDir(src);
    var before := BaseName(src);
    var after := ApplyItems(before, d);
    assert StepOf(src, d) == Step(src, Renamed(dir, before, after), JoinPath(dir, after));
    if before == after {
      return None, fs, [];
    }
    next := fs;
    if !dryRun {
      var afterPath := JoinPath(dir, after);
      match rename(fs, src, afterPath)
      case Err(e) =>
        return Some(e), fs, [];
      case Ok(moved) =>
        next := moved;
    }
    err, printed := None, [Renamed(dir, before, after)];
  }

  /** The rename loop of renameFilesAndDirs. */
  method RenameAll(rename: RenameCall, fs0: Tree, plan: seq<string>, d: seq<Item>, dryRun: bool)
    returns (err: Option<Error>, fs: Tree, log: seq<Renamed>)
    ensures RenameOutcome(err, fs, log) == RenameRun(rename, fs0, Steps(plan, d), dryRun)
  {
    ghost var steps := Steps(plan, d);
    fs, log := fs0, [];
    assert steps[0..] == steps;
    AfterEmpty(RenameRun(rename, fs0, steps, dryRun));
    for i := 0 to |plan|
      invariant RenameRun(rename, fs0, steps, dryRun) == After(log, RenameRun(rename, fs, steps[i..], dryRun))
    {
      var e, next, printed := RenameEntry(rename, fs, plan[i], d, dryRun);
      RunOneMore(rename, fs, steps, i, dryRun, log, RenameOutcome(e, next, printed));
      if e.Some? {
        return e, fs, log;
      }
      fs, log := next, log + printed;
    }
    AfterNothing(log, fs, None);
    err := None;
  }

  /** An outcome preceded by the lines printed before it. */
  function After(log: seq<Renamed>, o: RenameOutcome): RenameOutcome
  {
    o.(log := log + o.log)
  }

  /** One more entry of the loop: the run from entry `i` on is the entry's
      outcome followed, when it did not fail, by the run from entry
      `i + 1` on. */
  lemma RunOneMore(rename: RenameCall, fs: Tree, steps: seq<Step>, i: nat, dryRun: bool, log: seq<Renamed>, o: RenameOutcome)
    requires i < |steps| && o == EntryOutcome(rename, fs, steps[i], dryRun)
    ensures o.err.Some? ==> After(log, RenameRun(rename, fs, steps[i..], dryRun)) == RenameOutcome(o.err, fs, log)
    ensures o.err.None? ==>
      After(log, RenameRun(rename, fs, steps[i..], dryRun)) == After(log + o.log, RenameRun(rename, o.fs, steps[i + 1..], dryRun))
  {
    assert steps[i..][1..] == steps[i + 1..];
    var rest := RenameRun(rename, o.fs, steps[i + 1..], dryRun);
    assert log + (o.log + rest.log) == (log + o.log) + rest.log;
    assert log + [] == log;
  }

  lemma AfterEmpty(o: RenameOutcome)
    ensures After([], o) == o
  {
    assert [] + o.log == o.log;
  }

  lemma AfterNothing(log: seq<Renamed>, fs: Tree, err: Option<Error>)
    ensures After(log, RenameOutcome(err, fs, [])) == RenameOutcome(err, fs, log)
  {
    assert log + [] == log;
  }

  /** renameFilesAndDirs. */
  method RenameFilesAndDirs(rename: RenameCall, fs0: Tree, base: string, paths: seq<string>, d: seq<Item>, dryRun: bool)
    returns (err: Option<Error>, fs: Tree, log: seq<Renamed>)
    requires AllBelow(base, paths)
    ensures RenameOutcome(err, fs, log) == RenameRun(rename, fs0, Steps(Plan(base, paths), d), dryRun)
  {
    var plan := PlanRenames(base, paths);
    err, fs, log := RenameAll(rename, fs0, plan, d, dryRun);
  }

  /** The lines of the steps whose base name changes, in order. */
  function Changes(steps: seq<Step>): seq<Renamed>
    decreases |steps|
  {
    if steps == [] then []
    else (if steps[0].line.before != steps[0].line.after then [steps[0].line] else []) + Changes(steps[1..])
  }

  /** A dry run changes nothing, cannot fail and prints every change. */
  lemma {:induction false} DryRunLog(rename: RenameCall, fs: Tree, steps: seq<Step>)
    ensures RenameRun(rename, fs, steps, true) == RenameOutcome(None, fs, Changes(steps))
    decreases |steps|
  {
    if steps != [] {
      DryRunLog(rename, fs, steps[1..]);
    }
  }

  /** A real run prints the changes in order up to the one that failed,
      and all of them when it succeeds; so a successful real run prints
      what the dry run prints. */
  lemma {:induction false} RealRunLog(rename: RenameCall, fs: Tree, steps: seq<Step>)
    ensures RenameRun(rename, fs, steps, false).log <= Changes(steps)
    ensures RenameRun(rename, fs, steps, false).err == None ==> RenameRun(rename, fs, steps, false).log == Changes(steps)
    decreases |steps|
  {
    if steps != [] {
      var o := EntryOutcome(rename, fs, steps[0], false);
      if o.err == None {
        RealRunLog(rename, o.fs, steps[1..]);
        PrefixAppend(o.log, RenameRun(rename, o.fs, steps[1..], false).log, Changes(steps[1..]));
      }
    }
  }

  lemma PrefixAppend(x: seq<Renamed>, a: seq<Renamed>, b: seq<Renamed>)
    requires a <= b
    ensures x + a <= x + b
  {
    assert (x + b)[..|x + a|] == x + b[..|a|];
  }

  /** Every line of Changes comes from a step whose base name changes. */
  lemma {:induction false} ChangesFrom(steps: seq<Step>)
    ensures forall line :: line in Changes(steps) ==>
      line.before != line.after && exists k :: 0 <= k < |steps| && steps[k].line == line
    decreases |steps|
  {
    if steps != [] {
      var rest := steps[1..];
      ChangesFrom(rest);
      forall line | line in Changes(steps)
        ensures line.before != line.after && exists k :: 0 <= k < |steps| && steps[k].line == line
      {
        if line in Changes(rest) {
          var k :| 0 <= k < |rest| && rest[k].line == line;
          assert steps[k + 1] == rest[k];
        } else {
          assert steps[0].line == line;
        }
      }
    }
  }

  /** Every printed line is a real change of the base name of an entry of
      the plan, by the dictionary, in that entry's directory. */
  lemma ChangesOfPlan(plan: seq<string>, d: seq<Item>)
    ensures forall line :: line in Changes(Steps(plan, d)) ==>
      line.after == ApplyDict(line.before, d) && line.before != line.after &&
      exists k :: 0 <= k < |plan| && line.dir == ParentDir(plan[k]) && line.before == BaseName(plan[k])
  {
    var steps := Steps(plan, d);
    ChangesFrom(steps);
    forall line | line in Changes(steps)
      ensures line.after == ApplyDict(line.before, d) &&
        exists k :: 0 <= k < |plan| && line.dir == ParentDir(plan[k]) && line.before == BaseName(plan[k])
    {
      var k :| 0 <= k < |steps| && steps[k].line == line;
      assert steps[k] == StepOf(plan[k], d);
    }
  }

  /** No renamed entry lands on, or over, an entry still to be renamed. */
  predicate NoCollision(steps: seq<Step>)
  {
    forall i, j :: 0 <= i < j < |steps| && steps[i].line.before != steps[i].line.after ==>
      !Within(steps[i].dst, steps[j].src)
  }

  /** Renaming in descending order never finds an entry of the plan gone:
      when every entry exists at the start and no new name lands on an
      entry still to come, no rename fails for want of its source. */
  lemma SourcesNeverMissing(fs: Tree, plan: seq<string>, d: seq<Item>)
    requires StrictlyDescending(plan) && NoCollision(Steps(plan, d))
    requires forall k :: 0 <= k < |plan| ==> plan[k] in fs
    ensures RenameRun(RenameAttempt, fs, Steps(plan, d), false).err.Some? ==>
      RenameRun(RenameAttempt, fs, Steps(plan, d), false).err.value.RenameFailed? &&
      RenameRun(RenameAttempt, fs, Steps(plan, d), false).err.value.why != SourceMissing
  {
    DescendantsFirst(plan);
    SourcesStay(fs, Steps(plan, d));
  }

  lemma {:induction false} SourcesStay(fs: Tree, steps: seq<Step>)
    requires NoCollision(steps)
    requires forall i, j :: 0 <= i < j < |steps| ==> !Within(steps[i].src, steps[j].src)
    requires forall k :: 0 <= k < |steps| ==> steps[k].src in fs
    ensures RenameRun(RenameAttempt, fs, steps, false).err.Some? ==>
      RenameRun(RenameAttempt, fs, steps, false).err.value.RenameFailed? &&
      RenameRun(RenameAttempt, fs, steps, false).err.value.why != SourceMissing
    decreases |steps|
  {
    if steps != [] {
      var s, rest := steps[0], steps[1..];
      assert forall k :: 0 <= k < |rest| ==> rest[k] == steps[k + 1];
      var o := EntryOutcome(RenameAttempt, fs, s, false);
      AttemptKeepsSource(fs, s.src, s.dst, ParentDir(s.dst));
      if o.err == None {
        if s.line.before != s.line.after {
          MoveFrame(fs, s.src, s.dst);
          forall k | 0 <= k < |rest| ensures rest[k].src in o.fs {
            assert !Within(s.src, steps[k + 1].src) && !Within(s.dst, steps[k + 1].src);
          }
        }
        SourcesStay(o.fs, rest);
      }
    }
  }

  /** A rename whose source exists fails for another reason than a missing
      source. */
  lemma AttemptKeepsSource(fs: Tree, src: string, dst: string, parent: string)
    requires src in fs
    ensures Refusal(fs, src, dst, parent) != Some(SourceMissing)
  {
  }

  /** The rename a step asks for, when the new base name is a plain name:
      the line shows the entry's directory and base name, and the new path
      lies in that same directory under the new base name. */
  lemma StepTarget(src: string, d: seq<Item>)
    requires Plain(ApplyDict(BaseName(src), d))
    ensures var s := StepOf(src, d);
      s.line.dir == ParentDir(src) && s.line.before == BaseName(src) &&
      ParentDir(s.dst) == ParentDir(src) && BaseName(s.dst) == s.line.after
  {
    ParentDirClean(src);
    JoinSplitsBack(ParentDir(src), ApplyDict(BaseName(src), d));
  }

  /** A base name renamed to a plain name stays in its directory: the new
      path has the same parent, the new name as its base name, and is
      strictly inside the target directory too. */
  lemma TargetIsSibling(base: string, src: string, n: string)
    requires StrictlyBelow(base, src) && Plain(n)
    ensures ParentDir(JoinPath(ParentDir(src), n)) == ParentDir(src)
    ensures BaseName(JoinPath(ParentDir(src), n)) == n
    ensures StrictlyBelow(base, JoinPath(ParentDir(src), n))
  {
    ParentDirClean(src);
    JoinSplitsBack(ParentDir(src), n);
    SiblingPath(base, src, n);
    SiblingBelow(base, src, n);
  }

  lemma SiblingPath(base: string, src: string, n: string)
    requires StrictlyBelow(base, src) && Plain(n)
    ensures var sp := Elements(src);
      ParentDir(src) == Render(IsRooted(src), sp[..|sp| - 1]) &&
      JoinPath(ParentDir(src), n) == Render(IsRooted(src), sp[..|sp| - 1] + [n])
  {
    ParentOfClean(src);
    JoinPlain(ParentDir(src), n);
  }

  /** The sibling named `n` of a path strictly inside `base` is strictly
      inside `base` too. */
  lemma SiblingBelow(base: string, src: string, n: string)
    requires StrictlyBelow(base, src) && Plain(n)
    ensures var sp := Elements(src);
      StrictlyBelow(base, Render(IsRooted(src), sp[..|sp| - 1] + [n]))
  {
    var r, sp, sb := IsRooted(src), Elements(src), Elements(base);
    var s2 := sp[..|sp| - 1] + [n];
    SiblingStack(base, src, n);
    assert s2[..|sb|] == sp[..|sb|];
    assert forall k :: |sb| <= k < |s2| - 1 ==> s2[k] == sp[k];
    assert s2[|s2| - 1] == n;
    StackBelow(base, r, s2);
  }

  /** Replacing the last element of a path strictly inside `base` by a plain
      name gives a normal stack. */
  lemma SiblingStack(base: string, src: string, n: string)
    requires StrictlyBelow(base, src) && Plain(n)
    ensures var sp := Elements(src);
      Normal(IsRooted(src), sp[..|sp| - 1]) && Normal(IsRooted(src), sp[..|sp| - 1] + [n])
  {
    var r, sp := IsRooted(src), Elements(src);
    var st := sp[..|sp| - 1];
    ElementsNormal(src);
    PrefixNormal(src, |sp| - 1);
    var s2 := st + [n];
    assert forall k :: 0 <= k < |st| ==> s2[k] == sp[k];
    assert s2[|st|] == n;
  }
}
