/** The text phase: every target file is read, every dictionary pair is
    replaced in turn, and a changed file is written back (unless dry
    running) and reported as a diff (replaceText in replace-word.go). */
module Replace {
  import opened Io
  import opened Text
  import opened Order
  import opened Dictionary

  /** The left fold of strings.ReplaceAll over the items, in order: each
      item works on the output of the previous one. */
  function ApplyDict(s: string, d: seq<Item>): string
    decreases |d|
  {
    if d == [] then s else ApplyDict(ReplaceAll(s, d[0].before, d[0].after), d[1..])
  }

  /** Applying two dictionaries one after the other is applying their
      concatenation. */
  lemma {:induction false} ApplyDictAppend(s: string, d1: seq<Item>, d2: seq<Item>)
    ensures ApplyDict(s, d1 + d2) == ApplyDict(ApplyDict(s, d1), d2)
    decreases |d1|
  {
    if d1 != [] {
      assert (d1 + d2)[1..] == d1[1..] + d2;
      ApplyDictAppend(ReplaceAll(s, d1[0].before, d1[0].after), d1[1..], d2);
    } else {
      assert d1 + d2 == d2;
    }
  }

  /** Every pair maps a string to itself. */
  predicate IsIdentity(d: seq<Item>)
  {
    forall k :: 0 <= k < |d| ==> d[k].before == d[k].after
  }

  /** A dictionary of identity pairs (same phrase before and after) leaves
      every text as it is. */
  lemma {:induction false} ApplyDictIdentity(s: string, d: seq<Item>)
    requires IsIdentity(d)
    ensures ApplyDict(s, d) == s
    decreases |d|
  {
    if d != [] {
      ReplaceAllSame(s, d[0].before);
      ApplyDictIdentity(s, d[1..]);
    }
  }

  /** A text in which no (non-empty) pattern occurs is left as it is. */
  lemma {:induction false} ApplyDictAbsent(s: string, d: seq<Item>)
    requires forall k :: 0 <= k < |d| ==> d[k].before != [] && !Occurs(d[k].before, s)
    ensures ApplyDict(s, d) == s
    decreases |d|
  {
    if d != [] {
      ReplaceAllAbsent(s, d[0].before, d[0].after);
      ApplyDictAbsent(s, d[1..]);
    }
  }

  /** The inner loop of replaceText (and of renameFilesAndDirs). */
  method ApplyItems(s: string, d: seq<Item>) returns (t: string)
    ensures t == ApplyDict(s, d)
  {
    t := s;
    for i := 0 to |d|
      invariant ApplyDict(t, d[i..]) == ApplyDict(s, d)
    {
      assert d[i..][1..] == d[i + 1..];
      t := ReplaceAll(t, d[i].before, d[i].after);
    }
  }

  /** The files as the text phase sees them: the contents of every regular
      file, and the files that cannot be written. */
  datatype Disk = Disk(text: map<string, string>, readOnly: set<string>)

  /** A printed diff, given by the texts it is computed from. */
  datatype Diff = Diff(path: string, before: string, after: string)

  /** The error that stopped the phase (if any), the files afterwards and
      the diffs printed up to then. */
  datatype Outcome = Outcome(err: Option<Error>, disk: Disk, diffs: seq<Diff>)

  /** What replaceText does, path by path: a missing file stops it with a
      read error; an unchanged text is skipped; otherwise a real run writes
      the new text (a read-only file stops it with a write error) and the
      diff is printed. */
  function ReplaceRun(disk: Disk, paths: seq<string>, d: seq<Item>, dryRun: bool): Outcome
    decreases |paths|
  {
    if paths == [] then Outcome(None, disk, [])
    else
      var p := paths[0];
      if p !in disk.text then Outcome(Some(ReadFileFailed(p)), disk, [])
      else
        var before := disk.text[p];
        var after := ApplyDict(before, d);
        if before == after then ReplaceRun(disk, paths[1..], d, dryRun)
        else if !dryRun && p in disk.readOnly then Outcome(Some(WriteFailed(p)), disk, [])
        else
          var next := if dryRun then disk else disk.(text := disk.text[p := after]);
          Prepend([Diff(p, before, after)], ReplaceRun(next, paths[1..], d, dryRun))
  }

  function Prepend(ds: seq<Diff>, o: Outcome): Outcome
  {
    o.(diffs := ds + o.diffs)
  }

  lemma PrependPrepend(a: seq<Diff>, b: seq<Diff>, o: Outcome)
    ensures Prepend(a, Prepend(b, o)) == Prepend(a + b, o)
  {
    assert a + (b + o.diffs) == (a + b) + o.diffs;
  }

  /** replaceText. */
  method ReplaceText(disk0: Disk, paths: seq<string>, d: seq<Item>, dryRun: bool)
    returns (err: Option<Error>, disk: Disk, diffs: seq<Diff>)
    ensures Outcome(err, disk, diffs) == ReplaceRun(disk0, paths, d, dryRun)
  {
    disk, diffs := disk0, [];
    for i := 0 to |paths|
      invariant ReplaceRun(disk0, paths, d, dryRun) == Prepend(diffs, ReplaceRun(disk, paths[i..], d, dryRun))
    {
      var rest := paths[i..];
      assert rest[0] == paths[i] && rest[1..] == paths[i + 1..];
      var p := paths[i];
      if p !in disk.text {
        return Some(ReadFileFailed(p)), disk, diffs;
      }
      var before := disk.text[p];
      var after := ApplyItems(before, d);
      if before == after {
        assert ReplaceRun(disk, rest, d, dryRun) == ReplaceRun(disk, paths[i + 1..], d, dryRun);
        continue;
      }
      if !dryRun && p in disk.readOnly {
        return Some(WriteFailed(p)), disk, diffs;
      }
      var next := if dryRun then disk else disk.(text := disk.text[p := after]);
      assert ReplaceRun(disk, rest, d, dryRun) ==
        Prepend([Diff(p, before, after)], ReplaceRun(next, paths[i + 1..], d, dryRun));
      PrependPrepend(diffs, [Diff(p, before, after)], ReplaceRun(next, paths[i + 1..], d, dryRun));
      disk, diffs := next, diffs + [Diff(p, before, after)];
    }
    err := None;
  }

  /** A dry run writes nothing. */
  lemma {:induction false} DryRunKeepsDisk(disk: Disk, paths: seq<string>, d: seq<Item>)
    ensures ReplaceRun(disk, paths, d, true).disk == disk
    decreases |paths|
  {
    if paths != [] {
      DryRunKeepsDisk(disk, paths[1..], d);
    }
  }

  /** A dry run fails exactly when some target file is missing. */
  lemma {:induction false} DryRunFails(disk: Disk, paths: seq<string>, d: seq<Item>)
    ensures ReplaceRun(disk, paths, d, true).err == None <==> forall p :: p in paths ==> p in disk.text
    decreases |paths|
  {
    if paths != [] {
      DryRunFails(disk, paths[1..], d);
      assert forall p :: p in paths <==> p == paths[0] || p in paths[1..];
    }
  }

  /** Every printed diff is a real change, by the dictionary, of a target
      file. */
  lemma {:induction false} DiffsAreChanges(disk: Disk, paths: seq<string>, d: seq<Item>, dryRun: bool)
    ensures forall k :: 0 <= k < |ReplaceRun(disk, paths, d, dryRun).diffs| ==>
      var df := ReplaceRun(disk, paths, d, dryRun).diffs[k];
      df.path in paths && df.after == ApplyDict(df.before, d) && df.before != df.after
    decreases |paths|
  {
    if paths != [] && paths[0] in disk.text {
      var p := paths[0];
      var after := ApplyDict(disk.text[p], d);
      var next := if dryRun then disk else disk.(text := disk.text[p := after]);
      DiffsAreChanges(disk, paths[1..], d, dryRun);
      DiffsAreChanges(next, paths[1..], d, dryRun);
    }
  }

  /** With identity pairs nothing is written and nothing is printed. */
  lemma {:induction false} IdentityChangesNothing(disk: Disk, paths: seq<string>, d: seq<Item>, dryRun: bool)
    requires IsIdentity(d)
    ensures ReplaceRun(disk, paths, d, dryRun).disk == disk
    ensures ReplaceRun(disk, paths, d, dryRun).diffs == []
    decreases |paths|
  {
    if paths != [] && paths[0] in disk.text {
      ApplyDictIdentity(disk.text[paths[0]], d);
      IdentityChangesNothing(disk, paths[1..], d, dryRun);
    }
  }

  /** A real run over distinct paths that succeeds leaves every target file
      holding the dictionary applied to its old text, and every other file
      as it was. */
  lemma {:induction false} RealRunWrites(disk: Disk, paths: seq<string>, d: seq<Item>)
    requires Distinct(paths)
    requires ReplaceRun(disk, paths, d, false).err == None
    ensures ReplaceRun(disk, paths, d, false).disk.readOnly == disk.readOnly
    ensures ReplaceRun(disk, paths, d, false).disk.text.Keys == disk.text.Keys
    ensures forall q :: q in disk.text ==>
      ReplaceRun(disk, paths, d, false).disk.text[q] ==
        if q in paths then ApplyDict(disk.text[q], d) else disk.text[q]
    decreases |paths|
  {
    if paths != [] {
      var p := paths[0];
      var after := ApplyDict(disk.text[p], d);
      var next := if disk.text[p] == after then disk else disk.(text := disk.text[p := after]);
      assert Distinct(paths[1..]);
      assert p !in paths[1..];
      RealRunWrites(next, paths[1..], d);
      assert forall q :: q in paths <==> q == p || q in paths[1..];
    }
  }

  /** A real run over distinct paths that succeeds prints exactly what the
      dry run prints; so the dry run succeeds too and is a faithful preview
      (the converse fails: a dry run does not see read-only files). */
  lemma DryRunPreviews(disk: Disk, paths: seq<string>, d: seq<Item>)
    requires Distinct(paths)
    requires ReplaceRun(disk, paths, d, false).err == None
    ensures ReplaceRun(disk, paths, d, true) == Outcome(None, disk, ReplaceRun(disk, paths, d, false).diffs)
  {
    PreviewAgrees(disk, disk, paths, d);
    DryRunKeepsDisk(disk, paths, d);
  }

  /** The real run on `wet` and the dry run on `dry` agree while the two
      disks hold the same remaining targets. */
  lemma {:induction false} PreviewAgrees(wet: Disk, dry: Disk, paths: seq<string>, d: seq<Item>)
    requires Distinct(paths)
    requires forall q :: q in paths ==> (q in wet.text <==> q in dry.text)
    requires forall q :: q in paths && q in wet.text ==> wet.text[q] == dry.text[q]
    requires ReplaceRun(wet, paths, d, false).err == None
    ensures ReplaceRun(dry, paths, d, true).err == None
    ensures ReplaceRun(dry, paths, d, true).diffs == ReplaceRun(wet, paths, d, false).diffs
    decreases |paths|
  {
    if paths != [] {
      var p := paths[0];
      var after := ApplyDict(wet.text[p], d);
      var next := if wet.text[p] == after then wet else wet.(text := wet.text[p := after]);
      assert Distinct(paths[1..]);
      assert p !in paths[1..];
      PreviewAgrees(next, dry, paths[1..], d);
    }
  }
}
