/** The parts of Go's `strings` and `unicode` packages the tool uses, on
    strings of characters.  Case mapping is restricted to ASCII letters. */
module Text {

  predicate IsUpperAscii(c: char) { 'A' <= c <= 'Z' }
  predicate IsLowerAscii(c: char) { 'a' <= c <= 'z' }

  /** unicode.ToUpper, restricted to ASCII. */
  function UpperChar(c: char): (r: char)
    ensures !IsLowerAscii(r)
    ensures IsLowerAscii(c) || r == c
    ensures IsLowerAscii(c) ==> r as int == c as int - 32
  {
    if IsLowerAscii(c) then (c as int - 32) as char else c
  }

  /** unicode.ToLower, restricted to ASCII. */
  function LowerChar(c: char): (r: char)
    ensures !IsUpperAscii(r)
    ensures IsUpperAscii(c) || r == c
    ensures IsUpperAscii(c) ==> r as int == c as int + 32
  {
    if IsUpperAscii(c) then (c as int + 32) as char else c
  }

  /** Changing the case of a letter forgets which case it had. */
  lemma CaseRoundTrip(c: char)
    ensures LowerChar(UpperChar(c)) == LowerChar(c)
    ensures UpperChar(LowerChar(c)) == UpperChar(c)
  {
  }

  /** strings.ToUpper. */
  function Upper(s: string): (r: string)
    ensures |r| == |s|
    ensures forall i :: 0 <= i < |s| ==> r[i] == UpperChar(s[i])
  {
    if s == [] then [] else [UpperChar(s[0])] + Upper(s[1..])
  }

  /** strings.ToLower. */
  function Lower(s: string): (r: string)
    ensures |r| == |s|
    ensures forall i :: 0 <= i < |s| ==> r[i] == LowerChar(s[i])
  {
    if s == [] then [] else [LowerChar(s[0])] + Lower(s[1..])
  }

  /** Number of occurrences of `c` in `s`. */
  function Count(s: string, c: char): (n: nat)
    ensures n <= |s|
    ensures n == 0 <==> c !in s
  {
    if s == [] then 0 else (if s[0] == c then 1 else 0) + Count(s[1..], c)
  }

  /** strings.Split(s, string(sep)): the pieces between the separators.  The
      empty string gives one empty piece, and `n` separators give `n + 1`
      pieces. */
  function Split(s: string, sep: char): (r: seq<string>)
    ensures |r| == Count(s, sep) + 1
    ensures forall k :: 0 <= k < |r| ==> sep !in r[k]
  {
    if s == [] then [""]
    else
      var rest := Split(s[1..], sep);
      if s[0] == sep then [""] + rest
      else [[s[0]] + rest[0]] + rest[1..]
  }

  /** strings.Join. */
  function Join(ws: seq<string>, sep: string): string
  {
    if ws == [] then ""
    else if |ws| == 1 then ws[0]
    else ws[0] + sep + Join(ws[1..], sep)
  }

  /** Concatenation regroups. */
  lemma Regroup<T>(a: seq<T>, b: seq<T>, c: seq<T>)
    ensures a + (b + c) == (a + b) + c
  {
  }

  lemma JoinCons(w: string, ws: seq<string>, sep: string)
    ensures Join([w] + ws, sep) == w + (if ws == [] then "" else sep + Join(ws, sep))
  {
    assert ([w] + ws)[1..] == ws;
  }

  lemma {:induction false} JoinAppend(ws: seq<string>, w: string, sep: string)
    requires ws != []
    ensures Join(ws + [w], sep) == Join(ws, sep) + sep + w
  {
    if |ws| == 1 {
      assert ws + [w] == [ws[0], w];
    } else {
      assert (ws + [w])[1..] == ws[1..] + [w];
      JoinAppend(ws[1..], w, sep);
    }
  }

  /** Joining the pieces of a split with the separator gives back the string. */
  lemma {:induction false} JoinSplit(s: string, sep: char)
    ensures Join(Split(s, sep), [sep]) == s
  {
    if s != [] {
      var rest := Split(s[1..], sep);
      JoinSplit(s[1..], sep);
      if s[0] != sep {
        var r := Split(s, sep);
        if |rest| > 1 {
          assert r[1..] == rest[1..];
        }
      }
    }
  }

  /** A string without the separator splits into itself. */
  lemma {:induction false} SplitNoSep(w: string, sep: char)
    requires sep !in w
    ensures Split(w, sep) == [w]
  {
    if w != [] {
      SplitNoSep(w[1..], sep);
      assert w == [w[0]] + w[1..];
    }
  }

  /** The pieces of `a + [sep] + b` are those of `a` followed by those of `b`. */
  lemma {:induction false} SplitAround(a: string, b: string, sep: char)
    ensures Split(a + [sep] + b, sep) == Split(a, sep) + Split(b, sep)
  {
    if a == [] {
      SplitCons(sep, b, sep);
      assert a + [sep] + b == [sep] + b;
    } else {
      var c, t := a[0], a[1..];
      assert a == [c] + t;
      assert a + [sep] + b == [c] + (t + [sep] + b);
      SplitAround(t, b, sep);
      SplitCons(c, t + [sep] + b, sep);
      SplitCons(c, t, sep);
      ConsAppend(c == sep, c, Split(t, sep), Split(b, sep));
    }
  }

  /** The shape of SplitCons distributes over appending more pieces. */
  lemma ConsAppend(isSep: bool, c: char, rt: seq<string>, rb: seq<string>)
    requires rt != []
    ensures (if isSep then [""] + (rt + rb) else [[c] + (rt + rb)[0]] + (rt + rb)[1..]) ==
      (if isSep then [""] + rt else [[c] + rt[0]] + rt[1..]) + rb
  {
    assert (rt + rb)[0] == rt[0] && (rt + rb)[1..] == rt[1..] + rb;
  }

  /** Splitting a string that starts with `c`. */
  lemma SplitCons(c: char, s: string, sep: char)
    ensures Split([c] + s, sep) ==
      if c == sep then [""] + Split(s, sep) else [[c] + Split(s, sep)[0]] + Split(s, sep)[1..]
  {
    assert ([c] + s)[1..] == s;
  }

  /** Splitting undoes joining when no piece holds the separator. */
  lemma {:induction false} SplitJoin(ws: seq<string>, sep: char)
    requires ws != []
    requires forall k :: 0 <= k < |ws| ==> sep !in ws[k]
    ensures Split(Join(ws, [sep]), sep) == ws
  {
    if |ws| == 1 {
      SplitNoSep(ws[0], sep);
    } else {
      SplitJoin(ws[1..], sep);
      SplitAround(ws[0], Join(ws[1..], [sep]), sep);
      SplitNoSep(ws[0], sep);
      assert ws == [ws[0]] + ws[1..];
    }
  }

  /** What strings.ReplaceAll does with an empty pattern: `rep` is inserted at
      the start and after every character. */
  function Interleave(s: string, rep: string): (r: string)
    ensures |r| == |s| + (|s| + 1) * |rep|
  {
    if s == [] then rep else rep + [s[0]] + Interleave(s[1..], rep)
  }

  /** strings.ReplaceAll(s, pat, rep): every leftmost, non-overlapping
      occurrence of `pat`, scanning from the left, is replaced by `rep`; the
      replaced text is not scanned again. */
  function ReplaceAll(s: string, pat: string, rep: string): string
    decreases |s|
  {
    if pat == [] then Interleave(s, rep)
    else if |s| < |pat| then s
    else if s[..|pat|] == pat then rep + ReplaceAll(s[|pat|..], pat, rep)
    else [s[0]] + ReplaceAll(s[1..], pat, rep)
  }

  /** `pat` occurs in `s` at some position. */
  predicate Occurs(pat: string, s: string)
    decreases |s|
  {
    |pat| <= |s| && (s[..|pat|] == pat || (s != [] && Occurs(pat, s[1..])))
  }

  /** Replacing a string by itself changes nothing. */
  lemma {:induction false} ReplaceAllSame(s: string, x: string)
    ensures ReplaceAll(s, x, x) == s
  {
    if x == [] {
      InterleaveEmpty(s);
    } else if |s| < |x| {
    } else if s[..|x|] == x {
      ReplaceAllSame(s[|x|..], x);
      assert s == s[..|x|] + s[|x|..];
    } else {
      ReplaceAllSame(s[1..], x);
      assert s == [s[0]] + s[1..];
    }
  }

  lemma {:induction false} InterleaveEmpty(s: string)
    ensures Interleave(s, "") == s
  {
    if s != [] {
      InterleaveEmpty(s[1..]);
      assert s == [s[0]] + s[1..];
    }
  }

  /** A non-empty string that does not occur is never replaced. */
  lemma {:induction false} ReplaceAllAbsent(s: string, pat: string, rep: string)
    requires pat != [] && !Occurs(pat, s)
    ensures ReplaceAll(s, pat, rep) == s
  {
    if |s| >= |pat| {
      ReplaceAllAbsent(s[1..], pat, rep);
      assert s == [s[0]] + s[1..];
    }
  }

  /** The leftmost occurrence is replaced: when `pat` does not start
      anywhere in `x` (not even overlapping into `pat` itself), `x` is kept,
      that occurrence becomes `rep`, and the scan resumes after it. */
  lemma {:induction false} ReplaceAllStep(x: string, pat: string, y: string, rep: string)
    requires pat != [] && !Occurs(pat, x + pat[..|pat| - 1])
    ensures ReplaceAll(x + pat + y, pat, rep) == x + rep + ReplaceAll(y, pat, rep)
    decreases |x|, 1
  {
    if x == [] {
      assert x + pat + y == pat + y;
      ReplaceAllHere(pat, y, rep);
    } else {
      ReplaceAllStepCons(x, pat, y, rep);
    }
  }

  lemma {:induction false} ReplaceAllStepCons(x: string, pat: string, y: string, rep: string)
    requires pat != [] && x != [] && !Occurs(pat, x + pat[..|pat| - 1])
    ensures ReplaceAll(x + pat + y, pat, rep) == x + rep + ReplaceAll(y, pat, rep)
    decreases |x|, 0
  {
    var c, x' := x[0], x[1..];
    var tail := ReplaceAll(y, pat, rep);
    ReplaceAllPastFirst(x, pat, y, rep);
    ReplaceAllStep(x', pat, y, rep);
    ConsRegroup(c, x', rep, tail);
    assert [c] + x' == x;
  }

  lemma ConsRegroup(c: char, a: string, b: string, d: string)
    ensures [c] + (a + b + d) == ([c] + a) + b + d
  {
  }

  /** Before the first occurrence the scan keeps one character at a time. */
  lemma ReplaceAllPastFirst(x: string, pat: string, y: string, rep: string)
    requires pat != [] && x != [] && !Occurs(pat, x + pat[..|pat| - 1])
    ensures ReplaceAll(x + pat + y, pat, rep) == [x[0]] + ReplaceAll(x[1..] + pat + y, pat, rep)
    ensures !Occurs(pat, x[1..] + pat[..|pat| - 1])
  {
    var s := x + pat + y;
    NoMatchAtFront(x, pat, y);
    ReplaceAllSkip(s, pat, rep);
    assert s[0] == x[0] && s[1..] == x[1..] + pat + y;
  }

  lemma ReplaceAllHere(pat: string, y: string, rep: string)
    requires pat != []
    ensures ReplaceAll(pat + y, pat, rep) == rep + ReplaceAll(y, pat, rep)
  {
    var s := pat + y;
    assert s[..|pat|] == pat && s[|pat|..] == y;
  }

  lemma ReplaceAllSkip(s: string, pat: string, rep: string)
    requires pat != [] && |pat| <= |s| && s[..|pat|] != pat
    ensures ReplaceAll(s, pat, rep) == [s[0]] + ReplaceAll(s[1..], pat, rep)
  {
  }

  /** No occurrence in `x + pat[..|pat| - 1]` means none at the front of
      `x + pat + y`, and none in what is left after the first character. */
  lemma NoMatchAtFront(x: string, pat: string, y: string)
    requires pat != [] && x != [] && !Occurs(pat, x + pat[..|pat| - 1])
    ensures |pat| <= |x + pat + y| && (x + pat + y)[..|pat|] != pat
    ensures !Occurs(pat, x[1..] + pat[..|pat| - 1])
  {
    var w := x + pat[..|pat| - 1];
    assert (x + pat + y)[..|pat|] == w[..|pat|];
    assert w[1..] == x[1..] + pat[..|pat| - 1];
  }

  /** The characters of `s`, each as a string of its own. */
  function Singles(s: string): seq<string>
  {
    seq(|s|, i requires 0 <= i < |s| => [s[i]])
  }

  /** With the empty pattern, `rep` comes first, between every two
      characters and last: the characters joined with `rep`, with `rep` on
      both sides. */
  lemma {:induction false} ReplaceAllEmpty(s: string, rep: string)
    ensures s == [] ==> ReplaceAll(s, "", rep) == rep
    ensures s != [] ==> ReplaceAll(s, "", rep) == rep + Join(Singles(s), rep) + rep
  {
    if s != [] {
      var t := s[1..];
      ReplaceAllEmpty(t, rep);
      assert ReplaceAll(s, "", rep) == rep + [s[0]] + ReplaceAll(t, "", rep);
      var ws := Singles(s);
      assert ws[0] == [s[0]] && ws[1..] == Singles(t);
      if t != [] {
        assert Join(ws, rep) == [s[0]] + rep + Join(Singles(t), rep);
      }
    }
  }
}
