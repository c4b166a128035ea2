/** Go's ordering of strings (byte-wise, which for UTF-8 text is the order of
    the characters' code points) and the sorting the tool asks of the `sort`
    package, specified by what it guarantees: the result is ordered and is a
    permutation of the input. */
module Order {

  /** s < t in Go. */
  predicate Less(s: string, t: string)
    decreases |s|
  {
    if s == [] then t != []
    else t != [] && (s[0] < t[0] || (s[0] == t[0] && Less(s[1..], t[1..])))
  }

  /** `p` is a prefix of `s`. */
  predicate IsPrefix(p: string, s: string)
  {
    |p| <= |s| && s[..|p|] == p
  }

  lemma {:induction false} LessIrreflexive(s: string)
    ensures !Less(s, s)
  {
    if s != [] {
      LessIrreflexive(s[1..]);
    }
  }

  lemma {:induction false} LessTransitive(s: string, t: string, u: string)
    requires Less(s, t) && Less(t, u)
    ensures Less(s, u)
  {
    if s != [] && s[0] == t[0] && t[0] == u[0] {
      LessTransitive(s[1..], t[1..], u[1..]);
    }
  }

  /** Two different strings are ordered one way or the other. */
  lemma {:induction false} LessTotal(s: string, t: string)
    requires s != t
    ensures Less(s, t) || Less(t, s)
  {
    if s != [] && t != [] && s[0] == t[0] {
      assert s == [s[0]] + s[1..] && t == [t[0]] + t[1..];
      LessTotal(s[1..], t[1..]);
    }
  }

  lemma LessAsymmetric(s: string, t: string)
    requires Less(s, t)
    ensures !Less(t, s)
  {
    if Less(t, s) {
      LessTransitive(s, t, s);
      LessIrreflexive(s);
    }
  }

  /** A proper prefix sorts first: this is what lets a descending sort put a
      path before every directory above it. */
  lemma {:induction false} PrefixLess(p: string, s: string)
    requires IsPrefix(p, s) && p != s
    ensures Less(p, s)
  {
    if p != [] {
      assert s[1..][..|p| - 1] == p[1..];
      PrefixLess(p[1..], s[1..]);
    }
  }

  /** Ascending order, as sort.Strings leaves it. */
  predicate Ascending(s: seq<string>)
  {
    forall i, j :: 0 <= i < j < |s| ==> !Less(s[j], s[i])
  }

  /** Strictly descending order. */
  predicate StrictlyDescending(s: seq<string>)
  {
    forall i, j :: 0 <= i < j < |s| ==> Less(s[j], s[i])
  }

  predicate Distinct<T(==)>(s: seq<T>)
  {
    forall i, j :: 0 <= i < j < |s| ==> s[i] != s[j]
  }

  /** Insert `x` into the ascending sequence `s`, before the first element
      that is not smaller than it. */
  function Insert(x: string, s: seq<string>): (r: seq<string>)
    requires Ascending(s)
    ensures Ascending(r)
    ensures multiset(r) == multiset(s) + multiset{x}
  {
    if s == [] then [x]
    else if !Less(s[0], x) then
      assert forall j :: 0 < j < |s| ==> !Less(s[j], x) by {
        forall j | 0 < j < |s| ensures !Less(s[j], x) {
          if Less(s[j], x) {
            if s[j] != s[0] {
              LessTotal(s[j], s[0]);
              if Less(s[j], s[0]) {
              } else {
                LessTransitive(s[0], s[j], x);
              }
            }
          }
        }
      }
      [x] + s
    else
      var r := [s[0]] + Insert(x, s[1..]);
      assert s == [s[0]] + s[1..];
      assert Ascending(r) by {
        forall j | 0 < j < |r| ensures !Less(r[j], r[0]) {
          assert r[j] in multiset(Insert(x, s[1..]));
          assert r[j] in s[1..] || r[j] == x;
          if r[j] == x {
            LessAsymmetric(s[0], x);
          }
        }
      }
      r
  }

  /** sort.Strings: an ascending permutation of the input. */
  function SortAscending(s: seq<string>): (r: seq<string>)
    ensures Ascending(r)
    ensures multiset(r) == multiset(s)
  {
    if s == [] then []
    else
      assert s == s[..|s| - 1] + [s[|s| - 1]];
      Insert(s[|s| - 1], SortAscending(s[..|s| - 1]))
  }

  function Reverse<T>(s: seq<T>): (r: seq<T>)
    ensures |r| == |s|
    ensures forall i :: 0 <= i < |s| ==> r[i] == s[|s| - 1 - i]
  {
    if s == [] then [] else Reverse(s[1..]) + [s[0]]
  }

  lemma {:induction false} ReverseMultiset<T>(s: seq<T>)
    ensures multiset(Reverse(s)) == multiset(s)
  {
    if s != [] {
      ReverseMultiset(s[1..]);
      assert s == [s[0]] + s[1..];
    }
  }

  /** The sort.Slice call of renameFilesAndDirs, ordering by `>`: a
      permutation in descending order.  A duplicate-free input comes out
      strictly descending. */
  function SortDescending(s: seq<string>): (r: seq<string>)
    ensures multiset(r) == multiset(s)
    ensures Distinct(s) ==> StrictlyDescending(r)
  {
    var a := SortAscending(s);
    ReverseMultiset(a);
    var r := Reverse(a);
    if Distinct(s) then
      assert StrictlyDescending(r) by {
        forall i, j | 0 <= i < j < |r| ensures Less(r[j], r[i]) {
          var i', j' := |a| - 1 - j, |a| - 1 - i;
          DistinctByMultiset(s, a, i', j');
          LessTotal(a[i'], a[j']);
        }
      }
      r
    else r
  }

  /** A permutation of a duplicate-free sequence is duplicate-free. */
  lemma DistinctByMultiset(s: seq<string>, a: seq<string>, i: int, j: int)
    requires Distinct(s) && multiset(a) == multiset(s)
    requires 0 <= i < j < |a|
    ensures a[i] != a[j]
  {
    if a[i] == a[j] {
      var x := a[i];
      assert multiset(a)[x] >= 2 by {
        assert a == a[..j] + [a[j]] + a[j + 1..];
        assert x in multiset(a[..j]) by { assert a[..j][i] == x; }
      }
      DistinctCount(s, x);
      assert false;
    }
  }

  lemma {:induction false} DistinctCount(s: seq<string>, x: string)
    requires Distinct(s)
    ensures multiset(s)[x] <= 1
  {
    if s != [] {
      assert s == [s[0]] + s[1..];
      assert Distinct(s[1..]);
      DistinctCount(s[1..], x);
      if s[0] == x {
        assert x !in s[1..];
      }
    }
  }
}
