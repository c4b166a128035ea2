/** The case converters of replace-word.go: each turns a hyphenated phrase
    such as "foo-bar" into one casing style ("FooBar", "fooBar", "FOO_BAR",
    "foo_bar", "FOO-BAR", "foo-bar", "FOOBAR", "foobar", "Foo Bar",
    "Foo bar", "foo bar").  Case mapping is ASCII. */
module CaseConvert {
  import opened Text

  /** capitalize: the first character upper-cased, the rest unchanged. */
  function Capitalize(s: string): (r: string)
    ensures |r| == |s|
    ensures s != [] ==> r[1..] == s[1..]
    ensures s != [] ==> !IsLowerAscii(r[0])
  {
    if s == [] then "" else [UpperChar(s[0])] + s[1..]
  }

  /** decapitalize: the first character lower-cased, the rest unchanged. */
  function Decapitalize(s: string): (r: string)
    ensures |r| == |s|
    ensures s != [] ==> r[1..] == s[1..]
    ensures s != [] ==> !IsUpperAscii(r[0])
  {
    if s == [] then "" else [LowerChar(s[0])] + s[1..]
  }

  /** Each undoes the other up to the case the first letter had. */
  lemma CapitalizeDecapitalize(s: string)
    ensures Decapitalize(Capitalize(s)) == Decapitalize(s)
    ensures Capitalize(Decapitalize(s)) == Capitalize(s)
    ensures Capitalize(Capitalize(s)) == Capitalize(s)
  {
    if s != [] {
      CaseRoundTrip(s[0]);
    }
  }

  function CapitalizeEach(ws: seq<string>): (r: seq<string>)
    ensures |r| == |ws|
    ensures forall k :: 0 <= k < |ws| ==> r[k] == Capitalize(ws[k])
  {
    if ws == [] then [] else [Capitalize(ws[0])] + CapitalizeEach(ws[1..])
  }

  /** largeCamelCase: the capitalized hyphen segments, concatenated. */
  function LargeCamelCase(s: string): string
  {
    Join(CapitalizeEach(Split(s, '-')), "")
  }

  /** smallCamelCase. */
  function SmallCamelCase(s: string): (r: string)
    ensures |r| == |LargeCamelCase(s)|
    ensures r != [] ==> r[1..] == LargeCamelCase(s)[1..]
    ensures r != [] ==> r[0] == LowerChar(LargeCamelCase(s)[0]) && !IsUpperAscii(r[0])
  {
    Decapitalize(LargeCamelCase(s))
  }

  /** A character-by-character reading of the capitalized-words styles: a
      hyphen becomes `sep`, and a character that begins a segment is
      upper-cased. */
  function CapitalizeWords(s: string, sep: string, atStart: bool): string
  {
    if s == [] then ""
    else if s[0] == '-' then sep + CapitalizeWords(s[1..], sep, true)
    else [if atStart then UpperChar(s[0]) else s[0]] + CapitalizeWords(s[1..], sep, false)
  }

  /** The split-capitalize-join of largeCamelCase and largeSpaceSeparated is
      the character-wise scan above. */
  lemma {:induction false} CapitalizeWordsIsSplitJoin(s: string, sep: string)
    ensures CapitalizeWords(s, sep, true) == Join(CapitalizeEach(Split(s, '-')), sep)
    ensures CapitalizeWords(s, sep, false) == AfterFirst(Split(s, '-'), sep)
  {
    if s != [] {
      CapitalizeWordsIsSplitJoin(s[1..], sep);
      if s[0] == '-' {
        SplitJoinAtHyphen(s, sep);
      } else {
        SplitJoinAtLetter(s, sep);
      }
    }
  }

  /** The first segment as it is, then the others capitalized. */
  function AfterFirst(ws: seq<string>, sep: string): string
    requires ws != []
  {
    ws[0] + (if |ws| == 1 then "" else sep + Join(CapitalizeEach(ws[1..]), sep))
  }

  lemma SplitJoinAtHyphen(s: string, sep: string)
    requires s != [] && s[0] == '-'
    requires CapitalizeWords(s[1..], sep, true) == Join(CapitalizeEach(Split(s[1..], '-')), sep)
    ensures CapitalizeWords(s, sep, true) == Join(CapitalizeEach(Split(s, '-')), sep)
    ensures CapitalizeWords(s, sep, false) == AfterFirst(Split(s, '-'), sep)
  {
    var rest := Split(s[1..], '-');
    var ws := Split(s, '-');
    assert ws == [""] + rest;
    assert CapitalizeEach(ws) == [""] + CapitalizeEach(rest);
    JoinCons("", CapitalizeEach(rest), sep);
    assert ws[1..] == rest;
  }

  lemma SplitJoinAtLetter(s: string, sep: string)
    requires s != [] && s[0] != '-'
    requires CapitalizeWords(s[1..], sep, false) == AfterFirst(Split(s[1..], '-'), sep)
    ensures CapitalizeWords(s, sep, true) == Join(CapitalizeEach(Split(s, '-')), sep)
    ensures CapitalizeWords(s, sep, false) == AfterFirst(Split(s, '-'), sep)
  {
    var rest := Split(s[1..], '-');
    var ws := Split(s, '-');
    var c := s[0];
    var capTail := CapitalizeEach(rest[1..]);
    var tail := if |rest| == 1 then "" else sep + Join(capTail, sep);
    assert ws == [[c] + rest[0]] + rest[1..];
    assert ws[0] == [c] + rest[0] && ws[1..] == rest[1..] && |ws| == |rest|;
    assert AfterFirst(ws, sep) == ws[0] + tail;
    assert CapitalizeWords(s, sep, false) == [c] + (rest[0] + tail);
    Regroup([c], rest[0], tail);
    var first := Capitalize(ws[0]);
    assert first == [UpperChar(c)] + rest[0];
    assert CapitalizeEach(ws) == [first] + capTail;
    JoinCons(first, capTail, sep);
    assert capTail == [] <==> |rest| == 1;
    assert Join(CapitalizeEach(ws), sep) == first + tail;
    assert CapitalizeWords(s, sep, true) == [UpperChar(c)] + (rest[0] + tail);
    Regroup([UpperChar(c)], rest[0], tail);
  }

  /** largeCamelCase deletes the hyphens and upper-cases the first character
      of every segment; nothing else changes. */
  lemma LargeCamelCaseScan(s: string)
    ensures LargeCamelCase(s) == CapitalizeWords(s, "", true)
  {
    CapitalizeWordsIsSplitJoin(s, "");
  }

  /** Each hyphen becomes `sep`; every other character stays one character. */
  lemma {:induction false} CapitalizeWordsLength(s: string, sep: string, atStart: bool)
    ensures |CapitalizeWords(s, sep, atStart)| == |s| + Count(s, '-') * (|sep| - 1)
  {
    if s != [] {
      var rest := CapitalizeWords(s[1..], sep, s[0] == '-');
      var n, w := Count(s[1..], '-'), |sep| - 1;
      CapitalizeWordsLength(s[1..], sep, s[0] == '-');
      var m := n * w;
      assert |rest| == |s| - 1 + m;
      if s[0] == '-' {
        assert |CapitalizeWords(s, sep, atStart)| == |s| + m + w;
        assert Count(s, '-') == n + 1;
        MultiplyStep(n, w);
      } else {
        assert |CapitalizeWords(s, sep, atStart)| == |s| + m;
        assert Count(s, '-') == n;
      }
    }
  }

  lemma MultiplyStep(n: int, w: int)
    ensures (n + 1) * w == n * w + w
  {
  }

  lemma {:induction false} CapitalizeWordsNoHyphen(s: string, sep: string, atStart: bool)
    requires '-' !in sep
    ensures '-' !in CapitalizeWords(s, sep, atStart)
  {
    if s != [] {
      CapitalizeWordsNoHyphen(s[1..], sep, s[0] == '-');
      var rest := CapitalizeWords(s[1..], sep, s[0] == '-');
      if s[0] == '-' {
        assert CapitalizeWords(s, sep, atStart) == sep + rest;
      } else {
        var c := if atStart then UpperChar(s[0]) else s[0];
        assert c != '-';
        assert CapitalizeWords(s, sep, atStart) == [c] + rest;
      }
    }
  }

  /** largeCamelCase has no hyphen left and is shorter by the number of
      hyphens; smallCamelCase likewise. */
  lemma CamelCaseShape(s: string)
    ensures '-' !in LargeCamelCase(s) && '-' !in SmallCamelCase(s)
    ensures |LargeCamelCase(s)| == |SmallCamelCase(s)| == |s| - Count(s, '-')
  {
    LargeCamelCaseScan(s);
    CapitalizeWordsLength(s, "", true);
    CapitalizeWordsNoHyphen(s, "", true);
    DecapitalizeNoHyphen(LargeCamelCase(s));
  }

  lemma DecapitalizeNoHyphen(l: string)
    requires '-' !in l
    ensures '-' !in Decapitalize(l)
  {
    if l != [] {
      assert Decapitalize(l) == [LowerChar(l[0])] + l[1..];
    }
  }

  /** Every '-' replaced by `sub`: the single-character regular expressions of
      the source. */
  function ReplaceHyphen(s: string, sub: char): (r: string)
    ensures |r| == |s|
    ensures forall i :: 0 <= i < |s| ==> r[i] == (if s[i] == '-' then sub else s[i])
  {
    if s == [] then "" else [if s[0] == '-' then sub else s[0]] + ReplaceHyphen(s[1..], sub)
  }

  /** largeSnakeCase. */
  function LargeSnakeCase(s: string): (r: string)
    ensures |r| == |s| && '-' !in r
    ensures forall i :: 0 <= i < |s| ==> if s[i] == '-' then r[i] == '_' else r[i] == UpperChar(s[i])
  {
    Upper(ReplaceHyphen(s, '_'))
  }

  /** smallSnakeCase. */
  function SmallSnakeCase(s: string): (r: string)
    ensures |r| == |s| && '-' !in r
    ensures forall i :: 0 <= i < |s| ==> if s[i] == '-' then r[i] == '_' else r[i] == LowerChar(s[i])
  {
    Lower(ReplaceHyphen(s, '_'))
  }

  /** The two snake styles differ only in case. */
  lemma SnakeCases(s: string)
    ensures Upper(SmallSnakeCase(s)) == LargeSnakeCase(s)
    ensures Lower(LargeSnakeCase(s)) == SmallSnakeCase(s)
  {
    forall i | 0 <= i < |s| ensures UpperChar(LowerChar(s[i])) == UpperChar(s[i]) {
      CaseRoundTrip(s[i]);
    }
    forall i | 0 <= i < |s| ensures LowerChar(UpperChar(s[i])) == LowerChar(s[i]) {
      CaseRoundTrip(s[i]);
    }
  }

  /** allLargeCase. */
  function AllLargeCase(s: string): (r: string)
    ensures |r| == |s| && !exists i :: 0 <= i < |r| && IsLowerAscii(r[i])
    ensures forall i :: 0 <= i < |s| ==> r[i] == UpperChar(s[i])
  {
    Upper(s)
  }

  /** allSmallCase. */
  function AllSmallCase(s: string): (r: string)
    ensures |r| == |s| && !exists i :: 0 <= i < |r| && IsUpperAscii(r[i])
    ensures forall i :: 0 <= i < |s| ==> r[i] == LowerChar(s[i])
  {
    Lower(s)
  }

  predicate IsSign(c: char) { c == '_' || c == '-' }

  /** noSign: the regular expression [_-] replaced by nothing. */
  function NoSign(s: string): (r: string)
    ensures '_' !in r && '-' !in r
    ensures |r| == |s| - Count(s, '_') - Count(s, '-')
  {
    if s == [] then ""
    else if IsSign(s[0]) then NoSign(s[1..])
    else [s[0]] + NoSign(s[1..])
  }

  /** `sub` is obtained from `s` by deleting characters. */
  predicate IsSubsequence(sub: string, s: string)
    decreases |s|
  {
    if sub == [] then true
    else if s == [] then false
    else if sub[0] == s[0] then IsSubsequence(sub[1..], s[1..])
    else IsSubsequence(sub, s[1..])
  }

  /** noSign keeps every other character in its original order, and does
      nothing to a string without signs. */
  lemma {:induction false} NoSignKeepsOrder(s: string)
    ensures IsSubsequence(NoSign(s), s)
    ensures ('_' !in s && '-' !in s) ==> NoSign(s) == s
  {
    if s != [] {
      NoSignKeepsOrder(s[1..]);
      assert s == [s[0]] + s[1..];
    }
  }

  /** noSign commutes with upper-casing; so the flat item of the dictionary
      is the same whether built from the kebab or the snake style. */
  lemma {:induction false} NoSignUpper(s: string)
    ensures NoSign(Upper(s)) == Upper(NoSign(s))
    ensures NoSign(Upper(s)) == NoSign(LargeSnakeCase(s))
  {
    if s != [] {
      NoSignUpper(s[1..]);
      assert Upper(s)[1..] == Upper(s[1..]);
      var t := ReplaceHyphen(s, '_');
      assert t[1..] == ReplaceHyphen(s[1..], '_');
      assert LargeSnakeCase(s)[1..] == LargeSnakeCase(s[1..]);
    }
  }

  /** largeSpaceSeparated: the capitalized hyphen segments joined by spaces. */
  function LargeSpaceSeparated(s: string): string
  {
    Join(CapitalizeEach(Split(s, '-')), " ")
  }

  /** largeSpaceSeparated keeps the length, puts a space exactly where the
      phrase has a hyphen or a space, and upper-cases every segment's first
      character. */
  lemma LargeSpaceSeparatedScan(s: string)
    ensures LargeSpaceSeparated(s) == CapitalizeWords(s, " ", true)
    ensures |LargeSpaceSeparated(s)| == |s|
    ensures '-' !in LargeSpaceSeparated(s)
  {
    CapitalizeWordsIsSplitJoin(s, " ");
    CapitalizeWordsLength(s, " ", true);
    CapitalizeWordsNoHyphen(s, " ", true);
    assert Count(s, '-') * (|" "| - 1) == 0;
  }

  /** smallSpaceSeparated: the regular expression [_-] replaced by a space. */
  function SmallSpaceSeparated(s: string): (r: string)
    ensures |r| == |s| && '-' !in r && '_' !in r
    ensures forall i :: 0 <= i < |s| ==> r[i] == (if IsSign(s[i]) then ' ' else s[i])
  {
    if s == [] then "" else [if IsSign(s[0]) then ' ' else s[0]] + SmallSpaceSeparated(s[1..])
  }

  /** None of the styles introduces a space, except the space-separated ones. */
  lemma NoSpaceStyles(s: string)
    requires ' ' !in s
    ensures ' ' !in LargeCamelCase(s) && ' ' !in SmallCamelCase(s)
    ensures ' ' !in LargeSnakeCase(s) && ' ' !in SmallSnakeCase(s)
    ensures ' ' !in AllLargeCase(s) && ' ' !in AllSmallCase(s)
    ensures ' ' !in NoSign(AllLargeCase(s)) && ' ' !in NoSign(AllSmallCase(s))
  {
    LargeCamelCaseScan(s);
    NoSpaceCapitalizeWords(s, true);
    NoSpaceCapitalizeWords(s, false);
    var l := LargeCamelCase(s);
    if l != [] {
      assert SmallCamelCase(s) == [LowerChar(l[0])] + l[1..];
    }
    NoSpaceNoSign(AllLargeCase(s));
    NoSpaceNoSign(AllSmallCase(s));
  }

  lemma {:induction false} NoSpaceCapitalizeWords(s: string, atStart: bool)
    requires ' ' !in s
    ensures ' ' !in CapitalizeWords(s, "", atStart)
  {
    if s != [] {
      NoSpaceCapitalizeWords(s[1..], s[0] == '-');
    }
  }

  lemma {:induction false} NoSpaceNoSign(s: string)
    requires ' ' !in s
    ensures ' ' !in NoSign(s)
  {
    if s != [] {
      NoSpaceNoSign(s[1..]);
    }
  }
}
