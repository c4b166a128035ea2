/** The two replacement dictionaries and their rendering with the ambiguity
    warning (the `dict` type of replace-word.go). */
module Dictionary {
  import opened Text
  import opened CaseConvert

  /** One (before, after) pair: `dictItem`. */
  datatype Item = Item(before: string, after: string)

  /** The casing styles, one per case converter of the source. */
  datatype Style =
    | LargeCamel         // FooBar
    | SmallCamel         // fooBar
    | LargeSnake         // FOO_BAR
    | SmallSnake         // foo_bar
    | AllLarge           // FOO-BAR
    | AllSmall           // foo-bar
    | FlatLarge          // FOOBAR: noSign(allLargeCase(...))
    | FlatSmall          // foobar: noSign(allSmallCase(...))
    | LargeSpace         // Foo Bar
    | CapitalizedSpace   // Foo bar: capitalize(smallSpaceSeparated(...))
    | SmallSpace         // foo bar

  function Convert(st: Style, s: string): string
  {
    match st
    case LargeCamel => LargeCamelCase(s)
    case SmallCamel => SmallCamelCase(s)
    case LargeSnake => LargeSnakeCase(s)
    case SmallSnake => SmallSnakeCase(s)
    case AllLarge => AllLargeCase(s)
    case AllSmall => AllSmallCase(s)
    case FlatLarge => NoSign(AllLargeCase(s))
    case FlatSmall => NoSign(AllSmallCase(s))
    case LargeSpace => LargeSpaceSeparated(s)
    case CapitalizedSpace => Capitalize(SmallSpaceSeparated(s))
    case SmallSpace => SmallSpaceSeparated(s)
  }

  /** The order of the text dictionary: camel, snake, kebab, flat, then the
      three space-separated styles. */
  const TextStyles: seq<Style> :=
    [LargeCamel, SmallCamel, LargeSnake, SmallSnake, AllLarge, AllSmall,
     FlatLarge, FlatSmall, LargeSpace, CapitalizedSpace, SmallSpace]

  /** The order of the file-name dictionary: the same without the
      space-separated styles. */
  const FileNameStyles: seq<Style> :=
    [LargeCamel, SmallCamel, LargeSnake, SmallSnake, AllLarge, AllSmall,
     FlatLarge, FlatSmall]

  /** One pair per style, each applying that style to both phrases. */
  function Build(styles: seq<Style>, before: string, after: string): seq<Item>
  {
    seq(|styles|, k requires 0 <= k < |styles| => Item(Convert(styles[k], before), Convert(styles[k], after)))
  }

  /** generateDictForText. */
  function TextDict(before: string, after: string): seq<Item>
  {
    Build(TextStyles, before, after)
  }

  /** generateDictForFileName. */
  function FileNameDict(before: string, after: string): seq<Item>
  {
    Build(FileNameStyles, before, after)
  }

  /** The text dictionary has eleven pairs, the file-name dictionary eight,
      and the latter is the start of the former. */
  lemma DictShapes(before: string, after: string)
    ensures |TextDict(before, after)| == 11 && |FileNameDict(before, after)| == 8
    ensures FileNameDict(before, after) == TextDict(before, after)[..8]
  {
    assert FileNameStyles == TextStyles[..8];
  }

  /** A phrase without spaces gives file-name patterns without spaces. */
  lemma FileNameDictHasNoSpaces(before: string, after: string)
    requires ' ' !in before
    ensures forall k :: 0 <= k < |FileNameDict(before, after)| ==> ' ' !in FileNameDict(before, after)[k].before
  {
    var d := FileNameDict(before, after);
    forall k | 0 <= k < |d| ensures ' ' !in d[k].before {
      NoSpaceConvert(FileNameStyles[k], before);
    }
  }

  lemma NoSpaceConvert(st: Style, s: string)
    requires ' ' !in s && st !in {LargeSpace, CapitalizedSpace, SmallSpace}
    ensures ' ' !in Convert(st, s)
  {
    NoSpaceStyles(s);
  }

  /** With the same phrase on both sides every pair maps a string to itself,
      and swapping the phrases swaps every pair. */
  lemma DictSymmetry(before: string, after: string)
    ensures forall k :: 0 <= k < |TextDict(before, before)| ==> TextDict(before, before)[k].before == TextDict(before, before)[k].after
    ensures |TextDict(after, before)| == |TextDict(before, after)|
    ensures forall k :: 0 <= k < |TextDict(before, after)| ==>
      TextDict(after, before)[k] == Item(TextDict(before, after)[k].after, TextDict(before, after)[k].before)
  {
  }

  /** dictItem.String: `"before" => "after"`. */
  function ItemString(it: Item): string
  {
    "\"" + it.before + "\" => \"" + it.after + "\""
  }

  /** The line of each dictionary item, in order. */
  function Renderings(d: seq<Item>): seq<string>
  {
    seq(|d|, k requires 0 <= k < |d| => ItemString(d[k]))
  }

  /** Some entry equals an earlier one. */
  predicate HasDuplicate(s: seq<string>)
  {
    exists i, j :: 0 <= i < j < |s| && s[i] == s[j]
  }

  /** The dictionary is ambiguous when two of its items render alike. */
  predicate Ambiguous(d: seq<Item>)
  {
    HasDuplicate(Renderings(d))
  }

  const WarnLine := "WARN: dictionary is ambiguous"
  const HintLine := "HINT: It may cause unexpected result. You'd better add another word at least."

  /** The lines dict.String prints: one per item, then the warning and the
      hint when the dictionary is ambiguous. */
  function Lines(d: seq<Item>): seq<string>
  {
    Renderings(d) + (if Ambiguous(d) then [WarnLine, HintLine] else [])
  }

  /** dict.String: renders the items one by one, comparing each rendering
      with all earlier ones and remembering whether one matched. */
  method DictString(d: seq<Item>) returns (out: string)
    ensures out == Join(Lines(d), "\n")
  {
    var its: seq<string> := [];
    var ambiguous := false;
    for i := 0 to |d|
      invariant its == Renderings(d[..i])
      invariant ambiguous <==> HasDuplicate(its)
    {
      var s := ItemString(d[i]);
      for j := 0 to |its|
        invariant ambiguous <==> HasDuplicate(its) || s in its[..j]
      {
        if s == its[j] {
          ambiguous := true;
        }
      }
      assert its[..|its|] == its;
      DuplicateAppend(its, s);
      its := its + [s];
    }
    assert d[..|d|] == d;
    assert ambiguous == Ambiguous(d);
    if ambiguous {
      its := its + [WarnLine];
      its := its + [HintLine];
    }
    assert its == Lines(d);
    out := Join(its, "\n");
  }

  lemma DuplicateAppend(s: seq<string>, x: string)
    ensures HasDuplicate(s + [x]) <==> HasDuplicate(s) || x in s
  {
    var t := s + [x];
    if HasDuplicate(t) && !HasDuplicate(s) {
      var i, j :| 0 <= i < j < |t| && t[i] == t[j];
      assert j == |s| && t[i] == x && s[i] == x;
    }
    if x in s {
      var i :| 0 <= i < |s| && s[i] == x;
      assert t[i] == t[|s|];
    }
    if HasDuplicate(s) {
      var i, j :| 0 <= i < j < |s| && s[i] == s[j];
      assert t[i] == t[j];
    }
  }

  /** When the before patterns contain no double quote, two items render
      alike exactly when they are equal, so the warning means that one pair
      occurs twice. */
  lemma RenderInjective(a: Item, b: Item)
    requires '"' !in a.before && '"' !in b.before
    ensures ItemString(a) == ItemString(b) <==> a == b
  {
    if ItemString(a) == ItemString(b) {
      var ra, rb := ItemString(a), ItemString(b);
      QuotePositions(a);
      QuotePositions(b);
      assert |a.before| == |b.before|;
      assert a.before == ra[1..1 + |a.before|] == rb[1..1 + |b.before|] == b.before;
      var n := |a.before| + 7;
      assert a.after == ra[n..|ra| - 1] == rb[n..|rb| - 1] == b.after;
    }
  }

  lemma QuotePositions(x: Item)
    requires '"' !in x.before
    ensures ItemString(x)[1 + |x.before|] == '"'
    ensures forall k :: 1 <= k <= |x.before| ==> ItemString(x)[k] != '"'
  {
  }

  /** A one-word phrase without capitals makes smallCamelCase and
      smallSnakeCase agree, so both dictionaries built from two such phrases
      are ambiguous. */
  lemma SingleWordIsAmbiguous(before: string, after: string)
    requires '-' !in before && '-' !in after
    requires forall i :: 0 <= i < |before| ==> !IsUpperAscii(before[i])
    requires forall i :: 0 <= i < |after| ==> !IsUpperAscii(after[i])
    ensures Ambiguous(TextDict(before, after))
    ensures Ambiguous(FileNameDict(before, after))
  {
    SmallCamelIsSmallSnake(before);
    SmallCamelIsSmallSnake(after);
    SameStylesAmbiguous(TextStyles, before, after, 1, 3);
    SameStylesAmbiguous(FileNameStyles, before, after, 1, 3);
  }

  lemma SmallCamelIsSmallSnake(s: string)
    requires '-' !in s
    requires forall i :: 0 <= i < |s| ==> !IsUpperAscii(s[i])
    ensures SmallCamelCase(s) == SmallSnakeCase(s)
  {
    SplitNoSep(s, '-');
    assert CapitalizeEach([s]) == [Capitalize(s)];
    assert LargeCamelCase(s) == Capitalize(s);
    CapitalizeDecapitalize(s);
    if s != [] {
      CaseRoundTrip(s[0]);
      var small := SmallCamelCase(s);
      forall i | 0 <= i < |s| ensures small[i] == SmallSnakeCase(s)[i] {
        if i > 0 {
          assert small[i] == s[i];
        }
      }
    }
  }

  /** The identity dictionary of the two-letter phrase "a-b" is ambiguous:
      largeCamelCase and the upper flat style both give "AB". */
  lemma IdentityExampleIsAmbiguous()
    ensures Ambiguous(TextDict("a-b", "a-b"))
  {
    LargeCamelExample();
    FlatLargeExample();
    SameStylesAmbiguous(TextStyles, "a-b", "a-b", 0, 6);
  }

  lemma LargeCamelExample()
    ensures LargeCamelCase("a-b") == "AB"
  {
    var p := "a-b";
    assert Split(p, '-') == ["a", "b"] by {
      assert p == "a" + ['-'] + "b";
      SplitAround("a", "b", '-');
      SplitNoSep("a", '-');
      SplitNoSep("b", '-');
    }
    assert Capitalize("a") == "A" && Capitalize("b") == "B";
    assert CapitalizeEach(["a", "b"]) == ["A", "B"];
  }

  lemma FlatLargeExample()
    ensures NoSign(AllLargeCase("a-b")) == "AB"
  {
    assert AllLargeCase("a-b") == "A-B";
  }

  /** Two styles that agree on both phrases make the dictionary built from
      them ambiguous. */
  lemma SameStylesAmbiguous(styles: seq<Style>, before: string, after: string, i: nat, j: nat)
    requires i < j < |styles|
    requires Convert(styles[i], before) == Convert(styles[j], before)
    requires Convert(styles[i], after) == Convert(styles[j], after)
    ensures Ambiguous(Build(styles, before, after))
  {
    var r := Renderings(Build(styles, before, after));
    assert r[i] == r[j];
  }
}
