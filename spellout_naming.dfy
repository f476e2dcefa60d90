/** The naming convention that maps a locale and a spellout ruleset value to
    the fully qualified name of the extender class that may render it
    (`getSpelloutNamespace`): drop the first character of the value, split
    the rest on `-`, `ucfirst` every word and append the words, with nothing
    between them, to `\Arius\Lang\` + ucfirst(locale) + `\`. */
module SpelloutNaming {
  import opened PhpStrings

  /** The character that separates the words of a ruleset value. */
  const Separator: char := '-'

  /** The namespace every extender class lives under. */
  const Root: string := "\\Arius\\Lang\\"

  /** The namespace of one locale's extenders. */
  function LocaleNamespace(locale: string): (p: string)
    ensures |p| == |Root| + |locale| + 1
    ensures p[..|Root|] == Root && p[|p| - 1] == '\\'
    ensures p[|Root|..|p| - 1] == Ucfirst(locale)
  {
    Root + Ucfirst(locale) + "\\"
  }

  /** `ucfirst` applied to every word, keeping their order. */
  function UcfirstEach(words: seq<string>): (r: seq<string>)
    ensures |r| == |words|
    ensures forall i :: 0 <= i < |words| ==> r[i] == Ucfirst(words[i])
    decreases |words|
  {
    if |words| == 0 then [] else [Ucfirst(words[0])] + UcfirstEach(words[1..])
  }

  /** The words appended one after another, with no separator. */
  function Concat(words: seq<string>): string
    decreases |words|
  {
    if |words| == 0 then "" else words[0] + Concat(words[1..])
  }

  lemma {:induction false} ConcatAppend(xs: seq<string>, ys: seq<string>)
    ensures Concat(xs + ys) == Concat(xs) + Concat(ys)
    decreases |xs|
  {
    if |xs| > 0 {
      ConcatAppend(xs[1..], ys);
      assert (xs + ys)[1..] == xs[1..] + ys;
    } else {
      assert xs + ys == ys;
    }
  }

  /** Appending one more word's `ucfirst` to the name built so far. */
  lemma ConcatUcfirstSnoc(words: seq<string>, i: nat)
    requires i < |words|
    ensures Concat(UcfirstEach(words[..i + 1])) == Concat(UcfirstEach(words[..i])) + Ucfirst(words[i])
  {
    assert words[..i + 1] == words[..i] + [words[i]];
    assert UcfirstEach(words[..i + 1]) == UcfirstEach(words[..i]) + [Ucfirst(words[i])];
    ConcatAppend(UcfirstEach(words[..i]), [Ucfirst(words[i])]);
    assert Concat([Ucfirst(words[i])]) == Ucfirst(words[i]);
  }

  /** The class name an extender for `value` under `locale` must have. */
  function SpelloutNamespace(locale: string, value: string): (ns: string)
    ensures |ns| >= |LocaleNamespace(locale)|
    ensures ns[..|LocaleNamespace(locale)|] == LocaleNamespace(locale)
  {
    LocaleNamespace(locale) + Concat(UcfirstEach(Explode(Separator, DropFirst(value))))
  }

  /** A reference reading of the rule, one character at a time: a `-` is
      dropped and makes the next character the start of a word; a character
      that starts a word is upper-cased, every other one is copied. */
  function Camelize(s: string, wordStart: bool): (r: string)
    ensures |r| == |s| - multiset(s)[Separator]
    ensures Separator !in r
    decreases |s|
  {
    if |s| == 0 then ""
    else
      assert s == [s[0]] + s[1..];
      if s[0] == Separator then Camelize(s[1..], true)
      else [if wordStart then UpperAscii(s[0]) else s[0]] + Camelize(s[1..], false)
  }

  /** The statement of `CamelizeExplode` for one string. */
  ghost predicate CamelizesAsWords(s: string, wordStart: bool)
  {
    var w := Explode(Separator, s);
    Camelize(s, wordStart) == (if wordStart then Ucfirst(w[0]) else w[0]) + Concat(UcfirstEach(w[1..]))
  }

  /** Splitting into words and `ucfirst`-ing them is the character-wise rule:
      the first word is upper-cased exactly when it starts a word. */
  lemma {:induction false} CamelizeExplode(s: string, wordStart: bool)
    ensures CamelizesAsWords(s, wordStart)
    decreases |s|
  {
    if |s| > 0 {
      if s[0] == Separator {
        CamelizeExplode(s[1..], true);
        CamelizeSeparatorStep(s, wordStart);
      } else {
        CamelizeExplode(s[1..], false);
        CamelizeWordStep(s, wordStart);
      }
    }
  }

  lemma CamelizeSeparatorStep(s: string, wordStart: bool)
    requires |s| > 0 && s[0] == Separator
    requires CamelizesAsWords(s[1..], true)
    ensures CamelizesAsWords(s, wordStart)
  {
    var rest := Explode(Separator, s[1..]);
    var w := Explode(Separator, s);
    assert w[0] == "" && w[1..] == rest;
    UcfirstEachUnfold(rest);
  }

  lemma CamelizeWordStep(s: string, wordStart: bool)
    requires |s| > 0 && s[0] != Separator
    requires CamelizesAsWords(s[1..], false)
    ensures CamelizesAsWords(s, wordStart)
  {
    var rest := Explode(Separator, s[1..]);
    var w := Explode(Separator, s);
    var tail := Concat(UcfirstEach(rest[1..]));
    var c := if wordStart then UpperAscii(s[0]) else s[0];
    ExplodeWord(Separator, s);
    UcfirstCons(s[0], rest[0]);
    assert (if wordStart then Ucfirst(w[0]) else w[0]) == [c] + rest[0];
    CamelizeWord(s, wordStart);
    AppendAssociates([c], rest[0], tail);
  }

  lemma AppendAssociates(a: string, b: string, c: string)
    ensures a + (b + c) == (a + b) + c
  {
  }

  lemma CamelizeWord(s: string, wordStart: bool)
    requires |s| > 0 && s[0] != Separator
    ensures Camelize(s, wordStart) == [if wordStart then UpperAscii(s[0]) else s[0]] + Camelize(s[1..], false)
  {
  }

  lemma UcfirstCons(c: char, t: string)
    ensures Ucfirst([c] + t) == [UpperAscii(c)] + t
  {
    assert ([c] + t)[1..] == t;
  }

  lemma UcfirstEachUnfold(words: seq<string>)
    requires |words| > 0
    ensures Concat(UcfirstEach(words)) == Ucfirst(words[0]) + Concat(UcfirstEach(words[1..]))
  {
    assert UcfirstEach(words) == [Ucfirst(words[0])] + UcfirstEach(words[1..]);
  }

  /** The derived class name is the locale namespace followed by the
      character-wise rule applied to the value without its first character. */
  lemma NamespaceByCharacters(locale: string, value: string)
    ensures SpelloutNamespace(locale, value) == LocaleNamespace(locale) + Camelize(DropFirst(value), true)
  {
    var w := Explode(Separator, DropFirst(value));
    CamelizeExplode(DropFirst(value), true);
    UcfirstEachUnfold(w);
  }

  /** `s` with every separator removed. */
  function Strip(s: string): (r: string)
    ensures |r| == |s| - multiset(s)[Separator]
    ensures Separator !in r
    decreases |s|
  {
    if |s| == 0 then ""
    else
      assert s == [s[0]] + s[1..];
      if s[0] == Separator then Strip(s[1..]) else [s[0]] + Strip(s[1..])
  }

  /** `x` is `y` with some of its characters upper-cased as `ucfirst` does. */
  ghost predicate SameUpToUpperCase(x: string, y: string)
  {
    |x| == |y| && forall i :: 0 <= i < |x| ==> x[i] == y[i] || x[i] == UpperAscii(y[i])
  }

  /** The character-wise rule keeps every character but the separators, in
      order, and changes none of them except by upper-casing. */
  lemma {:induction false} CamelizeKeepsCharacters(s: string, wordStart: bool)
    ensures SameUpToUpperCase(Camelize(s, wordStart), Strip(s))
    decreases |s|
  {
    if |s| > 0 {
      if s[0] == Separator {
        CamelizeKeepsCharacters(s[1..], true);
      } else {
        CamelizeKeepsCharacters(s[1..], false);
        CamelizeWord(s, wordStart);
        var x := Camelize(s, wordStart);
        var y := Strip(s);
        assert y == [s[0]] + Strip(s[1..]);
        forall i | 0 <= i < |x|
          ensures x[i] == y[i] || x[i] == UpperAscii(y[i])
        {
          if i > 0 {
            assert x[i] == Camelize(s[1..], false)[i - 1];
            assert y[i] == Strip(s[1..])[i - 1];
          }
        }
      }
    }
  }

  /** What follows the locale namespace is the value after its first
      character with the separators removed, some characters upper-cased and
      nothing else changed. */
  lemma NamespaceDropsSeparators(locale: string, value: string)
    ensures var ns := SpelloutNamespace(locale, value);
      var p := LocaleNamespace(locale);
      && |ns| == |p| + |DropFirst(value)| - multiset(DropFirst(value))[Separator]
      && Separator !in ns[|p|..]
      && SameUpToUpperCase(ns[|p|..], Strip(DropFirst(value)))
  {
    CamelizeKeepsCharacters(DropFirst(value), true);
    NamespaceByCharacters(locale, value);
    var p := LocaleNamespace(locale);
    assert SpelloutNamespace(locale, value)[|p|..] == Camelize(DropFirst(value), true);
  }

  /** Only the position of the first character matters, not what it is. */
  lemma NamespaceIgnoresMarker(locale: string, a: char, b: char, rest: string)
    ensures SpelloutNamespace(locale, [a] + rest) == SpelloutNamespace(locale, [b] + rest)
  {
    assert DropFirst([a] + rest) == rest == DropFirst([b] + rest);
  }

  /** The naming rule read backwards: a value made of a marker character and
      words joined by `-` names the locale namespace followed by the
      `ucfirst`-ed words, appended in order. */
  lemma NamespaceOfWords(locale: string, marker: char, words: seq<string>)
    requires |words| >= 1
    requires forall i :: 0 <= i < |words| ==> Separator !in words[i]
    ensures SpelloutNamespace(locale, [marker] + Implode(Separator, words))
         == LocaleNamespace(locale) + Concat(UcfirstEach(words))
  {
    ExplodeImplode(Separator, words);
    assert DropFirst([marker] + Implode(Separator, words)) == Implode(Separator, words);
  }

  /** The name for the Polish feminine cardinal ruleset. The literal
      computation is split over helper lemmas to keep each proof cheap. */
  lemma PolishCardinalFeminine()
    ensures SpelloutNamespace("pl", "%spellout-cardinal-feminine")
         == Root + "Pl" + "\\" + "SpelloutCardinalFeminine"
  {
    var words := ["spellout", "cardinal", "feminine"];
    PolishFeminineJoined();
    PolishFeminineCapitalized();
    NamespaceOfWords("pl", '%', words);
    assert Ucfirst("pl") == "Pl";
  }

  /** The value is a marker followed by its three words joined by `-`. */
  lemma PolishFeminineJoined()
    ensures "%spellout-cardinal-feminine" == ['%'] + Implode(Separator, ["spellout", "cardinal", "feminine"])
    ensures forall i :: 0 <= i < 3 ==> Separator !in ["spellout", "cardinal", "feminine"][i]
  {
    assert ["spellout", "cardinal", "feminine"][1..] == ["cardinal", "feminine"];
    assert ["cardinal", "feminine"][1..] == ["feminine"];
    assert Implode(Separator, ["spellout", "cardinal", "feminine"])
        == "spellout" + [Separator] + ("cardinal" + [Separator] + "feminine");
    PolishFeminineSpelled();
  }

  lemma PolishFeminineSpelled()
    ensures ['%'] + ("spellout" + [Separator] + ("cardinal" + [Separator] + "feminine")) == "%spellout-cardinal-feminine"
  {
  }

  /** The three words `ucfirst`-ed and appended. */
  lemma PolishFeminineCapitalized()
    ensures Concat(UcfirstEach(["spellout", "cardinal", "feminine"])) == "SpelloutCardinalFeminine"
  {
    PolishFeminineWordsCapitalized();
    PolishFeminineAppended();
  }

  lemma PolishFeminineWordsCapitalized()
    ensures UcfirstEach(["spellout", "cardinal", "feminine"]) == ["Spellout", "Cardinal", "Feminine"]
  {
    CardinalWords();
    assert Ucfirst("feminine") == "Feminine";
  }

  lemma PolishFeminineAppended()
    ensures Concat(["Spellout", "Cardinal", "Feminine"]) == "SpelloutCardinalFeminine"
  {
    assert Concat(["Feminine"]) == "Feminine";
    assert Concat(["Cardinal", "Feminine"]) == "CardinalFeminine";
  }

  lemma CardinalWords()
    ensures Ucfirst("spellout") == "Spellout" && Ucfirst("cardinal") == "Cardinal"
  {
  }

  /** The words are appended, not nested, so the name does not tell where a
      word ended: `%spellout-cardinal` and `%spelloutCardinal` (any two words
      `a` and `b`, the second written `ucfirst`-ed straight after the first)
      name the same class. */
  lemma WordsAreNotNamespaceLevels(locale: string, marker: char, a: string, b: string)
    requires |a| > 0 && Separator !in a && Separator !in b
    ensures SpelloutNamespace(locale, [marker] + (a + [Separator] + b))
         == SpelloutNamespace(locale, [marker] + (a + Ucfirst(b)))
  {
    var joined := a + Ucfirst(b);
    assert Implode(Separator, [a, b]) == a + [Separator] + b;
    NamespaceOfWords(locale, marker, [a, b]);
    JoinedWord(a, b);
    assert Implode(Separator, [joined]) == joined;
    NamespaceOfWords(locale, marker, [joined]);
  }

  /** The two sides of `WordsAreNotNamespaceLevels` word by word. */
  lemma JoinedWord(a: string, b: string)
    requires |a| > 0 && Separator !in a && Separator !in b
    ensures Separator !in a + Ucfirst(b)
    ensures Concat(UcfirstEach([a, b])) == Concat(UcfirstEach([a + Ucfirst(b)]))
  {
    var joined := a + Ucfirst(b);
    assert Separator !in Ucfirst(b) by {
      if |b| > 0 {
        assert Ucfirst(b) == [Ucfirst(b)[0]] + b[1..];
      }
    }
    assert Ucfirst(joined) == Ucfirst(a) + Ucfirst(b) by {
      assert joined[1..] == a[1..] + Ucfirst(b);
    }
    assert Concat(UcfirstEach([a, b])) == Ucfirst(a) + Ucfirst(b) by {
      assert UcfirstEach([a, b]) == [Ucfirst(a), Ucfirst(b)];
      assert Concat([Ucfirst(b)]) == Ucfirst(b);
    }
    assert Concat(UcfirstEach([joined])) == Ucfirst(joined) by {
      assert UcfirstEach([joined]) == [Ucfirst(joined)];
    }
  }
}
