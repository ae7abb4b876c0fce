// The documented ways to write a phase.
module PhaseSpellings {
  import opened Base
  import opened Text
  import opened Phases
  import opened PhaseLabels

  lemma {:induction false} UnscoreAppend(a: string, b: string)
    ensures Unscore(a + b) == Unscore(a) + Unscore(b)
  {
    if a == "" {
      assert a + b == b;
    } else {
      assert (a + b)[1..] == a[1..] + b;
      UnscoreAppend(a[1..], b);
    }
  }

  lemma {:induction false} SplitAt(u: Unicode, a: string, b: string)
    requires b == "" || u.isSpace(b[0])
    ensures Split(u, a + b) == Split(u, a) + Split(u, b)
    decreases |a|
  {
    if a == "" {
      assert a + b == b;
    } else if u.isSpace(a[0]) {
      assert (a + b)[1..] == a[1..] + b;
      SplitAt(u, a[1..], b);
    } else {
      var n := WordLength(u, a);
      var w, rest := a[..n], a[n..];
      assert a + b == w + (rest + b);
      WordLengthIs(u, w, rest + b);
      assert (a + b)[..n] == w && (a + b)[n..] == rest + b;
      SplitAt(u, rest, b);
    }
  }

  lemma {:induction false} SplitOneWord(u: Unicode, gap: string, w: string)
    requires AllSpace(u, gap) && w != "" && forall c | c in w :: !u.isSpace(c)
    ensures Split(u, gap + w) == [w]
  {
    if gap == "" {
      assert gap + w == w + "" && w[0] in w;
      WordLengthIs(u, w, "");
      assert w[|w|..] == "" && w[..|w|] == w;
    } else {
      assert (gap + w)[0] == gap[0] && gap[0] in gap && (gap + w)[1..] == gap[1..] + w;
      SplitOneWord(u, gap[1..], w);
    }
  }

  lemma {:induction false} JoinAppend(ws: seq<string>, w: string)
    requires ws != []
    ensures Join(ws + [w]) == Join(ws) + " " + w
  {
    if |ws| > 1 {
      assert (ws + [w])[1..] == ws[1..] + [w];
      JoinAppend(ws[1..], w);
      assert Join(ws + [w]) == ws[0] + " " + (Join(ws[1..]) + " " + w);
    } else {
      assert (ws + [w])[1..] == [w];
    }
  }

  lemma SeparatorsAreSpace(u: Unicode, gap: string)
    requires Sane(u) && AllSeparators(u, gap)
    ensures AllSpace(u, Unscore(gap)) && |Unscore(gap)| == |gap|
  {
  }

  // No space, and nothing that folds to one.
  predicate OneWord(u: Unicode, w: string) {
    w != "" && forall c | c in w :: !u.isSpace(c) && c != '_' && c != '#'
  }

  lemma WordsAppend(u: Unicode, a: string, gap: string, w: string)
    requires Sane(u) && AllSeparators(u, gap) && gap != "" && OneWord(u, w)
    ensures Words(u, a + gap + w) == Words(u, a) + [w]
  {
    hide Split, Unscore;
    SeparatorsAreSpace(u, gap);
    var g := Unscore(gap);
    UnscoreAppend(a + gap, w);
    UnscoreAppend(a, gap);
    UnscoreKeeps(w);
    assert Unscore(a + gap + w) == Unscore(a) + (g + w);
    assert (g + w)[0] == g[0] && g[0] in g;
    SplitAt(u, Unscore(a), g + w);
    SplitOneWord(u, g, w);
    hide Split, Unscore;
  }

  lemma WordsPrepend(u: Unicode, w: string, gap: string, a: string)
    requires Sane(u) && AllSeparators(u, gap) && gap != "" && OneWord(u, w)
    ensures Words(u, w + gap + a) == [w] + Words(u, a)
  {
    SeparatorsAreSpace(u, gap);
    var g := Unscore(gap);
    UnscoreAppend(w + gap, a);
    UnscoreAppend(w, gap);
    UnscoreKeeps(w);
    assert Unscore(w + gap + a) == w + (g + Unscore(a));
    assert (g + Unscore(a))[0] == g[0] && g[0] in g;
    SplitAt(u, w, g + Unscore(a));
    SplitOneWord(u, "", w);
    assert "" + w == w;
    SplitSpaced(u, g, Unscore(a));
    hide Split, Unscore;
  }

  lemma {:induction false} SplitSpaced(u: Unicode, gap: string, s: string)
    requires AllSpace(u, gap)
    ensures Split(u, gap + s) == Split(u, s)
  {
    if gap == "" {
      assert gap + s == s;
    } else {
      assert (gap + s)[0] == gap[0] && gap[0] in gap && (gap + s)[1..] == gap[1..] + s;
      SplitSpaced(u, gap[1..], s);
    }
  }

  // `written` is a kind's word, in any case and with any separators inside.
  predicate WritesKind(u: Unicode, written: string, k: Kind) {
    KindOf(Lower(u, Join(Words(u, written)))) == Some(k)
  }

  lemma NumeralIsAWord(u: Unicode, ds: string, n: nat)
    requires Sane(u) && IsNumeral(u, ds, n)
    ensures OneWord(u, ds) && Lower(u, ds) == ds
  {
    assert u.digit('_').None? && u.digit('#').None?;
    LowerKeeps(u, ds);
  }

  /** `Review #1`, `review_01`, `bug fix  2`: a kind, any run of blanks, `_` and `#`, and a number. */
  lemma NumberAfterKind(u: Unicode, written: string, gap: string, ds: string, k: Kind, n: nat)
    requires Sane(u) && WritesKind(u, written, k) && gap != "" && AllSeparators(u, gap)
    requires IsNumeral(u, ds, n) && n >= 1
    ensures Normalize(u, Some(written + gap + ds)) == Ok(Some(LabelText(k, n)))
  {
    var v := written + gap + ds;
    var ws := Words(u, written);
    var word := Lower(u, Join(ws));
    NumeralIsAWord(u, ds, n);
    hide Sane, IsNumeral, AllSeparators, Normalize, KindOf;
    WordsAppend(u, written, gap, ds);
    NoKindIsEmpty(u);
    JoinAppend(ws, ds);
    LowerAppend(u, Join(ws) + " ", ds);
    LowerAppend(u, Join(ws), " ");
    LowerBlank(u);
    hide Words, Lower, Join;
    assert IsSeparator(" ") && Lower(u, Join(Words(u, v))) == word + " " + ds;
    assert SaysNumber(u, word + " " + ds, k, n);
    SpellingsFold(u, v, k, n);
  }

  lemma NoKindIsEmpty(u: Unicode)
    ensures KindOf(Lower(u, Join([]))).None?
  {
  }

  lemma LowerBlank(u: Unicode)
    requires Sane(u)
    ensures Lower(u, " ") == " "
  {
  }

  predicate IsLetter(c: char) { 'a' <= c <= 'z' || 'A' <= c <= 'Z' }

  lemma SuffixIsLower(u: Unicode, n: nat)
    requires Sane(u)
    ensures Lower(u, OrdinalSuffix(n)) == OrdinalSuffix(n) && |OrdinalSuffix(n)| == 2
  {
    LowerKeeps(u, OrdinalSuffix(n));
  }

  lemma OrdinalLowered(u: Unicode, ds: string, suffix: string, ws: seq<string>)
    requires Sane(u) && ws != [] && Lower(u, ds) == ds
    ensures Lower(u, Join([ds + suffix] + ws)) == ds + (Lower(u, suffix) + (" " + (Lower(u, Join(ws)) + "")))
  {
    var head := ds + suffix;
    assert ([head] + ws)[1..] == ws;
    assert Join([head] + ws) == head + " " + Join(ws);
    LowerAppend(u, head + " ", Join(ws));
    LowerAppend(u, head, " ");
    LowerAppend(u, ds, suffix);
    LowerBlank(u);
    hide Lower, Join;
  }

  lemma OrdinalIsAWord(u: Unicode, ds: string, suffix: string)
    requires Sane(u) && OneWord(u, ds) && forall c | c in suffix :: IsLetter(c)
    ensures OneWord(u, ds + suffix)
  {
  }

  /** `1st review`, `22ND_bug-fix`: an English ordinal with its one valid suffix, then a kind. */
  lemma OrdinalBeforeKind(
    u: Unicode, ds: string, suffix: string, gap: string, written: string, k: Kind, n: nat)
    requires Sane(u) && WritesKind(u, written, k) && gap != "" && AllSeparators(u, gap)
    requires IsNumeral(u, ds, n) && n >= 1
    requires (forall c | c in suffix :: IsLetter(c)) && Lower(u, suffix) == OrdinalSuffix(n)
    ensures Normalize(u, Some(ds + suffix + gap + written)) == Ok(Some(LabelText(k, n)))
  {
    var ws := Words(u, written);
    NumeralIsAWord(u, ds, n);
    OrdinalIsAWord(u, ds, suffix);
    SuffixIsLower(u, n);
    assert AllSpace(u, " ") && AllSpace(u, "");
    WordsPrepend(u, ds + suffix, gap, written);
    NoKindIsEmpty(u);
    hide Sane, IsNumeral, AllSeparators, Normalize, KindOf, OneWord, OrdinalSuffix, AllSpace, Words;
    OrdinalLowered(u, ds, suffix, ws);
    hide Lower, Join;
    var t := ds + (OrdinalSuffix(n) + (" " + (Lower(u, Join(ws)) + "")));
    assert SaysOrdinal(u, t, k, n);
    SpellingsFold(u, ds + suffix + gap + written, k, n);
  }
}
