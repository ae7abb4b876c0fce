// What normalizing a phase promises.
module PhaseLabels {
  import opened Base
  import opened Numerals
  import opened Text
  import opened Phases

  // ---- numerals and integers ---------------------------------------------------------------------

  // Digits as a reader of labels writes them.
  lemma {:induction false} AsciiDigits(u: Unicode, ds: string)
    requires Sane(u) && forall c | c in ds :: IsDigit(c)
    ensures AllDigits(u, ds) && IntValue(u, ds) == Value(ds)
  {
    if ds != "" {
      AsciiDigits(u, ds[..|ds| - 1]);
      assert IsDigit(ds[|ds| - 1]);
    }
  }

  lemma {:induction false} DecimalIsShort(u: Unicode, ds: string)
    requires Sane(u) && ds != "" && AllDigits(u, ds)
    ensures |Decimal(IntValue(u, ds))| <= |ds|
    decreases |ds|
  {
    hide Sane;
    var init := ds[..|ds| - 1];
    LastDigit(u, ds);
    if init != "" {
      DecimalIsShort(u, init);
      var m := IntValue(u, init);
      assert IntValue(u, ds) / 10 == m;
    }
  }

  lemma LastDigit(u: Unicode, ds: string)
    requires Sane(u) && ds != "" && AllDigits(u, ds)
    ensures AllDigits(u, ds[..|ds| - 1]) && u.digit(ds[|ds| - 1]).Some? && u.digit(ds[|ds| - 1]).value < 10
  {
  }

  lemma {:induction false} PositiveValue(u: Unicode, ds: string)
    requires Sane(u) && ds != "" && AllDigits(u, ds) && '1' <= ds[0] <= '9'
    ensures IntValue(u, ds) >= 1
    decreases |ds|
  {
    if |ds| > 1 {
      PositiveValue(u, ds[..|ds| - 1]);
    } else {
      assert ds[..0] == "";
    }
  }

  lemma {:induction false} LeadingDigit(n: nat)
    requires n >= 1
    ensures '1' <= Decimal(n)[0] <= '9'
  {
    if n >= 10 {
      LeadingDigit(n / 10);
    }
  }

  lemma {:induction false} DecimalOfValue(ds: string)
    requires ds != "" && (forall c | c in ds :: IsDigit(c)) && '1' <= ds[0] <= '9'
    ensures Value(ds) >= 1 && Decimal(Value(ds)) == ds
    decreases |ds|
  {
    var init := ds[..|ds| - 1];
    assert IsDigit(ds[|ds| - 1]) && ds == init + [ds[|ds| - 1]];
    if init != "" {
      DecimalOfValue(init);
      assert Value(ds) / 10 == Value(init) && Value(ds) % 10 == ds[|ds| - 1] as int - '0' as int;
    } else {
      assert Value(init) == 0;
    }
  }

  // ---- labels read back ------------------------------------------------------------------------------

  lemma KindShape(k: Kind)
    ensures KindOf(KindValue(k)) == Some(k)
    ensures KindValue(k) != "" && forall c | c in KindValue(k) :: 'a' <= c <= 'z'
  {
  }

  // Lower-case letters, hyphens and digits of any script.
  ghost predicate IsPlain(u: Unicode, s: string) {
    s != "" && forall c | c in s :: 'a' <= c <= 'z' || c == '-' || u.digit(c).Some?
  }

  lemma PlainIsAWord(u: Unicode, s: string)
    requires Sane(u) && IsPlain(u, s)
    ensures AreWords(u, [s])
  {
  }

  lemma PlainText(u: Unicode, s: string)
    requires Sane(u) && IsPlain(u, s)
    ensures Collapse(u, s) == s && Lower(u, s) == s
  {
    hide Collapse, Lower;
    PlainIsAWord(u, s);
    JoinedIsCollapsed(u, [s]);
    LowerKeeps(u, s);
  }

  lemma NewlineFolds(u: Unicode, s: string)
    requires Sane(u) && IsPlain(u, s)
    ensures Collapse(u, s + "\n") == s
  {
    PlainIsAWord(u, s);
    assert s in [s];
    var t := s + "\n";
    UnscoreKeeps(t);
    WordLengthIs(u, s, "\n");
    assert t[..|s|] == s && t[|s|..] == "\n" && t[0] == s[0] && s[0] in s;
    assert Split(u, "\n") == [];
    assert Words(u, t) == [s];
    CollapseIsWords(u, t);
  }

  lemma NumberedText(u: Unicode, k: Kind, ds: string)
    requires Sane(u) && ds != "" && AllDigits(u, ds)
    ensures var s := KindValue(k) + "-" + ds;
            && Collapse(u, s) == s && Lower(u, s) == s
            && Parse(u, s) == if |ds| > MAX_INT_DIGITS then TooLong else Occurrence(k, IntValue(u, ds))
  {
    NumberedIsPlain(u, k, ds);
    KindShape(k);
    hide KindValue, Sane, KindOf, AllDigits, Parse, Collapse, Lower;
    PlainText(u, KindValue(k) + "-" + ds);
    NumberParses(u, KindValue(k) + "-" + ds, KindValue(k), "-", ds, k);
  }

  lemma NumberedIsPlain(u: Unicode, k: Kind, ds: string)
    requires AllDigits(u, ds)
    ensures IsPlain(u, KindValue(k) + "-" + ds)
  {
  }

  lemma LabelParses(u: Unicode, k: Kind, n: nat)
    requires Sane(u) && n >= 1 && |Decimal(n)| <= MAX_INT_DIGITS
    ensures var s := LabelText(k, n);
            Collapse(u, s) == s && Lower(u, s) == s && Parse(u, s) == Numbered(k, n)
  {
    AsciiDigits(u, Decimal(n));
    ValueOfDecimal(n);
    NumberedText(u, k, Decimal(n));
    hide *;
  }

  lemma KindParses(u: Unicode, k: Kind)
    requires Sane(u)
    ensures var s := KindValue(k); Collapse(u, s) == s && Lower(u, s) == s && Parse(u, s) == Bare(k)
  {
    KindShape(k);
    PlainText(u, KindValue(k));
  }

  /** A label reads back as the pair it was printed from, so distinct pairs have distinct labels. */
  lemma LabelsReadBack(u: Unicode, k: Kind, occurrence: OccurrenceArg, text: string)
    requires Sane(u) && PhaseLabel(u, Member(k), occurrence) == Ok(text)
    ensures Parse(u, text) == if occurrence.Uncounted? then Bare(k) else Numbered(k, occurrence.n)
    ensures Normalize(u, Some(text)) == Ok(Some(text))
  {
    if occurrence.Uncounted? {
      KindParses(u, k);
      KindShape(k);
    } else {
      LabelParses(u, k, occurrence.n);
    }
    hide Parse, Sane, Collapse, Lower, KindOf, Decimal;
  }

  lemma LabelsDiffer(u: Unicode, k: Kind, o: OccurrenceArg, j: Kind, p: OccurrenceArg)
    requires Sane(u) && PhaseLabel(u, Member(k), o).Ok? && PhaseLabel(u, Member(k), o) == PhaseLabel(u, Member(j), p)
    ensures k == j && o == p
  {
    var text := PhaseLabel(u, Member(k), o).value;
    LabelsReadBack(u, k, o, text);
    LabelsReadBack(u, j, p, text);
  }

  // ---- normalizing ---------------------------------------------------------------------------------

  lemma SaysNumeral(u: Unicode, t: string, k: Kind, n: nat)
    requires SaysNumber(u, t, k, n) || SaysOrdinal(u, t, k, n)
    ensures exists ds: string :: IsNumeral(u, ds, n)
  {
  }

  // A counted occurrence has a short enough numeral to be printed again.
  lemma NumberedIsShort(u: Unicode, t: string, k: Kind, n: nat)
    requires Sane(u) && Parse(u, t) == Numbered(k, n)
    ensures n >= 1 && |Decimal(n)| <= MAX_INT_DIGITS
  {
    assert n >= 1 by { hide ParseOrdinal, ParseNumber; CountsAreCounted(u, t); }
    hide SaysNumber, SaysOrdinal, Parse, Sane, KindOf;
    ParseIff(u, t, k, n);
    SaysNumeral(u, t, k, n);
    var ds: string :| IsNumeral(u, ds, n);
    hide Decimal;
    DecimalIsShort(u, ds);
  }

  lemma CountsAreCounted(u: Unicode, t: string)
    ensures Parse(u, t).Numbered? ==> Parse(u, t).n >= 1
  {
  }

  // Normalizing, by what the text reads as.
  lemma NormalizeBy(u: Unicode, v: string)
    ensures var folded := Collapse(u, v);
            Normalize(u, Some(v)) ==
            match Read(u, v)
            case Bare(k) => Ok(Some(KindValue(k)))
            case Numbered(k, n) => Ok(Some(LabelText(k, n)))
            case TooLong => ValueError
            case _ => Ok(if folded == "" then None else Some(folded))
  {
  }

  /** Normalizing is idempotent. */
  lemma NormalizeTwice(u: Unicode, v: string, r: string)
    requires Sane(u) && Normalize(u, Some(v)) == Ok(Some(r))
    ensures Normalize(u, Some(r)) == Ok(Some(r))
  {
    NormalizeBy(u, v);
    NormalizeBy(u, r);
    CollapseTwice(u, v);
    hide Parse, Lower, Collapse, Sane, Normalize, KindValue, Decimal;
    match Read(u, v) {
      case Bare(k) => KindParses(u, k);
      case Numbered(k, n) =>
        NumberedIsShort(u, Lower(u, Collapse(u, v)), k, n);
        LabelParses(u, k, n);
      case TooLong =>
      case _ =>
    }
  }

  lemma CanonicalParses(u: Unicode, s: string, k: Kind)
    requires Sane(u) && KindThenDigits(u, s, k)
    ensures Parse(u, Lower(u, s)) == Bare(k) || Parse(u, Lower(u, s)).Numbered? || Parse(u, Lower(u, s)).TooLong?
  {
    hide Sane, KindValue, Parse, Lower, Collapse, AllDigits, IntValue;
    if s == KindValue(k) {
      KindParses(u, k);
    } else {
      var v := KindValue(k);
      var ds := s[|v| + 1..];
      assert s == v + "-" + ds;
      PositiveValue(u, ds);
      NumberedText(u, k, ds);
    }
  }

  lemma LabelsAreCanonical(u: Unicode, k: Kind, n: nat)
    requires Sane(u) && n >= 1
    ensures IsCanonical(u, KindValue(k)) && IsCanonical(u, LabelText(k, n))
  {
    var v, text := KindValue(k), LabelText(k, n);
    KindShape(k);
    AsciiDigits(u, Decimal(n));
    LeadingDigit(n);
    assert text[|v| + 1..] == Decimal(n) && v + "-" <= text;
    assert text[|text| - 1] == Decimal(n)[|Decimal(n)| - 1] && IsDigit(Decimal(n)[|Decimal(n)| - 1]);
    assert v[|v| - 1] in v;
    hide Decimal, KindValue, AllDigits;
    assert KindThenDigits(u, v, k) && KindThenDigits(u, text, k);
  }

  /** The result is canonical exactly when the parser recognized a kind, with a valid occurrence if any. */
  lemma CanonicalIffRecognized(u: Unicode, v: string, r: string)
    requires Sane(u) && Normalize(u, Some(v)) == Ok(Some(r))
    ensures IsCanonical(u, r) <==> Read(u, v).Bare? || Read(u, v).Numbered?
  {
    NormalizeBy(u, v);
    CollapseTwice(u, v);
    hide Sane, Collapse, Lower, Parse, Normalize, KindThenDigits, KindValue, Decimal;
    match Read(u, v) {
      case Bare(k) => LabelsAreCanonical(u, k, 1);
      case Numbered(k, n) =>
        NumberedIsShort(u, Lower(u, Collapse(u, v)), k, n);
        LabelsAreCanonical(u, k, n);
      case TooLong =>
      case _ =>
        if IsCanonical(u, r) {
          assert r[|r| - 1] in r;
          var k :| KindThenDigits(u, r, k);
          CanonicalParses(u, r, k);
        }
    }
  }

  /** Every documented spelling comes out as the label: whatever separators and case it is written with, a
      text that says kind `k` and occurrence `n` normalizes to what `phase_label` prints for them. */
  lemma SpellingsFold(u: Unicode, v: string, k: Kind, n: nat)
    requires Sane(u) && n >= 1
    requires var t := Lower(u, Join(Words(u, v))); SaysNumber(u, t, k, n) || SaysOrdinal(u, t, k, n)
    ensures Normalize(u, Some(v)) == Ok(Some(LabelText(k, n)))
    ensures PhaseLabel(u, Member(k), Number(n)) == Ok(LabelText(k, n))
  {
    hide Parse, Lower, Collapse, Words, Sane, SaysNumber, SaysOrdinal, Decimal, Normalize;
    var t := Lower(u, Join(Words(u, v)));
    CollapseIsWords(u, v);
    ParseIff(u, t, k, n);
    NumberedIsShort(u, t, k, n);
    NormalizeBy(u, v);
  }

  // A kind followed by a numeral too long for Python to convert.
  ghost predicate SaysTooLong(u: Unicode, t: string) {
    exists word: string, sep: string, ds: string :: TooLongAs(u, t, word, sep, ds)
  }

  ghost predicate TooLongAs(u: Unicode, t: string, word: string, sep: string, ds: string) {
    && t == word + sep + ds && KindOf(word).Some? && IsSeparator(sep)
    && AllDigits(u, ds) && |ds| > MAX_INT_DIGITS
  }

  /** It raises, against its promise never to, on exactly one family: text that says a kind followed by a
      numeral too long for Python to convert. */
  lemma NormalizeRaisesIff(u: Unicode, v: string)
    requires Sane(u)
    ensures Normalize(u, Some(v)) == ValueError <==> SaysTooLong(u, Lower(u, Collapse(u, v)))
  {
    hide Lower, Collapse, Words, Sane, Normalize, TooLongAs;
    var t := Lower(u, Collapse(u, v));
    NormalizeBy(u, v);
    hide Read;
    assert Read(u, v) == Parse(u, t) by { ReadIs(u, v); }
    if Parse(u, t) == TooLong {
      TooLongSays(u, t);
    }
    hide Parse;
    if word: string, sep: string, ds: string :| TooLongAs(u, t, word, sep, ds) {
      TooLongParses(u, t, word, sep, ds);
    }
  }

  lemma TooLongParses(u: Unicode, t: string, word: string, sep: string, ds: string)
    requires Sane(u) && TooLongAs(u, t, word, sep, ds)
    ensures Parse(u, t) == TooLong
  {
    hide KindOf, IsSeparator, AllDigits, Parse, Sane;
    NumberParses(u, t, word, sep, ds, KindOf(word).value);
  }

  lemma ReadIs(u: Unicode, v: string)
    ensures Read(u, v) == Parse(u, Lower(u, Collapse(u, v)))
  {
  }

  lemma TooLongSays(u: Unicode, t: string)
    requires Parse(u, t) == TooLong
    ensures SaysTooLong(u, t)
  {
    var p := DigitsFrom(u, t);
    hide Strip, Lower, OrdinalSuffix, IntValue, DigitsBefore, DigitsFrom, AllDigits, Unpadded, KindOf;
    assert ParseNumber(u, t) == TooLong;
    var word, sep := NumberParts(t, p);
    assert TooLongAs(u, t, word, sep, t[p..]);
  }

  /** Every kind has such texts: the kind, a blank and more than 4300 digits. */
  lemma LongNumeralRaises(u: Unicode, k: Kind, ds: string)
    requires Sane(u) && |ds| > MAX_INT_DIGITS && forall c | c in ds :: IsDigit(c)
    ensures Normalize(u, Some(KindValue(k) + " " + ds)) == ValueError
  {
    hide Sane, Normalize, SaysTooLong, Collapse, Lower;
    var v := KindValue(k) + " " + ds;
    KindThenNumeralFolds(u, k, ds);
    AsciiDigits(u, ds);
    KindShape(k);
    hide KindValue;
    assert TooLongAs(u, v, KindValue(k), " ", ds);
    SaysTooLongAs(u, v, KindValue(k), " ", ds);
    NormalizeRaisesIff(u, v);
  }

  lemma SaysTooLongAs(u: Unicode, t: string, word: string, sep: string, ds: string)
    requires TooLongAs(u, t, word, sep, ds)
    ensures SaysTooLong(u, t)
  {}

  lemma KindThenNumeralFolds(u: Unicode, k: Kind, ds: string)
    requires Sane(u) && ds != "" && forall c | c in ds :: IsDigit(c)
    ensures var v := KindValue(k) + " " + ds; Collapse(u, v) == v && Lower(u, v) == v
  {
    var ws := [KindValue(k), ds];
    KindShape(k);
    assert ws[1..] == [ds];
    assert Join(ws) == KindValue(k) + " " + ds;
    hide KindValue, Collapse, Lower, Join;
    JoinedIsCollapsed(u, ws);
    LowerKeeps(u, KindValue(k) + " " + ds);
  }

  /** For instance `review` and 4301 ones. */
  lemma ReviewOnesRaise(u: Unicode) returns (ones: string)
    requires Sane(u)
    ensures |ones| == MAX_INT_DIGITS + 1 && forall c | c in ones :: c == '1'
    ensures Normalize(u, Some("review " + ones)) == ValueError
  {
    ones := seq(MAX_INT_DIGITS + 1, i => '1');
    LongNumeralRaises(u, Review, ones);
    assert "review" + " " + ones == "review " + ones;
    hide *;
  }

  // ---- canonical text that is not a label -------------------------------------------------------------

  ghost predicate IsLabel(s: string) {
    exists k: Kind :: IsLabelOf(s, k)
  }

  ghost predicate IsLabelOf(s: string, k: Kind) {
    s == KindValue(k) || exists n: nat :: n >= 1 && s == LabelText(k, n)
  }

  /** Canonical text is a label exactly when it does not end in a newline and holds ASCII digits only; the
      pattern admits both, so `"review-1\n"` passes for canonical. */
  lemma CanonicalIsLabelIff(u: Unicode, s: string)
    requires Sane(u) && IsCanonical(u, s)
    ensures IsLabel(s) <==> forall c | c in s :: '!' <= c <= '~'
  {
    if IsLabel(s) {
      LabelsArePlain(s);
    } else if forall c | c in s :: '!' <= c <= '~' {
      assert s != "" ==> s[|s| - 1] in s;
      var k: Kind :| KindThenDigits(u, s, k);
      PlainIsLabel(u, s, k);
    }
  }

  lemma LabelsArePlain(s: string)
    requires IsLabel(s)
    ensures forall c | c in s :: '!' <= c <= '~'
  {
  }

  lemma PlainIsLabel(u: Unicode, s: string, k: Kind)
    requires Sane(u) && KindThenDigits(u, s, k) && forall c | c in s :: '!' <= c <= '~'
    ensures IsLabel(s)
  {
    var v := KindValue(k);
    if s != v {
      var ds := s[|v| + 1..];
      assert s == v + "-" + ds;
      hide KindValue;
      forall c | c in ds ensures IsDigit(c) {
        assert c in s && u.digit(c).Some?;
      }
      hide AllDigits, Sane;
      DecimalOfValue(ds);
      assert s == LabelText(k, Value(ds));
    }
    assert IsLabelOf(s, k);
  }

  lemma NewlineIsNotPlain(u: Unicode, s: string)
    requires Sane(u) && IsPlain(u, s)
    ensures '\n' !in s
  {
  }

  /** Any label with a newline after it is canonical text, and normalizes to the label without it. */
  lemma NewlinePassesForCanonical(u: Unicode, k: Kind, n: nat)
    requires Sane(u) && n >= 1 && |Decimal(n)| <= MAX_INT_DIGITS
    ensures IsCanonical(u, LabelText(k, n) + "\n") && !IsLabel(LabelText(k, n) + "\n")
    ensures Normalize(u, Some(LabelText(k, n) + "\n")) == Ok(Some(LabelText(k, n)))
  {
    hide Normalize, Collapse, Lower, Parse, KindThenDigits, Sane, KindValue, Decimal;
    var s := LabelText(k, n);
    var t := s + "\n";
    assert t[..|t| - 1] == s && t[|t| - 1] == '\n' && '\n' in t;
    LabelsAreCanonical(u, k, n);
    LabelParses(u, k, n);
    AsciiDigits(u, Decimal(n));
    NumberedIsPlain(u, k, Decimal(n));
    NewlineFolds(u, s);
    NormalizeBy(u, t);
    if IsLabel(t) {
      LabelsArePlain(t);
    }
    NewlineIsNotPlain(u, s);
  }
}
