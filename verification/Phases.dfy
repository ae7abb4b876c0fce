// The phase taxonomy: one tolerant parser, one strict printer.
module Phases {
  import opened Base
  import opened Numerals
  import opened Text

  // Python refuses to turn longer numerals into integers, or the integers into text.
  const MAX_INT_DIGITS: nat := 4300

  datatype Outcome<+T> = Ok(value: T) | ValueError

  datatype Kind = Implementation | Review | Fix

  function KindValue(k: Kind): string {
    match k
    case Implementation => "implementation"
    case Review => "review"
    case Fix => "fix"
  }

  function KindOf(word: string): Option<Kind> {
    if word == "implementation" || word == "implement" then Some(Implementation)
    else if word == "review" then Some(Review)
    else if word == "fix" || word == "bug fix" || word == "bug-fix" || word == "bugfix" then Some(Fix)
    else None
  }

  /** The words of the taxonomy, and the one of each kind that is printed. */
  lemma KindsAreWritten(word: string)
    ensures KindOf(word) == Some(Implementation) <==> word in {"implementation", "implement"}
    ensures KindOf(word) == Some(Review) <==> word == "review"
    ensures KindOf(word) == Some(Fix) <==> word in {"fix", "bug fix", "bug-fix", "bugfix"}
    ensures KindValue(Implementation) == "implementation" && KindValue(Review) == "review" && KindValue(Fix) == "fix"
  {
  }

  datatype Parsed = Unrecognized | Bare(kind: Kind) | Numbered(kind: Kind, n: nat) | Impossible(kind: Kind) | TooLong

  // ---- the parser ----------------------------------------------------------------------------------

  predicate AllDigits(u: Unicode, s: string) { forall c | c in s :: u.digit(c).Some? }

  function IntValue(u: Unicode, ds: string): nat
    requires AllDigits(u, ds)
  {
    if ds == "" then 0
    else
      assert u.digit(ds[|ds| - 1]).Some?;
      10 * IntValue(u, ds[..|ds| - 1]) + u.digit(ds[|ds| - 1]).value
  }

  function DigitsBefore(u: Unicode, t: string): (d: nat)
    ensures d <= |t| && AllDigits(u, t[..d]) && (d < |t| ==> u.digit(t[d]).None?)
  {
    if t == "" || u.digit(t[0]).None? then 0
    else
      var d := DigitsBefore(u, t[1..]);
      assert t[..1 + d] == [t[0]] + t[1..][..d];
      1 + d
  }

  // Where the digits at the end of a text start.
  function DigitsFrom(u: Unicode, t: string): (p: nat)
    ensures p <= |t| && AllDigits(u, t[p..]) && (p > 0 ==> u.digit(t[p - 1]).None?)
  {
    if t == "" || u.digit(t[|t| - 1]).None? then |t|
    else
      var p := DigitsFrom(u, t[..|t| - 1]);
      assert t[p..] == t[..|t| - 1][p..] + [t[|t| - 1]];
      p
  }

  // The text before the blanks at its end.
  function Unpadded(s: string): (r: string)
    ensures r <= s && (r != "" ==> r[|r| - 1] != ' ') && AllBlank(s[|r|..])
  {
    if s != "" && s[|s| - 1] == ' ' then Unpadded(s[..|s| - 1]) else s
  }

  function OrdinalSuffix(n: nat): string {
    if 11 <= n % 100 <= 13 then "th"
    else if n % 10 == 1 then "st"
    else if n % 10 == 2 then "nd"
    else if n % 10 == 3 then "rd"
    else "th"
  }

  /** English: in the teens `th`; otherwise `st`, `nd` and `rd` after 1, 2 and 3, and `th` after any other digit. */
  lemma SuffixFollowsDigits(hundreds: nat, tens: nat, ones: nat)
    requires tens < 10 && ones < 10
    ensures OrdinalSuffix(100 * hundreds + 10 * tens + ones) ==
            if tens == 1 then "th"
            else match ones case 1 => "st" case 2 => "nd" case 3 => "rd" case _ => "th"
  {
    LastDigits(hundreds, tens, ones);
  }

  lemma LastDigits(hundreds: nat, tens: nat, ones: nat)
    requires tens < 10 && ones < 10
    ensures var n := 100 * hundreds + 10 * tens + ones; n % 100 == 10 * tens + ones && n % 10 == ones
  {
    var n := 100 * hundreds + 10 * tens + ones;
    assert n / 100 == hundreds;
    assert n / 10 == 10 * hundreds + tens;
  }

  function Occurrence(k: Kind, n: nat): Parsed {
    if n < 1 then Impossible(k) else Numbered(k, n)
  }

  // `1st review`: an English ordinal before the kind, its suffix validated.
  function ParseOrdinal(u: Unicode, t: string): Parsed {
    var d := DigitsBefore(u, t);
    if d == 0 || d > MAX_INT_DIGITS || |t| < d + 3 || !u.isSpace(t[d + 2]) then Unrecognized
    else
      var n := IntValue(u, t[..d]);
      if Lower(u, t[d..d + 2]) != OrdinalSuffix(n) then Unrecognized
      else
        match KindOf(Strip(u, t[d + 2..]))
        case Some(k) => Occurrence(k, n)
        case None => Unrecognized
  }

  // `review 2`, `review-2`: a number after the kind, behind one hyphen or one run of blanks.
  function ParseNumber(u: Unicode, t: string): Parsed {
    var p := DigitsFrom(u, t);
    if p == |t| || p == 0 || (t[p - 1] != '-' && t[p - 1] != ' ') then Unrecognized
    else
      match KindOf(if t[p - 1] == '-' then t[..p - 1] else Unpadded(t[..p]))
      case Some(k) => if |t| - p > MAX_INT_DIGITS then TooLong else Occurrence(k, IntValue(u, t[p..]))
      case None => Unrecognized
  }

  function Parse(u: Unicode, t: string): Parsed {
    if KindOf(t).Some? then Bare(KindOf(t).value)
    else if !ParseOrdinal(u, t).Unrecognized? then ParseOrdinal(u, t)
    else ParseNumber(u, t)
  }

  // ---- the printer ---------------------------------------------------------------------------------

  function LabelText(k: Kind, n: nat): string { KindValue(k) + "-" + Decimal(n) }

  datatype KindArg = Member(kind: Kind) | Word(s: string) | NoKind | NotAKind

  datatype OccurrenceArg = Uncounted | Number(n: int) | NotANumber

  function CoerceKind(u: Unicode, a: KindArg): Outcome<Kind> {
    match a
    case Member(k) => Ok(k)
    case Word(s) => (match KindOf(Lower(u, Collapse(u, s))) case Some(k) => Ok(k) case None => ValueError)
    case _ => ValueError
  }

  function PhaseLabel(u: Unicode, kind: KindArg, occurrence: OccurrenceArg): Outcome<string> {
    match CoerceKind(u, kind)
    case ValueError => ValueError
    case Ok(k) =>
      match occurrence
      case Uncounted => Ok(KindValue(k))
      case Number(n) => if n < 1 || |Decimal(n)| > MAX_INT_DIGITS then ValueError else Ok(LabelText(k, n))
      case NotANumber => ValueError
  }

  // What a written phase turns out to be.
  function Read(u: Unicode, v: string): Parsed { Parse(u, Lower(u, Collapse(u, v))) }

  function Normalize(u: Unicode, v: Option<string>): Outcome<Option<string>> {
    if v.None? then Ok(None)
    else
      var folded := Collapse(u, v.value);
      if folded == "" then Ok(None)
      else
        match Read(u, v.value)
        case Bare(k) => Ok(Some(KindValue(k)))
        case Numbered(k, n) => Ok(Some(LabelText(k, n)))
        case TooLong => ValueError
        case _ => Ok(Some(folded))
  }

  // A kind, alone or with `-` and digits of which the first is 1 to 9.
  predicate KindThenDigits(u: Unicode, s: string, k: Kind) {
    var v := KindValue(k);
    s == v ||
    (v + "-" <= s && |s| > |v| + 1 && '1' <= s[|v| + 1] <= '9' && AllDigits(u, s[|v| + 1..]))
  }

  // The pattern's `$` also matches before a final newline.
  predicate IsCanonical(u: Unicode, s: string) {
    var t := if s != "" && s[|s| - 1] == '\n' then s[..|s| - 1] else s;
    KindThenDigits(u, t, Implementation) || KindThenDigits(u, t, Review) || KindThenDigits(u, t, Fix)
  }

  // ---- the spellings -------------------------------------------------------------------------------

  // `word` then a hyphen or blanks then digits.
  ghost predicate SaysNumber(u: Unicode, t: string, k: Kind, n: nat) {
    exists word: string, sep: string, ds: string ::
      && t == word + sep + ds && KindOf(word) == Some(k)
      && IsSeparator(sep) && IsNumeral(u, ds, n)
  }

  // Digits with their one valid suffix, then space, then `word`.
  ghost predicate SaysOrdinal(u: Unicode, t: string, k: Kind, n: nat) {
    exists ds: string, suffix: string, gap: string, word: string, tail: string ::
      && t == ds + (suffix + (gap + (word + tail))) && KindOf(word) == Some(k)
      && |suffix| == 2 && Lower(u, suffix) == OrdinalSuffix(n)
      && gap != "" && AllSpace(u, gap) && AllSpace(u, tail)
      && IsNumeral(u, ds, n)
  }

  predicate IsSeparator(sep: string) { sep == "-" || (sep != "" && AllBlank(sep)) }

  predicate AllBlank(s: string) { forall i | 0 <= i < |s| :: s[i] == ' ' }

  predicate IsNumeral(u: Unicode, ds: string, n: nat) {
    0 < |ds| <= MAX_INT_DIGITS && AllDigits(u, ds) && IntValue(u, ds) == n
  }

  // The words of a kind are letters, with one blank or hyphen inside at most.
  lemma WordShape(word: string)
    requires KindOf(word).Some?
    ensures word != "" && 'a' <= word[0] <= 'z' && 'a' <= word[|word| - 1] <= 'z'
    ensures forall i | 0 <= i < |word| :: 'a' <= word[i] <= 'z' || word[i] == ' ' || word[i] == '-'
  {
  }

  lemma {:induction false} DigitsBeforeIs(u: Unicode, ds: string, rest: string)
    requires AllDigits(u, ds) && (rest == "" || u.digit(rest[0]).None?)
    ensures DigitsBefore(u, ds + rest) == |ds|
  {
    if ds == "" {
      assert ds + rest == rest;
    } else {
      assert (ds + rest)[1..] == ds[1..] + rest;
      assert (ds + rest)[0] == ds[0] && ds[0] in ds;
      DigitsBeforeIs(u, ds[1..], rest);
    }
  }

  lemma {:induction false} DigitsFromIs(u: Unicode, head: string, ds: string)
    requires AllDigits(u, ds) && (head == "" || u.digit(head[|head| - 1]).None?)
    ensures DigitsFrom(u, head + ds) == |head|
    decreases |ds|
  {
    if ds == "" {
      assert head + ds == head;
    } else {
      assert (head + ds)[..|head + ds| - 1] == head + ds[..|ds| - 1];
      assert ds[|ds| - 1] in ds;
      DigitsFromIs(u, head, ds[..|ds| - 1]);
    }
  }

  lemma {:induction false} UnpaddedIs(word: string, blanks: string)
    requires AllBlank(blanks) && (word == "" || word[|word| - 1] != ' ')
    ensures Unpadded(word + blanks) == word
    decreases |blanks|
  {
    if blanks == "" {
      assert word + blanks == word;
    } else {
      assert (word + blanks)[..|word + blanks| - 1] == word + blanks[..|blanks| - 1];
      UnpaddedIs(word, blanks[..|blanks| - 1]);
    }
  }

  lemma OutsideTheWords(t: string)
    requires t == "" || !('a' <= t[0] <= 'z') || !('a' <= t[|t| - 1] <= 'z')
    ensures KindOf(t).None?
  {
  }

  lemma Plain(u: Unicode, c: char)
    requires Sane(u) && '!' <= c <= '~' && !IsDigit(c)
    ensures u.digit(c).None? && !u.isSpace(c)
  {
  }

  lemma BlankIsNoDigit(u: Unicode)
    requires Sane(u)
    ensures u.digit(' ').None?
  {
  }

  lemma Halves(t: string, head: string, ds: string)
    requires t == head + ds && head != "" && ds != ""
    ensures t[..|head|] == head && t[|head|..] == ds && t[0] == head[0] && t[|t| - 1] == ds[|ds| - 1]
    ensures t[..|head| - 1] == head[..|head| - 1] && t[|head| - 1] == head[|head| - 1]
  {
  }

  // The cut of a text that says a number.
  lemma NumberCut(u: Unicode, t: string, word: string, sep: string, ds: string)
    requires Sane(u) && t == word + sep + ds && KindOf(word).Some? && IsSeparator(sep)
    requires ds != "" && AllDigits(u, ds)
    ensures var p := |word| + |sep|;
            && DigitsFrom(u, t) == p < |t| && t[p..] == ds && p > 0 && t[0] == word[0] && t[|t| - 1] == ds[|ds| - 1]
            && (if sep == "-" then t[p - 1] == '-' && t[..p - 1] == word
                else t[p - 1] == ' ' && Unpadded(t[..p]) == word)
  {
    WordShape(word);
    Plain(u, '-');
    BlankIsNoDigit(u);
    hide KindOf, Sane, DigitsFrom, AllDigits, Unpadded;
    var head := word + sep;
    Halves(head, word, sep);
    Halves(t, head, ds);
    DigitsFromIs(u, head, ds);
    if sep == "-" {
      assert head[..|head| - 1] == word;
    } else {
      UnpaddedIs(word, sep);
    }
  }

  lemma NumberParses(u: Unicode, t: string, word: string, sep: string, ds: string, k: Kind)
    requires Sane(u) && t == word + sep + ds && KindOf(word) == Some(k) && IsSeparator(sep)
    requires ds != "" && AllDigits(u, ds)
    ensures Parse(u, t) == if |ds| > MAX_INT_DIGITS then TooLong else Occurrence(k, IntValue(u, ds))
  {
    WordShape(word);
    NumberCut(u, t, word, sep, ds);
    Plain(u, word[0]);
    if 'a' <= t[|t| - 1] <= 'z' {
      Plain(u, t[|t| - 1]);
    }
    assert ds[|ds| - 1] in ds;
    hide KindOf, Sane, IsSeparator, Unpadded, DigitsFrom, IntValue;
    OutsideTheWords(t);
    NoDigitsNoOrdinal(u, t);
    hide AllDigits, ParseOrdinal;
  }

  lemma NoDigitsNoOrdinal(u: Unicode, t: string)
    requires t != "" && u.digit(t[0]).None?
    ensures ParseOrdinal(u, t).Unrecognized?
  {
  }

  lemma {:induction false} LStripIs(u: Unicode, gap: string, s: string)
    requires AllSpace(u, gap) && (s == "" || !u.isSpace(s[0]))
    ensures LStrip(u, gap + s) == s
  {
    if gap == "" {
      assert gap + s == s;
    } else {
      assert (gap + s)[1..] == gap[1..] + s && (gap + s)[0] == gap[0] && gap[0] in gap;
      LStripIs(u, gap[1..], s);
    }
  }

  lemma {:induction false} RStripIs(u: Unicode, s: string, tail: string)
    requires AllSpace(u, tail) && (s == "" || !u.isSpace(s[|s| - 1]))
    ensures RStrip(u, s + tail) == s
    decreases |tail|
  {
    if tail == "" {
      assert s + tail == s;
    } else {
      assert (s + tail)[..|s + tail| - 1] == s + tail[..|tail| - 1];
      assert tail[|tail| - 1] in tail;
      RStripIs(u, s, tail[..|tail| - 1]);
    }
  }

  lemma StripIs(u: Unicode, gap: string, word: string, tail: string)
    requires Sane(u) && KindOf(word).Some? && AllSpace(u, gap) && AllSpace(u, tail)
    ensures Strip(u, gap + (word + tail)) == word
  {
    WordShape(word);
    Plain(u, word[0]);
    Plain(u, word[|word| - 1]);
    hide KindOf, Sane;
    LStripIs(u, gap, word + tail);
    RStripIs(u, word, tail);
    hide LStrip, RStrip, AllSpace;
  }

  lemma OrdinalCut(u: Unicode, t: string, ds: string, suffix: string, rest: string)
    requires t == ds + (suffix + rest) && |suffix| == 2 && u.digit(suffix[0]).None?
    requires ds != "" && AllDigits(u, ds) && rest != ""
    ensures var d := |ds|;
            && DigitsBefore(u, t) == d && |t| >= d + 3 && t[..d] == ds && t[d..d + 2] == suffix
            && t[d + 2] == rest[0] && t[d + 2..] == rest && t[0] == ds[0]
  {
    DigitsBeforeIs(u, ds, suffix + rest);
    hide DigitsBefore, AllDigits;
  }

  lemma OrdinalIs(u: Unicode, t: string, ds: string, suffix: string, rest: string, k: Kind, n: nat)
    requires Sane(u) && t == ds + (suffix + rest) && rest != "" && u.isSpace(rest[0])
    requires |suffix| == 2 && Lower(u, suffix) == OrdinalSuffix(n) && IsNumeral(u, ds, n)
    requires KindOf(Strip(u, rest)) == Some(k)
    ensures Parse(u, t) == Occurrence(k, n)
  {
    SuffixIsNoDigit(u, suffix, n);
    hide KindOf, IntValue, OrdinalSuffix, Strip, Lower;
    OrdinalCut(u, t, ds, suffix, rest);
    assert ds[0] in ds;
    if 'a' <= ds[0] <= 'z' {
      Plain(u, ds[0]);
    }
    OutsideTheWords(t);
    hide AllDigits, Sane, DigitsBefore, ParseNumber;
  }

  lemma OrdinalParses(
    u: Unicode, t: string, ds: string, suffix: string, gap: string, word: string, tail: string, k: Kind, n: nat)
    requires Sane(u) && t == ds + (suffix + (gap + (word + tail))) && KindOf(word) == Some(k)
    requires |suffix| == 2 && Lower(u, suffix) == OrdinalSuffix(n)
    requires gap != "" && AllSpace(u, gap) && AllSpace(u, tail) && IsNumeral(u, ds, n)
    ensures Parse(u, t) == Occurrence(k, n)
  {
    StripIs(u, gap, word, tail);
    hide KindOf, Strip, Lower, OrdinalSuffix, IsNumeral, Sane, Parse;
    var rest := gap + (word + tail);
    assert gap[0] in gap;
    OrdinalIs(u, t, ds, suffix, rest, k, n);
  }

  lemma SuffixIsNoDigit(u: Unicode, suffix: string, n: nat)
    requires Sane(u) && |suffix| == 2 && Lower(u, suffix) == OrdinalSuffix(n)
    ensures u.digit(suffix[0]).None?
  {
  }

  lemma {:induction false} LStripParts(u: Unicode, s: string) returns (gap: string)
    ensures s == gap + LStrip(u, s) && AllSpace(u, gap)
    ensures s != "" && u.isSpace(s[0]) ==> gap != ""
  {
    if s != "" && u.isSpace(s[0]) {
      gap := LStripParts(u, s[1..]);
      gap := [s[0]] + gap;
    } else {
      gap := "";
    }
  }

  lemma {:induction false} RStripParts(u: Unicode, s: string) returns (tail: string)
    ensures s == RStrip(u, s) + tail && AllSpace(u, tail)
    decreases |s|
  {
    if s != "" && u.isSpace(s[|s| - 1]) {
      tail := RStripParts(u, s[..|s| - 1]);
      tail := tail + [s[|s| - 1]];
    } else {
      tail := "";
    }
  }

  lemma StripParts(u: Unicode, s: string) returns (gap: string, tail: string)
    ensures s == gap + (Strip(u, s) + tail) && AllSpace(u, gap) && AllSpace(u, tail)
    ensures s != "" && u.isSpace(s[0]) ==> gap != ""
  {
    gap := LStripParts(u, s);
    tail := RStripParts(u, LStrip(u, s));
  }

  // A text read as an ordinal, cut up.
  lemma OrdinalRead(u: Unicode, t: string) returns (ds: string, suffix: string, rest: string, k: Kind, n: nat)
    requires !ParseOrdinal(u, t).Unrecognized?
    ensures t == ds + (suffix + rest) && ParseOrdinal(u, t) == Occurrence(k, n) && IsNumeral(u, ds, n)
    ensures |suffix| == 2 && Lower(u, suffix) == OrdinalSuffix(n) && KindOf(Strip(u, rest)) == Some(k)
    ensures rest != "" && u.isSpace(rest[0])
  {
    var d := DigitsBefore(u, t);
    ds, suffix, rest := t[..d], t[d..d + 2], t[d + 2..];
    n, k := IntValue(u, ds), KindOf(Strip(u, rest)).value;
    hide Strip, KindOf, OrdinalSuffix, Lower, IntValue, AllDigits, DigitsBefore;
    assert t[d..] == suffix + rest;
  }

  lemma OrdinalSays(u: Unicode, t: string)
    requires !ParseOrdinal(u, t).Unrecognized?
    ensures exists k, n :: ParseOrdinal(u, t) == Occurrence(k, n) && SaysOrdinal(u, t, k, n)
  {
    hide ParseOrdinal, IsNumeral, OrdinalSuffix, Lower, KindOf, Strip, AllSpace;
    var ds, suffix, rest, k, n := OrdinalRead(u, t);
    var gap, tail := StripParts(u, rest);
    var word := Strip(u, rest);
    assert t == ds + (suffix + (gap + (word + tail)));
    assert SaysOrdinal(u, t, k, n);
  }

  lemma NumberParts(t: string, p: nat) returns (word: string, sep: string)
    requires 0 < p <= |t| && (t[p - 1] == '-' || t[p - 1] == ' ')
    ensures word == if t[p - 1] == '-' then t[..p - 1] else Unpadded(t[..p])
    ensures t == word + sep + t[p..] && IsSeparator(sep)
  {
    var head := t[..p];
    word := if t[p - 1] == '-' then t[..p - 1] else Unpadded(head);
    sep := head[|word|..];
    assert head == word + sep && t == head + t[p..] && head[p - 1] == t[p - 1];
    if t[p - 1] == '-' {
      assert sep == "-";
    } else {
      assert word != head;
      assert AllBlank(sep) && sep != "";
    }
  }

  lemma NumberSays(u: Unicode, t: string)
    requires ParseNumber(u, t).Numbered? || ParseNumber(u, t).Impossible?
    ensures exists k, n :: ParseNumber(u, t) == Occurrence(k, n) && SaysNumber(u, t, k, n)
  {
    var p := DigitsFrom(u, t);
    var ds := t[p..];
    var n := IntValue(u, ds);
    hide Unpadded, DigitsFrom, IntValue, AllDigits;
    assert 0 < p < |t| && IsNumeral(u, ds, n);
    var word, sep := NumberParts(t, p);
    var k := KindOf(word).value;
    assert ParseNumber(u, t) == Occurrence(k, n);
    hide KindOf, ParseNumber, IsSeparator;
    assert SaysNumber(u, t, k, n);
  }

  lemma ParseSays(u: Unicode, t: string, k: Kind, n: nat)
    requires Sane(u) && Parse(u, t) == Occurrence(k, n)
    ensures SaysNumber(u, t, k, n) || SaysOrdinal(u, t, k, n)
  {
    hide KindOf, Sane, SaysNumber, SaysOrdinal, ParseOrdinal, ParseNumber;
    if !ParseOrdinal(u, t).Unrecognized? {
      OrdinalSays(u, t);
    } else {
      NumberSays(u, t);
    }
  }

  /** The parser reads exactly the written forms: a text names kind `k` and occurrence `n` if and only if it
      says so with the number after the kind or an English ordinal before it. */
  lemma ParseIff(u: Unicode, t: string, k: Kind, n: nat)
    requires Sane(u)
    ensures Parse(u, t) == Occurrence(k, n) <==> SaysNumber(u, t, k, n) || SaysOrdinal(u, t, k, n)
    ensures Parse(u, t) == Bare(k) <==> KindOf(t) == Some(k)
  {
    assert Parse(u, t) == Bare(k) <==> KindOf(t) == Some(k);
    hide KindOf, Sane, SaysNumber, SaysOrdinal, Parse;
    ParseForms(u, t, k, n);
    if Parse(u, t) == Occurrence(k, n) {
      ParseSays(u, t, k, n);
    }
  }

  lemma ParseForms(u: Unicode, t: string, k: Kind, n: nat)
    requires Sane(u)
    ensures SaysNumber(u, t, k, n) || SaysOrdinal(u, t, k, n) ==> Parse(u, t) == Occurrence(k, n)
  {
    hide KindOf, Parse, Sane;
    if SaysNumber(u, t, k, n) {
      var word: string, sep: string, ds: string :|
        t == word + sep + ds && KindOf(word) == Some(k)
        && IsSeparator(sep) && IsNumeral(u, ds, n);
      NumberParses(u, t, word, sep, ds, k);
    }
    if SaysOrdinal(u, t, k, n) {
      var ds: string, suffix: string, gap: string, word: string, tail: string :|
        t == ds + (suffix + (gap + (word + tail))) && KindOf(word) == Some(k)
        && |suffix| == 2 && Lower(u, suffix) == OrdinalSuffix(n)
        && gap != "" && AllSpace(u, gap) && AllSpace(u, tail) && IsNumeral(u, ds, n);
      OrdinalParses(u, t, ds, suffix, gap, word, tail, k, n);
    }
  }
}
