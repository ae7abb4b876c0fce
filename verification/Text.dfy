// Python's view of text: what is a space, a digit, a lower-case letter, and the folding of separators.
module Text {
  import opened Base
  import opened Numerals

  /** The character tables the program takes from Python and from the record schema. */
  datatype Unicode = Unicode(
    isSpace: char -> bool, digit: char -> Option<nat>, lower: char -> string, isBlank: char -> bool)

  predicate IsUpper(c: char) { 'A' <= c <= 'Z' }

  function LowerAscii(c: char): char {
    if IsUpper(c) then (c as int + 32) as char else c
  }

  /** Lower case takes a capital to the small letter at its place in the alphabet, and leaves everything else. */
  lemma LettersLower(c: char)
    ensures 'A' <= c <= 'Z' ==> 'a' <= LowerAscii(c) <= 'z' && LowerAscii(c) - 'a' == c - 'A'
    ensures !('A' <= c <= 'Z') ==> LowerAscii(c) == c
  {
  }

  // What is used of the tables: the ASCII characters, that a decimal digit is no space and has no case, and
  // that the record schema's blanks are Python's spaces and the byte order mark.
  ghost predicate Sane(u: Unicode) {
    && (forall c: char | c < '\U{80}' :: u.digit(c) == if IsDigit(c) then Some(c as int - '0' as int) else None)
    && (forall c: char | c < '\U{80}' :: u.lower(c) == [LowerAscii(c)])
    && (forall c: char | '!' <= c <= '~' :: !u.isSpace(c))
    && u.isSpace(' ') && u.isSpace('\n')
    && (forall c: char | u.digit(c).Some? :: u.digit(c).value < 10 && !u.isSpace(c) && u.lower(c) == [c])
    && (forall c: char | u.isSpace(c) :: u.isBlank(c))
    && u.isBlank('\U{FEFF}') && !u.isSpace('\U{FEFF}')
  }

  // The ASCII part and the byte order mark, as an instance.
  function Ascii(): (u: Unicode)
    ensures Sane(u)
  {
    Unicode(IsAsciiSpace, c => if IsDigit(c) then Some(c as int - '0' as int) else None, c => [LowerAscii(c)],
            c => IsAsciiSpace(c) || c == '\U{FEFF}')
  }

  predicate IsAsciiSpace(c: char) { c == ' ' || '\t' <= c <= '\r' || '\U{1C}' <= c <= '\U{1F}' }

  // ---- str.strip, str.lower, str.split --------------------------------------------------------------

  function LStrip(u: Unicode, s: string): (r: string)
    ensures |r| <= |s| && (r != "" ==> !u.isSpace(r[0]))
  {
    if s != "" && u.isSpace(s[0]) then LStrip(u, s[1..]) else s
  }

  function RStrip(u: Unicode, s: string): (r: string)
    ensures |r| <= |s| && (r != "" ==> !u.isSpace(r[|r| - 1]))
  {
    if s != "" && u.isSpace(s[|s| - 1]) then RStrip(u, s[..|s| - 1]) else s
  }

  predicate AllSpace(u: Unicode, s: string) { forall c | c in s :: u.isSpace(c) }

  function Strip(u: Unicode, s: string): string { RStrip(u, LStrip(u, s)) }

  function Lower(u: Unicode, s: string): string {
    if s == "" then "" else u.lower(s[0]) + Lower(u, s[1..])
  }

  // The leading word of a text that starts with one.
  function WordLength(u: Unicode, s: string): (n: nat)
    ensures n <= |s| && (forall i | 0 <= i < n :: !u.isSpace(s[i])) && (n < |s| ==> u.isSpace(s[n]))
  {
    if s == "" || u.isSpace(s[0]) then 0 else 1 + WordLength(u, s[1..])
  }

  function Split(u: Unicode, s: string): (ws: seq<string>)
    ensures forall w | w in ws :: w != "" && forall c | c in w :: !u.isSpace(c)
    decreases |s|
  {
    if s == "" then []
    else if u.isSpace(s[0]) then Split(u, s[1..])
    else
      var n := WordLength(u, s);
      [s[..n]] + Split(u, s[n..])
  }

  function Join(ws: seq<string>): string {
    if ws == [] then "" else if |ws| == 1 then ws[0] else ws[0] + " " + Join(ws[1..])
  }

  // ---- the folding of separators ------------------------------------------------------------------------

  function Unscore(s: string): string {
    if s == "" then "" else [if s[0] == '_' || s[0] == '#' then ' ' else s[0]] + Unscore(s[1..])
  }

  // Each run of spaces to one.
  function Squeeze(u: Unicode, s: string): string
    decreases |s|
  {
    if s == "" then "" else if u.isSpace(s[0]) then " " + Squeeze(u, LStrip(u, s[1..])) else [s[0]] + Squeeze(u, s[1..])
  }

  function Collapse(u: Unicode, s: string): string { Strip(u, Squeeze(u, Unscore(s))) }

  /** Words of a text, `_` and `#` counting as spaces. */
  function Words(u: Unicode, s: string): seq<string> { Split(u, Unscore(s)) }

  // ---- what folding does -----------------------------------------------------------------------------------

  lemma {:induction false} SqueezeWord(u: Unicode, s: string, n: nat)
    requires n <= |s| && forall i | 0 <= i < n :: !u.isSpace(s[i])
    ensures Squeeze(u, s) == s[..n] + Squeeze(u, s[n..])
    decreases n
  {
    if n == 0 {
      assert s[0..] == s;
    } else {
      SqueezeWord(u, s[1..], n - 1);
      assert s[1..][n - 1..] == s[n..] && [s[0]] + s[1..][..n - 1] == s[..n];
    }
  }

  lemma {:induction false} RStripKeeps(u: Unicode, a: string, b: string)
    requires RStrip(u, b) != ""
    ensures RStrip(u, a + b) == a + RStrip(u, b)
    decreases |b|
  {
    if u.isSpace(b[|b| - 1]) {
      assert (a + b)[..|a + b| - 1] == a + b[..|b| - 1];
      RStripKeeps(u, a, b[..|b| - 1]);
    }
  }

  lemma {:induction false} SplitSkips(u: Unicode, s: string)
    ensures Split(u, s) == Split(u, LStrip(u, s))
  {
    if s != "" && u.isSpace(s[0]) {
      SplitSkips(u, s[1..]);
    }
  }

  // A text that starts with a word is that word, and what is squeezed or split after the spaces behind it.
  lemma OneWord(u: Unicode, s: string) returns (w: string, next: string)
    requires s != "" && !u.isSpace(s[0])
    ensures w != "" && !u.isSpace(w[|w| - 1]) && |next| < |s| && (next != "" ==> !u.isSpace(next[0]))
    ensures Split(u, s) == [w] + Split(u, next)
    ensures Squeeze(u, s) == (if |w| == |s| then w else w + " " + Squeeze(u, next))
    ensures |w| == |s| ==> next == ""
  {
    var n := WordLength(u, s);
    w := s[..n];
    SqueezeWord(u, s, n);
    if n == |s| {
      next := "";
      assert s[n..] == "";
    } else {
      next := LStrip(u, s[n + 1..]);
      assert s[n..][1..] == s[n + 1..];
      SplitSkips(u, s[n + 1..]);
      assert Squeeze(u, s[n..]) == " " + Squeeze(u, next);
    }
  }

  lemma {:induction false} SqueezeJoins(u: Unicode, s: string)
    requires Sane(u) && (s != "" ==> !u.isSpace(s[0]))
    ensures RStrip(u, Squeeze(u, s)) == Join(Split(u, s))
    ensures s != "" ==> Split(u, s) != [] && Join(Split(u, s)) != ""
    decreases |s|
  {
    if s != "" {
      var w, next := OneWord(u, s);
      SqueezeJoins(u, next);
      var ws := Split(u, s);
      assert ws[0] == w && ws[1..] == Split(u, next);
      if next == "" {
        assert Split(u, next) == [];
        assert Squeeze(u, s) == w || Squeeze(u, s) == w + " ";
        assert (w + " ")[..|w|] == w;
        hide Split, Squeeze;
      } else {
        hide Split, Squeeze;
        RStripKeeps(u, w + " ", Squeeze(u, next));
      }
    }
  }

  lemma LStripSqueezes(u: Unicode, s: string)
    requires Sane(u)
    ensures LStrip(u, Squeeze(u, s)) == Squeeze(u, LStrip(u, s))
  {
  }

  /** Folding leaves the words of the text, one space apart. */
  lemma CollapseIsWords(u: Unicode, s: string)
    requires Sane(u)
    ensures Collapse(u, s) == Join(Words(u, s))
  {
    LStripSqueezes(u, Unscore(s));
    SqueezeJoins(u, LStrip(u, Unscore(s)));
    SplitSkips(u, Unscore(s));
  }

  // ---- folding twice -----------------------------------------------------------------------------------

  ghost predicate AreWords(u: Unicode, ws: seq<string>) {
    forall w | w in ws :: w != "" && forall c | c in w :: !u.isSpace(c) && c != '_' && c != '#'
  }

  lemma {:induction false} UnscoreKeeps(s: string)
    requires '_' !in s && '#' !in s
    ensures Unscore(s) == s
  {
    if s != "" {
      UnscoreKeeps(s[1..]);
    }
  }

  lemma {:induction false} UnscoreFolds(s: string)
    ensures '_' !in Unscore(s) && '#' !in Unscore(s)
  {
    if s != "" {
      UnscoreFolds(s[1..]);
    }
  }

  lemma {:induction false} SplitChars(u: Unicode, s: string)
    ensures forall w | w in Split(u, s) :: forall c | c in w :: c in s
    decreases |s|
  {
    if s != "" {
      if u.isSpace(s[0]) {
        SplitChars(u, s[1..]);
      } else {
        SplitChars(u, s[WordLength(u, s)..]);
      }
    }
  }

  lemma WordsAreWords(u: Unicode, s: string)
    ensures AreWords(u, Words(u, s))
  {
    UnscoreFolds(s);
    SplitChars(u, Unscore(s));
  }

  lemma {:induction false} WordLengthIs(u: Unicode, w: string, rest: string)
    requires (forall c | c in w :: !u.isSpace(c)) && (rest == "" || u.isSpace(rest[0]))
    ensures WordLength(u, w + rest) == |w|
  {
    if w == "" {
      assert w + rest == rest;
    } else {
      assert (w + rest)[1..] == w[1..] + rest;
      WordLengthIs(u, w[1..], rest);
    }
  }

  lemma {:induction false} JoinChars(u: Unicode, ws: seq<string>)
    requires Sane(u) && AreWords(u, ws)
    ensures '_' !in Join(ws) && '#' !in Join(ws) && '\n' !in Join(ws)
    ensures ws != [] ==> Join(ws) != ""
  {
    assert u.isSpace('\n');
    hide Sane;
    if ws != [] {
      assert ws[0] in ws && forall x | x in ws[1..] :: x in ws;
      JoinChars(u, ws[1..]);
    }
  }

  // A word is split off in front of what does not continue it.
  lemma SplitWord(u: Unicode, w: string, tail: string)
    requires w != "" && (forall c | c in w :: !u.isSpace(c)) && (tail == "" || u.isSpace(tail[0]))
    ensures Split(u, w + tail) == [w] + Split(u, tail)
  {
    var s := w + tail;
    WordLengthIs(u, w, tail);
    assert s[0] == w[0] && w[0] in w;
    assert s[..|w|] == w && s[|w|..] == tail;
  }

  lemma SplitBlank(u: Unicode, s: string)
    ensures Split(u, "") == []
    ensures u.isSpace(' ') ==> Split(u, " " + s) == Split(u, s)
  {
    assert (" " + s)[1..] == s;
  }

  lemma SplitJoin(u: Unicode, ws: seq<string>)
    requires Sane(u) && AreWords(u, ws)
    ensures Split(u, Join(ws)) == ws && '_' !in Join(ws) && '#' !in Join(ws) && '\n' !in Join(ws)
    ensures ws != [] ==> Join(ws) != ""
  {
    JoinChars(u, ws);
    assert u.isSpace(' ');
    hide *;
    SplitJoined(u, ws);
  }

  lemma {:induction false} SplitJoined(u: Unicode, ws: seq<string>)
    requires u.isSpace(' ') && AreWords(u, ws)
    ensures Split(u, Join(ws)) == ws
  {
    hide Split, Join, AreWords;
    NothingSplits(u);
    if ws != [] {
      var w, rest := ws[0], ws[1..];
      FirstWord(u, ws);
      JoinedTail(ws);
      SplitJoined(u, rest);
      var tail := if rest == [] then "" else " " + Join(rest);
      SplitWord(u, w, tail);
      SplitBlank(u, Join(rest));
      assert ws == [w] + rest;
    }
  }

  lemma FirstWord(u: Unicode, ws: seq<string>)
    requires AreWords(u, ws) && ws != []
    ensures AreWords(u, ws[1..]) && ws[0] != "" && forall c | c in ws[0] :: !u.isSpace(c)
  {
    assert ws[0] in ws && forall x | x in ws[1..] :: x in ws;
  }

  lemma JoinedTail(ws: seq<string>)
    requires ws != []
    ensures Join(ws) == ws[0] + (if ws[1..] == [] then "" else " " + Join(ws[1..]))
  {
  }

  lemma NothingSplits(u: Unicode)
    ensures Join([]) == "" && Split(u, "") == []
  {
  }

  /** Folding what is folded changes nothing, and what is folded holds no newline. */
  lemma CollapseTwice(u: Unicode, s: string)
    requires Sane(u)
    ensures Collapse(u, Collapse(u, s)) == Collapse(u, s)
    ensures '\n' !in Collapse(u, s)
  {
    CollapseIsWords(u, s);
    WordsAreWords(u, s);
    JoinedIsCollapsed(u, Words(u, s));
  }

  lemma JoinedIsCollapsed(u: Unicode, ws: seq<string>)
    requires Sane(u) && AreWords(u, ws)
    ensures Collapse(u, Join(ws)) == Join(ws) && '\n' !in Join(ws)
  {
    SplitJoin(u, ws);
    UnscoreKeeps(Join(ws));
    CollapseIsWords(u, Join(ws));
  }

  // ---- lower case ------------------------------------------------------------------------------------------

  lemma {:induction false} LowerAppend(u: Unicode, a: string, b: string)
    ensures Lower(u, a + b) == Lower(u, a) + Lower(u, b)
  {
    if a == "" {
      assert a + b == b;
    } else {
      assert (a + b)[1..] == a[1..] + b;
      LowerAppend(u, a[1..], b);
    }
  }

  // A text of digits and ASCII characters other than capitals is its own lower case.
  lemma {:induction false} LowerKeeps(u: Unicode, s: string)
    requires Sane(u) && forall c | c in s :: u.digit(c).Some? || (c < '\U{80}' && !IsUpper(c))
    ensures Lower(u, s) == s
  {
    if s != "" {
      LowerKeeps(u, s[1..]);
    }
  }

  // ---- separators ------------------------------------------------------------------------------------------

  predicate AllSeparators(u: Unicode, s: string) {
    forall i | 0 <= i < |s| :: u.isSpace(s[i]) || s[i] == '_' || s[i] == '#'
  }

  lemma {:induction false} SeparatorsUnscore(u: Unicode, s: string)
    requires Sane(u)
    ensures |Unscore(s)| == |s|
    ensures forall i | 0 <= i < |s| :: Unscore(s)[i] == if s[i] == '_' || s[i] == '#' then ' ' else s[i]
  {
    if s != "" {
      SeparatorsUnscore(u, s[1..]);
    }
  }

  lemma {:induction false} SplitEmpties(u: Unicode, s: string)
    ensures Split(u, s) == [] <==> AllSpace(u, s)
    decreases |s|
  {
    if s != "" {
      assert s[0] in s;
      if u.isSpace(s[0]) {
        SplitEmpties(u, s[1..]);
        assert s == [s[0]] + s[1..];
      }
    }
  }

  /** A text folds to nothing exactly when it is separators throughout. */
  lemma CollapseEmpties(u: Unicode, s: string)
    requires Sane(u)
    ensures Collapse(u, s) == "" <==> AllSeparators(u, s)
  {
    var t := Unscore(s);
    SeparatorsUnscore(u, s);
    CollapseIsWords(u, s);
    SplitEmpties(u, t);
    if Words(u, s) != [] {
      assert Words(u, s)[0] in Words(u, s);
      WordsAreWords(u, s);
      SplitJoin(u, Words(u, s));
    }
    hide Collapse, Split;
    assert AllSpace(u, t) <==> forall i | 0 <= i < |t| :: u.isSpace(t[i]);
  }
}
