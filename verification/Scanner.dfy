// The comment scanner of the migration runner, against the token grammar it stands for: line comments,
// nested block comments and quote-doubled literals (sections 4.1.5 and 4.1.2.1 of the PostgreSQL manual).
module Scanner {

  /** A piece of a block comment's inside. */
  datatype Lexeme = Open | Close | Inside(c: char)

  /** A piece of a literal's inside. */
  datatype Part = Doubled | Other(c: char)

  datatype Token =
    | Line(body: string)
    | Block(inside: seq<Lexeme>)
    | Literal(parts: seq<Part>, closed: bool)
    | Plain(c: char)

  // ---- the grammar -------------------------------------------------------------------------------

  predicate One(s: string, c: char) { |s| >= 1 && s[0] == c }

  predicate Two(s: string, c: char, d: char) { |s| >= 2 && s[0] == c && s[1] == d }

  // `ls` is the text between the starts of `s` and `rest`, an opening or closing mark taken wherever one stands.
  ghost predicate Lexes(ls: seq<Lexeme>, s: string, rest: string)
    decreases |ls|
  {
    if ls == [] then s == rest
    else
      match ls[0]
      case Open => Two(s, '/', '*') && Lexes(ls[1..], s[2..], rest)
      case Close => Two(s, '*', '/') && Lexes(ls[1..], s[2..], rest)
      case Inside(c) => One(s, c) && !(Two(s, '/', '*')) && !(Two(s, '*', '/')) && Lexes(ls[1..], s[1..], rest)
  }

  // How deep the nesting is after `ls`, begun at depth `d`.
  function Depth(ls: seq<Lexeme>, d: int): int {
    if ls == [] then d
    else Depth(ls[1..], match ls[0] case Open => d + 1 case Close => d - 1 case Inside(_) => d)
  }

  // A comment at depth `d` is still open before each of its remaining pieces `ls`.
  ghost predicate OpenThrough(ls: seq<Lexeme>, d: int)
    decreases |ls|
  {
    ls == [] || (d > 0 && OpenThrough(ls[1..], Depth(ls[..1], d)))
  }

  ghost predicate Quotes(ps: seq<Part>, s: string, rest: string)
    decreases |ps|
  {
    if ps == [] then s == rest
    else
      match ps[0]
      case Doubled => Two(s, '\'', '\'') && Quotes(ps[1..], s[2..], rest)
      case Other(c) => c != '\'' && One(s, c) && Quotes(ps[1..], s[1..], rest)
  }

  // `t` is the token `s` begins with, and `rest` is what follows it.
  ghost predicate Fits(t: Token, s: string, rest: string) {
    match t
    case Line(body) =>
      s == "--" + body + rest && '\n' !in body && (rest == "" || rest[0] == '\n')
    case Block(inside) =>
      Two(s, '/', '*') && Lexes(inside, s[2..], rest) && OpenThrough(inside, 1) &&
      Depth(inside, 1) >= 0 && (Depth(inside, 1) > 0 ==> rest == "")
    case Literal(parts, closed) =>
      One(s, '\'') && Quotes(parts, s[1..], if closed then "'" + rest else rest) &&
      (if closed then !(One(rest, '\'')) else rest == "")
    case Plain(c) =>
      s == [c] + rest && c != '\'' && !(Two(s, '-', '-')) && !(Two(s, '/', '*'))
  }

  // `ts` are the tokens between the starts of `s` and `rest`.
  ghost predicate Tokens(ts: seq<Token>, s: string, rest: string)
    decreases |ts|
  {
    if ts == [] then s == rest
    else exists next :: Fits(ts[0], s, next) && Tokens(ts[1..], next, rest)
  }

  ghost predicate Tokenizes(ts: seq<Token>, sql: string) { Tokens(ts, sql, "") }

  // ---- what each token reads and writes ------------------------------------------------------------

  function PartsText(ps: seq<Part>): string {
    if ps == [] then "" else (match ps[0] case Doubled => "''" case Other(c) => [c]) + PartsText(ps[1..])
  }

  function LexText(ls: seq<Lexeme>): string {
    if ls == [] then ""
    else (match ls[0] case Open => "/*" case Close => "*/" case Inside(c) => [c]) + LexText(ls[1..])
  }

  function Text(t: Token): string {
    match t
    case Line(body) => "--" + body
    case Block(inside) => "/*" + LexText(inside)
    case Literal(parts, closed) => "'" + PartsText(parts) + (if closed then "'" else "")
    case Plain(c) => [c]
  }

  predicate IsComment(t: Token) { t.Line? || t.Block? }

  function Stripped(t: Token): string {
    if IsComment(t) then " " else Text(t)
  }

  function Render(ts: seq<Token>): string {
    if ts == [] then "" else Stripped(ts[0]) + Render(ts[1..])
  }

  function Source(ts: seq<Token>): string {
    if ts == [] then "" else Text(ts[0]) + Source(ts[1..])
  }

  // ---- the grammar is unambiguous --------------------------------------------------------------------

  lemma DepthTail(ls: seq<Lexeme>, d: int)
    requires ls != []
    ensures Depth(ls, d) == Depth(ls[1..], Depth(ls[..1], d))
  {
  }

  lemma {:induction false} OneBlock(a: seq<Lexeme>, b: seq<Lexeme>, d: int, s: string, r: string, q: string)
    requires Lexes(a, s, r) && OpenThrough(a, d) && (Depth(a, d) > 0 ==> r == "")
    requires Lexes(b, s, q) && OpenThrough(b, d) && (Depth(b, d) > 0 ==> q == "")
    ensures a == b && r == q
    decreases |a|
  {
    if a != [] && b != [] {
      assert a[0] == b[0];
      DepthTail(a, d);
      DepthTail(b, d);
      assert a[..1] == b[..1];
      OneBlock(a[1..], b[1..], Depth(a[..1], d), s[if a[0].Inside? then 1 else 2..], r, q);
      assert a == [a[0]] + a[1..] && b == [b[0]] + b[1..];
    }
  }

  lemma {:induction false} DepthIs(ls: seq<Lexeme>, d: int)
    ensures Depth(ls, d) == d + multiset(ls)[Open] - multiset(ls)[Close]
  {
    if ls != [] {
      var next := match ls[0] case Open => d + 1 case Close => d - 1 case Inside(_) => d;
      DepthIs(ls[1..], next);
      assert ls == [ls[0]] + ls[1..];
    }
  }

  lemma {:induction false} OpenAt(ls: seq<Lexeme>, d: int, k: nat)
    requires OpenThrough(ls, d) && k < |ls|
    ensures Depth(ls[..k], d) > 0
    decreases |ls|
  {
    if k > 0 {
      OpenAt(ls[1..], Depth(ls[..1], d), k - 1);
      assert ls[1..][..k - 1] == ls[..k][1..] && ls[..k][..1] == ls[..1];
      DepthTail(ls[..k], d);
    }
  }

  /** A block comment nests: it goes on as long as its opening marks, the first one included, outnumber its closing
      marks, and it ends where they are equal or, still open, where the text ends. */
  lemma BlocksNest(inside: seq<Lexeme>, s: string, rest: string)
    requires Fits(Block(inside), s, rest)
    ensures forall k | 0 <= k < |inside| :: 1 + multiset(inside[..k])[Open] > multiset(inside[..k])[Close]
    ensures 1 + multiset(inside)[Open] == multiset(inside)[Close]
            || (1 + multiset(inside)[Open] > multiset(inside)[Close] && rest == "")
  {
    DepthIs(inside, 1);
    forall k | 0 <= k < |inside| ensures 1 + multiset(inside[..k])[Open] > multiset(inside[..k])[Close] {
      OpenAt(inside, 1, k);
      DepthIs(inside[..k], 1);
    }
  }

  lemma {:induction false} OneLiteral(a: seq<Part>, b: seq<Part>, s: string, ac: bool, bc: bool, r: string, q: string)
    requires Quotes(a, s, if ac then "'" + r else r) && (if ac then !(One(r, '\'')) else r == "")
    requires Quotes(b, s, if bc then "'" + q else q) && (if bc then !(One(q, '\'')) else q == "")
    ensures a == b && ac == bc && r == q
    decreases |a|
  {
    if a == [] && b == [] {
      assert ac ==> r == s[1..];
      assert bc ==> q == s[1..];
    } else if a != [] && b != [] {
      assert a[0] == b[0];
      OneLiteral(a[1..], b[1..], s[if a[0].Doubled? then 2 else 1..], ac, bc, r, q);
      assert a == [a[0]] + a[1..] && b == [b[0]] + b[1..];
    }
  }

  lemma OneLine(a: string, b: string, s: string, r: string, q: string)
    requires Fits(Line(a), s, r) && Fits(Line(b), s, q)
    ensures a == b && r == q
  {
    assert s[2..] == a + r == b + q;
    assert forall k | 0 <= k < |a| :: s[2 + k] == a[k];
    assert forall k | 0 <= k < |b| :: s[2 + k] == b[k];
    assert r != "" ==> s[2 + |a|] == r[0];
    assert q != "" ==> s[2 + |b|] == q[0];
    assert |a| == |b|;
    assert a == (a + r)[..|a|] == b && r == (a + r)[|a|..] == q;
  }

  lemma OneToken(a: Token, b: Token, s: string, r: string, q: string)
    requires Fits(a, s, r) && Fits(b, s, q)
    ensures a == b && r == q
  {
    match a {
      case Line(body) =>
        assert s[0] == '-' && s[1] == '-';
        assert b.Line?;
        OneLine(body, b.body, s, r, q);
      case Block(inside) =>
        assert b.Block?;
        OneBlock(inside, b.inside, 1, s[2..], r, q);
      case Literal(parts, closed) =>
        assert b.Literal?;
        OneLiteral(parts, b.parts, s[1..], closed, b.closed, r, q);
      case Plain(c) =>
        assert b.Plain?;
        assert s[1..] == r == q;
    }
  }

  /** A text has one reading at most. */
  lemma {:induction false} OneReading(a: seq<Token>, b: seq<Token>, sql: string)
    requires Tokenizes(a, sql) && Tokenizes(b, sql)
    ensures a == b
    decreases |a|
  {
    if a != [] && b != [] {
      var r :| Fits(a[0], sql, r) && Tokens(a[1..], r, "");
      var q :| Fits(b[0], sql, q) && Tokens(b[1..], q, "");
      OneToken(a[0], b[0], sql, r, q);
      OneReading(a[1..], b[1..], r);
      assert a == [a[0]] + a[1..] && b == [b[0]] + b[1..];
    }
  }

  // ---- the scan ------------------------------------------------------------------------------------

  lemma {:induction false} TokensAppend(ts: seq<Token>, s: string, mid: string, t: Token, rest: string)
    requires Tokens(ts, s, mid) && Fits(t, mid, rest)
    ensures Tokens(ts + [t], s, rest)
    decreases |ts|
  {
    if ts == [] {
      assert [t][1..] == [];
      assert Tokens([t][1..], rest, rest);
    } else {
      var next :| Fits(ts[0], s, next) && Tokens(ts[1..], next, mid);
      TokensAppend(ts[1..], next, mid, t, rest);
      assert (ts + [t])[1..] == ts[1..] + [t];
    }
  }

  lemma {:induction false} RenderAppend(ts: seq<Token>, t: Token)
    ensures Render(ts + [t]) == Render(ts) + Stripped(t)
  {
    if ts == [] {
      assert [t][1..] == [];
    } else {
      assert (ts + [t])[1..] == ts[1..] + [t];
      RenderAppend(ts[1..], t);
    }
  }

  lemma {:induction false} LexesAppend(ls: seq<Lexeme>, s: string, mid: string, l: Lexeme, rest: string, d: int)
    requires Lexes(ls, s, mid) && Lexes([l], mid, rest) && OpenThrough(ls, d) && Depth(ls, d) > 0
    ensures Lexes(ls + [l], s, rest) && OpenThrough(ls + [l], d)
    ensures Depth(ls + [l], d) == Depth([l], Depth(ls, d))
    decreases |ls|
  {
    assert [l][1..] == [];
    if ls == [] {
      assert ls + [l] == [l];
    } else {
      assert (ls + [l])[1..] == ls[1..] + [l] && (ls + [l])[..1] == ls[..1];
      DepthTail(ls, d);
      DepthTail(ls + [l], d);
      LexesAppend(ls[1..], s[if ls[0].Inside? then 1 else 2..], mid, l, rest, Depth(ls[..1], d));
    }
  }

  lemma {:induction false} QuotesAppend(ps: seq<Part>, s: string, mid: string, p: Part, rest: string)
    requires Quotes(ps, s, mid) && Quotes([p], mid, rest)
    ensures Quotes(ps + [p], s, rest)
    decreases |ps|
  {
    assert [p][1..] == [];
    if ps == [] {
      assert ps + [p] == [p];
    } else {
      assert (ps + [p])[1..] == ps[1..] + [p];
      QuotesAppend(ps[1..], s[if ps[0].Doubled? then 2 else 1..], mid, p, rest);
    }
  }

  lemma {:induction false} QuotesText(ps: seq<Part>, s: string, rest: string)
    requires Quotes(ps, s, rest)
    ensures s == PartsText(ps) + rest
    decreases |ps|
  {
    if ps != [] {
      QuotesText(ps[1..], s[if ps[0].Doubled? then 2 else 1..], rest);
      assert s == (if ps[0].Doubled? then "''" else [s[0]]) + s[if ps[0].Doubled? then 2 else 1..];
    }
  }

  lemma {:induction false} LexesText(ls: seq<Lexeme>, s: string, rest: string)
    requires Lexes(ls, s, rest)
    ensures s == LexText(ls) + rest
    decreases |ls|
  {
    if ls != [] {
      LexesText(ls[1..], s[if ls[0].Inside? then 1 else 2..], rest);
      assert s == s[..if ls[0].Inside? then 1 else 2] + s[if ls[0].Inside? then 1 else 2..];
    }
  }

  lemma FitsText(t: Token, s: string, rest: string)
    requires Fits(t, s, rest)
    ensures s == Text(t) + rest
  {
    match t {
      case Line(body) =>
      case Block(inside) =>
        LexesText(inside, s[2..], rest);
        assert s == "/*" + s[2..];
      case Literal(parts, closed) =>
        QuotesText(parts, s[1..], if closed then "'" + rest else rest);
        assert s == "'" + s[1..];
      case Plain(c) =>
    }
  }

  // Past a block comment, from just after its opening mark.
  method SkipBlock(sql: string, index: nat) returns (scan: nat, ghost inside: seq<Lexeme>)
    requires index + 2 <= |sql| && Two(sql[index..], '/', '*')
    ensures index < scan <= |sql| && Fits(Block(inside), sql[index..], sql[scan..])
  {
    var depth := 1;
    scan := index + 2;
    inside := [];
    ghost var start := sql[index..][2..];
    while scan < |sql| && depth != 0
      invariant index + 2 <= scan <= |sql|
      invariant Lexes(inside, start, sql[scan..]) && OpenThrough(inside, 1) && Depth(inside, 1) == depth >= 0
    {
      ghost var here := sql[scan..];
      if scan + 1 < |sql| && sql[scan] == '/' && sql[scan + 1] == '*' {
        depth, scan := depth + 1, scan + 2;
        LexesAppend(inside, start, here, Open, sql[scan..], 1);
        inside := inside + [Open];
      } else if scan + 1 < |sql| && sql[scan] == '*' && sql[scan + 1] == '/' {
        depth, scan := depth - 1, scan + 2;
        LexesAppend(inside, start, here, Close, sql[scan..], 1);
        inside := inside + [Close];
      } else {
        scan := scan + 1;
        LexesAppend(inside, start, here, Inside(here[0]), sql[scan..], 1);
        inside := inside + [Inside(here[0])];
      }
    }
  }

  // Past a literal, from its opening quote.
  method SkipLiteral(sql: string, index: nat) returns (scan: nat, ghost literal: Token)
    requires index < |sql| && sql[index] == '\''
    ensures index < scan <= |sql| && literal.Literal? && Fits(literal, sql[index..], sql[scan..])
  {
    scan := index + 1;
    ghost var parts: seq<Part> := [];
    ghost var start := sql[index..][1..];
    literal := Literal(parts, false);
    while scan < |sql|
      invariant index + 1 <= scan <= |sql|
      invariant Quotes(parts, start, sql[scan..])
    {
      ghost var here := sql[scan..];
      if sql[scan] == '\'' {
        if scan + 1 < |sql| && sql[scan + 1] == '\'' {
          scan := scan + 2;
          QuotesAppend(parts, start, here, Doubled, sql[scan..]);
          parts := parts + [Doubled];
          continue;
        }
        scan := scan + 1;
        literal := Literal(parts, true);
        assert here == "'" + sql[scan..];
        return;
      }
      scan := scan + 1;
      QuotesAppend(parts, start, here, Other(here[0]), sql[scan..]);
      parts := parts + [Other(here[0])];
    }
    literal := Literal(parts, false);
  }

  // To the end of a line comment; the newline stays.
  method SkipLine(sql: string, index: nat) returns (newline: nat, ghost body: string)
    requires index + 2 <= |sql| && Two(sql[index..], '-', '-')
    ensures index < newline <= |sql| && Fits(Line(body), sql[index..], sql[newline..])
  {
    newline := index + 2;
    while newline < |sql| && sql[newline] != '\n'
      invariant index + 2 <= newline <= |sql|
      invariant '\n' !in sql[index + 2..newline]
    {
      newline := newline + 1;
    }
    body := sql[index + 2..newline];
    assert sql[index..] == "--" + body + sql[newline..];
  }

  lemma PlainFits(s: string)
    requires s != "" && s[0] != '\'' && !Two(s, '-', '-') && !Two(s, '/', '*')
    ensures Fits(Plain(s[0]), s, s[1..])
  {
  }

  // `out` is a reading of `sql` written out with each comment replaced by a space.
  ghost predicate StripsTo(sql: string, out: string) {
    exists ts :: Tokenizes(ts, sql) && out == Render(ts)
  }

  /** Every input has a reading, and the scan writes it out stripped; it ends on unclosed comments and
      literals too. */
  method StripComments(sql: string) returns (out: string)
    ensures StripsTo(sql, out)
  {
    out := "";
    ghost var tokens: seq<Token> := [];
    var index := 0;
    assert sql == sql[0..] && Tokens([], sql, sql) && Render([]) == "";
    hide Tokens, Render, Fits;
    while index < |sql|
      invariant index <= |sql|
      invariant Tokens(tokens, sql, sql[index..]) && out == Render(tokens)
    {
      ghost var here := sql[index..];
      ghost var token: Token;
      if index + 1 < |sql| && sql[index] == '-' && sql[index + 1] == '-' {
        ghost var body;
        index, body := SkipLine(sql, index);
        token := Line(body);
        out := out + " ";
      } else if index + 1 < |sql| && sql[index] == '/' && sql[index + 1] == '*' {
        ghost var inside;
        index, inside := SkipBlock(sql, index);
        token := Block(inside);
        out := out + " ";
      } else if sql[index] == '\'' {
        var scan;
        scan, token := SkipLiteral(sql, index);
        FitsText(token, here, sql[scan..]);
        assert here[..scan - index] == sql[index..scan] == Text(token);
        out := out + sql[index..scan];
        index := scan;
      } else {
        token := Plain(sql[index]);
        PlainFits(here);
        assert here[1..] == sql[index + 1..];
        out := out + [sql[index]];
        index := index + 1;
      }
      TokensAppend(tokens, sql, here, token, sql[index..]);
      RenderAppend(tokens, token);
      tokens := tokens + [token];
    }
    assert sql[index..] == "";
  }

  // ---- what the output is ----------------------------------------------------------------------------

  /** The tokens are the whole input, in order: only comments are lost. */
  lemma {:induction false} NothingElseIsLost(ts: seq<Token>, s: string, rest: string)
    requires Tokens(ts, s, rest)
    ensures s == Source(ts) + rest
    decreases |ts|
  {
    if ts != [] {
      var next :| Fits(ts[0], s, next) && Tokens(ts[1..], next, rest);
      FitsText(ts[0], s, next);
      NothingElseIsLost(ts[1..], next, rest);
      hide Fits, Text;
      assert s == Text(ts[0]) + (Source(ts[1..]) + rest);
    }
  }

  lemma {:induction false} RenderSplits(a: seq<Token>, b: seq<Token>)
    ensures Render(a + b) == Render(a) + Render(b)
  {
    if a == [] {
      assert a + b == b;
    } else {
      assert (a + b)[1..] == a[1..] + b;
      RenderSplits(a[1..], b);
    }
  }

  /** A literal or a statement never disappears, whatever it contains: its text stands whole in the output,
      between the stripped text before it and the stripped text after it. */
  lemma LiteralsStay(ts: seq<Token>, k: nat)
    requires k < |ts| && !IsComment(ts[k])
    ensures Render(ts) == Render(ts[..k]) + Text(ts[k]) + Render(ts[k + 1..])
  {
    assert ts == ts[..k] + ts[k..] && ts[k..][1..] == ts[k + 1..];
    RenderSplits(ts[..k], ts[k..]);
  }

  function Blanked(ts: seq<Token>): seq<Token> {
    if ts == [] then [] else [if IsComment(ts[0]) then Plain(' ') else ts[0]] + Blanked(ts[1..])
  }

  lemma {:induction false} QuotesMove(ps: seq<Part>, s: string, rest: string, other: string)
    requires Quotes(ps, s, rest)
    ensures Quotes(ps, PartsText(ps) + other, other)
    decreases |ps|
  {
    if ps != [] {
      var n := if ps[0].Doubled? then 2 else 1;
      QuotesMove(ps[1..], s[n..], rest, other);
      assert (PartsText(ps) + other)[n..] == PartsText(ps[1..]) + other;
    }
  }

  lemma LiteralFitsStripped(parts: seq<Part>, closed: bool, s: string, rest: string, after: string)
    requires Fits(Literal(parts, closed), s, rest)
    requires rest == "" <==> after == ""
    requires rest != "" ==> after[0] == rest[0] || after[0] == ' '
    ensures Fits(Literal(parts, closed), Text(Literal(parts, closed)) + after, after)
  {
    var tail := if closed then "'" + after else after;
    QuotesMove(parts, s[1..], if closed then "'" + rest else rest, tail);
    var t := Text(Literal(parts, closed)) + after;
    assert t[1..] == PartsText(parts) + tail;
    hide Quotes, PartsText;
    assert One(t, '\'');
  }

  // A token still reads as itself, and a comment as a space, in front of what follows it once that is stripped.
  lemma FitsStripped(t: Token, s: string, rest: string, after: string)
    requires Fits(t, s, rest)
    requires rest == "" <==> after == ""
    requires rest != "" ==> after[0] == rest[0] || after[0] == ' '
    ensures Fits(if IsComment(t) then Plain(' ') else t, Stripped(t) + after, after)
    ensures s != "" && Stripped(t) != "" && (Stripped(t)[0] == s[0] || Stripped(t)[0] == ' ')
  {
    match t {
      case Line(_) =>
      case Block(_) =>
      case Literal(parts, closed) =>
        LiteralFitsStripped(parts, closed, s, rest, after);
        assert One(s, '\'');
        hide Fits;
      case Plain(c) =>
    }
  }

  lemma {:induction false} RenderReads(ts: seq<Token>, s: string)
    requires Tokenizes(ts, s)
    ensures Tokenizes(Blanked(ts), Render(ts)) && Render(Blanked(ts)) == Render(ts)
    ensures s == "" <==> Render(ts) == ""
    ensures s != "" ==> Render(ts)[0] == s[0] || Render(ts)[0] == ' '
    decreases |ts|
  {
    if ts != [] {
      var next :| Fits(ts[0], s, next) && Tokens(ts[1..], next, "");
      RenderReads(ts[1..], next);
      FitsStripped(ts[0], s, next, Render(ts[1..]));
      assert Blanked(ts)[1..] == Blanked(ts[1..]);
    }
  }

  /** Stripping twice is stripping once: an input strips to one text only, and that text to itself, and no
      reading of it holds a comment. */
  lemma StripTwice(sql: string, once: string, again: string)
    requires StripsTo(sql, once)
    ensures StripsTo(sql, again) ==> again == once
    ensures StripsTo(once, again) <==> again == once
    ensures forall us | Tokenizes(us, once) :: forall t | t in us :: !IsComment(t)
  {
    var ts :| Tokenizes(ts, sql) && once == Render(ts);
    RenderReads(ts, sql);
    BlankedIsPlain(ts);
    hide Tokenizes, Render, Blanked;
    if us :| Tokenizes(us, sql) && again == Render(us) {
      OneReading(ts, us, sql);
    }
    forall us | Tokenizes(us, once) ensures us == Blanked(ts) {
      OneReading(us, Blanked(ts), once);
    }
  }

  lemma {:induction false} BlankedIsPlain(ts: seq<Token>)
    ensures forall t | t in Blanked(ts) :: !IsComment(t)
  {
    if ts != [] {
      BlankedIsPlain(ts[1..]);
    }
  }
}
