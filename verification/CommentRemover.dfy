/**
 Removing C and C++ comments: one leftmost scan with four alternatives (line comment, block
 comment, character literal, string literal), each comment replaced by one space.
 */
module CommentRemover {
  import opened Words

  datatype Token = Plain(c: char) | Comment(text: string) | Literal(text: string) {
    function Text(): string {
      if Plain? then [c] else text
    }

    /** The replacer: a space for a comment, everything else unchanged. */
    function Rendered(): string {
      if Comment? then " " else Text()
    }

    /** What the token becomes once comments are gone. */
    function Blanked(): Token {
      if Comment? then Plain(' ') else this
    }
  }

  predicate IsQuote(c: char) {
    c == '\'' || c == '"'
  }

  // ---------- the scanner ----------

  /** How much of `s` comes before its first line end. */
  function LineLength(s: string): (n: nat)
    ensures n <= |s|
  {
    if s == [] || s[0] == '\n' then 0 else 1 + LineLength(s[1..])
  }

  /** The end of the first star-slash in `s`. */
  function BlockClose(s: string): (r: Option<nat>)
    ensures r.Some? ==> 2 <= r.value <= |s|
  {
    if |s| < 2 then None
    else if s[0] == '*' && s[1] == '/' then Some(2)
    else match BlockClose(s[1..])
      case None => None
      case Some(n) => Some(n + 1)
  }

  /** The end of the literal whose body starts at `s`; `escaped` if a backslash comes right before. */
  function QuoteClose(q: char, s: string, escaped: bool): (r: Option<nat>)
    ensures r.Some? ==> 1 <= r.value <= |s|
  {
    if s == [] then None
    else if !escaped && s[0] == q then Some(1)
    else match QuoteClose(q, s[1..], !escaped && s[0] == '\\')
      case None => None
      case Some(n) => Some(n + 1)
  }

  function NextToken(s: string): (t: Token)
    requires s != []
    ensures 1 <= |t.Text()| <= |s| && t.Text() == s[..|t.Text()|]
  {
    if s[0] == '/' && |s| > 1 && s[1] == '/' then Comment(s[..2 + LineLength(s[2..])])
    else if s[0] == '/' && |s| > 1 && s[1] == '*' && BlockClose(s[2..]).Some? then Comment(s[..2 + BlockClose(s[2..]).value])
    else if IsQuote(s[0]) && QuoteClose(s[0], s[1..], false).Some? then
      Literal(s[..1 + QuoteClose(s[0], s[1..], false).value])
    else Plain(s[0])
  }

  function Lex(s: string): seq<Token> {
    if s == [] then [] else
    var t := NextToken(s);
    [t] + Lex(s[|t.Text()|..])
  }

  function Render(ts: seq<Token>): string {
    if ts == [] then [] else ts[0].Rendered() + Render(ts[1..])
  }

  /** cpp_comment_remover */
  function Remove(s: string): string {
    Render(Lex(s))
  }

  // ---------- the scanner finds what the pattern describes ----------

  /** Slash, slash, and nothing that ends a line. */
  predicate IsLineComment(t: string) {
    |t| >= 2 && t[0] == '/' && t[1] == '/' && forall i :: 2 <= i < |t| ==> t[i] != '\n'
  }

  /** No star-slash in `s`. */
  predicate NoClose(s: string) {
    forall i, j :: 0 <= i && j == i + 1 < |s| ==> !(s[i] == '*' && s[j] == '/')
  }

  /** Slash, star, up to the first star-slash. */
  predicate IsBlockComment(t: string) {
    |t| >= 4 && t[0] == '/' && t[1] == '*' && t[|t| - 2] == '*' && t[|t| - 1] == '/' && NoClose(t[2..|t| - 1])
  }

  /** Escaped pairs and characters that are neither quote nor backslash. */
  predicate IsBody(q: char, b: string) {
    b == [] ||
    (b[0] == '\\' && |b| > 1 && IsBody(q, b[2..])) ||
    (b[0] != '\\' && b[0] != q && IsBody(q, b[1..]))
  }

  /** The same quote, single or double, at both ends. */
  predicate IsLiteral(t: string) {
    |t| >= 2 && (t[0] == '\'' || t[0] == '"') && t[|t| - 1] == t[0] && IsBody(t[0], t[1..|t| - 1])
  }

  /** The pattern matches the first `n` characters of `s`. */
  predicate Matches(s: string, n: nat) {
    n <= |s| &&
    ((IsLineComment(s[..n]) && (n == |s| || s[n] == '\n')) || IsBlockComment(s[..n]) || IsLiteral(s[..n]))
  }

  lemma {:induction false} LineLengthMeaning(s: string)
    ensures forall i :: 0 <= i < LineLength(s) ==> s[i] != '\n'
    ensures LineLength(s) < |s| ==> s[LineLength(s)] == '\n'
  {
    if s != [] && s[0] != '\n' {
      LineLengthMeaning(s[1..]);
      forall i | 0 <= i < LineLength(s) ensures s[i] != '\n' {
        assert i > 0 ==> s[i] == s[1..][i - 1];
      }
    }
  }

  lemma {:induction false} BlockCloseMeaning(s: string)
    ensures BlockClose(s).None? <==> NoClose(s)
    ensures BlockClose(s).Some? ==>
              var n := BlockClose(s).value;
              s[n - 2] == '*' && s[n - 1] == '/' && NoClose(s[..n - 1])
  {
    if |s| >= 2 && !(s[0] == '*' && s[1] == '/') {
      BlockCloseMeaning(s[1..]);
      assert forall i :: 0 <= i < |s| - 1 ==> s[1..][i] == s[i + 1];
      if BlockClose(s).Some? {
        var n := BlockClose(s).value;
        assert s[..n - 1][1..] == s[1..][..n - 2];
        NoCloseCons(s[..n - 1]);
      } else {
        NoCloseCons(s);
      }
    }
  }

  lemma {:induction false} NoCloseCons(s: string)
    requires |s| >= 1 && NoClose(s[1..]) && !(|s| >= 2 && s[0] == '*' && s[1] == '/')
    ensures NoClose(s)
  {
    forall i, j | 0 <= i && j == i + 1 < |s| ensures !(s[i] == '*' && s[j] == '/') {
      if i > 0 {
        assert s[i] == s[1..][i - 1] && s[j] == s[1..][j - 1];
      }
    }
  }

  /** The literal whose body starts at `s` ends after `n` characters exactly when they are a body and a quote. */
  lemma {:induction false} QuoteCloseMeaning(q: char, s: string, n: nat)
    requires IsQuote(q)
    ensures QuoteClose(q, s, false) == Some(n) <==> 1 <= n <= |s| && s[n - 1] == q && IsBody(q, s[..n - 1])
    decreases |s|
  {
    if s != [] && s[0] != q && n >= 2 && n <= |s| {
      if s[0] != '\\' {
        QuoteCloseMeaning(q, s[1..], n - 1);
        assert s[..n - 1][1..] == s[1..][..n - 2];
      } else if n >= 3 {
        assert s[1..][1..] == s[2..];
        QuoteCloseMeaning(q, s[2..], n - 2);
        assert s[..n - 1][2..] == s[2..][..n - 3];
      }
    }
  }

  lemma {:induction false} LineMatch(s: string, n: nat)
    requires |s| >= 2 && s[0] == '/' && s[1] == '/' && 2 <= n <= |s|
    ensures IsLineComment(s[..n]) && (n == |s| || s[n] == '\n') <==> n == 2 + LineLength(s[2..])
  {
    LineLengthMeaning(s[2..]);
    var m := 2 + LineLength(s[2..]);
    assert forall i :: 2 <= i < m ==> s[i] == s[2..][i - 2];
    assert m < |s| ==> s[m] == s[2..][m - 2];
  }

  lemma {:induction false} NoEarlierClose(u: string, n: nat)
    requires 2 <= n <= |u| && NoClose(u[..n - 1])
    ensures forall i, j :: 0 <= i && j == i + 1 < n - 1 ==> !(u[i] == '*' && u[j] == '/')
  {
    assert forall i :: 0 <= i < n - 1 ==> u[..n - 1][i] == u[i];
  }

  lemma {:induction false} BlockMatch(s: string, n: nat)
    requires |s| >= 2 && s[0] == '/' && s[1] == '*' && 2 <= n <= |s|
    ensures IsBlockComment(s[..n]) <==> BlockClose(s[2..]) == Some(n - 2)
  {
    var u := s[2..];
    BlockCloseMeaning(u);
    if n >= 4 {
      assert s[..n][2..n - 1] == u[..n - 3];
      assert s[n - 2] == u[n - 4] && s[n - 1] == u[n - 3];
      if IsBlockComment(s[..n]) {
        NoEarlierClose(u, n - 2);
      }
      if BlockClose(u).Some? {
        NoEarlierClose(u, BlockClose(u).value);
      }
    }
  }

  lemma {:induction false} LiteralMatch(s: string, n: nat)
    requires s != [] && IsQuote(s[0]) && 1 <= n <= |s|
    ensures IsLiteral(s[..n]) <==> QuoteClose(s[0], s[1..], false) == Some(n - 1)
  {
    QuoteCloseMeaning(s[0], s[1..], n - 1);
    if n >= 2 {
      assert s[..n][1..n - 1] == s[1..][..n - 2];
    }
  }

  /** The scanner takes a comment or a literal exactly where the pattern matches, and takes the match it has there. */
  lemma {:induction false} ScannerIsPattern(s: string, n: nat)
    requires s != [] && 1 <= n
    ensures Matches(s, n) <==> !NextToken(s).Plain? && |NextToken(s).Text()| == n
    ensures NextToken(s).Comment? ==> s[0] == '/'
    ensures NextToken(s).Literal? ==> s[0] == '\'' || s[0] == '"'
  {
    if n <= |s| {
      assert |s[..n]| == n && s[..n][0] == s[0];
      assert n >= 2 ==> s[..n][1] == s[1];
      if s[0] == '/' && n >= 2 && s[1] == '/' {
        LineMatch(s, n);
      } else if s[0] == '/' && n >= 2 && s[1] == '*' {
        BlockMatch(s, n);
      } else if IsQuote(s[0]) {
        LiteralMatch(s, n);
      }
    }
  }

  // ---------- scanning the output again ----------

  function Blank(ts: seq<Token>): seq<Token> {
    if ts == [] then [] else [ts[0].Blanked()] + Blank(ts[1..])
  }

  /** The state of the literal automaton after reading `s`, no quote having closed it. */
  function Escaped(s: string, escaped: bool): bool {
    if s == [] then escaped else Escaped(s[1..], !escaped && s[0] == '\\')
  }

  lemma {:induction false} RemoveStep(s: string)
    requires s != []
    ensures var t := NextToken(s); var u := s[|t.Text()|..];
            Lex(s) == [t] + Lex(u) && Remove(s) == t.Rendered() + Remove(u) && s == t.Text() + u
  {
  }

  lemma {:induction false} FirstKept(s: string)
    ensures Remove(s) == [] <==> s == []
    ensures s != [] ==> Remove(s)[0] == s[0] || (Remove(s)[0] == ' ' && NextToken(s).Comment?)
  {
    if s != [] {
      RemoveStep(s);
    }
  }

  lemma {:induction false} CloseAcross(a: string, b: string)
    requires NoClose(a) && NoClose(b)
    requires a != [] && b != [] ==> !(a[|a| - 1] == '*' && b[0] == '/')
    ensures NoClose(a + b)
  {
  }

  lemma {:induction false} NoCloseParts(a: string, b: string)
    requires NoClose(a + b)
    ensures NoClose(a) && NoClose(b)
    ensures a != [] && b != [] ==> !(a[|a| - 1] == '*' && b[0] == '/')
  {
    forall i, j | 0 <= i && j == i + 1 < |a| ensures !(a[i] == '*' && a[j] == '/') {
      assert (a + b)[i] == a[i] && (a + b)[j] == a[j];
    }
    forall i, j | 0 <= i && j == i + 1 < |b| ensures !(b[i] == '*' && b[j] == '/') {
      assert (a + b)[|a| + i] == b[i] && (a + b)[|a| + j] == b[j];
    }
    if a != [] && b != [] {
      assert (a + b)[|a| - 1] == a[|a| - 1] && (a + b)[|a|] == b[0];
    }
  }

  /** Removing comments cannot create a star-slash. */
  lemma {:induction false} NoCloseKept(s: string)
    requires NoClose(s)
    ensures NoClose(Remove(s))
    decreases |s|
  {
    if s != [] {
      RemoveStep(s);
      var t := NextToken(s);
      var u := s[|t.Text()|..];
      NoCloseParts(t.Text(), u);
      NoCloseKept(u);
      FirstKept(u);
      CloseAcross(t.Rendered(), Remove(u));
    }
  }

  lemma {:induction false} QuoteCloseSplit(q: char, a: string, b: string, escaped: bool)
    ensures QuoteClose(q, a + b, escaped).None? <==>
            QuoteClose(q, a, escaped).None? && QuoteClose(q, b, Escaped(a, escaped)).None?
    decreases |a|
  {
    if a == [] {
      assert a + b == b;
    } else {
      assert (a + b)[1..] == a[1..] + b;
      QuoteCloseSplit(q, a[1..], b, !escaped && a[0] == '\\');
    }
  }

  lemma {:induction false} EscapedByBackslash(s: string, escaped: bool)
    requires s != [] && Escaped(s, escaped)
    ensures s[|s| - 1] == '\\'
  {
    if |s| > 1 {
      EscapedByBackslash(s[1..], !escaped && s[0] == '\\');
    }
  }

  /** After a comment the automaton might as well not be in its escaped state: only a line end can follow. */
  lemma {:induction false} CommentEndsEscape(q: char, s: string, escaped: bool)
    requires IsQuote(q) && s != [] && NextToken(s).Comment?
    requires QuoteClose(q, s, escaped).None?
    ensures QuoteClose(q, s[|NextToken(s).Text()|..], false).None?
  {
    var n := |NextToken(s).Text()|;
    var text, u := s[..n], s[n..];
    assert s == text + u;
    QuoteCloseSplit(q, text, u, escaped);
    ScannerIsPattern(s, n);
    if Escaped(text, escaped) {
      EscapedByBackslash(text, escaped);
      assert u == [] || u[0] == '\n';
    }
  }

  /** An unterminated literal stays unterminated when the comments after its quote are removed. */
  lemma {:induction false} QuoteKept(q: char, s: string, escaped: bool)
    requires (q == '\'' || q == '"') && QuoteClose(q, s, escaped).None?
    ensures QuoteClose(q, Remove(s), escaped).None?
    decreases |s|
  {
    if s != [] {
      RemoveStep(s);
      var t := NextToken(s);
      var u := s[|t.Text()|..];
      if t.Comment? {
        CommentEndsEscape(q, s, escaped);
        QuoteKept(q, u, false);
        assert (" " + Remove(u))[1..] == Remove(u);
      } else {
        QuoteCloseSplit(q, t.Text(), u, escaped);
        QuoteKept(q, u, Escaped(t.Text(), escaped));
        QuoteCloseSplit(q, t.Text(), Remove(u), escaped);
      }
    }
  }

  lemma {:induction false} QuoteClosePrefix(q: char, s: string, escaped: bool, v: string)
    requires QuoteClose(q, s, escaped).Some?
    ensures QuoteClose(q, s[..QuoteClose(q, s, escaped).value] + v, escaped) == QuoteClose(q, s, escaped)
    decreases |s|
  {
    var n := QuoteClose(q, s, escaped).value;
    if escaped || s[0] != q {
      QuoteClosePrefix(q, s[1..], !escaped && s[0] == '\\', v);
      assert (s[..n] + v)[1..] == s[1..][..n - 1] + v;
    }
  }

  lemma {:induction false} LiteralKept(s: string, v: string)
    requires s != [] && NextToken(s).Literal?
    ensures NextToken(NextToken(s).text + v) == NextToken(s)
  {
    var n := |NextToken(s).text|;
    var out := s[..n] + v;
    QuoteClosePrefix(s[0], s[1..], false, v);
    assert out[1..] == s[1..][..n - 1] + v;
    assert out[..n] == s[..n];
  }

  /** A plain slash, star or quote does not become the start of a token when later comments go. */
  lemma {:induction false} PlainKept(s: string)
    requires s != [] && NextToken(s).Plain?
    ensures NextToken([s[0]] + Remove(s[1..])) == NextToken(s)
  {
    var u, v := s[1..], Remove(s[1..]);
    var out := [s[0]] + v;
    assert out[1..] == v;
    FirstKept(u);
    if IsQuote(s[0]) {
      QuoteKept(s[0], u, false);
    } else if s[0] == '/' && u != [] && u[0] == '*' && v[0] == '*' {
      RemoveStep(u);
      assert s[2..] == u[1..] && out[2..] == Remove(u[1..]);
      BlockCloseMeaning(u[1..]);
      NoCloseKept(u[1..]);
      BlockCloseMeaning(out[2..]);
    }
  }

  /** One token of the output is one token of the input, blanked. */
  lemma {:induction false} NextTokenKept(s: string)
    requires s != []
    ensures var t := NextToken(s);
            NextToken(t.Rendered() + Remove(s[|t.Text()|..])) == t.Blanked()
  {
    var t := NextToken(s);
    if t.Literal? {
      LiteralKept(s, Remove(s[|t.Text()|..]));
    } else if t.Plain? {
      PlainKept(s);
    }
  }

  /** Scanning the output gives the input's tokens with each comment replaced by a space. */
  lemma {:induction false} RescanIsBlank(s: string)
    ensures Lex(Remove(s)) == Blank(Lex(s))
    decreases |s|
  {
    if s != [] {
      RemoveStep(s);
      var t := NextToken(s);
      var u := s[|t.Text()|..];
      var out := t.Rendered() + Remove(u);
      RescanIsBlank(u);
      NextTokenKept(s);
      assert |t.Blanked().Text()| == |t.Rendered()|;
      assert out[|t.Rendered()|..] == Remove(u);
      assert ([t] + Lex(u))[1..] == Lex(u);
    }
  }

  // ---------- what that means for the text ----------

  function Texts(ts: seq<Token>): string {
    if ts == [] then [] else ts[0].Text() + Texts(ts[1..])
  }

  function Literals(ts: seq<Token>): seq<string> {
    if ts == [] then [] else (if ts[0].Literal? then [ts[0].text] else []) + Literals(ts[1..])
  }

  /** The scanner drops nothing. */
  lemma {:induction false} LexIsLossless(s: string)
    ensures Texts(Lex(s)) == s
    decreases |s|
  {
    if s != [] {
      RemoveStep(s);
      LexIsLossless(s[|NextToken(s).Text()|..]);
    }
  }

  lemma {:induction false} BlankKeeps(ts: seq<Token>)
    ensures |Blank(ts)| == |ts| && forall i :: 0 <= i < |ts| ==> Blank(ts)[i] == ts[i].Blanked()
    ensures Render(Blank(ts)) == Render(ts)
    ensures Literals(Blank(ts)) == Literals(ts)
  {
    if ts != [] {
      BlankKeeps(ts[1..]);
    }
  }

  /** No comment is left, every literal survives verbatim and in order, and a second removal changes nothing. */
  lemma {:induction false} RemoveIsClean(s: string)
    ensures forall i :: 0 <= i < |Lex(Remove(s))| ==> !Lex(Remove(s))[i].Comment?
    ensures Literals(Lex(Remove(s))) == Literals(Lex(s))
    ensures Remove(Remove(s)) == Remove(s)
  {
    RescanIsBlank(s);
    BlankKeeps(Lex(s));
  }
}
