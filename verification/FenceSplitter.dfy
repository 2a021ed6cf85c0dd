/**
 Splitting a model's answer into plain text and fenced code blocks: three backticks, a language
 name of letters, a line end, the code, three backticks.
 */
module FenceSplitter {
  import opened Words

  // ---------- trimming ----------

  /** What Python's str.strip removes. */
  predicate IsSpace(c: char) {
    var n := c as int;
    9 <= n <= 13 || 28 <= n <= 32 || n == 0x85 || n == 0xA0 || n == 0x1680 || 0x2000 <= n <= 0x200A ||
    n == 0x2028 || n == 0x2029 || n == 0x202F || n == 0x205F || n == 0x3000
  }

  function StripLeft(s: string): string {
    if s != [] && IsSpace(s[0]) then StripLeft(s[1..]) else s
  }

  function StripRight(s: string): string {
    if s != [] && IsSpace(s[|s| - 1]) then StripRight(s[..|s| - 1]) else s
  }

  function Strip(s: string): string {
    StripRight(StripLeft(s))
  }

  /** White space, character by character: the ASCII separators and the Unicode spaces and line ends. */
  predicate IsWhite(c: char) {
    c == ' ' || c == '\t' || c == '\n' || c == '\r' || c == '\U{0B}' || c == '\U{0C}' || '\U{1C}' <= c <= '\U{1F}' ||
    c == '\U{85}' || c == '\U{A0}' || c == '\U{1680}' || '\U{2000}' <= c <= '\U{200A}' ||
    c == '\U{2028}' || c == '\U{2029}' || c == '\U{202F}' || c == '\U{205F}' || c == '\U{3000}'
  }

  lemma {:induction false} SpaceIsWhite(c: char)
    ensures IsSpace(c) <==> IsWhite(c)
  {
  }

  predicate Trimmed(s: string) {
    s != [] ==> !IsWhite(s[0]) && !IsWhite(s[|s| - 1])
  }

  /** `t` is what is left of `s` once all white space before `i` and from `j` on is cut off. */
  ghost predicate CutTo(s: string, i: nat, j: nat, t: string) {
    && i <= j <= |s| && t == s[i..j] && Trimmed(t)
    && (forall k :: 0 <= k < i ==> IsWhite(s[k]))
    && (forall k :: j <= k < |s| ==> IsWhite(s[k]))
  }

  /** `t` is `s` without the white space at its ends. */
  ghost predicate IsStripped(s: string, t: string) {
    exists i: nat, j: nat :: CutTo(s, i, j, t)
  }

  lemma {:induction false} StripLeftCuts(s: string) returns (i: nat)
    ensures i <= |s| && StripLeft(s) == s[i..]
    ensures forall k :: 0 <= k < i ==> IsWhite(s[k])
    ensures i < |s| ==> !IsWhite(s[i])
  {
    if s != [] && IsSpace(s[0]) {
      var n := StripLeftCuts(s[1..]);
      i := n + 1;
      assert s[1..][n..] == s[i..];
      forall k | 0 <= k < i ensures IsWhite(s[k]) {
        assert k > 0 ==> s[k] == s[1..][k - 1];
      }
    } else {
      i := 0;
      assert s[0..] == s;
    }
  }

  lemma {:induction false} StripRightCuts(s: string) returns (j: nat)
    ensures j <= |s| && StripRight(s) == s[..j]
    ensures forall k :: j <= k < |s| ==> IsWhite(s[k])
    ensures j > 0 ==> !IsWhite(s[j - 1])
  {
    if s != [] && IsSpace(s[|s| - 1]) {
      var n := |s| - 1;
      j := StripRightCuts(s[..n]);
      assert s[..n][..j] == s[..j];
      forall k | j <= k < |s| ensures IsWhite(s[k]) {
        assert k < n ==> s[k] == s[..n][k];
      }
    } else {
      j := |s|;
      assert s[..j] == s;
    }
  }

  /** Stripping cuts off the white space at both ends, all of it and nothing else. */
  lemma {:induction false} StripIsStripped(s: string)
    ensures IsStripped(s, Strip(s))
  {
    var i := StripLeftCuts(s);
    var t := s[i..];
    var n := StripRightCuts(t);
    assert t[..n] == s[i..i + n];
    forall k | i + n <= k < |s| ensures IsWhite(s[k]) {
      assert s[k] == t[k - i];
    }
    if n > 0 {
      assert t[0] == s[i] && t[..n][0] == t[0];
    }
    assert CutTo(s, i, i + n, Strip(s));
  }

  /** There is only one way to do so. */
  lemma {:induction false} StrippedUnique(s: string, t: string)
    requires IsStripped(s, t)
    ensures t == Strip(s)
  {
    StripIsStripped(s);
    var i, j :| CutTo(s, i, j, t);
    var i', j' :| CutTo(s, i', j', Strip(s));
    CutsAgree(s, i, j, t, i', j', Strip(s));
  }

  lemma {:induction false} CutsAgree(s: string, i: nat, j: nat, t: string, i': nat, j': nat, t': string)
    requires CutTo(s, i, j, t) && CutTo(s, i', j', t')
    ensures t == t'
  {
    if t != [] {
      assert t[0] == s[i] && t[|t| - 1] == s[j - 1];
    }
    if t' != [] {
      assert t'[0] == s[i'] && t'[|t'| - 1] == s[j' - 1];
    }
  }

  lemma {:induction false} StripOfTrimmed(s: string)
    requires Trimmed(s)
    ensures Strip(s) == s
    ensures Strip(s + "\n") == s
  {
    assert s[0..|s|] == s && CutTo(s, 0, |s|, s);
    StrippedUnique(s, s);
    var t := s + "\n";
    assert t[0..|s|] == s && CutTo(t, 0, |s|, s);
    StrippedUnique(t, s);
  }

  // ---------- one block ----------

  predicate IsLetter(c: char) {
    'a' <= c <= 'z' || 'A' <= c <= 'Z'
  }

  function Letters(s: string): (n: nat)
    ensures n <= |s|
  {
    if s != [] && IsLetter(s[0]) then 1 + Letters(s[1..]) else 0
  }

  /** Three backticks stand at index `i`. */
  predicate TicksAt(s: string, i: nat) {
    i + 3 <= |s| && s[i] == '`' && s[i + 1] == '`' && s[i + 2] == '`'
  }

  predicate StartsWithTicks(s: string) {
    TicksAt(s, 0)
  }

  /** Where the first three backticks of `s` are. */
  function FindTicks(s: string): (r: Option<nat>)
    ensures r.Some? ==> r.value + 3 <= |s|
  {
    if |s| < 3 then None
    else if StartsWithTicks(s) then Some(0)
    else match FindTicks(s[1..])
      case None => None
      case Some(n) => Some(n + 1)
  }

  datatype Block = Block(lang: string, code: string) {
    function Text(): string {
      "```" + lang + "\n" + code + "```"
    }
  }

  /** The pattern, tried at the first character of `s`. */
  function MatchHere(s: string): (r: Option<Block>)
    ensures r.Some? ==> r.value.Text() <= s
  {
    if !StartsWithTicks(s) then None else
    var k := 3 + Letters(s[3..]);
    if k == |s| || s[k] != '\n' then None else
    match FindTicks(s[k + 1..])
    case None => None
    case Some(n) =>
      TextIsPrefix(s, k, n);
      Some(Block(s[3..k], s[k + 1..][..n]))
  }

  lemma {:induction false} FindTicksFinds(s: string)
    requires FindTicks(s).Some?
    ensures StartsWithTicks(s[FindTicks(s).value..])
  {
    if !StartsWithTicks(s) {
      FindTicksFinds(s[1..]);
      assert s[1..][FindTicks(s[1..]).value..] == s[FindTicks(s).value..];
    }
  }

  lemma {:induction false} TextIsPrefix(s: string, k: nat, n: nat)
    requires StartsWithTicks(s) && 3 <= k < |s| && s[k] == '\n' && FindTicks(s[k + 1..]) == Some(n)
    ensures Block(s[3..k], s[k + 1..][..n]).Text() <= s
  {
    FindTicksFinds(s[k + 1..]);
    var m := k + 1 + n;
    assert s[k + 1..][n..] == s[m..];
    assert s[0..] == s;
    ThreeTicks(s, 0);
    ThreeTicks(s, m);
    hide StartsWithTicks, TicksAt, FindTicks;
    assert s[k + 1..][..n] == s[k + 1..m];
    assert [s[k]] == "\n" == s[k..k + 1];
    Joins(s, 3, k);
    Joins(s, k, k + 1);
    Joins(s, k + 1, m);
    Joins(s, m, m + 3);
    assert s[0..3] == s[..3];
  }

  lemma {:induction false} Joins(s: string, i: nat, j: nat)
    requires i <= j <= |s|
    ensures s[..j] == s[..i] + s[i..j]
  {
  }

  lemma {:induction false} ThreeTicks(s: string, i: nat)
    requires i <= |s| && StartsWithTicks(s[i..])
    ensures i + 3 <= |s| && s[i..i + 3] == "```"
  {
    assert s[i..][0] == s[i] && s[i..][1] == s[i + 1] && s[i..][2] == s[i + 2];
  }

  // ---------- the whole answer ----------

  /** The text before a block, and the block. */
  datatype Fence = Fence(gap: string, block: Block) {
    function Text(): string {
      gap + block.Text()
    }
  }

  datatype Answer = Answer(fences: seq<Fence>, tail: string)

  lemma {:induction false} LongerGap(s: string, f: Fence)
    requires s != [] && f.Text() <= s[1..]
    ensures Fence([s[0]] + f.gap, f.block).Text() <= s
  {
    hide Block.Text;
    assert s == [s[0]] + s[1..];
    assert [s[0]] + f.Text() == ([s[0]] + f.gap) + f.block.Text();
  }

  /** The leftmost block of `s`, with the text before it. */
  function Search(s: string): (r: Option<Fence>)
    ensures r.Some? ==> r.value.Text() <= s
  {
    if MatchHere(s).Some? then
      assert [] + MatchHere(s).value.Text() == MatchHere(s).value.Text();
      Some(Fence([], MatchHere(s).value))
    else if s == [] then None
    else match Search(s[1..])
      case None => None
      case Some(f) =>
        LongerGap(s, f);
        Some(Fence([s[0]] + f.gap, f.block))
  }

  function Parse(s: string): Answer
    decreases |s|
  {
    match Search(s)
    case None => Answer([], s)
    case Some(f) =>
      var rest := Parse(s[|f.Text()|..]);
      Answer([f] + rest.fences, rest.tail)
  }

  function Texts(fs: seq<Fence>): string {
    if fs == [] then [] else fs[0].Text() + Texts(fs[1..])
  }

  lemma {:induction false} ParseStep(s: string)
    requires Search(s).Some?
    ensures var f := Search(s).value; var u := s[|f.Text()|..];
            && s == f.Text() + u
            && Parse(s) == Answer([f] + Parse(u).fences, Parse(u).tail)
  {
  }

  /** Nothing of the answer is lost: gaps, blocks and tail, put back together, are the answer. */
  lemma {:induction false} ParseIsLossless(s: string)
    ensures Texts(Parse(s).fences) + Parse(s).tail == s
    decreases |s|
  {
    if Search(s).Some? {
      ParseStep(s);
      var f := Search(s).value;
      var u := s[|f.Text()|..];
      ParseIsLossless(u);
      assert ([f] + Parse(u).fences)[1..] == Parse(u).fences;
      assert f.Text() + Texts(Parse(u).fences) + Parse(u).tail == f.Text() + (Texts(Parse(u).fences) + Parse(u).tail);
    }
  }

  // ---------- the scanner finds what the pattern describes ----------

  /** Only letters in the language; the code runs up to the first three backticks. */
  ghost predicate WellFormed(b: Block) {
    && (forall i :: 0 <= i < |b.lang| ==> 'a' <= b.lang[i] <= 'z' || 'A' <= b.lang[i] <= 'Z')
    && (forall i: nat :: i < |b.code| ==> !TicksAt(b.code + "```", i))
  }

  /** The search for backticks finds the first ones, or there are none. */
  lemma {:induction false} FindTicksMeaning(s: string)
    ensures match FindTicks(s)
            case None => forall i: nat :: !TicksAt(s, i)
            case Some(n) => TicksAt(s, n) && forall i: nat :: i < n ==> !TicksAt(s, i)
  {
    if |s| >= 3 && !StartsWithTicks(s) {
      FindTicksMeaning(s[1..]);
      forall i: nat ensures TicksAt(s, i + 1) == TicksAt(s[1..], i) {
      }
      forall i: nat | TicksAt(s, i) ensures TicksAt(s[1..], i - 1) {
        assert i > 0;
      }
    }
  }

  /** Code followed by backticks ends at the first ones exactly if none begin earlier. */
  lemma {:induction false} FirstTicksAfter(code: string)
    ensures FindTicks(code + "```") == Some(|code|) <==> forall i: nat :: i < |code| ==> !TicksAt(code + "```", i)
  {
    FindTicksMeaning(code + "```");
    assert TicksAt(code + "```", |code|);
  }

  lemma {:induction false} LettersRun(lang: string, v: string)
    requires forall i :: 0 <= i < |lang| ==> IsLetter(lang[i])
    requires v != [] ==> !IsLetter(v[0])
    ensures Letters(lang + v) == |lang|
  {
    if lang == [] {
      assert lang + v == v;
    } else {
      assert (lang + v)[1..] == lang[1..] + v;
      LettersRun(lang[1..], v);
    }
  }

  lemma {:induction false} LettersAreLetters(s: string)
    ensures forall i :: 0 <= i < Letters(s) ==> IsLetter(s[i])
    ensures Letters(s) < |s| ==> !IsLetter(s[Letters(s)])
  {
    if s != [] && IsLetter(s[0]) {
      LettersAreLetters(s[1..]);
      forall i | 0 <= i < Letters(s) ensures IsLetter(s[i]) {
        assert i > 0 ==> s[i] == s[1..][i - 1];
      }
    }
  }

  /** Finding the first backticks looks no further than them. */
  lemma {:induction false} FindTicksLocal(s: string, v: string)
    requires FindTicks(s).Some?
    ensures FindTicks(s[..FindTicks(s).value] + "```" + v) == FindTicks(s)
    decreases |s|
  {
    var n := FindTicks(s).value;
    var t := s[..n] + "```" + v;
    if StartsWithTicks(s) {
      assert t == "```" + v;
    } else {
      FindTicksLocal(s[1..], v);
      FindTicksFinds(s);
      assert t[1..] == s[1..][..n - 1] + "```" + v;
      assert n + 3 <= |s| && s[n..][0] == s[n] && s[n..][1] == s[n + 1];
      assert t[0] == s[0] && t[1] == s[1] && t[2] == s[2];
    }
  }

  lemma {:induction false} MatchIsWellFormed(s: string)
    requires MatchHere(s).Some?
    ensures WellFormed(MatchHere(s).value)
  {
    var b, k := MatchHere(s).value, 3 + Letters(s[3..]);
    FirstTicksAfter(b.code);
    LettersAreLetters(s[3..]);
    FindTicksLocal(s[k + 1..], "");
    hide FindTicks, TicksAt, Letters, Block.Text;
    assert forall i :: 3 <= i < k ==> s[i] == s[3..][i - 3];
    assert b.code + "```" + "" == b.code + "```";
  }

  /** The pattern matches at the start of `s` exactly the well-formed block that `s` starts with. */
  lemma {:induction false} MatchIsPattern(s: string, b: Block)
    ensures MatchHere(s) == Some(b) <==> WellFormed(b) && b.Text() <= s
  {
    hide WellFormed, Block.Text;
    if MatchHere(s).Some? {
      MatchIsWellFormed(s);
    }
    hide MatchHere;
    if WellFormed(b) && b.Text() <= s {
      BlockIsFound(s, b);
    }
  }

  lemma {:induction false} BlockIsFound(s: string, b: Block)
    requires WellFormed(b) && b.Text() <= s
    ensures MatchHere(s) == Some(b)
  {
    FirstTicksAfter(b.code);
    var v := s[|b.Text()|..];
    var k := 3 + |b.lang|;
    var inner := b.code + "```" + v;
    BlockLayout(b, v);
    assert s == b.Text() + v;
    LettersRun(b.lang, "\n" + inner);
    assert (b.code + "```")[..|b.code|] == b.code;
    FindTicksLocal(b.code + "```", v);
    assert s[k + 1..] == inner && s[k] == '\n' && s[3..k] == b.lang;
    assert inner[..|b.code|] == b.code;
  }

  /** In characters: three backticks, letters, a line end, code free of three backticks up to its own three. */
  lemma {:induction false} FencedBlockMatches(lang: string, code: string, rest: string)
    requires forall i :: 0 <= i < |lang| ==> 'a' <= lang[i] <= 'z' || 'A' <= lang[i] <= 'Z'
    requires forall i: nat :: i < |code| ==> !TicksAt(code + "```", i)
    ensures MatchHere("```" + lang + "\n" + code + "```" + rest) == Some(Block(lang, code))
  {
    BlockIsFound("```" + lang + "\n" + code + "```" + rest, Block(lang, code));
  }

  lemma {:induction false} BlockLayout(b: Block, v: string)
    ensures var s, inner := b.Text() + v, b.code + "```" + v;
            && StartsWithTicks(s)
            && s[3..] == b.lang + ("\n" + inner)
            && s[3..3 + |b.lang|] == b.lang
            && s[3 + |b.lang|] == '\n'
            && s[4 + |b.lang|..] == inner
  {
    var inner := b.code + "```" + v;
    assert b.Text() + v == "```" + (b.lang + ("\n" + inner));
  }

  /** The search takes the leftmost place where the pattern matches. */
  lemma {:induction false} SearchIsLeftmost(s: string, i: nat)
    requires i <= |s|
    ensures Search(s).None? ==> MatchHere(s[i..]).None?
    ensures Search(s).Some? && i < |Search(s).value.gap| ==> MatchHere(s[i..]).None?
    ensures Search(s).Some? && i == |Search(s).value.gap| ==> MatchHere(s[i..]) == Some(Search(s).value.block)
  {
    if i == 0 {
      assert s[0..] == s;
    } else if MatchHere(s).None? {
      SearchIsLeftmost(s[1..], i - 1);
      assert s[1..][i - 1..] == s[i..];
    }
  }

  /** Every block is the leftmost one of the text that is left at its turn, and none is left at the end. */
  lemma {:induction false} ParseIsSearch(s: string, i: nat)
    requires i <= |Parse(s).fences|
    ensures var a := Parse(s); var left := Texts(a.fences[i..]) + a.tail;
            Search(left) == if i < |a.fences| then Some(a.fences[i]) else None
    decreases |s|
  {
    var a := Parse(s);
    if Search(s).None? {
      assert a.fences[i..] == [] && [] + s == s;
    } else if i == 0 {
      ParseIsLossless(s);
      assert a.fences[0..] == a.fences;
    } else {
      ParseStep(s);
      var u := s[|Search(s).value.Text()|..];
      ParseIsSearch(u, i - 1);
      assert a.fences[i..] == Parse(u).fences[i - 1..];
    }
  }

  // ---------- printing and splitting again ----------

  /** `f` printed with its code on lines of its own. */
  function OnLines(f: Fence): Fence {
    Fence(f.gap, Block(f.block.lang, f.block.code + "\n"))
  }

  function Print(fs: seq<Fence>, tail: string): string {
    if fs == [] then tail else OnLines(fs[0]).Text() + Print(fs[1..], tail)
  }

  /** No three backticks anywhere. */
  ghost predicate NoTicks(s: string) {
    forall i: nat :: !TicksAt(s, i)
  }

  /** A block that can be printed: letters only, and no fence inside its text or code. */
  ghost predicate Printable(f: Fence) {
    && NoTicks(f.gap)
    && NoTicks(f.block.code)
    && (forall i :: 0 <= i < |f.block.lang| ==> 'a' <= f.block.lang[i] <= 'z' || 'A' <= f.block.lang[i] <= 'Z')
  }

  lemma {:induction false} FenceAfterLine(code: string)
    requires FindTicks(code).None?
    ensures FindTicks(code + "\n" + "```") == Some(|code| + 1)
  {
    var t := code + "\n" + "```";
    if code == [] {
      assert t[1..] == "```";
    } else {
      assert t[1..] == code[1..] + "\n" + "```";
      assert |code| == 1 ==> code[1..] == [];
      FenceAfterLine(code[1..]);
    }
  }

  /** Backticks at the end of the text before a fence do not hide it: a fence must be followed by its line. */
  lemma {:induction false} SearchSkipsText(gap: string, rest: string)
    requires FindTicks(gap).None? && MatchHere(rest).Some?
    ensures Search(gap + rest) == Some(Fence(gap, MatchHere(rest).value))
  {
    hide MatchHere, TicksAt, Block.Text, Fence.Text;
    var s := gap + rest;
    if gap == [] {
      assert s == rest;
    } else {
      NoMatchInText(gap, rest);
      assert s[1..] == gap[1..] + rest && s[0] == gap[0];
      SearchSkipsText(gap[1..], rest);
      assert [gap[0]] + gap[1..] == gap;
    }
  }

  lemma {:induction false} NoMatchInText(gap: string, rest: string)
    requires gap != [] && FindTicks(gap).None? && MatchHere(rest).Some?
    ensures MatchHere(gap + rest).None?
  {
    var s := gap + rest;
    if |gap| >= 3 {
      assert s[0] == gap[0] && s[1] == gap[1] && s[2] == gap[2];
    } else {
      assert s[3] == rest[3 - |gap|] && s[3..][0] == s[3];
    }
  }

  lemma {:induction false} NoTicksNoBlock(s: string)
    requires FindTicks(s).None?
    ensures Search(s).None?
  {
    if s != [] {
      NoTicksNoBlock(s[1..]);
    }
  }

  lemma {:induction false} SearchPrinted(f: Fence, rest: string)
    requires Printable(f)
    ensures Search(OnLines(f).Text() + rest) == Some(OnLines(f))
  {
    hide Block.Text, Search, MatchHere;
    var g := OnLines(f);
    var blockOn := g.block.Text() + rest;
    FindTicksMeaning(f.gap);
    FindTicksMeaning(f.block.code);
    FenceAfterLine(f.block.code);
    FirstTicksAfter(g.block.code);
    assert f.block.code + "\n" + "```" == g.block.code + "```";
    BlockIsFound(blockOn, g.block);
    SearchSkipsText(f.gap, blockOn);
    assert g.Text() + rest == f.gap + blockOn;
  }

  lemma {:induction false} ParsePrinted(f: Fence, rest: string)
    requires Printable(f)
    ensures Parse(OnLines(f).Text() + rest) == Answer([OnLines(f)] + Parse(rest).fences, Parse(rest).tail)
  {
    hide Block.Text, Fence.Text, Search, Parse;
    var g := OnLines(f);
    SearchPrinted(f, rest);
    ParseStep(g.Text() + rest);
    assert (g.Text() + rest)[|g.Text()|..] == rest;
  }

  /** Parsing what was printed gives back every gap, language and tail, and every code with its line end. */
  lemma {:induction false} ParseOfPrint(fs: seq<Fence>, tail: string)
    requires NoTicks(tail) && forall i :: 0 <= i < |fs| ==> Printable(fs[i])
    ensures |Parse(Print(fs, tail)).fences| == |fs|
    ensures forall i :: 0 <= i < |fs| ==> Parse(Print(fs, tail)).fences[i] == OnLines(fs[i])
    ensures Parse(Print(fs, tail)).tail == tail
  {
    if fs == [] {
      FindTicksMeaning(tail);
      NoTicksNoBlock(tail);
    } else {
      ParseOfPrint(fs[1..], tail);
      ParsePrinted(fs[0], Print(fs[1..], tail));
    }
  }

  // ---------- LLMWrapper.split_explanation_and_code ----------

  function Gaps(fs: seq<Fence>): seq<string> {
    seq(|fs|, i requires 0 <= i < |fs| => Strip(fs[i].gap))
  }

  function Langs(fs: seq<Fence>): seq<string> {
    seq(|fs|, i requires 0 <= i < |fs| => Strip(fs[i].block.lang))
  }

  function Codes(fs: seq<Fence>): seq<string> {
    seq(|fs|, i requires 0 <= i < |fs| => Strip(fs[i].block.code))
  }

  /** A tail that is nothing but white space is not a text of its own. */
  function TailTexts(tail: string): seq<string> {
    if Strip(tail) == [] then [] else [Strip(tail)]
  }

  /** The lists hold the stripped parts of the blocks, and the tail is a text of its own unless it is all white space. */
  ghost predicate ListsOf(a: Answer, texts: seq<string>, codes: seq<string>, langs: seq<string>) {
    var n := |a.fences|;
    && |codes| == |langs| == n && n <= |texts| <= n + 1
    && (forall i :: 0 <= i < n ==>
          && IsStripped(a.fences[i].gap, texts[i])
          && IsStripped(a.fences[i].block.code, codes[i])
          && IsStripped(a.fences[i].block.lang, langs[i]))
    && (|texts| == n <==> forall k :: 0 <= k < |a.tail| ==> IsWhite(a.tail[k]))
    && (|texts| == n + 1 ==> IsStripped(a.tail, texts[n]))
  }

  lemma {:induction false} StrippedEmpty(s: string)
    ensures Strip(s) == [] <==> forall k :: 0 <= k < |s| ==> IsWhite(s[k])
  {
    StripIsStripped(s);
    var i: nat, j: nat :| CutTo(s, i, j, Strip(s));
    assert i < j ==> s[i] == Strip(s)[0];
  }

  lemma {:induction false} ListsAreStripped(a: Answer)
    ensures ListsOf(a, Gaps(a.fences) + TailTexts(a.tail), Codes(a.fences), Langs(a.fences))
  {
    hide Strip, IsStripped, IsWhite;
    StrippedEmpty(a.tail);
    StripIsStripped(a.tail);
    forall i | 0 <= i < |a.fences|
      ensures IsStripped(a.fences[i].gap, Gaps(a.fences)[i])
      ensures IsStripped(a.fences[i].block.code, Codes(a.fences)[i])
      ensures IsStripped(a.fences[i].block.lang, Langs(a.fences)[i])
    {
      StripIsStripped(a.fences[i].gap);
      StripIsStripped(a.fences[i].block.code);
      StripIsStripped(a.fences[i].block.lang);
    }
  }

  lemma {:induction false} ListsSnoc(fs: seq<Fence>, f: Fence)
    ensures Gaps(fs + [f]) == Gaps(fs) + [Strip(f.gap)]
    ensures Langs(fs + [f]) == Langs(fs) + [Strip(f.block.lang)]
    ensures Codes(fs + [f]) == Codes(fs) + [Strip(f.block.code)]
  {
  }

  lemma {:induction false} NoLists()
    ensures Gaps([]) == [] && Langs([]) == [] && Codes([]) == []
  {
  }

  lemma {:induction false} ParseEnd(s: string)
    requires Search(s).None?
    ensures Parse(s) == Answer([], s)
  {
  }

  lemma {:induction false} TextNonEmpty(f: Fence)
    ensures |f.Text()| > 0
  {
  }

  method SplitExplanationAndCode(output: string)
    returns (texts: seq<string>, codes: seq<string>, langs: seq<string>)
    ensures var a := Parse(output);
            && texts == Gaps(a.fences) + TailTexts(a.tail)
            && codes == Codes(a.fences) && langs == Langs(a.fences)
    ensures ListsOf(Parse(output), texts, codes, langs)
  {
    hide ListsOf, Parse, Search, Gaps, Langs, Codes, Block.Text, Fence.Text, Strip;
    texts, codes, langs := [], [], [];
    var lastIdx := 0;
    ghost var done: seq<Fence> := [];
    ghost var rest := Parse(output);
    NoLists();
    assert output[0..] == output;
    while true
      invariant 0 <= lastIdx <= |output|
      invariant rest == Parse(output[lastIdx..])
      invariant Parse(output) == Answer(done + rest.fences, rest.tail)
      invariant texts == Gaps(done) && codes == Codes(done) && langs == Langs(done)
      invariant |texts| == |codes| == |langs|
      decreases |output| - lastIdx
    {
      var found := Search(output[lastIdx..]);
      if found.None? {
        break;
      }
      var f := found.value;
      ParseStep(output[lastIdx..]);
      TextNonEmpty(f);
      assert output[lastIdx..][|f.Text()|..] == output[lastIdx + |f.Text()|..];
      texts := texts + [Strip(f.gap)];
      langs := langs + [Strip(f.block.lang)];
      codes := codes + [Strip(f.block.code)];
      lastIdx := lastIdx + |f.Text()|;
      ListsSnoc(done, f);
      rest := Parse(output[lastIdx..]);
      assert done + ([f] + rest.fences) == (done + [f]) + rest.fences;
      done := done + [f];
    }
    ParseEnd(output[lastIdx..]);
    assert done + [] == done;
    var trailing := Strip(output[lastIdx..]);
    if trailing != [] {
      texts := texts + [trailing];
    }
    if |codes| > |texts| {
      texts := [""] + texts;
    }
    ListsAreStripped(Parse(output));
  }

  /** Printing trimmed texts, languages and codes as fenced blocks and splitting them gives the same lists back. */
  lemma {:induction false} SplitOfPrint(fs: seq<Fence>, tail: string)
    requires NoTicks(tail) && Trimmed(tail)
    requires forall i :: 0 <= i < |fs| ==> Printable(fs[i]) && Trimmed(fs[i].gap) && Trimmed(fs[i].block.code)
    ensures var a := Parse(Print(fs, tail));
            && |a.fences| == |fs|
            && (forall i :: 0 <= i < |fs| ==>
                  && Gaps(a.fences)[i] == fs[i].gap
                  && Langs(a.fences)[i] == fs[i].block.lang
                  && Codes(a.fences)[i] == fs[i].block.code)
            && TailTexts(a.tail) == if tail == [] then [] else [tail]
  {
    hide Print, Parse, Strip, Printable;
    ParseOfPrint(fs, tail);
    StripOfTrimmed(tail);
    forall i | 0 <= i < |fs|
      ensures Strip(OnLines(fs[i]).gap) == fs[i].gap
      ensures Strip(OnLines(fs[i]).block.lang) == fs[i].block.lang
      ensures Strip(OnLines(fs[i]).block.code) == fs[i].block.code
    {
      StripOfTrimmed(fs[i].gap);
      StripOfTrimmed(fs[i].block.code);
      LettersAreTrimmed(fs[i]);
      StripOfTrimmed(fs[i].block.lang);
    }
  }

  lemma {:induction false} LettersAreTrimmed(f: Fence)
    requires Printable(f)
    ensures Trimmed(f.block.lang)
  {
  }
}
