/** `stripComments` of `walk-imports.ts`: a character machine that blanks comments, and the token grammar it
    implements. */
module StripComments {
  import opened Sequences
  import Text

  /* ---- the grammar ---- */

  /** Source is a sequence of code characters, quoted literals, line comments and block comments. A literal or
      block comment may run to the end of the source unclosed. */
  datatype Token =
    | Code(c: char)
    | Literal(quote: char, body: string, closed: bool)
    | LineComment(body: string)
    | BlockComment(body: string, closed: bool)

  predicate IsQuote(c: char) {
    c == '"' || c == '\'' || c == '`'
  }

  function Source(t: Token): string {
    match t
    case Code(c) => [c]
    case Literal(quote, body, closed) => [quote] + body + (if closed then [quote] else [])
    case LineComment(body) => "//" + body
    case BlockComment(body, closed) => "/*" + body + (if closed then "*/" else "")
  }

  function Render(ts: seq<Token>): string {
    if ts == [] then "" else Source(ts[0]) + Render(ts[1..])
  }

  /** Where a literal's body ends: at the first quote that no backslash escapes, or at the end. */
  function LiteralEnd(s: string, quote: char): (k: nat)
    ensures k <= |s|
    ensures k < |s| ==> s[k] == quote
  {
    if s == "" then 0
    else if s[0] == '\\' && |s| > 1 then 2 + LiteralEnd(s[2..], quote)
    else if s[0] == quote then 0
    else 1 + LiteralEnd(s[1..], quote)
  }

  predicate AtBlockEnd(s: string) {
    |s| > 1 && s[0] == '*' && s[1] == '/'
  }

  /** Where a block comment's body ends: at the first closing mark, or at the end. */
  function BlockEnd(s: string): (k: nat)
    ensures k <= |s|
    ensures k < |s| ==> AtBlockEnd(s[k..])
  {
    if s == "" || AtBlockEnd(s) then 0 else 1 + BlockEnd(s[1..])
  }

  predicate StartsComment(s: string) {
    |s| > 1 && s[0] == '/' && (s[1] == '/' || s[1] == '*')
  }

  /** One token of the grammar, given the text that follows it. */
  predicate Fits(t: Token, rest: string) {
    match t
    case Code(c) => !IsQuote(c) && !StartsComment([c] + rest)
    case Literal(quote, body, closed) =>
      IsQuote(quote) && if closed then LiteralEnd(body + [quote], quote) == |body|
        else rest == "" && LiteralEnd(body, quote) == |body|
    case LineComment(body) => '\n' !in body && (rest == "" || rest[0] == '\n')
    case BlockComment(body, closed) => if closed then BlockEnd(body + "*/") == |body|
      else rest == "" && BlockEnd(body) == |body|
  }

  predicate WellFormed(ts: seq<Token>) {
    ts == [] || (Fits(ts[0], Render(ts[1..])) && WellFormed(ts[1..]))
  }

  function FirstToken(s: string): Token
    requires s != ""
  {
    if StartsComment(s) && s[1] == '/' then LineComment(Text.Before(s[2..], '\n'))
    else if StartsComment(s) then
      var k := BlockEnd(s[2..]);
      BlockComment(s[2..][..k], k < |s[2..]|)
    else if IsQuote(s[0]) then
      var k := LiteralEnd(s[1..], s[0]);
      Literal(s[0], s[1..][..k], k < |s[1..]|)
    else Code(s[0])
  }

  lemma FirstTokenIsPrefix(s: string)
    requires s != ""
    ensures 0 < |Source(FirstToken(s))| <= |s| && s[..|Source(FirstToken(s))|] == Source(FirstToken(s))
  {
    if StartsComment(s) && s[1] == '/' {
      assert s == "//" + s[2..];
    } else if StartsComment(s) {
      BlockIsPrefix(s);
    } else if IsQuote(s[0]) {
      LiteralIsPrefix(s);
    }
  }

  lemma FirstTokenOfBlock(tail: string)
    ensures var k := BlockEnd(tail);
            "/*" + tail != "" && FirstToken("/*" + tail) == BlockComment(tail[..k], k < |tail|)
  {
    var s := "/*" + tail;
    assert s[0] == '/' && s[1] == '*' && s[2..] == tail;
  }

  lemma BlockIsPrefix(s: string)
    requires StartsComment(s) && s[1] == '*'
    ensures |Source(FirstToken(s))| <= |s| && s[..|Source(FirstToken(s))|] == Source(FirstToken(s))
  {
    var rest, k := s[2..], BlockEnd(s[2..]);
    assert s == "/*" + rest;
    FirstTokenOfBlock(rest);
    if k < |rest| {
      assert rest[k..][..2] == "*/";
      PrefixOfWhole(s, "/*", rest, k, "*/");
    } else {
      PrefixOfWhole(s, "/*", rest, k, "");
    }
  }

  /** The opening mark, k characters and the closing mark that follows them start the text. */
  lemma PrefixOfWhole(s: string, open: string, rest: string, k: nat, close: string)
    requires s == open + rest && k + |close| <= |rest| && rest[k..][..|close|] == close
    ensures |open + rest[..k] + close| <= |s| && s[..|open + rest[..k] + close|] == open + rest[..k] + close
  {
    assert rest == rest[..k] + close + rest[k + |close|..];
  }

  lemma LiteralIsPrefix(s: string)
    requires s != "" && IsQuote(s[0])
    ensures |Source(FirstToken(s))| <= |s| && s[..|Source(FirstToken(s))|] == Source(FirstToken(s))
  {
    var rest, k := s[1..], LiteralEnd(s[1..], s[0]);
    assert s == [s[0]] + rest;
    if k < |rest| {
      assert rest == rest[..k] + [s[0]] + rest[k + 1..];
      assert FirstToken(s) == Literal(s[0], rest[..k], true);
    } else {
      assert FirstToken(s) == Literal(s[0], rest, false);
    }
  }

  function Tokenize(s: string): seq<Token>
    decreases |s|
  {
    if s == "" then []
    else
      FirstTokenIsPrefix(s);
      [FirstToken(s)] + Tokenize(s[|Source(FirstToken(s))|..])
  }

  /** What the stripper writes for a token: comments become spaces, keeping their newlines. */
  function BlankChars(s: string): string {
    if s == "" then "" else [if s[0] == '\n' then '\n' else ' '] + BlankChars(s[1..])
  }

  function Blank(t: Token): string {
    if t.Code? || t.Literal? then Source(t) else BlankChars(Source(t))
  }

  function BlankAll(ts: seq<Token>): string {
    if ts == [] then "" else Blank(ts[0]) + BlankAll(ts[1..])
  }

  /* ---- the grammar is unambiguous ---- */

  lemma {:induction false} LiteralEndOfPrefix(body: string, quote: char)
    requires quote != '\\' && LiteralEnd(body, quote) < |body|
    ensures LiteralEnd(body[..LiteralEnd(body, quote)] + [quote], quote) == LiteralEnd(body, quote)
  {
    if body[0] != quote {
      var k, step := LiteralEnd(body, quote), if body[0] == '\\' && |body| > 1 then 2 else 1;
      var cut := body[..k] + [quote];
      assert k == step + LiteralEnd(body[step..], quote);
      LiteralEndOfPrefix(body[step..], quote);
      assert cut[step..] == body[step..][..k - step] + [quote];
      assert |cut| > 1 && cut[0] == body[0];
    }
  }

  lemma {:induction false} LiteralEndBeforeRest(body: string, quote: char, rest: string)
    requires quote != '\\' && LiteralEnd(body + [quote], quote) == |body|
    ensures LiteralEnd(body + [quote] + rest, quote) == |body|
  {
    var s := body + [quote];
    if body != "" {
      var step := if s[0] == '\\' then 2 else 1;
      assert s[step..] == body[step..] + [quote];
      assert (s + rest)[step..] == body[step..] + [quote] + rest;
      LiteralEndBeforeRest(body[step..], quote, rest);
    }
  }

  lemma {:induction false} BlockEndOfPrefix(body: string)
    requires BlockEnd(body) < |body|
    ensures BlockEnd(body[..BlockEnd(body)] + "*/") == BlockEnd(body)
  {
    var k := BlockEnd(body);
    var cut := body[..k] + "*/";
    if k > 0 {
      BlockEndOfPrefix(body[1..]);
      assert cut[1..] == body[1..][..k - 1] + "*/";
      assert body[k..][0] == body[k];
      assert k > 1 ==> cut[1] == body[1];
    }
  }

  lemma {:induction false} BlockEndBeforeRest(body: string, rest: string)
    requires BlockEnd(body + "*/") == |body|
    ensures BlockEnd(body + "*/" + rest) == |body|
  {
    if body != "" {
      assert (body + "*/")[1..] == body[1..] + "*/";
      assert (body + "*/" + rest)[1..] == body[1..] + "*/" + rest;
      BlockEndBeforeRest(body[1..], rest);
    }
  }

  lemma LiteralOfRender(t: Token, rest: string)
    requires t.Literal? && Fits(t, rest)
    ensures Source(t) + rest != "" && FirstToken(Source(t) + rest) == t
  {
    var s, tail := Source(t) + rest, t.body + (if t.closed then [t.quote] else []) + rest;
    assert s == [t.quote] + tail;
    assert s[0] == t.quote && s[1..] == tail && !StartsComment(s);
    if t.closed {
      LiteralEndBeforeRest(t.body, t.quote, rest);
    } else {
      assert tail == t.body;
    }
    assert LiteralEnd(tail, t.quote) == |t.body| && tail[..|t.body|] == t.body;
  }

  lemma BlockOfRender(t: Token, rest: string)
    requires t.BlockComment? && Fits(t, rest)
    ensures Source(t) + rest != "" && FirstToken(Source(t) + rest) == t
  {
    if t.closed {
      var tail := t.body + "*/" + rest;
      BlockEndBeforeRest(t.body, rest);
      assert Source(t) + rest == "/*" + tail;
      FirstTokenOfBlock(tail);
      assert tail[..|t.body|] == t.body;
    } else {
      assert Source(t) + rest == "/*" + t.body;
      FirstTokenOfBlock(t.body);
      assert t.body[..|t.body|] == t.body;
    }
  }

  lemma LineOfRender(t: Token, rest: string)
    requires t.LineComment? && Fits(t, rest)
    ensures Source(t) + rest != "" && FirstToken(Source(t) + rest) == t
  {
    var s, tail := Source(t) + rest, t.body + rest;
    assert s == "//" + tail && s[2..] == tail;
    BodyEndsAtNewline(t.body, rest);
  }

  /** Whatever follows a fitting token, reading the text again yields that token. */
  lemma FirstTokenOfRender(t: Token, rest: string)
    requires Fits(t, rest)
    ensures Source(t) + rest != "" && FirstToken(Source(t) + rest) == t
  {
    match t {
      case Code(c) => assert Source(t) + rest == [c] + rest;
      case Literal(_, _, _) => LiteralOfRender(t, rest);
      case LineComment(_) => LineOfRender(t, rest);
      case BlockComment(_, _) => BlockOfRender(t, rest);
    }
  }

  lemma {:induction false} BodyEndsAtNewline(body: string, rest: string)
    requires '\n' !in body && (rest == "" || rest[0] == '\n')
    ensures Text.PositionOf(body + rest, '\n') == |body|
  {
    if body == "" {
      assert body + rest == rest;
    } else {
      assert (body + rest)[1..] == body[1..] + rest;
      BodyEndsAtNewline(body[1..], rest);
    }
  }

  lemma FirstTokenFits(s: string)
    requires s != ""
    ensures |Source(FirstToken(s))| <= |s| && Fits(FirstToken(s), s[|Source(FirstToken(s))|..])
  {
    FirstTokenIsPrefix(s);
    var t := FirstToken(s);
    var rest := s[|Source(t)|..];
    assert s == Source(t) + rest;
    if StartsComment(s) && s[1] == '/' {
      assert rest == s[2..][|t.body|..];
    } else if StartsComment(s) {
      if t.closed {
        BlockEndOfPrefix(s[2..]);
      } else {
        assert t.body == s[2..];
      }
    } else if IsQuote(s[0]) {
      if t.closed {
        LiteralEndOfPrefix(s[1..], s[0]);
      } else {
        assert t.body == s[1..];
      }
    } else {
      assert [s[0]] + rest == s;
    }
  }

  /** Every source has a reading in the grammar ... */
  lemma {:induction false} TokenizeIsGrammatical(s: string)
    ensures WellFormed(Tokenize(s)) && Render(Tokenize(s)) == s
    decreases |s|
  {
    if s != "" {
      FirstTokenIsPrefix(s);
      FirstTokenFits(s);
      var rest := s[|Source(FirstToken(s))|..];
      TokenizeIsGrammatical(rest);
      assert Tokenize(s)[1..] == Tokenize(rest);
      assert s == Source(FirstToken(s)) + rest;
    }
  }

  lemma TokenizeFirst(t: Token, rest: string)
    requires Fits(t, rest)
    ensures Tokenize(Source(t) + rest) == [t] + Tokenize(rest)
  {
    FirstTokenOfRender(t, rest);
    assert (Source(t) + rest)[|Source(t)|..] == rest;
  }

  /** ... and only one. */
  lemma {:induction false} GrammarIsUnambiguous(ts: seq<Token>)
    requires WellFormed(ts)
    ensures Tokenize(Render(ts)) == ts
  {
    if ts != [] {
      TokenizeFirst(ts[0], Render(ts[1..]));
      GrammarIsUnambiguous(ts[1..]);
      assert ts == [ts[0]] + ts[1..];
    }
  }

  /* ---- the machine ---- */

  datatype Mode = InCode | InLine | InBlock | InLiteral(quote: char)

  /** What one call of `consumeCharacter` does at the front of `s`: the text it appends, how many characters it
      consumes, and the mode it leaves. */
  datatype Chunk = Chunk(text: string, used: nat, mode: Mode)

  function Consume(mode: Mode, s: string): (r: Chunk)
    requires s != ""
    ensures 0 < r.used <= |s| && |r.text| == r.used
  {
    var c := s[0];
    match mode
    case InLine => Chunk(if c == '\n' then "\n" else " ", 1, if c == '\n' then InCode else InLine)
    case InBlock => if AtBlockEnd(s) then Chunk("  ", 2, InCode) else Chunk(if c == '\n' then "\n" else " ", 1, InBlock)
    case InLiteral(quote) =>
      if c == '\\' && |s| > 1 then Chunk(s[..2], 2, mode) else Chunk([c], 1, if c == quote then InCode else mode)
    case InCode =>
      if StartsComment(s) then Chunk("  ", 2, if s[1] == '/' then InLine else InBlock)
      else Chunk([c], 1, if IsQuote(c) then InLiteral(c) else InCode)
  }

  function StripFrom(mode: Mode, s: string): string
    decreases |s|
  {
    if s == "" then "" else
      var chunk := Consume(mode, s);
      chunk.text + StripFrom(chunk.mode, s[chunk.used..])
  }

  function Strip(s: string): string {
    StripFrom(InCode, s)
  }

  lemma StripStep(out: string, mode: Mode, source: string, i: nat)
    requires i < |source|
    ensures var chunk := Consume(mode, source[i..]);
            out + StripFrom(mode, source[i..]) == (out + chunk.text) + StripFrom(chunk.mode, source[i + chunk.used..])
  {
    var chunk := Consume(mode, source[i..]);
    assert source[i..][chunk.used..] == source[i + chunk.used..];
  }

  function ModeOf(inLineComment: bool, inBlockComment: bool, inString: string): Mode {
    if inLineComment then InLine else if inBlockComment then InBlock else if inString != "" then InLiteral(inString[0])
      else InCode
  }

  /** The variables `stripComments` shares with its inner functions. */
  class Stripper {
    const source: string
    var out: string
    var inLineComment: bool
    var inBlockComment: bool
    var inString: string
    var i: nat

    ghost predicate Valid()
      reads this
    {
      && i <= |source| && |inString| <= 1
      && (inLineComment ==> !inBlockComment && inString == "") && (inBlockComment ==> inString == "")
    }

    ghost function Mode(): Mode
      reads this
    {
      ModeOf(inLineComment, inBlockComment, inString)
    }

    constructor (text: string)
      ensures Valid() && source == text && out == "" && Mode() == InCode && i == 0
    {
      source, out, inLineComment, inBlockComment, inString, i := text, "", false, false, "", 0;
    }

    /** The object has taken the step the machine specifies; the loop's own increment is still to come. */
    twostate predicate Took(chunk: Chunk)
      reads this
    {
      Valid() && out == old(out) + chunk.text && i + 1 == old(i) + chunk.used && Mode() == chunk.mode
    }

    /** What the machine sees at position i. */
    lemma Lookahead(next: string)
      requires i < |source| && next == source[i + 1..][..if i + 1 < |source| then 1 else 0]
      ensures var rest := source[i..];
              && rest[0] == source[i] && (next == "" <==> |rest| == 1)
              && (StartsComment(rest) <==> rest[0] == '/' && (next == "/" || next == "*"))
              && (AtBlockEnd(rest) <==> rest[0] == '*' && next == "/")
              && (StartsComment(rest) ==> (rest[1] == '/' <==> next == "/"))
              && (next != "" ==> rest[..2] == [rest[0]] + next)
    {
      var rest := source[i..];
      if |rest| > 1 {
        assert next == [rest[1]];
        assert "/" == ['/'] && "*" == ['*'];
      }
    }

    method ConsumeCode(c: char, next: string)
      requires Valid() && i < |source| && Mode() == InCode
      requires c == source[i] && next == source[i + 1..][..if i + 1 < |source| then 1 else 0]
      modifies this
      ensures Took(Consume(InCode, source[old(i)..]))
    {
      Lookahead(next);
      if c == '/' && (next == "/" || next == "*") {
        inLineComment := next == "/";
        inBlockComment := next == "*";
        out := out + "  ";
        i := i + 1;
        return;
      }
      if IsQuote(c) {
        inString := [c];
        out := out + [c];
        return;
      }
      out := out + [c];
    }

    method ConsumeCharacter(c: char, next: string)
      requires Valid() && i < |source|
      requires c == source[i] && next == source[i + 1..][..if i + 1 < |source| then 1 else 0]
      modifies this
      ensures Took(Consume(old(Mode()), source[old(i)..]))
    {
      Lookahead(next);
      if inLineComment {
        out := out + (if c == '\n' then "\n" else " ");
        if c == '\n' { inLineComment := false; }
        return;
      }
      if inBlockComment {
        if c == '*' && next == "/" {
          out := out + "  ";
          i := i + 1;
          inBlockComment := false;
        } else {
          out := out + (if c == '\n' then "\n" else " ");
        }
        return;
      }
      if inString != "" {
        if c == '\\' && next != "" {
          out := out + ([c] + next);
          i := i + 1;
        } else {
          out := out + [c];
          if c == inString[0] { inString := ""; }
        }
        return;
      }
      ConsumeCode(c, next);
    }

    /** The loop over the characters. */
    method Run() returns (stripped: string)
      requires Valid() && out == "" && Mode() == InCode && i == 0
      modifies this
      ensures stripped == Strip(source)
    {
      while i < |source|
        invariant Valid()
        invariant out + StripFrom(Mode(), source[i..]) == Strip(source)
        decreases |source| - i
      {
        StripStep(out, Mode(), source, i);
        ConsumeCharacter(source[i], source[i + 1..][..if i + 1 < |source| then 1 else 0]);
        i := i + 1;
      }
      return out;
    }
  }

  method StripCommentsInPlace(source: string) returns (out: string)
    ensures out == Strip(source)
    ensures forall ts, k: nat, i: nat :: WellFormed(ts) && Render(ts) == source && Covers(ts, k, i)
              ==> |out| == |source| && i < |source| && out[i] == Shown(ts[k], source[i])
  {
    forall ts, k: nat, i: nat | WellFormed(ts) && Render(ts) == source && Covers(ts, k, i)
      ensures |Strip(source)| == |source| && i < |source| && Strip(source)[i] == Shown(ts[k], source[i])
    {
      StripExactly(ts, k, i);
    }
    var stripper := new Stripper(source);
    out := stripper.Run();
  }

  /* ---- the machine implements the grammar ---- */

  lemma {:induction false} BlankConcat(a: string, b: string)
    ensures BlankChars(a + b) == BlankChars(a) + BlankChars(b)
  {
    if a == "" {
      assert a + b == b;
    } else {
      assert (a + b)[1..] == a[1..] + b;
      BlankConcat(a[1..], b);
    }
  }

  /** A line comment's body up to k blanked, and what follows it stripped. */
  function LineText(s: string, k: nat): string
    requires k <= |s|
  {
    BlankChars(s[..k]) + StripFrom(InCode, s[k..])
  }

  lemma LineTextStep(s: string, k: nat)
    requires k < |s| && s[0] != '\n'
    ensures LineText(s, k + 1) == " " + LineText(s[1..], k)
  {
    assert s[..k + 1][0] == s[0] && s[..k + 1][1..] == s[1..][..k];
    assert s[k + 1..] == s[1..][k..];
    assert BlankChars(s[..k + 1]) == " " + BlankChars(s[1..][..k]);
  }

  lemma LineStep(s: string)
    requires s != "" && s[0] != '\n'
    ensures StripFrom(InLine, s) == " " + StripFrom(InLine, s[1..])
    ensures Text.PositionOf(s, '\n') == 1 + Text.PositionOf(s[1..], '\n')
  {
    assert Consume(InLine, s) == Chunk(" ", 1, InLine);
  }

  lemma {:induction false} StripLine(s: string)
    ensures StripFrom(InLine, s) == LineText(s, Text.PositionOf(s, '\n'))
  {
    if s != "" {
      if s[0] == '\n' {
        assert s[..0] == "" && s[0..] == s;
      } else {
        LineStep(s);
        StripLine(s[1..]);
        LineTextStep(s, Text.PositionOf(s[1..], '\n'));
      }
    }
  }

  /** A block comment's body up to k and its closing mark blanked, and what follows it stripped. */
  function BlockText(s: string, k: nat): string
    requires k < |s| ==> k + 2 <= |s|
    requires k <= |s|
  {
    BlankChars(s[..k]) + if k < |s| then "  " + StripFrom(InCode, s[k + 2..]) else ""
  }

  lemma BlockTextStep(s: string, k: nat)
    requires k + 1 < |s| ==> k + 3 <= |s|
    requires k < |s|
    ensures BlockText(s, k + 1) == BlankChars(s[..1]) + BlockText(s[1..], k)
  {
    assert s[..k + 1] == s[..1] + s[1..][..k];
    BlankConcat(s[..1], s[1..][..k]);
    if k + 1 < |s| {
      assert s[k + 3..] == s[1..][k + 2..];
    }
  }

  lemma BlockStep(s: string)
    requires s != "" && !AtBlockEnd(s)
    ensures StripFrom(InBlock, s) == BlankChars(s[..1]) + StripFrom(InBlock, s[1..])
  {
    assert s[..1][1..] == "";
    assert BlankChars(s[..1]) == [if s[0] == '\n' then '\n' else ' '];
    assert Consume(InBlock, s) == Chunk(BlankChars(s[..1]), 1, InBlock);
  }

  lemma BlockTextEnd(s: string)
    requires AtBlockEnd(s)
    ensures StripFrom(InBlock, s) == BlockText(s, 0)
  {
    assert s[..0] == "" && BlankChars("") == "";
    assert Consume(InBlock, s) == Chunk("  ", 2, InCode);
  }

  lemma {:induction false} StripBlock(s: string)
    ensures StripFrom(InBlock, s) == BlockText(s, BlockEnd(s))
  {
    if s != "" {
      if AtBlockEnd(s) {
        BlockTextEnd(s);
      } else {
        BlockStep(s);
        StripBlock(s[1..]);
        BlockTextStep(s, BlockEnd(s[1..]));
      }
    }
  }

  lemma LiteralStep(s: string, quote: char)
    requires s != "" && s[0] != quote
    ensures var step := if s[0] == '\\' && |s| > 1 then 2 else 1;
            && StripFrom(InLiteral(quote), s) == s[..step] + StripFrom(InLiteral(quote), s[step..])
            && LiteralEnd(s, quote) == step + LiteralEnd(s[step..], quote)
  {
    assert s[..1] == [s[0]];
    if s[0] == '\\' && |s| > 1 {
      assert Consume(InLiteral(quote), s) == Chunk(s[..2], 2, InLiteral(quote));
    } else {
      assert Consume(InLiteral(quote), s) == Chunk([s[0]], 1, InLiteral(quote));
    }
  }

  /** A literal's body up to k, its closing quote if there is one, and what follows it stripped. */
  function LiteralText(s: string, k: nat, quote: char): string
    requires k <= |s|
  {
    s[..k] + if k < |s| then [quote] + StripFrom(InCode, s[k + 1..]) else ""
  }

  lemma LiteralTextStep(s: string, step: nat, k: nat, quote: char)
    requires step + k <= |s|
    ensures LiteralText(s, step + k, quote) == s[..step] + LiteralText(s[step..], k, quote)
  {
    assert s[..step + k] == s[..step] + s[step..][..k];
    if step + k < |s| {
      assert s[step + k + 1..] == s[step..][k + 1..];
    }
  }

  lemma {:induction false} StripLiteral(s: string, quote: char)
    requires quote != '\\'
    ensures StripFrom(InLiteral(quote), s) == LiteralText(s, LiteralEnd(s, quote), quote)
    decreases |s|
  {
    if s != "" && s[0] != quote {
      var step := if s[0] == '\\' && |s| > 1 then 2 else 1;
      LiteralStep(s, quote);
      StripLiteral(s[step..], quote);
      LiteralTextStep(s, step, LiteralEnd(s[step..], quote), quote);
    }
  }

  lemma BlankMarks()
    ensures BlankChars("//") == BlankChars("/*") == BlankChars("*/") == "  "
  {
    assert "//"[1..] == "/" && "/*"[1..] == "*" && "*/"[1..] == "/";
    assert BlankChars("/") == " " && BlankChars("*") == " ";
  }

  /** The opening mark of a comment becomes two spaces. */
  lemma StripMark(s: string)
    requires StartsComment(s)
    ensures Strip(s) == "  " + StripFrom(if s[1] == '/' then InLine else InBlock, s[2..])
  {
    assert Consume(InCode, s) == Chunk("  ", 2, if s[1] == '/' then InLine else InBlock);
  }

  lemma StripFirstLine(s: string)
    requires StartsComment(s) && s[1] == '/'
    ensures var t := FirstToken(s);
            |Source(t)| <= |s| && Strip(s) == Blank(t) + Strip(s[|Source(t)|..])
  {
    var t, rest := FirstToken(s), s[2..];
    StripMark(s);
    StripLine(rest);
    BlankMarks();
    BlankConcat("//", t.body);
    assert s[|Source(t)|..] == rest[|t.body|..];
    Regroup("  ", BlankChars(t.body), Strip(rest[|t.body|..]));
  }

  lemma BlankBlock(body: string)
    ensures BlankChars("/*" + body) == "  " + BlankChars(body)
    ensures BlankChars("/*" + body + "*/") == "  " + BlankChars(body) + "  "
  {
    BlankMarks();
    BlankConcat("/*", body);
    BlankConcat("/*" + body, "*/");
  }

  lemma StripFirstBlock(s: string)
    requires StartsComment(s) && s[1] == '*'
    ensures var t := FirstToken(s);
            |Source(t)| <= |s| && Strip(s) == Blank(t) + Strip(s[|Source(t)|..])
  {
    var t, k := FirstToken(s), BlockEnd(s[2..]);
    BlockAfter(s, t);
    StripMark(s);
    StripBlock(s[2..]);
    BlankBlock(t.body);
    RegroupBlock(s[2..], k);
  }

  lemma RegroupBlock(s: string, k: nat)
    requires k < |s| ==> k + 2 <= |s|
    requires k <= |s|
    ensures "  " + BlockText(s, k)
            == if k < |s| then "  " + BlankChars(s[..k]) + "  " + Strip(s[k + 2..]) else "  " + BlankChars(s[..k])
  {
    if k < |s| {
      Regroup("  ", BlankChars(s[..k]), "  " + Strip(s[k + 2..]));
      Regroup("  " + BlankChars(s[..k]), "  ", Strip(s[k + 2..]));
    }
  }

  lemma BlockAfter(s: string, t: Token)
    requires StartsComment(s) && s[1] == '*' && t == FirstToken(s)
    ensures |Source(t)| <= |s| && t.body == s[2..][..BlockEnd(s[2..])]
    ensures if t.closed then Source(t) == "/*" + t.body + "*/" && s[|Source(t)|..] == s[2..][|t.body| + 2..]
            else Source(t) == "/*" + t.body && t.body == s[2..] && s[|Source(t)|..] == ""
  {
    FirstTokenIsPrefix(s);
    if !t.closed {
      assert "/*" + t.body + "" == "/*" + t.body;
    }
  }

  lemma StripFirstLiteral(s: string)
    requires s != "" && IsQuote(s[0])
    ensures var t := FirstToken(s);
            |Source(t)| <= |s| && Strip(s) == Blank(t) + Strip(s[|Source(t)|..])
  {
    StripQuote(s);
    StripLiteral(s[1..], s[0]);
    LiteralIsPrefix(s);
    LiteralAfter(s);
    RegroupLiteral(s[1..], LiteralEnd(s[1..], s[0]), s[0]);
  }

  lemma RegroupLiteral(s: string, k: nat, quote: char)
    requires k <= |s|
    ensures [quote] + LiteralText(s, k, quote)
            == if k < |s| then [quote] + s[..k] + [quote] + Strip(s[k + 1..]) else [quote] + s[..k]
  {
    if k < |s| {
      Regroup([quote], s[..k], [quote] + Strip(s[k + 1..]));
      Regroup([quote] + s[..k], [quote], Strip(s[k + 1..]));
    }
  }

  lemma StripQuote(s: string)
    requires s != "" && IsQuote(s[0])
    ensures Strip(s) == [s[0]] + StripFrom(InLiteral(s[0]), s[1..])
  {
    assert Consume(InCode, s) == Chunk([s[0]], 1, InLiteral(s[0]));
  }

  lemma LiteralAfter(s: string)
    requires s != "" && IsQuote(s[0])
    ensures var t, k := FirstToken(s), LiteralEnd(s[1..], s[0]);
            if k < |s[1..]| then Source(t) == [s[0]] + s[1..][..k] + [s[0]] && s[k + 2..] == s[1..][k + 1..]
            else Source(t) == [s[0]] + s[1..][..k] && |Source(t)| == |s|
  {
    if LiteralEnd(s[1..], s[0]) == |s[1..]| {
      assert FirstToken(s) == Literal(s[0], s[1..], false);
      assert [s[0]] + s[1..] + "" == [s[0]] + s[1..];
    }
  }

  /** From code, the machine writes the first token blanked and goes on behind it. */
  lemma StripFirstToken(s: string)
    requires s != ""
    ensures |Source(FirstToken(s))| <= |s|
    ensures Strip(s) == Blank(FirstToken(s)) + Strip(s[|Source(FirstToken(s))|..])
  {
    if StartsComment(s) && s[1] == '/' {
      StripFirstLine(s);
    } else if StartsComment(s) {
      StripFirstBlock(s);
    } else if IsQuote(s[0]) {
      StripFirstLiteral(s);
    }
  }

  /** The stripper refines the grammar: it writes the source's tokens in order, code and literals verbatim and
      comments blanked. */
  lemma {:induction false} StripRefinesGrammar(s: string)
    ensures Strip(s) == BlankAll(Tokenize(s))
    decreases |s|
  {
    if s != "" {
      StripFirstToken(s);
      FirstTokenIsPrefix(s);
      var rest := s[|Source(FirstToken(s))|..];
      StripRefinesGrammar(rest);
      assert Tokenize(s)[1..] == Tokenize(rest);
    }
  }

  /* ---- positions ---- */

  /** Same length, newlines at the same places, and every other character either kept or made a space. */
  lemma {:induction false} StripKeepsPositions(mode: Mode, s: string)
    ensures |StripFrom(mode, s)| == |s|
    ensures forall i :: 0 <= i < |s| ==> (StripFrom(mode, s)[i] == '\n' <==> s[i] == '\n')
    ensures forall i :: 0 <= i < |s| ==> StripFrom(mode, s)[i] == s[i] || StripFrom(mode, s)[i] == ' '
    decreases |s|
  {
    if s != "" {
      var chunk := Consume(mode, s);
      StripKeepsPositions(chunk.mode, s[chunk.used..]);
      var out := StripFrom(mode, s);
      forall i | 0 <= i < |s|
        ensures (out[i] == '\n' <==> s[i] == '\n') && (out[i] == s[i] || out[i] == ' ')
      {
        if i < chunk.used {
          assert out[i] == chunk.text[i];
        } else {
          assert s[i] == s[chunk.used..][i - chunk.used];
        }
      }
    }
  }

  /* ---- stripping twice ---- */

  /** The mode a second pass is in where the first was in `mode`: comments have become code. */
  function SecondPass(mode: Mode): Mode {
    if mode.InLiteral? then mode else InCode
  }

  /** Blanking never creates a comment: no two characters that start one in the output did not start one in the
      source. */
  lemma NoNewComment(s: string)
    requires s != "" && !StartsComment(s) && !IsQuote(s[0])
    ensures !StartsComment([s[0]] + StripFrom(InCode, s[1..]))
  {
    if |s| > 1 {
      StripKeepsPositions(InCode, s[1..]);
      assert StripFrom(InCode, s[1..])[0] in {s[1], ' '};
    }
  }

  /** Two blanks are two code characters. */
  lemma StripBlanks(tail: string)
    ensures Strip("  " + tail) == "  " + Strip(tail) && Strip(" " + tail) == " " + Strip(tail)
  {
    var one, two := " " + tail, "  " + tail;
    assert two == " " + one && two[1..] == one && one[1..] == tail;
    assert Strip(one) == " " + Strip(tail);
    assert " " + (" " + Strip(tail)) == "  " + Strip(tail);
  }

  /** The second pass copies what the first wrote for one chunk and stays in step with it. */
  lemma SecondPassCopies(mode: Mode, s: string)
    requires s != "" && (mode.InLiteral? ==> mode.quote != '\\')
    ensures var chunk := Consume(mode, s);
            var tail := StripFrom(chunk.mode, s[chunk.used..]);
            StripFrom(SecondPass(mode), chunk.text + tail) == chunk.text + StripFrom(SecondPass(chunk.mode), tail)
  {
    var chunk := Consume(mode, s);
    var tail := StripFrom(chunk.mode, s[chunk.used..]);
    var out := chunk.text + tail;
    StripKeepsPositions(chunk.mode, s[chunk.used..]);
    assert out[chunk.used..] == tail;
    match mode {
      case InLine => StripOneChar(chunk.text, tail);
      case InBlock =>
        if chunk.used == 2 { StripBlanks(tail); } else { StripOneChar(chunk.text, tail); }
      case InLiteral(quote) =>
        if chunk.used == 2 { assert out[..2] == s[..2]; }
      case InCode =>
        if StartsComment(s) {
          StripBlanks(tail);
        } else if !IsQuote(s[0]) {
          NoNewComment(s);
        }
    }
  }

  lemma StripOneChar(c: string, tail: string)
    requires c == "\n" || c == " "
    ensures Strip(c + tail) == c + Strip(tail)
  {
    assert (c + tail)[1..] == tail;
  }

  lemma {:induction false} StripTwiceFrom(mode: Mode, s: string)
    requires mode.InLiteral? ==> mode.quote != '\\'
    ensures StripFrom(SecondPass(mode), StripFrom(mode, s)) == StripFrom(mode, s)
    decreases |s|
  {
    if s != "" {
      var chunk := Consume(mode, s);
      SecondPassCopies(mode, s);
      StripTwiceFrom(chunk.mode, s[chunk.used..]);
    }
  }

  /** Stripping is idempotent. */
  lemma StripIsIdempotent(s: string)
    ensures Strip(Strip(s)) == Strip(s)
  {
    StripTwiceFrom(InCode, s);
  }

  /* ---- the grammar, character by character ---- */

  /** How many backslashes stand right before position k. */
  function Backslashes(s: string, k: nat): nat
    requires k <= |s|
  {
    if k == 0 || s[k - 1] != '\\' then 0 else 1 + Backslashes(s, k - 1)
  }

  /** An odd number of backslashes escapes what follows them. */
  ghost predicate Escaped(s: string, k: nat)
    requires k <= |s|
  {
    Backslashes(s, k) % 2 == 1
  }

  lemma {:induction false} EscapedWithout(s: string, step: nat, k: nat)
    requires step <= k <= |s|
    requires if s != "" && s[0] == '\\' then step == 2 else step <= 1
    ensures Escaped(s, k) <==> Escaped(s[step..], k - step)
    decreases k
  {
    if k > step {
      assert s[step..][k - step - 1] == s[k - 1];
      EscapedWithout(s, step, k - 1);
    } else if step == 2 {
      assert Backslashes(s, 1) == 1;
    }
  }

  /** A literal's body stops at the first quote of its kind that is not escaped. */
  lemma {:induction false} LiteralEndExactly(s: string, quote: char)
    requires quote != '\\'
    ensures var end := LiteralEnd(s, quote);
            && (end < |s| ==> s[end] == quote && !Escaped(s, end))
            && forall k :: 0 <= k < end && s[k] == quote ==> Escaped(s, k)
    decreases |s|
  {
    if s != "" && s[0] != quote {
      var step, end := if s[0] == '\\' && |s| > 1 then 2 else 1, LiteralEnd(s, quote);
      var rest := s[step..];
      LiteralEndExactly(rest, quote);
      if |s| > 1 {
        EscapedWithout(s, step, end);
        forall k | 0 <= k < end && s[k] == quote ensures Escaped(s, k) {
          if k < step {
            assert k == 1 && Backslashes(s, 1) == 1 + Backslashes(s, 0);
          } else {
            EscapedWithout(s, step, k);
            assert rest[k - step] == quote;
          }
        }
      }
    }
  }

  ghost predicate ClosesAt(s: string, k: int) {
    0 <= k && k + 1 < |s| && s[k] == '*' && s[k + 1] == '/'
  }

  /** A block comment's body stops at the first closing mark. */
  lemma {:induction false} BlockEndExactly(s: string)
    ensures var end := BlockEnd(s);
            (end < |s| ==> ClosesAt(s, end)) && forall k :: 0 <= k < end ==> !ClosesAt(s, k)
  {
    if s != "" && !AtBlockEnd(s) {
      BlockEndExactly(s[1..]);
      forall k | 0 <= k < BlockEnd(s) ensures !ClosesAt(s, k) {
        if k > 0 {
          assert ClosesAt(s, k) ==> ClosesAt(s[1..], k - 1);
        }
      }
    }
  }

  /** The token, in front of that text, in terms of its characters: no quote or comment mark is code; a literal holds
      its quote only escaped, and goes on to a quote that is not escaped or to the end of the text; a line comment goes
      on to a newline or the end; a block comment to the first closing mark or the end. */
  ghost predicate Lexes(t: Token, rest: string) {
    match t
    case Code(c) => c !in {'"', '\'', '`'} && !(c == '/' && rest != "" && rest[0] in {'/', '*'})
    case Literal(quote, body, closed) =>
      && quote in {'"', '\'', '`'}
      && (forall k :: 0 <= k < |body| && body[k] == quote ==> Escaped(body, k))
      && if closed then !Escaped(body, |body|) else rest == ""
    case LineComment(body) => '\n' !in body && (rest == "" || rest[0] == '\n')
    case BlockComment(body, closed) =>
      if closed then forall k :: 0 <= k < |body| ==> !ClosesAt(body + "*/", k)
      else rest == "" && forall k :: 0 <= k < |body| ==> !ClosesAt(body, k)
  }

  lemma {:induction false} EscapedInPrefix(s: string, more: string, k: nat)
    requires k <= |s|
    ensures Escaped(s + more, k) <==> Escaped(s, k)
    ensures Backslashes(s + more, k) == Backslashes(s, k)
    decreases k
  {
    if k > 0 {
      EscapedInPrefix(s, more, k - 1);
    }
  }

  lemma ClosedLiteralExactly(body: string, quote: char)
    requires quote != '\\'
    ensures LiteralEnd(body + [quote], quote) == |body|
            <==> !Escaped(body, |body|) && forall k :: 0 <= k < |body| && body[k] == quote ==> Escaped(body, k)
  {
    var s := body + [quote];
    LiteralEndExactly(s, quote);
    forall k | 0 <= k <= |body| ensures Escaped(s, k) <==> Escaped(body, k) {
      EscapedInPrefix(body, [quote], k);
    }
    if LiteralEnd(s, quote) == |body| {
      forall k | 0 <= k < |body| && body[k] == quote ensures Escaped(body, k) {
        assert s[k] == quote;
      }
    }
  }

  lemma OpenLiteralExactly(body: string, quote: char)
    requires quote != '\\'
    ensures LiteralEnd(body, quote) == |body|
            <==> forall k :: 0 <= k < |body| && body[k] == quote ==> Escaped(body, k)
  {
    LiteralEndExactly(body, quote);
  }

  lemma BlockExactly(t: Token, rest: string)
    requires t.BlockComment?
    ensures Fits(t, rest) <==> Lexes(t, rest)
  {
    var s := if t.closed then t.body + "*/" else t.body;
    BlockEndExactly(s);
    if t.closed {
      assert ClosesAt(s, |t.body|);
    }
  }

  /** The grammar's tokens are exactly those. */
  lemma FitsExactly(t: Token, rest: string)
    ensures Fits(t, rest) <==> Lexes(t, rest)
  {
    match t {
      case Code(c) =>
      case Literal(quote, body, closed) =>
        if IsQuote(quote) {
          ClosedLiteralExactly(body, quote);
          OpenLiteralExactly(body, quote);
        }
      case LineComment(_) =>
      case BlockComment(_, _) => BlockExactly(t, rest);
    }
  }

  /** What becomes of one character of a token. */
  function Shown(t: Token, c: char): char {
    if (t.LineComment? || t.BlockComment?) && c != '\n' then ' ' else c
  }

  lemma {:induction false} BlankCharsExactly(s: string)
    ensures |BlankChars(s)| == |s|
    ensures forall i :: 0 <= i < |s| ==> BlankChars(s)[i] == if s[i] == '\n' then '\n' else ' '
  {
    if s != "" {
      BlankCharsExactly(s[1..]);
      forall i | 0 < i < |s| ensures BlankChars(s)[i] == if s[i] == '\n' then '\n' else ' ' {
        assert s[i] == s[1..][i - 1];
      }
    }
  }

  lemma BlankExactly(t: Token)
    ensures |Blank(t)| == |Source(t)| && forall i :: 0 <= i < |Source(t)| ==> Blank(t)[i] == Shown(t, Source(t)[i])
  {
    BlankCharsExactly(Source(t));
  }

  /** Position i of the text comes from token k. */
  ghost predicate Covers(ts: seq<Token>, k: nat, i: nat) {
    k < |ts| && |Render(ts[..k])| <= i < |Render(ts[..k])| + |Source(ts[k])|
  }

  lemma RenderFrom(ts: seq<Token>, k: nat)
    requires 0 < k <= |ts|
    ensures Render(ts[..k]) == Source(ts[0]) + Render(ts[1..][..k - 1])
  {
    assert ts[..k][1..] == ts[1..][..k - 1];
  }

  lemma {:induction false} BlankAllExactly(ts: seq<Token>, k: nat, i: nat)
    requires Covers(ts, k, i)
    ensures |BlankAll(ts)| == |Render(ts)| && i < |Render(ts)| && BlankAll(ts)[i] == Shown(ts[k], Render(ts)[i])
    decreases |ts|
  {
    var first, rest := ts[0], ts[1..];
    BlankExactly(first);
    BlankAllLength(rest);
    var n := |Source(first)|;
    if k == 0 {
      assert ts[..0] == [];
      assert BlankAll(ts)[i] == Blank(first)[i] && Render(ts)[i] == Source(first)[i];
    } else {
      RenderFrom(ts, k);
      assert Covers(rest, k - 1, i - n);
      BlankAllExactly(rest, k - 1, i - n);
      InSecond(Blank(first), BlankAll(rest), i);
      InSecond(Source(first), Render(rest), i);
    }
  }

  lemma InSecond(a: string, b: string, i: nat)
    requires |a| <= i < |a| + |b|
    ensures (a + b)[i] == b[i - |a|]
  {
  }

  lemma {:induction false} BlankAllLength(ts: seq<Token>)
    ensures |BlankAll(ts)| == |Render(ts)|
  {
    if ts != [] {
      BlankExactly(ts[0]);
      BlankAllLength(ts[1..]);
    }
  }

  /** Each position comes from some token. */
  lemma {:induction false} EachIsCovered(ts: seq<Token>, i: nat) returns (k: nat)
    requires i < |Render(ts)|
    ensures Covers(ts, k, i)
  {
    var n := |Source(ts[0])|;
    if i < n {
      k := 0;
      assert ts[..0] == [];
    } else {
      k := EachIsCovered(ts[1..], i - n);
      k := k + 1;
      RenderFrom(ts, k);
    }
  }

  /** However a source is read in the grammar, each character is kept, unless it stands in a comment and is no newline:
      then it becomes a space. */
  lemma StripExactly(ts: seq<Token>, k: nat, i: nat)
    requires WellFormed(ts) && Covers(ts, k, i)
    ensures |Strip(Render(ts))| == |Render(ts)| && i < |Render(ts)|
    ensures Strip(Render(ts))[i] == Shown(ts[k], Render(ts)[i])
  {
    StripRefinesGrammar(Render(ts));
    GrammarIsUnambiguous(ts);
    BlankAllExactly(ts, k, i);
  }

  ghost predicate LexesAt(ts: seq<Token>, k: nat) {
    k < |ts| && Lexes(ts[k], Render(ts[k + 1..]))
  }

  /** A reading is well formed exactly when each of its tokens is one of the grammar in front of the rest. */
  lemma {:induction false} WellFormedExactly(ts: seq<Token>)
    ensures WellFormed(ts) <==> forall k :: 0 <= k < |ts| ==> LexesAt(ts, k)
  {
    if ts != [] {
      var rest := ts[1..];
      FitsExactly(ts[0], Render(rest));
      WellFormedExactly(rest);
      forall k: nat | k < |rest| ensures LexesAt(rest, k) <==> LexesAt(ts, k + 1) {
        assert rest[k] == ts[k + 1] && rest[k + 1..] == ts[k + 2..];
      }
      assert LexesAt(ts, 0) <==> Fits(ts[0], Render(rest));
      if forall k :: 0 <= k < |ts| ==> LexesAt(ts, k) {
        forall k | 0 <= k < |rest| ensures LexesAt(rest, k) {
          assert LexesAt(ts, k + 1);
        }
      }
      if WellFormed(rest) && LexesAt(ts, 0) {
        forall k | 0 < k < |ts| ensures LexesAt(ts, k) {
          assert LexesAt(rest, k - 1);
        }
      }
    }
  }
}
