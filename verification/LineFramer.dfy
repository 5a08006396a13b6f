/** The newline framing of the ACP fixture's `data` handler in `acp-fixture.ts`: chunks in, complete lines out. */
module LineFramer {
  import opened Sequences
  import Text

  /** The newline-terminated lines of a text, in order. */
  function Lines(text: string): seq<string>
    decreases |text|
  {
    if '\n' in text then [Text.Before(text, '\n')] + Lines(Text.After(text, '\n')) else []
  }

  /** The text after the last newline. */
  function Tail(text: string): string
    decreases |text|
  {
    if '\n' in text then Tail(Text.After(text, '\n')) else text
  }

  function NonEmpty(lines: seq<string>): seq<string> {
    if lines == [] then [] else (if lines[0] == "" then [] else [lines[0]]) + NonEmpty(lines[1..])
  }

  function Join(chunks: seq<string>): string {
    if chunks == [] then "" else Join(chunks[..|chunks| - 1]) + chunks[|chunks| - 1]
  }

  /** How many lines are handled before the first one the handler throws on. */
  function Handled(lines: seq<string>, accepts: string -> bool): (k: nat)
    ensures k <= |lines|
    ensures forall i :: 0 <= i < k ==> accepts(lines[i])
    ensures k < |lines| ==> !accepts(lines[k])
  {
    if lines == [] || !accepts(lines[0]) then 0 else 1 + Handled(lines[1..], accepts)
  }

  /** Whether the process is still alive, and which lines it has handed over. */
  datatype Progress = Progress(delivered: seq<string>, crashed: bool)

  function EffectOfLines(lines: seq<string>, accepts: string -> bool): Progress {
    var k := Handled(lines, accepts);
    Progress(lines[..k], k < |lines|)
  }

  /** What a text, however it arrives, makes the process do. */
  function Effect(text: string, accepts: string -> bool): Progress {
    EffectOfLines(NonEmpty(Lines(text)), accepts)
  }

  /** One effect after another; a crash is final. */
  function Then(first: Progress, second: Progress): Progress {
    if first.crashed then first else Progress(first.delivered + second.delivered, second.crashed)
  }

  /** What a process that has handed over `delivered` and reads `text` comes to. */
  function Outcome(delivered: seq<string>, text: string, accepts: string -> bool): Progress {
    Then(Progress(delivered, false), Effect(text, accepts))
  }

  /* ---- the handler as the code runs it ---- */

  /** The embedded script's `buffered`, and the lines given to `handle(JSON.parse(line))`; `accepts` says for which
      lines that does not throw. An uncaught exception ends the process. */
  class Framer {
    const accepts: string -> bool
    var buffered: string
    var delivered: seq<string>
    var crashed: bool

    constructor (handles: string -> bool)
      ensures accepts == handles && buffered == "" && delivered == [] && !crashed
    {
      accepts, buffered, delivered, crashed := handles, "", [], false;
    }

    /** One `data` event. */
    method OnData(chunk: string)
      requires !crashed
      modifies this
      ensures var text := old(buffered) + chunk;
              && Progress(delivered, crashed) == Outcome(old(delivered), text, accepts)
              && (!crashed ==> buffered == Tail(text))
      ensures forall lines, tail :: Framed(old(buffered) + chunk, lines, tail)
                ==> Handles(old(delivered), lines, accepts, Progress(delivered, crashed))
                    && (!crashed ==> buffered == tail)
    {
      buffered := buffered + chunk;
      ghost var text := buffered;
      while true
        invariant !crashed
        invariant Drain(delivered, buffered, accepts) == Drain(old(delivered), text, accepts)
        decreases |buffered|
      {
        var newline := Text.PositionOf(buffered, '\n');
        if newline == |buffered| { break; }
        var line := buffered[..newline];
        assert line == Text.Before(buffered, '\n') && buffered[newline + 1..] == Text.After(buffered, '\n');
        buffered := buffered[newline + 1..];
        if line != "" {
          if !accepts(line) {
            crashed := true;
            break;
          }
          delivered := delivered + [line];
        }
      }
      DrainIsOutcome(old(delivered), text, accepts);
      forall lines, tail | Framed(text, lines, tail)
        ensures Handles(old(delivered), lines, accepts, Outcome(old(delivered), text, accepts)) && tail == Tail(text)
      {
        FramedExactly(text, lines, tail);
        OutcomeHandles(old(delivered), text, accepts);
      }
    }
  }

  /** What the handler's loop makes of the buffer: the progress, and the buffer it leaves. */
  function Drain(delivered: seq<string>, buffered: string, accepts: string -> bool): (Progress, string)
    decreases |buffered|
  {
    var newline := Text.PositionOf(buffered, '\n');
    if newline == |buffered| then (Progress(delivered, false), buffered)
    else
      var line, rest := Text.Before(buffered, '\n'), Text.After(buffered, '\n');
      if line == "" then Drain(delivered, rest, accepts)
      else if accepts(line) then Drain(delivered + [line], rest, accepts)
      else (Progress(delivered, true), rest)
  }

  /** It handles the complete lines and keeps the tail. */
  lemma {:induction false} DrainIsOutcome(delivered: seq<string>, buffered: string, accepts: string -> bool)
    ensures Drain(delivered, buffered, accepts).0 == Outcome(delivered, buffered, accepts)
    ensures !Drain(delivered, buffered, accepts).0.crashed ==> Drain(delivered, buffered, accepts).1 == Tail(buffered)
    decreases |buffered|
  {
    if Text.PositionOf(buffered, '\n') == |buffered| {
      NoLineOutcome(delivered, buffered, accepts);
    } else {
      var line, rest := Text.Before(buffered, '\n'), Text.After(buffered, '\n');
      NextLine(delivered, buffered, accepts);
      if line == "" {
        DrainIsOutcome(delivered, rest, accepts);
      } else if accepts(line) {
        DrainIsOutcome(delivered + [line], rest, accepts);
      }
    }
  }

  lemma NoLineOutcome(delivered: seq<string>, text: string, accepts: string -> bool)
    requires Text.PositionOf(text, '\n') == |text|
    ensures Tail(text) == text && Outcome(delivered, text, accepts) == Progress(delivered, false)
  {
    NoLine(text, accepts);
    assert delivered + [] == delivered;
  }

  lemma EffectOfLinesConcat(x: seq<string>, y: seq<string>, accepts: string -> bool)
    ensures EffectOfLines(x + y, accepts) == Then(EffectOfLines(x, accepts), EffectOfLines(y, accepts))
  {
    HandledConcat(x, y, accepts);
    if Handled(x, accepts) < |x| {
      assert (x + y)[..Handled(x, accepts)] == x[..Handled(x, accepts)];
    } else {
      assert x[..|x|] == x && (x + y)[..|x| + Handled(y, accepts)] == x + y[..Handled(y, accepts)];
    }
  }

  lemma ThenIsAssociative(a: Progress, b: Progress, c: Progress)
    ensures Then(Then(a, b), c) == Then(a, Then(b, c))
  {
    assert (a.delivered + b.delivered) + c.delivered == a.delivered + (b.delivered + c.delivered);
  }

  lemma NoLine(text: string, accepts: string -> bool)
    requires Text.PositionOf(text, '\n') == |text|
    ensures Tail(text) == text && Effect(text, accepts) == Progress([], false)
  {
    assert text[..|text|] == text;
  }

  lemma EffectOfLine(line: string, accepts: string -> bool)
    ensures EffectOfLines(NonEmpty([line]), accepts)
         == if line == "" then Progress([], false) else if accepts(line) then Progress([line], false)
            else Progress([], true)
  {
    assert [line][1..] == [];
  }

  /** Handling the first line and then the rest is handling the whole. */
  lemma FirstLine(text: string, accepts: string -> bool)
    requires Text.PositionOf(text, '\n') < |text|
    ensures var line, rest := Text.Before(text, '\n'), Text.After(text, '\n');
            && |rest| < |text| && Tail(text) == Tail(rest)
            && Effect(text, accepts) == Then(EffectOfLines(NonEmpty([line]), accepts), Effect(rest, accepts))
  {
    var line, rest := Text.Before(text, '\n'), Text.After(text, '\n');
    assert '\n' in text;
    assert Lines(text) == [line] + Lines(rest);
    NonEmptyConcat([line], Lines(rest));
    EffectOfLinesConcat(NonEmpty([line]), NonEmpty(Lines(rest)), accepts);
  }

  /** One turn of the handler's loop. */
  lemma NextLine(delivered: seq<string>, text: string, accepts: string -> bool)
    requires Text.PositionOf(text, '\n') < |text|
    ensures var line, rest := Text.Before(text, '\n'), Text.After(text, '\n');
            && |rest| < |text| && Tail(text) == Tail(rest)
            && Outcome(delivered, text, accepts)
               == if line == "" then Outcome(delivered, rest, accepts)
                  else if accepts(line) then Outcome(delivered + [line], rest, accepts)
                  else Progress(delivered, true)
  {
    var line, rest := Text.Before(text, '\n'), Text.After(text, '\n');
    FirstLine(text, accepts);
    EffectOfLine(line, accepts);
    ThenIsAssociative(Progress(delivered, false), EffectOfLines(NonEmpty([line]), accepts), Effect(rest, accepts));
    assert delivered + [] == delivered;
  }

  /* ---- chunking does not matter ---- */

  lemma SplitFirst(a: string, b: string)
    requires '\n' in a
    ensures '\n' in a + b && |Text.After(a, '\n')| < |a|
    ensures Text.Before(a + b, '\n') == Text.Before(a, '\n') && Text.After(a + b, '\n') == Text.After(a, '\n') + b
  {
    FirstNewlineOfConcat(a, b);
  }

  lemma LinesUnfold(text: string, line: string, rest: string)
    requires '\n' in text && line == Text.Before(text, '\n') && rest == Text.After(text, '\n')
    ensures Lines(text) == [line] + Lines(rest) && Tail(text) == Tail(rest)
  {
  }

  lemma {:induction false} SplitAnywhere(a: string, b: string)
    ensures Lines(a + b) == Lines(a) + Lines(Tail(a) + b)
    ensures Tail(a + b) == Tail(Tail(a) + b)
    decreases |a|, 1
  {
    if '\n' in a {
      SplitInside(a, b, Text.Before(a, '\n'), Text.After(a, '\n'));
    }
  }

  lemma {:induction false} SplitInside(a: string, b: string, line: string, rest: string)
    requires '\n' in a && line == Text.Before(a, '\n') && rest == Text.After(a, '\n')
    ensures Lines(a + b) == Lines(a) + Lines(Tail(a) + b)
    ensures Tail(a + b) == Tail(Tail(a) + b)
    decreases |a|, 0
  {
    SplitFirst(a, b);
    SplitAnywhere(rest, b);
    LinesUnfold(a, line, rest);
    LinesUnfold(a + b, line, rest + b);
    Regroup([line], Lines(rest), Lines(Tail(rest) + b));
  }

  lemma {:induction false} FirstNewlineOfConcat(a: string, b: string)
    requires '\n' in a
    ensures Text.PositionOf(a + b, '\n') == Text.PositionOf(a, '\n') < |a|
  {
    if a[0] != '\n' {
      assert (a + b)[1..] == a[1..] + b;
      FirstNewlineOfConcat(a[1..], b);
    }
  }

  lemma {:induction false} NonEmptyConcat(a: seq<string>, b: seq<string>)
    ensures NonEmpty(a + b) == NonEmpty(a) + NonEmpty(b)
  {
    if a == [] {
      assert a + b == b;
    } else {
      assert (a + b)[1..] == a[1..] + b;
      NonEmptyConcat(a[1..], b);
    }
  }

  lemma {:induction false} HandledConcat(a: seq<string>, b: seq<string>, accepts: string -> bool)
    ensures Handled(a + b, accepts) == if Handled(a, accepts) < |a| then Handled(a, accepts)
            else |a| + Handled(b, accepts)
  {
    if a == [] {
      assert a + b == b;
    } else {
      assert (a + b)[1..] == a[1..] + b;
      HandledConcat(a[1..], b, accepts);
    }
  }

  /** Text that arrives in two pieces has the effect of the first piece, and unless that ended the process, then
      the effect of what it left unread with the second. */
  lemma EffectOfTwo(a: string, b: string, accepts: string -> bool)
    ensures Effect(a + b, accepts) == Then(Effect(a, accepts), Effect(Tail(a) + b, accepts))
  {
    SplitAnywhere(a, b);
    NonEmptyConcat(Lines(a), Lines(Tail(a) + b));
    EffectOfLinesConcat(NonEmpty(Lines(a)), NonEmpty(Lines(Tail(a) + b)), accepts);
  }

  /** The buffer and the progress after each chunk of an input has been given to `OnData` in turn. */
  function Feed(chunks: seq<string>, accepts: string -> bool): (string, Progress) {
    if chunks == [] then ("", Progress([], false))
    else
      var (buffered, progress) := Feed(chunks[..|chunks| - 1], accepts);
      if progress.crashed then (buffered, progress)
      else
        var text := buffered + chunks[|chunks| - 1];
        (Tail(text), Outcome(progress.delivered, text, accepts))
  }

  lemma FeedNext(chunks: seq<string>, i: nat, accepts: string -> bool)
    requires i < |chunks|
    ensures var (buffered, progress) := Feed(chunks[..i], accepts);
            var text := buffered + chunks[i];
            Feed(chunks[..i + 1], accepts)
            == if progress.crashed then (buffered, progress)
               else (Tail(text), Outcome(progress.delivered, text, accepts))
  {
    assert chunks[..i + 1][..i] == chunks[..i];
  }

  /** The framer's state, as far as anything can still observe it. */
  ghost predicate Shows(framer: Framer, state: (string, Progress))
    reads framer
  {
    Progress(framer.delivered, framer.crashed) == state.1 && (!framer.crashed ==> framer.buffered == state.0)
  }

  /** Feeds a whole input chunk by chunk: the framer ends in the state `Feed` names, and so the lines handed over,
      whether the process survives, and the buffer depend only on the concatenation of the chunks. */
  method FeedAll(chunks: seq<string>, accepts: string -> bool) returns (framer: Framer)
    ensures Shows(framer, Feed(chunks, accepts))
    ensures Progress(framer.delivered, framer.crashed) == Effect(Join(chunks), accepts)
    ensures !framer.crashed
            ==> framer.buffered == Tail(Join(chunks)) && framer.delivered == NonEmpty(Lines(Join(chunks)))
    ensures forall lines, tail :: Framed(Join(chunks), lines, tail)
              ==> Handles([], lines, accepts, Progress(framer.delivered, framer.crashed))
                  && (!framer.crashed ==> framer.buffered == tail)
  {
    framer := new Framer(accepts);
    var i := 0;
    while i < |chunks|
      invariant 0 <= i <= |chunks| && framer.accepts == accepts
      invariant Shows(framer, Feed(chunks[..i], accepts))
    {
      FeedNext(chunks, i, accepts);
      if !framer.crashed {
        framer.OnData(chunks[i]);
      }
      i := i + 1;
    }
    assert chunks[..i] == chunks;
    FeedDependsOnText(chunks, accepts);
    forall lines, tail | Framed(Join(chunks), lines, tail)
      ensures Handles([], lines, accepts, Effect(Join(chunks), accepts)) && tail == Tail(Join(chunks))
    {
      FramedExactly(Join(chunks), lines, tail);
      OutcomeHandles([], Join(chunks), accepts);
      assert [] + Effect(Join(chunks), accepts).delivered == Effect(Join(chunks), accepts).delivered;
    }
  }

  lemma {:induction false} FeedDependsOnText(chunks: seq<string>, accepts: string -> bool)
    ensures var (buffered, progress) := Feed(chunks, accepts);
            progress == Effect(Join(chunks), accepts) && (!progress.crashed ==> buffered == Tail(Join(chunks)))
  {
    if chunks != [] {
      var front, last := chunks[..|chunks| - 1], chunks[|chunks| - 1];
      FeedDependsOnText(front, accepts);
      EffectOfTwo(Join(front), last, accepts);
      SplitAnywhere(Join(front), last);
    }
  }

  /** Two splittings of one text cannot be told apart: framers fed with them show the same state. */
  lemma ChunkingIsIrrelevant(a: seq<string>, b: seq<string>, accepts: string -> bool)
    requires Join(a) == Join(b)
    ensures var (bufferedA, progressA) := Feed(a, accepts);
            var (bufferedB, progressB) := Feed(b, accepts);
            progressA == progressB && (!progressA.crashed ==> bufferedA == bufferedB)
  {
    FeedDependsOnText(a, accepts);
    FeedDependsOnText(b, accepts);
  }

  /** The lines and the tail account for every character of the text. */
  lemma {:induction false} NothingIsLost(text: string)
    ensures text == Unlines(Lines(text)) + Tail(text)
    ensures '\n' !in Tail(text) && forall line :: line in Lines(text) ==> '\n' !in line
    decreases |text|
  {
    if '\n' in text {
      var k := Text.PositionOf(text, '\n');
      assert text == text[..k] + "\n" + text[k + 1..];
      NothingIsLost(text[k + 1..]);
      assert Lines(text)[1..] == Lines(text[k + 1..]);
    }
  }

  function Unlines(lines: seq<string>): string {
    if lines == [] then "" else lines[0] + "\n" + Unlines(lines[1..])
  }

  /* ---- framing, without the loop ---- */

  /** The text is these lines, each ended by a newline, and this tail. */
  ghost predicate Framed(text: string, lines: seq<string>, tail: string) {
    text == Unlines(lines) + tail && '\n' !in tail && forall k :: 0 <= k < |lines| ==> '\n' !in lines[k]
  }

  /** A text has one such framing. */
  lemma {:induction false} FramedExactly(text: string, lines: seq<string>, tail: string)
    ensures Framed(text, lines, tail) <==> lines == Lines(text) && tail == Tail(text)
    decreases |lines|
  {
    NothingIsLost(text);
    if Framed(text, lines, tail) {
      FramingIsUnique(text, lines, tail);
    }
  }

  lemma StartsWithLine(line: string, rest: string)
    requires '\n' !in line
    ensures var text := line + "\n" + rest;
            '\n' in text && Text.Before(text, '\n') == line && Text.After(text, '\n') == rest
  {
    var text := line + "\n" + rest;
    assert text[..|line|] == line && text[|line|] == '\n' && text[|line| + 1..] == rest;
    Text.PositionIs(text, '\n', |line|);
  }

  lemma {:induction false} FramingIsUnique(text: string, lines: seq<string>, tail: string)
    requires Framed(text, lines, tail)
    ensures lines == Lines(text) && tail == Tail(text)
    decreases |lines|
  {
    if lines == [] {
      assert text == tail;
    } else {
      var line, rest := lines[0], Unlines(lines[1..]) + tail;
      assert text == line + "\n" + rest by {
        Regroup(line + "\n", Unlines(lines[1..]), tail);
      }
      StartsWithLine(line, rest);
      assert Framed(rest, lines[1..], tail);
      FramingIsUnique(rest, lines[1..], tail);
      LinesUnfold(text, line, rest);
      assert lines == [line] + lines[1..];
    }
  }

  lemma {:induction false} NonEmptyExactly(lines: seq<string>)
    ensures NonEmpty(lines) == Filter(lines, line => line != "")
  {
    if lines != [] {
      NonEmptyExactly(lines[1..]);
    }
  }

  /** Of these lines, those before the first one that is not accepted have been handed over, and such a line is what
      ends the process. */
  ghost predicate HandsOver(lines: seq<string>, accepts: string -> bool, progress: Progress) {
    && progress.delivered <= lines && (forall k :: 0 <= k < |progress.delivered| ==> accepts(lines[k]))
    && if progress.crashed then |progress.delivered| < |lines| && !accepts(lines[|progress.delivered|])
       else progress.delivered == lines
  }

  /** What a process comes to that has handed over `before` and reads the text so framed, whose empty lines it skips:
      its new lines, and what it leaves unread. */
  ghost predicate Handles(before: seq<string>, lines: seq<string>, accepts: string -> bool, after: Progress) {
    && before <= after.delivered
    && HandsOver(Filter(lines, line => line != ""), accepts, Progress(after.delivered[|before|..], after.crashed))
  }

  lemma OutcomeHandles(before: seq<string>, text: string, accepts: string -> bool)
    ensures Handles(before, Lines(text), accepts, Outcome(before, text, accepts))
  {
    NonEmptyExactly(Lines(text));
    var effect, after := Effect(text, accepts), Outcome(before, text, accepts);
    assert after.delivered == before + effect.delivered && after.delivered[|before|..] == effect.delivered;
  }

  /** The outcome of a text is exactly that, however the text is framed. */
  lemma OutcomeExactly(before: seq<string>, text: string, accepts: string -> bool, lines: seq<string>, tail: string,
                       after: Progress)
    requires Framed(text, lines, tail)
    ensures Handles(before, lines, accepts, after) <==> after == Outcome(before, text, accepts)
  {
    FramedExactly(text, lines, tail);
    OutcomeHandles(before, text, accepts);
    var expected := Outcome(before, text, accepts);
    if Handles(before, lines, accepts, after) {
      HandsOverOnce(Filter(lines, line => line != ""), accepts,
                    Progress(after.delivered[|before|..], after.crashed),
                    Progress(expected.delivered[|before|..], expected.crashed));
      assert after.delivered == before + after.delivered[|before|..];
      assert expected.delivered == before + expected.delivered[|before|..];
    }
  }

  lemma HandsOverOnce(lines: seq<string>, accepts: string -> bool, a: Progress, b: Progress)
    requires HandsOver(lines, accepts, a) && HandsOver(lines, accepts, b)
    ensures a == b
  {
    assert a.delivered == lines[..|a.delivered|] && b.delivered == lines[..|b.delivered|];
  }
}
