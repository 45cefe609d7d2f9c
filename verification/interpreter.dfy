/** The interpreter: `execute` on one line and the `start` read loop. Input is
    the sequence of lines the reader delivers (its end is end-of-stream);
    output is the trace of what the session prints and which handlers it
    calls. */
module Interpreter {
  import opened Wrappers
  import opened JavaString
  import opened ReplCommand
  import opened Registry

  /** One observable step of a session. */
  datatype Event =
    | Prompt(text: string)             // `print(prompt)` before a read
    | Out(line: string)                // a line written with `println`
    | Call(index: nat, args: string)   // the handler of `commands[index]` called with `argsString`

  /** How the k-th handler call ends: whether the handler called `stop()`, and
      whether it threw (the exception is caught and printed to the error
      stream). */
  datatype Reaction = Reaction(stops: bool, throws: bool)

  /** What `execute` does with a line: report an unknown word, call a
      handler, or fail inside `split(...)[0]` (an all-`\s` line splits into an
      empty array). */
  datatype Dispatch = Unknown(word: string) | Invoke(index: nat, args: string) | SplitFailure

  function UnknownMessage(word: string): string {
    "Unknown command: " + word
  }

  /** The line's command word, when registered, has no `$`, so that
      `replaceAll(word, "")` on it is literal removal. */
  predicate LiteralWord(reg: seq<Command>, line: string) {
    Search(reg, FirstField(line)).Some? ==> '$' !in FirstField(line)
  }

  /** `LiteralWord` for every line of a session. */
  predicate AllLiteral(reg: seq<Command>, lines: seq<string>) {
    forall k | 0 <= k < |lines| :: LiteralWord(reg, lines[k])
  }

  /** `execute(commandLine)`: the command word is `split("\\s+")[0]`; an
      unknown word is reported, a known one calls the first command with that
      word, passing the line with every occurrence of the word removed. */
  function Execute(reg: seq<Command>, line: string): (d: Dispatch)
    requires LiteralWord(reg, line)
    ensures d.SplitFailure? <==> |line| > 0 && All(line, RegexSpace)
    ensures d.Unknown? ==> d.word == FirstField(line) && forall j | 0 <= j < |reg| :: reg[j].word != d.word
    ensures d.Invoke? ==>
              && Search(reg, FirstField(line)) == Some(d.index)
              && d.args == RemoveAll(line, FirstField(line))
  {
    SplitHead(line);
    var parts := Split(line);
    if |parts| == 0 then SplitFailure
    else
      match Search(reg, parts[0])
      case None => Unknown(parts[0])
      case Some(i) => Invoke(i, RemoveAll(line, parts[0]))
  }

  /** The prompt, when one is set, printed before a read. */
  function Shown(prompt: Option<string>): seq<Event> {
    if prompt.Some? then [Prompt(prompt.value)] else []
  }

  /** `commandLine.trim().length() == 0`. */
  predicate IsBlank(line: string) {
    |Trim(line)| == 0
  }

  /** What one read of the loop does with a line: skip it when blank, else
      execute it. The registry does not change while the loop runs, so this
      depends on the line alone. */
  datatype Iteration = Skipped | Executed(dispatch: Dispatch)

  function Classify(reg: seq<Command>, line: string): Iteration
    requires LiteralWord(reg, line)
  {
    if IsBlank(line) then Skipped else Executed(Execute(reg, line))
  }

  function Classified(reg: seq<Command>, lines: seq<string>): (its: seq<Iteration>)
    requires AllLiteral(reg, lines)
    ensures |its| == |lines|
    ensures forall k | 0 <= k < |lines| :: its[k] == Classify(reg, lines[k])
  {
    if |lines| == 0 then []
    else
      AllLiteralTail(reg, lines);
      [Classify(reg, lines[0])] + Classified(reg, lines[1..])
  }

  lemma AllLiteralTail(reg: seq<Command>, lines: seq<string>)
    requires AllLiteral(reg, lines) && |lines| > 0
    ensures LiteralWord(reg, lines[0]) && AllLiteral(reg, lines[1..])
  {
    forall k | 0 <= k < |lines| - 1 ensures LiteralWord(reg, lines[1..][k]) {
      assert lines[1..][k] == lines[k + 1];
    }
  }

  /** The control flow of the `start` loop from `running = true` on, given
      what each remaining read yields; `calls` counts the handler calls made
      so far, so `react(calls)` is how the next one ends. Each iteration
      prints the prompt and reads; end of stream ends the loop, a blank line
      is skipped, any other line is executed. A handler that calls `stop()`
      ends the loop after its line; an exception escaping `execute` ends it
      through the catch-all around the loop. */
  function Loop(prompt: Option<string>, its: seq<Iteration>, react: nat -> Reaction, calls: nat): seq<Event>
    decreases |its|
  {
    if |its| == 0 then Shown(prompt)
    else
      match its[0]
      case Skipped => Shown(prompt) + Loop(prompt, its[1..], react, calls)
      case Executed(SplitFailure) => Shown(prompt)
      case Executed(Unknown(w)) => Shown(prompt) + [Out(UnknownMessage(w))] + Loop(prompt, its[1..], react, calls)
      case Executed(Invoke(i, a)) =>
        Shown(prompt) + [Call(i, a)]
        + (if react(calls).stops then [] else Loop(prompt, its[1..], react, calls + 1))
  }

  /** The session over the lines still to be read. */
  function Run(reg: seq<Command>, prompt: Option<string>, lines: seq<string>,
               react: nat -> Reaction, calls: nat): seq<Event>
    requires AllLiteral(reg, lines)
  {
    Loop(prompt, Classified(reg, lines), react, calls)
  }

  lemma Append3(a: seq<Event>, b: seq<Event>, c: seq<Event>)
    ensures a + (b + c) == a + b + c
  {
  }

  /** `Loop` on a first read `it` followed by the reads `later`. */
  lemma LoopCons(prompt: Option<string>, it: Iteration, later: seq<Iteration>, react: nat -> Reaction, calls: nat)
    ensures it.Skipped? ==>
              Loop(prompt, [it] + later, react, calls) == Shown(prompt) + Loop(prompt, later, react, calls)
    ensures it.Executed? && it.dispatch.Unknown? ==>
              Loop(prompt, [it] + later, react, calls)
              == Shown(prompt) + [Out(UnknownMessage(it.dispatch.word))] + Loop(prompt, later, react, calls)
    ensures it.Executed? && it.dispatch.Invoke? ==>
              Loop(prompt, [it] + later, react, calls)
              == Shown(prompt) + [Call(it.dispatch.index, it.dispatch.args)]
                 + (if react(calls).stops then [] else Loop(prompt, later, react, calls + 1))
  {
    assert ([it] + later)[1..] == later;
  }

  /** One pass of the `start` loop body after a line was read: the prompt
      already printed for the read, then nothing for a blank line, otherwise
      `execute`. `running` is false afterwards exactly when the handler
      called `stop()`. `later` stands for what the reads after this one
      yield. */
  method Iterate(reg: seq<Command>, prompt: Option<string>, line: string, react: nat -> Reaction,
                 calls: nat, ghost later: seq<Iteration>)
    returns (events: seq<Event>, running: bool, calls': nat)
    requires LiteralWord(reg, line)
    ensures running ==>
              Loop(prompt, [Classify(reg, line)] + later, react, calls) == events + Loop(prompt, later, react, calls')
    ensures !running ==> Loop(prompt, [Classify(reg, line)] + later, react, calls) == events
  {
    LoopCons(prompt, Classify(reg, line), later, react, calls);
    events := Shown(prompt);
    running := true;
    calls' := calls;
    if IsBlank(line) {
      return;
    }
    NoSplitFailureInLoop(reg, line);
    match Execute(reg, line)
    case SplitFailure =>
      assert false;
    case Unknown(w) =>
      events := events + [Out(UnknownMessage(w))];
    case Invoke(i, a) =>
      events := events + [Call(i, a)];
      if react(calls).stops {
        running := false;
      }
      calls' := calls + 1;
  }

  /** `start(in, out)` as the Java loop: a `running` flag, the prompt before
      every read, a pass of `Iterate` per line read; the read that meets end
      of stream prints its prompt and leaves the loop. */
  method Start(reg: seq<Command>, prompt: Option<string>, lines: seq<string>, react: nat -> Reaction)
    returns (trace: seq<Event>)
    requires AllLiteral(reg, lines)
    ensures trace == Run(reg, prompt, lines, react, 0)
  {
    ghost var its := Classified(reg, lines);
    trace := [];
    var running := true;
    var pos := 0;
    var calls := 0;
    while running && pos < |lines|
      invariant 0 <= pos <= |lines|
      invariant running ==> trace + Loop(prompt, its[pos..], react, calls) == Loop(prompt, its, react, 0)
      invariant !running ==> trace == Loop(prompt, its, react, 0)
    {
      ghost var later := its[pos + 1..];
      ClassifiedFrom(reg, lines, pos);
      var events;
      ghost var before := trace;
      events, running, calls := Iterate(reg, prompt, lines[pos], react, calls, later);
      trace := trace + events;
      if running {
        Append3(before, events, Loop(prompt, later, react, calls));
      }
      pos := pos + 1;
    }
    if running {
      assert its[pos..] == [];
      trace := trace + Shown(prompt);
    }
  }

  lemma SplitAt<T>(xs: seq<T>, pos: nat)
    requires pos < |xs|
    ensures xs[pos..] == [xs[pos]] + xs[pos + 1..]
  {
    assert xs[pos..][1..] == xs[pos + 1..];
  }

  /** The reads from `pos` on: this line's outcome, then the later ones. */
  lemma ClassifiedFrom(reg: seq<Command>, lines: seq<string>, pos: nat)
    requires AllLiteral(reg, lines) && pos < |lines|
    ensures Classified(reg, lines)[pos..] == [Classify(reg, lines[pos])] + Classified(reg, lines)[pos + 1..]
  {
    SplitAt(Classified(reg, lines), pos);
  }

  /** Every `\s` character is also stripped by `trim()`, so a line that
      survives the blank-line test never makes `split(...)[0]` fail. */
  lemma NoSplitFailureInLoop(reg: seq<Command>, line: string)
    requires LiteralWord(reg, line)
    ensures Classify(reg, line) != Executed(SplitFailure)
  {
    RegexSpaceIsTrimSpace(line);
  }

  /** A line that starts with `\s` but is not all `\s` has the empty command
      word, which no command can have, so it is always reported unknown. */
  lemma WhitespaceLedLineIsUnknown(reg: seq<Command>, line: string)
    requires |line| > 0 && IsRegexSpace(line[0]) && !All(line, RegexSpace)
    ensures Execute(reg, line) == Unknown("")
  {
    assert FirstField(line) == [];
    forall j | 0 <= j < |reg| ensures reg[j].word != [] {
      IdentifierHasNoSpace(reg[j].word);
    }
  }

  lemma ClassifiedTail(reg: seq<Command>, lines: seq<string>)
    requires AllLiteral(reg, lines) && |lines| > 0
    ensures Classified(reg, lines)[0] == Classify(reg, lines[0])
    ensures Classified(reg, lines)[1..] == Classified(reg, lines[1..])
  {
  }

  /** A blank line prints only the prompt of its read and dispatches nothing. */
  lemma BlankLineSkipped(reg: seq<Command>, prompt: Option<string>, lines: seq<string>,
                         react: nat -> Reaction, calls: nat)
    requires AllLiteral(reg, lines)
    requires |lines| > 0 && IsBlank(lines[0])
    ensures Run(reg, prompt, lines, react, calls) == Shown(prompt) + Run(reg, prompt, lines[1..], react, calls)
  {
    ClassifiedTail(reg, lines);
  }

  /** An unknown word yields exactly the line `Unknown command: <word>`, no
      handler call, and the loop reads on. */
  lemma UnknownLineReported(reg: seq<Command>, prompt: Option<string>, lines: seq<string>,
                            react: nat -> Reaction, calls: nat)
    requires AllLiteral(reg, lines)
    requires |lines| > 0 && !IsBlank(lines[0]) && Search(reg, FirstField(lines[0])).None?
    ensures Run(reg, prompt, lines, react, calls)
            == Shown(prompt) + [Out(UnknownMessage(FirstField(lines[0])))] + Run(reg, prompt, lines[1..], react, calls)
  {
    ClassifiedTail(reg, lines);
    NoSplitFailureInLoop(reg, lines[0]);
  }

  /** A known word calls the first command with that word exactly once, with
      the line minus every occurrence of the word. The loop goes on to the
      next line unless the handler called `stop()`. */
  lemma KnownLineCalled(reg: seq<Command>, prompt: Option<string>, lines: seq<string>,
                        react: nat -> Reaction, calls: nat, i: nat)
    requires AllLiteral(reg, lines)
    requires |lines| > 0 && !IsBlank(lines[0]) && Search(reg, FirstField(lines[0])) == Some(i)
    ensures Run(reg, prompt, lines, react, calls)
            == Shown(prompt) + [Call(i, RemoveAll(lines[0], reg[i].word))]
               + (if react(calls).stops then [] else Run(reg, prompt, lines[1..], react, calls + 1))
  {
    ClassifiedTail(reg, lines);
    NoSplitFailureInLoop(reg, lines[0]);
  }

  lemma {:induction false} LoopIgnoresThrows(prompt: Option<string>, its: seq<Iteration>,
                                             react1: nat -> Reaction, react2: nat -> Reaction, calls: nat)
    requires forall n: nat :: react1(n).stops == react2(n).stops
    ensures Loop(prompt, its, react1, calls) == Loop(prompt, its, react2, calls)
    decreases |its|
  {
    if |its| > 0 {
      LoopIgnoresThrows(prompt, its[1..], react1, react2, calls);
      LoopIgnoresThrows(prompt, its[1..], react1, react2, calls + 1);
    }
  }

  /** Exceptions thrown by handlers are swallowed: two sessions whose handler
      calls agree on calling `stop()` produce the same trace, however their
      throwing differs. */
  lemma ThrowingIsInvisible(reg: seq<Command>, prompt: Option<string>, lines: seq<string>,
                            react1: nat -> Reaction, react2: nat -> Reaction, calls: nat)
    requires AllLiteral(reg, lines)
    requires forall n: nat :: react1(n).stops == react2(n).stops
    ensures Run(reg, prompt, lines, react1, calls) == Run(reg, prompt, lines, react2, calls)
  {
    LoopIgnoresThrows(prompt, Classified(reg, lines), react1, react2, calls);
  }

  function CountPrompts(t: seq<Event>): nat {
    if |t| == 0 then 0 else (if t[0].Prompt? then 1 else 0) + CountPrompts(t[1..])
  }

  function CountDispatches(t: seq<Event>): nat {
    if |t| == 0 then 0 else (if t[0].Prompt? then 0 else 1) + CountDispatches(t[1..])
  }

  function CountNonBlank(lines: seq<string>): nat {
    if |lines| == 0 then 0 else (if IsBlank(lines[0]) then 0 else 1) + CountNonBlank(lines[1..])
  }

  function CountExecuted(its: seq<Iteration>): nat {
    if |its| == 0 then 0 else (if its[0].Executed? then 1 else 0) + CountExecuted(its[1..])
  }

  lemma {:induction false} CountsAdd(a: seq<Event>, b: seq<Event>)
    ensures CountPrompts(a + b) == CountPrompts(a) + CountPrompts(b)
    ensures CountDispatches(a + b) == CountDispatches(a) + CountDispatches(b)
    decreases |a|
  {
    if |a| > 0 {
      assert (a + b)[0] == a[0];
      assert (a + b)[1..] == a[1..] + b;
      CountsAdd(a[1..], b);
    } else {
      assert a + b == b;
    }
  }

  ghost predicate NeverStops(react: nat -> Reaction) {
    forall n: nat :: !react(n).stops
  }

  predicate NoSplitFailure(its: seq<Iteration>) {
    forall k | 0 <= k < |its| :: its[k] != Executed(SplitFailure)
  }

  lemma {:induction false} LoopCounts(prompt: Option<string>, its: seq<Iteration>, react: nat -> Reaction, calls: nat)
    requires NeverStops(react) && NoSplitFailure(its)
    ensures CountPrompts(Loop(prompt, its, react, calls)) == if prompt.Some? then |its| + 1 else 0
    ensures CountDispatches(Loop(prompt, its, react, calls)) == CountExecuted(its)
    decreases |its|
  {
    var p := Shown(prompt);
    assert CountPrompts(p) == (if prompt.Some? then 1 else 0);
    assert CountDispatches(p) == 0;
    if |its| > 0 {
      assert NoSplitFailure(its[1..]) by {
        forall k | 0 <= k < |its| - 1 ensures its[1..][k] != Executed(SplitFailure) {
          assert its[1..][k] == its[k + 1];
        }
      }
      assert its[0] != Executed(SplitFailure);
      match its[0]
      case Skipped =>
        LoopCounts(prompt, its[1..], react, calls);
        CountsAdd(p, Loop(prompt, its[1..], react, calls));
      case Executed(Unknown(w)) =>
        var e := [Out(UnknownMessage(w))];
        LoopCounts(prompt, its[1..], react, calls);
        CountsAdd(p, e);
        CountsAdd(p + e, Loop(prompt, its[1..], react, calls));
      case Executed(Invoke(i, a)) =>
        assert !react(calls).stops;
        var e := [Call(i, a)];
        LoopCounts(prompt, its[1..], react, calls + 1);
        CountsAdd(p, e);
        CountsAdd(p + e, Loop(prompt, its[1..], react, calls + 1));
    }
  }

  lemma {:induction false} ClassifiedCounts(reg: seq<Command>, lines: seq<string>)
    requires AllLiteral(reg, lines)
    ensures NoSplitFailure(Classified(reg, lines))
    ensures CountExecuted(Classified(reg, lines)) == CountNonBlank(lines)
    decreases |lines|
  {
    var its := Classified(reg, lines);
    forall k | 0 <= k < |lines| ensures its[k] != Executed(SplitFailure) {
      NoSplitFailureInLoop(reg, lines[k]);
    }
    if |lines| > 0 {
      ClassifiedTail(reg, lines);
      ClassifiedCounts(reg, lines[1..]);
    }
  }

  /** When no handler stops the session, the prompt is printed once per read,
      the final end-of-stream read included, and each non-blank line is
      dispatched exactly once (one output line or one handler call). */
  lemma RunCounts(reg: seq<Command>, prompt: Option<string>, lines: seq<string>,
                  react: nat -> Reaction, calls: nat)
    requires AllLiteral(reg, lines)
    requires NeverStops(react)
    ensures CountPrompts(Run(reg, prompt, lines, react, calls)) == if prompt.Some? then |lines| + 1 else 0
    ensures CountDispatches(Run(reg, prompt, lines, react, calls)) == CountNonBlank(lines)
  {
    ClassifiedCounts(reg, lines);
    LoopCounts(prompt, Classified(reg, lines), react, calls);
  }

  /** The command word of `w + t` is `w` when `w` is a registered word and
      `t` starts with `\s`. */
  lemma CommandWordOf(reg: seq<Command>, w: string, t: string, i: nat)
    requires Search(reg, w) == Some(i)
    requires |t| > 0 && IsRegexSpace(t[0])
    ensures FirstField(w + t) == w
  {
    IdentifierHasNoSpace(reg[i].word);
    var line := w + t;
    assert line[|w|] == t[0];
    assert forall k | 0 <= k < |w| :: line[k] == w[k];
    assert line[..|w|] == w;
  }

  /** A line `w + t` with a registered `w` and `t` starting with `\s` calls
      the first command with `w`, passing `t` with every `w` removed. */
  lemma KnownWordExecuted(reg: seq<Command>, w: string, t: string, i: nat)
    requires '$' !in w && Search(reg, w) == Some(i)
    requires |t| > 0 && IsRegexSpace(t[0])
    ensures FirstField(w + t) == w
    ensures Execute(reg, w + t) == Invoke(i, RemoveAll(t, w))
  {
    CommandWordOf(reg, w, t, i);
    RemoveAllLeading(w, t);
  }

  /** When the word appears only as the leading token (as in `greet world`),
      the handler receives the rest of the line, separator included. */
  lemma LeadingWordOnly(reg: seq<Command>, w: string, t: string, i: nat)
    requires '$' !in w && Search(reg, w) == Some(i)
    requires |t| > 0 && IsRegexSpace(t[0]) && !Occurs(t, w)
    ensures FirstField(w + t) == w
    ensures Execute(reg, w + t) == Invoke(i, t)
  {
    KnownWordExecuted(reg, w, t, i);
  }

  /** The removal is not limited to the leading token: for a registered `w`,
      the line `w w` (as in `echo echo`) passes just the separating space. */
  lemma RepeatedWordRemoved(reg: seq<Command>, w: string, i: nat)
    requires '$' !in w && Search(reg, w) == Some(i)
    ensures FirstField(w + " " + w) == w
    ensures Execute(reg, w + " " + w) == Invoke(i, " ")
  {
    var t := " " + w;
    assert w + " " + w == w + t;
    KnownWordExecuted(reg, w, t, i);
    IdentifierHasNoSpace(reg[i].word);
    SpaceThenWord(w);
  }

  lemma SpaceThenWord(w: string)
    requires |w| > 0 && w[0] != ' '
    ensures RemoveAll(" " + w, w) == " "
  {
    var t := " " + w;
    assert t[..|w|] != w by { assert t[0] != w[0]; }
    assert t[1..] == w + "";
    RemoveAllLeading(w, "");
  }

  /** A line holding only an unregistered word with no white space (as in
      `xyz`) prints exactly `Unknown command: <word>`, and the loop reads on
      to end of stream. */
  lemma UnknownWordReported(reg: seq<Command>, prompt: Option<string>, w: string, react: nat -> Reaction)
    requires Search(reg, w).None?
    requires |w| > 0 && forall k | 0 <= k < |w| :: !IsTrimSpace(w[k])
    ensures FirstField(w) == w
    ensures Run(reg, prompt, [w], react, 0) == Shown(prompt) + [Out(UnknownMessage(w))] + Shown(prompt)
  {
    PlainWord(w);
    UnknownSessionOf(reg, prompt, [w], react);
  }

  lemma UnknownSessionOf(reg: seq<Command>, prompt: Option<string>, lines: seq<string>, react: nat -> Reaction)
    requires |lines| == 1 && !IsBlank(lines[0]) && Search(reg, FirstField(lines[0])).None?
    ensures AllLiteral(reg, lines)
    ensures Run(reg, prompt, lines, react, 0)
            == Shown(prompt) + [Out(UnknownMessage(FirstField(lines[0])))] + Shown(prompt)
  {
    UnknownLineReported(reg, prompt, lines, react, 0);
    assert lines[1..] == [];
    RunAtEnd(reg, prompt, react, 0);
  }

  /** At end of stream the session prints the prompt of the last read. */
  lemma RunAtEnd(reg: seq<Command>, prompt: Option<string>, react: nat -> Reaction, calls: nat)
    ensures Run(reg, prompt, [], react, calls) == Shown(prompt)
  {
  }

  /** A word without white space is not blank and is its own command word. */
  lemma PlainWord(w: string)
    requires |w| > 0 && forall k | 0 <= k < |w| :: !IsTrimSpace(w[k])
    ensures !IsBlank(w) && FirstField(w) == w
  {
    assert !IsSpace(TrimSpace, w[0]);
    assert NoRegexSpace(w) by {
      forall k | 0 <= k < |w| ensures !IsRegexSpace(w[k]) {
        assert !IsTrimSpace(w[k]);
      }
    }
    FirstFieldWhole(w);
  }
}
