# REPL command interpreter — a Dafny model

This project models the core of `ru.ancevt.util.repl`, a small line-command
interpreter. It has three parts:

- **Command records** (`ReplCommand`). A command holds a word, an optional
  description and a handler. The constructor checks the word against
  `^[a-zA-Z_$][a-zA-Z_$0-9]*$` first and the handler second.
- **The command registry** (`ReplInterpreter.commands`). It is an ordered list.
  `addCommand` appends; `searchCommand` returns the first command with a word;
  `removeCommand(word)` removes that first command only. Duplicate words are
  allowed, and the later one is shadowed by the earlier one.
- **Dispatch and the read loop** (`execute`, `start`).
  - The command word is `split("\\s+")[0]`.
  - An unknown word prints `Unknown command: <word>`.
  - A known word calls its handler with `replaceAll(word, "")` of the line.
  - The loop prints the prompt before every read and skips blank lines. It
    ends at end of stream, or after a handler calls `stop()`.

## Modules

- `Wrappers` (`wrappers.dfy`): `Option` and `Result`. Java's `null` is `None`,
  and a thrown construction exception is a `Failure`.
- `JavaString` (`java_string.dfy`): the `java.lang.String` behaviour the core
  relies on.
  - `\s` (U+0009 to U+000D and U+0020) and the white space `trim()` strips
    (everything up to U+0020) are separate predicates.
  - `Trim` models `trim()`.
  - `Split` models `split("\\s+")`. When the pattern never matches the result
    is the whole string; otherwise trailing empty strings are dropped.
  - `RemoveAll` models `replaceAll(w, "")` for a pattern without
    metacharacters: literal removal of non-overlapping occurrences, scanning
    left to right.
- `ReplCommand` (`repl_command.dfy`):
  - `Command` is a subset type of `Descriptor` whose word is an identifier.
    That is the constructor's invariant.
  - `NewCommand` is the constructor, returning a `Result`.
  - Object identity is a `ref` field. `List.remove(Object)` compares identity
    because commands do not override `equals`. A command built by
    `addCommand(word, ...)` is a new object, so its `ref` is one no listed
    command has.
- `Registry` (`registry.dfy`): the list as `seq<Command>`, with add, search and
  both removals.
- `Interpreter` (`interpreter.dfy`):
  - `Execute` gives what one line does: `Unknown`, `Invoke` or `SplitFailure`.
  - `Loop` and `Run` give the trace of a whole session as a recursive function
    over the lines still to be read.
  - `Start` is the `while (running)` loop as a method, proved equal to `Run`.
  - A session's input is a `seq<string>`; its end is end of stream. The
    output is a trace of events: `Prompt(p)`, `Out(line)` and
    `Call(index, args)`.
  - The handlers are outside the model. A function
    `react: nat -> Reaction` says, for the n-th handler call, whether that
    handler called `stop()` and whether it threw.

The code removes every occurrence of the command word from the line
(`replaceAll`), not only the first. The model follows the code: the handler
for `echo` receives `" "` for the line `echo echo`.

## Model

| member | source | states |
|---|---|---|
| `ReplCommand.NewCommand` | src/main/java/ru/ancevt/util/repl/ReplCommand.java:11-23 | Construction succeeds iff the word is non-null and an identifier and the handler is non-null. A bad word gives the word error (carrying the word) even when the handler is also null, so the word check comes first. A good word with a null handler gives the null-pointer error. On success the record holds exactly the arguments; the description is stored unchecked. |
| `ReplCommand.ValidateCommandWordCorrect` | src/main/java/ru/ancevt/util/repl/ReplCommand.java:25-27 | The left-to-right matcher for `^[a-zA-Z_$][a-zA-Z_$0-9]*$` accepts a string exactly when its first character is a letter, `_` or `$` and every later one is also allowed to be a digit. |
| `ReplCommand.RejectedWords` | src/main/java/ru/ancevt/util/repl/ReplCommand.java:11-27 | The empty word, a word starting with a digit, and a word containing any white space (in either the `\s` or the `trim()` sense) are refused with the word error, whatever the handler. |
| `ReplCommand.DescriptionUnchecked` | src/main/java/ru/ancevt/util/repl/ReplCommand.java:11-22 | Whether construction succeeds, and which error it fails with, does not depend on the description; null is accepted. |
| `ReplCommand.IdentifierHasNoSpace` | src/main/java/ru/ancevt/util/repl/ReplCommand.java:25-27 | An accepted word is non-empty and has no white space of either kind, so it never equals the empty command word of a line that starts with white space. |
| `Registry.Search` | src/main/java/ru/ancevt/util/repl/ReplInterpreter.java:176-183 | The result is None only when no command has the word. Otherwise it is the lowest index whose command has exactly that word. |
| `Registry.SearchFinds` | src/main/java/ru/ancevt/util/repl/ReplInterpreter.java:176-183 | A command with the word that has no earlier command with the same word is the one the search returns. |
| `Registry.Add` | src/main/java/ru/ancevt/util/repl/ReplInterpreter.java:45-47 | The list grows by one, the earlier entries keep their places, and the new command is last. |
| `Registry.AddCommand` | src/main/java/ru/ancevt/util/repl/ReplInterpreter.java:58-63 | The list changes iff construction succeeds; then the new record, a new object, is appended and nothing else changes. Otherwise the constructor's error is returned and no list is produced. |
| `Registry.AddCommandKeepsRefs` | src/main/java/ru/ancevt/util/repl/ReplInterpreter.java:58-63 | Because the appended command is a new object, a list in which equal references mean equal commands stays so. |
| `Registry.AddCommandWithoutDescription` | src/main/java/ru/ancevt/util/repl/ReplInterpreter.java:54-56 | Is the four-argument form with a null description; an added command has no description. |
| `Registry.SearchAfterAdd` | src/main/java/ru/ancevt/util/repl/ReplInterpreter.java:45-47 | After an append, the new word resolves to the new command only if no earlier command had it. Every other search result is unchanged. |
| `Registry.RemoveObject` | src/main/java/ru/ancevt/util/repl/ReplInterpreter.java:49-52 | Removing an absent object changes nothing. Removing a present one deletes its first occurrence: the length drops by one, entries before it stay, and entries after it move up one place in order. |
| `Registry.RemoveObjectKeepsRefs` | src/main/java/ru/ancevt/util/repl/ReplInterpreter.java:49-52 | Removing an object keeps equal references meaning equal commands. |
| `Registry.IndexOfIsFirstRef` | src/main/java/ru/ancevt/util/repl/ReplInterpreter.java:49-52 | In such a list, the entry `List.remove(Object)` deletes is the first one that is the same object as the argument. |
| `Registry.RemoveCommand` | src/main/java/ru/ancevt/util/repl/ReplInterpreter.java:65-72 | An absent word changes nothing. Otherwise only the first command with the word is deleted, and the order of the rest is kept. |
| `Registry.RemoveUndoesAdd` | src/main/java/ru/ancevt/util/repl/ReplInterpreter.java:65-72 | Adding a command with a new word and removing that word gives back the original list, where the word no longer resolves. |
| `Registry.RemoveLastOfWord` | src/main/java/ru/ancevt/util/repl/ReplInterpreter.java:65-72 | When no command after the first one with the word has it, the word no longer resolves after removal by word. |
| `Registry.RemoveRevealsNext` | src/main/java/ru/ancevt/util/repl/ReplInterpreter.java:65-72 | When a later command has the word, after removal by word the word resolves to that next command, now one place nearer the front. |
| `Registry.DuplicateShadowing` | src/main/java/ru/ancevt/util/repl/ReplInterpreter.java:65-72 | Take two commands with the same word and no other command with it before the second. Search finds the earlier one; after removal by word, search finds the later one. |
| `Registry.RemoveKeepsOtherWords` | src/main/java/ru/ancevt/util/repl/ReplInterpreter.java:65-72 | Removing by one word does not change whether any other word resolves, nor which command it resolves to. |
| `JavaString.Trim` | src/main/java/ru/ancevt/util/repl/ReplInterpreter.java:128-130 | `trim()` gives an empty result exactly when every character is at most U+0020. A non-empty result starts and ends with a character above U+0020. |
| `JavaString.SplitHead` | src/main/java/ru/ancevt/util/repl/ReplInterpreter.java:157-158 | `split("\\s+")` is empty exactly for a non-empty line made only of `\s`, where `[0]` throws. Otherwise its first element is the text before the first `\s`, which is empty for a line that starts with `\s`. |
| `JavaString.RemoveAll` | src/main/java/ru/ancevt/util/repl/ReplInterpreter.java:165 | A line in which the word does not occur is returned unchanged. When it occurs, at least one copy is removed, so the result is at least the word's length shorter. |
| `JavaString.RemoveAllLeading` | src/main/java/ru/ancevt/util/repl/ReplInterpreter.java:165 | A leading occurrence of the word is removed and the rest of the line is treated on its own. |
| `JavaString.RemoveAllAfterPrefix` | src/main/java/ru/ancevt/util/repl/ReplInterpreter.java:165 | In a line `a + w + b` where no copy of `w` starts inside `a`, the text `a` is kept, that copy of `w` is deleted, and `b` is scanned on its own. |
| `Interpreter.Execute` | src/main/java/ru/ancevt/util/repl/ReplInterpreter.java:153-174 | `execute` fails inside `split(...)[0]` exactly for a non-empty all-`\s` line. Otherwise, when no command has the command word, it reports that word. When one does, it calls the first such command with the line minus every occurrence of the word. |
| `Interpreter.WhitespaceLedLineIsUnknown` | src/main/java/ru/ancevt/util/repl/ReplInterpreter.java:157-162 | A line that starts with `\s` but is not all `\s` has the empty command word and is always reported unknown. |
| `Interpreter.UnknownWordReported` | src/main/java/ru/ancevt/util/repl/ReplInterpreter.java:157-162 | A session whose one line is an unregistered word prints the prompt, exactly `Unknown command: <word>`, then the prompt of the end-of-stream read, and calls no handler. |
| `Interpreter.KnownWordExecuted` | src/main/java/ru/ancevt/util/repl/ReplInterpreter.java:157-169 | For a registered word `w` and text `t` that starts with `\s`, the command word of `w + t` is `w`, and `execute` calls `w`'s first command with `t` minus every copy of `w`. |
| `Interpreter.LeadingWordOnly` | src/main/java/ru/ancevt/util/repl/ReplInterpreter.java:157-169 | A registered word followed by text that starts with `\s` and does not contain the word calls that word's first command with exactly that text. |
| `Interpreter.RepeatedWordRemoved` | src/main/java/ru/ancevt/util/repl/ReplInterpreter.java:165 | For a registered word `w`, the line `w w` calls the handler with a single space: every occurrence is removed, not only the leading token. |
| `Interpreter.NoSplitFailureInLoop` | src/main/java/ru/ancevt/util/repl/ReplInterpreter.java:128-132 | Every `\s` character is stripped by `trim()`, so a line that passes the blank-line test never makes `split(...)[0]` throw. |
| `Interpreter.BlankLineSkipped` | src/main/java/ru/ancevt/util/repl/ReplInterpreter.java:120-130 | A line whose `trim()` is empty adds only the prompt of its read to the trace, and the session goes on with the next line. |
| `Interpreter.UnknownSessionOf` | src/main/java/ru/ancevt/util/repl/ReplInterpreter.java:118-133 | A session of one non-blank line with an unregistered command word prints the prompt, `Unknown command: <word>`, and the prompt of the end-of-stream read. |
| `Interpreter.UnknownLineReported` | src/main/java/ru/ancevt/util/repl/ReplInterpreter.java:160-162 | A non-blank line with an unregistered word adds the prompt and exactly one output line, `Unknown command: <word>`, and the session goes on. |
| `Interpreter.KnownLineCalled` | src/main/java/ru/ancevt/util/repl/ReplInterpreter.java:163-172 | A non-blank line with a registered word adds the prompt and one call of the first matching command, with the line minus the word. The session goes on unless that handler called `stop()`. |
| `Interpreter.ThrowingIsInvisible` | src/main/java/ru/ancevt/util/repl/ReplInterpreter.java:168-172 | Handler exceptions are swallowed: two sessions whose handlers agree on calling `stop()` give the same trace, however their throwing differs. |
| `Interpreter.RunCounts` | src/main/java/ru/ancevt/util/repl/ReplInterpreter.java:118-133 | When no handler stops the session, the prompt is printed once per read (lines plus the end-of-stream read, none when the prompt is null). Each non-blank line is dispatched exactly once. |
| `Interpreter.Iterate` | src/main/java/ru/ancevt/util/repl/ReplInterpreter.java:120-132 | One pass of the loop body: the events of the pass followed by the rest of the session equal the whole remaining session. `running` becomes false exactly when the called handler calls `stop()`. |
| `Interpreter.Start` | src/main/java/ru/ancevt/util/repl/ReplInterpreter.java:118-133 | The imperative `while (running)` loop with its `break` at end of stream produces exactly the trace the recursive session definition gives. |

## Left out

- Stream plumbing: the `InputStream`, `BufferedReader` and `PrintStream` objects, `getPrintStream`'s wait for a stream, and the `System.in`/`System.out` checks and `close()` calls in `stop`. Input is a sequence of lines and output is a trace. Of `stop` only `running = false` is modelled, as a handler outcome that ends the loop after the current line. A `close()` that throws before `running` is cleared is not modelled.
- The catch-all around the loop that prints a stack trace. The only exception the model knows to escape `execute` is the all-`\s` line, and the model proves the loop never passes one to `execute`.
- The `Args` tokenizer (`ru.ancevt.util.args`) is not part of this model. Handlers receive the raw argument string, and the `Args` constructor is taken not to throw.
- Handlers are outside the model. Their effects on the interpreter (adding or removing commands, changing the prompt, printing) are not modelled: the registry and the prompt are fixed for a session.
- `formattedCommandListTable` (TextTable), `ReplCommand.toString`, and every `Log.repl.info` call: formatting and logging only.
- `main`, `scanString` and `scanArgs`: one-shot console reads that wrap `Args`.
- The getters and `setPrompt`/`getPrompt`: plain field access. The record's fields are the getters, and the prompt is a parameter.
- Interpreter.Execute: a line whose command word is registered and contains `$` is excluded by the `LiteralWord` precondition (`AllLiteral` for a whole session). For such a word `replaceAll` reads `$` as an end-of-input anchor rather than as literal text. Registered `$` words are allowed, and so are lines whose `$` word is unknown, since those never reach `replaceAll`.
- Interpreter.ThrowingIsInvisible: only handler exceptions of type `Exception` are modelled, and `execute` catches those. An `Error` thrown by a handler escapes both `catch (Exception)` blocks (lines 135 and 170 of `ReplInterpreter.java`) and ends `start`; `Reaction` has no outcome for it.
- `addCommand((ReplCommand) null)` and `removeCommand((ReplCommand) null)`: the list would hold a null that a later search dereferences, and removal throws when it logs. The model's commands are never null.
- Characters are Unicode scalar values. UTF-16 surrogate pairs are not distinguished, and none of the predicates involved treats them specially.
