/** A command record: a validated command word, an optional description and
    the handler the interpreter calls for that word. */
module ReplCommand {
  import opened Wrappers
  import opened JavaString

  /** A reference to handler code the model does not see; only its identity
      matters here. */
  datatype Handler = Handler(id: nat)

  /** The fields of a command object. `ref` stands for the object's identity,
      which `List.remove(Object)` compares since commands do not override
      `equals`. */
  datatype Descriptor = Descriptor(ref: nat, word: string, description: Option<string>, handler: Handler)

  /** A constructed command: its word is always an identifier. */
  type Command = d: Descriptor | IsIdentifier(d.word) witness Descriptor(0, "_", None, Handler(0))

  /** Why construction failed: the word error carries the rejected word (null
      included); a missing handler is Java's NullPointerException. */
  datatype BuildError = InvalidCommandWord(word: Option<string>) | MissingHandler

  /** The first character class of `^[a-zA-Z_$][a-zA-Z_$0-9]*$`. */
  predicate IsWordStart(c: char) {
    ('a' <= c <= 'z') || ('A' <= c <= 'Z') || c == '_' || c == '$'
  }

  /** The repeated character class of `^[a-zA-Z_$][a-zA-Z_$0-9]*$`. */
  predicate IsWordPart(c: char) {
    IsWordStart(c) || ('0' <= c <= '9')
  }

  /** The strings the pattern `^[a-zA-Z_$][a-zA-Z_$0-9]*$` matches in full. */
  predicate IsIdentifier(w: string) {
    |w| > 0 && IsWordStart(w[0]) && forall i | 1 <= i < |w| :: IsWordPart(w[i])
  }

  /** The states of a matcher for the pattern: before the first character,
      inside the word, or failed. */
  datatype MatchState = Initial | Inside | Rejected

  function Next(st: MatchState, c: char): MatchState {
    match st
    case Initial => if IsWordStart(c) then Inside else Rejected
    case Inside => if IsWordPart(c) then Inside else Rejected
    case Rejected => Rejected
  }

  function Feed(st: MatchState, w: string): MatchState
    decreases |w|
  {
    if |w| == 0 then st else Feed(Next(st, w[0]), w[1..])
  }

  /** `validateCommandWord`: `String.matches` run as an automaton that accepts
      when it ends inside a word. */
  function ValidateCommandWord(w: string): bool {
    Feed(Initial, w) == Inside
  }

  lemma {:induction false} FeedRejected(w: string)
    ensures Feed(Rejected, w) == Rejected
    decreases |w|
  {
    if |w| > 0 { FeedRejected(w[1..]); }
  }

  lemma {:induction false} FeedInside(w: string)
    ensures Feed(Inside, w) == Inside <==> forall i | 0 <= i < |w| :: IsWordPart(w[i])
    decreases |w|
  {
    if |w| > 0 {
      FeedInside(w[1..]);
      if !IsWordPart(w[0]) {
        FeedRejected(w[1..]);
      } else {
        assert forall i | 1 <= i < |w| :: w[i] == w[1..][i - 1];
      }
    }
  }

  /** The automaton accepts exactly the identifiers of the pattern. */
  lemma {:induction false} ValidateCommandWordCorrect(w: string)
    ensures ValidateCommandWord(w) <==> IsIdentifier(w)
  {
    if |w| > 0 {
      if IsWordStart(w[0]) {
        FeedInside(w[1..]);
        assert forall i | 1 <= i < |w| :: w[i] == w[1..][i - 1];
      } else {
        FeedRejected(w[1..]);
      }
    }
  }

  /** The command constructor. The word is checked first (null, empty, or not
      an identifier), then the handler (null); the description is stored as
      given, null included. */
  function NewCommand(ref: nat, word: Option<string>, description: Option<string>, handler: Option<Handler>)
    : (r: Result<Command, BuildError>)
    ensures r.Success? <==> word.Some? && IsIdentifier(word.value) && handler.Some?
    ensures !(word.Some? && IsIdentifier(word.value)) ==> r == Failure(InvalidCommandWord(word))
    ensures word.Some? && IsIdentifier(word.value) && handler.None? ==> r == Failure(MissingHandler)
    ensures r.Success? ==>
              && r.value.ref == ref
              && r.value.word == word.value
              && r.value.description == description
              && r.value.handler == handler.value
  {
    if word.None? then Failure(InvalidCommandWord(word))
    else
      ValidateCommandWordCorrect(word.value);
      if |word.value| == 0 || !ValidateCommandWord(word.value) then Failure(InvalidCommandWord(word))
      else if handler.None? then Failure(MissingHandler)
      else Success(Descriptor(ref, word.value, description, handler.value))
  }

  /** The description is never checked: whether construction succeeds, and
      with which error it fails, does not depend on it. */
  lemma DescriptionUnchecked(ref: nat, word: Option<string>, d1: Option<string>, d2: Option<string>,
                             handler: Option<Handler>)
    ensures NewCommand(ref, word, d1, handler).Success? <==> NewCommand(ref, word, d2, handler).Success?
    ensures NewCommand(ref, word, d1, handler).Failure? ==>
              NewCommand(ref, word, d1, handler).error == NewCommand(ref, word, d2, handler).error
  {
  }

  /** The empty word, a word starting with a digit and a word holding any
      white space (in either Java sense) are all refused with the word error,
      whatever the handler. */
  lemma RejectedWords(ref: nat, w: string, description: Option<string>, handler: Option<Handler>)
    requires |w| == 0 || ('0' <= w[0] <= '9') || (exists i | 0 <= i < |w| :: IsTrimSpace(w[i]) || IsRegexSpace(w[i]))
    ensures NewCommand(ref, Some(w), description, handler) == Failure(InvalidCommandWord(Some(w)))
  {
  }

  /** An accepted word is non-empty and free of white space in both senses, so
      it never equals the empty command word of a line that starts with
      white space. */
  lemma {:induction false} IdentifierHasNoSpace(w: string)
    requires IsIdentifier(w)
    ensures w != []
    ensures forall i | 0 <= i < |w| :: !IsTrimSpace(w[i]) && !IsRegexSpace(w[i])
  {
    forall i | 0 <= i < |w| ensures !IsTrimSpace(w[i]) && !IsRegexSpace(w[i]) {
      assert IsWordPart(w[i]);
    }
  }
}
