/** The interpreter's command list: an ordered sequence in which new commands
    go to the end, look-up takes the first command with the word, and removal
    by word deletes only that first command. Duplicate words are allowed; a
    later duplicate is shadowed by the earlier one. */
module Registry {
  import opened Wrappers
  import opened ReplCommand

  /** The two ways the list is searched: by command word (`searchCommand`,
      `removeCommand(String)`) and by object (`List.remove(Object)`). */
  datatype Key = ByWord(word: string) | ByObject(command: Command)

  predicate Matches(k: Key, c: Command) {
    match k
    case ByWord(w) => c.word == w
    case ByObject(d) => c == d
  }

  /** The index of the first command the key matches, if any. */
  function FirstMatch(reg: seq<Command>, k: Key): (r: Option<nat>)
    ensures r.None? ==> forall j | 0 <= j < |reg| :: !Matches(k, reg[j])
    ensures r.Some? ==> r.value < |reg| && Matches(k, reg[r.value])
    ensures r.Some? ==> forall j | 0 <= j < r.value :: !Matches(k, reg[j])
  {
    if |reg| == 0 then None
    else if Matches(k, reg[0]) then Some(0)
    else match FirstMatch(reg[1..], k)
      case None => None
      case Some(n) => Some(n + 1)
  }

  /** `searchCommand`: the position of the first command whose word equals
      `w`, or None when no command has that word. */
  function Search(reg: seq<Command>, w: string): (r: Option<nat>)
    ensures r.None? ==> forall j | 0 <= j < |reg| :: reg[j].word != w
    ensures r.Some? ==> r.value < |reg| && reg[r.value].word == w
    ensures r.Some? ==> forall j | 0 <= j < r.value :: reg[j].word != w
  {
    FirstMatch(reg, ByWord(w))
  }

  /** The position of the first occurrence of a command object in the list. */
  function IndexOf(reg: seq<Command>, c: Command): (i: nat)
    requires c in reg
    ensures i < |reg| && reg[i] == c
    ensures forall j | 0 <= j < i :: reg[j] != c
  {
    FirstMatch(reg, ByObject(c)).value
  }

  /** `addCommand(ReplCommand)`: the command goes to the end and the earlier
      entries keep their places. */
  function Add(reg: seq<Command>, c: Command): (r: seq<Command>)
    ensures |r| == |reg| + 1
    ensures r[..|reg|] == reg && r[|reg|] == c
  {
    reg + [c]
  }

  /** `ref` is new to the list: no listed command is that object. */
  predicate FreshRef(reg: seq<Command>, ref: nat) {
    forall j | 0 <= j < |reg| :: reg[j].ref != ref
  }

  /** Equal references mean the same object, so equal fields. */
  predicate ConsistentRefs(reg: seq<Command>) {
    forall i, j | 0 <= i < |reg| && 0 <= j < |reg| && reg[i].ref == reg[j].ref :: reg[i] == reg[j]
  }

  /** `addCommand(word, description, function)`: builds the command and
      appends it; when construction throws, the list is left as it was and
      the error is returned. The object is made by `new`, so `ref` is fresh. */
  function AddCommand(reg: seq<Command>, ref: nat, word: Option<string>, description: Option<string>,
                      handler: Option<Handler>): (r: Result<seq<Command>, BuildError>)
    requires FreshRef(reg, ref)
    ensures r.Success? <==> word.Some? && IsIdentifier(word.value) && handler.Some?
    ensures r.Failure? ==> r.error == NewCommand(ref, word, description, handler).error
    ensures r.Success? ==>
              && |r.value| == |reg| + 1
              && r.value[..|reg|] == reg
              && r.value[|reg|] == Descriptor(ref, word.value, description, handler.value)
  {
    match NewCommand(ref, word, description, handler)
    case Failure(e) => Failure(e)
    case Success(c) => Success(Add(reg, c))
  }

  /** `addCommand(word, function)`: the three-argument form with a null
      description. */
  function AddCommandWithoutDescription(reg: seq<Command>, ref: nat, word: Option<string>,
                                        handler: Option<Handler>): (r: Result<seq<Command>, BuildError>)
    requires FreshRef(reg, ref)
    ensures r == AddCommand(reg, ref, word, None, handler)
    ensures r.Success? ==> r.value[|reg|].description == None
  {
    AddCommand(reg, ref, word, None, handler)
  }

  /** `removeCommand(ReplCommand)`, i.e. `List.remove(Object)`: scans from the
      front and deletes the first occurrence of the object; the list is
      unchanged when the object is absent. */
  function RemoveObject(reg: seq<Command>, c: Command): (r: seq<Command>)
    ensures c !in reg ==> r == reg
    ensures c in reg ==> |r| == |reg| - 1
    ensures c in reg ==> forall j | 0 <= j < IndexOf(reg, c) :: r[j] == reg[j]
    ensures c in reg ==> forall j | IndexOf(reg, c) <= j < |r| :: r[j] == reg[j + 1]
  {
    if c in reg then
      var i := IndexOf(reg, c);
      reg[..i] + reg[i + 1..]
    else reg
  }

  /** `removeCommand(String)`: finds the first command with the word and
      removes that object. Only the first match goes; everything before it
      and the order of everything after it are kept; an absent word changes
      nothing. */
  function RemoveCommand(reg: seq<Command>, w: string): (r: seq<Command>)
    ensures Search(reg, w).None? ==> r == reg
    ensures Search(reg, w).Some? ==> |r| == |reg| - 1
    ensures Search(reg, w).Some? ==> forall j | 0 <= j < Search(reg, w).value :: r[j] == reg[j]
    ensures Search(reg, w).Some? ==> forall j | Search(reg, w).value <= j < |r| :: r[j] == reg[j + 1]
  {
    match Search(reg, w)
    case None => reg
    case Some(i) =>
      assert IndexOf(reg, reg[i]) == i by {
        var k := IndexOf(reg, reg[i]);
        assert reg[k].word == w;
      }
      RemoveObject(reg, reg[i])
  }

  /** After appending `c`, its word resolves to `c` unless an earlier command
      already has that word; every other word resolves as before. */
  lemma SearchAfterAdd(reg: seq<Command>, c: Command, w: string)
    ensures Search(Add(reg, c), w) ==
            if w == c.word && Search(reg, w).None? then Some(|reg|) else Search(reg, w)
  {
    var r := Add(reg, c);
    assert forall j | 0 <= j < |reg| :: r[j] == reg[j];
  }

  /** Registering a new word and removing it again gives back the original
      list, in which the word no longer resolves. */
  lemma RemoveUndoesAdd(reg: seq<Command>, c: Command)
    requires Search(reg, c.word).None?
    ensures RemoveCommand(Add(reg, c), c.word) == reg
    ensures Search(RemoveCommand(Add(reg, c), c.word), c.word).None?
  {
    SearchAfterAdd(reg, c, c.word);
    var r := RemoveCommand(Add(reg, c), c.word);
    assert forall j | 0 <= j < |reg| :: r[j] == reg[j];
  }

  /** The first-match property pins down the result of `Search`. */
  lemma SearchFinds(reg: seq<Command>, w: string, i: nat)
    requires i < |reg| && reg[i].word == w
    requires forall j | 0 <= j < i :: reg[j].word != w
    ensures Search(reg, w) == Some(i)
  {
    var r := Search(reg, w);
    assert r.Some?;
    assert !(r.value < i) && !(r.value > i);
  }

  /** A word no command has is not found. */
  lemma SearchMisses(reg: seq<Command>, w: string)
    requires forall j | 0 <= j < |reg| :: reg[j].word != w
    ensures Search(reg, w) == None
  {
  }

  /** Shadowing, first case: when no command after the first one with `w`
      (at `i`) has that word, after removal by word nothing has it. */
  lemma RemoveLastOfWord(reg: seq<Command>, w: string, i: nat)
    requires Search(reg, w) == Some(i) && Search(reg[i + 1..], w) == None
    ensures Search(RemoveCommand(reg, w), w) == None
  {
    var r := RemoveCommand(reg, w);
    var tail := reg[i + 1..];
    forall j | 0 <= j < |r| ensures r[j].word != w {
      if j >= i {
        assert r[j] == tail[j - i];
      }
    }
    SearchMisses(r, w);
  }

  /** Shadowing, second case: when the next command with `w` sits `k + 1`
      places after the first (at `i`), removal by word brings it to `i + k`
      and search finds it there. */
  lemma RemoveRevealsNext(reg: seq<Command>, w: string, i: nat, k: nat)
    requires Search(reg, w) == Some(i) && Search(reg[i + 1..], w) == Some(k)
    ensures Search(RemoveCommand(reg, w), w) == Some(i + k)
  {
    var r := RemoveCommand(reg, w);
    var tail := reg[i + 1..];
    assert r[i + k] == tail[k];
    forall j | 0 <= j < i + k ensures r[j].word != w {
      if j >= i {
        assert r[j] == tail[j - i];
      }
    }
    SearchFinds(r, w, i + k);
  }

  /** Two commands with the same word, at `i` and then `k`: the earlier one
      is found; after removal by word the later one, now one place nearer the
      front, is found. */
  lemma DuplicateShadowing(reg: seq<Command>, w: string, i: nat, k: nat)
    requires i < k < |reg| && reg[i].word == w && reg[k].word == w
    requires forall j | 0 <= j < k && j != i :: reg[j].word != w
    ensures Search(reg, w) == Some(i)
    ensures Search(RemoveCommand(reg, w), w) == Some(k - 1)
  {
    SearchFinds(reg, w, i);
    var r := RemoveCommand(reg, w);
    assert r[k - 1] == reg[k];
    forall j | 0 <= j < k - 1 ensures r[j].word != w {
      if j >= i {
        assert r[j] == reg[j + 1];
      }
    }
    SearchFinds(r, w, k - 1);
  }

  /** Removing the first command with `w` leaves the command any other word
      resolves to untouched. */
  lemma {:induction false} RemoveKeepsOtherWords(reg: seq<Command>, w: string, v: string)
    requires v != w
    ensures Search(RemoveCommand(reg, w), v).Some? <==> Search(reg, v).Some?
    ensures Search(reg, v).Some? ==>
              RemoveCommand(reg, w)[Search(RemoveCommand(reg, w), v).value] == reg[Search(reg, v).value]
  {
    var r := RemoveCommand(reg, w);
    match Search(reg, w)
    case None =>
    case Some(i) =>
      match Search(reg, v)
      case None =>
        forall j | 0 <= j < |r| ensures r[j].word != v {
          if j >= i { assert r[j] == reg[j + 1]; }
        }
        SearchMisses(r, v);
      case Some(m) =>
        assert m != i;
        if m < i {
          SearchFinds(r, v, m);
        } else {
          assert r[m - 1] == reg[m];
          assert forall j | 0 <= j < m - 1 :: r[j].word != v by {
            forall j | 0 <= j < m - 1 ensures r[j].word != v {
              if j >= i { assert r[j] == reg[j + 1]; }
            }
          }
          SearchFinds(r, v, m - 1);
        }
  }

  /** A command built by `addCommand(word, ...)` is a new object: a list in
      which equal references mean equal commands stays so. */
  lemma AddCommandKeepsRefs(reg: seq<Command>, ref: nat, word: Option<string>, description: Option<string>,
                            handler: Option<Handler>)
    requires FreshRef(reg, ref) && ConsistentRefs(reg)
    ensures AddCommand(reg, ref, word, description, handler).Success? ==>
              ConsistentRefs(AddCommand(reg, ref, word, description, handler).value)
  {
    var r := AddCommand(reg, ref, word, description, handler);
    if r.Success? {
      var l := r.value;
      forall i, j | 0 <= i < |l| && 0 <= j < |l| && l[i].ref == l[j].ref ensures l[i] == l[j] {
        if i < |reg| { assert l[i] == reg[i]; }
        if j < |reg| { assert l[j] == reg[j]; }
      }
    }
  }

  /** Removing an object keeps equal references meaning equal commands. */
  lemma RemoveObjectKeepsRefs(reg: seq<Command>, c: Command)
    requires ConsistentRefs(reg)
    ensures ConsistentRefs(RemoveObject(reg, c))
  {
    var l := RemoveObject(reg, c);
    if c in reg {
      var k := IndexOf(reg, c);
      forall i, j | 0 <= i < |l| && 0 <= j < |l| && l[i].ref == l[j].ref ensures l[i] == l[j] {
        var i', j' := if i < k then i else i + 1, if j < k then j else j + 1;
        assert l[i] == reg[i'] && l[j] == reg[j'];
      }
    }
  }

  /** In such a list, `List.remove(Object)` deletes the first command that is
      the same object, whatever the fields of other commands. */
  lemma IndexOfIsFirstRef(reg: seq<Command>, c: Command)
    requires ConsistentRefs(reg) && c in reg
    ensures reg[IndexOf(reg, c)].ref == c.ref
    ensures forall j | 0 <= j < IndexOf(reg, c) :: reg[j].ref != c.ref
  {
    var k := IndexOf(reg, c);
    forall j | 0 <= j < k ensures reg[j].ref != c.ref {
      assert reg[j] != reg[k];
    }
  }
}
