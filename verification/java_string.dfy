/** The parts of `java.lang.String` the interpreter depends on: the regular
    expression class `\s`, `trim()`, `split("\\s+")` and `replaceAll(word, "")`
    for a word without regular-expression metacharacters. Strings are
    sequences of `char`. */
module JavaString {

  /** Java's `\s` without UNICODE_CHARACTER_CLASS: space (U+0020), and tab,
      line feed, vertical tab, form feed and carriage return (U+0009 to
      U+000D). */
  predicate IsRegexSpace(c: char) {
    c as int == 0x20 || 0x09 <= c as int <= 0x0D
  }

  /** What `String.trim()` strips: every character up to U+0020. */
  predicate IsTrimSpace(c: char) {
    c as int <= 0x20
  }

  /** The two notions of white space the interpreter uses. */
  datatype Space = RegexSpace | TrimSpace

  predicate IsSpace(k: Space, c: char) {
    match k
    case RegexSpace => IsRegexSpace(c)
    case TrimSpace => IsTrimSpace(c)
  }

  predicate All(s: string, k: Space) {
    forall i | 0 <= i < |s| :: IsSpace(k, s[i])
  }

  /** Every `\s` character is one `trim()` strips. */
  lemma RegexSpaceIsTrimSpace(s: string)
    ensures All(s, RegexSpace) ==> All(s, TrimSpace)
  {
  }

  predicate NoRegexSpace(s: string) {
    forall i | 0 <= i < |s| :: !IsRegexSpace(s[i])
  }

  /** `s` with its longest prefix of characters of kind `k` removed. */
  function DropLeading(s: string, k: Space): (r: string)
    ensures |r| <= |s| && r == s[|s| - |r|..]
    ensures forall i | 0 <= i < |s| - |r| :: IsSpace(k, s[i])
    ensures r == [] || !IsSpace(k, r[0])
    decreases |s|
  {
    if |s| > 0 && IsSpace(k, s[0]) then DropLeading(s[1..], k) else s
  }

  /** `s` with its longest suffix of characters of kind `k` removed. */
  function DropTrailing(s: string, k: Space): (r: string)
    ensures |r| <= |s| && r == s[..|r|]
    ensures forall i | |r| <= i < |s| :: IsSpace(k, s[i])
    ensures r == [] || !IsSpace(k, r[|r| - 1])
    decreases |s|
  {
    if |s| > 0 && IsSpace(k, s[|s| - 1]) then DropTrailing(s[..|s| - 1], k) else s
  }

  /** `String.trim()`: `s` without its leading and trailing characters up to
      U+0020. */
  function Trim(s: string): (r: string)
    ensures |r| <= |s|
    ensures |r| == 0 <==> All(s, TrimSpace)
    ensures r != [] ==> !IsTrimSpace(r[0]) && !IsTrimSpace(r[|r| - 1])
  {
    var t := DropLeading(s, TrimSpace);
    var r := DropTrailing(t, TrimSpace);
    TrimEmpty(s, t, r);
    r
  }

  /** Both strips leave nothing exactly when every character is stripped. */
  lemma TrimEmpty(s: string, t: string, r: string)
    requires t == DropLeading(s, TrimSpace) && r == DropTrailing(t, TrimSpace)
    ensures |r| == 0 <==> All(s, TrimSpace)
  {
    if |r| == 0 {
      assert t == [];
    } else {
      assert r[0] == t[0];
      assert s[|s| - |t|] == t[0];
    }
  }

  /** Past a prefix of white space, the rest decides whether all of `s` is. */
  lemma AllAfterPrefix(s: string, n: nat, k: Space)
    requires n <= |s| && forall i | 0 <= i < n :: IsSpace(k, s[i])
    ensures All(s, k) <==> All(s[n..], k)
  {
    if All(s[n..], k) {
      forall i | n <= i < |s| ensures IsSpace(k, s[i]) {
        assert s[i] == s[n..][i - n];
      }
    }
  }

  /** The first field of a split on `\s+`: the longest prefix without `\s`. */
  function FirstField(s: string): (f: string)
    ensures |f| <= |s| && f == s[..|f|]
    ensures NoRegexSpace(f)
    ensures |f| < |s| ==> IsRegexSpace(s[|f|])
    decreases |s|
  {
    if |s| == 0 || IsRegexSpace(s[0]) then [] else [s[0]] + FirstField(s[1..])
  }

  /** A string without `\s` is its own first field. */
  lemma FirstFieldWhole(s: string)
    requires NoRegexSpace(s)
    ensures FirstField(s) == s
  {
    assert s[..|s|] == s;
  }

  /** The fields `split("\\s+")` cuts `s` into before it discards trailing empty
      strings: the text before the first `\s` run, then the fields of what
      follows that run. A leading `\s` run yields a leading empty field; a
      trailing one yields a trailing empty field. */
  function Fields(s: string): (fs: seq<string>)
    ensures |fs| > 0
    decreases |s|
  {
    var f := FirstField(s);
    if |f| == |s| then [f]
    else
      [f] + Fields(DropLeading(s[|f|..], RegexSpace))
  }

  predicate AllEmpty(fs: seq<string>) {
    forall i | 0 <= i < |fs| :: fs[i] == []
  }

  /** Discards the trailing empty strings of a split result (limit 0). */
  function DropTrailingEmpty(fs: seq<string>): (r: seq<string>)
    ensures |r| <= |fs| && r == fs[..|r|]
    ensures forall i | |r| <= i < |fs| :: fs[i] == []
    ensures r == [] || r[|r| - 1] != []
    decreases |fs|
  {
    if |fs| > 0 && fs[|fs| - 1] == [] then DropTrailingEmpty(fs[..|fs| - 1]) else fs
  }

  /** `s.split("\\s+")`: when the pattern never matches the result is `[s]`
      itself; otherwise the fields without their trailing empty strings. */
  function Split(s: string): seq<string> {
    if NoRegexSpace(s) then [s] else DropTrailingEmpty(Fields(s))
  }

  lemma {:induction false} FieldsHead(s: string)
    ensures Fields(s)[0] == FirstField(s)
  {
  }

  lemma AllEmptyPastHead(f: string, fs: seq<string>)
    requires f == []
    ensures AllEmpty([f] + fs) <==> AllEmpty(fs)
  {
    if AllEmpty(fs) {
      forall i | 0 <= i < 1 + |fs| ensures ([f] + fs)[i] == [] {
        if i > 0 { assert ([f] + fs)[i] == fs[i - 1]; }
      }
    } else {
      var i :| 0 <= i < |fs| && fs[i] != [];
      assert ([f] + fs)[i + 1] == fs[i];
    }
  }

  /** Every field is empty exactly when the whole string is `\s`. */
  lemma {:induction false} FieldsAllEmpty(s: string)
    ensures AllEmpty(Fields(s)) <==> All(s, RegexSpace)
    decreases |s|
  {
    var f := FirstField(s);
    if |f| == |s| {
      assert f == s;
      assert Fields(s) == [s];
      if |s| > 0 {
        assert !IsSpace(RegexSpace, s[0]);
        assert Fields(s)[0] != [];
      }
    } else if f == [] {
      var rest := DropLeading(s, RegexSpace);
      assert Fields(s) == [f] + Fields(rest);
      FieldsAllEmpty(rest);
      AllAfterPrefix(s, |s| - |rest|, RegexSpace);
      AllEmptyPastHead(f, Fields(rest));
    } else {
      assert Fields(s)[0] == f;
      assert s[0] == f[0];
    }
  }

  /** The split result is empty exactly for a non-empty all-`\s` line (where
      `split("\\s+")[0]` throws); otherwise its first element is the text
      before the first `\s`, which is empty when the line starts with `\s`. */
  lemma SplitHead(s: string)
    ensures |Split(s)| == 0 <==> |s| > 0 && All(s, RegexSpace)
    ensures |Split(s)| > 0 ==> Split(s)[0] == FirstField(s)
  {
    if NoRegexSpace(s) {
      if |s| > 0 { assert !IsRegexSpace(s[0]); }
      assert FirstField(s) == s;
    } else {
      var fs := Fields(s);
      var r := DropTrailingEmpty(fs);
      FieldsAllEmpty(s);
      FieldsHead(s);
      if |r| != 0 {
        assert r[0] == fs[0];
        assert !AllEmpty(fs) by { assert fs[|r| - 1] == r[|r| - 1]; }
      }
      var i :| 0 <= i < |s| && IsRegexSpace(s[i]);
    }
  }

  predicate OccursAt(s: string, w: string, i: int)
    requires 0 <= i <= |s| - |w|
  {
    s[i..i + |w|] == w
  }

  /** `w` occurs somewhere in `s`. */
  predicate Occurs(s: string, w: string) {
    exists i | 0 <= i <= |s| - |w| :: OccursAt(s, w, i)
  }

  /** `s.replaceAll(w, "")` for a pattern `w` that matches only itself: scanning
      left to right, every non-overlapping occurrence of `w` is deleted. A
      string without `w` is left as it is; otherwise at least one copy goes. */
  function RemoveAll(s: string, w: string): (r: string)
    requires |w| > 0
    ensures |r| <= |s|
    ensures !Occurs(s, w) ==> r == s
    ensures Occurs(s, w) ==> |r| <= |s| - |w|
    decreases |s|
  {
    if |s| < |w| then s
    else if s[..|w|] == w then
      assert OccursAt(s, w, 0);
      RemoveAll(s[|w|..], w)
    else
      OccursPastHead(s, w);
      [s[0]] + RemoveAll(s[1..], w)
  }

  /** A copy of `w` one place further into `s` is a copy in `s[1..]`. */
  lemma OccursAtShift(s: string, w: string, i: nat)
    requires i <= |s| - 1 - |w|
    ensures OccursAt(s, w, i + 1) <==> OccursAt(s[1..], w, i)
  {
    assert s[1..][i..i + |w|] == s[i + 1..i + 1 + |w|];
  }

  /** Without a copy at the front, `w` occurs in `s` exactly when it occurs
      past the first character. */
  lemma OccursPastHead(s: string, w: string)
    requires 0 < |w| <= |s| && s[..|w|] != w
    ensures Occurs(s, w) <==> Occurs(s[1..], w)
  {
    if Occurs(s[1..], w) {
      var i :| 0 <= i <= |s| - 1 - |w| && OccursAt(s[1..], w, i);
      OccursAtShift(s, w, i);
    }
    if Occurs(s, w) {
      var i :| 0 <= i <= |s| - |w| && OccursAt(s, w, i);
      assert i != 0;
      OccursAtShift(s, w, i - 1);
    }
  }

  /** A leading occurrence of the word is removed, and the rest is treated as
      if it stood alone. */
  lemma RemoveAllLeading(w: string, t: string)
    requires |w| > 0
    ensures RemoveAll(w + t, w) == RemoveAll(t, w)
  {
    assert (w + t)[..|w|] == w;
    assert (w + t)[|w|..] == t;
  }

  /** Without a copy at the front, the first character is kept. */
  lemma RemoveAllPastHead(s: string, w: string)
    requires 0 < |w| <= |s| && !OccursAt(s, w, 0)
    ensures RemoveAll(s, w) == [s[0]] + RemoveAll(s[1..], w)
  {
    assert s[..|w|] == s[0..|w|];
  }

  lemma ConcatAssoc(x: string, y: string, z: string)
    ensures x + (y + z) == (x + y) + z
  {
  }

  lemma PrefixStep(a: string, w: string, b: string)
    requires |a| > 0 && |w| > 0 && !OccursAt(a + w + b, w, 0)
    requires RemoveAll(a[1..] + w + b, w) == a[1..] + RemoveAll(b, w)
    ensures RemoveAll(a + w + b, w) == a + RemoveAll(b, w)
  {
    var s := a + w + b;
    assert s[1..] == a[1..] + w + b;
    RemoveAllPastHead(s, w);
    assert a == [a[0]] + a[1..];
    ConcatAssoc([a[0]], a[1..], RemoveAll(b, w));
  }

  lemma PrefixShift(a: string, w: string, b: string)
    requires |a| > 0
    requires forall i | 0 <= i < |a| :: !OccursAt(a + w + b, w, i)
    ensures forall i | 0 <= i < |a| - 1 :: !OccursAt(a[1..] + w + b, w, i)
  {
    var s := a + w + b;
    assert s[1..] == a[1..] + w + b;
    forall i | 0 <= i < |a| - 1 ensures !OccursAt(a[1..] + w + b, w, i) {
      OccursAtShift(s, w, i);
    }
  }

  /** For a line `a + w + b` in which no copy of `w` starts inside `a`: `a`
      is kept, that copy of `w` goes, and `b` is scanned on its own. */
  lemma {:induction false} RemoveAllAfterPrefix(a: string, w: string, b: string)
    requires |w| > 0
    requires forall i | 0 <= i < |a| :: !OccursAt(a + w + b, w, i)
    ensures RemoveAll(a + w + b, w) == a + RemoveAll(b, w)
    decreases |a|
  {
    if |a| == 0 {
      assert a + w + b == w + b;
      RemoveAllLeading(w, b);
    } else {
      PrefixShift(a, w, b);
      RemoveAllAfterPrefix(a[1..], w, b);
      PrefixStep(a, w, b);
    }
  }
}
