/** The parts of Python's `str` and `list` behaviour that app.py relies on:
    `s.split(sep)`, `s.split(sep, 1)`, `sep.join(parts)` and `xs[k]`, for a
    non-empty separator (Python raises ValueError for an empty one, which
    app.py never passes). */
module PyStr {
  import opened Wrappers

  /** The Python exceptions the model tells apart: IndexError, raised by the
      string code modelled here, and the failure of a hosted service, which
      app.py passes on with its message. */
  datatype Error = IndexError | ServiceError(message: string)

  /** `sep` starts at position `i` of `s`. */
  predicate OccursAt(s: string, sep: string, i: nat)
  {
    i + |sep| <= |s| && s[i..i + |sep|] == sep
  }

  /** `sep` occurs somewhere in `s` (Python's `sep in s`). */
  ghost predicate Contains(s: string, sep: string)
  {
    exists i: nat :: OccursAt(s, sep, i)
  }

  /** `i` is the leftmost position at which `sep` occurs in `s`. */
  ghost predicate FirstOccurrence(s: string, sep: string, i: nat)
  {
    OccursAt(s, sep, i) && forall j: nat :: j < i ==> !OccursAt(s, sep, j)
  }

  /** The field of `s` that starts at `a` ends at `e`: no occurrence of `sep`
      starts in `[a, e)`, and `e` is the end of `s` or the start of the next
      occurrence. */
  ghost predicate FieldEnd(s: string, sep: string, a: nat, e: nat)
  {
    a <= e <= |s|
    && (e == |s| || OccursAt(s, sep, e))
    && forall j: nat :: a <= j < e ==> !OccursAt(s, sep, j)
  }

  /** `v` is the text after the first `sep` of `s`, up to the next `sep` or
      the end: what `s.split(sep)[1]` evaluates to. */
  ghost predicate SecondField(s: string, sep: string, v: string)
  {
    exists i: nat :: FieldAfterFirst(s, sep, i, v)
  }

  /** `i` is the first occurrence of `sep` in `s`, and `v` is the field that
      follows it. */
  ghost predicate FieldAfterFirst(s: string, sep: string, i: nat, v: string)
  {
    && FirstOccurrence(s, sep, i)
    && FieldEnd(s, sep, i + |sep|, i + |sep| + |v|)
    && s[i + |sep|..i + |sep| + |v|] == v
  }

  /** Leftmost occurrence of `sep` in `s` at or after `from` (`s.find(sep, from)`). */
  function FindFrom(s: string, sep: string, from: nat): (r: Option<nat>)
    requires |sep| > 0
    ensures r.Some? ==> from <= r.value && OccursAt(s, sep, r.value)
    ensures r.Some? ==> forall j: nat :: from <= j < r.value ==> !OccursAt(s, sep, j)
    ensures r.None? ==> forall j: nat :: from <= j ==> !OccursAt(s, sep, j)
    decreases |s| - from
  {
    if from + |sep| > |s| then None
    else if s[from..from + |sep|] == sep then Some(from)
    else FindFrom(s, sep, from + 1)
  }

  /** Leftmost occurrence of `sep` in `s` (`s.find(sep)`, with None for -1). */
  function FindFirst(s: string, sep: string): (r: Option<nat>)
    requires |sep| > 0
    ensures r.Some? <==> Contains(s, sep)
    ensures r.Some? ==> FirstOccurrence(s, sep, r.value)
  {
    FindFrom(s, sep, 0)
  }

  /** `sep.join(parts)`. */
  function Join(parts: seq<string>, sep: string): string
  {
    if |parts| == 0 then ""
    else if |parts| == 1 then parts[0]
    else parts[0] + sep + Join(parts[1..], sep)
  }

  /** No occurrence of `sep` starts before `i`, so the prefix `s[..i]` does
      not contain `sep`. */
  lemma PrefixWithoutSep(s: string, sep: string, i: nat)
    requires |sep| > 0 && i <= |s|
    requires forall j: nat :: j < i ==> !OccursAt(s, sep, j)
    ensures !Contains(s[..i], sep)
  {
    forall j: nat | OccursAt(s[..i], sep, j)
      ensures false
    {
      assert s[..i][j..j + |sep|] == s[j..j + |sep|];
      assert OccursAt(s, sep, j);
    }
  }

  /** An occurrence in a suffix of `s` is an occurrence in `s`, shifted. */
  lemma OccursInSuffix(s: string, sep: string, d: nat, j: nat)
    requires d <= |s|
    ensures OccursAt(s[d..], sep, j) <==> OccursAt(s, sep, d + j)
  {
    if d + j + |sep| <= |s| {
      assert s[d..][j..j + |sep|] == s[d + j..d + j + |sep|];
    }
  }

  /** `s.split(sep)`: cut at every occurrence of `sep`, scanning left to
      right. Always at least one piece, and more than one exactly when `sep`
      occurs in `s`. */
  function Split(s: string, sep: string): (r: seq<string>)
    requires |sep| > 0
    ensures |r| >= 1
    ensures |r| > 1 <==> Contains(s, sep)
    decreases |s|
  {
    match FindFirst(s, sep)
    case None => [s]
    case Some(i) => [s[..i]] + Split(s[i + |sep|..], sep)
  }

  /** Joining the pieces of `s.split(sep)` with `sep` gives back `s`. */
  lemma {:induction false} SplitJoin(s: string, sep: string)
    requires |sep| > 0
    ensures Join(Split(s, sep), sep) == s
    decreases |s|
  {
    match FindFirst(s, sep) {
      case None =>
      case Some(i) =>
        var rest := Split(s[i + |sep|..], sep);
        SplitJoin(s[i + |sep|..], sep);
        assert Split(s, sep) == [s[..i]] + rest;
        assert ([s[..i]] + rest)[1..] == rest;
        assert s == s[..i] + s[i..i + |sep|] + s[i + |sep|..];
    }
  }

  /** No piece of `s.split(sep)` contains `sep`. */
  lemma {:induction false} SplitPiecesFree(s: string, sep: string)
    requires |sep| > 0
    ensures forall k :: 0 <= k < |Split(s, sep)| ==> !Contains(Split(s, sep)[k], sep)
    decreases |s|
  {
    match FindFirst(s, sep) {
      case None =>
      case Some(i) =>
        var rest := Split(s[i + |sep|..], sep);
        SplitPiecesFree(s[i + |sep|..], sep);
        PrefixWithoutSep(s, sep, i);
        assert Split(s, sep) == [s[..i]] + rest;
    }
  }

  /** `s.split(sep, 1)`: cut at the first occurrence of `sep` only. Always one
      or two pieces, two exactly when `sep` occurs; the first piece does not
      contain `sep`, and with two pieces `piece0 + sep + piece1 == s`. */
  function SplitOnce(s: string, sep: string): (r: seq<string>)
    requires |sep| > 0
    ensures 1 <= |r| <= 2
    ensures |r| == 2 <==> Contains(s, sep)
    ensures !Contains(r[0], sep)
    ensures |r| == 1 ==> r[0] == s
    ensures |r| == 2 ==> r[0] + sep + r[1] == s
  {
    match FindFirst(s, sep)
    case None => [s]
    case Some(i) =>
      PrefixWithoutSep(s, sep, i);
      assert s[..i] + sep + s[i + |sep|..] == s by {
        assert s == s[..i] + s[i..i + |sep|] + s[i + |sep|..];
      }
      [s[..i], s[i + |sep|..]]
  }

  /** `xs[k]` for a non-negative index: IndexError past the end. */
  function At(xs: seq<string>, k: nat): (r: Result<string, Error>)
    ensures r.Failure? <==> |xs| <= k
    ensures r.Failure? ==> r.error == IndexError
    ensures r.Success? ==> k < |xs| && r.value == xs[k]
  {
    if k < |xs| then Success(xs[k]) else Failure(IndexError)
  }

  /** For a one-character separator, containment is character membership. */
  lemma ContainsChar(s: string, c: char)
    ensures Contains(s, [c]) <==> c in s
  {
    if c in s {
      var i :| 0 <= i < |s| && s[i] == c;
      assert s[i..i + 1] == [c];
      assert OccursAt(s, [c], i);
    }
    if Contains(s, [c]) {
      var i: nat :| OccursAt(s, [c], i);
      assert s[i] == s[i..i + 1][0];
    }
  }

  /** No occurrence in `s[d..]` before `n` means no occurrence in `s` in
      `[d, d + n)`. */
  lemma NoneInSuffix(s: string, sep: string, d: nat, n: nat)
    requires d <= |s|
    requires forall j: nat :: j < n ==> !OccursAt(s[d..], sep, j)
    ensures forall j: nat :: d <= j < d + n ==> !OccursAt(s, sep, j)
  {
    forall j: nat | d <= j < d + n
      ensures !OccursAt(s, sep, j)
    {
      OccursInSuffix(s, sep, d, j - d);
    }
  }

  /** One step of `s.split(sep)` when `sep` occurs: the text before the
      first occurrence, then the split of the text after it. */
  lemma SplitStep(s: string, sep: string)
    requires |sep| > 0
    requires Contains(s, sep)
    ensures FindFirst(s, sep).Some?
    ensures var i := FindFirst(s, sep).value;
      Split(s, sep) == [s[..i]] + Split(s[i + |sep|..], sep)
  {
  }

  /** The first piece of `s.split(sep)` is the first piece of `s.split(sep, 1)`. */
  lemma SplitHead(s: string, sep: string)
    requires |sep| > 0
    ensures Split(s, sep)[0] == SplitOnce(s, sep)[0]
  {
  }

  /** The first piece of `s.split(sep, 1)` ends at the first occurrence of
      `sep`, or at the end of `s`. */
  lemma SplitOnceHeadEnd(s: string, sep: string)
    requires |sep| > 0
    ensures var h := SplitOnce(s, sep)[0];
      h == s[..|h|] && FieldEnd(s, sep, 0, |h|)
  {
    match FindFirst(s, sep) {
      case None =>
      case Some(i) =>
    }
  }

  /** The first piece of `t.split(sep, 1)`, where `t` is the text after an
      occurrence of `sep` at `i`, is the field of `s` starting after it. */
  lemma FieldAfter(s: string, sep: string, i: nat)
    requires |sep| > 0
    requires OccursAt(s, sep, i)
    ensures var a := i + |sep|; var v := SplitOnce(s[a..], sep)[0];
      FieldEnd(s, sep, a, a + |v|) && s[a..a + |v|] == v
  {
    var a := i + |sep|;
    var v := SplitOnce(s[a..], sep)[0];
    SplitOnceHeadEnd(s[a..], sep);
    NoneInSuffix(s, sep, a, |v|);
    if |v| < |s[a..]| {
      OccursInSuffix(s, sep, a, |v|);
    }
  }

  /** The second piece of `s.split(sep)`, when there is one, is the field
      after the first `sep`. */
  lemma {:induction false} SplitSecondField(s: string, sep: string)
    requires |sep| > 0
    requires Contains(s, sep)
    ensures |Split(s, sep)| >= 2
    ensures SecondField(s, sep, Split(s, sep)[1])
  {
    SplitStep(s, sep);
    var i := FindFirst(s, sep).value;
    var rest := s[i + |sep|..];
    SplitHead(rest, sep);
    assert Split(s, sep)[1] == SplitOnce(rest, sep)[0];
    FieldAfter(s, sep, i);
    assert FieldAfterFirst(s, sep, i, Split(s, sep)[1]);
  }

  /** The leftmost occurrence is unique. */
  lemma FirstOccurrenceUnique(s: string, sep: string, i: nat, i': nat)
    requires FirstOccurrence(s, sep, i) && FirstOccurrence(s, sep, i')
    ensures i == i'
  {
  }

  /** A field starting at `a` has only one end. */
  lemma FieldEndUnique(s: string, sep: string, a: nat, e: nat, e': nat)
    requires FieldEnd(s, sep, a, e) && FieldEnd(s, sep, a, e')
    ensures e == e'
  {
  }

  /** Fields after a first occurrence are equal. */
  lemma FieldAfterFirstUnique(s: string, sep: string, i: nat, v: string, i': nat, w: string)
    requires FieldAfterFirst(s, sep, i, v) && FieldAfterFirst(s, sep, i', w)
    ensures v == w
  {
    FirstOccurrenceUnique(s, sep, i, i');
    FieldEndUnique(s, sep, i + |sep|, i + |sep| + |v|, i + |sep| + |w|);
  }

  /** Two values of `s.split(sep)[1]` for the same `s` and `sep` are equal:
      the field after the first separator is determined by the string. */
  lemma SecondFieldUnique(s: string, sep: string, v: string, w: string)
    requires SecondField(s, sep, v) && SecondField(s, sep, w)
    ensures v == w
  {
    var i: nat :| FieldAfterFirst(s, sep, i, v);
    var i': nat :| FieldAfterFirst(s, sep, i', w);
    FieldAfterFirstUnique(s, sep, i, v, i', w);
  }
}
