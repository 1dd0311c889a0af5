/**
 * The Python `str` operations the helper script builds on: `isspace`, `lower`, `strip`,
 * `split` and `splitlines`, over sequences of characters.
 */
module Text {

  /** Python's `str.isspace()`; a `\s` in a regex over `str` matches the same characters. */
  predicate IsSpace(c: char) {
    || c == ' '
    || '\U{9}' <= c <= '\U{D}'      // tab, line feed, vertical tab, form feed, carriage return
    || '\U{1C}' <= c <= '\U{1F}'    // the four ASCII separators
    || c == '\U{85}' || c == '\U{A0}' || c == '\U{1680}'
    || '\U{2000}' <= c <= '\U{200A}'
    || c == '\U{2028}' || c == '\U{2029}' || c == '\U{202F}' || c == '\U{205F}' || c == '\U{3000}'
  }

  /** The characters at which Python's `str.splitlines()` ends a line. */
  predicate IsLineBreak(c: char) {
    || c == '\n' || c == '\r' || c == '\U{B}' || c == '\U{C}'
    || '\U{1C}' <= c <= '\U{1E}'
    || c == '\U{85}' || c == '\U{2028}' || c == '\U{2029}'
  }

  predicate IsAsciiDigit(c: char) { '0' <= c <= '9' }

  predicate IsAsciiUpper(c: char) { 'A' <= c <= 'Z' }

  predicate IsAsciiLetter(c: char) { 'a' <= c <= 'z' || IsAsciiUpper(c) }

  /** `str.lower()` on one character; only the ASCII letters are mapped. */
  function LowerChar(c: char): char {
    if IsAsciiUpper(c) then (c as int + 32) as char else c
  }

  /** `str.lower()`, character by character. */
  function Lower(s: string): (r: string)
    ensures |r| == |s|
    ensures forall i :: 0 <= i < |s| ==> r[i] == LowerChar(s[i])
  {
    seq(|s|, i requires 0 <= i < |s| => LowerChar(s[i]))
  }

  lemma {:induction false} LowerSlice(s: string, i: nat, j: nat)
    requires i <= j <= |s|
    ensures Lower(s[i..j]) == Lower(s)[i..j]
  {
    var a, b := Lower(s[i..j]), Lower(s)[i..j];
    assert |a| == |b|;
    forall m | 0 <= m < |a| ensures a[m] == b[m] {
      assert s[i..j][m] == s[i + m];
    }
  }

  /** The sets of characters the script searches for or strips. */
  datatype CharClass =
    | Space            // `str.isspace()`, the default of `strip()`
    | NonSpace         // everything `str.isspace()` rejects
    | Only(c: char)    // one character, as in `strip('_')`
    | NonDigit         // everything but `[0-9]`
    | LineBreak        // the line ends of `splitlines()`

  predicate In(c: char, k: CharClass) {
    match k
    case Space => IsSpace(c)
    case NonSpace => !IsSpace(c)
    case Only(d) => c == d
    case NonDigit => !IsAsciiDigit(c)
    case LineBreak => IsLineBreak(c)
  }

  /** The index of the first character in class `k` at or after `from`, or `|s|` when there is none. */
  function FirstIndexFrom(s: string, from: nat, k: CharClass): (i: nat)
    requires from <= |s|
    ensures from <= i <= |s|
    ensures forall j :: from <= j < i ==> !In(s[j], k)
    ensures i < |s| ==> In(s[i], k)
    decreases |s| - from
  {
    if from == |s| then from
    else if In(s[from], k) then from
    else FirstIndexFrom(s, from + 1, k)
  }

  /** The index of the first character in class `k`, or `|s|` when there is none. */
  function FirstIndex(s: string, k: CharClass): nat {
    FirstIndexFrom(s, 0, k)
  }

  /** The index of the first character at or after `from` that is not in class `k`, or `|s|`. */
  function SpanFrom(s: string, from: nat, k: CharClass): (i: nat)
    requires from <= |s|
    ensures from <= i <= |s|
    ensures forall j :: from <= j < i ==> In(s[j], k)
    ensures i < |s| ==> !In(s[i], k)
    decreases |s| - from
  {
    if from == |s| || !In(s[from], k) then from else SpanFrom(s, from + 1, k)
  }

  /** The index just past the last character before `to` that is not in class `k`, or 0. */
  function SpanBack(s: string, to: nat, k: CharClass): (i: nat)
    requires to <= |s|
    ensures i <= to
    ensures forall j :: i <= j < to ==> In(s[j], k)
    ensures i > 0 ==> !In(s[i - 1], k)
  {
    if to == 0 || !In(s[to - 1], k) then to else SpanBack(s, to - 1, k)
  }

  /** `s.lstrip(chars)`: drops the leading characters in class `k`. */
  function StripLeading(s: string, k: CharClass): (r: string)
    ensures |r| <= |s| && r == s[|s| - |r|..]
    ensures forall j :: 0 <= j < |s| - |r| ==> In(s[j], k)
    ensures r == [] || !In(r[0], k)
  {
    s[SpanFrom(s, 0, k)..]
  }

  /** `s.rstrip(chars)`: drops the trailing characters in class `k`. */
  function StripTrailing(s: string, k: CharClass): (r: string)
    ensures |r| <= |s| && r == s[..|r|]
    ensures forall j :: |r| <= j < |s| ==> In(s[j], k)
    ensures r == [] || !In(r[|r| - 1], k)
  {
    s[..SpanBack(s, |s|, k)]
  }

  /** `s.strip(chars)`: both ends. */
  function Strip(s: string, k: CharClass): (r: string)
    ensures r == [] || (!In(r[0], k) && !In(r[|r| - 1], k))
  {
    var l := StripLeading(s, k);
    var r := StripTrailing(l, k);
    assert r != [] ==> r[0] == l[0];
    r
  }

  /**
   * What `Strip` keeps is one contiguous slice `s[i..j]`: everything before it and
   * everything after it is in `k`, and the slice neither starts nor ends with such a character.
   */
  lemma {:induction false} StripSlice(s: string, k: CharClass) returns (i: nat, j: nat)
    ensures i <= j <= |s| && Strip(s, k) == s[i..j]
    ensures forall m :: 0 <= m < i ==> In(s[m], k)
    ensures forall m :: j <= m < |s| ==> In(s[m], k)
    ensures i < j ==> !In(s[i], k) && !In(s[j - 1], k)
  {
    var l := StripLeading(s, k);
    var r := StripTrailing(l, k);
    i := |s| - |l|;
    j := i + |r|;
    assert l == s[i..];
    assert r == l[..|r|] == s[i..j];
    forall m | j <= m < |s| ensures In(s[m], k) {
      assert s[m] == l[m - i];
    }
    if i < j {
      assert s[i] == r[0] && s[j - 1] == r[|r| - 1];
    }
  }

  /** A string that neither starts nor ends with a character of `k` is left alone by `Strip`. */
  lemma {:induction false} StripKeeps(s: string, k: CharClass)
    requires s == [] || (!In(s[0], k) && !In(s[|s| - 1], k))
    ensures Strip(s, k) == s
  {
  }

  /** Text that neither starts nor ends with white space. */
  predicate Stripped(s: string) {
    s == [] || (!IsSpace(s[0]) && !IsSpace(s[|s| - 1]))
  }

  /** Python's `str.strip()` with no argument. */
  function Trim(s: string): (r: string)
    ensures |r| <= |s|
    ensures Stripped(r)
  {
    Strip(s, Space)
  }

  lemma {:induction false} TrimIdempotent(s: string)
    ensures Trim(Trim(s)) == Trim(s)
  {
    StripKeeps(Trim(s), Space);
  }

  /** Stripping text that has white space only in front removes exactly that white space. */
  lemma {:induction false} TrimAfterSpaces(gap: string, v: string)
    requires AllSpace(gap)
    requires v != [] && !IsSpace(v[0]) && !IsSpace(v[|v| - 1])
    ensures Trim(gap + v) == v
  {
    StripLeadingSpaces(gap, v);
    StripLeadingSpaces([], v);
    assert [] + v == v;
    StripKeeps(v, Space);
  }

  /** Stripping text that is white space, a core, and white space again leaves exactly the core. */
  lemma {:induction false} TrimBetweenSpaces(gap1: string, v: string, gap2: string)
    requires AllSpace(gap1) && AllSpace(gap2)
    requires v != [] && !IsSpace(v[0]) && !IsSpace(v[|v| - 1])
    ensures Trim(gap1 + (v + gap2)) == v
  {
    assert (v + gap2)[0] == v[0];
    StripLeadingSpaces(gap1, v + gap2);
    StripTrailingSpaces(v, gap2);
  }

  /** `sep.join(parts)` for a one-character separator. */
  function Join(parts: seq<string>, sep: char): string {
    if parts == [] then []
    else if |parts| == 1 then parts[0]
    else parts[0] + [sep] + Join(parts[1..], sep)
  }

  /**
   * `s.split(sep)` for a one-character separator: always at least one piece, no piece
   * holds the separator, and joining the pieces back gives `s`.
   */
  function Split(s: string, sep: char): (parts: seq<string>)
    ensures |parts| >= 1
    ensures forall k :: 0 <= k < |parts| ==> sep !in parts[k]
    ensures Join(parts, sep) == s
    decreases |s|
  {
    var i := FirstIndex(s, Only(sep));
    if i == |s| then [s]
    else
      var rest := Split(s[i + 1..], sep);
      assert s == s[..i] + [sep] + s[i + 1..];
      [s[..i]] + rest
  }

  /** A join starts with the first part. */
  lemma {:induction false} JoinStart(parts: seq<string>, sep: char)
    requires parts != []
    ensures |Join(parts, sep)| >= |parts[0]| && Join(parts, sep)[..|parts[0]|] == parts[0]
  {
    if |parts| > 1 {
      assert Join(parts, sep) == parts[0] + ([sep] + Join(parts[1..], sep));
    }
  }

  /** Splitting the join of separator-free pieces gives the pieces back. */
  lemma {:induction false} SplitJoin(parts: seq<string>, sep: char)
    requires |parts| >= 1
    requires forall k :: 0 <= k < |parts| ==> sep !in parts[k]
    ensures Split(Join(parts, sep), sep) == parts
    decreases |parts|
  {
    var s := Join(parts, sep);
    var head := parts[0];
    var i := FirstIndex(s, Only(sep));
    if |parts| == 1 {
      assert forall j :: 0 <= j < |s| ==> s[j] != sep by {
        assert s == head;
      }
    } else {
      var tail := Join(parts[1..], sep);
      assert s == head + ([sep] + tail);
      assert forall j :: 0 <= j < |head| ==> s[j] == head[j] && s[j] != sep;
      assert s[|head|] == sep;
      assert i == |head|;
      ConcatSlices(head, [sep] + tail);
      assert s[i + 1..] == tail;
      SplitJoin(parts[1..], sep);
      assert parts == [head] + parts[1..];
    }
  }

  predicate NoLineBreak(line: string) {
    forall j :: 0 <= j < |line| ==> !IsLineBreak(line[j])
  }

  /**
   * Python's `str.splitlines()`: a line ends at a line-break character, a carriage return
   * followed by a line feed ends one line, and no empty line follows the final break.
   */
  function SplitLines(s: string): (lines: seq<string>)
    ensures |lines| <= |s|
    ensures s != [] ==> lines != []
    decreases |s|
  {
    if s == [] then []
    else
      var i := FirstIndex(s, LineBreak);
      if i == |s| then [s]
      else
        var next := if s[i] == '\r' && i + 1 < |s| && s[i + 1] == '\n' then i + 2 else i + 1;
        [s[..i]] + SplitLines(s[next..])
  }

  /** No line that `SplitLines` produces holds a line break. */
  lemma {:induction false} SplitLinesHaveNoBreaks(s: string)
    ensures forall k :: 0 <= k < |SplitLines(s)| ==> NoLineBreak(SplitLines(s)[k])
    decreases |s|
  {
    if s != [] {
      var i := FirstIndex(s, LineBreak);
      if i < |s| {
        var next := if s[i] == '\r' && i + 1 < |s| && s[i + 1] == '\n' then i + 2 else i + 1;
        SplitLinesHaveNoBreaks(s[next..]);
        assert forall j :: 0 <= j < i ==> s[..i][j] == s[j];
      }
    }
  }

  // Facts about concatenation, stated once so that proofs can use them without
  // re-deriving sequence equality element by element.

  /** The text without its final `\n`, if it ends with one. */
  function WithoutFinalNewline(s: string): string {
    if s != [] && s[|s| - 1] == '\n' then s[..|s| - 1] else s
  }

  /**
   * For text whose only line break is `\n`, joining the lines with `\n` gives the text back,
   * without the final `\n` if there is one (`splitlines()` adds no empty line after it).
   */
  lemma {:induction false} SplitLinesJoin(s: string)
    requires forall j :: 0 <= j < |s| && IsLineBreak(s[j]) ==> s[j] == '\n'
    ensures Join(SplitLines(s), '\n') == WithoutFinalNewline(s)
    decreases |s|
  {
    if s != [] {
      var i := FirstIndex(s, LineBreak);
      if i < |s| {
        var head, rest := s[..i], s[i + 1..];
        assert s[i] == '\n';
        SplitAround(s, i);
        assert SplitLines(s) == [head] + SplitLines(rest);
        if rest == [] {
          assert [head] + SplitLines(rest) == [head];
          assert WithoutFinalNewline(s) == head;
        } else {
          assert forall j :: 0 <= j < |rest| ==> rest[j] == s[i + 1 + j];
          SplitLinesJoin(rest);
          JoinCons(head, SplitLines(rest), '\n');
          FinalNewlineAfter(head, rest);
        }
      }
    }
  }

  /** Text is the part before index `i`, the character at `i` and the part after it. */
  lemma {:induction false} SplitAround(s: string, i: nat)
    requires i < |s|
    ensures s == s[..i] + [s[i]] + s[i + 1..]
  {
  }

  /** Joining a first part onto a non-empty list of parts puts one separator between. */
  lemma {:induction false} JoinCons(head: string, tail: seq<string>, sep: char)
    requires tail != []
    ensures Join([head] + tail, sep) == head + [sep] + Join(tail, sep)
  {
    assert ([head] + tail)[1..] == tail;
  }

  /** Dropping a final newline only touches the last part of the text. */
  lemma {:induction false} FinalNewlineAfter(head: string, rest: string)
    requires rest != []
    ensures WithoutFinalNewline(head + ['\n'] + rest) == head + ['\n'] + WithoutFinalNewline(rest)
  {
    var t := head + ['\n'] + rest;
    assert t[|t| - 1] == rest[|rest| - 1];
    assert t[..|t| - 1] == head + ['\n'] + rest[..|rest| - 1];
  }

  lemma {:induction false} ConcatAssoc(a: string, b: string, c: string)
    ensures (a + b) + c == a + (b + c)
  {
  }

  lemma {:induction false} ConcatSlices(a: string, b: string)
    ensures (a + b)[..|a|] == a && (a + b)[|a|..] == b
  {
  }

  lemma {:induction false} HeadTail(s: string)
    requires s != []
    ensures s == [s[0]] + s[1..]
  {
  }

  lemma {:induction false} SplitAt(s: string, i: nat)
    requires i <= |s|
    ensures s == s[..i] + s[i..]
  {
  }

  predicate AllSpace(s: string) { forall j :: 0 <= j < |s| ==> IsSpace(s[j]) }

  /** Stripping white space in front of a character that is not white space leaves that text. */
  lemma {:induction false} StripLeadingSpaces(gap: string, rest: string)
    requires AllSpace(gap)
    requires rest == [] || !IsSpace(rest[0])
    ensures StripLeading(gap + rest, Space) == rest
    decreases |gap|
  {
    if gap != [] {
      assert (gap + rest)[1..] == gap[1..] + rest;
      StripLeadingSpaces(gap[1..], rest);
    } else {
      assert gap + rest == rest;
    }
  }

  /** Stripping white space after a character that is not white space leaves the text before it. */
  lemma {:induction false} StripTrailingSpaces(rest: string, gap: string)
    requires AllSpace(gap)
    requires rest == [] || !IsSpace(rest[|rest| - 1])
    ensures StripTrailing(rest + gap, Space) == rest
  {
    var t := rest + gap;
    var r := StripTrailing(t, Space);
    assert forall m :: |rest| <= m < |t| ==> In(t[m], Space) by {
      assert forall m :: |rest| <= m < |t| ==> t[m] == gap[m - |rest|];
    }
    if r != [] {
      assert !In(t[|r| - 1], Space) by {
        assert r[|r| - 1] == t[|r| - 1];
      }
    }
    if rest != [] {
      assert !In(t[|rest| - 1], Space) by {
        assert t[|rest| - 1] == rest[|rest| - 1];
      }
    }
    assert |r| == |rest|;
    assert r == t[..|rest|];
    assert t[..|rest|] == rest;
  }

  /** Text is the white space `lstrip` drops followed by what it keeps. */
  lemma {:induction false} LeadingGap(s: string) returns (gap: string)
    ensures AllSpace(gap) && s == gap + StripLeading(s, Space)
  {
    var r := StripLeading(s, Space);
    gap := s[..|s| - |r|];
    assert forall j :: 0 <= j < |gap| ==> gap[j] == s[j];
    SplitAt(s, |s| - |r|);
  }
}
