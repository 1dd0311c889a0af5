/**
 * `parse_prompt_columns`: reads column specifications out of a free-text prompt, one per
 * bullet line such as `- age (18-80)` or `- customer_segment (Basic, Premium, VIP)`.
 */
module Prompt {
  import opened Wrappers
  import opened Text
  import Snake

  // ---------------------------------------------------------------------------------------
  // The bullet pattern  \s*[-*]\s*([a-zA-Z0-9_\s]+?)\s*\(([^\)]*)\)  (matched at line start)

  predicate IsBullet(c: char) { c == '-' || c == '*' }

  /** The class `[a-zA-Z0-9_\s]` of the name group. */
  predicate IsNameChar(c: char) { IsAsciiLetter(c) || IsAsciiDigit(c) || c == '_' || IsSpace(c) }

  predicate AllNameChars(s: string) { forall k :: 0 <= k < |s| ==> IsNameChar(s[k]) }

  /** The two groups of a bullet match: the text between bullet and `(`, and between `(` and `)`. */
  datatype BulletMatch = BulletMatch(rawName: string, meta: string)

  /**
   * The pattern as a scanner. The name class holds neither `(` nor `)`, so the `(` the
   * pattern needs is the first one after the bullet, and the `)` is the first one after that.
   */
  function MatchBullet(line: string): (r: Option<BulletMatch>)
    ensures r.Some? ==> r.value.rawName != [] && AllNameChars(r.value.rawName) && ')' !in r.value.meta
  {
    var b := FirstIndexFrom(line, 0, NonSpace);
    if b == |line| || !IsBullet(line[b]) then None
    else
      var p := FirstIndexFrom(line, b + 1, Only('('));
      if p == b + 1 || p == |line| || !(forall k :: b < k < p ==> IsNameChar(line[k])) then None
      else
        var q := FirstIndexFrom(line, p + 1, Only(')'));
        if q == |line| then None
        else Some(BulletMatch(line[b + 1..p], line[p + 1..q]))
  }

  /**
   * The pattern as a language: it matches `line` with the bullet at `b`, the `(` at `p` and
   * the `)` at `q` when only white space precedes the bullet, at least one name character
   * and nothing else lies between bullet and `(`, and no `)` lies between `(` and `)`.
   */
  predicate BulletAt(line: string, b: nat, p: nat, q: nat) {
    && b + 1 < p < q < |line|
    && (forall k :: 0 <= k < b ==> IsSpace(line[k]))
    && IsBullet(line[b])
    && (forall k :: b < k < p ==> IsNameChar(line[k]))
    && line[p] == '('
    && (forall k :: p < k < q ==> line[k] != ')')
    && line[q] == ')'
  }

  /** Every scanner match is a match of the pattern, with the groups at those positions. */
  lemma {:induction false} MatchBulletSound(line: string) returns (b: nat, p: nat, q: nat)
    requires MatchBullet(line).Some?
    ensures BulletAt(line, b, p, q)
    ensures MatchBullet(line) == Some(BulletMatch(line[b + 1..p], line[p + 1..q]))
  {
    b := FirstIndexFrom(line, 0, NonSpace);
    p := FirstIndexFrom(line, b + 1, Only('('));
    q := FirstIndexFrom(line, p + 1, Only(')'));
  }

  /** Every match of the pattern is found by the scanner, with the same groups. */
  lemma {:induction false} MatchBulletComplete(line: string, b: nat, p: nat, q: nat)
    requires BulletAt(line, b, p, q)
    ensures MatchBullet(line) == Some(BulletMatch(line[b + 1..p], line[p + 1..q]))
  {
    assert !IsSpace(line[b]);
    assert forall k :: b < k < p ==> line[k] != '(';
  }

  // ---------------------------------------------------------------------------------------
  // Decimal literals  -?\d+(?:\.\d+)?

  /** A decimal literal: its sign, its integer digits and its (possibly absent) fraction digits. */
  datatype Decimal = Decimal(negative: bool, whole: string, fraction: string)

  predicate AllDigits(s: string) { forall k :: 0 <= k < |s| ==> IsAsciiDigit(s[k]) }

  predicate WellFormed(d: Decimal) { |d.whole| > 0 && AllDigits(d.whole) && AllDigits(d.fraction) }

  function Sign(d: Decimal): string { if d.negative then "-" else "" }

  function Point(d: Decimal): string { if d.fraction == [] then "" else "." + d.fraction }

  /** The text of a literal. */
  function Render(d: Decimal): string { Sign(d) + d.whole + Point(d) }

  /** `\d*` at the start of `s`, taken greedily, and the text after it. */
  function LeadingDigits(s: string): (string, string) {
    var n := FirstIndex(s, NonDigit);
    (s[..n], s[n..])
  }

  /** The digit run is all digits, the text after it starts with no digit, and together they are `s`. */
  lemma {:induction false} LeadingDigitsSplit(s: string)
    ensures var (digits, rest) := LeadingDigits(s);
      AllDigits(digits) && s == digits + rest && (rest == [] || !IsAsciiDigit(rest[0]))
  {
    var n := FirstIndex(s, NonDigit);
    SplitAt(s, n);
    assert forall k :: 0 <= k < n ==> s[..n][k] == s[k];
  }

  /** The greedy digit run of `digits + rest` is `digits` when `rest` starts with no digit. */
  lemma {:induction false} LeadingDigitsOf(digits: string, rest: string)
    requires AllDigits(digits)
    requires rest == [] || !IsAsciiDigit(rest[0])
    ensures LeadingDigits(digits + rest) == (digits, rest)
  {
    var s := digits + rest;
    assert forall j :: 0 <= j < |digits| ==> s[j] == digits[j];
    assert |digits| < |s| ==> s[|digits|] == rest[0];
    assert FirstIndex(s, NonDigit) == |digits|;
    ConcatSlices(digits, rest);
  }

  /** `(?:\.\d+)?` at the start of `u`: the fraction digits and the text after them, if present. */
  function ScanFraction(u: string): Option<(string, string)> {
    if |u| >= 2 && u[0] == '.' && IsAsciiDigit(u[1]) then Some(LeadingDigits(u[1..])) else None
  }

  /** A fraction found is a point and a non-empty digit run, with the text after it. */
  lemma {:induction false} ScanFractionSplit(u: string)
    ensures var r := ScanFraction(u);
      r.Some? ==> r.value.0 != [] && AllDigits(r.value.0) && u == "." + (r.value.0 + r.value.1)
  {
    if |u| >= 2 && u[0] == '.' && IsAsciiDigit(u[1]) {
      LeadingDigitsSplit(u[1..]);
      SplitAt(u, 1);
      assert u[..1] == ".";
    }
  }

  /**
   * The literal at the start of `s` (greedy, as the pattern is: the longest digit run, a
   * fraction only when a digit follows the point) and the text after it.
   */
  function ScanNumber(s: string): (r: Option<(Decimal, string)>)
    ensures r.Some? ==> s != [] && (s[0] == '-' || IsAsciiDigit(s[0])) && |r.value.1| < |s|
  {
    var negative := s != [] && s[0] == '-';
    var (whole, u) := LeadingDigits(if negative then s[1..] else s);
    if whole == [] then None
    else
      match ScanFraction(u)
      case Some((fraction, rest)) => Some((Decimal(negative, whole, fraction), rest))
      case None => Some((Decimal(negative, whole, []), u))
  }

  /** A rendered literal followed by text is the sign, the whole digits, and the point part followed by that text. */
  lemma {:induction false} RenderThen(d: Decimal, rest: string)
    ensures Render(d) + rest == Sign(d) + (d.whole + (Point(d) + rest))
  {
    ConcatAssoc(Sign(d), d.whole, Point(d));
    ConcatAssoc(Sign(d), d.whole + Point(d), rest);
    ConcatAssoc(d.whole, Point(d), rest);
  }

  /** What the scanner finds is a well-formed literal, and the literal followed by the rest is the input. */
  lemma {:induction false} ScanNumberSound(s: string)
    ensures var r := ScanNumber(s);
      r.Some? ==> WellFormed(r.value.0) && s == Render(r.value.0) + r.value.1
  {
    var negative := s != [] && s[0] == '-';
    var t := if negative then s[1..] else s;
    var (whole, u) := LeadingDigits(t);
    LeadingDigitsSplit(t);
    if whole != [] {
      var sign := if negative then "-" else "";
      assert s == sign + (whole + u) by {
        SplitAt(s, if negative then 1 else 0);
      }
      ScanFractionSplit(u);
      match ScanFraction(u)
      case Some((fraction, rest)) =>
        var d := Decimal(negative, whole, fraction);
        assert Point(d) + rest == u by {
          ConcatAssoc(".", fraction, rest);
        }
        RenderThen(d, rest);
      case None =>
        var d := Decimal(negative, whole, []);
        assert Point(d) + u == u;
        RenderThen(d, u);
    }
  }

  /** Text that cannot continue a literal: it starts with neither a digit nor a point and a digit. */
  predicate EndsLiteral(rest: string) {
    rest == [] || (!IsAsciiDigit(rest[0]) && !(|rest| >= 2 && rest[0] == '.' && IsAsciiDigit(rest[1])))
  }

  /** Scanning the rendered fraction part gives back the fraction digits, if there are any. */
  lemma {:induction false} ScanPoint(d: Decimal, rest: string)
    requires WellFormed(d) && EndsLiteral(rest)
    ensures ScanFraction(Point(d) + rest) == if d.fraction == [] then None else Some((d.fraction, rest))
  {
    if d.fraction != [] {
      ConcatAssoc(".", d.fraction, rest);
      ConcatSlices(".", d.fraction + rest);
      LeadingDigitsOf(d.fraction, rest);
    } else {
      assert Point(d) + rest == rest;
    }
  }

  /** A rendered literal starts with `-` exactly when it is negative, and the digits follow the sign. */
  lemma {:induction false} RenderSign(d: Decimal, rest: string)
    requires WellFormed(d)
    ensures var s := Render(d) + rest;
      (s != [] && s[0] == '-') == d.negative &&
      (if d.negative then s[1..] else s) == d.whole + (Point(d) + rest)
  {
    RenderThen(d, rest);
    ConcatSlices(Sign(d), d.whole + (Point(d) + rest));
  }

  /** Scanning a rendered literal gives back the literal and the text after it. */
  lemma {:induction false} ScanRender(d: Decimal, rest: string)
    requires WellFormed(d) && EndsLiteral(rest)
    ensures ScanNumber(Render(d) + rest) == Some((d, rest))
  {
    RenderSign(d, rest);
    LeadingDigitsOf(d.whole, Point(d) + rest);
    ScanPoint(d, rest);
  }

  function DigitValue(c: char): nat {
    if IsAsciiDigit(c) then c as int - '0' as int else 0
  }

  /** The number a digit string denotes. */
  function DigitsValue(ds: string): nat {
    if ds == [] then 0 else DigitsValue(ds[..|ds| - 1]) * 10 + DigitValue(ds[|ds| - 1])
  }

  function Pow10(n: nat): (r: nat)
    ensures r >= 1
  {
    if n == 0 then 1 else 10 * Pow10(n - 1)
  }

  /** `float(literal)`, exactly (the model has no rounding). */
  function Value(d: Decimal): (v: real)
    ensures d.negative ==> v <= 0.0
    ensures !d.negative ==> v >= 0.0
  {
    var magnitude := DigitsValue(d.whole) as real + DigitsValue(d.fraction) as real / Pow10(|d.fraction|) as real;
    if d.negative then -magnitude else magnitude
  }

  /** `float(literal).is_integer()`: every fraction digit is zero. */
  predicate IsIntegral(d: Decimal)
    ensures d.fraction == [] ==> IsIntegral(d)
  {
    forall k :: 0 <= k < |d.fraction| ==> d.fraction[k] == '0'
  }

  lemma {:induction false} DigitsValueBelow(ds: string)
    ensures DigitsValue(ds) < Pow10(|ds|)
  {
    if ds != [] {
      DigitsValueBelow(ds[..|ds| - 1]);
    }
  }

  lemma {:induction false} DigitsValueZero(ds: string)
    requires AllDigits(ds)
    ensures DigitsValue(ds) == 0 <==> forall k :: 0 <= k < |ds| ==> ds[k] == '0'
  {
    if ds != [] {
      var init := ds[..|ds| - 1];
      assert forall k :: 0 <= k < |init| ==> init[k] == ds[k];
      DigitsValueZero(init);
    }
  }

  /** The fraction digits denote a number in [0, 1), and 0 exactly when they are all zeros. */
  lemma {:induction false} FractionPartRange(fraction: string)
    requires AllDigits(fraction)
    ensures var x := DigitsValue(fraction) as real / Pow10(|fraction|) as real;
      0.0 <= x < 1.0 && (x == 0.0 <==> forall k :: 0 <= k < |fraction| ==> fraction[k] == '0')
  {
    DigitsValueBelow(fraction);
    DigitsValueZero(fraction);
    BelowOne(DigitsValue(fraction), Pow10(|fraction|));
  }

  lemma {:induction false} BelowOne(f: nat, p: nat)
    requires f < p
    ensures 0.0 <= f as real / p as real < 1.0
    ensures f as real / p as real == 0.0 <==> f == 0
  {
    var x := f as real / p as real;
    assert x * p as real == f as real;
  }

  lemma {:induction false} FloorOf(x: real, n: int)
    requires n as real <= x < n as real + 1.0
    ensures x.Floor == n
  {
  }

  /** `is_integer()` on the literal agrees with the value being a whole number. */
  lemma {:induction false} IntegralIffWholeValue(d: Decimal)
    requires WellFormed(d)
    ensures IsIntegral(d) <==> Value(d) == Value(d).Floor as real
  {
    var w: int := DigitsValue(d.whole);
    var x := DigitsValue(d.fraction) as real / Pow10(|d.fraction|) as real;
    FractionPartRange(d.fraction);
    if d.negative {
      assert Value(d) == -(w as real + x);
      if x == 0.0 {
        FloorOf(Value(d), -w);
      } else {
        FloorOf(Value(d), -w - 1);
      }
    } else {
      assert Value(d) == w as real + x;
      FloorOf(Value(d), w);
    }
  }

  // ---------------------------------------------------------------------------------------
  // The range pattern  \s*(num)\s*[-–]\s*(num)\s*  (matched at the start of the meta part)

  /** The range separator: a hyphen or an en dash. */
  predicate IsRangeDash(c: char) { c == '-' || c == '\U{2013}' }

  /** The two literals of a leading range; whatever follows the second one is ignored. */
  function ScanRange(meta: string): (r: Option<(Decimal, Decimal)>)
    ensures r.Some? ==> var m := StripLeading(meta, Space); m != [] && (m[0] == '-' || IsAsciiDigit(m[0]))
  {
    var first := ScanNumber(StripLeading(meta, Space));
    if first.None? then None
    else
      var r := StripLeading(first.value.1, Space);
      if r == [] || !IsRangeDash(r[0]) then None
      else
        var second := ScanNumber(StripLeading(r[1..], Space));
        if second.None? then None else Some((first.value.0, second.value.0))
  }

  /** A rendered literal starts with a minus sign or a digit. */
  lemma {:induction false} RenderStart(d: Decimal)
    requires WellFormed(d)
    ensures Render(d) != [] && (Render(d)[0] == '-' || IsAsciiDigit(Render(d)[0]))
  {
    ConcatAssoc(Sign(d), d.whole, Point(d));
    assert Render(d) == Sign(d) + (d.whole + Point(d));
  }

  // ---------------------------------------------------------------------------------------
  // Fields

  /** What a bullet declares: a numeric range, or a (possibly empty) list of allowed values. */
  datatype Kind = Numerical(min: real, max: real, isInt: bool) | Categorical(values: seq<string>)

  /** One parsed field; there is no boolean kind, since the parser never produces one. */
  datatype Field = Field(name: string, kind: Kind)

  /** The class `[a-zA-Z0-9_\- ]` of an allowed value. */
  predicate IsValueChar(c: char) { IsAsciiLetter(c) || IsAsciiDigit(c) || c == '_' || c == '-' || c == ' ' }

  /** `re.match(r"^[a-zA-Z0-9_\- ]+$", v)` for a value that was stripped. */
  predicate IsCleanValue(v: string) { |v| > 0 && forall k :: 0 <= k < |v| ==> IsValueChar(v[k]) }

  /** One comma piece, stripped, when that leaves something. */
  function NonBlank(piece: string): Option<string> {
    var v := Trim(piece);
    if v == [] then None else Some(v)
  }

  /** `[v.strip() for v in pieces if v.strip()]`. */
  function NonEmptyTrimmed(pieces: seq<string>): (vs: seq<string>)
    ensures |vs| <= |pieces|
  {
    Present(MapSeq(NonBlank, pieces))
  }

  /**
   * The allowed values of a meta part without a range: the non-empty stripped comma pieces
   * when every one of them is clean, and no value at all otherwise.
   */
  function AllowedValues(meta: string): (vs: seq<string>)
    ensures forall k :: 0 <= k < |vs| ==> IsCleanValue(vs[k]) && Trim(vs[k]) == vs[k]
  {
    NonEmptyTrimmedStripped(Split(meta, ','));
    var vs := NonEmptyTrimmed(Split(meta, ','));
    if vs != [] && forall k :: 0 <= k < |vs| ==> IsCleanValue(vs[k]) then vs else []
  }

  /** The kind a (stripped) meta part declares: a range first, then a value list. */
  function Classify(meta: string): (k: Kind)
    ensures k.Numerical? <==> ScanRange(meta).Some?
    ensures k.Categorical? ==> forall i :: 0 <= i < |k.values| ==> IsCleanValue(k.values[i])
  {
    match ScanRange(meta)
    case Some((lo, hi)) => Numerical(Value(lo), Value(hi), IsIntegral(lo) && IsIntegral(hi))
    case None => Categorical(AllowedValues(meta))
  }

  /** The field one line contributes, if any. */
  function ParseLine(line: string): (r: Option<Field>)
    ensures r.Some? <==> MatchBullet(line).Some?
    ensures r.Some? ==> Snake.IsSnake(r.value.name)
  {
    match MatchBullet(line)
    case None => None
    case Some(m) => Some(Field(Snake.ToSnake(Trim(m.rawName)), Classify(Trim(m.meta))))
  }

  /** The result of each line, in line order. */
  function Parsed(lines: seq<string>): (rs: seq<Option<Field>>)
    ensures |rs| == |lines|
  {
    MapSeq(ParseLine, lines)
  }

  /** The fields of a sequence of lines: the lines' results that are present, in line order. */
  function ParsedFields(lines: seq<string>): (fields: seq<Field>)
    ensures |fields| <= |lines|
  {
    Present(Parsed(lines))
  }

  /** One more line adds that line's field, if any, at the end. */
  lemma {:induction false} ParsedFieldsStep(lines: seq<string>, i: nat)
    requires i < |lines|
    ensures var f := ParseLine(lines[i]);
      ParsedFields(lines[..i + 1]) == if f.Some? then ParsedFields(lines[..i]) + [f.value] else ParsedFields(lines[..i])
  {
    assert lines[..i + 1] == lines[..i] + [lines[i]];
    MapSeqSnoc(ParseLine, lines[..i], lines[i]);
    PresentSnoc(Parsed(lines[..i]), ParseLine(lines[i]));
  }

  /** `parse_prompt_columns(prompt)`: the fields of the prompt's lines. */
  method ParsePromptColumns(prompt: string) returns (fields: seq<Field>)
    ensures fields == ParsedFields(SplitLines(prompt))
  {
    fields := ParseLines(SplitLines(prompt));
  }

  /** The loop of `parse_prompt_columns`: one pass over the lines, appending each line's field. */
  method ParseLines(lines: seq<string>) returns (fields: seq<Field>)
    ensures fields == ParsedFields(lines)
  {
    fields := [];
    var i := 0;
    while i < |lines|
      invariant 0 <= i <= |lines|
      invariant fields == ParsedFields(lines[..i])
    {
      ParsedFieldsStep(lines, i);
      var f := ParseLine(lines[i]);
      if f.Some? {
        fields := fields + [f.value];
      }
      i := i + 1;
    }
    assert lines[..i] == lines;
  }

  // ---------------------------------------------------------------------------------------
  // What the parser produces

  /** A meta part with a leading range is classified by that range alone. */
  lemma {:induction false} ClassifyRange(meta: string, lo: Decimal, hi: Decimal)
    requires ScanRange(meta) == Some((lo, hi))
    ensures Classify(meta) == Numerical(Value(lo), Value(hi), IsIntegral(lo) && IsIntegral(hi))
  {
  }

  /** The first literal of a range is scanned back, up to the white space or dash after it. */
  lemma {:induction false} LeadingLiteral(d: Decimal, gap: string, dash: char, more: string)
    requires WellFormed(d) && AllSpace(gap) && IsRangeDash(dash)
    ensures var rest := gap + ([dash] + more);
      ScanNumber(StripLeading(Render(d) + rest, Space)) == Some((d, rest))
  {
    var rest := gap + ([dash] + more);
    assert rest[0] == (if gap == [] then dash else gap[0]);
    RenderStart(d);
    StripLeadingSpaces([], Render(d) + rest);
    assert [] + (Render(d) + rest) == Render(d) + rest;
    ScanRender(d, rest);
  }

  /** White space, a range dash and white space lead to the text after them. */
  lemma {:induction false} DashBetweenGaps(gap1: string, dash: char, gap2: string, h: string)
    requires AllSpace(gap1) && AllSpace(gap2) && IsRangeDash(dash)
    requires h != [] && !IsSpace(h[0])
    ensures var r := StripLeading(gap1 + ([dash] + (gap2 + h)), Space);
      r != [] && IsRangeDash(r[0]) && StripLeading(r[1..], Space) == h
  {
    StripLeadingSpaces(gap1, [dash] + (gap2 + h));
    ConcatSlices([dash], gap2 + h);
    StripLeadingSpaces(gap2, h);
  }

  /** The three steps the range scanner took to find a range. */
  lemma {:induction false} ScanRangeUnfold(meta: string) returns (y: string, tail: string)
    requires ScanRange(meta).Some?
    ensures var (lo, hi) := ScanRange(meta).value;
      && ScanNumber(StripLeading(meta, Space)) == Some((lo, y))
      && StripLeading(y, Space) != [] && IsRangeDash(StripLeading(y, Space)[0])
      && ScanNumber(StripLeading(StripLeading(y, Space)[1..], Space)) == Some((hi, tail))
  {
    y := ScanNumber(StripLeading(meta, Space)).value.1;
    var r := StripLeading(y, Space);
    tail := ScanNumber(StripLeading(r[1..], Space)).value.1;
  }

  /** A literal the scanner found after white space, with the text after it, is the scanned text. */
  lemma {:induction false} LiteralAfterGap(s: string, d: Decimal, rest: string) returns (gap: string)
    requires ScanNumber(StripLeading(s, Space)) == Some((d, rest))
    ensures AllSpace(gap) && WellFormed(d) && s == gap + (Render(d) + rest)
  {
    ScanNumberSound(StripLeading(s, Space));
    gap := LeadingGap(s);
  }

  /**
   * Every range the scanner finds is a range of the pattern: white space, the first literal,
   * white space, a `-` or `–`, white space, the second literal, and whatever follows.
   */
  lemma {:induction false} ScanRangeSound(meta: string) returns (gap0: string, gap1: string, dash: char, gap2: string, tail: string)
    requires ScanRange(meta).Some?
    ensures var (lo, hi) := ScanRange(meta).value;
      && WellFormed(lo) && WellFormed(hi) && IsRangeDash(dash)
      && AllSpace(gap0) && AllSpace(gap1) && AllSpace(gap2)
      && meta == gap0 + (Render(lo) + (gap1 + ([dash] + (gap2 + (Render(hi) + tail)))))
  {
    var (lo, hi) := ScanRange(meta).value;
    var y;
    y, tail := ScanRangeUnfold(meta);
    gap0, gap1, dash, gap2 := RangeFromSteps(meta, lo, y, hi, tail);
  }

  /** The text the three steps of the range scanner walked over, put back together. */
  lemma {:induction false} RangeFromSteps(meta: string, lo: Decimal, y: string, hi: Decimal, tail: string)
    returns (gap0: string, gap1: string, dash: char, gap2: string)
    requires ScanNumber(StripLeading(meta, Space)) == Some((lo, y))
    requires StripLeading(y, Space) != [] && IsRangeDash(StripLeading(y, Space)[0])
    requires ScanNumber(StripLeading(StripLeading(y, Space)[1..], Space)) == Some((hi, tail))
    ensures WellFormed(lo) && WellFormed(hi) && IsRangeDash(dash)
    ensures AllSpace(gap0) && AllSpace(gap1) && AllSpace(gap2)
    ensures meta == gap0 + (Render(lo) + (gap1 + ([dash] + (gap2 + (Render(hi) + tail)))))
  {
    gap0 := LiteralAfterGap(meta, lo, y);
    var r := StripLeading(y, Space);
    gap1 := LeadingGap(y);
    dash := r[0];
    HeadTail(r);
    gap2 := LiteralAfterGap(r[1..], hi, tail);
    RangeText(meta, gap0, Render(lo) + y, Render(lo), y, gap1, r, dash, r[1..],
      gap2, Render(hi) + tail, Render(hi), tail);
  }

  /** The pieces of a range, each the head of the text after the previous one, make up the range. */
  lemma {:induction false} RangeText(meta: string, gap0: string, m0: string, lo: string, y: string, gap1: string,
                                     r: string, dash: char, r1: string, gap2: string, m2: string, hi: string, tail: string)
    requires meta == gap0 + m0 && m0 == lo + y && y == gap1 + r && r == [dash] + r1
    requires r1 == gap2 + m2 && m2 == hi + tail
    ensures meta == gap0 + (lo + (gap1 + ([dash] + (gap2 + (hi + tail)))))
  {
  }

  /** The steps of the range scanner, each taken as given. */
  lemma {:induction false} ScanRangeSteps(meta: string, lo: Decimal, y: string, hi: Decimal, tail: string)
    requires ScanNumber(StripLeading(meta, Space)) == Some((lo, y))
    requires var r := StripLeading(y, Space);
      r != [] && IsRangeDash(r[0]) && ScanNumber(StripLeading(r[1..], Space)) == Some((hi, tail))
    ensures ScanRange(meta) == Some((lo, hi))
  {
  }

  /** After the first literal: white space, a dash, white space and the second literal, which is scanned back. */
  lemma {:induction false} SecondLiteral(gap1: string, dash: char, gap2: string, hi: Decimal, tail: string)
    requires WellFormed(hi) && IsRangeDash(dash)
    requires AllSpace(gap1) && AllSpace(gap2) && EndsLiteral(tail)
    ensures var r := StripLeading(gap1 + ([dash] + (gap2 + (Render(hi) + tail))), Space);
      r != [] && IsRangeDash(r[0]) && ScanNumber(StripLeading(r[1..], Space)) == Some((hi, tail))
  {
    var h := Render(hi) + tail;
    assert h != [] && !IsSpace(h[0]) by {
      RenderStart(hi);
    }
    DashBetweenGaps(gap1, dash, gap2, h);
    ScanRender(hi, tail);
  }

  /**
   * The range scanner finds the two literals of a rendered range, followed by any tail that
   * cannot extend the second literal (one that does not start with a digit or `.digit`).
   */
  lemma {:induction false} ScanRangeRender(lo: Decimal, gap1: string, dash: char, gap2: string, hi: Decimal, tail: string)
    requires WellFormed(lo) && WellFormed(hi) && IsRangeDash(dash)
    requires AllSpace(gap1) && AllSpace(gap2) && EndsLiteral(tail)
    ensures ScanRange(Render(lo) + (gap1 + ([dash] + (gap2 + (Render(hi) + tail))))) == Some((lo, hi))
  {
    var y := gap1 + ([dash] + (gap2 + (Render(hi) + tail)));
    LeadingLiteral(lo, gap1, dash, gap2 + (Render(hi) + tail));
    SecondLiteral(gap1, dash, gap2, hi, tail);
    ScanRangeSteps(Render(lo) + y, lo, y, hi, tail);
  }

  /**
   * A meta part that starts with a range, followed by a tail that does not start with a digit
   * or `.digit`, is numerical: its bounds
   * are the two literals' values, in the order written (a minimum above the maximum is kept),
   * and it is an integer field exactly when both values are whole numbers.
   */
  lemma {:induction false} RangeGivesNumerical(lo: Decimal, gap1: string, dash: char, gap2: string, hi: Decimal, tail: string)
    requires WellFormed(lo) && WellFormed(hi) && IsRangeDash(dash)
    requires AllSpace(gap1) && AllSpace(gap2) && EndsLiteral(tail)
    ensures var kind := Classify(Render(lo) + (gap1 + ([dash] + (gap2 + (Render(hi) + tail)))));
      && kind == Numerical(Value(lo), Value(hi), IsIntegral(lo) && IsIntegral(hi))
      && (kind.isInt <==> Value(lo) == Value(lo).Floor as real && Value(hi) == Value(hi).Floor as real)
  {
    ScanRangeRender(lo, gap1, dash, gap2, hi, tail);
    ClassifyRange(Render(lo) + (gap1 + ([dash] + (gap2 + (Render(hi) + tail)))), lo, hi);
    IntegralIffWholeValue(lo);
    IntegralIffWholeValue(hi);
  }

  /** Value of a non-negative two-digit literal whose fraction digits are all zero. */
  lemma {:induction false} TwoDigitValue(a: char, b: char, zeros: string)
    requires IsAsciiDigit(a) && IsAsciiDigit(b)
    requires AllDigits(zeros) && forall k :: 0 <= k < |zeros| ==> zeros[k] == '0'
    ensures Value(Decimal(false, [a, b], zeros)) == (10 * DigitValue(a) + DigitValue(b)) as real
  {
    assert [a, b][..1] == [a];
    assert [a][..0] == [];
    assert DigitsValue([a]) == DigitValue(a);
    assert DigitsValue([a, b]) == 10 * DigitValue(a) + DigitValue(b);
    DigitsValueZero(zeros);
  }

  lemma {:induction false} ReversedRangeParts()
    ensures Classify("80-18") == Numerical(Value(Decimal(false, "80", "")), Value(Decimal(false, "18", "")), true)
  {
    var lo, hi := Decimal(false, "80", ""), Decimal(false, "18", "");
    assert Render(lo) == "80" && Render(hi) == "18";
    assert Render(lo) + ("" + (['-'] + ("" + (Render(hi) + "")))) == "80-18";
    ScanRangeRender(lo, "", '-', "", hi, "");
    ClassifyRange("80-18", lo, hi);
  }

  /** `(80-18)`: the bounds are kept as written, minimum above maximum. */
  lemma {:induction false} ReversedRangeKept()
    ensures Classify("80-18") == Numerical(80.0, 18.0, true)
  {
    assert Value(Decimal(false, "80", "")) == 80.0 by { TwoDigitValue('8', '0', ""); }
    assert Value(Decimal(false, "18", "")) == 18.0 by { TwoDigitValue('1', '8', ""); }
    ReversedRangeParts();
  }

  lemma {:induction false} WholeFloatParts()
    ensures Classify("18.0 \U{2013} 80 years")
         == Numerical(Value(Decimal(false, "18", "0")), Value(Decimal(false, "80", "")),
                      IsIntegral(Decimal(false, "18", "0")) && IsIntegral(Decimal(false, "80", "")))
  {
    var lo, hi := Decimal(false, "18", "0"), Decimal(false, "80", "");
    var meta := "18.0 \U{2013} 80 years";
    assert Render(lo) == "18.0" && Render(hi) == "80";
    assert Render(lo) + (" " + (['\U{2013}'] + (" " + (Render(hi) + " years")))) == meta;
    ScanRangeRender(lo, " ", '\U{2013}', " ", hi, " years");
    ClassifyRange(meta, lo, hi);
  }

  /** `(18.0 – 80 years)`: a whole-valued literal with a fraction is still an integer bound. */
  lemma {:induction false} WholeFloatIsInt()
    ensures Classify("18.0 \U{2013} 80 years") == Numerical(18.0, 80.0, true)
  {
    assert IsIntegral(Decimal(false, "18", "0")) && IsIntegral(Decimal(false, "80", ""));
    assert Value(Decimal(false, "18", "0")) == 18.0 by { TwoDigitValue('1', '8', "0"); }
    assert Value(Decimal(false, "80", "")) == 80.0 by { TwoDigitValue('8', '0', ""); }
    WholeFloatParts();
  }

  /** `(0.5-2)`: a bound with a non-zero fraction makes the field a float field. */
  lemma {:induction false} FractionIsNotInt()
    ensures Classify("0.5-2").Numerical? && !Classify("0.5-2").isInt
  {
    var lo, hi := Decimal(false, "0", "5"), Decimal(false, "2", "");
    assert Render(lo) == "0.5" && Render(hi) == "2";
    assert Render(lo) + ("" + (['-'] + ("" + (Render(hi) + "")))) == "0.5-2";
    ScanRangeRender(lo, "", '-', "", hi, "");
    ClassifyRange("0.5-2", lo, hi);
    assert lo.fraction[0] != '0';
  }

  /**
   * The filter over all inputs: one more piece adds its stripped value at the end when that
   * value is non-empty, and nothing when the piece is blank.
   */
  lemma {:induction false} NonEmptyTrimmedSnoc(pieces: seq<string>, p: string)
    ensures NonEmptyTrimmed(pieces + [p]) == NonEmptyTrimmed(pieces) + (if Trim(p) == [] then [] else [Trim(p)])
  {
    MapSeqSnoc(NonBlank, pieces, p);
    PresentSnoc(MapSeq(NonBlank, pieces), NonBlank(p));
  }

  /**
   * The kept values are the non-blank pieces, stripped, in order: each comes from its own
   * piece, and every piece that does not strip to nothing is kept.
   */
  lemma {:induction false} NonEmptyTrimmedOrigin(pieces: seq<string>) returns (src: seq<nat>)
    ensures |src| == |NonEmptyTrimmed(pieces)|
    ensures forall k :: 0 <= k < |src| ==>
      src[k] < |pieces| && Trim(pieces[src[k]]) != [] && NonEmptyTrimmed(pieces)[k] == Trim(pieces[src[k]])
    ensures forall k, l :: 0 <= k < l < |src| ==> src[k] < src[l]
    ensures forall i :: 0 <= i < |pieces| && Trim(pieces[i]) != [] ==> i in src
  {
    var rs := MapSeq(NonBlank, pieces);
    src := PresentOrigin(rs);
    assert forall i :: 0 <= i < |pieces| ==> rs[i] == NonBlank(pieces[i]);
  }

  /** The kept values are non-empty and already stripped. */
  lemma {:induction false} NonEmptyTrimmedStripped(pieces: seq<string>)
    ensures var vs := NonEmptyTrimmed(pieces);
      forall k :: 0 <= k < |vs| ==> vs[k] != [] && Trim(vs[k]) == vs[k]
  {
    var src := NonEmptyTrimmedOrigin(pieces);
    forall k | 0 <= k < |src|
      ensures Trim(Trim(pieces[src[k]])) == Trim(pieces[src[k]])
    {
      TrimIdempotent(pieces[src[k]]);
    }
  }

  /** Pieces that each strip to a non-empty value give exactly those values. */
  lemma {:induction false} NonEmptyTrimmedOf(pieces: seq<string>, vs: seq<string>)
    requires |pieces| == |vs|
    requires forall k :: 0 <= k < |vs| ==> vs[k] != [] && Trim(pieces[k]) == vs[k]
    ensures NonEmptyTrimmed(pieces) == vs
  {
    var rs := MapSeq(NonBlank, pieces);
    assert forall k :: 0 <= k < |rs| ==> rs[k] == Some(vs[k]);
    PresentAll(rs, vs);
  }

  /** Meta text that starts with anything but white space, a minus sign or a digit is no range. */
  lemma {:induction false} NoRangeAfterLetter(meta: string)
    requires meta != [] && !IsSpace(meta[0]) && meta[0] != '-' && !IsAsciiDigit(meta[0])
    ensures ScanRange(meta) == None
  {
    StripLeadingSpaces([], meta);
    assert [] + meta == meta;
    LeadingDigitsOf([], meta);
  }

  /** Meta text that is no range is classified by its value list. */
  lemma {:induction false} ClassifyList(meta: string)
    requires ScanRange(meta) == None
    ensures Classify(meta) == Categorical(AllowedValues(meta))
  {
  }

  /** Comma-free pieces, one per value, each stripping to its clean value. */
  predicate CleanPieces(pieces: seq<string>, vs: seq<string>) {
    && |pieces| == |vs| >= 1
    && forall k :: 0 <= k < |vs| ==> ',' !in pieces[k] && Trim(pieces[k]) == vs[k] && IsCleanValue(vs[k])
  }

  /** Splitting a comma list at its commas and stripping the pieces gives the clean values back. */
  lemma {:induction false} CleanListValues(pieces: seq<string>, vs: seq<string>)
    requires CleanPieces(pieces, vs)
    ensures AllowedValues(Join(pieces, ',')) == vs
  {
    SplitJoin(pieces, ',');
    NonEmptyTrimmedOf(pieces, vs);
  }

  /**
   * Blank pieces (`(A,,B)`, `(A, B,)`) are dropped: when every non-blank piece strips to a
   * clean value and there is at least one, the values are the non-blank stripped pieces.
   */
  lemma {:induction false} CleanListDropsBlanks(pieces: seq<string>)
    requires |pieces| >= 1
    requires forall k :: 0 <= k < |pieces| ==> ',' !in pieces[k] && (Trim(pieces[k]) == [] || IsCleanValue(Trim(pieces[k])))
    requires exists k :: 0 <= k < |pieces| && Trim(pieces[k]) != []
    ensures AllowedValues(Join(pieces, ',')) == NonEmptyTrimmed(pieces)
  {
    var vs := NonEmptyTrimmed(pieces);
    assert Split(Join(pieces, ','), ',') == pieces by {
      SplitJoin(pieces, ',');
    }
    assert vs != [] && forall j :: 0 <= j < |vs| ==> IsCleanValue(vs[j]) by {
      var src := NonEmptyTrimmedOrigin(pieces);
      var k :| 0 <= k < |pieces| && Trim(pieces[k]) != [];
      assert k in src;
      forall j | 0 <= j < |vs|
        ensures IsCleanValue(vs[j])
      {
        var i := src[j];
        assert vs[j] == Trim(pieces[i]) && Trim(pieces[i]) != [];
      }
    }
  }

  /** A trailing comma followed by white space changes nothing: `(A, B,)` is `(A, B)`. */
  lemma {:induction false} TrailingBlankIgnored(pieces: seq<string>, blank: string)
    requires |pieces| >= 1 && forall k :: 0 <= k < |pieces| ==> ',' !in pieces[k]
    requires ',' !in blank && Trim(blank) == []
    ensures AllowedValues(Join(pieces + [blank], ',')) == AllowedValues(Join(pieces, ','))
  {
    var more := pieces + [blank];
    assert Split(Join(more, ','), ',') == more by {
      assert forall k :: 0 <= k < |more| ==> ',' !in more[k];
      SplitJoin(more, ',');
    }
    assert Split(Join(pieces, ','), ',') == pieces by {
      SplitJoin(pieces, ',');
    }
    assert NonEmptyTrimmed(more) == NonEmptyTrimmed(pieces) by {
      NonEmptyTrimmedSnoc(pieces, blank);
    }
  }

  /**
   * A comma list whose pieces strip to clean values, and whose first piece starts with a
   * letter or `_`, is categorical with exactly the stripped values.
   */
  lemma {:induction false} CleanListGivesCategorical(pieces: seq<string>, vs: seq<string>)
    requires CleanPieces(pieces, vs)
    requires pieces[0] != [] && (IsAsciiLetter(pieces[0][0]) || pieces[0][0] == '_')
    ensures Classify(Join(pieces, ',')) == Categorical(vs)
  {
    var meta := Join(pieces, ',');
    var c := pieces[0][0];
    assert !IsSpace(c) && c != '-' && !IsAsciiDigit(c);
    assert AllowedValues(meta) == vs by { CleanListValues(pieces, vs); }
    assert meta != [] && meta[0] == c by {
      JoinStart(pieces, ',');
      assert meta[..|pieces[0]|][0] == meta[0];
    }
    assert ScanRange(meta) == None by { NoRangeAfterLetter(meta); }
    ClassifyList(meta);
  }

  /** One stripped piece that is not a clean value empties the whole list. */
  lemma {:induction false} UncleanValueEmptiesList(meta: string, k: nat)
    requires ScanRange(meta) == None
    requires k < |NonEmptyTrimmed(Split(meta, ','))| && !IsCleanValue(NonEmptyTrimmed(Split(meta, ','))[k])
    ensures Classify(meta) == Categorical([])
  {
    ClassifyList(meta);
  }

  /** `()`: nothing between the parentheses gives a categorical field without values. */
  lemma {:induction false} EmptyMetaGivesNoValues()
    ensures Classify("") == Categorical([])
  {
    assert ScanRange("") == None by { LeadingDigitsOf([], []); }
    EmptyListHasNoPieces();
    ClassifyList("");
  }

  /** The one piece of `"".split(',')` is blank, so no value is kept. */
  lemma {:induction false} EmptyListHasNoPieces()
    ensures NonEmptyTrimmed(Split("", ',')) == []
  {
    assert Split("", ',') == [""] by { SplitJoin([""], ','); }
    assert Trim("") == [];
    NonEmptyTrimmedSnoc([], "");
    assert [] + [""] == [""];
  }

  /** A bullet line yields the field named by its stripped name group and classified by its stripped meta group. */
  lemma {:induction false} ParseLineOfBullet(line: string, b: nat, p: nat, q: nat)
    requires BulletAt(line, b, p, q)
    ensures ParseLine(line) == Some(Field(Snake.ToSnake(Trim(line[b + 1..p])), Classify(Trim(line[p + 1..q]))))
  {
    MatchBulletComplete(line, b, p, q);
  }

  /**
   * The parsed fields come from the bullet lines, one each and in line order, and every
   * bullet line contributes its field.
   */
  lemma {:induction false} ParsedFieldsOrigin(lines: seq<string>) returns (src: seq<nat>)
    ensures |src| == |ParsedFields(lines)|
    ensures forall k :: 0 <= k < |src| ==> src[k] < |lines| && ParseLine(lines[src[k]]) == Some(ParsedFields(lines)[k])
    ensures forall k, l :: 0 <= k < l < |src| ==> src[k] < src[l]
    ensures forall i :: 0 <= i < |lines| && ParseLine(lines[i]).Some? ==> i in src
  {
    var rs := Parsed(lines);
    src := PresentOrigin(rs);
    assert forall i :: 0 <= i < |lines| ==> rs[i] == ParseLine(lines[i]);
  }

  // ---------------------------------------------------------------------------------------
  // Mapping over a sequence, and keeping the present values of a sequence of optional values

  /** `f` applied to each element, in order. */
  function MapSeq<A, B>(f: A -> B, xs: seq<A>): (ys: seq<B>)
    ensures |ys| == |xs|
    ensures forall k :: 0 <= k < |xs| ==> ys[k] == f(xs[k])
  {
    seq(|xs|, k requires 0 <= k < |xs| => f(xs[k]))
  }

  lemma {:induction false} MapSeqSnoc<A, B>(f: A -> B, xs: seq<A>, x: A)
    ensures MapSeq(f, xs + [x]) == MapSeq(f, xs) + [f(x)]
  {
    assert forall k :: 0 <= k < |xs| ==> (xs + [x])[k] == xs[k];
  }


  /** The values that are present, in order. */
  function Present<T>(rs: seq<Option<T>>): (xs: seq<T>)
    ensures |xs| <= |rs|
  {
    if rs == [] then []
    else
      var last := match rs[|rs| - 1] case Some(x) => [x] case None => [];
      Present(rs[..|rs| - 1]) + last
  }

  lemma {:induction false} PresentSnoc<T>(rs: seq<Option<T>>, r: Option<T>)
    ensures Present(rs + [r]) == if r.Some? then Present(rs) + [r.value] else Present(rs)
  {
    assert (rs + [r])[..|rs|] == rs;
  }

  /** When every value is present, all of them are kept. */
  lemma {:induction false} PresentAll<T>(rs: seq<Option<T>>, xs: seq<T>)
    requires |rs| == |xs|
    requires forall k :: 0 <= k < |rs| ==> rs[k] == Some(xs[k])
    ensures Present(rs) == xs
    decreases |rs|
  {
    if rs != [] {
      var n := |rs| - 1;
      PresentAll(rs[..n], xs[..n]);
      assert xs == xs[..n] + [xs[n]];
    }
  }

  /** Each present value comes from its own position, in order, and every present position is kept. */
  lemma {:induction false} PresentOrigin<T>(rs: seq<Option<T>>) returns (src: seq<nat>)
    ensures |src| == |Present(rs)|
    ensures forall k :: 0 <= k < |src| ==> src[k] < |rs| && rs[src[k]] == Some(Present(rs)[k])
    ensures forall k, l :: 0 <= k < l < |src| ==> src[k] < src[l]
    ensures forall i :: 0 <= i < |rs| && rs[i].Some? ==> i in src
    decreases |rs|
  {
    if rs == [] {
      src := [];
    } else {
      var last := |rs| - 1;
      var init := rs[..last];
      var earlier := PresentOrigin(init);
      assert forall i :: 0 <= i < last ==> rs[i] == init[i];
      if rs[last].Some? {
        assert Present(rs) == Present(init) + [rs[last].value];
        src := earlier + [last];
        assert forall i :: 0 <= i < |rs| && rs[i].Some? ==> i == last || i in earlier;
      } else {
        assert Present(rs) == Present(init);
        src := earlier;
      }
    }
  }
}
