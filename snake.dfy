/**
 * Column-name normalisation (`to_snake`): trim, lower-case, turn every run of characters
 * outside `[a-z0-9]` into one underscore, collapse repeated underscores, strip underscores
 * from both ends.
 */
module Snake {
  import opened Text

  /** The characters `to_snake` keeps as they are: `[a-z0-9]`. */
  predicate IsWordChar(c: char) { 'a' <= c <= 'z' || '0' <= c <= '9' }

  predicate OnlySnakeChars(s: string) {
    forall i :: 0 <= i < |s| ==> IsWordChar(s[i]) || s[i] == '_'
  }

  predicate NoDoubleUnderscore(s: string) {
    forall i :: 0 <= i < |s| - 1 ==> s[i] != '_' || s[i + 1] != '_'
  }

  /** The shape of every normalised name: `[a-z0-9_]` only, no `__`, no `_` at either end. */
  predicate IsSnake(s: string) {
    && OnlySnakeChars(s)
    && NoDoubleUnderscore(s)
    && (s == [] || (s[0] != '_' && s[|s| - 1] != '_'))
  }

  /** The `[a-z0-9]` characters of `s`, in order. */
  function WordChars(s: string): string {
    if s == [] then [] else (if IsWordChar(s[0]) then [s[0]] else []) + WordChars(s[1..])
  }

  lemma {:induction false} WordCharsConcat(a: string, b: string)
    ensures WordChars(a + b) == WordChars(a) + WordChars(b)
  {
    if a != [] {
      assert (a + b)[0] == a[0];
      assert (a + b)[1..] == a[1..] + b;
      WordCharsConcat(a[1..], b);
    } else {
      assert a + b == b;
    }
  }

  lemma {:induction false} WordCharsNone(s: string)
    ensures WordChars(s) == [] <==> forall i :: 0 <= i < |s| ==> !IsWordChar(s[i])
  {
    if s != [] {
      WordCharsNone(s[1..]);
      assert forall i :: 1 <= i < |s| ==> s[i] == s[1..][i - 1];
    }
  }

  /** Cutting non-word characters off both ends keeps the word characters. */
  lemma {:induction false} WordCharsSlice(s: string, i: nat, j: nat)
    requires i <= j <= |s|
    requires forall k :: 0 <= k < i ==> !IsWordChar(s[k])
    requires forall k :: j <= k < |s| ==> !IsWordChar(s[k])
    ensures WordChars(s[i..j]) == WordChars(s)
  {
    var pre, mid, post := s[..i], s[i..j], s[j..];
    assert WordChars(pre) == [] by {
      assert forall k :: 0 <= k < |pre| ==> pre[k] == s[k];
      WordCharsNone(pre);
    }
    assert WordChars(post) == [] by {
      assert forall k :: 0 <= k < |post| ==> post[k] == s[j + k];
      WordCharsNone(post);
    }
    assert s == pre + mid + post;
    WordCharsConcat(pre + mid, post);
    WordCharsConcat(pre, mid);
  }

  /**
   * `re.sub(r"[^a-z0-9]+", "_", s)`: each maximal run of other characters becomes one `_`
   * (a separator followed by another is dropped; the last one of a run becomes `_`).
   */
  function ReplaceRuns(s: string): (r: string)
    ensures OnlySnakeChars(r) && NoDoubleUnderscore(r)
    ensures s != [] && IsWordChar(s[0]) ==> r != [] && r[0] == s[0]
  {
    if s == [] then []
    else if IsWordChar(s[0]) then [s[0]] + ReplaceRuns(s[1..])
    else if |s| > 1 && !IsWordChar(s[1]) then ReplaceRuns(s[1..])
    else "_" + ReplaceRuns(s[1..])
  }

  /** The first substitution keeps every `[a-z0-9]` character, in order, and adds none. */
  lemma {:induction false} ReplaceRunsKeepsWordChars(s: string)
    ensures WordChars(ReplaceRuns(s)) == WordChars(s)
    decreases |s|
  {
    if s != [] {
      ReplaceRunsKeepsWordChars(s[1..]);
      var rest := ReplaceRuns(s[1..]);
      if IsWordChar(s[0]) {
        WordCharsConcat([s[0]], rest);
      } else if |s| == 1 || IsWordChar(s[1]) {
        WordCharsConcat("_", rest);
      }
    }
  }

  /**
   * `re.sub(r"_+", "_", s)`: each run of underscores becomes one (an underscore followed
   * by another is dropped).
   */
  function SqueezeUnderscores(s: string): (r: string)
    ensures NoDoubleUnderscore(r)
    ensures OnlySnakeChars(s) ==> OnlySnakeChars(r)
    ensures WordChars(r) == WordChars(s)
    ensures s != [] && s[0] != '_' ==> r != [] && r[0] == s[0]
  {
    if s == [] then []
    else if s[0] == '_' && |s| > 1 && s[1] == '_' then SqueezeUnderscores(s[1..])
    else
      assert OnlySnakeChars(s) ==> OnlySnakeChars(s[1..]);
      [s[0]] + SqueezeUnderscores(s[1..])
  }

  /** `s.strip('_')` keeps the shape, gains clean ends and loses no word character. */
  lemma {:induction false} StripUnderscoresShape(s: string)
    requires OnlySnakeChars(s) && NoDoubleUnderscore(s)
    ensures IsSnake(Strip(s, Only('_')))
    ensures WordChars(Strip(s, Only('_'))) == WordChars(s)
  {
    var i, j := StripSlice(s, Only('_'));
    var r := s[i..j];
    assert forall m :: 0 <= m < |r| ==> r[m] == s[i + m];
    assert OnlySnakeChars(r) && NoDoubleUnderscore(r);
    assert forall k :: 0 <= k < i ==> s[k] == '_';
    assert forall k :: j <= k < |s| ==> s[k] == '_';
    WordCharsSlice(s, i, j);
  }

  /** Trimming removes only white space, which holds no word character either way. */
  lemma {:induction false} WordCharsLowerTrim(s: string)
    ensures WordChars(Lower(Trim(s))) == WordChars(Lower(s))
  {
    var i, j := StripSlice(s, Space);
    var low := Lower(s);
    LowerSlice(s, i, j);
    assert forall k :: 0 <= k < i ==> !IsWordChar(low[k]);
    assert forall k :: j <= k < |s| ==> !IsWordChar(low[k]);
    WordCharsSlice(low, i, j);
  }

  /**
   * `to_snake(name)`. The result always has the snake shape, and its `[a-z0-9]` characters
   * are exactly those of the lower-cased name, in order.
   */
  function ToSnake(name: string): (r: string)
    ensures IsSnake(r)
    ensures WordChars(r) == WordChars(Lower(name))
  {
    var lowered := Lower(Trim(name));
    var squeezed := SqueezeUnderscores(ReplaceRuns(lowered));
    ReplaceRunsKeepsWordChars(lowered);
    StripUnderscoresShape(squeezed);
    WordCharsLowerTrim(name);
    Strip(squeezed, Only('_'))
  }

  predicate IsWord(w: string) { w != [] && forall i :: 0 <= i < |w| ==> IsWordChar(w[i]) }

  /** The length of the run of `[a-z0-9]` characters `s` starts with. */
  function WordRun(s: string): (n: nat)
    ensures n <= |s|
    ensures forall k :: 0 <= k < n ==> IsWordChar(s[k])
    ensures n < |s| ==> !IsWordChar(s[n])
    decreases |s|
  {
    if s == [] || !IsWordChar(s[0]) then 0
    else
      var n := 1 + WordRun(s[1..]);
      assert forall k :: 1 <= k < n ==> s[k] == s[1..][k - 1];
      n
  }

  /** The maximal runs of `[a-z0-9]` characters in `s`, in order. */
  function Words(s: string): (ws: seq<string>)
    ensures forall k :: 0 <= k < |ws| ==> IsWord(ws[k])
    decreases |s|
  {
    if s == [] then []
    else if !IsWordChar(s[0]) then Words(s[1..])
    else
      var n := WordRun(s);
      [s[..n]] + Words(s[n..])
  }

  /** A run of other characters at the front becomes one `_` and separates no words. */
  lemma {:induction false} GapEnd(s: string) returns (m: nat)
    requires s != [] && !IsWordChar(s[0])
    ensures 1 <= m <= |s| && (m < |s| ==> IsWordChar(s[m]))
    ensures ReplaceRuns(s) == "_" + ReplaceRuns(s[m..])
    ensures Words(s) == Words(s[m..])
    decreases |s|
  {
    if |s| == 1 || IsWordChar(s[1]) {
      m := 1;
    } else {
      var m' := GapEnd(s[1..]);
      m := m' + 1;
      assert s[1..][m'..] == s[m..];
    }
  }

  /** A run of `[a-z0-9]` characters at the front is kept as it is. */
  lemma {:induction false} WordKept(w: string, t: string)
    requires forall k :: 0 <= k < |w| ==> IsWordChar(w[k])
    ensures ReplaceRuns(w + t) == w + ReplaceRuns(t)
  {
    if w == [] {
      assert w + t == t;
    } else {
      var s := w + t;
      assert ReplaceRuns(s) == [w[0]] + ReplaceRuns(w[1..] + t) by {
        assert s[0] == w[0];
        assert s[1..] == w[1..] + t;
      }
      WordKept(w[1..], t);
      assert [w[0]] + w[1..] == w;
      AfterWord(ReplaceRuns(s), [w[0]], ReplaceRuns(w[1..] + t), w[1..], [], ReplaceRuns(t));
    }
  }

  /**
   * The first substitution turns `s` into its words joined by `_`, with one `_` more in front
   * exactly when `s` starts with another character, and at most one `_` more at the end (none
   * when `s` has no word).
   */
  lemma {:induction false} RunsAsWords(s: string) returns (u: string, u2: string)
    ensures u == (if s != [] && !IsWordChar(s[0]) then "_" else "")
    ensures (u2 == "" || u2 == "_") && (Words(s) == [] ==> u2 == "")
    ensures ReplaceRuns(s) == u + Join(Words(s), '_') + u2
    decreases |s|, 1
  {
    if s == [] {
      u, u2 := "", "";
    } else if !IsWordChar(s[0]) {
      u2 := RunsAfterGap(s);
      u := "_";
    } else {
      u2 := RunsFromWord(s);
      u := "";
    }
  }

  lemma {:induction false} RunsAfterGap(s: string) returns (u2: string)
    requires s != [] && !IsWordChar(s[0])
    ensures (u2 == "" || u2 == "_") && (Words(s) == [] ==> u2 == "")
    ensures ReplaceRuns(s) == "_" + Join(Words(s), '_') + u2
    decreases |s|, 0
  {
    var m := GapEnd(s);
    var v;
    v, u2 := RunsAsWords(s[m..]);
    AfterGap(ReplaceRuns(s), ReplaceRuns(s[m..]), v, Join(Words(s[m..]), '_'), u2);
  }

  lemma {:induction false} RunsFromWord(s: string) returns (u2: string)
    requires s != [] && IsWordChar(s[0])
    ensures (u2 == "" || u2 == "_") && (Words(s) == [] ==> u2 == "")
    ensures ReplaceRuns(s) == "" + Join(Words(s), '_') + u2
    decreases |s|, 0
  {
    var n := WordRun(s);
    var w, t := s[..n], s[n..];
    assert s == w + t;
    WordKept(w, t);
    assert Words(s) == [w] + Words(t);
    if t == [] {
      u2 := "";
      assert Join(Words(s), '_') == w;
      AfterWord(ReplaceRuns(s), w, ReplaceRuns(t), "", [], "");
    } else {
      var v, v2 := RunsAsWords(t);
      if Words(t) == [] {
        u2 := "_";
        assert Join(Words(s), '_') == w;
        AfterWord(ReplaceRuns(s), w, ReplaceRuns(t), v, [], "");
      } else {
        u2 := v2;
        JoinCons(w, Words(t), '_');
        AfterWord(ReplaceRuns(s), w, ReplaceRuns(t), v, Join(Words(t), '_'), v2);
      }
    }
  }

  lemma {:induction false} AfterGap(r: string, x: string, v: string, j: string, u2: string)
    requires v == "" && r == "_" + x && x == v + j + u2
    ensures r == "_" + j + u2
  {
  }

  lemma {:induction false} AfterWord(r: string, w: string, x: string, v: string, j: string, u2: string)
    requires r == w + x && x == v + j + u2
    ensures r == w + v + j + u2
  {
  }

  /** Words joined by `_` start and end with a word character. */
  lemma {:induction false} JoinWordsEnds(ws: seq<string>)
    requires forall k :: 0 <= k < |ws| ==> IsWord(ws[k])
    ensures var j := Join(ws, '_'); j == [] || (IsWordChar(j[0]) && IsWordChar(j[|j| - 1]))
  {
    if |ws| > 1 {
      JoinWordsEnds(ws[1..]);
      var rest := Join(ws[1..], '_');
      assert Join(ws, '_') == ws[0] + ['_'] + rest;
      assert rest != [] by { JoinStart(ws[1..], '_'); }
    }
  }

  /** Stripping underscores off a core that starts and ends with a word character leaves the core. */
  lemma {:induction false} StripAroundCore(u: string, j: string, u2: string)
    requires (u == "" || u == "_") && (u2 == "" || u2 == "_")
    requires j == [] || (IsWordChar(j[0]) && IsWordChar(j[|j| - 1]))
    ensures Strip(u + j + u2, Only('_')) == j
  {
    if j == [] {
      assert u + j + u2 == u + u2;
      StripUnderscoresOnly(u, u2);
    } else {
      StripAroundWords(u, j, u2);
    }
  }

  lemma {:induction false} StripUnderscoresOnly(u: string, u2: string)
    requires (u == "" || u == "_") && (u2 == "" || u2 == "_")
    ensures Strip(u + u2, Only('_')) == []
  {
    var s := u + u2;
    var a, b := StripSlice(s, Only('_'));
    assert a == b;
  }

  lemma {:induction false} StripAroundWords(u: string, j: string, u2: string)
    requires (u == "" || u == "_") && (u2 == "" || u2 == "_")
    requires j != [] && IsWordChar(j[0]) && IsWordChar(j[|j| - 1])
    ensures Strip(u + j + u2, Only('_')) == j
  {
    assert u + j + u2 == u + (j + u2);
    StripFrontUnderscore(u, j + u2);
    StripBackUnderscore(j, u2);
  }

  lemma {:induction false} StripFrontUnderscore(u: string, rest: string)
    requires u == "" || u == "_"
    requires rest != [] && rest[0] != '_'
    ensures StripLeading(u + rest, Only('_')) == rest
  {
    var s := u + rest;
    if u == "_" {
      assert s[0] == '_' && s[1] == rest[0];
      assert s[1..] == rest;
    } else {
      assert s == rest;
    }
  }

  lemma {:induction false} StripBackUnderscore(rest: string, u2: string)
    requires u2 == "" || u2 == "_"
    requires rest != [] && rest[|rest| - 1] != '_'
    ensures StripTrailing(rest + u2, Only('_')) == rest
  {
    var s := rest + u2;
    if u2 == "_" {
      assert s[|s| - 1] == '_' && s[|s| - 2] == rest[|rest| - 1];
      assert s[..|rest|] == rest;
    } else {
      assert s == rest;
    }
  }

  /**
   * `to_snake(name)` is the runs of `[a-z0-9]` characters of the trimmed, lower-cased name,
   * joined by single underscores.
   */
  lemma {:induction false} ToSnakeWords(name: string)
    ensures ToSnake(name) == Join(Words(Lower(Trim(name))), '_')
  {
    var lowered := Lower(Trim(name));
    SqueezeIsRedundant(lowered);
    var u, u2 := RunsAsWords(lowered);
    JoinWordsEnds(Words(lowered));
    StripAroundCore(u, Join(Words(lowered), '_'), u2);
  }

  /** A name with no ASCII letter and no ASCII digit (punctuation, white space) normalises to "". */
  lemma {:induction false} NoLettersOrDigitsGiveEmpty(name: string)
    requires forall i :: 0 <= i < |name| ==> !IsAsciiLetter(name[i]) && !IsAsciiDigit(name[i])
    ensures ToSnake(name) == ""
  {
    var r := ToSnake(name);
    var low := Lower(name);
    assert forall i :: 0 <= i < |low| ==> !IsWordChar(low[i]);
    WordCharsNone(low);
    WordCharsNone(r);
  }

  /** The second substitution is a no-op on text that has no `__` already. */
  lemma {:induction false} SqueezeKeeps(s: string)
    requires NoDoubleUnderscore(s)
    ensures SqueezeUnderscores(s) == s
    decreases |s|
  {
    if s != [] {
      assert NoDoubleUnderscore(s[1..]);
      SqueezeKeeps(s[1..]);
    }
  }

  /** Because the first substitution never produces `__`, `re.sub(r"_+", "_", ...)` never changes anything. */
  lemma {:induction false} SqueezeIsRedundant(s: string)
    ensures SqueezeUnderscores(ReplaceRuns(s)) == ReplaceRuns(s)
  {
    SqueezeKeeps(ReplaceRuns(s));
  }

  lemma {:induction false} ReplaceRunsKeeps(s: string)
    requires OnlySnakeChars(s) && NoDoubleUnderscore(s)
    ensures ReplaceRuns(s) == s
    decreases |s|
  {
    if s != [] {
      assert OnlySnakeChars(s[1..]) && NoDoubleUnderscore(s[1..]);
      ReplaceRunsKeeps(s[1..]);
    }
  }

  /** Every name already in snake shape is left unchanged. */
  lemma {:induction false} SnakeIsFixpoint(s: string)
    requires IsSnake(s)
    ensures ToSnake(s) == s
  {
    StripKeeps(s, Space);
    assert Lower(s) == s;
    ReplaceRunsKeeps(s);
    SqueezeKeeps(s);
    StripKeeps(s, Only('_'));
  }

  /** `to_snake` is idempotent. */
  lemma {:induction false} ToSnakeIdempotent(name: string)
    ensures ToSnake(ToSnake(name)) == ToSnake(name)
  {
    SnakeIsFixpoint(ToSnake(name));
  }
}
