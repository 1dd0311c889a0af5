/**
 * `generate-constraints`: per-field value constraints as a JSON object. Without a model the
 * bounds of the numerical fields parsed from the prompt are collected; with a model its reply
 * is cleaned of Markdown code fences and kept only if it parses as JSON.
 */
module Constraints {
  import opened Wrappers
  import opened Text
  import opened Dicts
  import Prompt

  /** The `{"min": ..., "max": ...}` object stored for one numerical field. */
  datatype Bounds = Bounds(min: real, max: real)

  type ConstraintTable = Entries<Bounds>

  // ---------------------------------------------------------------------------------------
  // The offline constraints

  /** The constraints the loop has built after the given fields. */
  function ConstraintsOf(fields: seq<Prompt.Field>): ConstraintTable {
    if fields == [] then []
    else
      var d := ConstraintsOf(fields[..|fields| - 1]);
      var f := fields[|fields| - 1];
      match f.kind
      case Numerical(lo, hi, _) => Put(d, f.name, Bounds(lo, hi))
      case Categorical(_) => d
  }

  /** The field is numerical and named `name`. */
  predicate NumericalNamed(f: Prompt.Field, name: string) {
    f.kind.Numerical? && f.name == name
  }

  /**
   * The offline branch of `generate-constraints`: for each parsed numerical field, in order,
   * `constraints[name] = {"min": min, "max": max}`.
   */
  method OfflineConstraints(prompt: string) returns (constraints: ConstraintTable)
    ensures constraints == ConstraintsOf(Prompt.ParsedFields(SplitLines(prompt)))
  {
    var fields := Prompt.ParsePromptColumns(prompt);
    constraints := CollectBounds(fields);
  }

  /** The loop of the offline branch over the parsed fields. */
  method CollectBounds(fields: seq<Prompt.Field>) returns (constraints: ConstraintTable)
    ensures constraints == ConstraintsOf(fields)
  {
    constraints := [];
    for i := 0 to |fields|
      invariant constraints == ConstraintsOf(fields[..i])
    {
      assert fields[..i + 1][..i] == fields[..i];
      var f := fields[i];
      if f.kind.Numerical? {
        constraints := Put(constraints, f.name, Bounds(f.kind.min, f.kind.max));
      }
    }
    assert fields[..|fields|] == fields;
  }

  /** Every key is the name of a numerical field, every numerical name is a key, and none twice. */
  lemma {:induction false} ConstraintKeys(fields: seq<Prompt.Field>)
    ensures DistinctKeys(ConstraintsOf(fields))
    ensures forall name :: name in Keys(ConstraintsOf(fields)) <==>
      exists i :: 0 <= i < |fields| && NumericalNamed(fields[i], name)
    decreases |fields|
  {
    if fields != [] {
      var init := fields[..|fields| - 1];
      var f := fields[|fields| - 1];
      ConstraintKeys(init);
      assert forall i :: 0 <= i < |init| ==> init[i] == fields[i];
      if f.kind.Numerical? {
        var d := ConstraintsOf(init);
        PutKeys(d, f.name, Bounds(f.kind.min, f.kind.max));
        PutDistinct(d, f.name, Bounds(f.kind.min, f.kind.max));
        assert NumericalNamed(fields[|fields| - 1], f.name);
      }
    }
  }

  /** A name with no numerical field has no constraint. */
  lemma {:induction false} UnnamedHasNoConstraint(fields: seq<Prompt.Field>, name: string)
    requires forall i :: 0 <= i < |fields| ==> !NumericalNamed(fields[i], name)
    ensures Get(ConstraintsOf(fields), name) == None
  {
    ConstraintKeys(fields);
  }

  /** When several numerical fields share a name, the constraint holds the bounds of the last one. */
  lemma {:induction false} LastFieldWins(fields: seq<Prompt.Field>, i: nat, name: string)
    requires i < |fields| && NumericalNamed(fields[i], name)
    requires forall j :: i < j < |fields| ==> !NumericalNamed(fields[j], name)
    ensures Get(ConstraintsOf(fields), name) == Some(Bounds(fields[i].kind.min, fields[i].kind.max))
    decreases |fields|
  {
    var init := fields[..|fields| - 1];
    var f := fields[|fields| - 1];
    var d := ConstraintsOf(init);
    if i == |fields| - 1 {
      PutGet(d, f.name, Bounds(f.kind.min, f.kind.max), name);
    } else {
      assert forall j :: 0 <= j < |init| ==> init[j] == fields[j];
      LastFieldWins(init, i, name);
      if f.kind.Numerical? {
        assert !NumericalNamed(fields[|fields| - 1], name);
        PutGet(d, f.name, Bounds(f.kind.min, f.kind.max), name);
      }
    }
  }

  /**
   * Keys keep the order in which their names first appear among the numerical fields: the
   * name of a numerical field comes before the name of any later first-seen numerical field.
   */
  lemma {:induction false} KeysInFirstOrder(fields: seq<Prompt.Field>, i: nat, j: nat)
    requires i < j < |fields| && fields[i].kind.Numerical? && fields[j].kind.Numerical?
    requires forall k :: 0 <= k < j ==> !NumericalNamed(fields[k], fields[j].name)
    ensures exists p, q :: 0 <= p < q < |ConstraintsOf(fields)|
                           && Keys(ConstraintsOf(fields))[p] == fields[i].name
                           && Keys(ConstraintsOf(fields))[q] == fields[j].name
    decreases |fields|
  {
    var init := fields[..|fields| - 1];
    var f := fields[|fields| - 1];
    var d := ConstraintsOf(init);
    var e := ConstraintsOf(fields);
    assert forall k :: 0 <= k < |init| ==> init[k] == fields[k];
    if j < |fields| - 1 {
      KeysInFirstOrder(init, i, j);
      var p, q :| 0 <= p < q < |d| && Keys(d)[p] == fields[i].name && Keys(d)[q] == fields[j].name;
      if f.kind.Numerical? {
        PutKeys(d, f.name, Bounds(f.kind.min, f.kind.max));
      }
      assert Keys(e)[p] == Keys(d)[p] && Keys(e)[q] == Keys(d)[q];
    } else {
      ConstraintKeys(init);
      assert NumericalNamed(init[i], fields[i].name);
      assert fields[i].name in Keys(d);
      assert fields[j].name !in Keys(d) by {
        forall k | 0 <= k < |init| ensures !NumericalNamed(init[k], fields[j].name) {
          assert !NumericalNamed(fields[k], fields[j].name);
        }
      }
      var p :| 0 <= p < |d| && Keys(d)[p] == fields[i].name;
      PutKeys(d, f.name, Bounds(f.kind.min, f.kind.max));
      assert Keys(e) == Keys(d) + [f.name];
      assert Keys(e)[p] == fields[i].name && Keys(e)[|d|] == fields[j].name;
    }
  }

  // ---------------------------------------------------------------------------------------
  // The model's reply

  const Fence := "```"

  predicate StartsWith(s: string, prefix: string) {
    |prefix| <= |s| && s[..|prefix|] == prefix
  }

  predicate EndsWith(s: string, suffix: string) {
    |suffix| <= |s| && s[|s| - |suffix|..] == suffix
  }

  /** `re.sub(r"^```(?:json)?", "", text)`: the pattern can only match at the very start. */
  function DropOpeningFence(text: string): (r: string)
    ensures |r| <= |text| && r == text[|text| - |r|..]
    ensures !StartsWith(text, Fence) ==> r == text
  {
    if StartsWith(text, Fence + "json") then text[|Fence + "json"|..]
    else if StartsWith(text, Fence) then text[|Fence|..]
    else text
  }

  /**
   * `re.sub(r"```$", "", text)`: `$` matches at the end and just before a final newline, and
   * only one of the two can be preceded by a fence.
   */
  function DropClosingFence(text: string): (r: string)
    ensures |r| <= |text|
    ensures !EndsWith(text, Fence) && !EndsWith(text, Fence + "\n") ==> r == text
  {
    if EndsWith(text, Fence) then text[..|text| - |Fence|]
    else if EndsWith(text, Fence + "\n") then text[..|text| - |Fence + "\n"|] + "\n"
    else text
  }

  /** The reply text after the strip, the two substitutions and the strips after each. */
  function CleanReply(text: string): (r: string)
    ensures Stripped(r)
  {
    var t := Trim(DropOpeningFence(Trim(text)));
    Trim(DropClosingFence(t))
  }

  /** What `model.generate_content` did: raised, or answered with a text that may be `None`. */
  datatype ModelReply = Raised | Answered(text: Option<string>)

  /**
   * The JSON the online branch prints: the cleaned reply when `isJson` (standing for
   * `json.loads` succeeding) accepts it, `{}` otherwise.
   */
  function ConstraintsReply(reply: ModelReply, isJson: string -> bool): (r: string)
    ensures r == "{}" || isJson(r)
    ensures reply.Raised? ==> r == "{}"
    ensures reply.Answered? && isJson(CleanReply(reply.text.GetOr(""))) ==> r == CleanReply(reply.text.GetOr(""))
    ensures reply.Answered? && !isJson(CleanReply(reply.text.GetOr(""))) ==> r == "{}"
  {
    match reply
    case Raised => "{}"
    case Answered(text) =>
      var cleaned := CleanReply(text.GetOr(""));
      if isJson(cleaned) then cleaned else "{}"
  }

  /** On stripped text the closing substitution only ever removes a final fence. */
  lemma {:induction false} ClosingFenceOfTrimmed(text: string)
    requires Trim(text) == text
    ensures DropClosingFence(text) == if EndsWith(text, Fence) then text[..|text| - 3] else text
  {
    assert EndsWith(text, Fence + "\n") ==> text[|text| - 1] == (Fence + "\n")[3];
    if text != [] {
      assert !IsSpace(text[|text| - 1]);
    }
  }

  /** A reply with neither an opening nor a closing fence is only stripped. */
  lemma {:induction false} UnfencedReplyOnlyStripped(text: string)
    requires !StartsWith(Trim(text), Fence) && !EndsWith(Trim(text), Fence)
    ensures CleanReply(text) == Trim(text)
  {
    var t := Trim(text);
    assert !StartsWith(t, Fence + "json") by {
      if |Fence + "json"| <= |t| {
        assert t[..|Fence|] == t[..|Fence + "json"|][..|Fence|];
      }
    }
    assert DropOpeningFence(t) == t;
    assert Trim(t) == t by { TrimIdempotent(text); }
    assert DropClosingFence(t) == t by { ClosingFenceOfTrimmed(t); }
  }

  /** The opening substitution removes the fence and its tag, and nothing else. */
  lemma {:induction false} OpeningFenceDropped(tag: string, rest: string)
    requires tag == "json" || (tag == "" && !StartsWith(rest, "json"))
    ensures DropOpeningFence(Fence + (tag + rest)) == rest
  {
    var fenced := Fence + (tag + rest);
    if tag == "json" {
      assert fenced == (Fence + "json") + rest;
    } else {
      assert fenced == Fence + rest;
      assert !StartsWith(fenced, Fence + "json") by {
        if |Fence + "json"| <= |fenced| {
          assert fenced[..|Fence + "json"|][|Fence|..] == rest[..|"json"|];
        }
      }
    }
  }

  /** The closing substitution removes a final fence, and nothing else. */
  lemma {:induction false} ClosingFenceDropped(rest: string)
    ensures DropClosingFence(rest + Fence) == rest
  {
    ConcatSlices(rest, Fence);
  }

  /** The outer strip and the opening substitution of a fenced reply. */
  lemma {:induction false} FencedOuterSteps(lead: string, tag: string, rest: string, trail: string)
    requires AllSpace(lead) && AllSpace(trail)
    requires rest != [] && rest[|rest| - 1] == '`'
    requires tag == "json" || (tag == "" && !StartsWith(rest, "json"))
    ensures Trim(lead + ((Fence + (tag + rest)) + trail)) == Fence + (tag + rest)
    ensures DropOpeningFence(Fence + (tag + rest)) == rest
  {
    var fenced := Fence + (tag + rest);
    assert fenced[|fenced| - 1] == rest[|rest| - 1];
    TrimBetweenSpaces(lead, fenced, trail);
    OpeningFenceDropped(tag, rest);
  }

  /** The strips and the closing substitution of what is left after the opening fence. */
  lemma {:induction false} FencedInnerSteps(gap1: string, body: string, gap2: string)
    requires AllSpace(gap1) && AllSpace(gap2)
    requires body != [] && !IsSpace(body[0]) && !IsSpace(body[|body| - 1])
    ensures Trim(gap1 + (body + (gap2 + Fence))) == body + (gap2 + Fence)
    ensures DropClosingFence(body + (gap2 + Fence)) == body + gap2
    ensures Trim(body + gap2) == body
  {
    var inner := body + (gap2 + Fence);
    assert inner[0] == body[0] && inner[|inner| - 1] == '`';
    TrimAfterSpaces(gap1, inner);
    assert inner == (body + gap2) + Fence;
    ClosingFenceDropped(body + gap2);
    TrimBetweenSpaces([], body, gap2);
    assert [] + (body + gap2) == body + gap2;
  }

  /**
   * A body wrapped in an opening fence (optionally tagged `json`) and a closing fence, with
   * any white space around them, comes back as exactly the body.
   */
  lemma {:induction false} FencedReplyRoundTrip(lead: string, tag: string, gap1: string, body: string, gap2: string, trail: string)
    requires AllSpace(lead) && AllSpace(gap1) && AllSpace(gap2) && AllSpace(trail)
    requires body != [] && !IsSpace(body[0]) && !IsSpace(body[|body| - 1])
    requires tag == "json" || (tag == "" && !StartsWith(gap1 + (body + (gap2 + Fence)), "json"))
    ensures CleanReply(lead + ((Fence + (tag + (gap1 + (body + (gap2 + Fence))))) + trail)) == body
  {
    var inner := body + (gap2 + Fence);
    var rest := gap1 + inner;
    assert rest[|rest| - 1] == '`';
    FencedOuterSteps(lead, tag, rest, trail);
    FencedInnerSteps(gap1, body, gap2);
    CleanReplySteps(lead + ((Fence + (tag + rest)) + trail), Fence + (tag + rest), rest, inner, body + gap2, body);
  }

  /** `CleanReply` as its five steps. */
  lemma {:induction false} CleanReplySteps(text: string, s1: string, s2: string, s3: string, s4: string, s5: string)
    requires Trim(text) == s1 && DropOpeningFence(s1) == s2 && Trim(s2) == s3
    requires DropClosingFence(s3) == s4 && Trim(s4) == s5
    ensures CleanReply(text) == s5
  {
  }

  /** A fenced JSON reply is printed as the JSON inside the fences. */
  lemma {:induction false} FencedJsonReplyKept(isJson: string -> bool, lead: string, tag: string, gap1: string,
                                               body: string, gap2: string, trail: string)
    requires AllSpace(lead) && AllSpace(gap1) && AllSpace(gap2) && AllSpace(trail)
    requires body != [] && !IsSpace(body[0]) && !IsSpace(body[|body| - 1])
    requires tag == "json" || (tag == "" && !StartsWith(gap1 + (body + (gap2 + Fence)), "json"))
    requires isJson(body)
    ensures ConstraintsReply(Answered(Some(lead + ((Fence + (tag + (gap1 + (body + (gap2 + Fence))))) + trail))), isJson) == body
  {
    FencedReplyRoundTrip(lead, tag, gap1, body, gap2, trail);
  }
}
