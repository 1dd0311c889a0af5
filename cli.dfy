/**
 * The normalisation of the `--use-engineering` option: its text, lower-cased, switches prompt
 * engineering on when it is one of four accepted spellings.
 */
module Cli {
  import opened Text

  /** The lower-case spellings that mean "on". */
  const OnWords: set<string> := {"1", "true", "yes", "y"}

  /** `str(value).lower() in ('1', 'true', 'yes', 'y')`. */
  function UseEngineering(value: string): (on: bool)
    ensures on ==> 1 <= |value| <= 4 && forall i :: 0 <= i < |value| ==> IsAsciiLetter(value[i]) || IsAsciiDigit(value[i])
  {
    Lower(value) in OnWords
  }

  /** The option's default, `'false'`, leaves engineering off. */
  lemma {:induction false} DefaultIsOff()
    ensures !UseEngineering("false")
  {
    assert Lower("false") == "false";
  }

  /** The spelling's case does not matter: upper-case letters read as their lower-case forms. */
  lemma {:induction false} CaseDoesNotMatter(value: string)
    ensures UseEngineering(Lower(value)) == UseEngineering(value)
  {
    assert Lower(Lower(value)) == Lower(value);
  }

  /** The text is not stripped: an accepted word with white space around it is off. */
  lemma {:induction false} PaddedWordIsOff(value: string)
    requires value != [] && (IsSpace(value[0]) || IsSpace(value[|value| - 1]))
    ensures !UseEngineering(value)
  {
    var l := Lower(value);
    assert IsSpace(l[0]) || IsSpace(l[|l| - 1]);
    forall w | w in OnWords ensures l != w {
      assert w == [] || (!IsSpace(w[0]) && !IsSpace(w[|w| - 1]));
    }
  }

  /** Each accepted word, in any case, is on; anything else is off. */
  lemma {:induction false} AcceptedSpellings()
    ensures UseEngineering("TRUE") && UseEngineering("Yes") && UseEngineering("Y") && UseEngineering("1")
    ensures !UseEngineering("on") && !UseEngineering("0") && !UseEngineering("no")
  {
    assert Lower("TRUE") == "true" && Lower("Yes") == "yes" && Lower("Y") == "y" && Lower("1") == "1";
    assert Lower("on") == "on" && Lower("0") == "0" && Lower("no") == "no";
  }
}
