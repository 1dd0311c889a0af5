# A verified model of the prompt, constraint and validation logic of `add2.py`

`add2.py` is the Python back end of a synthetic-data tool. This project models in Dafny the
parts of it whose behaviour can be stated without the network, the machine-learning library
or the file system:

- `to_snake`, the name normaliser (module `Snake`);
- `parse_prompt_columns`, which reads column specifications such as `- age (18-80)` or
  `- segment (Basic, Premium, VIP)` out of a free-text prompt. It scans the bullet pattern,
  the `num [-–] num` range and the comma list of values (module `Prompt`, with the Python
  string operations it relies on in module `Text`);
- `generate-constraints`. Its offline branch builds a `{name: {min, max}}` dict from the
  numerical fields. Its online branch cleans the model's reply of Markdown code fences and
  falls back to `{}` when the result is not JSON (module `Constraints`, over the
  insertion-ordered dict of module `Dicts`);
- the report built by `compute_validation` (module `Validation`);
- the precedence of `infer_column_types` (module `ColumnTypes`);
- the normalisation of the `--use-engineering` flag (module `Cli`).

Where the source changes state step by step, the model does too. `parse_prompt_columns`,
the offline constraint loop, `compute_validation` and `infer_column_types` are methods with
loops. Each is proved equal to a specification function, and the lemmas state the properties
of those functions. The regular expressions are modelled as deterministic scanners. For each scanner one
lemma shows that what it accepts has the pattern's shape, and another shows that text of
that shape is accepted with the groups the pattern gives. Further lemmas pin down the
greedy choices of the number scanner. The lazy `+?` of the bullet's name group is not
modelled on its own: the model states `group(1).strip()`, the only form the source uses,
together with `group(2)`.

Modelling decisions:

- **Whitespace.** White space is Python's `str.isspace` set (ASCII and the Unicode spaces).
  The same set is used for the regular-expression class `\s`.
- **Lower-casing.** `lower()` is modelled as ASCII lower-casing only.
- **Numbers.** A numeric literal is kept as its sign, whole digits and fraction digits. Its
  value is the exact rational it denotes.
- **No boolean kind.** The parser's field kinds are only `numerical` and `categorical`.
  There is no boolean kind, because the parser never produces one.
- **JSON values.** `json.loads` succeeding is a predicate parameter `isJson`.
- **Columns.** A column is numeric (its cells, `None` for NaN), of `object` dtype (its
  elements: a number, a null, or a value that cannot be ordered against a number), or of
  another dtype that cannot be compared with a number at all.
- **Statistics.** `np.nanmean` and `np.nanstd` are function parameters that return `None`
  where the call raises.

## Model

| member | source | states |
|---|---|---|
| Snake.ToSnake | add2.py:74-78 | the result has only `[a-z0-9_]`, no `__`, and no `_` at either end; its letters and digits are exactly those of the lower-cased input, in order |
| Snake.ToSnakeWords | add2.py:74-78 | `to_snake(name)` is the maximal runs of `[a-z0-9]` in the stripped, lower-cased name, joined by single `_` |
| Snake.ReplaceRuns | add2.py:76 | the first substitution yields only `[a-z0-9_]` with no `__`, and keeps a leading letter or digit in first place |
| Snake.SqueezeUnderscores | add2.py:77 | `_+` to `_` leaves no `__`, keeps the letters and digits in order, adds no other character, and keeps a first character that is not `_` |
| Snake.RunsAsWords | add2.py:76 | the first substitution gives the runs of `[a-z0-9]` joined by `_`, with one `_` in front exactly when the text starts with another character, and at most one `_` at the end (none when there is no run) |
| Snake.ReplaceRunsKeepsWordChars | add2.py:76 | the first substitution keeps every `[a-z0-9]` character, in order, and adds none |
| Snake.NoLettersOrDigitsGiveEmpty | add2.py:74-78 | a name made only of punctuation and white space becomes `""` |
| Snake.SqueezeIsRedundant | add2.py:76-77 | the second substitution (`_+` to `_`) never changes the output of the first |
| Snake.SnakeIsFixpoint | add2.py:74-78 | a string already in snake shape is returned unchanged |
| Snake.ToSnakeIdempotent | add2.py:74-78 | applying `to_snake` to its own output changes nothing |
| Text.Lower | add2.py:75 | the result has the input's length, and each character is the lower-cased character at the same place |
| Text.Trim | add2.py:88-89 | `strip()` never lengthens the text, and its result is empty or starts and ends with a non-space character |
| Text.SplitLines | add2.py:84 | `splitlines()` gives no more lines than characters, and at least one line for non-empty text |
| Text.Split | add2.py:100 | `split(',')` yields at least one piece, no piece holds a comma, and joining the pieces with commas gives the text back |
| Text.SplitJoin | add2.py:100 | splitting a comma-joined list of comma-free pieces gives exactly those pieces |
| Text.SplitLinesJoin | add2.py:84 | for text whose only line break is `\n`, joining the lines of `splitlines()` with `\n` gives the text back, less one final `\n` |
| Text.SplitLinesHaveNoBreaks | add2.py:84 | no line produced by `splitlines()` contains a line break |
| Text.TrimIdempotent | add2.py:88-89 | stripping twice is stripping once |
| Text.TrimBetweenSpaces | add2.py:196-199 | stripping white space, a core that starts and ends with a non-space character, and white space leaves exactly the core |
| Prompt.MatchBullet | add2.py:85 | a match has a non-empty name part of `[a-zA-Z0-9_\s]` characters and a meta part without `)` |
| Prompt.MatchBulletSound | add2.py:85-86 | when the bullet scanner accepts a line, the line has the pattern's shape: white space, a `-` or `*`, a non-empty run of name characters up to the first `(`, then a `)` after it. The scanner's name part runs from the bullet to the `(`. It keeps the white space that the pattern's `\s*` on either side of group 1 consume, so it equals `group(1)` only after the `.strip()` on line 88. The meta part is `group(2)` |
| Prompt.MatchBulletComplete | add2.py:85-86 | every line of that shape is accepted, with exactly those groups |
| Prompt.ScanNumber | add2.py:92 | a literal is found only at a `-` or a digit, and at least one character is consumed |
| Prompt.ScanNumberSound | add2.py:92 | when the literal scanner `-?\d+(?:\.\d+)?` accepts, it returns a well-formed literal and the text after it, and the two together are the input |
| Prompt.ScanRender | add2.py:92 | scanning a rendered literal followed by text that cannot extend it gives back exactly that literal and that text |
| Prompt.Value | add2.py:94-95 | `float(lo)`, `float(hi)`: a literal with a minus sign has a value of at most 0, and one without has a value of at least 0 |
| Prompt.IsIntegral | add2.py:96 | a literal with no fraction digits is integral |
| Prompt.IntegralIffWholeValue | add2.py:96 | a literal's fraction digits are all zero exactly when its value is a whole number (`is_integer()`) |
| Prompt.ScanRange | add2.py:92 | a range is found only where the text, after white space, starts with a `-` or a digit |
| Prompt.ScanRangeSound | add2.py:92 | whenever the range scanner accepts, the text is white space, the first literal, white space, a `-` or `–`, white space, the second literal and the rest, with both literals well formed |
| Prompt.ScanRangeRender | add2.py:92 | `lo`, white space, a `-` or `–`, white space, `hi` and a tail that does not start with a digit or `.digit` is scanned as the range `(lo, hi)` |
| Prompt.Classify | add2.py:92-105 | the kind is numerical exactly when the meta part scans as a range; a categorical kind only ever holds values matching `[a-zA-Z0-9_\- ]+` |
| Prompt.RangeGivesNumerical | add2.py:92-98 | such a meta part gives a numerical field with `min`/`max` the two values, `int` exactly when both values are whole; a tail that does not start with a digit or `.digit` is ignored, and `min <= max` is not required |
| Prompt.ReversedRangeKept | add2.py:92-98 | `(80-18)` gives `min` 80, `max` 18: reversed bounds are kept |
| Prompt.WholeFloatIsInt | add2.py:92-98 | `(18.0 – 80 years)` gives `min` 18, `max` 80 and `int` true |
| Prompt.FractionIsNotInt | add2.py:92-98 | `(0.5-2)` gives a numerical field with `int` false |
| Prompt.NonEmptyTrimmed | add2.py:100 | there are never more values than pieces; the lemmas below state which values are kept |
| Prompt.NonEmptyTrimmedSnoc | add2.py:100 | one more piece adds its stripped form exactly when that is not empty, and adds nothing otherwise |
| Prompt.NonEmptyTrimmedOrigin | add2.py:100 | each kept value is the stripped form of its own non-blank piece, in piece order, and every non-blank piece is kept |
| Prompt.NonEmptyTrimmedStripped | add2.py:100 | every kept value is non-empty and already stripped |
| Prompt.NonEmptyTrimmedOf | add2.py:100 | pieces that each strip to a non-empty value keep exactly those values, in order |
| Prompt.AllowedValues | add2.py:100-103 | every allowed value matches `[a-zA-Z0-9_\- ]+` and is stripped |
| Prompt.NoRangeAfterLetter | add2.py:92 | meta text starting with anything but white space, `-` or a digit is not a range |
| Prompt.CleanListValues | add2.py:100-101 | a comma list whose pieces strip to clean values yields exactly those values |
| Prompt.CleanListDropsBlanks | add2.py:100-101 | in a comma list whose non-blank pieces strip to clean values, blank pieces (`A,,B`, `A, B,`) are dropped and the values are the stripped non-blank pieces |
| Prompt.TrailingBlankIgnored | add2.py:100-101 | a trailing comma, or a blank last piece, does not change the values |
| Prompt.CleanListGivesCategorical | add2.py:100-103 | such a list that starts with a letter or `_` gives a categorical field with exactly the stripped values |
| Prompt.UncleanValueEmptiesList | add2.py:101-105 | if any non-empty stripped piece is not a clean value, the field is categorical with no values |
| Prompt.EmptyMetaGivesNoValues | add2.py:100-105 | `()` gives a categorical field with no values |
| Prompt.ParseLine | add2.py:85-90 | a line yields a field exactly when it matches the bullet pattern, and the field's name is in snake shape |
| Prompt.ParseLineOfBullet | add2.py:85-90 | a bullet line gives the field named `to_snake` of the stripped name group, classified by the stripped meta group |
| Prompt.ParsedFieldsStep | add2.py:84-105 | each line appends its field, if it has one, after the fields of the lines before it |
| Prompt.ParsedFieldsOrigin | add2.py:84-87 | every field comes from its own matching line, in line order; every matching line contributes its field, and other lines contribute nothing |
| Prompt.ParseLines | add2.py:83-106 | the loop over the lines returns the fields of the lines, in order |
| Prompt.ParsePromptColumns | add2.py:81-106 | `parse_prompt_columns` returns the fields of the lines of `splitlines()` |
| Dicts.Get | add2.py:350 | `d.get(key)` finds a value exactly when `key` is among the keys |
| Dicts.Put | add2.py:184 | assigning an existing key keeps the size; a new key adds one entry |
| Dicts.PutKeys | add2.py:184 | assigning a new key appends it to the key order; assigning an existing key keeps the order |
| Dicts.PutGet | add2.py:184 | after `d[key] = value`, `key` reads `value` and every other key reads what it read before |
| Dicts.PutDistinct | add2.py:184 | assignment never creates a duplicate key |
| Constraints.CollectBounds | add2.py:181-187 | the loop over the fields builds the constraint dict of those fields |
| Constraints.OfflineConstraints | add2.py:179-187 | the offline branch builds the constraint dict of the fields parsed from the prompt |
| Constraints.ConstraintKeys | add2.py:181-187 | the keys are exactly the names of the numerical fields, each once; categorical fields never appear |
| Constraints.UnnamedHasNoConstraint | add2.py:183-184 | a name with no numerical field has no entry |
| Constraints.LastFieldWins | add2.py:184-187 | a name holds the `min`/`max` of the last numerical field of that name |
| Constraints.KeysInFirstOrder | add2.py:181-188 | keys appear in the order their names first occur among the numerical fields (the order `json.dumps` writes) |
| Constraints.DropOpeningFence | add2.py:198 | the substitution only removes a prefix, and text that does not start with `` ``` `` is unchanged |
| Constraints.DropClosingFence | add2.py:199 | the substitution never lengthens the text, and text that ends with neither `` ``` `` nor `` ```\n `` is unchanged |
| Constraints.CleanReply | add2.py:196-199 | the cleaned reply neither starts nor ends with white space |
| Constraints.ConstraintsReply | add2.py:190-207 | the printed text is `{}` or accepted by `isJson`; a failed model call gives `{}`; a cleaned reply that is JSON is printed as it is, and one that is not JSON is replaced by `{}` |
| Constraints.ClosingFenceOfTrimmed | add2.py:199 | on stripped text, `` ```$ `` only ever removes a final fence (the match before a final newline cannot arise) |
| Constraints.UnfencedReplyOnlyStripped | add2.py:196-199 | a reply with neither an opening nor a closing fence is only stripped |
| Constraints.OpeningFenceDropped | add2.py:198 | the opening substitution removes `` ``` `` or `` ```json `` and nothing else |
| Constraints.ClosingFenceDropped | add2.py:199 | the closing substitution removes a final `` ``` `` and nothing else |
| Constraints.FencedReplyRoundTrip | add2.py:196-199 | a body inside an opening fence (tagged `json` or not) and a closing fence, with white space around them, comes back as exactly the body |
| Constraints.FencedJsonReplyKept | add2.py:196-205 | a fenced reply whose body is JSON prints that body |
| Validation.LookupConstraint | add2.py:350 | the constraint is the entry under the exact column name when that entry is non-empty, otherwise the entry under `to_snake(col)` when that one is non-empty, otherwise empty |
| Validation.Compared | add2.py:351-355 | a numeric column compares its own cells; an `object` column compares element by element, nulls as NaN, unless an element cannot be ordered against a number, when the comparison raises; any other dtype raises |
| Validation.Violations | add2.py:350-357 | no violation is counted when the synthetic column is missing, when its comparison raises, or when the constraint has neither `min` nor `max` |
| Validation.ObjectNumbersCounted | add2.py:351-355 | an `object` column of numbers and nulls counts the same violations as the numeric column of those values with NaN for the nulls |
| Validation.IncomparableObjectsRaise | add2.py:351-357 | an `object` column holding a value that cannot be ordered against a number counts no violation |
| Validation.ObjectColumnExample | add2.py:351-355 | the `object` column `[5, None]` against `min 10` gives one violation |
| Validation.Count | add2.py:353-355 | a comparison's sum is at most the number of rows |
| Validation.CountIsMatchingRows | add2.py:353-355 | a comparison's sum is the number of rows whose value passes it; missing values never count |
| Validation.BelowPlusAbove | add2.py:352-355 | with `min <= max`, rows below `min` plus rows above `max` are the rows outside `[min, max]` |
| Validation.ReportFor | add2.py:325-357 | a column that is not numeric has all four statistics `None`; a column missing from the synthetic frame has no synthetic statistics and no violations |
| Validation.ColumnResult | add2.py:325-357 | the `res` dict built field by field is the report of the column |
| Validation.ComputeValidation | add2.py:322-359 | the loop over the original columns builds the report dict of all columns |
| Validation.ReportKeys | add2.py:324-358 | the report's keys are exactly the original columns, each once, in column order when the labels are distinct |
| Validation.ReportOfColumn | add2.py:324-358 | each column's entry is the report for that column |
| Validation.NonNumericHasNoStatistics | add2.py:325-332 | a column whose original dtype is not numeric keeps all four statistics `None` |
| Validation.UnconstrainedHasNoViolations | add2.py:350-357 | with no non-empty constraint under the name or its snake-case form, the violation count is 0 |
| Validation.ViolationsAreRowsOutside | add2.py:351-355 | the violation count is the rows below `min` (if given) plus the rows above `max` (if given); with both and `min <= max` it is the rows outside `[min, max]`, at most the row count |
| Validation.OneBoundViolationsWithinRows | add2.py:351-355 | with at most one bound, the violation count is at most the row count |
| Validation.ReversedBoundsCountTwice | add2.py:352-355 | with `min > max` a value can count twice: one row `5` against `min 10, max 0` gives 2 |
| ColumnTypes.TypeOf | add2.py:39-46 | `boolean` exactly for boolean dtypes, `numerical` exactly for numeric dtypes that are not boolean, `datetime` exactly for datetime dtypes, `categorical` for everything else |
| ColumnTypes.InferColumnTypes | add2.py:35-47 | the loop over the columns builds the type dict of the frame |
| ColumnTypes.TypesOfKeys | add2.py:37-46 | the type dict's keys are the frame's columns, in column order |
| ColumnTypes.TypesOfColumns | add2.py:37-46 | the type dict has the frame's columns as keys, in order, each mapped to its dtype's type |
| Cli.UseEngineering | add2.py:507-508 | the flag is on only for a value of one to four ASCII letters and digits |
| Cli.DefaultIsOff | add2.py:470 | the default `'false'` leaves prompt engineering off |
| Cli.CaseDoesNotMatter | add2.py:506-508 | the flag's value is read case-insensitively |
| Cli.PaddedWordIsOff | add2.py:506-508 | the value is not stripped: text starting or ending with white space is off |
| Cli.AcceptedSpellings | add2.py:506-508 | `TRUE`, `Yes`, `Y` and `1` switch engineering on; `on`, `0` and `no` do not |

## Left out

- The model calls are not modelled: `try_init_gemini` and every `model.generate_content`.
  Their output is an input, `ModelReply`, of `Constraints.ConstraintsReply`.
- The SDV synthesizers, `build_metadata_from_dataset` and `generate_offline_dataset` are not
  modelled. They are an external library and a random generator.
- File and directory I/O, `argparse` wiring, `print`/`eprint` and `json.dumps` formatting
  are not modelled. The offline branch's result is the dict that `json.dumps` would write,
  not its text.
- `json.loads` is the predicate parameter `isJson`, not a parser.
- Constraint entries that are not JSON objects are not modelled. This covers JSON `null`
  bounds and `min`/`max` values that are not numbers.
- `np.nanmean` and `np.nanstd` are opaque function parameters.
- Floating point is not modelled: the model has no rounding, overflow, `-0.0` or `inf`.
  Values are exact rationals, and cells are `Option<real>`, with `None` for NaN or a
  missing value.
- Duplicate column labels in a pandas frame are not modelled. `Validation.ReportKeys`
  states the key order for distinct labels.
- Lower-casing is ASCII only. Unicode case mappings such as the Kelvin sign to `k` are left
  out of `Snake.ToSnake` and `Cli.UseEngineering`.
- The regular-expression `\d` is ASCII digits only, not all Unicode decimal digits.
- The CSV code-fence strip in `cmd_generate` is not part of this model.
- The `fdef.get('min', 0)` and `fdef.get('max', 100)` defaults are not modelled. They cannot
  be reached, because every numerical field has both bounds.
- `Prompt.RangeGivesNumerical` states the range for literals the scanner can render back,
  that is, without a leading `+` or a bare `.5`. The pattern does not accept those either.
- `Constraints.FencedReplyRoundTrip` requires, for an untagged fence, that the text after
  the fence does not start with `json`. Otherwise the source would take those four letters
  as the fence's tag and drop them from the body.
