# String calculator in Dafny

This project models the string calculator `add` of `test_with_tdd.py`. Given a text, `add`:

- returns 0 for the empty text;
- otherwise resolves the delimiter. The default is a comma. A leading `//<delimiter>\n` directive chooses another delimiter, and the text after its first newline becomes the body.
- rewrites every newline of the body to the delimiter;
- splits on the delimiter and drops empty pieces;
- parses every piece with `int()`;
- raises `ValueError` listing every negative number in input order, if there are any;
- otherwise returns the sum.

The model consists of pure functions, as the source is. Python's exceptions become outcomes of the datatype `Calculator.Outcome`:

- `Ok(sum)` is the returned integer.
- `Negatives(values)` is the `ValueError` of line 31. It carries the offending numbers. `Calculator.NegativeMessage` renders them as the exception's text.
- `FormatError(kind)` covers the three other ways the code raises `ValueError`:
  - `MissingNewline`: a `//` prefix with no newline, so the two-way unpacking on line 19 fails;
  - `EmptySeparator`: `//` directly followed by a newline, so `split("")` on line 26 fails;
  - `InvalidLiteral(token)`: the leftmost token that `int()` refuses.

These are checked in the order Python reaches them: the unpacking, then the split, then `int()` token by token from the left, then the negative check.

Files:

- `wrappers.dfy`: `Option` and `Result`.
- `strings.dfy`: Python's `str.split` with a literal separator (`Split`, built on a leftmost-occurrence search `Find`), `str.join` (`Join`), `str.replace` of one character (`Replace`), and an independent reference split at a set of characters (`SplitOnAny`).
- `integers.dfy`: `int()` on a token (`ParseInt`) and `str()` of an integer (`IntToString`).
- `calculator.dfy`: the stages of `add` and `Add` itself.
- `properties.dfy`: what `add` promises, proved for all inputs.
- `examples_of_add.dfy`: the unit tests in test_with_tdd.py, plus the error cases and one boundary case, each as a lemma.

Two consequences of the code are worth stating on their own:

- Every non-empty input that begins with `//\n` fails with `EmptySeparator`, even when the body is empty or holds a single number, because the code calls `split("")` on line 26 (`CalculatorProperties.AddEmptySeparatorIff`).
- Rewriting newlines to the delimiter and then splitting equals one split at the delimiter and at newlines only for one-character delimiters (`CalculatorProperties.TokensSplitOnBoth`). With a longer delimiter the rewrite can merge into it: `//11\n1\n1` rewrites the body to `1111`, which splits into empty pieces only, so the result is 0 (`CalculatorCases.OverlappingDelimiter`). For the same reason a trailing, leading or doubled delimiter is harmless only when the delimiter has one character: `//11\n21` gives 21, but `//11\n2111` gives 3, because `"2111".split("11")` is `['2', '1']` (`CalculatorCases.LongDelimiterTrailing`).

## Model

| member | source | states |
|---|---|---|
| Calculator.Add | test_with_tdd.py:5-33 | The empty text gives `Ok(0)`; a sum is never negative; a negatives outcome lists at least one number and only negative numbers; the missing-newline failure happens exactly when the text starts with `//` and has no newline |
| Calculator.ResolveDelimiter | test_with_tdd.py:17-20 | Without `//` the delimiter is a comma and the body is the whole input. With `//` it succeeds exactly when the input has a newline; then the input is `//` + delimiter + newline + body, and the delimiter contains no newline |
| Calculator.NonEmpty | test_with_tdd.py:26 | The `if num` filter: the result keeps exactly the non-empty pieces, and none of its items is empty |
| Calculator.Tokens | test_with_tdd.py:23-26 | After rewriting newlines and splitting, every token is non-empty |
| Calculator.ParseAll | test_with_tdd.py:26 | Succeeds exactly when every token is an integer literal, and then yields one number per token, in order. Otherwise it reports a token that is not a literal, and every token before it is a literal |
| Calculator.NegativesOf | test_with_tdd.py:29 | Keeps exactly the negative numbers; it is empty exactly when every number is non-negative |
| Calculator.Sum | test_with_tdd.py:33 | The sum of non-negative numbers is non-negative |
| Calculator.Evaluate | test_with_tdd.py:26-33 | A format error happens exactly when parsing fails, and names the first token `int()` refuses. When every token parses, the outcome is `Ok` exactly when no number is negative, and then carries the sum of the numbers; otherwise it carries every negative, in order (`NegativesOf`). A sum is non-negative; a negatives outcome is non-empty and all negative |
| Calculator.NegativeMessage | test_with_tdd.py:31 | The message starts with `Negative numbers not allowed: `; for a non-empty list, the rest splits on `", "` into exactly `str` of each negative, in order (`Decimals`), and parsing those gives back the negatives |
| Calculator.Decimals | test_with_tdd.py:31 | `map(str, ...)`: one decimal text per number, each equal to `IntToString` of that number |
| Integers.ParseInt | test_with_tdd.py:26 | `int(token)` succeeds exactly on an optional sign followed by one or more digits; a negative value comes only from a leading `-`; a value without a leading `-` is non-negative |
| Integers.ParseIntRoundTrip | test_with_tdd.py:26 | For every text `str` can produce (no `+`, no leading zero, not `-0`), `int` succeeds and `str(int(t)) == t` |
| Integers.ParseIntLeadingZero | test_with_tdd.py:26 | `int` ignores a leading zero, with or without a `-` before it |
| Integers.ParseIntSign | test_with_tdd.py:26 | `int("+" + u) == int(u)`, and `int("-" + u)` is the negation of `int(u)` |
| Integers.DigitsRoundTrip | test_with_tdd.py:26 | Digits without a leading zero are the shortest decimal text of their value |
| Integers.IntToString | test_with_tdd.py:31 | `str(n)` is non-empty, starts with `-` exactly when `n` is negative, is otherwise digits only, has no leading zero (it starts with `0` only when it is `"0"`, and a `-` is never followed by `0`), and parses back to `n` |
| Integers.NatToString | test_with_tdd.py:31 | The digits of a natural number have that number as their value; they start with `0` only when they are `"0"` for the number 0 |
| Strings.Find | test_with_tdd.py:19 | The first newline, or the leftmost occurrence of the separator: a found index is an occurrence and no earlier index is; when nothing is found there is no occurrence |
| Strings.Join | test_with_tdd.py:31 | `', '.join(...)`: the result starts with the first piece |
| Strings.JoinExcludes | test_with_tdd.py:31 | A character in neither the separator nor any piece is not in the join |
| Strings.Split | test_with_tdd.py:26 | `str.split(sep)` always yields at least one piece |
| Strings.JoinSplit | test_with_tdd.py:26 | Joining the pieces of a split with the separator gives back the original text |
| Strings.SplitPiecesFree | test_with_tdd.py:26 | No piece of a split contains the separator |
| Strings.SplitJoin | test_with_tdd.py:26 | Splitting the join of pieces that do not contain the separator's first character gives back those pieces |
| Strings.SplitAround | test_with_tdd.py:26 | Splitting on one character around one occurrence of it is splitting each side and concatenating the results |
| Strings.SplitIsSplitOnAny | test_with_tdd.py:26 | Splitting on a one-character separator agrees with the independent character-set split |
| Strings.Replace | test_with_tdd.py:23 | `str.replace("\n", d)`: no newline is left when `d` has none; a text without a newline is unchanged; every character of the result comes from the text or from `d` |
| Strings.ReplaceIsJoinOfPieces | test_with_tdd.py:23 | Replacing equals cutting the text at every target and joining the pieces with the replacement, so each target becomes exactly one copy of the replacement and nothing else changes |
| Strings.ReplaceAppend | test_with_tdd.py:23 | Replacing distributes over concatenation |
| Strings.ReplaceThenSplit | test_with_tdd.py:23-26 | For a one-character delimiter, rewriting newlines to it and then splitting equals splitting at the delimiter and at newlines together |
| CalculatorProperties.NonEmptyAppend | test_with_tdd.py:26 | The empty-piece filter distributes over concatenation |
| CalculatorProperties.NonEmptyKeepsAll | test_with_tdd.py:26 | Pieces that are all non-empty pass the filter unchanged |
| CalculatorProperties.NegativesOfAppend | test_with_tdd.py:29 | The negatives of a concatenation are the negatives of each part, in order, so the order of the input is kept |
| CalculatorProperties.SumAppend | test_with_tdd.py:33 | The sum of a concatenation is the sum of the parts |
| Calculator.ParseAllDecimals | test_with_tdd.py:26 | Parsing the decimal text of every number gives back the numbers |
| CalculatorProperties.ResolveDirective | test_with_tdd.py:18-20 | `//d\n body` with no newline in `d` resolves to delimiter `d` and exactly that body |
| CalculatorProperties.AddDefault | test_with_tdd.py:17-26 | Without a `//` prefix, `add` evaluates the comma tokens of the whole input |
| CalculatorProperties.AddCustom | test_with_tdd.py:18-26 | With a directive naming a non-empty delimiter, `add` evaluates the tokens of the body on that delimiter |
| CalculatorProperties.AddEmptySeparatorIff | test_with_tdd.py:18-26 | The empty-separator failure happens exactly when the input starts with `//` and a newline |
| CalculatorProperties.TokensOfJoined | test_with_tdd.py:23-26 | Numbers written in decimal and joined by a delimiter that starts with neither a digit nor `-` tokenize back to their decimal texts |
| CalculatorProperties.AddJoined | test_with_tdd.py:5-33 | With a directive: joined non-negative numbers add up to their sum; if any number is negative the outcome lists exactly the negatives, in order |
| CalculatorProperties.CommaJoinedIsPlain | test_with_tdd.py:18 | Numbers joined by commas never start with a directive |
| CalculatorProperties.AddCommaJoined | test_with_tdd.py:5-33 | The same for numbers joined by the default comma |
| CalculatorProperties.TokensNewline | test_with_tdd.py:23 | Rewriting the newlines of a body to the delimiter beforehand does not change its tokens |
| CalculatorProperties.ReplaceKeepsPlain | test_with_tdd.py:18-23 | Rewriting newlines to commas cannot create a `//` prefix |
| CalculatorProperties.AddNewlineAsComma | test_with_tdd.py:23 | Without a directive, writing a comma for each newline does not change the outcome |
| CalculatorProperties.AddNewlineAsDelimiter | test_with_tdd.py:23 | After a directive, writing the delimiter for each newline of the body does not change the outcome |
| CalculatorProperties.TokensSplitOnBoth | test_with_tdd.py:23-26 | For a one-character delimiter, the tokens are the non-empty pieces of one split at the delimiter and at newlines |
| CalculatorProperties.TokensAround | test_with_tdd.py:26 | The tokens around one occurrence of a one-character delimiter are the tokens of each side |
| CalculatorProperties.TokensOfNothing | test_with_tdd.py:26 | An empty body has no tokens |
| CalculatorProperties.AddSameTokens | test_with_tdd.py:17-33 | Two inputs without a directive that have the same tokens have the same outcome |
| CalculatorProperties.TokensTrailing | test_with_tdd.py:26 | A trailing one-character delimiter adds no token |
| CalculatorProperties.TokensLeading | test_with_tdd.py:26 | A leading one-character delimiter adds no token |
| CalculatorProperties.TokensDoubled | test_with_tdd.py:26 | Two adjacent copies of a one-character delimiter give the same tokens as one |
| CalculatorProperties.AddTrailingComma | test_with_tdd.py:26 | `add(s + ",") == add(s)` for input without a directive |
| CalculatorProperties.AddLeadingComma | test_with_tdd.py:26 | `add("," + s) == add(s)` for input without a directive |
| CalculatorProperties.AddDoubledComma | test_with_tdd.py:26 | Doubling a comma does not change the outcome |
| CalculatorProperties.AddEmptyBody | test_with_tdd.py:18-33 | A directive followed by nothing adds up to 0 |
| CalculatorCases.EmptyStringReturnsZero | test_with_tdd.py:41 | `add("") == 0` |
| CalculatorCases.SingleNumber | test_with_tdd.py:45 | `add("1") == 1` |
| CalculatorCases.TwoNumbers | test_with_tdd.py:49 | `add("1,2") == 3` |
| CalculatorCases.MultipleNumbers | test_with_tdd.py:53 | `add("1,2,3,4") == 10` |
| CalculatorCases.NewlineAsDelimiter | test_with_tdd.py:57 | `add("1\n2,3") == 6` |
| CalculatorCases.CustomDelimiter | test_with_tdd.py:61 | `add("//;\n1;2") == 3` |
| CalculatorCases.NegativeNumbers | test_with_tdd.py:65-67 | `add("1,-2,3,-4")` fails with the negatives `-2, -4`, and the message is exactly `Negative numbers not allowed: -2, -4` |
| CalculatorCases.MissingNewlineExample | test_with_tdd.py:19 | `add("//;")` fails at the two-way unpacking |
| CalculatorCases.EmptySeparatorExample | test_with_tdd.py:20-26 | `add("//\n1")` fails at `split("")` |
| CalculatorCases.InvalidLiteralExample | test_with_tdd.py:26 | `add("-1,x")` fails at `int("x")`, before the negative check sees `-1` |
| CalculatorCases.OverlappingDelimiter | test_with_tdd.py:19-26 | `add("//11\n1\n1") == 0`: the newline rewrite merges into the multi-character delimiter, so no token survives |
| CalculatorCases.LongDelimiterTrailing | test_with_tdd.py:18-33 | `add("//11\n21") == 21` but `add("//11\n2111") == 3`: with a two-character delimiter, a trailing delimiter re-cuts the text |

## Left out

- `int()` leniency: Python also accepts surrounding whitespace, `_` between digits and non-ASCII decimal digits. `ParseInt` accepts only an optional `+` or `-` followed by ASCII digits.
- The texts of the `ValueError`s that Python raises for the three format errors are not modelled; only which failure happens is.
- `Strings.Replace` models `str.replace` for a one-character target only, since the code only ever replaces `"\n"`.
- `import re`: the module is imported but never used.
- The `unittest` harness and the `__main__` entry point: the tests are restated as lemmas in `CalculatorCases`, with no runner.
- `CalculatorProperties.TokensSplitOnBoth`: proved for one-character delimiters only. For longer delimiters the equivalence does not hold (see `CalculatorCases.OverlappingDelimiter`).
- `CalculatorProperties.AddJoined`: requires a delimiter that starts with neither a digit nor `-`. Otherwise the delimiter can merge with the numbers, as the overlapping case shows.
- Strings.Join: its own contract states only that the result starts with the first piece. What it computes is pinned down by `Strings.JoinSplit`, `Strings.SplitJoin` and `Strings.JoinExcludes`; a fuller contract on the function itself made the split proofs too costly.
- CalculatorProperties.TokensTrailing, CalculatorProperties.TokensLeading, CalculatorProperties.TokensDoubled: proved for one-character delimiters only. For a longer delimiter the trailing case fails in the source: `add("//11\n21")` is 21 but `add("//11\n2111")` is 3 (`CalculatorCases.LongDelimiterTrailing`).
- Integers are unbounded, as Python's are, so no overflow is modelled.
- The limit on the number of digits `int()` and `str()` convert (4300 by default, set by `sys.set_int_max_str_digits`) is not modelled: Python raises `ValueError` at line 26 for a token longer than that, while `ParseInt` accepts it.
