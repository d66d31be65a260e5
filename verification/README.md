# String-sum calculator, modelled in Dafny

The calculator's `sum(input)` adds up the numbers written in a string. It runs as a four-stage pipeline:

1. `parse` rejects anything that is not a string. Otherwise it splits the string at every ',' and '\n' and keeps the empty pieces.
2. `validate` accepts the token list when it is exactly `[""]` (the empty input) or when no token is empty.
3. `normalize` converts every token with JavaScript's `Number` and drops the tokens that give NaN.
4. The numbers are folded with `+`, starting from 0.

A non-string input and a token list that fails validation both raise the one error, "Not a valid input".

The model has three modules:

- `NumberConversion` (number_conversion.dfy) models `Number` on one token.
  - `ToNumber` returns `None` for NaN.
  - It accepts the empty string (value 0) and the decimal literals: an optional '+' or '-', then digits with at most one '.' among them, with at least one digit.
  - It reads a literal with a character scanner (`Read`).
  - `Render` prints a `Literal` value back as text. The lemmas prove that `ToNumber` accepts exactly the printed literals and the empty string, each literal with the value it denotes.
- `Calculator` (calculator.dfy) models the pipeline.
  - `Input = Str(s) | Other` stands for JavaScript's dynamic typing.
  - A thrown error becomes the result `Err(InvalidInput)`.
  - The fold is over exact reals.
  - The partner of `Split` is `Join`, which puts the tokens back with the original separators.
  - The placement of empty tokens is tied to a separator-placement predicate, `WellSeparated`.
- `CalculatorExamples` (calculator_examples.dfy) derives each documented test case from the general lemmas. Accepted inputs are built token by token with `SumOfLiteral` and `SumOfJoined`. Each rejected input is shown to have two adjacent separators, so `SumOutcome` makes it fail.

`Number("")` is 0, so the lone empty token adds 0 to the fold and `sum("")` is 0 (`Calculator.SumOfEmpty`).

## Model

| member | source | states |
|---|---|---|
| Calculator.Message | src/__tests__/calculator.test.js:1-3 | the one error carries the message "Not a valid input" |
| Calculator.Parse | src/__tests__/calculator.test.js:5-10 | parse fails exactly on non-string input, always with `InvalidInput`; a string gives one token more than it has separators |
| Calculator.Split | src/__tests__/calculator.test.js:7 | the number of tokens is the number of ',' and '\n' characters plus one |
| Calculator.SplitTokensPlain | src/__tests__/calculator.test.js:7 | no token contains ',' or '\n' |
| Calculator.JoinSplit | src/__tests__/calculator.test.js:7 | joining the tokens with the input's own separators gives back the input exactly, empty tokens included |
| Calculator.SplitJoin | src/__tests__/calculator.test.js:7 | tokens without separators, joined by separators, split back into the same tokens and the same separators |
| Calculator.SplitAroundSeparator | src/__tests__/calculator.test.js:7 | the tokens of `a + sep + b` are the tokens of `a` followed by the tokens of `b` |
| Calculator.SplitUpToSeparators | src/__tests__/calculator.test.js:7 | strings that differ only in which separator (',' or '\n') stands at each place split into the same tokens |
| Calculator.SplitLoneEmpty | src/__tests__/calculator.test.js:7 | the token list is the singleton `[""]` exactly when the input is empty |
| Calculator.EmptyTokenIff | src/__tests__/calculator.test.js:18-19 | some token is empty exactly when the input is not well separated: it is empty, starts or ends with a separator, or has two adjacent separators |
| Calculator.ValidateSplit | src/__tests__/calculator.test.js:12-20 | validation of a string's tokens passes exactly when the string is empty or well separated (no leading, trailing or adjacent separators) |
| Calculator.Normalize | src/__tests__/calculator.test.js:22-26 | normalize never produces more numbers than it receives tokens |
| Calculator.NormalizeSelects | src/__tests__/calculator.test.js:22-26 | normalize keeps, in their original order, the values of exactly the tokens that convert, and nothing else |
| Calculator.NormalizeAppend | src/__tests__/calculator.test.js:22-26 | normalize works token by token: it distributes over concatenation of token lists |
| Calculator.NormalizeDropsNonNumber | src/__tests__/calculator.test.js:22-26 | a token that gives NaN is dropped without any other effect and never causes an error |
| Calculator.AddAllShift | src/__tests__/calculator.test.js:34 | a fold started from `acc` is `acc` plus the fold started from 0 |
| Calculator.TotalAppend | src/__tests__/calculator.test.js:34 | the fold is additive: the total of `xs + ys` is the total of `xs` plus the total of `ys` |
| Calculator.TotalPermutation | src/__tests__/calculator.test.js:34 | the total does not depend on the order of the numbers |
| Calculator.Sum | src/__tests__/calculator.test.js:28-35 | `sum` as parse, validate, normalize, reduce; its contract says every failure is the one error kind and a non-string always fails; what it returns for a string is stated by `SumOutcome` |
| Calculator.Validate | src/__tests__/calculator.test.js:12-20 | `validate` as a predicate on the token list; its meaning for a parsed string is stated by `ValidateSplit` and `EmptyTokenIff` |
| Calculator.Total | src/__tests__/calculator.test.js:34 | the `reduce((a, b) => a + b, 0)` left fold; its behaviour is stated by `AddAllShift`, `TotalAppend` and `TotalPermutation` |
| Calculator.Converted | src/__tests__/calculator.test.js:24-25 | one token through `map(Number)` and the NaN filter: at most one number per token; the selection it makes over a list is stated by `NormalizeSelects` |
| Calculator.SumOfNonNumber | src/__tests__/calculator.test.js:22-26 | a single token that is not a number is accepted, dropped, and sums to 0 |
| Calculator.SumOfNonString | src/__tests__/calculator.test.js:28-31 | sum of a non-string input fails with `InvalidInput` |
| Calculator.SumOutcome | src/__tests__/calculator.test.js:28-35 | sum of a string fails exactly when it is non-empty and not well separated; otherwise it is the fold of the normalized tokens; there is no other outcome |
| Calculator.SumOfEmpty | src/__tests__/calculator.test.js:14-16 | the empty string is accepted and sums to 0 |
| Calculator.SumOfLiteral | src/__tests__/calculator.test.js:28-35 | a string holding one number is accepted and sums to that number |
| Calculator.TotalOfJoined | src/__tests__/calculator.test.js:28-35 | joining two valid non-empty inputs with a separator gives a valid input whose total is the sum of their totals |
| Calculator.SumOfJoined | src/__tests__/calculator.test.js:28-35 | joining two accepted non-empty inputs with a separator gives an accepted input whose sum is the sum of theirs |
| Calculator.SumUpToSeparators | src/__tests__/calculator.test.js:28-35 | exchanging ',' and '\n' anywhere does not change the result of sum |
| NumberConversion.ToNumber | src/__tests__/calculator.test.js:24 | `Number` on a token, `None` for NaN; which tokens convert and to what is stated by `ToNumberOfRender`, `ToNumberOnlyLiterals` and `ToNumberRejectsForeignChar` |
| NumberConversion.ToNumberOfRender | src/__tests__/calculator.test.js:24 | every decimal literal (sign, digits, optional point) converts to the value it denotes |
| NumberConversion.ToNumberOnlyLiterals | src/__tests__/calculator.test.js:24 | every non-empty token that converts is a printed decimal literal, and converts to that literal's value |
| NumberConversion.ToNumberRejectsForeignChar | src/__tests__/calculator.test.js:24-25 | a token with any character other than a digit, a sign or a point gives NaN and is filtered out |
| NumberConversion.ToNumberOfDigits | src/__tests__/calculator.test.js:24 | a run of digits converts to its integer value; the empty run is the empty string, which converts to 0 |
| NumberConversion.ToNumberOfNegated | src/__tests__/calculator.test.js:24 | a leading '-' negates the value of an unsigned token, and NaN stays NaN |
| NumberConversion.ReadSpells | src/__tests__/calculator.test.js:24 | the scanner loses no character: what it accepts spells exactly its input |
| NumberConversion.Magnitude | src/__tests__/calculator.test.js:24 | the value of digits, a point and digits lies between the integer part and the integer part plus one |
| CalculatorExamples.SumOfFive | src/__tests__/calculator.test.js:40-42 | `sum("5")` is 5 |
| CalculatorExamples.SumOfEmptyString | src/__tests__/calculator.test.js:44-46 | `sum("")` is 0 |
| CalculatorExamples.SumOfTwoByComma | src/__tests__/calculator.test.js:48-50 | `sum("12,34")` is 46 |
| CalculatorExamples.SumOfNegativesByComma | src/__tests__/calculator.test.js:52-54 | `sum("-1,-45,-1.4")` is -47.4 |
| CalculatorExamples.SumOfMixedByComma | src/__tests__/calculator.test.js:56-59 | `sum("12,3.4,-45,-1.4")` is -31 |
| CalculatorExamples.SumOfMixedSeparators | src/__tests__/calculator.test.js:61-64 | `sum("12,3.4\n-1,-45\n-1.4")` is -32 |
| CalculatorExamples.SumOfTwoByNewLine | src/__tests__/calculator.test.js:66-68 | `sum("12\n34")` is 46 |
| CalculatorExamples.SumOfNegativesByNewLine | src/__tests__/calculator.test.js:70-72 | `sum("-1\n-45\n-1.4")` is -47.4 |
| CalculatorExamples.SumOfMixedByNewLine | src/__tests__/calculator.test.js:74-77 | `sum("12\n3.4\n-1\n-45\n-1.4")` is -32 |
| CalculatorExamples.SumOfNonStringInputs | src/__tests__/calculator.test.js:82-93 | every non-string input fails with the error "Not a valid input" |
| CalculatorExamples.SumRejectsAdjacentSeparators | src/__tests__/calculator.test.js:95-99 | `sum("12,\n34")` fails |
| CalculatorExamples.SumRejectsAdjacentSeparatorsBetweenDecimals | src/__tests__/calculator.test.js:101-105 | `sum("-1,\n-45,\n-1.4")` fails |
| CalculatorExamples.SumRejectsAdjacentSeparatorsAfterStrayChar | src/__tests__/calculator.test.js:107-111 | `sum("12!\n-45,\n-1.4")` fails, because of its adjacent separators |
| CalculatorExamples.SumDropsStrayChar | src/__tests__/calculator.test.js:22-26 | without the empty token the same input is accepted: `sum("12!\n-45\n-1.4")` is -46.4, the stray "12!" being dropped as NaN |

## Left out

- Most of JavaScript's `Number`, a built-in outside this code, is not modelled. This covers whitespace trimming (`Number(" 7 ")` is 7, `Number(" ")` is 0), hexadecimal, octal and binary literals, exponents and `"Infinity"`. In the model, tokens in those forms give NaN and are dropped. Tokens made only of digits, signs and points are converted as `Number` converts them.
- IEEE-754 double arithmetic is not modelled. Conversion and the fold use exact reals, so the expected results of the cases above (-47.4, -31, -32) are exact values, with no rounding.
- The runtime `typeof` check is abstracted: every non-string value (number, object, array, boolean, null, undefined) is the one `Other` input.
- Throwing is modelled as returning `Err(InvalidInput)`. The JavaScript `Error` object is represented only by its message (`Calculator.Message`).
- The Jest harness (`describe`, `it`, `test.each`, `expect`) is not modelled. The cases it runs are stated as lemmas in `CalculatorExamples`.
