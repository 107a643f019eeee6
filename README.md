# Typed console prompts of JYMoleculeTool, in Dafny

This project models the console input helpers of JYMoleculeTool's
`JYMTBasicKit` (`basicTools.swift`):

- `input(name:type:defaultValue:intRange:doubleRange:printAfterSec:)` asks for
  one value of a declared type ("string", "int" or "double"). It re-prompts on
  a nil `readLine()`, on a line the type's parser rejects and on a value outside
  the range configured for that type. It returns the default's text when a
  default exists and the line trims to nothing. Otherwise it returns the
  `String(describing:)` text of the converted value.
- `fileInput(name:message:successMessage:tryAction:)` prompts for a path
  through `input(type: "string")`. It trims the line, deletes every backslash
  Character and hands the result to a validator. It stops when the validator
  returns `true`. After `false` it prompts again. A thrown error is reported and the
  loop goes on.
- `stringWithSpace`, `toPrintWithSpace` and `String.withSpace` pad a string
  with spaces to fill a column.

The console is not real I/O here. Responses are a finite sequence of
`Option<string>`, where `None` is `readLine()` returning nil. Everything
printed is a log `seq<string>`, one entry per `print` call without its
terminator. The loops stop when the responses run out, so each terminates.

Modules, one per component:

- `Wrappers` (`wrappers.dfy`): `Option`.
- `SwiftText` (`swift_text.dfy`): `.whitespacesAndNewlines`,
  `trimmingCharacters(in:)`, `lowercased()` as far as the type codes need it,
  and `replacingOccurrences(of: "\\", with: "")`.
- `SwiftInt` (`swift_int.dfy`): 64-bit `Int(String)` and `String(describing:)`
  of an Int.
- `TypedInput` (`typed_input.dfy`): `input`. `Step` is one pass of the loop
  body as a function. `Input` is the `while !pass` loop as a method proved
  against `Step` and the transcript it prints.
- `FileInput` (`file_input.dfy`): `fileInput`. `FileRun` is the run as a
  function of the responses and the validator's verdicts. `FileInput` is the
  `while !filePass` loop as a method proved equal to it.
- `Padding` (`padding.dfy`): the padding helpers.

Some behaviour of the code is easy to misread:

- A default is returned as the `String(describing:)` text of `defaultValue`,
  not as anything the user typed, with no conversion and no range check.
- `Int(line)` is applied to the untrimmed line, so " 42" is a format error.
- "+042" comes back as "42".
- `fileInput` prints its success message after every validator call that
  returns, including a call that returned `false`. It never prints it after a
  call that threw.
- Cleaning trims first and removes backslashes afterwards, so `\ a` becomes
  " a", which starts with a blank.

## Model

| member | source | states |
|---|---|---|
| `SwiftText.Trim` | Libraries/JYMTKit/Sources/JYMTBasicKit/basicTools.swift:33 | the trimmed line is empty exactly when every character is in `.whitespacesAndNewlines`; otherwise it starts and ends with a non-blank; it is never longer than the line |
| `SwiftText.TrimIsMiddle` | Libraries/JYMTKit/Sources/JYMTBasicKit/basicTools.swift:33 | the trimmed line is the infix of the line that starts at the first non-blank, with only blanks before it and only blanks after it |
| `SwiftText.TrimIsOnlyMiddle` | Libraries/JYMTKit/Sources/JYMTBasicKit/basicTools.swift:33 | any infix with non-blank ends (or an empty one) that has only blanks before and after it is the trimmed line, so trimming is that infix and nothing else |
| `SwiftText.TrimIgnoresBlanksAround` | Libraries/JYMTKit/Sources/JYMTBasicKit/basicTools.swift:33 | surrounding a string with blanks does not change what trimming keeps |
| `SwiftText.TrimKeeps` | Libraries/JYMTKit/Sources/JYMTBasicKit/basicTools.swift:156 | a string with no blank at either end is left alone by trimming |
| `SwiftText.Lower` | Libraries/JYMTKit/Sources/JYMTBasicKit/basicTools.swift:15 | lower-casing keeps the length, maps each capital A-Z to its own small letter, and keeps every other character |
| `SwiftText.LowerIsWord` | Libraries/JYMTKit/Sources/JYMTBasicKit/basicTools.swift:15 | lower-casing gives a lower-case ASCII word exactly when the string spells that word in any mix of cases, by an independent letter-by-letter comparison |
| `SwiftText.LowerIdempotent` | Libraries/JYMTKit/Sources/JYMTBasicKit/basicTools.swift:15 | lower-casing twice is lower-casing once |
| `SwiftText.RemoveBackslashes` | Libraries/JYMTKit/Sources/JYMTBasicKit/basicTools.swift:156 | the result holds no backslash, is no longer than the input, and is the input itself when it had none |
| `SwiftText.RemoveBackslashesAppend` | Libraries/JYMTKit/Sources/JYMTBasicKit/basicTools.swift:156 | removing backslashes from two strings joined is removing them from each and joining the results, so the kept characters stay in order |
| `SwiftText.RemoveBackslashesKeepsOthers` | Libraries/JYMTKit/Sources/JYMTBasicKit/basicTools.swift:156 | every character other than a backslash is kept, as often as it occurs |
| `SwiftInt.ParseInt` | Libraries/JYMTKit/Sources/JYMTBasicKit/basicTools.swift:42 | `Int(s)` gives a value inside the 64-bit range or nil |
| `SwiftInt.ParsedShape` | Libraries/JYMTKit/Sources/JYMTBasicKit/basicTools.swift:42 | a string `Int(s)` accepts is an optional sign followed by one or more ASCII digits, with no blank anywhere |
| `SwiftInt.RenderInt` | Libraries/JYMTKit/Sources/JYMTBasicKit/basicTools.swift:68 | `String(describing:)` of an Int is in canonical form (no plus sign, no leading zero, no "-0") and starts with a minus sign exactly for a negative value |
| `SwiftInt.RenderIntRoundTrip` | Libraries/JYMTKit/Sources/JYMTBasicKit/basicTools.swift:61-68 | parsing the rendering of any 64-bit Int gives that Int back, and the rendering is canonical |
| `SwiftInt.CanonicalIsRendering` | Libraries/JYMTKit/Sources/JYMTBasicKit/basicTools.swift:68 | a canonical literal is the rendering of the value it parses to, so each Int has one canonical spelling |
| `SwiftInt.DigitsRoundTrip` | Libraries/JYMTKit/Sources/JYMTBasicKit/basicTools.swift:68 | the decimal digits of n denote n |
| `SwiftInt.DigitsOfValue` | Libraries/JYMTKit/Sources/JYMTBasicKit/basicTools.swift:68 | digits without a leading zero are the rendering of the number they denote |
| `SwiftInt.ParsePlusLeadingZero` | Libraries/JYMTKit/Sources/JYMTBasicKit/basicTools.swift:42 | `Int("+042")` is 42 |
| `SwiftInt.Parse200` | Libraries/JYMTKit/Sources/JYMTBasicKit/basicTools.swift:42 | `Int("200")` is 200 |
| `SwiftInt.ParseMinus5` | Libraries/JYMTKit/Sources/JYMTBasicKit/basicTools.swift:42 | `Int("-5")` is -5 |
| `TypedInput.ClassifySpelling` | Libraries/JYMTKit/Sources/JYMTBasicKit/basicTools.swift:15-47 | the `switch` on the lower-cased type name takes the "string", "int" or "double" branch exactly when the name spells that word in any mix of upper and lower case, and the `default:` branch otherwise |
| `TypedInput.TypeCodeExamples` | Libraries/JYMTKit/Sources/JYMTBasicKit/basicTools.swift:38-47 | "INT" and "Int" select Int, "Double" selects Double, "STRING" selects String, and "text" falls to the `default:` branch |
| `TypedInput.Convert` | Libraries/JYMTKit/Sources/JYMTBasicKit/basicTools.swift:38-47 | for "int" the conversion succeeds exactly when `Int(line)` does, and the description of the result parses back to the same Int; for "double" it succeeds exactly when `Double(line)` does, and its description is that of the parsed Double; every other type keeps the line as it is |
| `TypedInput.Step` | Libraries/JYMTKit/Sources/JYMTBasicKit/basicTools.swift:26-69 | a nil response, and only a nil response, is `NilResponse`; with a default, an all-blank line returns the default's text whatever the type and range; for "string" and unknown type codes every other line is accepted verbatim |
| `TypedInput.IntStep` | Libraries/JYMTKit/Sources/JYMTBasicKit/basicTools.swift:42-68 | for type "int": `Int(line)` failing is `WrongFormat`; a value outside `intRange` (both bounds inclusive) is `OutOfRange`; otherwise the rendering of the value is accepted |
| `TypedInput.IntAcceptedIsValid` | Libraries/JYMTKit/Sources/JYMTBasicKit/basicTools.swift:60-68 | an accepted non-default "int" answer re-parses to the Int typed, is canonical, and lies in `intRange` |
| `TypedInput.PaddedIntIsWrongFormat` | Libraries/JYMTKit/Sources/JYMTBasicKit/basicTools.swift:42 | an "int" line holding any blank (such as " 42") is a format error, because the line is not trimmed |
| `TypedInput.DoubleStep` | Libraries/JYMTKit/Sources/JYMTBasicKit/basicTools.swift:44-68 | for type "double": `Double(line)` failing is `WrongFormat`; without `doubleRange` the description of the parsed value is accepted; with it, that description is accepted exactly when it parses back to a value inside the range (both bounds inclusive), and is `OutOfRange` otherwise |
| `TypedInput.DoubleAcceptedIsValid` | Libraries/JYMTKit/Sources/JYMTBasicKit/basicTools.swift:44-59 | an accepted non-default "double" answer is the description of the parsed line; with `doubleRange` its re-parse lies in the range; `intRange` plays no part |
| `TypedInput.RangeOnlyForItsType` | Libraries/JYMTKit/Sources/JYMTBasicKit/basicTools.swift:54-66 | `intRange` matters only for type "int" and `doubleRange` only for type "double" |
| `TypedInput.CountDefault` | Libraries/JYMTKit/Sources/JYMTBasicKit/basicTools.swift:33-36 | on an "int" prompt with default 10 and range 1...100, an empty line returns "10" |
| `TypedInput.CountWrongFormat` | Libraries/JYMTKit/Sources/JYMTBasicKit/basicTools.swift:49-52 | on that prompt "abc" is a format error |
| `TypedInput.CountOutOfRange` | Libraries/JYMTKit/Sources/JYMTBasicKit/basicTools.swift:60-65 | on that prompt "200" and "-5" are out of range |
| `TypedInput.CountCanonical` | Libraries/JYMTKit/Sources/JYMTBasicKit/basicTools.swift:67-68 | on that prompt "+042" is accepted as "42" |
| `TypedInput.PromptText` | Libraries/JYMTKit/Sources/JYMTBasicKit/basicTools.swift:21-25 | the prompt is "Please enter " and the name, then ": " without a default, or the default's text in brackets followed by " by default]: " with one |
| `TypedInput.TranscriptOfRejections` | Libraries/JYMTKit/Sources/JYMTBasicKit/basicTools.swift:20-65 | over responses that are all rejected, each one prints exactly the prompt and then its own failure message, in order |
| `TypedInput.Input` | Libraries/JYMTKit/Sources/JYMTBasicKit/basicTools.swift:14-77 | the result is the text of the first response the line step accepts, and every earlier response was rejected; with no accepted response all of them are read and nothing is returned; the log is the transcript of the responses read, plus the "is set as" echo only on success with `printAfterSec` |
| `FileInput.Label` | Libraries/JYMTKit/Sources/JYMTBasicKit/basicTools.swift:149-153 | the path prompt is labelled with `message` when given, and otherwise with `name` followed by " path" |
| `FileInput.CleanPath` | Libraries/JYMTKit/Sources/JYMTBasicKit/basicTools.swift:156 | the path handed to the validator holds no backslash, is no longer than the line, and is the trimmed line when the line had no backslash |
| `FileInput.CleanPathContents` | Libraries/JYMTKit/Sources/JYMTBasicKit/basicTools.swift:156 | the path handed to the validator is the part of the line between its leading and trailing blank runs, with the backslashes in it deleted and the other characters kept in order |
| `FileInput.CleanPathKeepsEscapedBlank` | Libraries/JYMTKit/Sources/JYMTBasicKit/basicTools.swift:156 | for a non-blank c, the line `\ c` becomes " c": trimming runs before backslashes are removed |
| `FileInput.CleanPathUnescapes` | Libraries/JYMTKit/Sources/JYMTBasicKit/basicTools.swift:156 | for non-blank a and b, the escaped blank in `a\ b` becomes a plain blank, "a b" |
| `FileInput.AfterCall` | Libraries/JYMTKit/Sources/JYMTBasicKit/basicTools.swift:157-163 | after a validator call that threw, only the error report is printed; after one that returned, `true` or `false`, the success message is printed when `successMessage` is set and nothing otherwise |
| `FileInput.PathStep` | Libraries/JYMTKit/Sources/JYMTBasicKit/basicTools.swift:156 | the inner `input(type: "string")` without a default accepts every line verbatim and rejects only nil |
| `FileInput.PathTranscript` | Libraries/JYMTKit/Sources/JYMTBasicKit/basicTools.swift:156 | the inner prompt rejects a run of responses exactly when they are all nil, and then prints a prompt and a nil report for each |
| `FileInput.ReadPath` | Libraries/JYMTKit/Sources/JYMTBasicKit/basicTools.swift:156 | the inner `input` call skips the nil responses, reporting each, and returns the first line |
| `FileInput.Report` | Libraries/JYMTKit/Sources/JYMTBasicKit/basicTools.swift:157-163 | the loop exits exactly on `true`; a throw prints only the error report; a return prints the success message when `successMessage` is set, whether it returned `true` or `false` |
| `FileInput.OnePass` | Libraries/JYMTKit/Sources/JYMTBasicKit/basicTools.swift:155-163 | one pass reads no more responses than there are, and a pass that does not end the run read a line, used a verdict and was not accepted |
| `FileInput.Pass` | Libraries/JYMTKit/Sources/JYMTBasicKit/basicTools.swift:155-163 | one pass of the loop does what `OnePass` says, and the validator receives the cleaned line |
| `FileInput.FileRun` | Libraries/JYMTKit/Sources/JYMTBasicKit/basicTools.swift:154-164 | the run calls the validator at most once per verdict, and an accepted run called it at least once |
| `FileInput.FileInput` | Libraries/JYMTKit/Sources/JYMTBasicKit/basicTools.swift:146-165 | the loop, with label `message` or else `name + " path"`, exits as `FileRun` says; the validator receives the cleaned lines of that run in order; the log is that run's log |
| `FileInput.RunCandidates` | Libraries/JYMTKit/Sources/JYMTBasicKit/basicTools.swift:154-157 | the validator is called on the non-nil lines in the order typed, one verdict per call; a run that did not exit has used up the lines or the verdicts |
| `FileInput.RunStopsAtFirstAccept` | Libraries/JYMTKit/Sources/JYMTBasicKit/basicTools.swift:154-157 | the run exits exactly when its last validator call returned `true`, and no earlier call did |
| `FileInput.AcceptedRunAnnounces` | Libraries/JYMTKit/Sources/JYMTBasicKit/basicTools.swift:158-160 | with `successMessage`, a run that exits ends with "Successfully imported from <name>." |
| `FileInput.SuccessMessageAfterEveryReturn` | Libraries/JYMTKit/Sources/JYMTBasicKit/basicTools.swift:157-163 | a `false` return keeps looping and is still followed by the success message when `successMessage` is set; a throw keeps looping and ends with the error report; a `true` return ends the loop |
| `FileInput.RunStartsWithPrompt` | Libraries/JYMTKit/Sources/JYMTBasicKit/basicTools.swift:147-156 | once there is a response, the first thing printed is the prompt with the path label |
| `Padding.StringWithSpace` | Libraries/JYMTKit/Sources/JYMTBasicKit/basicTools.swift:105-114 | a string longer than `totSpace` is returned unchanged; otherwise the result has length `totSpace`, holds the string at the start (trailing) or the end (leading), and spaces everywhere else |
| `Padding.ToPrintWithSpace` | Libraries/JYMTKit/Sources/JYMTBasicKit/basicTools.swift:119-121 | the item's description padded in the same way |
| `Padding.WithSpace` | Libraries/JYMTKit/Sources/JYMTBasicKit/basicTools.swift:123-127 | `withSpace` on a string gives what `toPrintWithSpace` gives on that same string |
| `Padding.PaddingIsUnique` | Libraries/JYMTKit/Sources/JYMTBasicKit/basicTools.swift:105-114 | the padded string is the only string of that width with the string at the chosen end and spaces elsewhere |
| `Padding.PaddingIdempotent` | Libraries/JYMTKit/Sources/JYMTBasicKit/basicTools.swift:105-114 | padding a padded string to the same width changes nothing |
| `Padding.FullColumnIgnoresSide` | Libraries/JYMTKit/Sources/JYMTBasicKit/basicTools.swift:106-113 | when the string already fills the column, both sides give the string itself |
| `Padding.PaddingLayout` | Libraries/JYMTKit/Sources/JYMTBasicKit/basicTools.swift:109-112 | the padded string holds the string at its offset and a space at every other position |
| `Padding.PaddingTrims` | Libraries/JYMTKit/Sources/JYMTBasicKit/basicTools.swift:105-114 | trimming a padded string gives what trimming the string itself gives, on either side |
| `Padding.PaddingUndoneByTrim` | Libraries/JYMTKit/Sources/JYMTBasicKit/basicTools.swift:105-114 | a string with no blank at either end comes back from its padding by trimming |
| `Padding.PaddingExamples` | Libraries/JYMTKit/Sources/JYMTBasicKit/basicTools.swift:105-114 | "C" in 4 trailing is "C   ", "12" in 5 leading is "   12", and "carbon" in 3 is "carbon" |

## Left out

- Real console I/O: `readLine()` and `print` are a finite response sequence and
  a message log. The prompt's `terminator: ""` and the newline after the other
  messages are not modelled.
- `TypedInput.Input` and `FileInput.FileInput`: the source loops forever until
  a line or a validator call is accepted. The model stops when the finite
  responses, or for `fileInput` the scripted verdicts, run out, and then
  reports that nothing was accepted.
- `Double(String)`, `String(describing:)` of a Double, and the `<=` that
  `ClosedRange<Double>.contains` uses are floating point. They are the fields
  of a `DoubleRules` value and are not interpreted, so double parsing, NaN and
  rounding are not modelled.
- `defaultValue: Any?` is carried as its `String(describing:)` text. What that
  text is for a given Swift value is not modelled.
- `SwiftText.Lower`: maps only the ASCII capitals, not all of Unicode. No other
  character lower-cases into the ASCII letters of "string", "int" or "double",
  so the type code is chosen exactly as in Swift.
- `SwiftText.RemoveBackslashes`, and with it `FileInput.CleanPath`: deletes
  every backslash scalar. Swift's `replacingOccurrences(of: "\\", with: "")`
  compares whole Characters (grapheme clusters), so it keeps a backslash that
  a combining mark joins into a larger Character, such as a backslash
  followed by U+0301. Grapheme clustering is not modelled.
- `Padding.StringWithSpace`: counts characters (Unicode scalars) where Swift's
  `count` counts grapheme clusters.
- The validator of `fileInput`: its own prints, the variables it captures and
  the file access it does are not modelled. It is a scripted sequence of
  verdicts (`true`, `false`, or a thrown error whose description is given as
  text).
- `timeNow`, `displayTime`, `appendedUnixTime` and `appendUnixTime` are not
  modelled, because they depend on the clock, locale and time zone.
- `srounded` and `sroundedString` are not modelled, because they are
  printf-style floating-point formatting.
- `printStringInLine` and `printWelcomeBanner` are not modelled, because they
  are console output with `fflush` and compile-time flags.
- `createNewDirectory` is not modelled, because it depends on the file system.
- `xyzFileInput`, `sabcFileInput` and `exportingPathInput` are callers of
  `fileInput`. Their validators use file parsers and file-system queries that
  are not part of this model.
- `SFProgramMode` is not modelled: it is an enum with no logic.
