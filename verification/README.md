# CyberSec education site — a Dafny model of its interactive pages

This project models the logic behind the interactive pages of a cybersecurity
education site:

- the reusable multiple-choice **quiz engine**, plus the cryptography
  assessment's five questions;
- the **cryptography** page:
  - the Caesar cipher;
  - the password-strength meter with its first-failure advice;
  - the "encrypt" panel: Base64, ROT13 and reverse;
- the **encoding** page:
  - the per-code-unit decimal/hex/binary/`U+` table;
  - the Base64 encode/decode box;
  - the number-system converter;
- the **password demo**:
  - the strength heuristic with its personal-information penalty;
  - the `addComplexity` transformer;
  - the five personal-data generation methods;
  - the family and pet list edits;
  - the random "secure" password;
- the **system-protection** page:
  - the security score;
  - the verdict bands;
  - the delayed attack simulation;
- the **terminal simulator**:
  - the command table and the dispatch on trimmed, lower-cased input;
  - submission;
  - up/down history navigation;
  - the Clear button;
- the **social-engineering** page:
  - the scenario catalogue;
  - choosing, scoring, "Try Again" and "Back";
  - the progress bars.

Each page's component state is a Dafny datatype. Each handler is a pure
function from state to state. What the page lets the user do (rendered
buttons, disabled buttons, slider bounds) is a separate `Enabled` predicate,
and `Step` applies an event only when the page offers it. The JavaScript
built-ins the pages rely on have their own modules, following their
ECMAScript and HTML definitions:

| module | built-ins |
|---|---|
| `JsText` | `trim`, `\s`, `split`, `join`, `padStart`, ASCII case mapping, and the UTF-16 code units behind `length`, `split("")` and `charCodeAt` |
| `JsNumber` | `Number.prototype.toString(radix)`, `parseInt` |
| `Base64` | `btoa` with the alphabet and padding of section 4 of RFC 4648, and `atob` as the forgiving-base64 decode of the HTML standard |

| file | module | models |
|---|---|---|
| wrappers.dfy | `Wrappers` | `Option`, standing for `null`, `NaN` or a thrown exception |
| js_text.dfy | `JsText` | string built-ins |
| js_number.dfy | `JsNumber` | radix conversion and `parseInt` |
| base64.dfy | `Base64` | `btoa`/`atob` |
| quiz_engine.dfy | `QuizEngine` | components/quiz/quiz-engine.tsx |
| quiz_fixture.dfy | `QuizFixture` | the questions in app/cryptography/quiz/page.tsx |
| cryptography.dfy | `Cryptography` | app/cryptography/page.tsx |
| encoding.dfy | `Encoding` | app/encoding/page.tsx |
| password_demo.dfy | `PasswordDemo` | app/password-demo/page.tsx |
| system_protection.dfy | `SystemProtection` | app/system-protection/page.tsx |
| terminal_sim.dfy | `TerminalSim` | app/terminal-sim/page.tsx |
| social_engineering.dfy | `SocialEngineering` | app/social-engineering/page.tsx, the logic |
| social_scenarios.dfy | `SocialScenarios` | app/social-engineering/page.tsx, the scenario data |

The quiz handlers are modelled as the code writes them:

- `handleOptionSelect` does not check that the option belongs to the current question.
- `handleNextQuestion` does not check that the answer was submitted.

The page makes both impossible by what it renders. That guarding is the `Enabled` predicate.

## Model

| member | source | states |
|---|---|---|
| QuizEngine.SelectOption | components/quiz/quiz-engine.tsx:43-47 | Before submission the selection becomes the chosen id. After submission nothing changes. No other field is ever touched. |
| QuizEngine.SubmitAnswer | components/quiz/quiz-engine.tsx:49-61 | Without a (non-empty) selection, or a second time, nothing changes. Otherwise the answer is recorded under the question's id, the flag is set, and the score rises by one exactly when the selection is the correct option. |
| QuizEngine.NextQuestion | components/quiz/quiz-engine.tsx:63-74 | Before the last question it moves on with the selection and flag cleared. On the last it shows the results and reports (score, total) once. |
| QuizEngine.RestartQuiz | components/quiz/quiz-engine.tsx:76-83 | Every piece of state is back to its initial value. |
| QuizEngine.Step | components/quiz/quiz-engine.tsx:118-244 | An action the page does not offer leaves the state unchanged. The page offers: radio items of the current question before submission, Submit only with a selection, Next only after submission, Restart only on the results screen. |
| QuizEngine.Enabled | components/quiz/quiz-engine.tsx:118-244 | A definition without a contract: the radio items of the current question before submission, Submit with a selection, Next after submission, Restart on the results screen. `Step` and `StepInv` state what it guards. |
| QuizEngine.InitInv | components/quiz/quiz-engine.tsx:33-38 | The initial state satisfies the quiz invariant: the index is on a question, exactly the submitted questions have answers, and the score counts the correct ones. |
| QuizEngine.SubmitInv | components/quiz/quiz-engine.tsx:49-61 | Submitting keeps the invariant: the score still counts exactly the correct recorded answers. |
| QuizEngine.NextInv | components/quiz/quiz-engine.tsx:63-74 | Advancing keeps the invariant. |
| QuizEngine.StepInv | components/quiz/quiz-engine.tsx:43-83 | Every user action keeps the invariant. |
| QuizEngine.RunInv | components/quiz/quiz-engine.tsx:43-83 | Any sequence of actions keeps the invariant. |
| QuizEngine.ScoreBounded | components/quiz/quiz-engine.tsx:49-61 | No sequence of actions scores a question twice. The score never exceeds the questions submitted, nor the question count. |
| QuizEngine.SelectAfterSubmit | components/quiz/quiz-engine.tsx:43-47 | Once the answer is submitted, selecting another option changes nothing. |
| QuizEngine.SubmitTwice | components/quiz/quiz-engine.tsx:49-50 | Submitting twice is the same as submitting once. |
| QuizEngine.CompletionReport | components/quiz/quiz-engine.tsx:68-72 | Leaving the last question reports to `onComplete` the number of correctly answered questions out of the total, and shows the results. |
| QuizEngine.Round | components/quiz/quiz-engine.tsx:43-74 | Select, submit and next on a fresh question records exactly that option for the question and keeps the invariant. |
| QuizEngine.RunScript | components/quiz/quiz-engine.tsx:43-74 | Answering every remaining question with one of its options reaches the results screen, with each chosen option recorded under its question. Proved one round at a time. |
| QuizEngine.FirstRound | components/quiz/quiz-engine.tsx:43-74 | One round on the first remaining question records that option, keeps the invariant, and either finishes the quiz or moves on with nothing selected or submitted. |
| QuizEngine.RunScriptRest | components/quiz/quiz-engine.tsx:43-74 | After the first round, the rest of the script records every later choice and keeps the first one. |
| QuizEngine.FullRun | components/quiz/quiz-engine.tsx:43-74 | Answering the whole quiz from the start ends on the results screen with a score equal to the number of chosen options that are correct, and the percentage shown is that count out of the total. |
| QuizEngine.RunKeepsAnswer | components/quiz/quiz-engine.tsx:53-56 | An answer recorded for an earlier question never changes afterwards, unless the quiz restarts. |
| QuizEngine.CorrectCountFrame | components/quiz/quiz-engine.tsx:53-56 | Recording an answer for another question does not change whether the first `n` questions count as correct. |
| QuizEngine.Percent | components/quiz/quiz-engine.tsx:86 | The percentage is the nearest whole number to score/total·100, with halves rounded up. |
| QuizEngine.PercentRange | components/quiz/quiz-engine.tsx:86 | A score within the total gives 0 to 100 percent: a full score exactly 100, and no correct answers exactly 0. |
| QuizEngine.Assessment | components/quiz/quiz-engine.tsx:204-214 | The tiers partition the percentages: Excellent from 80, Good from 60 to 79, otherwise Review. |
| QuizEngine.OptionMark | components/quiz/quiz-engine.tsx:120-123 | After submission an option is styled correct exactly when it is the right one, and incorrect exactly when it is the wrong selection. Before submission only the selection is highlighted. |
| QuizEngine.MarksBeforeSubmit | components/quiz/quiz-engine.tsx:154-155 | Before submission no option shows a tick or a cross. |
| QuizEngine.MarksAfterSubmit | components/quiz/quiz-engine.tsx:154-155 | After submission exactly one option is ticked, the correct one, and at most one is crossed: the selection, exactly when it is wrong. |
| QuizFixture.CryptoQuestionsWellFormed | app/cryptography/quiz/page.tsx:8-74 | The five cryptography questions have distinct ids, four distinct options each, and their answer key among the options. |
| QuizFixture.ThreeOfFive | app/cryptography/quiz/page.tsx:8-74 | Answering b, a, b, a, c finishes the quiz with 3 of 5: 60 percent, the middle tier. |
| Cryptography.Caesar | app/cryptography/page.tsx:36-48 | Each character is shifted on its own and the length is kept. `ShiftChar` and `CaesarRoundTrip` state what the shift does. |
| Cryptography.ShiftChar | app/cryptography/page.tsx:38-46 | Letters stay letters of the same case, and every other character is unchanged. |
| Cryptography.CaesarRoundTrip | app/cryptography/page.tsx:34-51 | Shifting by `k` and then by `26 - k mod 26` gives the plaintext back. |
| Cryptography.CaesarExamples | app/cryptography/page.tsx:19-20 | The default text "Hello World" with shift 3 enciphers as "Khoor Zruog". |
| Cryptography.Rot13IsCaesar | app/cryptography/page.tsx:112-115 | The encrypt panel's ROT13 arithmetic, including the `& 0xff`, is the Caesar shift by 13. |
| Cryptography.Rot13 | app/cryptography/page.tsx:112-116 | Each character is mapped on its own and the length is kept. `Rot13IsCaesar` and `Rot13Involution` state what the map does. |
| Cryptography.Rot13Char | app/cryptography/page.tsx:112-115 | Characters other than ASCII letters are unchanged. `Rot13CharIsShift` and `Rot13IsCaesar` state what happens to letters. |
| Cryptography.Rot13Involution | app/cryptography/page.tsx:112-115 | ROT13 applied twice gives the text back. |
| Cryptography.Reverse | app/cryptography/page.tsx:117-119 | Character `i` of the result is character `|s|-1-i` of the input. A character above U+FFFF is reversed as one character, not as two code units. |
| Cryptography.ReverseCodeUnits | app/cryptography/page.tsx:117-119 | On text without characters above U+FFFF, the reversal seen as code units is the reversal of the code units, as `split("").reverse()` gives. |
| Cryptography.ReverseInvolution | app/cryptography/page.tsx:117-119 | Reversing twice gives the text back. |
| Cryptography.ReverseMultiset | app/cryptography/page.tsx:117-119 | Reversal keeps every character as often as it occurs. |
| Cryptography.AnalyzePassword | app/cryptography/page.tsx:54-101 | An empty password scores 0. Any other scores a multiple of 20 between 20 and 100, and gets "Strong password!" exactly at 100. |
| Cryptography.Rules | app/cryptography/page.tsx:61-98 | There are always five checks. Their order (length of eight code units, upper case, lower case, digit, special character) and what they decide are stated by `FeedbackIsFirstFailure` and `PointsFailures`. |
| Cryptography.Points | app/cryptography/page.tsx:61-98 | A definition without a contract: 20 points per passed check. `PointsFailures` relates it to the failed checks. |
| Cryptography.FirstAdvice | app/cryptography/page.tsx:64-100 | A definition without a contract: an independent statement of the advice, as a chain of tests in check order. `FeedbackIsFirstFailure` proves that the page's feedback agrees with it. |
| Cryptography.PointsFailures | app/cryptography/page.tsx:61-98 | The strength is 20 points for every check that is not failed. |
| Cryptography.SomeRulePasses | app/cryptography/page.tsx:72-97 | A non-empty password passes at least one of the upper, lower, digit or special checks. |
| Cryptography.FeedbackIsFirstFailure | app/cryptography/page.tsx:64-100 | The advice is that of the first failing check, in the order length (eight code units), upper, lower, digit, special. |
| Cryptography.StrengthLabel | app/cryptography/page.tsx:258 | Weak below 40, Medium from 40 to 79, Strong from 80. |
| Cryptography.StrongLabel | app/cryptography/page.tsx:61-100 | A password is labelled Strong exactly when at most one check fails. |
| Cryptography.Encrypt | app/cryptography/page.tsx:104-127 | Only Base64 can fail, exactly on text with a code unit above U+00FF. The other methods always give output. |
| Cryptography.EncryptUndone | app/cryptography/page.tsx:104-127 | Each method is undone by its partner: `atob` for Base64, itself for ROT13 and reversal. Any other method returns the text as it is. |
| JsText.TrimStart | app/terminal-sim/page.tsx:228 | The result is a suffix of the input. Everything cut is whitespace, and the result does not start with whitespace. |
| JsText.TrimEnd | app/terminal-sim/page.tsx:228 | The result is a prefix of the input. Everything cut is whitespace, and the result does not end with whitespace. |
| JsText.Trim | app/terminal-sim/page.tsx:228 | The result is a contiguous slice of the input with only whitespace before and after it. It is empty exactly for all-whitespace input. Otherwise neither end is whitespace, and already-trimmed text is unchanged. |
| JsText.StripSpaces | app/password-demo/page.tsx:129-153 | No whitespace is left and the result is no longer than the input. Which characters are kept, and in what order, is stated by `StripSpacesConcat` and `StripSpacesSnoc`. |
| JsText.StripSpacesExtremes | app/password-demo/page.tsx:129-153 | Text without whitespace is unchanged, and all-whitespace text vanishes. |
| JsText.StripSpacesConcat | app/password-demo/page.tsx:129-153 | Stripping a concatenation strips each part and keeps them in order, so every non-whitespace character is kept in its place. |
| JsText.StripSpacesSnoc | app/password-demo/page.tsx:129-153 | Appending one character appends it to the result exactly when it is not whitespace. |
| JsText.Split | app/password-demo/page.tsx:108 | There is always at least one piece, and no piece contains the separator. |
| JsText.SplitJoin | app/password-demo/page.tsx:164-168 | Joining the pieces of a split with the same separator gives the string back. |
| JsText.PadStart | app/encoding/page.tsx:40-42 | The result has the target width (or the input's, if longer), ends with the input, and is filled with the pad character before it. |
| JsText.Utf16 | app/encoding/page.tsx:36-37 | A character below U+10000 is one code unit that is not a surrogate. Any other is two: a high then a low surrogate. |
| JsText.Utf16Combines | app/encoding/page.tsx:37 | A surrogate pair combines back into the character it encodes. |
| JsText.CodeUnits | app/cryptography/page.tsx:37 | A string has at least as many code units as characters. |
| JsText.BmpCodeUnits | app/cryptography/page.tsx:37 | Without characters above U+FFFF, each character is its own code unit, in place. |
| JsText.LengthIsSize | app/cryptography/page.tsx:65 | `length` counts the characters exactly when no character is above U+FFFF. |
| JsText.CodeUnitsConcat | app/cryptography/page.tsx:118 | The code units of a concatenation are those of the parts, in order. |
| JsNumber.DigitValue | app/encoding/page.tsx:65 | A character has a digit value exactly when it is an ASCII letter or digit, and the value is below 36. |
| JsNumber.DigitChar | app/encoding/page.tsx:74 | The digit written for `d` reads back as `d`. |
| JsNumber.NatToString | app/encoding/page.tsx:74 | The digits `toString` writes for a finite number it does not put in exponent form: non-empty digits of the radix, with a leading `0` only for zero itself. |
| JsNumber.IntToString | app/encoding/page.tsx:74 | The plain-digit branch of `toString`: a leading minus sign exactly for negative numbers. `NumberToString` adds the other two branches. |
| JsNumber.DigitPrefix | app/encoding/page.tsx:65 | The longest prefix of radix digits: all digits, and stopped by a non-digit. |
| JsNumber.ParseInt | app/encoding/page.tsx:66 | A definition without a contract. `ParseIntDigits`, `ParseIntToString`, `ParseIntNegative`, `ParseIntWhole` and `ParseIntHex` state what it reads. |
| JsNumber.NatToStringValue | app/encoding/page.tsx:74 | Reading back the plain digits of a non-negative number gives the number. |
| JsNumber.UpperDigitsValue | app/encoding/page.tsx:75 | Upper-casing digits keeps each digit and the value. |
| JsNumber.LeadingZerosValue | app/encoding/page.tsx:40-42 | Zeros padded on the left keep the value. |
| JsNumber.ParseIntDigits | app/encoding/page.tsx:65 | `parseInt` reads a non-empty digit string as the number it denotes. |
| JsNumber.ParseIntToString | app/encoding/page.tsx:65-75 | `parseInt` undoes the upper-cased plain-digit branch of `toString` in the same radix, sign included. |
| JsNumber.UpperIntToStringNumeral | app/encoding/page.tsx:74-75 | The upper-cased plain-digit branch always writes a numeral: an optional minus sign, then upper-case digits of the radix with no leading zero, and zero as `0` alone. |
| JsNumber.NumeralUnique | app/encoding/page.tsx:74-75 | Conversely, every numeral is exactly what the upper-cased plain-digit branch writes for the number `parseInt` reads from it. |
| JsNumber.UpperNatToString | app/encoding/page.tsx:74-75 | Upper-case digits without a leading zero are what the upper-cased plain-digit branch writes for their value. |
| JsNumber.NumberToString | app/encoding/page.tsx:74 | A definition without a contract: "Infinity" past the largest double, exponent form from 10^21 in radix 10, and plain digits otherwise. `ParseIntNumberToString`, `ParseIntExponential` and `ParseIntInfinity` state how each branch reads back. |
| JsNumber.ParseIntNumberToString | app/encoding/page.tsx:65-75 | `parseInt` gives back the number from upper-cased `toString` in the same radix exactly when `toString` writes plain digits: finite, and below 10^21 when the radix is 10. |
| JsNumber.ParseIntExponential | app/encoding/page.tsx:65-75 | Upper-cased exponent form reads back as its leading digit, with the number's sign: "1E+21" reads as 1. |
| JsNumber.ParseIntInfinity | app/encoding/page.tsx:65-75 | Past the largest double the text is "INFINITY" or "-INFINITY". In the radices up to 18 it reads back as no number, and in no radix as the number itself. |
| JsNumber.InfinityBoundValue | app/encoding/page.tsx:65 | The bound is the value halfway between the largest double, (2^53 − 1)·2^971, and 2^1024, where `parseInt`'s rounding reaches infinity. |
| JsNumber.ExponentFromValue | app/encoding/page.tsx:74 | Exponent form starts at 10^21. |
| JsNumber.DropTrailingZeros | app/encoding/page.tsx:74 | A prefix of the digits that stops at the last non-zero one; only zeros are cut. |
| JsNumber.SignificandValue | app/encoding/page.tsx:74 | The significant digits start and end with a non-zero digit, begin with the leading digit, and times the leftover power of ten are the number. |
| JsNumber.ExponentBounds | app/encoding/page.tsx:74 | The exponent is that of the leading digit, `10^e <= m < 10^(e+1)`, and is at least 21 in exponent form. |
| JsNumber.ExponentialShape | app/encoding/page.tsx:74-75 | Upper-cased exponent form starts with the leading digit, then a point or `E`. |
| JsNumber.ParseIntBelowPow | app/encoding/page.tsx:65 | What `parseInt` reads is below `radix^n` for a text of `n` characters. |
| JsNumber.ParseIntNegative | app/encoding/page.tsx:65 | A minus sign followed by digits reads as the negated value. |
| JsNumber.ParseIntWhole | app/encoding/page.tsx:65 | When everything after the sign is digits, all of it is read. |
| JsNumber.NatToStringLength | app/encoding/page.tsx:40-42 | A number below `radix^k` takes at most `k` digits. |
| JsNumber.DigitsBelowPow | app/encoding/page.tsx:41-43 | `k` digits of a radix denote a number below `radix^k`, so a padded column wider than asked means a large value. |
| Base64.LetterValueOfLetter | app/encoding/page.tsx:51-58 | Each 6-bit value's alphabet character reads back as that value. |
| Base64.EncodeGroups | app/encoding/page.tsx:51-58 | Output is only alphabet characters: four per three bytes, plus two or three for a trailing one or two bytes. |
| Base64.Btoa | app/encoding/page.tsx:51-58 | Succeeds exactly on text whose code units all fit in a byte. The output length is 4·⌈n/3⌉. |
| Base64.Atob | app/encoding/page.tsx:51-58 | Whatever it decodes is text of single-byte code units. The cases it throws on are stated by `AtobRejectsForeign`, `AtobRejectsLength` and `AtobRejectsMisplacedPad`. |
| Base64.DecodeEncodeGroups | app/encoding/page.tsx:51-58 | Decoding the unpadded encoding gives the bytes back. |
| Base64.TripleRoundTrip | app/encoding/page.tsx:51-58 | Three bytes written as four characters read back as the same three bytes. |
| Base64.StripPaddingOfEncode | app/encoding/page.tsx:51-58 | Dropping the padding of an encoding leaves its unpadded groups. |
| Base64.AtobBtoa | app/encoding/page.tsx:51-58 | `atob(btoa(s))` is `s` for every string `btoa` accepts. |
| Base64.AtobRejectsForeign | app/encoding/page.tsx:51-58 | A character that is not Base64, `=` or ASCII whitespace makes `atob` throw. |
| Base64.AtobRejectsLength | app/encoding/page.tsx:51-58 | After whitespace is removed, a length of one more than a multiple of four makes `atob` throw. |
| Base64.AtobRejectsMisplacedPad | app/encoding/page.tsx:51-58 | An `=` makes `atob` throw unless the length is a multiple of four and it is the last character, or the second-to-last followed by another `=`. |
| Base64.AtobAccepts | app/encoding/page.tsx:51-58 | Conversely, text with no foreign character, no length of one more than a multiple of four, and `=` only as final padding decodes. With the three rejections, this says exactly when `atob` throws. |
| Base64.RemoveAsciiWhitespace | app/encoding/page.tsx:51-58 | No ASCII whitespace is left, and the result is no longer than the input. `RemoveAsciiWhitespaceConcat` and `RemoveAsciiWhitespaceSnoc` state which characters are kept, in order. |
| Base64.RemoveAsciiWhitespaceConcat | app/encoding/page.tsx:51-58 | Removing whitespace from a concatenation removes it from each part and keeps the parts in order. |
| Base64.RemoveAsciiWhitespaceSnoc | app/encoding/page.tsx:51-58 | Appending one character appends it to the result exactly when it is not ASCII whitespace. |
| Base64.StripPadding | app/encoding/page.tsx:51-58 | Only trailing `=` are dropped, at most two, and only from a length that is a multiple of four. |
| Encoding.Padded | app/encoding/page.tsx:40-42 | At least as wide as asked, and never empty. |
| Encoding.Details | app/encoding/page.tsx:36-46 | One row per UTF-16 code unit of the input, in order, each the row for that unit. |
| Encoding.DetailsBmp | app/encoding/page.tsx:36-46 | Text without characters above U+FFFF gives one row per character, holding that character's value. |
| Encoding.DetailsAstral | app/encoding/page.tsx:36-46 | A character above U+FFFF gives two rows, a high and a low surrogate, which combine back into it. |
| Encoding.Detail | app/encoding/page.tsx:37-44 | The row is for one UTF-16 code unit and keeps it as its decimal value. The hex column starts with `0x` and has at least two digits. The binary column has at least eight. The Unicode column starts with `U+` and has at least four digits. |
| Encoding.PaddedValue | app/encoding/page.tsx:40-42 | Padded upper-case digits are digits of the radix and still denote the code. |
| Encoding.DetailParsesBack | app/encoding/page.tsx:37-44 | The hex, binary and `U+` columns each read back with `parseInt` as the row's code unit. |
| Encoding.DetailWidths | app/encoding/page.tsx:41-43 | The `U+` column always has exactly four digits, since a code unit is below U+10000. The hex column is exactly `0x` plus two digits, and the binary column exactly eight, if and only if the unit is below 256. |
| Encoding.ParseIntHex | app/encoding/page.tsx:65 | In radix 16 `parseInt` skips the `0x` in front of hexadecimal digits. |
| Encoding.Base64Output | app/encoding/page.tsx:50-59 | Encoding text with a code unit above U+00FF shows the error message. Otherwise the output length is a multiple of four. The decode errors are stated by `Base64BoxRejects`, `Base64BoxRejectsLength` and `Base64BoxRejectsMisplacedPad`. |
| Encoding.Base64BoxRoundTrip | app/encoding/page.tsx:50-59 | Decoding what the box encoded gives the text back. |
| Encoding.Base64BoxRejects | app/encoding/page.tsx:50-59 | Decoding text with a foreign character shows the error message. |
| Encoding.Base64BoxRejectsLength | app/encoding/page.tsx:50-59 | Decoding text whose length without whitespace is one more than a multiple of four shows the error message. |
| Encoding.Base64BoxRejectsMisplacedPad | app/encoding/page.tsx:50-59 | Decoding text with a misplaced `=` shows the error message. |
| Encoding.Convert | app/encoding/page.tsx:62-78 | "Invalid input" appears exactly when `parseInt` finds no digits. Otherwise the output, read in the output base, is the number that was read exactly when `toString` writes it in plain digits, and then it is a numeral of the output base. From 10^21 in base 10 the output reads back as its signed leading digit. Past the largest double it is "INFINITY" or "-INFINITY". |
| Encoding.WrittenNumber | app/encoding/page.tsx:68-76 | What the converter shows for a number: never "Invalid input", reading back as the number exactly in plain digits, and a numeral then. It also gives the exponent-form and "INFINITY" cases. |
| Encoding.NotInvalid | app/encoding/page.tsx:68-76 | A converted number is never the text "Invalid input", in any of `toString`'s three forms, so the two outcomes cannot be confused. |
| Encoding.ConvertRoundTrip | app/encoding/page.tsx:62-78 | Converting from one base to another and back gives the same value's text in the first base when the middle base writes plain digits. Otherwise the middle text no longer reads as the number. |
| Encoding.ConvertCanonical | app/encoding/page.tsx:62-78 | Converting a numeral to its own base gives what `toString` writes for its number. That is the numeral itself whenever `toString` writes plain digits. |
| Encoding.NumeralFixed | app/encoding/page.tsx:62-78 | Converting to the same base leaves a numeral unchanged exactly when its number is written in plain digits. Any other text, except the error message, always changes. |
| Encoding.ConvertExponentExample | app/encoding/page.tsx:62-78 | "1" followed by twenty-one zeros converts from base 10 to base 10 as "1E+21". |
| Encoding.ConvertExponentBack | app/encoding/page.tsx:62-78 | "1E+21" converts from base 10 to base 10 as "1". |
| Encoding.ConvertIgnoresTail | app/encoding/page.tsx:65 | Whatever follows the leading digits is ignored, bar a `0x` read as a prefix in base 16. |
| Encoding.ConvertExample | app/encoding/page.tsx:29-31 | The initial values, "42" from base 10 to base 2, show "101010". |
| PasswordDemo.RawStrength | app/password-demo/page.tsx:222-231 | The tests add up to at most 85, and to at most 45 below eight code units of `length`. |
| PasswordDemo.CalculateStrength | app/password-demo/page.tsx:222-236 | The 25-point penalty applies, never below 0: the result is at most 60, and at most 20 below eight code units. |
| PasswordDemo.TopStrength | app/password-demo/page.tsx:222-236 | The top score of 60 needs a `length` of 16 code units and all four kinds of character, and those always reach it. |
| PasswordDemo.Capitalize | app/password-demo/page.tsx:188 | Only the first character changes, to upper case. |
| PasswordDemo.Cased | app/password-demo/page.tsx:187-196 | Casing keeps the length. |
| PasswordDemo.CasedShape | app/password-demo/page.tsx:187-196 | With lower case on, the base is lowered, then capitalised exactly when upper case is on too. With only upper case on, just the first character is raised. With neither, the base is kept. |
| PasswordDemo.Decorated | app/password-demo/page.tsx:186-208 | The number and symbol go after the cased base, which stays a prefix. |
| PasswordDemo.AddComplexity | app/password-demo/page.tsx:184-220 | The result always has exactly the requested length. |
| PasswordDemo.AddComplexityKeepsBase | app/password-demo/page.tsx:184-220 | Whatever the random draws, the result starts with as much of the cased base as fits. |
| PasswordDemo.InitialsAreWordStarts | app/password-demo/page.tsx:164-168 | The initials are exactly the characters that begin a space-separated word. |
| PasswordDemo.Initials | app/password-demo/page.tsx:164-168 | A definition without a contract: the first character of each space-separated piece, where the page's `n[0]` takes the first code unit (see "## Left out"). `InitialsAreWordStarts` states which characters those are. |
| PasswordDemo.PetNames | app/password-demo/page.tsx:112 | Only the pets with a name contribute, and no name is empty. |
| PasswordDemo.FamilyNames | app/password-demo/page.tsx:113 | At most one name per member; blank members are dropped. |
| PasswordDemo.RemoveDashes | app/password-demo/page.tsx:169 | No dash is left, the result is no longer than the input, and a leading non-dash is kept. Which characters are kept, and in what order, is stated by `RemoveDashesConcat` and `RemoveDashesSnoc`. |
| PasswordDemo.RemoveDashesConcat | app/password-demo/page.tsx:169 | Removing dashes from a concatenation removes them from each part and keeps the parts in order. |
| PasswordDemo.RemoveDashesSnoc | app/password-demo/page.tsx:169 | Appending one character appends it to the result exactly when it is not a dash. |
| PasswordDemo.RemoveDashesDate | app/password-demo/page.tsx:169 | A date `y-m-d` whose fields hold no dash becomes `ymd`. |
| PasswordDemo.Generate | app/password-demo/page.tsx:102-182 | Each generated password has the requested length, and its strength is that password's score. |
| PasswordDemo.GeneratePersonalPasswords | app/password-demo/page.tsx:102-182 | At most five passwords, one per generation method at most. |
| PasswordDemo.GenerateMethods | app/password-demo/page.tsx:115-179 | The entries come in the fixed method order: one for each method whose fields are filled, none for the rest. |
| PasswordDemo.MethodAppears | app/password-demo/page.tsx:115-179 | A method appears among the results exactly when the fields it needs are filled. |
| PasswordDemo.Fires | app/password-demo/page.tsx:115-179 | A definition without a contract: the fields each method needs. `MethodAppears` states that a method gives a password exactly when it fires. |
| PasswordDemo.Base | app/password-demo/page.tsx:115-179 | A definition without a contract: the text each method builds on. `Generate` and `AddComplexityKeepsBase` state how the password is made from it, and `StripSpacesConcat` and `RemoveDashesDate` what the parts keep. |
| PasswordDemo.Append | app/password-demo/page.tsx:66-71 | The list gains one blank entry at the end and is otherwise kept. |
| PasswordDemo.UpdateAt | app/password-demo/page.tsx:73-77 | Only the entry at the index changes. |
| PasswordDemo.RemoveAt | app/password-demo/page.tsx:79-82 | One entry fewer for an index in range. An index out of range changes nothing. |
| PasswordDemo.RemoveAtSlices | app/password-demo/page.tsx:79-82 | Exactly the entry at the index is dropped, and the others keep their order. |
| PasswordDemo.UpdatePet | app/password-demo/page.tsx:91-95 | Only the named field of the one pet changes. |
| PasswordDemo.Edit | app/password-demo/page.tsx:327-382 | Because Remove is offered only while a list has more than one entry, both lists always keep at least one. |
| PasswordDemo.SecurePassword | app/password-demo/page.tsx:238-245 | Exactly the requested length, every character from the 88-character set. |
| PasswordDemo.SecureReachable | app/password-demo/page.tsx:238-245 | Every string over the set is a possible output. |
| SystemProtection.Score | app/system-protection/page.tsx:23-29 | For levels 1 to 4 the score is a multiple of ten from 10 to 100. It is 100 exactly with both defences and level 4. |
| SystemProtection.Findings | app/system-protection/page.tsx:36-48 | Each finding is reported exactly when its defence is missing, in the fixed order. There are none with firewall, IDS and level 3 or more. |
| SystemProtection.ExactlyOneVerdict | app/system-protection/page.tsx:158-166 | The four verdict bands partition the scores: exactly one line is shown. |
| SystemProtection.Verdicts | app/system-protection/page.tsx:159-166 | A definition without a contract: the four conditional lines. `ExactlyOneVerdict` states that exactly one of them shows. |
| SystemProtection.Simulation | app/system-protection/page.tsx:31-53 | Starting clears the findings and snapshots the settings. The timer shows the snapshot's findings and ends the run. Neither touches the settings or the score. |
| SystemProtection.StepAsWritten | app/system-protection/page.tsx:88-136 | Events the page does not offer (a second start, a level off the slider) change nothing. |
| SystemProtection.Step | app/system-protection/page.tsx:88-136 | Events the page does not offer change nothing. |
| SystemProtection.Enabled | app/system-protection/page.tsx:129-149 | A definition without a contract: the slider gives levels 1 to 4, the button is disabled during a simulation, and the timer fires only for a started one. `Step` and `NoRestartWhileRunning` state what it guards. |
| SystemProtection.StepInv | app/system-protection/page.tsx:88-149 | The corrected page keeps its invariant, and after any settings change shows the current settings' score. |
| SystemProtection.AsWrittenLags | app/system-protection/page.tsx:92-95 | As written, a settings change stores the score of the settings before the change. |
| SystemProtection.StaleScoreExample | app/system-protection/page.tsx:92-95 | As written, turning the firewall on from the start shows 10 where the settings score 40. |
| SystemProtection.NoRestartWhileRunning | app/system-protection/page.tsx:149 | A simulation cannot be restarted while one is running. |
| SystemProtection.FindingsUseSnapshot | app/system-protection/page.tsx:31-53 | The findings shown are those of the settings when the simulation started, whatever changed meanwhile. |
| TerminalSim.Commands | app/terminal-sim/page.tsx:26-196 | The table's keys are the eleven commands of the page. |
| TerminalSim.Execute | app/terminal-sim/page.tsx:227-272 | The echo comes first and the old lines are kept. Only `clear` empties the screen. The cube shows exactly after `cube`. |
| TerminalSim.Normalize | app/terminal-sim/page.tsx:228 | A definition without a contract: `trim` then `toLowerCase`. `NormalizeNormal` and `SameCommand` state what dispatch then sees. |
| TerminalSim.NormalizeNormal | app/terminal-sim/page.tsx:228 | What dispatch sees is already trimmed and lower case. |
| TerminalSim.Response | app/terminal-sim/page.tsx:232-270 | A definition without a contract: the lines a command adds after its echo. `ResponseSpecial`, `ResponseTable`, `ResponseUnknown` and `ErrorIffUnknown` state them. |
| TerminalSim.ResponseSpecial | app/terminal-sim/page.tsx:232-259 | Empty input prints nothing after its echo, `exit` prints the session-ended line, and `cube` prints eight lines. |
| TerminalSim.ResponseTable | app/terminal-sim/page.tsx:262-266 | A table command prints its entry's lines as output lines. |
| TerminalSim.ResponseUnknown | app/terminal-sim/page.tsx:267-270 | An unknown command prints the not-found error and the help hint. |
| TerminalSim.ErrorIffUnknown | app/terminal-sim/page.tsx:227-272 | An error line appears exactly for commands the terminal does not know. |
| TerminalSim.SameCommand | app/terminal-sim/page.tsx:228 | Inputs equal up to surrounding whitespace and letter case run the same command; only the echo differs. |
| TerminalSim.ExecuteAppends | app/terminal-sim/page.tsx:227-272 | Apart from `clear`, a command appends its echo and then its response. |
| TerminalSim.UnknownReported | app/terminal-sim/page.tsx:267-270 | An unknown command is echoed, reported as not found, and followed by the help hint. |
| TerminalSim.PageTable | app/terminal-sim/page.tsx:26-196 | No special input is a table key, and every command the help text lists is known. |
| TerminalSim.UnknownExample | app/terminal-sim/page.tsx:228 | `Foo` is lower-cased to the unknown command `foo`. |
| TerminalSim.LookupAsWritten | app/terminal-sim/page.tsx:262 | A plain-object lookup finds the table's own entries and, besides them, the inherited members. |
| TerminalSim.ExecuteAsWritten | app/terminal-sim/page.tsx:262-266 | As written, a run that does not throw is the corrected run. It throws only on an inherited name that is not a command. The throw is a bare None: by then the page has added the command to the history and queued the "$ constructor" echo, and the prompt is never cleared, none of which the model states. |
| TerminalSim.AsWrittenAgrees | app/terminal-sim/page.tsx:262-271 | Away from the inherited names the page as written and the explicit table agree. |
| TerminalSim.InheritedThrows | app/terminal-sim/page.tsx:262-266 | As written, a command naming an inherited member throws. The corrected dispatch reports it as not found. |
| TerminalSim.ConstructorDispatches | app/terminal-sim/page.tsx:228 | `constructor` typed as is dispatches as itself. |
| TerminalSim.ProtoDispatches | app/terminal-sim/page.tsx:228 | `__proto__` typed as is dispatches as itself. |
| TerminalSim.InheritedNotInTable | app/terminal-sim/page.tsx:26-196 | Neither inherited name is a key of the page's table. |
| TerminalSim.Submit | app/terminal-sim/page.tsx:274-282 | Blank input is ignored. Otherwise the raw input is run and added to the history, the prompt is emptied, and navigation restarts. |
| TerminalSim.Up | app/terminal-sim/page.tsx:286-294 | From fresh input it goes to the newest entry, then one older each time, stopping at the oldest. The prompt shows the entry. |
| TerminalSim.Down | app/terminal-sim/page.tsx:295-306 | One newer each time; past the newest, back to empty fresh input. |
| TerminalSim.Clear | app/terminal-sim/page.tsx:310-317 | The banner again, no cube, the prompt and history kept. |
| TerminalSim.DownUndoesUp | app/terminal-sim/page.tsx:284-308 | ArrowDown undoes ArrowUp, except that fresh input comes back empty. |
| TerminalSim.UpUndoesDown | app/terminal-sim/page.tsx:284-308 | ArrowUp undoes ArrowDown below the newest entry. |
| TerminalSim.UpsRecall | app/terminal-sim/page.tsx:286-294 | From fresh input, `k + 1` presses recall the `k`-th newest command, or the oldest once `k` passes it. |
| TerminalSim.UpRecallsLast | app/terminal-sim/page.tsx:274-294 | ArrowUp right after a submission recalls the command just run. |
| TerminalSim.StepInv | app/terminal-sim/page.tsx:274-317 | Every event keeps the history index in range. Only a non-blank submission adds to the history. |
| TerminalSim.Step | app/terminal-sim/page.tsx:274-399 | A definition without a contract: typing sets the prompt, Enter submits, and the arrows navigate the history. `StepInv`, `StepNonBlank` and `RunInv` state what it keeps. |
| TerminalSim.StepNonBlank | app/terminal-sim/page.tsx:274-282 | Every event keeps the invariant and adds only non-blank entries to the history. |
| TerminalSim.RunInv | app/terminal-sim/page.tsx:274-317 | Any run keeps the index in range, and every entry in the history is non-blank. |
| SocialEngineering.CorrectCount | app/social-engineering/page.tsx:21-27 | The number of correct choices is at most the number of choices. |
| SocialEngineering.CorrectCountPositive | app/social-engineering/page.tsx:21-27 | The count is positive exactly when some choice is correct. |
| SocialEngineering.FindChoice | app/social-engineering/page.tsx:298 | A found choice has the id. Nothing is found exactly when no choice has it. |
| SocialEngineering.FindUnique | app/social-engineering/page.tsx:298 | With distinct ids, looking up a choice's id finds that choice. |
| SocialEngineering.Ids | app/social-engineering/page.tsx:32-285 | Every scenario's id is included, and there are at most as many ids as scenarios. |
| SocialEngineering.ChoiceSelect | app/social-engineering/page.tsx:293-305 | Choosing shows the result. In an open scenario it marks the scenario completed and adds at most one point. |
| SocialEngineering.ResetScenario | app/social-engineering/page.tsx:307-310 | Try Again clears the choice and the result and keeps the scenario, completions and score. |
| SocialEngineering.StartScenario | app/social-engineering/page.tsx:312-315 | Opening a scenario is resetting with that scenario current. |
| SocialEngineering.Step | app/social-engineering/page.tsx:351-557 | Events the page does not offer change nothing. |
| SocialEngineering.Enabled | app/social-engineering/page.tsx:351-557 | A definition without a contract: cards open a catalogue scenario when none is open, choices are live until the result shows, Try Again follows a result, and Back needs an open scenario. `Step`, `NoPickDuringResult` and `StepInv` state what it guards. |
| SocialEngineering.StepInv | app/social-engineering/page.tsx:293-315 | Every event keeps the invariant: completions are catalogue scenarios, and a result goes with a choice and a completed scenario. |
| SocialEngineering.RunInv | app/social-engineering/page.tsx:293-315 | Any sequence of events keeps the invariant. |
| SocialEngineering.CompletedBound | app/social-engineering/page.tsx:536-540 | Completions never outnumber the scenarios, so the completion bar stays within 100%. |
| SocialEngineering.CompletionPercent | app/social-engineering/page.tsx:536-541 | The completion bar is the completed share of the scenarios in whole percent, rounded down. |
| SocialEngineering.CorrectPercent | app/social-engineering/page.tsx:543-549 | The correct-responses bar is 0 with no completions. Otherwise it is the score as a share of the completions in whole percent, rounded down. |
| SocialEngineering.PercentWithin | app/social-engineering/page.tsx:541 | A part no larger than the whole is at most 100 percent of it. |
| SocialEngineering.PickScores | app/social-engineering/page.tsx:298-301 | Choosing scores exactly when the choice is correct. |
| SocialEngineering.RecompleteUnchanged | app/social-engineering/page.tsx:302 | Completing a scenario again leaves the completed set as it was. |
| SocialEngineering.NoPickDuringResult | app/social-engineering/page.tsx:382 | While a result is shown, the choices do nothing. |
| SocialEngineering.ChoiceMark | app/social-engineering/page.tsx:385-395 | After the result, every correct choice is marked right, and a wrongly chosen one wrong. Nothing is marked before the result. |
| SocialEngineering.MarkMatchesScore | app/social-engineering/page.tsx:298-395 | The chosen choice is marked right exactly when choosing it scored. |
| SocialEngineering.RunScoreBound | app/social-engineering/page.tsx:298-301 | The score never falls, and grows by at most one per choice made. |
| SocialEngineering.RetryScoresTwice | app/social-engineering/page.tsx:307-310 | Try Again lets the same correct choice score twice. The score then exceeds the completions: the value passed to the "Correct Responses" bar is 200, and its label reads "2 / 1". |
| SocialScenarios.IdsDistinct | app/social-engineering/page.tsx:32-285 | The choice ids within each scenario are distinct. |
| SocialScenarios.CorrectCounts | app/social-engineering/page.tsx:32-285 | Each scenario has one correct choice, except tailgating, which has three. |
| SocialScenarios.CatalogWellFormed | app/social-engineering/page.tsx:32-285 | Every scenario has distinct choice ids and something right to do. |
| SocialScenarios.FourToComplete | app/social-engineering/page.tsx:32-285 | The four scenario ids are distinct, so four completions fill the bar. |
| SocialScenarios.RetryOnPhishing | app/social-engineering/page.tsx:293-310 | On the phishing scenario, contacting IT, trying again and contacting IT again shows a score of 2 with one scenario completed. |

## Left out

- A Dafny `char` is a Unicode scalar value, while a JavaScript string is a sequence of UTF-16 code units. `CodeUnits` and `Length` give the code-unit view where the pages depend on it: `length`, `split("")` and the character table. A JavaScript string holding an unpaired surrogate has no counterpart here, so inputs with one are not modelled.
- Cryptography.Reverse: reverses characters, not code units. On a character above U+FFFF, `split("").reverse().join("")` separates and swaps its two surrogates, giving a string that is not well-formed UTF-16, which has no counterpart here. `ReverseCodeUnits` proves that the two agree on text without such characters.
- PasswordDemo.InitialsAreWordStarts: takes the first character of each word, where the page's `n[0]` takes the first code unit. For a word starting above U+FFFF the page's initials hold a lone high surrogate, which has no counterpart here; `PasswordDemo.Generate` inherits this for its fifth method.
- PasswordDemo.AddComplexity: pads and cuts by characters, where the page's `length` and `substring` count code units. The two differ only on text with characters above U+FFFF, and `substring` can then cut a surrogate pair in half. `PasswordDemo.Generate` inherits this.
- Rendering, styling, animation, focus and scrolling are not modelled. Neither are navigation links, the clipboard, or the 3D cube component.
- Display text is not kept: question wording, option labels, explanations, scenario descriptions, red flags and learning points. Only the ids, the answer keys and the `isCorrect` flags are.
- `Math.random()` draws are explicit arguments: natural numbers below the size of the set drawn from. This covers `addComplexity`'s number, symbol and filler, and `generateSecurePassword`.
- `new Date(...)` in the password demo is not parsed; the birth year and month are string arguments. The terminal's `date` output is a string parameter too.
- `performance.now()` timing of the encrypt panel is not modelled.
- Floating point:
  - `Math.round(score / total * 100)` is computed exactly as round-half-up on rationals. A float product landing just below a half is not reproduced.
  - Progress-bar values are whole percents.
  - `parseInt` results beyond 2^53 are exact integers here, not rounded doubles.
- `toUpperCase`/`toLowerCase` are modelled on ASCII letters only. The pages apply them to letters, digits, hex and base-36 digits and commands.
- `Number.parseInt(inputBase)` and `Number.parseInt(outputBase)` are taken to give the select's radix. The converter's "Error in conversion" catch cannot arise for those radices and is not modelled.
- The terminal's table output is appended in table order. The source schedules each line with a random `setTimeout`, so their arrival order is left out.
- The terminal's `runDemo` is not modelled. It replays six commands with timers, each of which `Execute` covers.
- React's batching of state updates is taken as applying each handler's updates in order. The `clear` command's echo followed by `setLines([])` leaves an empty screen.
- QuizEngine.SelectOption: accepts an option id that does not belong to the current question, as the handler does. Only the rendered radio items (`Enabled`) keep such an id out.
- TerminalSim.ResponseSpecial: the cube's response is counted as the code adds it: a heading, an introduction and the six faces, eight lines in all.
- Cryptography.Encrypt: the `default` branch of `handleEncrypt` is modelled as returning the input unchanged; no option of the method select reaches it.
- JsNumber.NatToString: states the plain-digit branch of `toString` only. `NumberToString` adds exponent form from 10^21 in radix 10 and "Infinity" past the largest double.
- JsNumber.IntToString: the plain-digit branch only, as for `NatToString`; the page's `toString` is `NumberToString`.
- JsNumber.NatToStringValue: reads back the plain-digit branch only; `ParseIntExponential` and `ParseIntInfinity` state how the other two branches read back.
- JsNumber.ParseIntToString: undoes the plain-digit branch only. `ParseIntNumberToString` states when the page's `toString` is undone: exactly in that branch.
- JsNumber.UpperIntToStringNumeral: the plain-digit branch only. Exponent form and "INFINITY" are not numerals, and `Encoding.Convert` promises a numeral only in that branch.
- JsNumber.NumeralUnique: numerals correspond to the plain-digit branch. A numeral of 10^21 or more in radix 10, or past the largest double, is never the page's output, and `Encoding.NumeralFixed` says such a numeral changes.
- JsNumber.UpperNatToString: as for `NumeralUnique`, about the plain-digit branch only.
- JsNumber.NumberToString: exponent form writes every significant digit of the exact integer, where the page writes the shortest digits of the rounded double. For hexadecimal "FFFFFFFFFFFFFFFFFF" into base 10 the page shows "4.722366482869645E+21" and the model "4.722366482869645213695E+21". Both read back as 4. `InfinityBound` assumes `parseInt` rounds to the nearest double. The same holds for `Encoding.Convert`, which writes with it.
- TerminalSim.ExecuteAsWritten: the throw on `constructor` or `__proto__` is None, with no terminal after it. In the page, `handleSubmit` has already added the command to the history and `executeCommand` has already queued the "$ constructor" echo. `setCurrentInput("")` never runs, so the prompt keeps the text. This model states none of that.
- SocialEngineering.RetryScoresTwice: the "Correct Responses" ratio going past 100% after a retry is modelled as written and not corrected. Nothing on the page says whether a retried scenario should score again.

## Findings

| source | as written | input that shows it | evidently intended | confidence | as-written member | corrected member |
|---|---|---|---|---|---|---|
| app/system-protection/page.tsx:92-95 | Each settings handler calls the setter and then `updateSecurityScore()` in the same render, so the score is computed from the settings before the change. | From the initial state, turning the firewall on shows 10, though the settings score 40. | The score shown is that of the settings now shown. | high (not executed) | SystemProtection.StepAsWritten (with AsWrittenLags, StaleScoreExample) | SystemProtection.Step (with StepInv) |
| app/terminal-sim/page.tsx:262-266 | `commands[trimmedCommand]` looks the command up on a plain object. The inherited members `constructor` and `__proto__` are truthy and have no `output`, so `cmd.output.forEach` throws. | Typing `constructor` or `__proto__`. | The two names are reported as "Command not found" like any other unknown command. | high (not executed) | TerminalSim.ExecuteAsWritten (with InheritedThrows, ConstructorDispatches, ProtoDispatches, InheritedNotInTable) | TerminalSim.Execute (with UnknownReported, AsWrittenAgrees) |
