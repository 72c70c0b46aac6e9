# P4_Quiz command handlers in Dafny

This project models `cmds.js` of the P4_Quiz server. That file holds the interactive commands a connected user runs against a shared collection of quizzes. Each quiz is a question plus its answer. The model covers four parts:

- **`validateId`**: how the `<id>` argument becomes an integer. This follows JavaScript's `parseInt` with no radix: leading white space is skipped, a sign is allowed, `0x` switches to hexadecimal, and trailing text is ignored.
- **The answer check** shared by `test` and `play`. `makeQuestion` trims the typed line. The comparison then lower-cases and trims it again, while the stored answer is only lower-cased.
- **The handlers `list`, `show`, `add`, `delete`, `edit` and `test`.** Each is a chain of promises, modelled as one function from the quiz store and the typed lines to an `Outcome`. An `Outcome` holds the lines written, in order, the number of times `rl.prompt()` hands the prompt back, and the store afterwards.
- **`playCmd`**: one round of questions drawn at random without replacement. It stops at the first wrong answer or when no quiz is left. The round is an imperative loop (`Play.PlayRound`), proved equal to the recursive definition `Play.PlayFrom`, and the round's properties are lemmas about that definition.

Module map:

- `Text`: white space, `trim`, ASCII `toLowerCase`.
- `NumberParsing`: `parseInt`.
- `Validator`: `validateId`.
- `Answers`: `makeQuestion` and the answer comparison.
- `QuizStore`: the quiz table, as the handlers use it.
- `Handlers`: the commands.
- `Play`: `playCmd`.

The comparison trims only the typed line (`cmds.js:258-259`, `cmds.js:306-307`); the stored answer is compared as stored, lower-cased. So a stored answer with white space around it can never be matched (`Answers.PaddedStoredAnswerNeverMatches`). `Answers.IsCorrectVersusTrimBoth` relates the code's rule to the rule that trims both sides.

## Model

| member | source | states |
|---|---|---|
| Text.Trim | cmds.js:109 | what `answer.trim()` yields starts and ends with no white space, and is empty exactly when the line is all white space |
| Text.TrimSplits | cmds.js:109 | `trim` keeps a contiguous infix and removes only white space on either side of it |
| Text.TrimExactly | cmds.js:109 | white space around a trimmed text is exactly what `trim` removes |
| Text.TrimIgnoresPadding | cmds.js:109 | white space added around a line never changes what `trim` returns |
| Text.TrimOfTrimmed | cmds.js:109 | a text with no surrounding white space is unchanged by `trim` |
| Text.TrimIdempotent | cmds.js:258 | trimming twice (in `makeQuestion` and in the comparison) is the same as trimming once |
| Text.TrimStartSkips | cmds.js:59 | the white space `parseInt` skips before the number is skipped entirely |
| Text.LowerKeepsSpaces | cmds.js:258-259 | `toLowerCase` neither creates nor removes white space, so it keeps both emptiness-after-trim and trimmedness |
| Text.LowerIdempotent | cmds.js:258-259 | lower-casing twice is the same as once |
| Text.LowerAppend | cmds.js:258-259 | lower-casing works character by character over a concatenation |
| Text.LowerTrimCommute | cmds.js:258 | `toLowerCase().trim()` equals `trim().toLowerCase()` |
| NumberParsing.Numeral | cmds.js:59 | the numeral written for `n` uses digits of the radix only, denotes `n`, and starts with `0` only for zero |
| NumberParsing.ParseIntSkipsSpace | cmds.js:59 | `parseInt` ignores leading white space |
| NumberParsing.ParseIntUnsigned | cmds.js:59 | without sign or leading white space, `parseInt` reads the magnitude directly |
| NumberParsing.ParseIntMinus | cmds.js:59 | a leading `-` negates whatever magnitude follows, and NaN stays NaN |
| NumberParsing.ParseMagnitudeDecimal | cmds.js:59 | a run of decimal digits not forming a `0x` prefix is read in radix 10 up to the first non-digit |
| NumberParsing.ParseIntDecimal | cmds.js:59 | round trip: `parseInt` of the decimal numeral of any integer, followed by text that does not continue it, gives back that integer |
| NumberParsing.ParseIntNumeral | cmds.js:59 | round trip for non-negative integers |
| NumberParsing.ParseIntNegativeNumeral | cmds.js:59 | round trip for negative integers |
| NumberParsing.ParseNumeralMagnitude | cmds.js:59 | the magnitude read from a decimal numeral is its value |
| NumberParsing.ParseHexPrefix | cmds.js:59 | after `0x` the digits are read in radix 16 |
| NumberParsing.ParseIntHexDigits | cmds.js:59 | `0x`, hexadecimal digits, then a non-digit: the value of those digits |
| NumberParsing.ParseIntHex | cmds.js:59 | round trip for `0x` and the hexadecimal numeral of any natural number |
| NumberParsing.ParseIntBareHexPrefix | cmds.js:59-62 | `0x` with no hexadecimal digit after it is NaN |
| NumberParsing.ParseIntNeedsDigit | cmds.js:59-64 | a number is returned only if the text contains a decimal digit |
| Validator.ValidateId | cmds.js:53-68 | an absent argument, and only that, is "missing"; a success is the integer `parseInt` reads, and the argument holds a digit |
| Validator.ValidateIdRejectsExactlyNaN | cmds.js:59-64 | a present argument is rejected exactly when `parseInt` gives NaN, and then as "not a number" |
| Validator.ValidateIdDecimal | cmds.js:59-64 | the decimal numeral of an id, with any non-continuing text after it, validates to that id |
| Validator.ValidateIdSkipsSpace | cmds.js:59 | leading white space does not change the verdict |
| Validator.ValidateIdNoDigit | cmds.js:59-62 | an argument without a decimal digit is "not a number" |
| Validator.ValidateIdDropsTrailingText | cmds.js:59 | `"12xyz"` validates to 12 |
| Validator.ValidateIdNegative | cmds.js:59-64 | `"-7"` validates to -7 |
| Validator.ValidateIdEmpty | cmds.js:55-62 | an empty argument is present but not a number |
| Validator.ValidateIdHex | cmds.js:59-64 | `"0x1f"` validates to 31 |
| Validator.ValidateIdBareHexPrefix | cmds.js:59-62 | `"0x"` is not a number |
| Answers.Asked | cmds.js:105-112 | `makeQuestion` resolves with a trimmed line, empty exactly when the user typed only white space |
| Answers.IsCorrectMeaning | cmds.js:258-260 | an answer is accepted exactly when the typed line, trimmed and lower-cased, equals the stored answer lower-cased |
| Answers.IsCorrectIgnoresPadding | cmds.js:258-260 | white space typed around the answer never changes the verdict |
| Answers.IsCorrectIgnoresCase | cmds.js:258-260 | the case of the typed letters never changes the verdict |
| Answers.IsCorrectIgnoresStoredCase | cmds.js:259 | the case of the stored answer never changes the verdict |
| Answers.PaddedStoredAnswerNeverMatches | cmds.js:259-260 | a stored answer starting or ending with white space matches nothing |
| Answers.EchoAccepted | cmds.js:258-260 | typing the stored answer back is accepted exactly when it has no surrounding white space |
| Answers.IsCorrectVersusTrimBoth | cmds.js:258-260 | every accepted answer is accepted by the trim-both-sides rule, and the two rules agree on trimmed stored answers |
| QuizStore.Problems | cmds.js:138-141 | validation flags each empty field, and only those |
| QuizStore.FindById | cmds.js:77 | `findById` rejects when the store is down, else finds the row with that id exactly when one exists |
| QuizStore.Least | cmds.js:290 | the least id of a non-empty set belongs to it and is below every other |
| QuizStore.Ascending | cmds.js:290 | the ids in increasing order, each exactly once |
| QuizStore.AscendingCons | cmds.js:290 | the least id in front of the ascending rest is the ascending whole |
| QuizStore.ListingOfAscending | cmds.js:290 | the rows taken in ascending id order list every row once |
| QuizStore.FindAll | cmds.js:290 | `findAll` rejects when the store is down, else lists every row once, in increasing order of id |
| QuizStore.Count | cmds.js:288 | `count` rejects when the store is down |
| QuizStore.CountMatchesFindAll | cmds.js:288-290 | `count` and `findAll` agree on success and on the number of quizzes, the assumption `restantes` rests on |
| QuizStore.Create | cmds.js:133 | `create` rejects when down or when a field is empty (naming the empty fields); otherwise it succeeds, filing the new quiz under the next id and advancing that id |
| QuizStore.Save | cmds.js:199 | `save` rejects like `create`; otherwise it succeeds, changes only the row with the quiz's id, and keeps the ids |
| QuizStore.Destroy | cmds.js:158 | `destroy` resolves with 1 if the row existed, else 0, and removes only that row |
| QuizStore.OperationsKeepValid | cmds.js:133-199 | `create`, `save` of an existing row and `destroy` keep every row under its own id and below the next id |
| QuizStore.CreateThenFind | cmds.js:133 | a created quiz has an id no quiz had, is found under it, and adds one row to `findAll` |
| QuizStore.DestroyIdempotent | cmds.js:158 | destroying twice equals destroying once; the second call removes 0 rows |
| QuizStore.DestroyThenFind | cmds.js:158 | after `destroy` the id is not found and every other lookup is unchanged |
| Handlers.RejectedFieldsReported | cmds.js:138-141 | a field gets a line exactly when validation flagged it |
| Handlers.ListLinesCoverRows | cmds.js:30-36 | the `list` lines name every quiz of the store once and nothing else |
| Handlers.ListCmd | cmds.js:30-43 | `list` writes one line per quiz, in the order `findAll` returns them, naming every quiz once and nothing else, or the error; always one prompt |
| Handlers.ShowCmd | cmds.js:75-90 | `show` writes the quiz exactly when the id names one, else the bad-id, not-found or store error, and always prompts once |
| Handlers.AddCmd | cmds.js:124-148 | `add` creates the quiz exactly when the store is up and neither line is blank, storing both lines trimmed; otherwise the store is unchanged, and on an up store a blank line gives the "quiz is wrong" heading followed by one line per blank field; always one prompt |
| Handlers.DeleteCmd | cmds.js:156-165 | `delete` removes the row with a valid id, silently even if absent; it reports bad ids and store errors; always one prompt |
| Handlers.EditCmd | cmds.js:178-214 | `edit` changes the quiz exactly when the id names one and neither line is blank, keeping its id; it reports a bad id twice, a store failure, a missing quiz with the raw argument, and a blank line as the "quiz is wrong" heading plus one line per blank field; always one prompt |
| Handlers.TestCmd | cmds.js:247-285 | `test` as written: the verdict and the one prompt happen exactly when the id names a quiz; the other paths end without a prompt |
| Handlers.TestCmdFixed | cmds.js:247-285 | `test` with its catch and prompt on the outer chain: always exactly one prompt and one outcome |
| Handlers.AddKeepsValid | cmds.js:124-148 | `add` keeps the store's invariant |
| Handlers.DeleteKeepsValid | cmds.js:156-165 | `delete` keeps the store's invariant |
| Handlers.EditKeepsValid | cmds.js:178-214 | `edit` keeps the store's invariant |
| Handlers.AddThenShow | cmds.js:124-148 | after a successful `add`, `show` with the new id prints the entered question and answer, trimmed |
| Handlers.AddThenTestSameAnswer | cmds.js:247-265 | after a successful `add`, `test` with the new id accepts the very line typed as the answer |
| Handlers.EditThenShow | cmds.js:178-214 | after a successful `edit`, `show` prints the new contents under the same id |
| Handlers.DeleteThenShowAndDeleteAgain | cmds.js:156-165 | after `delete`, `show` finds nothing, and deleting again changes nothing |
| Handlers.DeleteMissingIsSilent | cmds.js:156-165 | deleting an id no quiz has reports nothing and changes no row |
| Handlers.TestCmdFixedAgreesWhenFound | cmds.js:255-266 | the written and corrected `test` agree whenever the quiz exists |
| Handlers.TestCmdWithoutPrompt | cmds.js:247-285 | with no argument, or with `"abc"`, the written `test` never prompts again; the corrected one does |
| Play.Splice | cmds.js:302 | `splice(i, 1)` removes exactly the element at `i` |
| Play.DrawsFitRest | cmds.js:300-303 | after one draw, the remaining draws fit the remaining quizzes |
| Play.PlayFrom | cmds.js:292-322 | a round asks at most the quizzes left, asks at least one before a wrong answer, and never lowers the score |
| Play.AfterNothing | cmds.js:292-322 | the continuation of a round with nothing done yet is the round itself |
| Play.AfterStep | cmds.js:309-311 | one more correct answer moves a quiz and a line from the rest of the round to what was done |
| Play.PlayRound | cmds.js:292-322 | the loop over `quizzes`, `restantes` and `score` produces exactly the round `PlayFrom` defines |
| Play.PlayCmd | cmds.js:286-327 | a store failure ends `play` with no output and no prompt; otherwise one round over all quizzes, then one prompt |
| Play.PlayCmdFixed | cmds.js:286-327 | `play` with a catch on the store calls: a store failure is reported, and every path ends with exactly one prompt |
| Play.PlayAsksEachAtMostOnce | cmds.js:300-303 | no quiz is asked twice or asked if not in the store, and every quiz is asked when the round runs out |
| Play.PlayScoreCounts | cmds.js:309-315 | the score grows by one per correct answer: all quizzes when the round runs out, one fewer than asked after a wrong answer |
| Play.StopsAtFirstWrongStep | cmds.js:308-311 | a correct answer in front keeps the stop-at-first-wrong shape |
| Play.AllAcceptedMeansExhausted | cmds.js:293-297 | a round where every answer was accepted ended by running out of quizzes |
| Play.PlayStopsAtFirstWrong | cmds.js:306-317 | every answer before the last is correct, and the last is wrong exactly when the round did not run out |
| Play.LinesShapeStep | cmds.js:309-311 | a correct answer in front keeps the shape of the lines |
| Play.NothingLeftOnlyWhenExhausted | cmds.js:293-297 | "nothing left" is written exactly when the quizzes ran out |
| Play.PlayLines | cmds.js:292-322 | a round writes one "CORRECTO" with the running score per correct answer, then "nothing left" or "INCORRECTO", then the final score |
| Play.PlayAllCorrect | cmds.js:292-322 | a round where every answer is correct asks each quiz exactly once and scores one per quiz |
| Play.PlayNothing | cmds.js:293-297 | with no quizzes, `play` writes "nothing left" and a score of 0 |

## Left out

- `helpCmd`, `creditsCmd` and `quitCmd` only write fixed text or close the connection. They are not modelled.
- Message texts and colours (`log`, `errorlog`, `colorize`) are not modelled. Reports are abstract values that name the quiz or the error they carry.
- Sockets, `readline` and promise scheduling are not modelled. Each handler's chain runs to completion as one step, and the lines the user types are parameters.
- `Math.random` is not modelled. Draws are a parameter, each a valid index into the quizzes still left.
- `Play.PlayRound` requires a typed line for every quiz. A round left waiting for input, or a connection that closes mid-round, is not modelled.
- `edit` pre-fills the line with `rl.write` on a terminal (`cmds.js:186`, `cmds.js:189`). This only changes what the user sees before typing; the typed lines are parameters.
- The Sequelize model is not part of this model. Validation is taken to reject empty fields. `findAll` is taken to return rows in increasing id order. A store failure is one flag under which every call rejects. `save` on a row deleted in the meantime leaves the rows unchanged.
- Text.Lower: `toLowerCase` is modelled on ASCII letters only; Unicode case mapping is not modelled.
- NumberParsing.ParseInt: the result is an unbounded integer. It does not model rounding to a 53-bit double for very long numerals, or `-0` (which behaves as id 0 in every lookup).
- `respuesta` and `solución` are assigned without a declaration, so they are implicit globals. They are not modelled, since nothing reads them outside one comparison.
- Play.PlayRound: the `quizzes` array spliced in place is modelled as a local `seq` the loop reassigns, since nothing else holds that array.

## Findings

| source | as written | input that shows it | evidently intended | confidence | as-written member | corrected member |
|---|---|---|---|---|---|---|
| cmds.js:247-285 | `testCmd`'s `.catch` handlers and its `.then(() => rl.prompt())` are chained on the inner `makeQuestion(...)` promise (`cmds.js:267-279`), so they run only after a quiz was found | `test` with no argument, or `test abc`: `validateId` rejects, the rejection is never handled, and the prompt is never given back; a missing id or a store failure hangs the same way | every path ends with exactly one prompt, as every other handler does | not executed | Handlers.TestCmd (with Handlers.TestCmdWithoutPrompt) | Handlers.TestCmdFixed |
| cmds.js:286-327 | `playCmd` chains `count()` and `findAll()` (`cmds.js:288-291`) with no `.catch`, and its only `rl.prompt()` calls are inside `playOne` | `play` while the database cannot be reached: the rejection is never handled, nothing is written and the prompt is never given back | a store failure is reported and the command ends with exactly one prompt, as every other handler does | not executed | Play.PlayCmd | Play.PlayCmdFixed |
