/** The command handlers `show`, `list`, `add`, `delete`, `edit` and `test` of
    cmds.js, each a chain of promises run to completion as one sequential step.
    A handler's outcome is what it wrote to the user (its reports, in order),
    how many times it handed the prompt back (`rl.prompt()`), and the quiz
    store afterwards.  The lines the user types in answer to `makeQuestion`
    are parameters. */
module Handlers {
  import opened Wrappers
  import opened Text
  import opened NumberParsing
  import opened Validator
  import opened Answers
  import opened QuizStore

  /** An error line (`errorlog`). */
  datatype Problem =
    | BadId(error: IdError)        // from `validateId`
    | NotFound(raw: string)        // "No existe un quiz asociado al id=<raw>"
    | StoreFailure                 // the message of a rejected store call
    | Rejected                     // "El quiz es erroneo:"
    | FieldRejected(field: Field)  // one line per field that failed validation

  /** One line written to the user. */
  datatype Report =
    | Listed(quiz: Quiz)           // a line of `list`
    | Shown(quiz: Quiz)            // `show`: question => answer
    | Added(quiz: Quiz)            // "Se ha añadido"
    | Changed(quiz: Quiz)          // "Se ha cambiado el quiz"
    | Verdict(correct: bool)       // "Su respuesta es correcta" / "incorrecta"
    | Error(problem: Problem)

  datatype Outcome = Outcome(reports: seq<Report>, prompts: nat, store: Store)

  /** What the catch handlers write for a rejected store call: the message of
      the error, or for a validation error a heading and one line per field. */
  function StoreErrorReports(e: StoreError): (r: seq<Report>)
    ensures e.Unavailable? ==> r == [Error(StoreFailure)]
    ensures e.Invalid? ==>
      |r| == |e.fields| + 1 && r[0] == Error(Rejected)
      && forall i :: 0 <= i < |e.fields| ==> r[i + 1] == Error(FieldRejected(e.fields[i]))
  {
    match e
    case Unavailable => [Error(StoreFailure)]
    case Invalid(fields) => [Error(Rejected)] + seq(|fields|, i requires 0 <= i < |fields| => Error(FieldRejected(fields[i])))
  }

  /** A field is reported as rejected exactly when validation flagged it. */
  lemma RejectedFieldsReported(fields: seq<Field>, f: Field)
    ensures Error(FieldRejected(f)) in StoreErrorReports(Invalid(fields)) <==> f in fields
  {
    var r := StoreErrorReports(Invalid(fields));
    if f in fields {
      var i :| 0 <= i < |fields| && fields[i] == f;
      assert r[i + 1] == Error(FieldRejected(f));
    }
  }

  /** A rejected `validateId` is reported twice: once by `validateId` itself
      and once more by the handler's catch. */
  function BadIdReports(e: IdError): seq<Report>
  {
    [Error(BadId(e)), Error(BadId(e))]
  }

  /** The argument is a valid id and a quiz in `s` has it. */
  predicate Names(s: Store, raw: Option<string>)
  {
    var v := ValidateId(raw);
    v.Success? && s.up && v.value in s.rows
  }

  /** The argument is a valid id but no quiz has it. */
  predicate NamesNothing(s: Store, raw: Option<string>)
  {
    var v := ValidateId(raw);
    v.Success? && s.up && v.value !in s.rows
  }

  /** One `list` line per quiz, in the order `findAll` returned them. */
  function ListLines(all: seq<Quiz>): (lines: seq<Report>)
    ensures |lines| == |all|
    ensures forall i :: 0 <= i < |all| ==> lines[i] == Listed(all[i])
  {
    seq(|all|, i requires 0 <= i < |all| => Listed(all[i]))
  }

  lemma ListLinesCoverRows(all: seq<Quiz>, rows: map<int, Quiz>)
    requires ListsRows(all, rows)
    ensures |ListLines(all)| == |rows|
    ensures forall i :: 0 <= i < |all| ==> ListLines(all)[i].Listed? && ListLines(all)[i].quiz in rows.Values
    ensures forall k :: k in rows ==> Listed(rows[k]) in ListLines(all)
  {
    var lines := ListLines(all);
    forall k | k in rows
      ensures Listed(rows[k]) in lines
    {
      var i :| 0 <= i < |all| && all[i] == rows[k];
      assert lines[i] == Listed(rows[k]);
    }
  }

  /** `listCmd`: one line per quiz, or the error; then the prompt. */
  function ListCmd(s: Store): (r: Outcome)
    ensures r.prompts == 1 && r.store == s
    ensures !s.up ==> r.reports == [Error(StoreFailure)]
    ensures s.up ==> r.reports == ListLines(FindAll(s).value)
    ensures s.up ==>
      |r.reports| == |s.rows|
      && (forall i :: 0 <= i < |r.reports| ==> r.reports[i].Listed? && r.reports[i].quiz in s.rows.Values)
      && (forall k :: k in s.rows ==> Listed(s.rows[k]) in r.reports)
  {
    match FindAll(s)
    case Failure(e) => Outcome(StoreErrorReports(e), 1, s)
    case Success(all) =>
      ListLinesCoverRows(all, s.rows);
      Outcome(ListLines(all), 1, s)
  }

  /** `showCmd`: the quiz with the given id, or why there is none; then the
      prompt. */
  function ShowCmd(s: Store, raw: Option<string>): (r: Outcome)
    ensures r.prompts == 1 && r.store == s && r.reports != []
    ensures r.reports[0].Shown? <==> Names(s, raw)
    ensures Names(s, raw) ==> r.reports == [Shown(s.rows[ValidateId(raw).value])]
    ensures NamesNothing(s, raw) ==> r.reports == [Error(NotFound(raw.value))]
    ensures ValidateId(raw).Failure? ==> r.reports == BadIdReports(ValidateId(raw).error)
    ensures ValidateId(raw).Success? && !s.up ==> r.reports == [Error(StoreFailure)]
  {
    match ValidateId(raw)
    case Failure(e) => Outcome(BadIdReports(e), 1, s)
    case Success(id) =>
      match FindById(s, id)
      case Failure(e) => Outcome(StoreErrorReports(e), 1, s)
      case Success(found) =>
        match found
        case None => Outcome([Error(NotFound(raw.value))], 1, s)
        case Some(q) => Outcome([Shown(q)], 1, s)
  }

  /** `addCmd`: asks for a question and an answer (each trimmed), creates the
      quiz, reports it or why the store refused it; then the prompt. */
  function AddCmd(s: Store, questionLine: string, answerLine: string): (r: Outcome)
    ensures r.prompts == 1 && r.reports != []
    ensures r.reports[0].Added? <==> s.up && !AllSpace(questionLine) && !AllSpace(answerLine)
    ensures r.reports[0].Added? ==>
      var q := Quiz(s.nextId, Trim(questionLine), Trim(answerLine));
      r.reports == [Added(q)] && r.store == s.(rows := s.rows[s.nextId := q], nextId := s.nextId + 1)
    ensures !r.reports[0].Added? ==> r.store == s
    ensures !s.up ==> r.reports == [Error(StoreFailure)]
    ensures s.up && (AllSpace(questionLine) || AllSpace(answerLine)) ==>
      r.reports == StoreErrorReports(Invalid(Problems(Trim(questionLine), Trim(answerLine))))
    ensures s.up && r.reports[0] == Error(Rejected) ==>
      (Error(FieldRejected(Question)) in r.reports <==> AllSpace(questionLine))
      && (Error(FieldRejected(Answer)) in r.reports <==> AllSpace(answerLine))
  {
    var question, answer := Asked(questionLine), Asked(answerLine);
    var (created, s') := Create(s, question, answer);
    match created
    case Failure(e) =>
      if e.Invalid? then
        RejectedFieldsReported(e.fields, Question);
        RejectedFieldsReported(e.fields, Answer);
        Outcome(StoreErrorReports(e), 1, s)
      else Outcome(StoreErrorReports(e), 1, s)
    case Success(q) => Outcome([Added(q)], 1, s')
  }

  /** `deleteCmd`: destroys the row with the given id, whether or not it
      exists, and reports only errors; then the prompt. */
  function DeleteCmd(s: Store, raw: Option<string>): (r: Outcome)
    ensures r.prompts == 1
    ensures ValidateId(raw).Failure? ==> r.reports == BadIdReports(ValidateId(raw).error) && r.store == s
    ensures ValidateId(raw).Success? && !s.up ==> r.reports == [Error(StoreFailure)] && r.store == s
    ensures ValidateId(raw).Success? && s.up ==>
      r.reports == [] && r.store == s.(rows := s.rows - {ValidateId(raw).value})
  {
    match ValidateId(raw)
    case Failure(e) => Outcome(BadIdReports(e), 1, s)
    case Success(id) =>
      var (removed, s') := Destroy(s, id);
      match removed
      case Failure(e) => Outcome(StoreErrorReports(e), 1, s)
      case Success(_) => Outcome([], 1, s')
  }

  /** `editCmd`: finds the quiz, asks for a new question and a new answer
      (each trimmed), saves them and reports the result or the error; then
      the prompt. */
  function EditCmd(s: Store, raw: Option<string>, questionLine: string, answerLine: string): (r: Outcome)
    requires Valid(s)
    ensures r.prompts == 1 && r.reports != []
    ensures r.reports[0].Changed? <==> Names(s, raw) && !AllSpace(questionLine) && !AllSpace(answerLine)
    ensures r.reports[0].Changed? ==>
      var id := ValidateId(raw).value;
      var q := Quiz(id, Trim(questionLine), Trim(answerLine));
      r.reports == [Changed(q)] && r.store == s.(rows := s.rows[id := q])
    ensures !r.reports[0].Changed? ==> r.store == s
    ensures ValidateId(raw).Failure? ==> r.reports == BadIdReports(ValidateId(raw).error)
    ensures ValidateId(raw).Success? && !s.up ==> r.reports == [Error(StoreFailure)]
    ensures NamesNothing(s, raw) ==> r.reports == [Error(NotFound(raw.value))]
    ensures Names(s, raw) && (AllSpace(questionLine) || AllSpace(answerLine)) ==>
      r.reports == StoreErrorReports(Invalid(Problems(Trim(questionLine), Trim(answerLine))))
  {
    match ValidateId(raw)
    case Failure(e) => Outcome(BadIdReports(e), 1, s)
    case Success(id) =>
      match FindById(s, id)
      case Failure(e) => Outcome(StoreErrorReports(e), 1, s)
      case Success(found) =>
        match found
        case None => Outcome([Error(NotFound(raw.value))], 1, s)
        case Some(current) =>
          var edited := current.(question := Asked(questionLine), answer := Asked(answerLine));
          var (saved, s') := Save(s, edited);
          match saved
          case Failure(e) => Outcome(StoreErrorReports(e), 1, s)
          case Success(q) => Outcome([Changed(q)], 1, s')
  }

  /** `testCmd` AS WRITTEN: its catch handlers and its `rl.prompt()` hang off
      the promise of the answer, inside the step that runs once the quiz has
      been found, so a bad id, a missing quiz or a store failure ends the
      command without a prompt (and a store failure without any report). */
  function TestCmd(s: Store, raw: Option<string>, line: string): (r: Outcome)
    ensures r.store == s && r.prompts <= 1
    ensures r.prompts == 1 <==> Names(s, raw)
    ensures Names(s, raw) ==> r.reports == [Verdict(IsCorrect(line, s.rows[ValidateId(raw).value].answer))]
    ensures ValidateId(raw).Failure? ==> r.reports == [Error(BadId(ValidateId(raw).error))]
    ensures NamesNothing(s, raw) ==> r.reports == [Error(NotFound(raw.value))]
    ensures ValidateId(raw).Success? && !s.up ==> r.reports == []
  {
    match ValidateId(raw)
    case Failure(e) => Outcome([Error(BadId(e))], 0, s)
    case Success(id) =>
      match FindById(s, id)
      case Failure(_) => Outcome([], 0, s)
      case Success(found) =>
        match found
        case None => Outcome([Error(NotFound(raw.value))], 0, s)
        case Some(q) => Outcome([Verdict(IsCorrect(line, q.answer))], 1, s)
  }

  /** `testCmd` with its catch handlers and prompt on the outer chain, as in
      every other handler: every path ends with exactly one prompt. */
  function TestCmdFixed(s: Store, raw: Option<string>, line: string): (r: Outcome)
    ensures r.store == s && r.prompts == 1 && r.reports != []
    ensures r.reports[0].Verdict? <==> Names(s, raw)
    ensures Names(s, raw) ==> r.reports == [Verdict(IsCorrect(line, s.rows[ValidateId(raw).value].answer))]
    ensures ValidateId(raw).Failure? ==> r.reports == BadIdReports(ValidateId(raw).error)
    ensures NamesNothing(s, raw) ==> r.reports == [Error(NotFound(raw.value)), Error(NotFound(raw.value))]
    ensures ValidateId(raw).Success? && !s.up ==> r.reports == [Error(StoreFailure)]
  {
    match ValidateId(raw)
    case Failure(e) => Outcome(BadIdReports(e), 1, s)
    case Success(id) =>
      match FindById(s, id)
      case Failure(e) => Outcome(StoreErrorReports(e), 1, s)
      case Success(found) =>
        match found
        case None => Outcome([Error(NotFound(raw.value)), Error(NotFound(raw.value))], 1, s)
        case Some(q) => Outcome([Verdict(IsCorrect(line, q.answer))], 1, s)
  }

  /** `add` keeps the store's invariant. */
  lemma AddKeepsValid(s: Store, questionLine: string, answerLine: string)
    requires Valid(s)
    ensures Valid(AddCmd(s, questionLine, answerLine).store)
  {
  }

  /** `delete` keeps the store's invariant. */
  lemma DeleteKeepsValid(s: Store, raw: Option<string>)
    requires Valid(s)
    ensures Valid(DeleteCmd(s, raw).store)
  {
  }

  /** `edit` keeps the store's invariant. */
  lemma EditKeepsValid(s: Store, raw: Option<string>, questionLine: string, answerLine: string)
    requires Valid(s)
    ensures Valid(EditCmd(s, raw, questionLine, answerLine).store)
  {
  }

  /** After a successful `add`, `show` with the new id prints the quiz as
      typed, without the white space around either line. */
  lemma AddThenShow(s: Store, questionLine: string, answerLine: string)
    requires Valid(s)
    requires AddCmd(s, questionLine, answerLine).reports[0].Added?
    ensures ShowCmd(AddCmd(s, questionLine, answerLine).store, Some(ToDecimal(s.nextId))).reports
      == [Shown(Quiz(s.nextId, Trim(questionLine), Trim(answerLine)))]
  {
    ValidateIdDecimal(s.nextId, []);
    assert ToDecimal(s.nextId) + [] == ToDecimal(s.nextId);
  }

  /** After a successful `add`, `test` with the new id accepts the very line
      that was typed as the answer, since `add` stored it trimmed. */
  lemma AddThenTestSameAnswer(s: Store, questionLine: string, answerLine: string)
    requires Valid(s)
    requires AddCmd(s, questionLine, answerLine).reports[0].Added?
    ensures var r := TestCmd(AddCmd(s, questionLine, answerLine).store, Some(ToDecimal(s.nextId)), answerLine);
      r.reports == [Verdict(true)] && r.prompts == 1
  {
    ValidateIdDecimal(s.nextId, []);
    assert ToDecimal(s.nextId) + [] == ToDecimal(s.nextId);
    IsCorrectMeaning(answerLine, Trim(answerLine));
    TrimIdempotent(answerLine);
  }

  /** After a successful `edit`, `show` with the same argument prints the new
      contents under the same id. */
  lemma EditThenShow(s: Store, raw: Option<string>, questionLine: string, answerLine: string)
    requires Valid(s)
    requires EditCmd(s, raw, questionLine, answerLine).reports[0].Changed?
    ensures ShowCmd(EditCmd(s, raw, questionLine, answerLine).store, raw).reports
      == [Shown(Quiz(ValidateId(raw).value, Trim(questionLine), Trim(answerLine)))]
  {
  }

  /** After `delete` with a valid id, `show` with the same argument finds
      nothing; deleting again changes nothing and reports nothing. */
  lemma DeleteThenShowAndDeleteAgain(s: Store, raw: Option<string>)
    requires ValidateId(raw).Success? && s.up
    ensures var s' := DeleteCmd(s, raw).store;
      ShowCmd(s', raw).reports == [Error(NotFound(raw.value))]
      && DeleteCmd(s', raw) == DeleteCmd(s, raw)
  {
  }

  /** `delete` does not check that the quiz exists: with an id no quiz has,
      it succeeds silently and leaves the rows as they were. */
  lemma DeleteMissingIsSilent(s: Store, raw: Option<string>)
    requires NamesNothing(s, raw)
    ensures DeleteCmd(s, raw).reports == [] && DeleteCmd(s, raw).store.rows == s.rows
  {
  }

  /** Where the quiz is found, the written `testCmd` and the corrected one
      behave the same; they differ only on the error paths. */
  lemma TestCmdFixedAgreesWhenFound(s: Store, raw: Option<string>, line: string)
    requires Names(s, raw)
    ensures TestCmdFixed(s, raw, line) == TestCmd(s, raw, line)
  {
  }

  /** Two concrete inputs on which the written `testCmd` never hands the
      prompt back: no argument at all, and an argument that is not a number. */
  lemma TestCmdWithoutPrompt(s: Store, line: string)
    ensures TestCmd(s, None, line).prompts == 0
    ensures TestCmd(s, Some("abc"), line).prompts == 0
    ensures TestCmdFixed(s, None, line).prompts == 1
  {
    ValidateIdNoDigit("abc");
  }
}
