/** The quiz table behind `models.quiz`, as the command handlers see it: rows
    keyed by id, ids handed out in increasing order by `create`, the two
    fields checked to be non-empty on `create` and `save`, and a flag for
    a database that cannot be reached, in which case every call rejects. */
module QuizStore {
  import opened Wrappers

  datatype Quiz = Quiz(id: int, question: string, answer: string)

  /** A field that failed validation. */
  datatype Field = Question | Answer

  /** Why a store call rejects: the database is unreachable, or the record
      failed validation (a `Sequelize.ValidationError`, one entry per field). */
  datatype StoreError = Unavailable | Invalid(fields: seq<Field>)

  datatype Store = Store(rows: map<int, Quiz>, nextId: int, up: bool)

  /** Every row is filed under its own id, and every id is below the next one
      to be handed out. */
  ghost predicate Valid(s: Store)
  {
    forall k :: k in s.rows ==> s.rows[k].id == k && k < s.nextId
  }

  /** The fields of a record that validation rejects: the empty ones. */
  function Problems(question: string, answer: string): (fields: seq<Field>)
    ensures Question in fields <==> question == []
    ensures Answer in fields <==> answer == []
    ensures fields == [] <==> question != [] && answer != []
  {
    (if question == [] then [Question] else []) + (if answer == [] then [Answer] else [])
  }

  /** `models.quiz.findById(id)`: the row, or nothing when no row has that id. */
  function FindById(s: Store, id: int): (r: Result<Option<Quiz>, StoreError>)
    ensures r.Failure? <==> !s.up
    ensures r.Failure? ==> r.error == Unavailable
    ensures r.Success? ==> (r.value.Some? <==> id in s.rows)
    ensures r.Success? && r.value.Some? ==> r.value.value == s.rows[id]
  {
    if !s.up then Failure(Unavailable)
    else if id in s.rows then Success(Some(s.rows[id]))
    else Success(None)
  }

  /** Some element of a non-empty set. */
  lemma Element<T>(ks: set<T>) returns (x: T)
    requires ks != {}
    ensures x in ks
  {
    x :| x in ks;
  }

  lemma {:induction false} LeastExists(ks: set<int>)
    requires ks != {}
    ensures exists m :: m in ks && forall k :: k in ks ==> m <= k
    decreases |ks|
  {
    var x := Element(ks);
    var rest := ks - {x};
    if rest == {} {
      assert ks == {x};
    } else {
      LeastExists(rest);
      var m :| m in rest && forall k :: k in rest ==> m <= k;
      var least := if x < m then x else m;
      forall k | k in ks
        ensures least <= k
      {
        if k != x { assert k in rest; }
      }
    }
  }

  /** The least element of a non-empty set of ids. */
  function Least(ks: set<int>): (m: int)
    requires ks != {}
    ensures m in ks && forall k :: k in ks ==> m <= k
  {
    LeastExists(ks);
    var m :| m in ks && forall k :: k in ks ==> m <= k;
    m
  }

  /** `r` lists every element of `ks` exactly once, in increasing order. */
  ghost predicate IsAscendingOf(r: seq<int>, ks: set<int>)
  {
    |r| == |ks|
    && (forall i :: 0 <= i < |r| ==> r[i] in ks)
    && (forall k :: k in ks ==> k in r)
    && (forall i, j :: 0 <= i < j < |r| ==> r[i] < r[j])
  }

  /** The ids of `ks` in increasing order. */
  function Ascending(ks: set<int>): (r: seq<int>)
    ensures IsAscendingOf(r, ks)
    decreases |ks|
  {
    if ks == {} then []
    else
      var m := Least(ks);
      var tail := Ascending(ks - {m});
      AscendingCons(ks, m, tail);
      [m] + tail
  }

  lemma AscendingCons(ks: set<int>, m: int, tail: seq<int>)
    requires m in ks && forall k :: k in ks ==> m <= k
    requires IsAscendingOf(tail, ks - {m})
    ensures IsAscendingOf([m] + tail, ks)
  {
    var r := [m] + tail;
    var rest := ks - {m};
    assert forall i :: 1 <= i < |r| ==> r[i] == tail[i - 1];
    forall k | k in ks
      ensures k in r
    {
      if k != m { assert k in rest; }
    }
    forall i, j | 0 <= i < j < |r|
      ensures r[i] < r[j]
    {
      assert r[j] == tail[j - 1];
      if i > 0 { assert r[i] == tail[i - 1]; }
    }
  }

  /** `models.quiz.findAll()`: every row, once each, in increasing order of id. */
  function FindAll(s: Store): (r: Result<seq<Quiz>, StoreError>)
    ensures r.Failure? <==> !s.up
    ensures r.Failure? ==> r.error == Unavailable
    ensures r.Success? ==> ListsRows(r.value, s.rows)
  {
    if !s.up then Failure(Unavailable)
    else
      var ids := Ascending(s.rows.Keys);
      var all := seq(|ids|, i requires 0 <= i < |ids| => s.rows[ids[i]]);
      ListingOfAscending(s.rows, ids, all);
      Success(all)
  }

  /** `all` holds the rows of `rows`, one per id, in increasing order of id. */
  ghost predicate ListsRows(all: seq<Quiz>, rows: map<int, Quiz>)
  {
    |all| == |rows|
    && (forall i :: 0 <= i < |all| ==> all[i] in rows.Values)
    && (forall k :: k in rows ==> rows[k] in all)
    && ((forall k :: k in rows ==> rows[k].id == k) ==>
          forall i, j :: 0 <= i < j < |all| ==> all[i].id < all[j].id)
  }

  lemma ListingOfAscending(rows: map<int, Quiz>, ids: seq<int>, all: seq<Quiz>)
    requires IsAscendingOf(ids, rows.Keys)
    requires |all| == |ids| && forall i :: 0 <= i < |ids| ==> all[i] == rows[ids[i]]
    ensures ListsRows(all, rows)
  {
    assert |rows.Keys| == |rows|;
    forall k | k in rows
      ensures rows[k] in all
    {
      var i :| 0 <= i < |ids| && ids[i] == k;
      assert all[i] == rows[k];
    }
  }

  /** `models.quiz.count()`. */
  function Count(s: Store): (r: Result<nat, StoreError>)
    ensures r.Failure? <==> !s.up
    ensures r.Failure? ==> r.error == Unavailable
  {
    if !s.up then Failure(Unavailable) else Success(|s.rows|)
  }

  /** `count()` and `findAll()` on the same store agree on how many quizzes
      there are, which is what `play` relies on. */
  lemma CountMatchesFindAll(s: Store)
    ensures Count(s).Success? <==> FindAll(s).Success?
    ensures Count(s).Success? ==> Count(s).value == |FindAll(s).value|
  {
  }

  /** `models.quiz.create({question, answer})`: a new row under the next id. */
  function Create(s: Store, question: string, answer: string): (r: (Result<Quiz, StoreError>, Store))
    ensures !s.up ==> r == (Failure(Unavailable), s)
    ensures s.up && Problems(question, answer) != [] ==> r == (Failure(Invalid(Problems(question, answer))), s)
    ensures s.up && Problems(question, answer) == [] ==> r.0.Success?
    ensures r.0.Success? ==>
      question != [] && answer != []
      && r.0.value == Quiz(s.nextId, question, answer)
      && r.1 == Store(s.rows[s.nextId := r.0.value], s.nextId + 1, s.up)
  {
    if !s.up then (Failure(Unavailable), s)
    else if Problems(question, answer) != [] then (Failure(Invalid(Problems(question, answer))), s)
    else
      var q := Quiz(s.nextId, question, answer);
      (Success(q), s.(rows := s.rows[s.nextId := q], nextId := s.nextId + 1))
  }

  /** `quiz.save()` on an edited row: validated like `create`, then the row
      with that id, if it still exists, takes the new contents. */
  function Save(s: Store, quiz: Quiz): (r: (Result<Quiz, StoreError>, Store))
    ensures !s.up ==> r == (Failure(Unavailable), s)
    ensures s.up && Problems(quiz.question, quiz.answer) != [] ==>
      r == (Failure(Invalid(Problems(quiz.question, quiz.answer))), s)
    ensures s.up && Problems(quiz.question, quiz.answer) == [] ==> r.0.Success?
    ensures r.0.Success? ==> r.0.value == quiz && quiz.question != [] && quiz.answer != []
    ensures r.1.nextId == s.nextId && r.1.up == s.up && r.1.rows.Keys == s.rows.Keys
    ensures forall k :: k in s.rows && k != quiz.id ==> r.1.rows[k] == s.rows[k]
    ensures r.0.Success? && quiz.id in s.rows ==> r.1.rows[quiz.id] == quiz
  {
    if !s.up then (Failure(Unavailable), s)
    else if Problems(quiz.question, quiz.answer) != [] then (Failure(Invalid(Problems(quiz.question, quiz.answer))), s)
    else if quiz.id in s.rows then (Success(quiz), s.(rows := s.rows[quiz.id := quiz]))
    else (Success(quiz), s)
  }

  /** `models.quiz.destroy({where: {id}})`: removes the row with that id, if
      any, and resolves with the number of rows removed. */
  function Destroy(s: Store, id: int): (r: (Result<nat, StoreError>, Store))
    ensures !s.up ==> r == (Failure(Unavailable), s)
    ensures s.up ==> r.0.Success? && (r.0.value == 1 <==> id in s.rows) && (r.0.value == 0 <==> id !in s.rows)
    ensures s.up ==> r.1.rows == s.rows - {id} && r.1.nextId == s.nextId && r.1.up
  {
    if !s.up then (Failure(Unavailable), s)
    else (Success(if id in s.rows then 1 else 0), s.(rows := s.rows - {id}))
  }

  /** Every operation that changes the store keeps it valid. */
  lemma OperationsKeepValid(s: Store, question: string, answer: string, quiz: Quiz, id: int)
    requires Valid(s)
    ensures Valid(Create(s, question, answer).1)
    ensures quiz.id in s.rows ==> Valid(Save(s, quiz).1)
    ensures Valid(Destroy(s, id).1)
  {
  }

  /** A created quiz gets an id no existing quiz has, and can be found under it. */
  lemma CreateThenFind(s: Store, question: string, answer: string)
    requires Valid(s)
    requires Create(s, question, answer).0.Success?
    ensures var (r, s') := Create(s, question, answer);
      r.value.id !in s.rows && FindById(s', r.value.id) == Success(Some(r.value))
      && |FindAll(s').value| == |FindAll(s).value| + 1
  {
  }

  /** Destroying twice is the same as destroying once; the second call
      removes nothing. */
  lemma DestroyIdempotent(s: Store, id: int)
    ensures var s1 := Destroy(s, id).1;
      Destroy(s1, id).1 == s1 && (s.up ==> Destroy(s1, id).0 == Success(0))
  {
  }

  /** After `destroy` no row has that id; every other row is untouched. */
  lemma DestroyThenFind(s: Store, id: int, other: int)
    requires s.up
    requires other != id
    ensures FindById(Destroy(s, id).1, id) == Success(None)
    ensures FindById(Destroy(s, id).1, other) == FindById(s, other)
  {
  }
}
