/**
 * Importing a batch of quiz questions (`QuestionController::store`). The whole
 * batch is validated first; then one question is created per entry, in
 * order, with the options column null exactly for true-false questions.
 */
module QuestionController {
  import opened Wrappers
  import opened Seqs
  import opened Tables
  import opened ValidationRules
  import opened Schema

  const TrueFalse := "true-false"

  /** `in:multiple-choice,true-false,checkboxes`. */
  const QuestionTypes: set<string> := {"multiple-choice", TrueFalse, "checkboxes"}

  /** The `options` key of an entry: absent, JSON null, or a list of nullable strings. */
  datatype OptionsInput = Missing | Null | Given(items: seq<Option<string>>)

  datatype QuestionEntry = QuestionEntry(qtype: string, question: string, options: OptionsInput, answerKey: string)

  /**
   * `questions.*.options.*`: `nullable|string|max:255`. None of these rules
   * is implicit, so Laravel skips them all for a null or blank option; only
   * an option with visible text must fit in 255 characters.
   */
  predicate ValidOption(o: Option<string>) {
    o.Some? && Required(o.value) ==> |o.value| <= MaxStringLength
  }

  /** The rules on one entry: a known type, a short question, well-formed options if any, an answer key. */
  predicate ValidEntry(e: QuestionEntry) {
    && e.qtype in QuestionTypes
    && ShortText(e.question)
    && (e.options.Given? ==> forall i :: 0 <= i < |e.options.items| ==> ValidOption(e.options.items[i]))
    && Required(e.answerKey)
  }

  /** `questions`: `required|array|min:1`, and every entry obeys the entry rules. */
  predicate ValidBatch(batch: seq<QuestionEntry>) {
    |batch| >= 1 && forall i :: 0 <= i < |batch| ==> ValidEntry(batch[i])
  }

  /**
   * Building the row reads `$questionData['options']` unless the type is
   * true-false; `nullable|array` lets the key be absent, and reading an
   * absent key raises an error (500).
   */
  predicate ReadsMissingOptions(e: QuestionEntry) {
    e.qtype != TrueFalse && e.options.Missing?
  }

  /**
   * Whether `Question::create` fails on an entry. Reading an absent
   * `options` key raises an error. `answer_key` is a `string` column, at
   * most 255 characters, while its rule (`required|string`) sets no length:
   * when `bounded` (a database that refuses over-long values, as MySQL in
   * strict mode does) a longer answer key makes the insert fail as well.
   */
  predicate FailsToInsert(e: QuestionEntry, bounded: bool) {
    ReadsMissingOptions(e) || (bounded && |e.answerKey| > MaxStringLength)
  }

  /** `FailsToInsert` as a predicate on entries, for the first-match search. */
  function Fails(bounded: bool): QuestionEntry -> bool {
    e => FailsToInsert(e, bounded)
  }

  /** The row `Question::create` writes for an entry whose options could be read. */
  function ToQuestion(e: QuestionEntry): (q: Question)
    requires !ReadsMissingOptions(e)
    ensures q.qtype == e.qtype && q.question == e.question && q.answerKey == e.answerKey
    ensures q.options.None? <==> e.qtype == TrueFalse
    ensures e.qtype != TrueFalse ==> q.options == Some(if e.options.Null? then JsonNull else JsonList(e.options.items))
  {
    var options := if e.qtype != TrueFalse then Some(Encode(e.options)) else None;
    Question(e.qtype, e.question, options, e.answerKey)
  }

  /** `json_encode` of a present options value. */
  function Encode(o: OptionsInput): OptionsJson
    requires !o.Missing?
  {
    match o
    case Null => JsonNull
    case Given(items) => JsonList(items)
  }

  /** The rows created for entries none of which fails. */
  function ToQuestions(es: seq<QuestionEntry>): (qs: seq<Question>)
    requires forall i :: 0 <= i < |es| ==> !ReadsMissingOptions(es[i])
    ensures |qs| == |es|
    ensures forall i :: 0 <= i < |es| ==> qs[i] == ToQuestion(es[i])
  {
    seq(|es|, i requires 0 <= i < |es| => ToQuestion(es[i]))
  }

  /** The first entry on which the insert loop fails, if any. */
  function FailingEntry(batch: seq<QuestionEntry>, bounded: bool): Option<nat> {
    FirstIndex(batch, Fails(bounded))
  }

  /**
   * The `foreach` over a validated batch, entry by entry: the table
   * afterwards and whether the loop reached the end. Rows created before a
   * failure stay, since nothing wraps the loop in a transaction.
   */
  function RunInserts(t: Table<Question>, batch: seq<QuestionEntry>, bounded: bool): (Table<Question>, bool) {
    if |batch| == 0 then (t, true)
    else
      var (t', finished) := RunInserts(t, batch[..|batch| - 1], bounded);
      var e := batch[|batch| - 1];
      if !finished || FailsToInsert(e, bounded) then (t', false)
      else (Insert(t', ToQuestion(e)), true)
  }

  /** `store`: the response and the questions table afterwards. */
  function Import(t: Table<Question>, batch: seq<QuestionEntry>, bounded: bool): (Outcome, Table<Question>) {
    if !ValidBatch(batch) then (Invalid, t)
    else
      var (t', finished) := RunInserts(t, batch, bounded);
      (if finished then Created else ServerError, t')
  }

  /** The loop creates the rows of the entries before the first failing one, in order, and nothing else. */
  lemma {:induction false} RunInsertsSpec(t: Table<Question>, batch: seq<QuestionEntry>, bounded: bool)
    ensures
      var n := match FailingEntry(batch, bounded) case Some(k) => k case None => |batch|;
      RunInserts(t, batch, bounded) == (InsertAll(t, ToQuestions(batch[..n])), FailingEntry(batch, bounded).None?)
  {
    if |batch| == 0 {
      assert InsertAll(t, []) == t;
    } else {
      var prefix, e := batch[..|batch| - 1], batch[|batch| - 1];
      assert batch == prefix + [e];
      RunInsertsSpec(t, prefix, bounded);
      FirstIndexSnoc(prefix, e, Fails(bounded));
      match FailingEntry(prefix, bounded)
      case Some(k) =>
        assert batch[..k] == prefix[..k];
      case None =>
        assert prefix[..|prefix|] == prefix;
        if !FailsToInsert(e, bounded) {
          assert batch[..|batch|] == batch;
          assert ToQuestions(batch) == ToQuestions(prefix) + [ToQuestion(e)];
          InsertAllSnoc(t, ToQuestions(prefix), ToQuestion(e));
        }
    }
  }

  /** Once the loop has failed, the later entries change nothing. */
  lemma {:induction false} RunInsertsHalts(t: Table<Question>, batch: seq<QuestionEntry>, bounded: bool, n: nat)
    requires n <= |batch|
    requires !RunInserts(t, batch[..n], bounded).1
    ensures RunInserts(t, batch, bounded) == RunInserts(t, batch[..n], bounded)
    decreases |batch|
  {
    if n == |batch| {
      assert batch[..n] == batch;
    } else {
      var prefix := batch[..|batch| - 1];
      assert prefix[..n] == batch[..n];
      RunInsertsHalts(t, prefix, bounded, n);
    }
  }

  /**
   * The importer's promise: an invalid batch writes nothing; a valid one
   * creates one row per entry, in order, and answers 201, unless an entry
   * fails to insert, in which case the rows of the entries before it remain
   * and the request fails.
   */
  lemma ImportOutcomes(t: Table<Question>, batch: seq<QuestionEntry>, bounded: bool)
    ensures !ValidBatch(batch) ==> Import(t, batch, bounded) == (Invalid, t)
    ensures ValidBatch(batch) && FailingEntry(batch, bounded).None? ==>
      Import(t, batch, bounded) == (Created, InsertAll(t, ToQuestions(batch)))
    ensures ValidBatch(batch) && FailingEntry(batch, bounded).Some? ==>
      Import(t, batch, bounded) == (ServerError, InsertAll(t, ToQuestions(batch[..FailingEntry(batch, bounded).value])))
  {
    RunInsertsSpec(t, batch, bounded);
    assert batch[..|batch|] == batch;
  }

  /**
   * A batch that imports completely grows the table by exactly its length:
   * the old rows stay first, then entry `k` becomes the row keyed
   * `nextId + k`, with its question and answer key verbatim and options null
   * exactly when it is a true-false question.
   */
  lemma ImportAppendsInOrder(t: Table<Question>, batch: seq<QuestionEntry>, bounded: bool)
    requires WellKeyed(t)
    requires Import(t, batch, bounded).0 == Created
    ensures var t' := Import(t, batch, bounded).1;
      && WellKeyed(t')
      && |t'.rows| == |t.rows| + |batch|
      && t'.rows[..|t.rows|] == t.rows
      && forall k :: 0 <= k < |batch| ==>
           && t'.rows[|t.rows| + k].id == t.nextId + k
           && t'.rows[|t.rows| + k].val.question == batch[k].question
           && t'.rows[|t.rows| + k].val.answerKey == batch[k].answerKey
           && (t'.rows[|t.rows| + k].val.options.None? <==> batch[k].qtype == TrueFalse)
  {
    ImportOutcomes(t, batch, bounded);
    InsertAllSpec(t, ToQuestions(batch));
  }

  /** `store`: validate the whole batch, then create the questions one entry at a time. */
  method Store(db: Database, batch: seq<QuestionEntry>, bounded: bool) returns (outcome: Outcome)
    requires db.Valid()
    modifies db`questions
    ensures db.Valid()
    ensures (outcome, db.questions) == Import(old(db.questions), batch, bounded)
  {
    if !ValidBatch(batch) {
      return Invalid;
    }
    var i := 0;
    while i < |batch|
      invariant 0 <= i <= |batch|
      invariant db.Valid()
      invariant RunInserts(old(db.questions), batch[..i], bounded) == (db.questions, true)
    {
      var entry := batch[i];
      assert batch[..i + 1][..i] == batch[..i];
      if FailsToInsert(entry, bounded) {
        RunInsertsHalts(old(db.questions), batch, bounded, i + 1);
        return ServerError;
      }
      InsertSpec(db.questions, ToQuestion(entry));
      db.questions := Insert(db.questions, ToQuestion(entry));
      i := i + 1;
    }
    assert batch[..i] == batch;
    outcome := Created;
  }

  /**
   * As written, a multiple-choice entry without an `options` key passes
   * validation, and the import then fails on it after creating the rows of
   * the entries before it, whatever the database.
   */
  lemma MissingOptionsImportsPartially(bounded: bool)
    ensures
      var t: Table<Question> := Table([], 1);
      var first := QuestionEntry(TrueFalse, "Water is wet.", Missing, "true");
      var second := QuestionEntry("multiple-choice", "Pick one.", Missing, "A");
      && ValidBatch([first, second])
      && Import(t, [first, second], bounded) == (ServerError, Insert(t, ToQuestion(first)))
  {
    var t: Table<Question> := Table([], 1);
    var first := QuestionEntry(TrueFalse, "Water is wet.", Missing, "true");
    var second := QuestionEntry("multiple-choice", "Pick one.", Missing, "A");
    assert ShortText(first.question) by { assert !IsTrimmed(first.question[0]); }
    assert Required(first.answerKey) by { assert !IsTrimmed(first.answerKey[0]); }
    assert ShortText(second.question) by { assert !IsTrimmed(second.question[0]); }
    assert Required(second.answerKey) by { assert !IsTrimmed(second.answerKey[0]); }
    assert TrueFalse != "multiple-choice" by { assert TrueFalse[0] != "multiple-choice"[0]; }
    assert ValidEntry(first) && ValidEntry(second);
    assert ValidBatch([first, second]);
    assert [first, second][..1] == [first];
    assert [first][..0] == [];
    assert !FailsToInsert(first, bounded);
    assert RunInserts(t, [first], bounded) == (Insert(t, ToQuestion(first)), true);
    assert FailsToInsert(second, bounded);
    assert RunInserts(t, [first, second], bounded) == (Insert(t, ToQuestion(first)), false);
  }

  /**
   * As written, an answer key of 300 characters passes validation; a
   * database that enforces the 255-character `answer_key` column refuses it,
   * after the rows of the entries before it were created, while one that
   * stores any length imports the whole batch.
   */
  lemma LongAnswerKeyImportsPartially()
    ensures
      var t: Table<Question> := Table([], 1);
      var first := QuestionEntry(TrueFalse, "Water is wet.", Missing, "true");
      var second := QuestionEntry(TrueFalse, "Ice is cold.", Missing, seq(300, _ => 'A'));
      && ValidBatch([first, second])
      && Import(t, [first, second], true) == (ServerError, Insert(t, ToQuestion(first)))
      && Import(t, [first, second], false) == (Created, Insert(Insert(t, ToQuestion(first)), ToQuestion(second)))
  {
    var t: Table<Question> := Table([], 1);
    var first := QuestionEntry(TrueFalse, "Water is wet.", Missing, "true");
    var second := QuestionEntry(TrueFalse, "Ice is cold.", Missing, seq(300, _ => 'A'));
    assert ShortText(first.question) by { assert !IsTrimmed(first.question[0]); }
    assert Required(first.answerKey) by { assert !IsTrimmed(first.answerKey[0]); }
    assert ShortText(second.question) by { assert !IsTrimmed(second.question[0]); }
    assert Required(second.answerKey) by { assert !IsTrimmed(second.answerKey[0]); }
    assert ValidEntry(first) && ValidEntry(second);
    assert ValidBatch([first, second]);
    assert [first, second][..1] == [first];
    assert [first][..0] == [];
    assert !FailsToInsert(first, true) && !FailsToInsert(first, false);
    assert RunInserts(t, [first], true) == (Insert(t, ToQuestion(first)), true);
    assert RunInserts(t, [first], false) == (Insert(t, ToQuestion(first)), true);
    assert FailsToInsert(second, true) && !FailsToInsert(second, false);
    assert RunInserts(t, [first, second], true) == (Insert(t, ToQuestion(first)), false);
    assert RunInserts(t, [first, second], false) == (Insert(Insert(t, ToQuestion(first)), ToQuestion(second)), true);
  }

  /**
   * An option of 300 spaces is blank, so `string` and `max:255` are skipped
   * for it: the entry passes validation and its question is created.
   */
  lemma BlankOptionSkipsRules(bounded: bool)
    ensures
      var t: Table<Question> := Table([], 1);
      var blank: string := seq(300, _ => ' ');
      var e := QuestionEntry("multiple-choice", "Pick one.", Given([Some(blank)]), "A");
      && |blank| > MaxStringLength
      && ValidBatch([e])
      && Import(t, [e], bounded) == (Created, Insert(t, ToQuestion(e)))
  {
    var t: Table<Question> := Table([], 1);
    var blank: string := seq(300, _ => ' ');
    var e := QuestionEntry("multiple-choice", "Pick one.", Given([Some(blank)]), "A");
    assert !Required(blank) by {
      forall i | 0 <= i < |blank| ensures IsTrimmed(blank[i]) {
        assert blank[i] == ' ';
      }
    }
    assert ValidOption(e.options.items[0]);
    assert ShortText(e.question) by { assert !IsTrimmed(e.question[0]); }
    assert Required(e.answerKey) by { assert !IsTrimmed(e.answerKey[0]); }
    assert ValidEntry(e);
    assert ValidBatch([e]);
    assert [e][..0] == [];
    assert !FailsToInsert(e, bounded);
    assert RunInserts(t, [e], bounded) == (Insert(t, ToQuestion(e)), true);
  }

  /**
   * The entry rules as evidently intended: a question that is not true-false
   * must come with its options, and the answer key must fit its column.
   */
  predicate ValidEntryStrict(e: QuestionEntry) {
    && ValidEntry(e)
    && (e.qtype != TrueFalse ==> e.options.Given?)
    && |e.answerKey| <= MaxStringLength
  }

  predicate ValidBatchStrict(batch: seq<QuestionEntry>) {
    |batch| >= 1 && forall i :: 0 <= i < |batch| ==> ValidEntryStrict(batch[i])
  }

  /** `store` with the stricter rules and the same insert loop. */
  function ImportStrict(t: Table<Question>, batch: seq<QuestionEntry>, bounded: bool): (Outcome, Table<Question>) {
    if !ValidBatchStrict(batch) then (Invalid, t)
    else
      var (t', finished) := RunInserts(t, batch, bounded);
      (if finished then Created else ServerError, t')
  }

  /**
   * With the stricter rules the import is all or nothing, on any database:
   * no row, or one row per entry in order.
   */
  lemma StrictImportAllOrNothing(t: Table<Question>, batch: seq<QuestionEntry>, bounded: bool)
    ensures !ValidBatchStrict(batch) ==> ImportStrict(t, batch, bounded) == (Invalid, t)
    ensures ValidBatchStrict(batch) ==> ImportStrict(t, batch, bounded) == (Created, InsertAll(t, ToQuestions(batch)))
  {
    if ValidBatchStrict(batch) {
      assert forall i :: 0 <= i < |batch| ==> !FailsToInsert(batch[i], bounded);
      RunInsertsSpec(t, batch, bounded);
      assert batch[..|batch|] == batch;
    }
  }
}
