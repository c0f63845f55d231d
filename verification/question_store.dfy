/** What the SQL queries of `/quiz` return from a `latin_roots` table, and what that means
    for the page: when the top-up loop runs, and what happens then. As written, the top-up
    query is one PostgreSQL refuses, so any round of the loop ends in the route's catch. */
module QuestionStore {
  import opened Seqs
  import opened Wrappers
  import opened Quiz

  /** One row of `latin_roots`. */
  datatype Row = Row(root: string, definition: string)

  /** The distinct definitions in the table. */
  function Definitions(table: seq<Row>): set<string> {
    set r | r in table :: r.definition
  }

  /** The first query: the row at a random offset, and `LIMIT 3` distinct definitions other
      than its own drawn at random (SQL returns as many as exist, up to the limit). */
  ghost predicate ExactSample(table: seq<Row>, offset: nat, wrong: seq<string>) {
    if table == [] then wrong == []
    else
      && offset < |table|
      && var c := table[offset].definition;
      && Distinct(wrong)
      && (forall x :: x in wrong ==> x in Definitions(table) && x != c)
      && |wrong| == Min(AnswerCount - 1, |Definitions(table) - {c}|)
  }

  /** The joined result: no row when the table is empty or when no other definition exists
      (the cross join with an empty side is empty). */
  function FirstQuery(table: seq<Row>, offset: nat, wrong: seq<string>): (r: Option<QuizRow>)
    requires table != [] ==> offset < |table|
    ensures r.None? <==> table == [] || wrong == []
    ensures r.Some? ==>
      && r.value.question == table[offset].root
      && r.value.correctAnswer == table[offset].definition
      && r.value.correctAnswer in Definitions(table)
      && r.value.wrongAnswers == wrong
  {
    if table == [] || wrong == [] then None
    else Some(QuizRow(table[offset].root, table[offset].definition, wrong))
  }

  /** The top-up query REPAIRED so that PostgreSQL accepts it (the random order applied
      outside the `DISTINCT`, as the first query does), under SQL semantics: a `FreshDraw` of
      table definitions holding as many as remain, up to the limit. The query as written is
      refused; `QuizAsWritten` models that. */
  ghost predicate ExactDraw(defs: set<string>, correct: string, chosen: seq<string>, extra: seq<string>) {
    && FreshDraw(correct, chosen, extra)
    && (forall x :: x in extra ==> x in defs)
    && |extra| == Min(AnswerCount - |chosen|, |defs - {correct} - Elems(chosen)|)
  }

  /** Every answer of the repaired top-up query is an `ExactDraw`. */
  ghost predicate ExactOracle(defs: set<string>, correct: string, draw: seq<string> -> seq<string>) {
    forall chosen {:trigger draw(chosen)} :: |chosen| < AnswerCount ==> ExactDraw(defs, correct, chosen, draw(chosen))
  }

  /** What a sample from a non-empty table guarantees, in terms of sets. */
  lemma SampleFacts(table: seq<Row>, offset: nat, wrong: seq<string>)
    requires ExactSample(table, offset, wrong) && table != []
    ensures var defs := Definitions(table);
      var c := table[offset].definition;
      && c in defs
      && Distinct(wrong)
      && Elems(wrong) <= defs - {c}
      && |wrong| == Min(AnswerCount - 1, |defs| - 1)
  {
  }

  /** The first query returns no row exactly when the table holds at most one distinct
      definition; `/quiz` then throws. */
  lemma FirstQueryEmptyIff(table: seq<Row>, offset: nat, wrong: seq<string>)
    requires ExactSample(table, offset, wrong)
    ensures FirstQuery(table, offset, wrong).None? <==> |Definitions(table)| <= 1
  {
  }

  /** The deduplicated first row of a sample: the correct answer and then the wrong ones. */
  lemma SampleIsDistinct(table: seq<Row>, offset: nat, wrong: seq<string>)
    requires ExactSample(table, offset, wrong) && table != []
    ensures var all := [table[offset].definition] + wrong;
      && Unique(all) == all
      && Elems(all) == {table[offset].definition} + Elems(wrong)
      && |all| == |wrong| + 1
  {
    SampleFacts(table, offset, wrong);
    var all := [table[offset].definition] + wrong;
    DistinctConcat([table[offset].definition], wrong);
    UniqueOfDistinct(all);
  }

  /** With four or more distinct definitions the deduplicated first row already holds four
      answers, so the top-up loop body never runs. */
  lemma ManyDefinitionsNeedNoTopUp(table: seq<Row>, offset: nat, wrong: seq<string>)
    requires ExactSample(table, offset, wrong)
    requires |Definitions(table)| >= AnswerCount
    ensures FirstQuery(table, offset, wrong).Some?
    ensures var q := FirstQuery(table, offset, wrong).value;
      |Unique([q.correctAnswer] + q.wrongAnswers)| == AnswerCount
  {
    SampleFacts(table, offset, wrong);
    SampleIsDistinct(table, offset, wrong);
  }

  /** With two or three distinct definitions the first row already holds all of them, and
      fewer than four. */
  lemma FewDefinitionsExhausted(table: seq<Row>, offset: nat, wrong: seq<string>)
    requires ExactSample(table, offset, wrong)
    requires 2 <= |Definitions(table)| < AnswerCount
    ensures FirstQuery(table, offset, wrong).Some?
    ensures var q := FirstQuery(table, offset, wrong).value;
      var u := Unique([q.correctAnswer] + q.wrongAnswers);
      Elems(u) == Definitions(table) && |u| < AnswerCount
  {
    var defs := Definitions(table);
    var c := table[offset].definition;
    SampleFacts(table, offset, wrong);
    SampleIsDistinct(table, offset, wrong);
    assert |wrong| == |defs| - 1;
    DistinctCard(wrong);
    SubsetCard({c}, defs);
    SubsetCard(Elems(wrong), defs - {c});
    assert Elems(wrong) == defs - {c};
    assert {c} + (defs - {c}) == defs;
  }

  /** Fewer than four distinct answers can never fill four places. */
  lemma TooFewToFill(defs: set<string>, answers: seq<string>)
    requires Distinct(answers) && Elems(answers) <= defs
    ensures |answers| <= |defs|
  {
    DistinctWithin(answers, defs);
  }

  /** Under SQL semantics the corrected loop fills the list exactly when the table holds at
      least four distinct definitions, and otherwise stops with `NoCandidates`. */
  lemma {:induction false} FillFullIffEnoughDefinitions(
    defs: set<string>, correct: string, answers: seq<string>, draw: seq<string> -> seq<string>)
    requires Distinct(answers) && correct in answers && |answers| <= AnswerCount
    requires Elems(answers) <= defs
    requires ExactOracle(defs, correct, draw)
    ensures DrawOracle(correct, draw)
    ensures Fill(correct, answers, draw).Full? <==> |defs| >= AnswerCount
    decreases AnswerCount - |answers|
  {
    assert DrawOracle(correct, draw) by {
      forall chosen | |chosen| < AnswerCount
        ensures FreshDraw(correct, chosen, draw(chosen))
      {
        assert ExactDraw(defs, correct, chosen, draw(chosen));
      }
    }
    if |answers| >= AnswerCount {
      TooFewToFill(defs, answers);
    } else {
      var extra := draw(answers);
      assert ExactDraw(defs, correct, answers, extra);
      DistinctCard(answers);
      SubsetCard(Elems(answers), defs);
      assert defs - {correct} - Elems(answers) == defs - Elems(answers);
      if extra != [] {
        DistinctConcat(answers, extra);
        assert Elems(answers + extra) <= defs;
        FillFullIffEnoughDefinitions(defs, correct, answers + extra, draw);
      }
    }
  }

  // ---------------------------------------------------------------------------
  // The route as written

  /** What `/quiz` sends: the question with its answers, or the 500 of its catch. */
  datatype Response = QuizPage(question: string, correctAnswer: string, answers: seq<string>) | ServerError

  /** `/quiz` as written, from the first query's result. No row throws. Otherwise the answers
      are deduplicated; when fewer than four remain the loop issues the top-up query, a
      `SELECT DISTINCT` ordered by `random()`, which is not in its select list, and PostgreSQL
      refuses such a query, so the catch answers 500. Four or more are shuffled and served. */
  function QuizAsWritten(row: Option<QuizRow>, swaps: seq<(nat, nat)>): (r: Response)
    ensures row.None? ==> r == ServerError
    ensures row.Some? ==>
      (r.QuizPage? <==> |Unique([row.value.correctAnswer] + row.value.wrongAnswers)| >= AnswerCount)
    ensures r.QuizPage? ==>
      && r.question == row.value.question
      && r.correctAnswer == row.value.correctAnswer
      && |r.answers| >= AnswerCount
      && Distinct(r.answers)
      && r.correctAnswer in r.answers
      && (forall x :: x in row.value.wrongAnswers ==> x in r.answers)
  {
    if row.None? then ServerError
    else
      var q := row.value;
      var all := [q.correctAnswer] + q.wrongAnswers;
      var u := Unique(all);
      if |u| < AnswerCount then ServerError
      else
        var shuffled := Shuffle(u, swaps);
        assert all[0] == q.correctAnswer;
        ShuffleMembers(u, swaps);
        QuizPage(q.question, q.correctAnswer, shuffled)
  }

  /** As written, `/quiz` serves a question exactly when the table holds at least four
      distinct definitions, and then with exactly four answers; with fewer it answers 500
      (no row for at most one definition, the refused top-up query for two or three). */
  lemma QuizAsWrittenServesIff(table: seq<Row>, offset: nat, wrong: seq<string>, swaps: seq<(nat, nat)>)
    requires ExactSample(table, offset, wrong)
    ensures var r := QuizAsWritten(FirstQuery(table, offset, wrong), swaps);
      && (r.QuizPage? <==> |Definitions(table)| >= AnswerCount)
      && (r.QuizPage? ==> |r.answers| == AnswerCount)
  {
    FirstQueryEmptyIff(table, offset, wrong);
    if |Definitions(table)| >= AnswerCount {
      ManyDefinitionsNeedNoTopUp(table, offset, wrong);
    } else if |Definitions(table)| >= 2 {
      FewDefinitionsExhausted(table, offset, wrong);
    }
  }

  // ---------------------------------------------------------------------------
  // The loop as written, with the top-up query repaired

  /** `while (uniqueAnswers.length < 4)` as written, fed by the repaired query and run for at
      most `fuel` rounds: `Some` holds the list once the condition fails, `None` means it
      still holds after `fuel` rounds. Nothing ends a round that adds no answer. */
  function SourceLoop(answers: seq<string>, draw: seq<string> -> seq<string>, fuel: nat): (r: Option<seq<string>>)
    ensures r.Some? ==> |r.value| >= AnswerCount && answers <= r.value
    ensures r.None? ==> |answers| < AnswerCount
    decreases fuel
  {
    if |answers| >= AnswerCount then Some(answers)
    else if fuel == 0 then None
    else
      assert answers <= answers + draw(answers);
      SourceLoop(answers + draw(answers), draw, fuel - 1)
  }

  /** With the repaired query, once every definition is among the answers and there are
      fewer than four, each round adds nothing: the loop never exits, however many rounds
      it runs. */
  lemma {:induction false} ExhaustedLoopNeverExits(
    defs: set<string>, correct: string, answers: seq<string>, draw: seq<string> -> seq<string>, fuel: nat)
    requires ExactOracle(defs, correct, draw)
    requires Elems(answers) == defs && |answers| < AnswerCount
    ensures SourceLoop(answers, draw, fuel) == None
  {
    if fuel > 0 {
      var extra := draw(answers);
      assert ExactDraw(defs, correct, answers, extra);
      assert defs - {correct} - Elems(answers) == {};
      assert |extra| == 0;
      assert answers + extra == answers;
      assert SourceLoop(answers, draw, fuel) == SourceLoop(answers, draw, fuel - 1);
      ExhaustedLoopNeverExits(defs, correct, answers, draw, fuel - 1);
    }
  }

  /** A table with two or three distinct definitions: repairing only the query would leave
      `/quiz` spinning forever, while the corrected loop stops with `NoCandidates`. */
  lemma RepairedQuerySpins(
    table: seq<Row>, offset: nat, wrong: seq<string>, draw: seq<string> -> seq<string>, fuel: nat)
    requires ExactSample(table, offset, wrong)
    requires 2 <= |Definitions(table)| < AnswerCount
    requires table != [] && ExactOracle(Definitions(table), table[offset].definition, draw)
    ensures FirstQuery(table, offset, wrong).Some?
    ensures var q := FirstQuery(table, offset, wrong).value;
      var u := Unique([q.correctAnswer] + q.wrongAnswers);
      && SourceLoop(u, draw, fuel) == None
      && Fill(q.correctAnswer, u, draw).NoCandidates?
  {
    FewDefinitionsExhausted(table, offset, wrong);
    var q := FirstQuery(table, offset, wrong).value;
    var all := [q.correctAnswer] + q.wrongAnswers;
    var u := Unique(all);
    assert all[0] == q.correctAnswer;
    ExhaustedLoopNeverExits(Definitions(table), q.correctAnswer, u, draw, fuel);
    FillFullIffEnoughDefinitions(Definitions(table), q.correctAnswer, u, draw);
  }

  // ---------------------------------------------------------------------------
  // A two-root table

  /** A concrete two-root table. */
  function TwoRoots(): seq<Row> {
    [Row("port", "carry"), Row("scrib", "write")]
  }

  /** The only exact repaired top-up for that table when "carry" is the correct answer. */
  function TwoRootsDraw(chosen: seq<string>): seq<string> {
    if "write" in chosen then [] else ["write"]
  }

  /** `TwoRootsDraw` returns exactly what the repaired top-up query returns on the two-root
      table. */
  lemma TwoRootsDrawIsExact()
    ensures ExactOracle({"carry", "write"}, "carry", TwoRootsDraw)
  {
  }

  /** The two-root table holds the definitions "carry" and "write". */
  lemma TwoRootsDefinitions()
    ensures Definitions(TwoRoots()) == {"carry", "write"}
  {
  }

  /** Asking `/quiz` for "port" on the two-root table: the first query can return
      ("port", "carry", ["write"]), deduplication leaves two answers, the loop issues the
      refused top-up query, and the page is a 500. */
  lemma TwoRootsFails(swaps: seq<(nat, nat)>)
    ensures ExactSample(TwoRoots(), 0, ["write"])
    ensures FirstQuery(TwoRoots(), 0, ["write"]) == Some(QuizRow("port", "carry", ["write"]))
    ensures QuizAsWritten(FirstQuery(TwoRoots(), 0, ["write"]), swaps) == ServerError
  {
    TwoRootsDefinitions();
    assert {"carry", "write"} - {"carry"} == {"write"};
    assert Distinct(["carry", "write"]);
    UniqueOfDistinct(["carry", "write"]);
    assert ["carry"] + ["write"] == ["carry", "write"];
  }

  /** On the same table, repairing only the query: the list stays at ["carry", "write"] and
      the loop as written is still running after any number of rounds. */
  lemma TwoRootsRepairedSpin(fuel: nat)
    ensures Unique(["carry"] + ["write"]) == ["carry", "write"]
    ensures SourceLoop(["carry", "write"], TwoRootsDraw, fuel) == None
  {
    assert Distinct(["carry", "write"]);
    UniqueOfDistinct(["carry", "write"]);
    assert ["carry"] + ["write"] == ["carry", "write"];
    TwoRootsDrawIsExact();
    assert Elems(["carry", "write"]) == {"carry", "write"};
    ExhaustedLoopNeverExits({"carry", "write"}, "carry", ["carry", "write"], TwoRootsDraw, fuel);
  }

  /** On the same table the corrected loop, fed by the repaired query, stops at once with
      `NoCandidates`. */
  lemma TwoRootsStop()
    ensures DrawOracle("carry", TwoRootsDraw)
    ensures Fill("carry", ["carry", "write"], TwoRootsDraw) == NoCandidates(["carry", "write"])
  {
  }
}
