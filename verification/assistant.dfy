/** `start_assistant` and `run_assistant` over a finite sequence of captures:
    the schema is ensured, then each capture is dispatched in turn. An
    exception ends the background loop, so the first crash stops the run. */
module Assistant {
  import opened Wrappers
  import opened Store
  import opened Dispatcher

  /** The database after a run, every effect performed, in order, and the
      error that ended the loop, if any. */
  datatype Session = Session(db: Db, effects: seq<Effect>, crashed: Option<StoreError>)

  /** The (command, response) pair an effect logs, if it is a `Log`. */
  function LoggedBy(e: Effect): seq<(string, string)> {
    if e.Log? then [(e.command, e.response)] else []
  }

  /** The (command, response) pairs of the `Log` effects in a trace. */
  function Logged(effects: seq<Effect>): seq<(string, string)> {
    if effects == [] then [] else LoggedBy(effects[0]) + Logged(effects[1..])
  }

  /** The command an effect hands to feedback capture, if it is a spawn. */
  function SpawnedBy(e: Effect): seq<string> {
    if e.SpawnFeedback? then [e.command] else []
  }

  /** The commands of the `SpawnFeedback` effects in a trace. */
  function Spawned(effects: seq<Effect>): seq<string> {
    if effects == [] then [] else SpawnedBy(effects[0]) + Spawned(effects[1..])
  }

  /** Two text columns of a table, given how to read them from a row. */
  function Pairs<R>(rows: seq<R>, pair: R -> (string, string)): seq<(string, string)>
    decreases |rows|
  {
    if rows == [] then [] else [pair(rows[0])] + Pairs(rows[1..], pair)
  }

  lemma {:induction false} PairsAppendRow<R>(rows: seq<R>, row: R, pair: R -> (string, string))
    ensures Pairs(rows + [row], pair) == Pairs(rows, pair) + [pair(row)]
    decreases |rows|
  {
    if rows == [] {
      assert rows + [row] == [row];
    } else {
      var all := rows + [row];
      assert all[0] == rows[0];
      assert all[1..] == rows[1..] + [row];
      PairsAppendRow(rows[1..], row, pair);
    }
  }

  function InteractionPair(row: Interaction): (string, string) { (row.command, row.response) }

  function FeedbackPair(row: FeedbackRow): (string, string) { (row.command, row.feedback) }

  /** The (command, response) columns of interaction rows. */
  function Columns(rows: seq<Interaction>): seq<(string, string)> {
    Pairs(rows, InteractionPair)
  }

  /** `run_assistant` over a given turn function, one iteration per element
      of `heard`; the first crash ends the loop. */
  function RunWith(step: (Db, string) -> Dispatched, db: Db, heard: seq<string>): Session
    decreases |heard|
  {
    if heard == [] then Session(db, [], None)
    else
      var d := step(db, heard[0]);
      if d.outcome.Crashed? then Session(d.db, d.effects, Some(d.outcome.error))
      else
        var rest := RunWith(step, d.db, heard[1..]);
        Session(rest.db, d.effects + rest.effects, rest.crashed)
  }

  /** A turn that writes only the interaction rows its trace logs. */
  ghost predicate AppendsWhatItLogs(step: (Db, string) -> Dispatched) {
    forall db: Db, h: string ::
      && OnlyInteractionsDiffer(step(db, h).db, db)
      && Columns(step(db, h).db.interactions) == Columns(db.interactions) + Logged(step(db, h).effects)
  }

  /** A turn that cannot fail once the schema exists. */
  ghost predicate TotalOnSchema(step: (Db, string) -> Dispatched) {
    forall db: Db, h: string :: AllTables <= db.tables ==> !step(db, h).outcome.Crashed?
  }

  lemma {:induction false} LoggedAppend(a: seq<Effect>, b: seq<Effect>)
    ensures Logged(a + b) == Logged(a) + Logged(b)
    decreases |a|
  {
    if a == [] {
      assert a + b == b;
    } else {
      var ab := a + b;
      assert ab[0] == a[0];
      assert ab[1..] == a[1..] + b;
      LoggedAppend(a[1..], b);
    }
  }

  /** Routing one command keeps the catalogue, the feedback table and the
      schema, and appends to `interactions` exactly the pairs its trace logs. */
  lemma RouteLogsWhatItAppends(db: Db, cmd: string)
    ensures var d := Route(db, cmd);
      && OnlyInteractionsDiffer(d.db, db)
      && Columns(d.db.interactions) == Columns(db.interactions) + Logged(d.effects)
  {
    var d := Route(db, cmd);
    var before := Columns(db.interactions);
    if d.outcome.Responded? {
      assert d.effects[1..][1..] == [];
      assert Logged(d.effects[1..]) == [];
      assert Logged(d.effects) == [(cmd, d.outcome.response)];
      var row := d.db.interactions[|db.interactions|];
      assert d.db.interactions == db.interactions + [row];
      PairsAppendRow(db.interactions, row, InteractionPair);
    } else {
      if d.outcome.Apologized? {
        assert d.effects[1..][1..] == [];
        assert Logged(d.effects[1..]) == [];
      }
      assert Logged(d.effects) == [];
      assert before + [] == before;
    }
  }

  /** One turn keeps the catalogue, the feedback table and the schema, and
      appends to `interactions` exactly the pairs its trace logs. */
  lemma StepLogsWhatItAppends(db: Db, heard: string)
    ensures var d := RunStep(db, heard);
      && OnlyInteractionsDiffer(d.db, db)
      && Columns(d.db.interactions) == Columns(db.interactions) + Logged(d.effects)
  {
    var d := RunStep(db, heard);
    if heard != "" && IsAddressed(heard) {
      assert d == Route(db, Normalise(heard));
      RouteLogsWhatItAppends(db, Normalise(heard));
    } else {
      assert d.effects == [] && d.db == db;
      assert Columns(db.interactions) + [] == Columns(db.interactions);
    }
  }

  /** `RunStep` writes only the interaction rows its trace logs, and never
      fails on a complete schema. */
  lemma RunStepContract()
    ensures AppendsWhatItLogs(RunStep)
    ensures TotalOnSchema(RunStep)
  {
    forall db: Db, h: string
      ensures OnlyInteractionsDiffer(RunStep(db, h).db, db)
      ensures Columns(RunStep(db, h).db.interactions) == Columns(db.interactions) + Logged(RunStep(db, h).effects)
      ensures AllTables <= db.tables ==> !RunStep(db, h).outcome.Crashed?
    {
      StepLogsWhatItAppends(db, h);
      RunStepIsDispatch(db, h);
      if AllTables <= db.tables {
        DispatchTotalOnSchema(db, h);
      }
    }
  }

  /** Over a whole run of such turns the catalogue, the feedback table and
      the schema never change. */
  lemma {:induction false} RunKeepsCatalogue(step: (Db, string) -> Dispatched, db: Db, heard: seq<string>)
    requires AppendsWhatItLogs(step)
    ensures OnlyInteractionsDiffer(RunWith(step, db, heard).db, db)
    decreases |heard|
  {
    if heard != [] {
      var d := step(db, heard[0]);
      if !d.outcome.Crashed? {
        RunKeepsCatalogue(step, d.db, heard[1..]);
      }
    }
  }

  /** Over a whole run of such turns the interaction log only grows, and the
      rows written are, in order, exactly the pairs the trace logs. */
  lemma {:induction false} RunLogsInOrder(step: (Db, string) -> Dispatched, db: Db, heard: seq<string>)
    requires AppendsWhatItLogs(step)
    ensures Columns(RunWith(step, db, heard).db.interactions)
         == Columns(db.interactions) + Logged(RunWith(step, db, heard).effects)
    decreases |heard|
  {
    var before := Columns(db.interactions);
    if heard == [] {
      assert before + [] == before;
    } else {
      var d := step(db, heard[0]);
      var mid := Logged(d.effects);
      if !d.outcome.Crashed? {
        var rest := RunWith(step, d.db, heard[1..]);
        RunLogsInOrder(step, d.db, heard[1..]);
        LoggedAppend(d.effects, rest.effects);
        var after := Logged(rest.effects);
        assert (before + mid) + after == before + (mid + after);
      }
    }
  }

  /** Turns that cannot fail on a complete schema, and do not remove tables,
      give a run that never crashes. */
  lemma {:induction false} RunNeverCrashesOnSchema(step: (Db, string) -> Dispatched, db: Db, heard: seq<string>)
    requires AppendsWhatItLogs(step) && TotalOnSchema(step)
    requires AllTables <= db.tables
    ensures RunWith(step, db, heard).crashed == None
    decreases |heard|
  {
    if heard != [] {
      var d := step(db, heard[0]);
      RunNeverCrashesOnSchema(step, d.db, heard[1..]);
    }
  }

  /** `run_assistant`: the loop whose turn is `RunStep`. It keeps the
      catalogue, the feedback table and the schema, appends to the
      interaction log exactly the pairs its trace logs, in order, and never
      crashes on a complete schema. */
  function Run(db: Db, heard: seq<string>): (s: Session)
    ensures OnlyInteractionsDiffer(s.db, db)
    ensures Columns(s.db.interactions) == Columns(db.interactions) + Logged(s.effects)
    ensures AllTables <= db.tables ==> s.crashed == None
  {
    RunStepContract();
    RunKeepsCatalogue(RunStep, db, heard);
    RunLogsInOrder(RunStep, db, heard);
    if AllTables <= db.tables then
      RunNeverCrashesOnSchema(RunStep, db, heard);
      RunWith(RunStep, db, heard)
    else
      RunWith(RunStep, db, heard)
  }

  /** `start_assistant`: `init_db`, then the loop. The schema is then
      complete, so the loop never stops on a missing table; the catalogue
      and the feedback table come through unchanged and the interaction log
      gains exactly the logged pairs. */
  function StartAssistant(db: Db, heard: seq<string>): (s: Session)
    ensures s.crashed == None
    ensures s.db.tables == AllTables
    ensures s.db.intents == db.intents && s.db.responses == db.responses && s.db.feedback == db.feedback
    ensures Columns(s.db.interactions) == Columns(db.interactions) + Logged(s.effects)
  {
    Run(InitDb(db), heard)
  }

  /** The background feedback captures, run to completion one after another
      with `save` standing for one capture's write: each spawned command is
      paired with what its capture heard, and the first failure stops the
      rest. */
  function SaveAllWith(save: (Db, string, string) -> Result<Db, StoreError>, db: Db, jobs: seq<(string, string)>): Result<Db, StoreError>
    decreases |jobs|
  {
    if jobs == [] then Success(db)
    else
      match save(db, jobs[0].0, jobs[0].1)
      case Failure(e) => Failure(e)
      case Success(db') => SaveAllWith(save, db', jobs[1..])
  }

  /** The (command, feedback) columns of feedback rows. */
  function Recorded(rows: seq<FeedbackRow>): seq<(string, string)> {
    Pairs(rows, FeedbackPair)
  }

  /** The rows the captures should leave: each command with its explanation,
      which is never empty. */
  function Answers(jobs: seq<(string, string)>): seq<(string, string)>
  {
    if jobs == [] then [] else [(jobs[0].0, Explanation(jobs[0].1))] + Answers(jobs[1..])
  }

  /** Every answer keeps its job's command and carries a non-empty
      explanation. */
  lemma {:induction false} AnswersPairEachCommand(jobs: seq<(string, string)>)
    ensures |Answers(jobs)| == |jobs|
    ensures forall k :: 0 <= k < |jobs| ==> Answers(jobs)[k].0 == jobs[k].0 && Answers(jobs)[k].1 != ""
    decreases |jobs|
  {
    if jobs != [] {
      AnswersPairEachCommand(jobs[1..]);
      forall k | 1 <= k < |jobs|
        ensures Answers(jobs)[k] == Answers(jobs[1..])[k - 1]
      {
      }
    }
  }

  /** A capture write that fails exactly when the feedback table is missing
      and otherwise appends one row holding the command and its explanation,
      touching nothing else. */
  ghost predicate RecordsOneCapture(save: (Db, string, string) -> Result<Db, StoreError>) {
    forall db: Db, c: string, h: string ::
      && (save(db, c, h).Failure? <==> Feedback !in db.tables)
      && (save(db, c, h).Success? ==>
           && OnlyFeedbackDiffers(save(db, c, h).value, db)
           && Recorded(save(db, c, h).value.feedback) == Recorded(db.feedback) + [(c, Explanation(h))])
  }

  /** One capture adds its command and explanation to the recorded columns. */
  lemma SaveFeedbackRecords(db: Db, command: string, heard: string)
    requires Feedback in db.tables
    ensures SaveFeedback(db, command, heard).Success?
    ensures OnlyFeedbackDiffers(SaveFeedback(db, command, heard).value, db)
    ensures Recorded(SaveFeedback(db, command, heard).value.feedback)
         == Recorded(db.feedback) + [(command, Explanation(heard))]
  {
    var after := SaveFeedback(db, command, heard).value;
    var row := after.feedback[|db.feedback|];
    assert after.feedback == db.feedback + [row];
    PairsAppendRow(db.feedback, row, FeedbackPair);
  }

  lemma SaveFeedbackRecordsOneCapture()
    ensures RecordsOneCapture(SaveFeedback)
  {
    forall db: Db, c: string, h: string | Feedback in db.tables
      ensures SaveFeedback(db, c, h).Success?
      ensures OnlyFeedbackDiffers(SaveFeedback(db, c, h).value, db)
      ensures Recorded(SaveFeedback(db, c, h).value.feedback) == Recorded(db.feedback) + [(c, Explanation(h))]
    {
      SaveFeedbackRecords(db, c, h);
    }
  }

  /** Captures that each record one row fail only on a missing feedback
      table, and leave everything but the feedback rows unchanged. */
  lemma {:induction false} SaveAllWithFailsOnlyWithoutFeedback(save: (Db, string, string) -> Result<Db, StoreError>, db: Db, jobs: seq<(string, string)>)
    requires RecordsOneCapture(save)
    ensures SaveAllWith(save, db, jobs).Failure? <==> jobs != [] && Feedback !in db.tables
    ensures SaveAllWith(save, db, jobs).Success? ==> OnlyFeedbackDiffers(SaveAllWith(save, db, jobs).value, db)
    decreases |jobs|
  {
    if jobs != [] && Feedback in db.tables {
      SaveAllWithFailsOnlyWithoutFeedback(save, save(db, jobs[0].0, jobs[0].1).value, jobs[1..]);
    }
  }

  /** Such captures leave, in order, one row per job holding its command and
      explanation. */
  lemma {:induction false} SaveAllWithRecordsEveryJob(save: (Db, string, string) -> Result<Db, StoreError>, db: Db, jobs: seq<(string, string)>)
    requires RecordsOneCapture(save)
    requires Feedback in db.tables
    ensures SaveAllWith(save, db, jobs).Success?
    ensures Recorded(SaveAllWith(save, db, jobs).value.feedback) == Recorded(db.feedback) + Answers(jobs)
    decreases |jobs|
  {
    var before := Recorded(db.feedback);
    if jobs == [] {
      assert before + [] == before;
    } else {
      var db' := save(db, jobs[0].0, jobs[0].1).value;
      SaveAllWithRecordsEveryJob(save, db', jobs[1..]);
      var mid: seq<(string, string)> := [(jobs[0].0, Explanation(jobs[0].1))];
      var after := Answers(jobs[1..]);
      assert Answers(jobs) == mid + after;
      assert (before + mid) + after == before + (mid + after);
    }
  }

  /** `save_feedback` threads run to completion one after another. Once
      every capture finishes, the feedback table has gained exactly one row
      per job, in order, holding its command and explanation; nothing else in
      the store has changed, and only a missing feedback table makes a
      capture fail. */
  function SaveAll(db: Db, jobs: seq<(string, string)>): (r: Result<Db, StoreError>)
    ensures r.Failure? <==> jobs != [] && Feedback !in db.tables
    ensures r.Success? ==>
      && OnlyFeedbackDiffers(r.value, db)
      && Recorded(r.value.feedback) == Recorded(db.feedback) + Answers(jobs)
  {
    SaveFeedbackRecordsOneCapture();
    SaveAllWithFailsOnlyWithoutFeedback(SaveFeedback, db, jobs);
    if Feedback in db.tables then
      SaveAllWithRecordsEveryJob(SaveFeedback, db, jobs);
      SaveAllWith(SaveFeedback, db, jobs)
    else
      SaveAllWith(SaveFeedback, db, jobs)
  }

  /** The commands of a trace paired with what each capture heard. */
  function Pair(commands: seq<string>, captured: seq<string>): (jobs: seq<(string, string)>)
    requires |commands| == |captured|
    ensures |jobs| == |commands|
    ensures forall k :: 0 <= k < |jobs| ==> jobs[k] == (commands[k], captured[k])
  {
    seq(|commands|, k requires 0 <= k < |commands| => (commands[k], captured[k]))
  }

  /** A whole session followed by its feedback captures: every command the
      loop apologised for gets one feedback row, in the order the apologies
      were spoken, and the captures touch nothing the loop wrote. */
  lemma StartAssistantThenCaptures(db: Db, heard: seq<string>, captured: seq<string>)
    requires |captured| == |Spawned(StartAssistant(db, heard).effects)|
    ensures var s := StartAssistant(db, heard);
      var jobs := Pair(Spawned(s.effects), captured);
      && SaveAll(s.db, jobs).Success?
      && OnlyFeedbackDiffers(SaveAll(s.db, jobs).value, s.db)
      && Recorded(SaveAll(s.db, jobs).value.feedback) == Recorded(db.feedback) + Answers(jobs)
  {
    var s := StartAssistant(db, heard);
    var jobs := Pair(Spawned(s.effects), captured);
    assert SaveAll(s.db, jobs).Success?;
  }
}
