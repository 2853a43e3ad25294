/** `process_command`, `save_feedback` and one turn of `run_assistant`: the
    routing of a recognised utterance to exactly one of three outcomes, with
    the side effects it causes written out as a trace. */
module Dispatcher {
  import opened Wrappers
  import opened Text
  import opened Store
  import opened Matcher

  /** The wake word and its short alias, as the recogniser spells them after
      lower-casing. */
  const WakeWord := "verônica"
  const WakeAlias := "vê"

  /** Spoken when no intent answers the command. */
  const Apology := "Desculpe, não entendi o comando. Você pode me explicar o que deseja fazer?"

  /** Stored in place of an explanation that was never captured. */
  const NotProvided := "feedback não fornecido"

  /** What a dispatch does to the world, in order: an INSERT into
      `interactions`, an utterance of the voice engine, or the start of a
      background feedback capture for a command. */
  datatype Effect =
    | Log(command: string, response: string)
    | Speak(text: string)
    | SpawnFeedback(command: string)

  datatype Outcome =
    | Ignored
    | Responded(command: string, response: string)
    | Apologized(command: string)
    | Crashed(error: StoreError)

  /** The outcome of one dispatch, the database afterwards, and the effects
      performed, in the order they happen. */
  datatype Dispatched = Dispatched(outcome: Outcome, db: Db, effects: seq<Effect>)

  /** The utterance addresses the assistant. */
  predicate IsAddressed(u: string) {
    Contains(u, WakeWord) || Contains(u, WakeAlias)
  }

  /** An utterance is addressed exactly when the wake word or its alias
      occurs somewhere in it. */
  lemma IsAddressedIffOccurs(u: string)
    ensures IsAddressed(u) <==> (exists k :: OccursAt(u, WakeWord, k)) || (exists k :: OccursAt(u, WakeAlias, k))
  {
    ContainsIffOccurs(u, WakeWord);
    ContainsIffOccurs(u, WakeAlias);
  }

  /** The command left once every wake word, then every alias, is deleted and
      surrounding whitespace is stripped: it never begins or ends with
      whitespace and is no longer than the utterance. */
  function Normalise(u: string): (cmd: string)
    ensures Trimmed(cmd)
    ensures |cmd| <= |u|
  {
    Strip(RemoveAll(RemoveAll(u, WakeWord), WakeAlias))
  }

  /** A string none of whose characters begins `p` does not contain `p`. */
  lemma {:induction false} ForeignCharsNoContains(s: string, p: string)
    requires |p| > 0
    requires p[0] !in s
    ensures !Contains(s, p)
    decreases |s|
  {
    if |s| > 0 {
      if |p| <= |s| {
        assert s[..|p|][0] == s[0];
      }
      assert s == [s[0]] + s[1..];
      ForeignCharsNoContains(s[1..], p);
    }
  }

  /** Addressing the assistant as "verônica <command>" hands it exactly
      `<command>` when the command is already trimmed and mentions neither
      wake word. */
  lemma NormaliseAddressed(c: string)
    requires Trimmed(c)
    requires !Contains(c, WakeWord) && !Contains(c, WakeAlias)
    ensures IsAddressed(WakeWord + " " + c)
    ensures Normalise(WakeWord + " " + c) == c
  {
    var u := WakeWord + " " + c;
    assert IsAddressed(u) by {
      assert IsPrefix(WakeWord, u);
    }
    assert u == WakeWord + (" " + c);
    RemoveAllLeading(WakeWord, " " + c);
    assert " " + c == [' '] + c;
    ContainsAfterForeignHead(' ', c, WakeWord);
    ContainsAfterForeignHead(' ', c, WakeAlias);
    assert [' '] + c + [] == " " + c;
    StripUnique([' '], c, []);
  }

  /** The wake word alone leaves an empty command. */
  lemma NormaliseWakeWordAlone()
    ensures IsAddressed(WakeWord) && Normalise(WakeWord) == ""
  {
    assert IsPrefix(WakeWord, WakeWord);
    assert WakeWord == WakeWord + [];
    RemoveAllLeading(WakeWord, []);
    var e: string := [];
    assert e + e + e == e;
    StripUnique(e, e, e);
  }

  /** The routing half of `process_command`, for an already normalised
      command: a non-empty answer is logged and then spoken; no answer, or an
      empty one (Python treats "" as false), is met with the apology followed
      by a feedback capture for the command. A failing query or insert stops
      before anything is spoken. */
  function Route(db: Db, cmd: string): (d: Dispatched)
    ensures d.outcome.Responded? ==>
      && d.outcome.command == cmd
      && d.outcome.response != ""
      && FindResponse(db, cmd) == Success(Some(d.outcome.response))
      && LogInteraction(db, cmd, d.outcome.response) == Success(d.db)
      && d.effects == [Log(cmd, d.outcome.response), Speak(d.outcome.response)]
    ensures d.outcome.Apologized? ==>
      && d.outcome.command == cmd
      && (FindResponse(db, cmd) == Success(None) || FindResponse(db, cmd) == Success(Some("")))
      && d.db == db
      && d.effects == [Speak(Apology), SpawnFeedback(cmd)]
    ensures d.outcome.Crashed? ==> d.db == db && d.effects == []
    ensures !d.outcome.Ignored?
    ensures d.outcome.Crashed? <==>
      || FindResponse(db, cmd).Failure?
      || (FindResponse(db, cmd).value.Some? && FindResponse(db, cmd).value.value != "" && Interactions !in db.tables)
    ensures d.outcome.Crashed? ==>
      d.outcome.error == if FindResponse(db, cmd).Failure? then FindResponse(db, cmd).error else NoSuchTable(Interactions)
    ensures d.outcome.Apologized? <==>
      FindResponse(db, cmd) == Success(None) || FindResponse(db, cmd) == Success(Some(""))
  {
    match FindResponse(db, cmd)
    case Failure(e) => Dispatched(Crashed(e), db, [])
    case Success(found) =>
      if found.Some? && found.value != "" then
        match LogInteraction(db, cmd, found.value)
        case Failure(e) => Dispatched(Crashed(e), db, [])
        case Success(db') => Dispatched(Responded(cmd, found.value), db', [Log(cmd, found.value), Speak(found.value)])
      else
        Dispatched(Apologized(cmd), db, [Speak(Apology), SpawnFeedback(cmd)])
  }

  /** `process_command`: an utterance is ignored exactly when it holds neither
      wake word, and an ignored utterance writes nothing and has no effect;
      an addressed one is normalised and routed. */
  function Dispatch(db: Db, u: string): (d: Dispatched)
    ensures d.outcome.Ignored? <==> !IsAddressed(u)
    ensures d.outcome.Ignored? ==> d.db == db && d.effects == []
  {
    if !IsAddressed(u) then Dispatched(Ignored, db, []) else Route(db, Normalise(u))
  }

  /** Once the schema exists a dispatch never fails. */
  lemma DispatchTotalOnSchema(db: Db, u: string)
    requires AllTables <= db.tables
    ensures !Dispatch(db, u).outcome.Crashed?
  {
  }

  /** A dispatch writes at most the one interaction row it reports: the
      catalogue, the feedback table and the schema are untouched, earlier
      interactions are kept, and a row is added exactly when the trace holds
      a `Log` effect, with that effect's command and response. */
  lemma RouteOnlyAppendsInteraction(db: Db, cmd: string)
    ensures var d := Route(db, cmd);
      && OnlyInteractionsDiffer(d.db, db)
      && |db.interactions| <= |d.db.interactions| <= |db.interactions| + 1
      && d.db.interactions[..|db.interactions|] == db.interactions
      && (|d.db.interactions| > |db.interactions| <==> exists e :: e in d.effects && e.Log?)
      && forall e :: e in d.effects && e.Log? ==>
           var row := d.db.interactions[|db.interactions|];
           row.command == e.command && row.response == e.response
  {
    var d := Route(db, cmd);
    if d.outcome.Responded? {
      assert d.effects[0] in d.effects;
      assert forall e :: e in d.effects && e.Log? ==> e == d.effects[0];
    } else {
      assert forall e :: e in d.effects ==> !e.Log?;
    }
  }

  lemma DispatchOnlyAppendsInteraction(db: Db, u: string)
    ensures var d := Dispatch(db, u);
      && OnlyInteractionsDiffer(d.db, db)
      && |db.interactions| <= |d.db.interactions| <= |db.interactions| + 1
      && d.db.interactions[..|db.interactions|] == db.interactions
      && (|d.db.interactions| > |db.interactions| <==> exists e :: e in d.effects && e.Log?)
      && forall e :: e in d.effects && e.Log? ==>
           var row := d.db.interactions[|db.interactions|];
           row.command == e.command && row.response == e.response
  {
    if IsAddressed(u) {
      RouteOnlyAppendsInteraction(db, Normalise(u));
    } else {
      assert db.interactions[..|db.interactions|] == db.interactions;
    }
  }

  /** Every logged answer is the text of a non-empty response joined to an
      intent whose name occurs in the logged command. */
  lemma RouteAnswersFromCatalogue(db: Db, cmd: string)
    ensures forall e :: e in Route(db, cmd).effects && e.Log? ==>
        && e.command == cmd && e.response != ""
        && exists i, x :: i in db.intents && x in db.responses && Joins(i, x)
             && NameIn(cmd, i) && x.text == e.response
  {
    var d := Route(db, cmd);
    if d.outcome.Responded? {
      assert CheckIntent(db.intents, db.responses, cmd) == Some(d.outcome.response);
      assert forall e :: e in d.effects && e.Log? ==> e == d.effects[0];
    } else {
      assert forall e :: e in d.effects ==> !e.Log?;
    }
  }

  lemma DispatchAnswersFromCatalogue(db: Db, u: string)
    ensures forall e :: e in Dispatch(db, u).effects && e.Log? ==>
        && e.command == Normalise(u) && e.response != ""
        && exists i, x :: i in db.intents && x in db.responses && Joins(i, x)
             && NameIn(e.command, i) && x.text == e.response
  {
    if IsAddressed(u) {
      RouteAnswersFromCatalogue(db, Normalise(u));
    }
  }

  /** With the schema in place and every stored response non-empty, an
      addressed utterance is answered exactly when some joined intent's name
      occurs in its command, and apologised for otherwise. */
  lemma DispatchRespondsIffSomeIntentMatches(db: Db, u: string)
    requires AllTables <= db.tables && IsAddressed(u)
    requires forall x :: x in db.responses ==> x.text != ""
    ensures var d := Dispatch(db, u);
      && (d.outcome.Responded? <==>
            exists i, x :: i in db.intents && x in db.responses && Joins(i, x) && NameIn(Normalise(u), i))
      && (d.outcome.Apologized? <==>
            forall i, x :: i in db.intents && x in db.responses && Joins(i, x) ==> !NameIn(Normalise(u), i))
  {
    var r := CheckIntent(db.intents, db.responses, Normalise(u));
    if r.Some? {
      var i, x :| i in db.intents && x in db.responses && Joins(i, x) && NameIn(Normalise(u), i) && x.text == r.value;
    }
  }

  /** A command that normalises to nothing, such as the bare wake word, is
      never answered while every intent name is non-empty. */
  lemma EmptyCommandApologises(db: Db, u: string)
    requires Intents in db.tables && Responses in db.tables && IsAddressed(u) && Normalise(u) == ""
    requires forall i :: i in db.intents ==> i.name != ""
    ensures Dispatch(db, u) == Dispatched(Apologized(""), db, [Speak(Apology), SpawnFeedback("")])
  {
    EmptyCommandNeverMatches(db.intents, db.responses);
  }

  /** A catalogue with one intent, "hora", answered by "São três horas.". */
  const TimeCatalogue: Db := Db(AllTables, [Intent(1, "hora", None)], [Response(1, Some(1), "São três horas.")], [], [])

  /** Asking "verônica <command>" for any command that mentions "hora" gets
      "São três horas." spoken, after logging the command with that answer
      as interaction row 1. */
  lemma ScenarioTime(c: string)
    requires Trimmed(c) && !Contains(c, WakeWord) && !Contains(c, WakeAlias)
    requires Contains(c, "hora")
    ensures Dispatch(TimeCatalogue, WakeWord + " " + c) == Dispatched(
        Responded(c, "São três horas."),
        TimeCatalogue.(interactions := [Interaction(1, c, "São três horas.")]),
        [Log(c, "São três horas."), Speak("São três horas.")])
  {
    NormaliseAddressed(c);
  }

  /** Asking "verônica <command>" of a catalogue none of whose names occurs
      in the command gets the apology and a feedback capture for exactly
      that command, and writes nothing. */
  lemma ScenarioUnknown(db: Db, c: string)
    requires Intents in db.tables && Responses in db.tables
    requires Trimmed(c) && !Contains(c, WakeWord) && !Contains(c, WakeAlias)
    requires forall i :: i in db.intents ==> !NameIn(c, i)
    ensures Dispatch(db, WakeWord + " " + c) == Dispatched(Apologized(c), db, [Speak(Apology), SpawnFeedback(c)])
  {
    NormaliseAddressed(c);
  }

  /** "que hora é" is such a command: trimmed, free of both wake words, and
      it mentions "hora". The command is a parameter fixed by the
      precondition so that the verifier does not unfold `Contains` over the
      literal eagerly. */
  lemma TimeQuestion(c: string)
    requires c == "que hora é"
    ensures Trimmed(c) && !Contains(c, WakeWord) && !Contains(c, WakeAlias) && Contains(c, "hora")
  {
    ForeignCharsNoContains(c, WakeWord);
    ForeignCharsNoContains(c, WakeAlias);
    assert c[4..8] == "hora";
    OccursImpliesContains(c, "hora", 4);
  }

  /** "me conte uma piada" is trimmed, free of both wake words, and does not
      mention "hora". */
  lemma JokeRequest(c: string)
    requires c == "me conte uma piada"
    ensures Trimmed(c) && !Contains(c, WakeWord) && !Contains(c, WakeAlias) && !Contains(c, "hora")
  {
    assert 'v' !in c && 'h' !in c;
    WithoutVNorH(c);
  }

  /** A command with neither a 'v' nor an 'h' mentions neither wake word nor
      "hora". */
  lemma WithoutVNorH(c: string)
    requires 'v' !in c && 'h' !in c
    ensures !Contains(c, WakeWord) && !Contains(c, WakeAlias) && !Contains(c, "hora")
  {
    ForeignCharsNoContains(c, WakeWord);
    ForeignCharsNoContains(c, WakeAlias);
    ForeignCharsNoContains(c, "hora");
  }

  /** Of the two commands, both are trimmed and free of both wake words, and
      only the first mentions "hora". */
  lemma ScenarioCommands(c1: string, c2: string)
    requires c1 == "que hora é" && c2 == "me conte uma piada"
    ensures Trimmed(c1) && !Contains(c1, WakeWord) && !Contains(c1, WakeAlias) && Contains(c1, "hora")
    ensures Trimmed(c2) && !Contains(c2, WakeWord) && !Contains(c2, WakeAlias) && !Contains(c2, "hora")
  {
    TimeQuestion(c1);
    JokeRequest(c2);
  }

  /** Asking "verônica me conte uma piada" of the time catalogue gets the
      apology and a feedback capture for the joke request, and writes
      nothing: the only intent name, "hora", does not occur in it. */
  lemma ScenarioJoke(c: string)
    requires c == "me conte uma piada"
    ensures Dispatch(TimeCatalogue, WakeWord + " " + c)
         == Dispatched(Apologized(c), TimeCatalogue, [Speak(Apology), SpawnFeedback(c)])
  {
    JokeRequest(c);
    assert forall i :: i in TimeCatalogue.intents ==> i.name == "hora";
    ScenarioUnknown(TimeCatalogue, c);
  }

  /** What `save_feedback` stores for a capture: the capture itself, or the
      sentinel when nothing was heard. */
  function Explanation(heard: string): (e: string)
    ensures e != ""
    ensures heard != "" ==> e == heard
  {
    if heard == "" then NotProvided else heard
  }

  /** `save_feedback`, with the capture's result as a parameter: one row is
      appended to `feedback` for the command, holding the capture, or the
      sentinel when nothing was heard, so never the empty string. */
  function SaveFeedback(db: Db, command: string, heard: string): (r: Result<Db, StoreError>)
    ensures r.Failure? <==> Feedback !in db.tables
    ensures r.Success? ==>
      && OnlyFeedbackDiffers(r.value, db)
      && |r.value.feedback| == |db.feedback| + 1
      && r.value.feedback[..|db.feedback|] == db.feedback
      && var row := r.value.feedback[|db.feedback|];
         && row.command == command
         && row.feedback != ""
         && (heard != "" ==> row.feedback == heard)
         && (heard == "" ==> row.feedback == NotProvided)
  {
    LogFeedback(db, command, Explanation(heard))
  }

  /** A capture that timed out stores the sentinel, not an empty explanation. */
  lemma ScenarioFeedbackTimeout(db: Db, command: string)
    requires Feedback in db.tables
    ensures SaveFeedback(db, command, "").Success?
    ensures var rows := SaveFeedback(db, command, "").value.feedback;
      rows[|rows| - 1].command == command && rows[|rows| - 1].feedback == "feedback não fornecido"
  {
  }

  /** One turn of `run_assistant` after `listen` returned `heard`: an empty
      capture (a timeout or an unintelligible phrase) skips dispatch. */
  function RunStep(db: Db, heard: string): (d: Dispatched)
    ensures heard == "" ==> d.db == db && d.effects == []
  {
    if heard == "" then Dispatched(Ignored, db, []) else Dispatch(db, heard)
  }

  /** The emptiness guard only saves work: an empty utterance holds no wake
      word, so dispatching it would do nothing either. */
  lemma RunStepIsDispatch(db: Db, heard: string)
    ensures RunStep(db, heard) == Dispatch(db, heard)
  {
  }
}
