/** The sqlite database `veronica.db` as an immutable value: which of the four
    tables exist, and the rows of each in insertion (rowid) order. */
module Store {
  import opened Wrappers

  datatype Table = Intents | Responses | Interactions | Feedback

  /** A catalogue entry; `description` is a nullable TEXT column. */
  datatype Intent = Intent(id: int, name: string, description: Option<string>)

  /** A candidate reply; `intentId` is a nullable INTEGER column, so a
      response may point at no intent at all. */
  datatype Response = Response(id: int, intentId: Option<int>, text: string)

  /** An audit row for a matched command (the timestamp column is not modelled). */
  datatype Interaction = Interaction(id: int, command: string, response: string)

  /** An explanation captured for a command that was not understood. */
  datatype FeedbackRow = FeedbackRow(id: int, command: string, feedback: string)

  datatype Db = Db(
    tables: set<Table>,
    intents: seq<Intent>,
    responses: seq<Response>,
    interactions: seq<Interaction>,
    feedback: seq<FeedbackRow>)

  /** sqlite's failure when a statement names a table that was never created. */
  datatype StoreError = NoSuchTable(table: Table)

  const AllTables: set<Table> := {Intents, Responses, Interactions, Feedback}

  /** A database with no tables, as sqlite creates `veronica.db` on first connect. */
  const Fresh: Db := Db({}, [], [], [], [])

  /** `a` and `b` agree on everything but the interaction log. */
  predicate OnlyInteractionsDiffer(a: Db, b: Db) {
    a.tables == b.tables && a.intents == b.intents && a.responses == b.responses && a.feedback == b.feedback
  }

  /** `a` and `b` agree on everything but the feedback table. */
  predicate OnlyFeedbackDiffers(a: Db, b: Db) {
    a.tables == b.tables && a.intents == b.intents && a.responses == b.responses && a.interactions == b.interactions
  }

  /** Row ids within one table are pairwise distinct (INTEGER PRIMARY KEY). */
  ghost predicate DistinctIds(ids: seq<int>) {
    forall i, j :: 0 <= i < j < |ids| ==> ids[i] != ids[j]
  }

  function InteractionId(row: Interaction): int { row.id }

  function FeedbackId(row: FeedbackRow): int { row.id }

  /** The primary-key column of a table, given how to read a row's id. */
  function Ids<R>(rows: seq<R>, id: R -> int): (ids: seq<int>)
    ensures |ids| == |rows| && forall k :: 0 <= k < |rows| ==> ids[k] == id(rows[k])
  {
    seq(|rows|, k requires 0 <= k < |rows| => id(rows[k]))
  }

  /** What the database can look like: a table that does not exist holds no
      rows, and the two logs keep their primary keys distinct. */
  ghost predicate Valid(db: Db) {
    && (Intents !in db.tables ==> db.intents == [])
    && (Responses !in db.tables ==> db.responses == [])
    && (Interactions !in db.tables ==> db.interactions == [])
    && (Feedback !in db.tables ==> db.feedback == [])
    && DistinctIds(Ids(db.interactions, InteractionId))
    && DistinctIds(Ids(db.feedback, FeedbackId))
  }

  /** The rowid sqlite gives an inserted row when none is supplied: one more
      than the largest rowid in the table, or 1 for an empty table. It is
      larger than every id already present. */
  function NextRowId(ids: seq<int>): (n: int)
    ensures forall k :: 0 <= k < |ids| ==> ids[k] < n
    ensures ids == [] ==> n == 1
    ensures ids != [] ==> n - 1 in ids
  {
    if ids == [] then 1
    else if |ids| == 1 then ids[0] + 1
    else
      var m := NextRowId(ids[..|ids| - 1]);
      var last := ids[|ids| - 1];
      if last + 1 > m then last + 1 else m
  }

  /** `init_db`: CREATE TABLE IF NOT EXISTS for each of the four tables. */
  function InitDb(db: Db): (r: Db)
    ensures r.tables == AllTables
    ensures r.intents == db.intents && r.responses == db.responses
    ensures r.interactions == db.interactions && r.feedback == db.feedback
  {
    assert db.tables <= AllTables by {
      forall t | t in db.tables ensures t in AllTables {
        assert t.Intents? || t.Responses? || t.Interactions? || t.Feedback?;
      }
    }
    db.(tables := db.tables + AllTables)
  }

  /** Creating the schema a second time changes nothing, and no rows are lost. */
  lemma InitDbIdempotent(db: Db)
    ensures InitDb(InitDb(db)) == InitDb(db)
    ensures Valid(db) ==> Valid(InitDb(db))
  {
  }

  /** `log_interaction`: one INSERT into `interactions`, which fails when that
      table does not exist. On success exactly one row is appended, carrying
      the given command and response and a fresh id; every other table, and
      every earlier interaction row, is left as it was. */
  function LogInteraction(db: Db, command: string, response: string): (r: Result<Db, StoreError>)
    ensures r.Failure? <==> Interactions !in db.tables
    ensures r.Failure? ==> r.error == NoSuchTable(Interactions)
    ensures r.Success? ==>
      && |r.value.interactions| == |db.interactions| + 1
      && r.value.interactions[..|db.interactions|] == db.interactions
      && var row := r.value.interactions[|db.interactions|];
         && row.command == command && row.response == response
         && forall k :: 0 <= k < |db.interactions| ==> db.interactions[k].id != row.id
    ensures r.Success? ==> OnlyInteractionsDiffer(r.value, db)
  {
    if Interactions !in db.tables then Failure(NoSuchTable(Interactions))
    else
      var row := Interaction(NextRowId(Ids(db.interactions, InteractionId)), command, response);
      Success(db.(interactions := db.interactions + [row]))
  }

  /** `log_feedback`: one INSERT into `feedback`, with the same guarantees as
      `LogInteraction` for the feedback table. */
  function LogFeedback(db: Db, command: string, feedback: string): (r: Result<Db, StoreError>)
    ensures r.Failure? <==> Feedback !in db.tables
    ensures r.Failure? ==> r.error == NoSuchTable(Feedback)
    ensures r.Success? ==>
      && |r.value.feedback| == |db.feedback| + 1
      && r.value.feedback[..|db.feedback|] == db.feedback
      && var row := r.value.feedback[|db.feedback|];
         && row.command == command && row.feedback == feedback
         && forall k :: 0 <= k < |db.feedback| ==> db.feedback[k].id != row.id
    ensures r.Success? ==> OnlyFeedbackDiffers(r.value, db)
  {
    if Feedback !in db.tables then Failure(NoSuchTable(Feedback))
    else
      var row := FeedbackRow(NextRowId(Ids(db.feedback, FeedbackId)), command, feedback);
      Success(db.(feedback := db.feedback + [row]))
  }

  /** Appending an id larger than every present one keeps ids distinct. */
  lemma AppendFreshKeepsDistinct(ids: seq<int>, n: int)
    requires DistinctIds(ids)
    requires forall k :: 0 <= k < |ids| ==> ids[k] < n
    ensures DistinctIds(ids + [n])
  {
    var all := ids + [n];
    forall i, j | 0 <= i < j < |all| ensures all[i] != all[j] {
      if j < |ids| {
        assert all[i] == ids[i] && all[j] == ids[j];
      } else {
        assert all[i] == ids[i] && all[j] == n;
      }
    }
  }

  /** `log_interaction` keeps the database well formed. */
  lemma LogInteractionPreservesValid(db: Db, command: string, response: string)
    requires Valid(db) && Interactions in db.tables
    ensures Valid(LogInteraction(db, command, response).value)
  {
    var rows := db.interactions;
    var after := LogInteraction(db, command, response).value;
    var row := after.interactions[|rows|];
    assert after.interactions == rows + [row];
    assert Ids(rows + [row], InteractionId) == Ids(rows, InteractionId) + [row.id];
    AppendFreshKeepsDistinct(Ids(rows, InteractionId), row.id);
  }

  /** `log_feedback` keeps the database well formed. */
  lemma LogFeedbackPreservesValid(db: Db, command: string, feedback: string)
    requires Valid(db) && Feedback in db.tables
    ensures Valid(LogFeedback(db, command, feedback).value)
  {
    var rows := db.feedback;
    var after := LogFeedback(db, command, feedback).value;
    var row := after.feedback[|rows|];
    assert after.feedback == rows + [row];
    assert Ids(rows + [row], FeedbackId) == Ids(rows, FeedbackId) + [row.id];
    AppendFreshKeepsDistinct(Ids(rows, FeedbackId), row.id);
  }

  /** The feedback thread and the run loop write different tables, so their
      inserts give the same database in either order. */
  lemma LogsCommute(db: Db, c1: string, response: string, c2: string, feedback: string)
    requires Interactions in db.tables && Feedback in db.tables
    ensures LogFeedback(LogInteraction(db, c1, response).value, c2, feedback).Success?
    ensures LogInteraction(LogFeedback(db, c2, feedback).value, c1, response).Success?
    ensures LogFeedback(LogInteraction(db, c1, response).value, c2, feedback).value
         == LogInteraction(LogFeedback(db, c2, feedback).value, c1, response).value
  {
  }
}
