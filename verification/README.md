# Verônica command dispatch, modelled in Dafny

Verônica is a small Portuguese voice assistant (`veronica.py`). A background
loop listens for an utterance. If the utterance contains the wake word
"verônica" or its alias "vê", the assistant:

1. deletes the wake words and strips the surrounding whitespace;
2. looks the remaining command up in a sqlite catalogue of intents and
   responses;
3. either logs the command with the answer and speaks the answer, or
   apologises and starts a background thread that asks the user to explain
   the command and stores the explanation.

This project models that dispatch core as pure functions over an immutable
database value, and proves what it does.

- `wrappers.dfy` (`Wrappers`): `Option` and `Result`.
- `text.dfy` (`Text`): Python's `p in s`, `s.replace(p, "")` and `s.strip()`
  on strings of code points.
- `store.dfy` (`Store`): the four tables of `veronica.db` as sequences of
  rows in rowid order, plus which tables exist. It also models `init_db`,
  `log_interaction` and `log_feedback`. A statement against a missing table
  fails with `NoSuchTable`, as sqlite raises for it.
- `matcher.dfy` (`Matcher`): `check_intent`, which is the join of intents
  and responses, the `LIKE` filter and `fetchone`.
- `dispatcher.dfy` (`Dispatcher`):
  - `process_command`, split into normalisation (`Normalise`) and routing
    (`Route`), with the side effects written out as a trace of `Log`,
    `Speak` and `SpawnFeedback` effects;
  - `save_feedback`, with the capture passed in as a parameter;
  - one iteration of `run_assistant`.
- `assistant.dfy` (`Assistant`):
  - `run_assistant` and `start_assistant` over a finite sequence of captures;
  - the spawned feedback captures run to completion afterwards;
  - properties of whole sessions.

Points where the model follows the code closely:

- `process_command` inserts the interaction row (line 99) before it speaks
  (line 101), and the model keeps that order. A failing insert therefore
  means nothing is spoken.
- `if response:` is Python truthiness. A matched response whose text is the
  empty string takes the apology branch, just as no match does.
- `responses.intent_id` has no `NOT NULL`, so it is an `Option<int>`. A NULL
  id joins no intent.
- sqlite does not enforce the declared foreign key by default, so a response
  may point at an intent that does not exist. Such a response never changes
  the answer (`Matcher.DanglingResponseIgnored`).
- `str.replace` makes a single left-to-right pass. Removing "vê" can
  therefore create a new "vê" (`Text.RemoveAllCanLeavePattern`).
- `str.strip()` removes exactly the characters for which Python's
  `isspace()` is true, which are listed in `Text.IsSpace`.
- `start_assistant` runs `init_db` first. With the whole schema in place no
  dispatch can fail, so the loop never stops on an exception
  (`Assistant.StartAssistant`).
- `run_assistant` skips empty captures with `if command:`. This guard only
  saves work: an empty utterance holds no wake word
  (`Dispatcher.RunStepIsDispatch`).

The file `veronica.py` ends most of lines 90 to 106 with stray U+240A
characters, and its `except` at line 82 is indented inconsistently. A Python interpreter
would reject both. The model follows the evident meaning of those lines.

## Model

| member | source | states |
|---|---|---|
| `Text.ContainsIffOccurs` | veronica.py:91 | `p in s` holds exactly when `p` occurs in `s` at some position |
| `Text.RemoveAll` | veronica.py:92 | `replace(p, "")` never lengthens the string, and leaves it unchanged exactly when `p` does not occur in it |
| `Text.RemoveAllLeading` | veronica.py:92 | an occurrence of the pattern at the start is deleted and the scan resumes after it |
| `Text.RemoveAllSplit` | veronica.py:92 | every occurrence is deleted, wherever it sits: when no occurrence straddles the seam, removing from `x + y` is removing from `x` and from `y` separately |
| `Text.RemoveAllCanLeavePattern` | veronica.py:92 | a single replace pass can leave the pattern in the result: "vvêê" becomes "vê" |
| `Text.TrimStart` | veronica.py:92 | leading strip yields a suffix of the input, what it drops is all whitespace, and the result does not start with whitespace |
| `Text.TrimEnd` | veronica.py:92 | trailing strip yields a prefix of the input, what it drops is all whitespace, and the result does not end with whitespace |
| `Text.Strip` | veronica.py:92 | `strip()` leaves no whitespace at either end and never lengthens the string |
| `Text.StripIsMiddleSlice` | veronica.py:92 | `strip()` returns a middle slice of its input, with only whitespace cut off on either side |
| `Text.StripUnique` | veronica.py:92 | whitespace, then a trimmed middle, then whitespace strips to exactly that middle |
| `Text.StripOfTrimmed` | veronica.py:92 | a string with no whitespace at either end strips to itself |
| `Text.StripIdempotent` | veronica.py:92 | stripping twice gives the same result as stripping once |
| `Store.NextRowId` | veronica.py:46 | a new row's id is larger than every id in the table; it is 1 for an empty table and otherwise one more than an id already present |
| `Store.InitDb` | veronica.py:9-40 | afterwards all four tables exist and no row of any table is lost or changed |
| `Store.InitDbIdempotent` | veronica.py:14-37 | `CREATE TABLE IF NOT EXISTS` run a second time changes nothing and keeps the database well formed |
| `Store.LogInteraction` | veronica.py:43-48 | fails exactly when `interactions` is missing; otherwise appends one row with the given command, response and a fresh id, and changes nothing else |
| `Store.LogFeedback` | veronica.py:51-56 | fails exactly when `feedback` is missing; otherwise appends one row with the given command, feedback and a fresh id, and changes nothing else |
| `Store.LogInteractionPreservesValid` | veronica.py:43-48 | an insert into `interactions` keeps primary keys distinct and leaves missing tables empty |
| `Store.LogFeedbackPreservesValid` | veronica.py:51-56 | an insert into `feedback` keeps primary keys distinct and leaves missing tables empty |
| `Store.LogsCommute` | veronica.py:99-105 | the run loop's insert and a feedback thread's insert give the same database in either order |
| `Matcher.NameInIffOccurs` | veronica.py:116 | `NameIn`, the `WHERE` clause, holds exactly when the intent's name occurs in the command at some position |
| `Matcher.JoinRow` | veronica.py:114-115 | one intent's joined rows are exactly its pairs with the responses whose `intent_id` is its id |
| `Matcher.Joined` | veronica.py:114-115 | the join holds exactly the (intent, response) pairs that meet `i.id = r.intent_id` |
| `Matcher.FirstResponseOf` | veronica.py:114-118 | an intent has no first response exactly when no response joins it, and any it has is the text of a joined response |
| `Matcher.CheckIntent` | veronica.py:109-124 | any answer is the text of a joined response whose intent's name occurs in the command; there is no answer exactly when no joined pair has such a name |
| `Matcher.CheckIntentIsFirstJoinedHit` | veronica.py:114-118 | the intent-by-intent scan equals the join filtered by the `LIKE` condition and cut at the first row |
| `Matcher.FirstHit` | veronica.py:118 | `fetchone` over the filtered join gives nothing exactly when no joined row meets the `WHERE` clause, and otherwise the text of a row that does |
| `Matcher.FirstHitIsEarliest` | veronica.py:118 | `fetchone` returns the earliest joined row that meets the `WHERE` clause |
| `Matcher.CheckIntentFirstInScanOrder` | veronica.py:114-122 | when several joined pairs match, the answer comes from the first of them in scan order |
| `Matcher.CheckIntentSkipsPrefix` | veronica.py:114-118 | intents with no matching joined response do not affect the answer, even when their name matches |
| `Matcher.DanglingResponseIgnored` | veronica.py:20-24 | a response whose `intent_id` names no intent never changes the answer |
| `Matcher.EmptyCommandNeverMatches` | veronica.py:116 | when every intent name is non-empty, an empty command matches nothing |
| `Matcher.NoSpecificityRanking` | veronica.py:114-122 | a one-letter name listed first beats a longer, more specific one: "que hora é" gets "Olá." rather than the time; the "a" intent and its response both come first, so scanning intents or responses first gives the same answer |
| `Matcher.FindResponse` | veronica.py:109-124 | the query fails exactly when `intents` or `responses` is missing, and otherwise answers as `CheckIntent` |
| `Dispatcher.IsAddressedIffOccurs` | veronica.py:91 | `IsAddressed`: an utterance is addressed exactly when "verônica" or "vê" occurs in it at some position |
| `Dispatcher.Normalise` | veronica.py:92 | the command handed on never begins or ends with whitespace and is no longer than the utterance |
| `Dispatcher.NormaliseAddressed` | veronica.py:91-92 | "verônica " followed by a trimmed command that mentions neither wake word is addressed, and normalises to exactly that command |
| `Dispatcher.NormaliseWakeWordAlone` | veronica.py:91-92 | the bare wake word is addressed and leaves an empty command |
| `Dispatcher.Route` | veronica.py:95-106 | it crashes exactly when the query fails, or when there is a non-empty answer but no `interactions` table, and the crash carries that error, with nothing written or spoken; it apologises exactly when there is no answer or an empty one, leaving the database unchanged and giving the apology and then a feedback capture; otherwise it logs the non-empty answer and then speaks it |
| `Dispatcher.Dispatch` | veronica.py:90-91 | an utterance is ignored exactly when it holds neither wake word, and an ignored utterance writes nothing and has no effect |
| `Dispatcher.DispatchTotalOnSchema` | veronica.py:90-106 | once all four tables exist, processing a command never fails |
| `Dispatcher.RouteOnlyAppendsInteraction` | veronica.py:97-106 | routing changes only the interaction log; it adds one row exactly when the trace holds a `Log` effect, and that row matches the effect |
| `Dispatcher.DispatchOnlyAppendsInteraction` | veronica.py:90-106 | the same holds for a whole `process_command`, including utterances without a wake word |
| `Dispatcher.RouteAnswersFromCatalogue` | veronica.py:95-101 | every logged answer is the non-empty text of a joined response whose intent's name occurs in the command |
| `Dispatcher.DispatchAnswersFromCatalogue` | veronica.py:90-101 | every logged pair holds the normalised command and an answer taken from the catalogue as above |
| `Dispatcher.DispatchRespondsIffSomeIntentMatches` | veronica.py:90-106 | with the schema in place and no empty response texts, an addressed utterance is answered exactly when some joined intent's name occurs in its command, and apologised for exactly when none does |
| `Dispatcher.EmptyCommandApologises` | veronica.py:91-106 | with `intents` and `responses` present, a command that normalises to nothing gets the apology and a feedback capture for "", and nothing is written |
| `Dispatcher.ScenarioTime` | veronica.py:90-101 | with the one-intent "hora" catalogue, "verônica <c>" for a command mentioning "hora" logs row 1 and speaks "São três horas." |
| `Dispatcher.ScenarioUnknown` | veronica.py:102-106 | with `intents` and `responses` present, a command that matches no intent name gets the apology and a capture for that command, and writes nothing |
| `Dispatcher.TimeQuestion` | veronica.py:91-92 | "que hora é" is trimmed, free of both wake words, and mentions "hora" |
| `Dispatcher.JokeRequest` | veronica.py:91-92 | "me conte uma piada" is trimmed, free of both wake words, and does not mention "hora" |
| `Dispatcher.ScenarioCommands` | veronica.py:91-92 | "que hora é" and "me conte uma piada" are trimmed and free of both wake words, and only the first mentions "hora" |
| `Dispatcher.ScenarioJoke` | veronica.py:102-106 | with the one-intent "hora" catalogue, "verônica me conte uma piada" gets the apology and a feedback capture for "me conte uma piada", and nothing is written |
| `Dispatcher.Explanation` | veronica.py:130-131 | the stored explanation is never empty, and it is the capture itself whenever the capture is non-empty |
| `Dispatcher.SaveFeedback` | veronica.py:127-132 | fails exactly when `feedback` is missing; otherwise appends one row with the command and the capture, or the sentinel "feedback não fornecido" when nothing was heard, and changes no other table |
| `Dispatcher.ScenarioFeedbackTimeout` | veronica.py:129-132 | a capture that timed out stores the sentinel text |
| `Dispatcher.RunStep` | veronica.py:137-139 | an empty capture changes nothing and has no effects |
| `Dispatcher.RunStepIsDispatch` | veronica.py:138-139 | skipping empty captures behaves exactly as processing them would |
| `Assistant.RouteLogsWhatItAppends` | veronica.py:95-106 | routing one command keeps the catalogue, the feedback table and the schema, and appends to `interactions` exactly the pairs its trace logs |
| `Assistant.StepLogsWhatItAppends` | veronica.py:136-139 | one loop iteration keeps the catalogue, the feedback table and the schema, and appends to `interactions` exactly the pairs its trace logs |
| `Assistant.RunStepContract` | veronica.py:136-139 | every loop iteration writes only what it logs, and none fails once the schema exists |
| `Assistant.RunKeepsCatalogue` | veronica.py:135-140 | over a whole run the catalogue, the feedback table and the schema never change |
| `Assistant.RunLogsInOrder` | veronica.py:135-140 | over a whole run the interaction rows added are, in order, exactly the pairs the trace logs |
| `Assistant.RunNeverCrashesOnSchema` | veronica.py:135-140 | a run that starts with the whole schema never stops on an exception |
| `Assistant.Run` | veronica.py:135-140 | `run_assistant` keeps the catalogue, the feedback table and the schema, adds to `interactions` exactly the pairs its trace logs, in order, and never stops on an exception once the schema exists |
| `Assistant.StartAssistant` | veronica.py:143-149 | after `init_db` all four tables exist and the loop never crashes; the catalogue and the feedback table come through unchanged and the log gains exactly the logged pairs |
| `Assistant.AnswersPairEachCommand` | veronica.py:130-132 | each expected feedback row keeps its job's command and carries a non-empty explanation |
| `Assistant.SaveFeedbackRecords` | veronica.py:127-132 | with the feedback table present, one capture adds exactly its command and explanation to the recorded rows |
| `Assistant.SaveFeedbackRecordsOneCapture` | veronica.py:127-132 | `save_feedback` fails only without a feedback table, and otherwise records exactly one row |
| `Assistant.SaveAllWithFailsOnlyWithoutFeedback` | veronica.py:105 | captures run one after another fail only when the feedback table is missing, and change nothing else |
| `Assistant.SaveAllWithRecordsEveryJob` | veronica.py:105 | captures run one after another record one row per job, in order |
| `Assistant.SaveAll` | veronica.py:127-132 | the `save_feedback` threads started at line 105, run to completion one after another, in spawn order, leave one row per command, in that order, holding the command and its explanation, and nothing else changes; they fail exactly when there is a job and no `feedback` table |
| `Assistant.StartAssistantThenCaptures` | veronica.py:102-105 | after a session, feedback captures run in spawn order store one row for each command the loop apologised for, in the order of the apologies, and touch nothing the loop wrote |

## Left out

- `listen` (lines 67-87) talks to a microphone and a remote recogniser. Its
  result is a parameter here: the sequence of captures for the loop, and one
  capture per feedback thread. The recogniser's lower-casing (line 81) is
  assumed to have happened already, so the wake-word test is
  case-sensitive, as it is on a lower-cased string.
- `speak` (lines 62-64) and the voice engine's settings are `Speak` effects
  in the trace.
- `print` messages and the feedback prompt text (line 128) are output only.
- `time.sleep` and the infinite loops (lines 136-140, 148-149) are modelled
  as finite sequences of captures.
- The daemon feedback threads (line 105) are not interleaved with the loop.
  The model runs them to completion after it (`Assistant.SaveAll`).
  `Store.LogsCommute` shows that the two kinds of insert do not interfere.
  A capture competing with the loop for the microphone is not modelled.
- `Assistant.SaveAll`: the captures are serialised in spawn order. The
  program does not guarantee that order. Each capture is its own thread and
  inserts only after its own `listen` returns, so a later capture can
  insert first. The row order stated by `Assistant.SaveAll`
  and `Assistant.StartAssistantThenCaptures` holds only for that
  serialisation. Across interleavings only the set of recorded pairs is
  fixed, and that set is not proved here.
- The sqlite connection lifecycle (connect, commit, close) is not modelled,
  and neither are failures other than a missing table (a locked or
  unwritable database file).
- The `timestamp` column of `interactions` is left out; it is never read.
  Intent descriptions are stored but never read.
- `Matcher.NameIn`: `LIKE` is case-insensitive for ASCII letters and treats
  `%` and `_` inside an intent name as wildcards. The model reads it as
  case-sensitive plain containment, so it is weaker for names that hold
  wildcards or upper-case letters.
- `Matcher.CheckIntent`: the query has no `ORDER BY`, so the row
  `fetchone` returns depends on sqlite's query plan. The model fixes one
  plan: intents outer, responses inner, each in rowid order. `intents.id` is
  the rowid and `responses.intent_id` has no index, so sqlite will likely
  scan `responses` in the outer loop instead. The answer then follows
  response order. The two plans agree whenever each intent's first response
  comes before the first response of every later intent, as in
  `Matcher.NoSpecificityRanking`.
- `Store.NextRowId`: sqlite picks a random unused rowid once the largest
  rowid reaches 2^63-1. That case is not modelled.
