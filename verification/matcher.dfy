/** `check_intent`: the query
      SELECT r.response_text FROM intents i JOIN responses r ON i.id = r.intent_id
      WHERE command LIKE '%' || i.name || '%'
    followed by `fetchone`. The join is scanned with intents as the outer loop
    and responses as the inner loop, each in rowid order, and the first row
    the WHERE clause keeps is the answer. */
module Matcher {
  import opened Wrappers
  import opened Text
  import opened Store

  /** The join condition `i.id = r.intent_id`; a NULL intent_id joins nothing. */
  predicate Joins(i: Intent, x: Response) {
    x.intentId == Some(i.id)
  }

  /** The WHERE clause, with LIKE read as substring containment. */
  predicate NameIn(command: string, i: Intent) {
    Contains(command, i.name)
  }

  /** The WHERE clause keeps a row exactly when the intent's name occurs
      somewhere in the command. */
  lemma NameInIffOccurs(command: string, i: Intent)
    ensures NameIn(command, i) <==> exists k :: OccursAt(command, i.name, k)
  {
    ContainsIffOccurs(command, i.name);
  }

  /** The joined rows intent `i` contributes, in response order. */
  function JoinRow(i: Intent, rs: seq<Response>): (ps: seq<(Intent, Response)>)
    ensures forall p :: p in ps <==> p.0 == i && p.1 in rs && Joins(i, p.1)
  {
    if rs == [] then []
    else (if Joins(i, rs[0]) then [(i, rs[0])] else []) + JoinRow(i, rs[1..])
  }

  /** `intents JOIN responses` in scan order: exactly the pairs that satisfy
      the join condition. */
  function Joined(intents: seq<Intent>, rs: seq<Response>): (ps: seq<(Intent, Response)>)
    ensures forall p :: p in ps <==> p.0 in intents && p.1 in rs && Joins(p.0, p.1)
  {
    if intents == [] then [] else JoinRow(intents[0], rs) + Joined(intents[1..], rs)
  }

  /** `fetchone` over a stream of joined rows filtered by the WHERE clause:
      nothing exactly when no row passes it, and otherwise the text of a row
      that does (the earliest, by `FirstHitIsEarliest`). */
  function FirstHit(ps: seq<(Intent, Response)>, command: string): (r: Option<string>)
    ensures r.None? <==> forall k :: 0 <= k < |ps| ==> !NameIn(command, ps[k].0)
    ensures r.Some? ==> exists p :: p in ps && NameIn(command, p.0) && p.1.text == r.value
    decreases |ps|
  {
    if ps == [] then None
    else if NameIn(command, ps[0].0) then Some(ps[0].1.text)
    else FirstHit(ps[1..], command)
  }

  /** The text of the first response that belongs to intent `i`. */
  function FirstResponseOf(i: Intent, rs: seq<Response>): (r: Option<string>)
    ensures r.None? <==> forall x :: x in rs ==> !Joins(i, x)
    ensures r.Some? ==> exists x :: x in rs && Joins(i, x) && x.text == r.value
  {
    if rs == [] then None
    else if Joins(i, rs[0]) then Some(rs[0].text)
    else FirstResponseOf(i, rs[1..])
  }

  /** `check_intent` over the two catalogue tables. An answer is always the
      text of a response joined to an intent whose name occurs in the
      command; there is no answer exactly when no joined pair has such a
      name, so an intent without responses and a response without an intent
      contribute nothing. */
  function CheckIntent(intents: seq<Intent>, responses: seq<Response>, command: string): (r: Option<string>)
    ensures r.Some? ==>
      exists i, x :: i in intents && x in responses && Joins(i, x) && NameIn(command, i) && x.text == r.value
    ensures r.None? <==>
      forall i, x :: i in intents && x in responses && Joins(i, x) ==> !NameIn(command, i)
  {
    if intents == [] then None
    else if NameIn(command, intents[0]) && FirstResponseOf(intents[0], responses).Some? then
      FirstResponseOf(intents[0], responses)
    else CheckIntent(intents[1..], responses, command)
  }

  lemma {:induction false} FirstHitAppend(a: seq<(Intent, Response)>, b: seq<(Intent, Response)>, command: string)
    ensures FirstHit(a + b, command) == if FirstHit(a, command).Some? then FirstHit(a, command) else FirstHit(b, command)
    decreases |a|
  {
    if a == [] {
      assert a + b == b;
    } else {
      assert (a + b)[1..] == a[1..] + b;
      FirstHitAppend(a[1..], b, command);
    }
  }

  lemma {:induction false} FirstHitJoinRow(i: Intent, rs: seq<Response>, command: string)
    ensures FirstHit(JoinRow(i, rs), command) == if NameIn(command, i) then FirstResponseOf(i, rs) else None
    decreases |rs|
  {
    if rs != [] {
      var head: seq<(Intent, Response)> := if Joins(i, rs[0]) then [(i, rs[0])] else [];
      FirstHitAppend(head, JoinRow(i, rs[1..]), command);
      FirstHitJoinRow(i, rs[1..], command);
    }
  }

  /** The recursive scan is the relational join followed by `fetchone`. */
  lemma {:induction false} CheckIntentIsFirstJoinedHit(intents: seq<Intent>, rs: seq<Response>, command: string)
    ensures CheckIntent(intents, rs, command) == FirstHit(Joined(intents, rs), command)
    decreases |intents|
  {
    if intents != [] {
      FirstHitAppend(JoinRow(intents[0], rs), Joined(intents[1..], rs), command);
      FirstHitJoinRow(intents[0], rs, command);
      CheckIntentIsFirstJoinedHit(intents[1..], rs, command);
    }
  }

  /** `fetchone` picks the earliest row the WHERE clause keeps. */
  lemma {:induction false} FirstHitIsEarliest(ps: seq<(Intent, Response)>, command: string, k: int)
    requires 0 <= k < |ps| && NameIn(command, ps[k].0)
    requires forall j :: 0 <= j < k ==> !NameIn(command, ps[j].0)
    ensures FirstHit(ps, command) == Some(ps[k].1.text)
    decreases k
  {
    if k > 0 {
      FirstHitIsEarliest(ps[1..], command, k - 1);
    }
  }

  /** When several joined pairs match, the answer is the first of them in scan
      order; nothing ranks matches by name length or specificity. */
  lemma CheckIntentFirstInScanOrder(intents: seq<Intent>, rs: seq<Response>, command: string, k: int)
    requires 0 <= k < |Joined(intents, rs)| && NameIn(command, Joined(intents, rs)[k].0)
    requires forall j :: 0 <= j < k ==> !NameIn(command, Joined(intents, rs)[j].0)
    ensures CheckIntent(intents, rs, command) == Some(Joined(intents, rs)[k].1.text)
  {
    CheckIntentIsFirstJoinedHit(intents, rs, command);
    FirstHitIsEarliest(Joined(intents, rs), command, k);
  }

  /** Intents before a matching one are skipped when none of them has a
      joined response whose name occurs in the command; in particular a
      matching intent without responses does not stop a later one. */
  lemma {:induction false} CheckIntentSkipsPrefix(pre: seq<Intent>, post: seq<Intent>, rs: seq<Response>, command: string)
    requires forall i, x :: i in pre && x in rs && Joins(i, x) ==> !NameIn(command, i)
    ensures CheckIntent(pre + post, rs, command) == CheckIntent(post, rs, command)
    decreases |pre|
  {
    if pre == [] {
      assert pre + post == post;
    } else {
      assert (pre + post)[1..] == pre[1..] + post;
      assert (pre + post)[0] == pre[0];
      CheckIntentSkipsPrefix(pre[1..], post, rs, command);
    }
  }

  lemma {:induction false} FirstResponseOfIgnores(i: Intent, rs1: seq<Response>, x: Response, rs2: seq<Response>)
    requires !Joins(i, x)
    ensures FirstResponseOf(i, rs1 + [x] + rs2) == FirstResponseOf(i, rs1 + rs2)
    decreases |rs1|
  {
    if rs1 == [] {
      assert rs1 + [x] + rs2 == [x] + rs2;
      assert ([x] + rs2)[1..] == rs2;
      assert rs1 + rs2 == rs2;
    } else {
      assert (rs1 + [x] + rs2)[1..] == rs1[1..] + [x] + rs2;
      assert (rs1 + rs2)[1..] == rs1[1..] + rs2;
      FirstResponseOfIgnores(i, rs1[1..], x, rs2);
    }
  }

  /** A response whose intent_id names no intent (sqlite does not enforce the
      foreign key by default) never changes the answer. */
  lemma {:induction false} DanglingResponseIgnored(intents: seq<Intent>, rs1: seq<Response>, x: Response, rs2: seq<Response>, command: string)
    requires forall i :: i in intents ==> !Joins(i, x)
    ensures CheckIntent(intents, rs1 + [x] + rs2, command) == CheckIntent(intents, rs1 + rs2, command)
    decreases |intents|
  {
    if intents != [] {
      FirstResponseOfIgnores(intents[0], rs1, x, rs2);
      DanglingResponseIgnored(intents[1..], rs1, x, rs2, command);
    }
  }

  /** With non-empty names only, an empty command matches nothing. */
  lemma EmptyCommandNeverMatches(intents: seq<Intent>, rs: seq<Response>)
    requires forall i :: i in intents ==> i.name != ""
    ensures CheckIntent(intents, rs, "") == None
  {
  }

  /** A one-letter name listed first beats a longer, more specific one. */
  lemma NoSpecificityRanking()
    ensures CheckIntent(
      [Intent(1, "a", None), Intent(2, "hora", None)],
      [Response(1, Some(1), "Olá."), Response(2, Some(2), "São três horas.")],
      "que hora é") == Some("Olá.")
  {
    var cmd := "que hora é";
    assert cmd[7..8] == "a";
    OccursImpliesContains(cmd, "a", 7);
  }

  /** `check_intent` against the database: the query fails when either
      catalogue table is missing, and otherwise answers as `CheckIntent`. */
  function FindResponse(db: Db, command: string): (r: Result<Option<string>, StoreError>)
    ensures r.Failure? <==> Intents !in db.tables || Responses !in db.tables
    ensures r.Success? ==> r.value == CheckIntent(db.intents, db.responses, command)
  {
    if Intents !in db.tables then Failure(NoSuchTable(Intents))
    else if Responses !in db.tables then Failure(NoSuchTable(Responses))
    else Success(CheckIntent(db.intents, db.responses, command))
  }
}
