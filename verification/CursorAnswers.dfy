/** When each continuous-query operation is accepted and what it leaves, over the stored rows
(`src/continuous.rs`, `src/cdc.rs`). */
module CursorAnswers {
  import opened Bytes
  import opened Cursors
  import Text

  /** The token would lower the cursor on the cursor's own timeline. */
  predicate Behind(token: Token, cursor: Token) {
    token.timeline == cursor.timeline && token.lsn < cursor.lsn
  }

  /** The row has an owner, and it has the principal's name. */
  predicate OwnedBy(row: Subscription, principal: Principal) {
    match row.principal
    case None => false
    case Some(owner) => owner.name == principal.name
  }

  /** An ASCII letter or underscore, then ASCII letters, digits and underscores. */
  predicate WellNamed(name: string) {
    && name != "" && !('0' <= name[0] <= '9')
    && forall c :: c in name ==> 'a' <= c <= 'z' || 'A' <= c <= 'Z' || '0' <= c <= '9' || c == '_'
  }

  /** Creating a query: there is a commit log, the principal may read what it filters, the name is
  well formed, the SQL is not all white space, and no subscription row of that name belongs to
  someone else. Each other case has its own error. */
  lemma CreateAnswer(policy: Policy, db: Db, principal: Principal, spec: Spec, now: int)
    ensures var answer, allowed := Atomic(policy, db, CreateAs(principal, spec), now).1, policy.mayRead(principal, spec.filter);
            var named, written := WellNamed(spec.name), exists i :: 0 <= i < |spec.sql| && !Text.Space(spec.sql[i]);
            var free := spec.name in db.subscriptions ==> OwnedBy(db.subscriptions[spec.name], principal);
            && (answer.Accepted? <==> policy.commitLog && allowed && named && written && free)
            && (answer == Refused(Unsupported) <==> !policy.commitLog)
            && (answer == Refused(Denied) <==> policy.commitLog && !allowed)
            && (answer == Refused(InvalidName) <==> policy.commitLog && allowed && !named)
            && (answer == Refused(InvalidSql) <==> policy.commitLog && allowed && named && !written)
            && (answer == Refused(PrincipalMismatch) <==> policy.commitLog && allowed && named && written && !free)
  {
    NamesAgree(spec.name);
    hide Text.Identifier, WellNamed, Text.Space, PutAll;
  }

  lemma NamesAgree(name: string)
    ensures Text.Identifier(name) <==> WellNamed(name)
  {
    if Text.Identifier(name) {
      forall c | c in name ensures 'a' <= c <= 'z' || 'A' <= c <= 'Z' || '0' <= c <= '9' || c == '_' {
        var i :| 0 <= i < |name| && name[i] == c;
      }
    }
    if WellNamed(name) {
      forall i | 0 <= i < |name| ensures name[i] in name {
      }
    }
  }

  /** Acknowledging a query alone: there is a commit log and a query row, and the token does not
  move its cursor back. */
  lemma AckAnswer(policy: Policy, db: Db, name: string, token: Token, now: int)
    ensures var answer := Atomic(policy, db, Ack(name, token), now).1;
            var found := name in db.queries;
            var back := found && Behind(token, db.queries[name].lastAck);
            && (answer.Accepted? <==> policy.commitLog && found && !back)
            && (answer == Refused(Unsupported) <==> !policy.commitLog)
            && (answer == Refused(MissingQuery) <==> policy.commitLog && !found)
            && (answer == Refused(MovesBack) <==> policy.commitLog && back)
  {
    hide PutAll;
  }

  /** Acknowledging a query and its subscription: there is a commit log, both rows are there, the
  caller, if one is named, has the owner's name and may read what the row filters, and the token
  moves neither cursor back. Each other case has its own error. */
  lemma JointAckAnswer(policy: Policy, db: Db, caller: Option<Principal>, name: string, token: Token, now: int)
    ensures var answer := Atomic(policy, db, JointAck(caller, name, token), now).1;
            var found, paired := name in db.queries, name in db.queries && name in db.subscriptions;
            var owner := paired && (caller.Some? ==> OwnedBy(db.subscriptions[name], caller.value));
            var allowed := owner && (caller.Some? ==> policy.mayRead(caller.value, db.subscriptions[name].config.filter));
            var back := allowed && (Behind(token, db.queries[name].lastAck) || Behind(token, db.subscriptions[name].lastAck));
            && (answer.Accepted? <==> policy.commitLog && allowed && !back)
            && (answer == Refused(Unsupported) <==> !policy.commitLog)
            && (answer == Refused(MissingQuery) <==> policy.commitLog && !found)
            && (answer == Refused(MissingSubscription) <==> policy.commitLog && found && !paired)
            && (answer == Refused(PrincipalMismatch) <==> policy.commitLog && paired && !owner)
            && (answer == Refused(Denied) <==> policy.commitLog && owner && !allowed)
            && (answer == Refused(MovesBack) <==> policy.commitLog && back)
  {
    hide PutAll;
  }

  /** What an accepted operation leaves. A new query starts where its specification says; one that
  is created again keeps its cursors and its age, and gets the new specification and owner. An
  acknowledgement moves the cursors to the token, unless they are there already. */
  ghost predicate Leaves(db: Db, after: Db, request: Request, now: int) {
    match request
    case CreateAs(principal, spec) =>
      var name := spec.name;
      var query := if name in db.queries then db.queries[name].(name := name, updatedAt := now)
                   else Query(name, spec.start, now, now);
      var config := Config(name, spec.filter, spec.start, spec.bufferLimit, 30000);
      var row := if name in db.subscriptions
                 then db.subscriptions[name].(principal := Some(principal), trusted := false, config := config, updatedAt := now)
                 else Subscription(Some(principal), false, config, spec.start, now, now);
      after == Db(db.specs[name := spec], db.queries[name := query], db.subscriptions[name := row])
    case Ack(name, token) =>
      && name in db.queries
      && after == if db.queries[name].lastAck == token then db
                  else db.(queries := db.queries[name := db.queries[name].(lastAck := token, updatedAt := now)])
    case JointAck(_, name, token) =>
      && name in db.queries && name in db.subscriptions
      && after == if db.queries[name].lastAck == token == db.subscriptions[name].lastAck then db
                  else db.(queries := db.queries[name := db.queries[name].(lastAck := token, updatedAt := now)],
                           subscriptions := db.subscriptions[name := db.subscriptions[name].(lastAck := token, updatedAt := now)])
  }

  /** An accepted operation leaves exactly that and answers with the query row it left; a refused
  one leaves everything as it was. */
  lemma OperationLeaves(policy: Policy, db: Db, request: Request, now: int)
    ensures var (after, answer) := Atomic(policy, db, request, now);
            if answer.Accepted? then
              Leaves(db, after, request, now) && request.Name() in after.queries && answer.state == after.queries[request.Name()]
            else after == db
  {
    hide PutAll;
    var name := request.Name();
    var decision := Decide(policy, request, Find(db.queries, name), Find(db.subscriptions, name), now);
    if decision.Propose? {
      PutShort(db, decision.batch.writes);
    }
  }

  /** What the rows under a request's name must be for it to be accepted. */
  ghost predicate Permitted(policy: Policy, db: Db, request: Request) {
    policy.commitLog &&
    match request
    case CreateAs(principal, spec) =>
      && policy.mayRead(principal, spec.filter) && WellNamed(spec.name)
      && (exists i :: 0 <= i < |spec.sql| && !Text.Space(spec.sql[i]))
      && (spec.name in db.subscriptions ==> OwnedBy(db.subscriptions[spec.name], principal))
    case Ack(name, token) =>
      name in db.queries && !Behind(token, db.queries[name].lastAck)
    case JointAck(caller, name, token) =>
      && name in db.queries && name in db.subscriptions
      && (caller.Some? ==>
            && OwnedBy(db.subscriptions[name], caller.value)
            && policy.mayRead(caller.value, db.subscriptions[name].config.filter))
      && !Behind(token, db.queries[name].lastAck) && !Behind(token, db.subscriptions[name].lastAck)
  }

  lemma AcceptedExactly(policy: Policy, db: Db, request: Request, now: int)
    ensures Atomic(policy, db, request, now).1.Accepted? <==> Permitted(policy, db, request)
  {
    hide Atomic, WellNamed, Text.Space;
    match request {
      case CreateAs(principal, spec) => CreateAnswer(policy, db, principal, spec, now);
      case Ack(name, token) => AckAnswer(policy, db, name, token, now);
      case JointAck(caller, name, token) => JointAckAnswer(policy, db, caller, name, token, now);
    }
  }

  /** In every interleaved run, with any other writers in between: a client commits only what the
  rows at that instant permit, leaves exactly what its operation leaves on them, and is answered
  with the query row it left. */
  lemma {:induction false} CommitsArePermitted(policy: Policy, sys: System, steps: seq<Step>, step: Step)
    requires Sound(policy, sys) && step.Advance?
    requires Commit(Run(policy, sys, steps), step) != []
    ensures var before, after := Run(policy, sys, steps), Next(policy, Run(policy, sys, steps), step);
            step.client < |before.clients| == |after.clients| && before.clients[step.client].Proposing? &&
            var client := before.clients[step.client];
            && Permitted(policy, before.db, client.request)
            && Leaves(before.db, after.db, client.request, client.now)
            && client.request.Name() in after.db.queries
            && after.clients[step.client]
               == Done(client.request, Accepted(after.db.queries[client.request.Name()]))
  {
    hide Run, Permitted, Leaves, Atomic, PutAll, Holds;
    RunsRefineAtomic(policy, sys, steps);
    var before := Run(policy, sys, steps);
    var client := before.clients[step.client];
    ConditionsPinTheRows(policy, before.db, client);
    AcceptedExactly(policy, before.db, client.request, client.now);
    OperationLeaves(policy, before.db, client.request, client.now);
  }
}
