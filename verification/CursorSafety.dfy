/** What no run of the continuous-query operations can break. */
module CursorSafety {
  import opened Bytes
  import Text
  import opened Cursors

  function OwnerName(row: Subscription): Option<string> {
    if row.principal.Some? then Some(row.principal.value.name) else None
  }

  /** Rows stay, and keep their creation time and their owner's name. */
  ghost predicate Lasting(before: Db, after: Db) {
    && (forall name :: name in before.queries ==>
          name in after.queries && after.queries[name].createdAt == before.queries[name].createdAt)
    && (forall name :: name in before.subscriptions ==>
          && name in after.subscriptions
          && after.subscriptions[name].createdAt == before.subscriptions[name].createdAt
          && OwnerName(after.subscriptions[name]) == OwnerName(before.subscriptions[name]))
  }

  /** No cursor goes down on its own timeline. */
  ghost predicate Forward(before: Db, after: Db) {
    && (forall name :: name in before.queries && name in after.queries ==>
          AckAllowed(before.queries[name].lastAck, after.queries[name].lastAck))
    && (forall name :: name in before.subscriptions && name in after.subscriptions ==>
          AckAllowed(before.subscriptions[name].lastAck, after.subscriptions[name].lastAck))
  }

  /** A query row is there exactly when its subscription row is. */
  ghost predicate Paired(db: Db) {
    forall name :: name in db.queries <==> name in db.subscriptions
  }

  /** The two cursors of a name are the same. */
  ghost predicate Joined(db: Db) {
    && Paired(db)
    && forall name :: name in db.queries && name in db.subscriptions ==>
         db.queries[name].lastAck == db.subscriptions[name].lastAck
  }

  /** The tokens in use under each name. */
  type Tokens = string -> iset<Token>

  ghost predicate CursorsIn(db: Db, tokens: Tokens) {
    && (forall name :: name in db.queries ==> db.queries[name].lastAck in tokens(name))
    && (forall name :: name in db.subscriptions ==> db.subscriptions[name].lastAck in tokens(name))
  }

  /** The rows an atomic operation leaves, spelled out. */
  lemma AtomicRows(policy: Policy, db: Db, request: Request, now: int)
    returns (query: Option<Query>, row: Option<Subscription>)
    ensures var after := Atomic(policy, db, request, now).0;
            && after.queries == (if query.Some? then db.queries[request.Name() := query.value] else db.queries)
            && after.subscriptions ==
               (if row.Some? then db.subscriptions[request.Name() := row.value] else db.subscriptions)
    ensures var q, s := Find(db.queries, request.Name()), Find(db.subscriptions, request.Name());
            && (row.Some? ==> query.Some?)
            && (query.Some? && q.Some? ==>
                  query.value.createdAt == q.value.createdAt && AckAllowed(q.value.lastAck, query.value.lastAck))
            && (row.Some? && s.Some? ==>
                  && row.value.createdAt == s.value.createdAt && OwnerName(row.value) == OwnerName(s.value)
                  && AckAllowed(s.value.lastAck, row.value.lastAck))
            && (query.Some? && (q.None? || query.value.lastAck != q.value.lastAck) ==> query.value.lastAck == request.Cursor())
            && (row.Some? && (s.None? || row.value.lastAck != s.value.lastAck) ==> row.value.lastAck == request.Cursor())
            && (query.Some? && request.CreateAs? ==> row.Some?)
            && (query.Some? && !request.CreateAs? ==> q.Some? && query.value.lastAck == request.token)
            && (query.Some? && request.JointAck? ==> row.Some? && s.Some? && row.value.lastAck == request.token)
            && (request.Ack? ==> row.None?)
            && (request.CreateAs? && query.Some? && q.Some? ==> query.value.lastAck == q.value.lastAck)
            && (request.CreateAs? && row.Some? && s.Some? ==> row.value.lastAck == s.value.lastAck)
  {
    hide PutAll;
    query, row := None, None;
    var q, s := Find(db.queries, request.Name()), Find(db.subscriptions, request.Name());
    if Admit(policy, request).None? {
      var decision := Decide(policy, request, q, s, now);
      if decision.Propose? {
        var writes := decision.batch.writes;
        PutShort(db, writes);
        match request {
          case CreateAs(_, _) => query, row := Some(writes[1].query), Some(writes[2].row);
          case Ack(_, _) => query := Some(writes[0].query);
          case JointAck(_, _, _) => query, row := Some(writes[0].query), Some(writes[1].row);
        }
      }
    }
  }

  lemma AtomicIsSafe(policy: Policy, db: Db, request: Request, now: int)
    ensures Lasting(db, Atomic(policy, db, request, now).0)
    ensures Forward(db, Atomic(policy, db, request, now).0)
    ensures Paired(db) ==> Paired(Atomic(policy, db, request, now).0)
    ensures Joined(db) && !request.Ack? ==> Joined(Atomic(policy, db, request, now).0)
  {
    hide Atomic;
    var _, _ := AtomicRows(policy, db, request, now);
  }

  /** What an accepted operation leaves under its name; other names and tables are untouched. */
  lemma AcceptedLeaves(policy: Policy, db: Db, request: Request, now: int)
    requires Atomic(policy, db, request, now).1.Accepted?
    ensures var name, after := request.Name(), Atomic(policy, db, request, now).0;
            && name in after.queries
            && Atomic(policy, db, request, now).1.state == after.queries[name]
            && (after.queries == db.queries || after.queries[name].updatedAt == now)
            && (request.CreateAs? ==>
                  && after.specs == db.specs[name := request.spec] && name in after.subscriptions
                  && after.subscriptions[name].principal == Some(request.principal)
                  && after.subscriptions[name].config
                     == Config(name, request.spec.filter, request.spec.start, request.spec.bufferLimit, 30000)
                  && !after.subscriptions[name].trusted && after.subscriptions[name].updatedAt == now)
            && (!request.CreateAs? ==> after.specs == db.specs && after.queries[name].lastAck == request.token)
            && (request.Ack? ==> after.subscriptions == db.subscriptions)
            && (request.JointAck? ==>
                  && name in after.subscriptions && name in db.subscriptions
                  && after.subscriptions[name].lastAck == request.token
                  && after.subscriptions[name].config == db.subscriptions[name].config
                  && after.subscriptions[name].principal == db.subscriptions[name].principal)
            && (forall other :: other != name ==>
                  && Find(after.queries, other) == Find(db.queries, other)
                  && Find(after.subscriptions, other) == Find(db.subscriptions, other))
  {
    hide PutAll;
    var name := request.Name();
    var decision := Decide(policy, request, Find(db.queries, name), Find(db.subscriptions, name), now);
    if decision.Propose? {
      PutShort(db, decision.batch.writes);
    }
  }

  lemma AtomicTokens(policy: Policy, db: Db, request: Request, now: int, tokens: Tokens)
    requires CursorsIn(db, tokens) && request.Cursor() in tokens(request.Name())
    ensures CursorsIn(Atomic(policy, db, request, now).0, tokens)
  {
    hide Atomic;
    var _, _ := AtomicRows(policy, db, request, now);
  }

  /** The only operations of a run are the ones modelled here. */
  predicate Only(events: seq<Event>) {
    forall i :: 0 <= i < |events| ==> events[i].Operation?
  }

  predicate NoSingleAck(events: seq<Event>) {
    forall i :: 0 <= i < |events| ==> events[i].Operation? && !events[i].request.Ack?
  }

  /**
    Over every run: rows never disappear and never change owner or creation time, the two
    rows of a name come and stay together, and as long as nobody acknowledges the query row
    alone the two cursors agree.
  */
  lemma {:induction false} RunsAreSafe(policy: Policy, db: Db, events: seq<Event>)
    requires Only(events)
    ensures Lasting(db, Replay(policy, db, events))
    ensures Paired(db) ==> Paired(Replay(policy, db, events))
    ensures Joined(db) && NoSingleAck(events) ==> Joined(Replay(policy, db, events))
  {
    hide Atomic;
    if events != [] {
      var n := |events| - 1;
      RunsAreSafe(policy, db, events[..n]);
      AtomicIsSafe(policy, Replay(policy, db, events[..n]), events[n].request, events[n].now);
    }
  }

  /** The steps of a run that no other writer disturbs commit only modelled operations. */
  predicate Undisturbed(steps: seq<Step>) {
    forall i :: 0 <= i < |steps| ==> steps[i].Advance?
  }

  lemma {:induction false} UndisturbedCommits(policy: Policy, sys: System, steps: seq<Step>)
    requires Undisturbed(steps)
    ensures Only(Commits(policy, sys, steps))
  {
    if steps != [] {
      UndisturbedCommits(policy, sys, steps[..|steps| - 1]);
    }
  }

  /** The same safety, for every interleaving of every number of clients. */
  lemma InterleavedRunsAreSafe(policy: Policy, sys: System, steps: seq<Step>)
    requires Sound(policy, sys) && Undisturbed(steps)
    ensures Lasting(sys.db, Run(policy, sys, steps).db)
    ensures Paired(sys.db) ==> Paired(Run(policy, sys, steps).db)
    ensures Joined(sys.db) && NoSingleAck(Commits(policy, sys, steps)) ==> Joined(Run(policy, sys, steps).db)
  {
    RunsRefineAtomic(policy, sys, steps);
    UndisturbedCommits(policy, sys, steps);
    RunsAreSafe(policy, sys.db, Commits(policy, sys, steps));
  }

  /**
    A commit is authorized against the rows in the store at the instant of the commit, not
    against the ones read earlier, even while other writers change rows in between.
  */
  lemma CommitsAreAuthorized(policy: Policy, sys: System, step: Step)
    requires Sound(policy, sys) && step.Advance? && Commit(sys, step) != []
    ensures var request := Commit(sys, step)[0].request;
            && (request.CreateAs? ==>
                  && policy.mayRead(request.principal, request.spec.filter)
                  && (request.Name() in sys.db.subscriptions ==>
                        Owns(sys.db.subscriptions[request.Name()], request.principal)))
            && (request.JointAck? ==>
                  && request.Name() in sys.db.queries && request.Name() in sys.db.subscriptions
                  && CallerMayAck(policy, request.caller, sys.db.subscriptions[request.Name()])
                  && AckAllowed(sys.db.queries[request.Name()].lastAck, request.token)
                  && AckAllowed(sys.db.subscriptions[request.Name()].lastAck, request.token))
  {
    hide PutAll, Holds;
    ConditionsPinTheRows(policy, sys.db, sys.clients[step.client]);
  }

  // ---------------------------------------------------------------------------------------
  // When cursors only advance
  // ---------------------------------------------------------------------------------------

  /** Two tokens on one timeline at different LSNs, and a token on another timeline. */
  ghost predicate Crossing(tokens: iset<Token>) {
    exists low, high, aside :: Crosses(tokens, low, high, aside)
  }

  ghost predicate Crosses(tokens: iset<Token>, low: Token, high: Token, aside: Token) {
    && low in tokens && high in tokens && aside in tokens
    && low.timeline == high.timeline && low.lsn < high.lsn && aside.timeline != low.timeline
  }

  ghost predicate NoCrossing(tokens: Tokens) {
    forall name :: !Crossing(tokens(name))
  }

  /** The cursors in the store and the requests of the clients use the tokens of their names. */
  ghost predicate Within(sys: System, tokens: Tokens) {
    && CursorsIn(sys.db, tokens)
    && forall i :: 0 <= i < |sys.clients| ==>
         sys.clients[i].request.Cursor() in tokens(sys.clients[i].request.Name())
  }

  /** In no interleaving of clients, from whatever store, over these tokens is a cursor ever lower
      than it once was on its timeline. */
  ghost predicate NeverMovesBack(policy: Policy, tokens: Tokens) {
    forall sys: System, steps: seq<Step>, i: nat, j: nat ::
      Sound(policy, sys) && Within(sys, tokens) && Undisturbed(steps) && i <= j <= |steps| ==>
      Forward(Run(policy, sys, steps[..i]).db, Run(policy, sys, steps[..j]).db)
  }

  lemma AdvanceJoins(tokens: iset<Token>, a: Token, b: Token, c: Token)
    requires !Crossing(tokens) && a in tokens && b in tokens && c in tokens
    requires AckAllowed(a, b) && AckAllowed(b, c)
    ensures AckAllowed(a, c)
  {
    assert !Crosses(tokens, c, a, b);
  }

  lemma ForwardJoins(tokens: Tokens, a: Db, b: Db, c: Db)
    requires NoCrossing(tokens) && CursorsIn(a, tokens) && CursorsIn(b, tokens) && CursorsIn(c, tokens)
    requires Forward(a, b) && Forward(b, c) && Lasting(a, b)
    ensures Forward(a, c)
  {
    hide AckAllowed, Crossing;
    forall name | name in a.queries && name in c.queries
      ensures AckAllowed(a.queries[name].lastAck, c.queries[name].lastAck)
    {
      AdvanceJoins(tokens(name), a.queries[name].lastAck, b.queries[name].lastAck, c.queries[name].lastAck);
    }
    forall name | name in a.subscriptions && name in c.subscriptions
      ensures AckAllowed(a.subscriptions[name].lastAck, c.subscriptions[name].lastAck)
    {
      AdvanceJoins(tokens(name), a.subscriptions[name].lastAck, b.subscriptions[name].lastAck, c.subscriptions[name].lastAck);
    }
  }

  lemma StepKeepsRequests(policy: Policy, sys: System, step: Step)
    ensures |Next(policy, sys, step).clients| == |sys.clients|
    ensures forall i :: 0 <= i < |sys.clients| ==> Next(policy, sys, step).clients[i].request == sys.clients[i].request
  {
    hide Decide, DecideAck, PutAll, Holds, Admit;
  }

  /** One step of a client moves no cursor back and stays within the tokens. */
  lemma StepIsForward(policy: Policy, sys: System, step: Step, tokens: Tokens)
    requires Sound(policy, sys) && Within(sys, tokens) && step.Advance?
    ensures var after := Next(policy, sys, step);
            && Sound(policy, after) && Within(after, tokens)
            && Forward(sys.db, after.db) && Lasting(sys.db, after.db)
  {
    hide Next, Atomic, AckAllowed;
    StepRefinesAtomic(policy, sys, step);
    StepKeepsRequests(policy, sys, step);
    var events := Commit(sys, step);
    if events != [] {
      assert events[..0] == [];
      assert Replay(policy, sys.db, events[..0]) == sys.db;
      AtomicIsSafe(policy, sys.db, events[0].request, events[0].now);
      AtomicTokens(policy, sys.db, events[0].request, events[0].now, tokens);
    } else {
      SameIsForward(sys.db);
    }
  }

  lemma SameIsForward(db: Db)
    ensures Forward(db, db) && Lasting(db, db)
  {
  }

  lemma {:induction false} RunsStayWithin(policy: Policy, sys: System, steps: seq<Step>, tokens: Tokens)
    requires Sound(policy, sys) && Within(sys, tokens) && Undisturbed(steps)
    ensures Sound(policy, Run(policy, sys, steps)) && Within(Run(policy, sys, steps), tokens)
  {
    hide Next, Sound, Within;
    if steps != [] {
      var n := |steps| - 1;
      RunsStayWithin(policy, sys, steps[..n], tokens);
      StepIsForward(policy, Run(policy, sys, steps[..n]), steps[n], tokens);
    }
  }

  /** Without crossing, every cursor of every interleaving only advances. */
  lemma {:induction false} RunsAreForward(policy: Policy, sys: System, steps: seq<Step>, tokens: Tokens, i: nat, j: nat)
    requires Sound(policy, sys) && Within(sys, tokens) && Undisturbed(steps) && NoCrossing(tokens) && i <= j <= |steps|
    ensures Forward(Run(policy, sys, steps[..i]).db, Run(policy, sys, steps[..j]).db)
    ensures Lasting(Run(policy, sys, steps[..i]).db, Run(policy, sys, steps[..j]).db)
    decreases j
  {
    hide Next, Sound, NoCrossing, Forward, Lasting, CursorsIn;
    var first := Run(policy, sys, steps[..i]);
    if i == j {
      SameIsForward(first.db);
    } else {
      var n := j - 1;
      assert steps[..j][..n] == steps[..n];
      RunsAreForward(policy, sys, steps, tokens, i, n);
      RunsStayWithin(policy, sys, steps[..i], tokens);
      RunsStayWithin(policy, sys, steps[..n], tokens);
      var before := Run(policy, sys, steps[..n]);
      StepIsForward(policy, before, steps[n], tokens);
      var after := Next(policy, before, steps[n]);
      ForwardJoins(tokens, first.db, before.db, after.db);
      LastingJoins(first.db, before.db, after.db);
    }
  }

  lemma LastingJoins(a: Db, b: Db, c: Db)
    requires Lasting(a, b) && Lasting(b, c)
    ensures Lasting(a, c)
  {
  }

  /**
    The per-acknowledgement check does not compose across timelines: a cursor at the higher
    token may step aside to another timeline and come back lower.
  */
  lemma CursorCanMoveBack(policy: Policy, p: Principal, filter: Filter, low: Token, high: Token, aside: Token)
    returns (events: seq<Event>)
    requires policy.commitLog && policy.mayRead(p, filter)
    requires low.timeline == high.timeline && low.lsn < high.lsn && aside.timeline != low.timeline
    ensures |events| == 3 && Only(events)
    ensures forall i :: 0 <= i < 3 ==> events[i].request.Name() == "q" && events[i].request.Cursor() in {low, high, aside}
    ensures !Forward(Replay(policy, EMPTY, events[..1]), Replay(policy, EMPTY, events))
  {
    hide Atomic;
    var name := "q";
    var create := CreateAs(p, Spec(name, "x", filter, high, 0));
    events := [Operation(create, 0), Operation(Ack(name, aside), 1), Operation(Ack(name, low), 2)];
    assert !Text.Space("x"[0]);
    assert Replay(policy, EMPTY, []) == EMPTY;
    assert events[..1][..0] == [] && events[..2][..1] == events[..1] && events[..2] == events[..|events| - 1];
    var created := Replay(policy, EMPTY, events[..1]);
    assert created == Atomic(policy, EMPTY, create, 0).0;
    AtomicCreates(policy, p, create.spec);
    var moved := Replay(policy, EMPTY, events[..2]);
    assert moved == Atomic(policy, created, Ack(name, aside), 1).0;
    AtomicAcks(policy, created, name, aside, 1);
    AtomicAcks(policy, moved, name, low, 2);
  }

  lemma AtomicCreates(policy: Policy, p: Principal, spec: Spec)
    requires policy.commitLog && policy.mayRead(p, spec.filter) && Text.Identifier(spec.name) && !Text.Blank(spec.sql)
    ensures var after := Atomic(policy, EMPTY, CreateAs(p, spec), 0).0;
            spec.name in after.queries && after.queries[spec.name].lastAck == spec.start
  {
    hide PutAll;
    PutShort(EMPTY, DecideCreate(CreateAs(p, spec), None, None, 0).batch.writes);
  }

  lemma AtomicAcks(policy: Policy, db: Db, name: string, token: Token, now: int)
    requires policy.commitLog && name in db.queries && AckAllowed(db.queries[name].lastAck, token)
    ensures var after := Atomic(policy, db, Ack(name, token), now).0;
            name in after.queries && after.queries[name].lastAck == token
  {
    hide PutAll;
    var decision := DecideAck(Ack(name, token), Some(db.queries[name]), now);
    if decision.Propose? {
      PutShort(db, decision.batch.writes);
    }
  }

  /** Over crossing tokens two clients, one after the other, move a cursor back. */
  lemma ClientsMoveCursorBack(policy: Policy, name: string, low: Token, high: Token, aside: Token)
    returns (sys: System, steps: seq<Step>)
    requires policy.commitLog
    requires low.timeline == high.timeline && low.lsn < high.lsn && aside.timeline != low.timeline
    ensures Sound(policy, sys) && Undisturbed(steps) && sys.db.subscriptions == map[]
    ensures sys.db.queries.Keys == {name} && sys.db.queries[name].lastAck == high
    ensures sys.clients == [Started(Ack(name, aside)), Started(Ack(name, low))]
    ensures !Forward(sys.db, Run(policy, sys, steps).db)
  {
    hide Atomic, ClientStep;
    var db := Db(map[], map[name := Query(name, high, 0, 0)], map[]);
    var events := [Operation(Ack(name, aside), 1), Operation(Ack(name, low), 2)];
    sys, steps := System(db, Waiting(events)), OneByOne(events);
    OneByOneAdvances(events);
    assert events[..2] == events && events[..2][..1] == events[..1] && events[..1][..0] == [];
    EveryAtomicRunHappens(policy, db, events, 2);
    assert Replay(policy, db, []) == db;
    var moved := Replay(policy, db, events[..1]);
    assert moved == Atomic(policy, db, Ack(name, aside), 1).0;
    AtomicAcks(policy, db, name, aside, 1);
    AtomicAcks(policy, moved, name, low, 2);
  }

  lemma {:induction false} OneByOneAdvances(events: seq<Event>)
    requires Only(events)
    ensures Undisturbed(OneByOne(events))
  {
    if events != [] {
      OneByOneAdvances(events[..|events| - 1]);
    }
  }

  /**
    Cursors only advance, over every interleaving of clients from every store, exactly when
    the tokens of no name cross: under each name they all lie on one timeline, or no timeline
    has two of them at different LSNs.
  */
  lemma CursorsOnlyAdvance(policy: Policy, tokens: Tokens)
    requires policy.commitLog
    ensures NeverMovesBack(policy, tokens) <==> NoCrossing(tokens)
  {
    hide Sound, Forward, Run;
    if NoCrossing(tokens) {
      hide NoCrossing, Within, Undisturbed;
      forall sys: System, steps: seq<Step>, i: nat, j: nat
        | Sound(policy, sys) && Within(sys, tokens) && Undisturbed(steps) && i <= j <= |steps|
        ensures Forward(Run(policy, sys, steps[..i]).db, Run(policy, sys, steps[..j]).db)
      {
        RunsAreForward(policy, sys, steps, tokens, i, j);
      }
    } else {
      var name :| Crossing(tokens(name));
      var low, high, aside :| Crosses(tokens(name), low, high, aside);
      var sys, steps := ClientsMoveCursorBack(policy, name, low, high, aside);
      assert Within(sys, tokens);
      RunNone(policy, sys, steps);
      assert steps[..|steps|] == steps;
      assert !Forward(Run(policy, sys, steps[..0]).db, Run(policy, sys, steps[..|steps|]).db);
    }
  }

  lemma RunNone(policy: Policy, sys: System, steps: seq<Step>)
    ensures Run(policy, sys, steps[..0]) == sys
  {
  }

  // ---------------------------------------------------------------------------------------
  // A joint acknowledgement that writes nothing
  // ---------------------------------------------------------------------------------------

  predicate QueryAt(db: Db, name: string, token: Token) {
    name in db.queries && db.queries[name].lastAck == token
  }

  predicate RowAt(db: Db, name: string, token: Token) {
    name in db.subscriptions && db.subscriptions[name].lastAck == token
  }

  /** A step that brings a subscription cursor to a token brings its query cursor there too. */
  lemma RowMovesWithQuery(policy: Policy, db: Db, request: Request, now: int, name: string, token: Token)
    requires Paired(db) && !RowAt(db, name, token)
    ensures var after := Atomic(policy, db, request, now).0;
            RowAt(after, name, token) ==> QueryAt(after, name, token)
  {
    hide Atomic;
    var _, _ := AtomicRows(policy, db, request, now);
  }

  /** Two cursors seen at a token one after the other were both there at one moment in between. */
  lemma {:induction false} BothAtOnce(policy: Policy, sys: System, steps: seq<Step>, i: nat, j: nat, name: string, token: Token)
    returns (k: nat)
    requires Sound(policy, sys) && Undisturbed(steps) && Paired(sys.db) && i <= j <= |steps|
    requires QueryAt(Run(policy, sys, steps[..i]).db, name, token)
    requires RowAt(Run(policy, sys, steps[..j]).db, name, token)
    ensures i <= k <= j
    ensures QueryAt(Run(policy, sys, steps[..k]).db, name, token) && RowAt(Run(policy, sys, steps[..k]).db, name, token)
    decreases j
  {
    hide Next, Commit, Atomic, QueryAt, RowAt;
    if i == j {
      k := i;
    } else {
      var n := j - 1;
      assert steps[..j][..n] == steps[..n];
      var before := Run(policy, sys, steps[..n]);
      if RowAt(before.db, name, token) {
        k := BothAtOnce(policy, sys, steps, i, n, name, token);
      } else {
        k := j;
        RunsRefineAtomic(policy, sys, steps[..n]);
        InterleavedRunsAreSafe(policy, sys, steps[..n]);
        StepMovesRow(policy, before, steps[n], name, token);
      }
    }
  }

  lemma StepMovesRow(policy: Policy, sys: System, step: Step, name: string, token: Token)
    requires Sound(policy, sys) && Paired(sys.db) && step.Advance? && !RowAt(sys.db, name, token)
    requires RowAt(Next(policy, sys, step).db, name, token)
    ensures QueryAt(Next(policy, sys, step).db, name, token)
  {
    hide Next, Atomic, RowAt, QueryAt;
    StepRefinesAtomic(policy, sys, step);
    var events := Commit(sys, step);
    if events != [] {
      assert events[..0] == [];
      assert Replay(policy, sys.db, events[..0]) == sys.db;
      RowMovesWithQuery(policy, sys.db, events[0].request, events[0].now, name, token);
    }
  }

  lemma {:induction false} RunKeepsCount(policy: Policy, sys: System, steps: seq<Step>)
    ensures |Run(policy, sys, steps).clients| == |sys.clients|
  {
    hide ClientStep;
    if steps != [] {
      RunKeepsCount(policy, sys, steps[..|steps| - 1]);
    }
  }

  /** Where a client is after these steps. */
  ghost function ClientAfter(policy: Policy, sys: System, steps: seq<Step>, c: nat): Client
    requires c < |sys.clients|
  {
    RunKeepsCount(policy, sys, steps);
    Run(policy, sys, steps).clients[c]
  }

  lemma {:induction false} ClientWaits(policy: Policy, sys: System, steps: seq<Step>, c: nat, i: nat, j: nat)
    requires i <= j <= |steps| && c < |sys.clients| && Undisturbed(steps)
    requires forall k :: i <= k < j ==> steps[k].client != c
    ensures ClientAfter(policy, sys, steps[..j], c) == ClientAfter(policy, sys, steps[..i], c)
    decreases j
  {
    hide ClientStep;
    if i < j {
      assert steps[..j][..j - 1] == steps[..j - 1];
      RunKeepsCount(policy, sys, steps[..j - 1]);
      ClientWaits(policy, sys, steps, c, i, j - 1);
      assert steps[j - 1].client != c;
    }
  }

  /** A client that has not begun takes its first step at time i and its second at time j. */
  ghost predicate StepsAt(policy: Policy, sys: System, steps: seq<Step>, c: nat, i: nat, j: nat) {
    && Undisturbed(steps) && c < |sys.clients| && i < j < |steps|
    && steps[i].client == c && steps[j].client == c && (forall m :: i < m < j ==> steps[m].client != c)
    && var client := ClientAfter(policy, sys, steps[..i], c);
       client.Started? && Admit(policy, client.request).None?
  }

  /** What a client that reads both rows has seen: the query row at its first step, the
      subscription row at its second. */
  lemma TwoReads(policy: Policy, sys: System, steps: seq<Step>, c: nat, i: nat, j: nat)
    requires StepsAt(policy, sys, steps, c, i, j) && !ClientAfter(policy, sys, steps[..i], c).request.Ack?
    ensures var request := ClientAfter(policy, sys, steps[..i], c).request;
            ClientAfter(policy, sys, steps[..j + 1], c) ==
              SawBoth(request, Find(Run(policy, sys, steps[..i]).db.queries, request.Name()),
                      Find(Run(policy, sys, steps[..j]).db.subscriptions, request.Name()))
  {
    hide PutAll, Holds, Decide, Admit;
    RunKeepsCount(policy, sys, steps[..i]);
    RunKeepsCount(policy, sys, steps[..j]);
    assert steps[..i + 1][..i] == steps[..i] && steps[..j + 1][..j] == steps[..j];
    ClientWaits(policy, sys, steps, c, i + 1, j);
  }

  /**
    A joint acknowledgement reads the two rows at different times.  When it is accepted
    without writing, there was still one moment between its two reads at which both durable
    cursors stood at the token.
  */
  lemma AcceptedWithoutWriting(policy: Policy, sys: System, steps: seq<Step>, c: nat, i: nat, j: nat, now: int)
    returns (k: nat)
    requires Sound(policy, sys) && Paired(sys.db) && StepsAt(policy, sys, steps, c, i, j)
    requires ClientAfter(policy, sys, steps[..i], c).request.JointAck?
    requires var client := ClientAfter(policy, sys, steps[..j + 1], c);
             client.SawBoth? && Decide(policy, client.request, client.query, client.row, now).Keep?
    ensures i <= k <= j
    ensures var request := ClientAfter(policy, sys, steps[..i], c).request;
            var db := Run(policy, sys, steps[..k]).db;
            QueryAt(db, request.query, request.token) && RowAt(db, request.query, request.token)
  {
    hide PutAll, Holds, Commit, Next, Run, QueryAt, RowAt, Admit, ClientAfter;
    var request := ClientAfter(policy, sys, steps[..i], c).request;
    TwoReads(policy, sys, steps, c, i, j);
    KeepSeesTokens(policy, request, Run(policy, sys, steps[..i]).db, Run(policy, sys, steps[..j]).db, now);
    k := BothAtOnce(policy, sys, steps, i, j, request.query, request.token);
  }

  lemma KeepSeesTokens(policy: Policy, request: Request, first: Db, second: Db, now: int)
    requires request.JointAck?
    requires Decide(policy, request, Find(first.queries, request.query), Find(second.subscriptions, request.query), now).Keep?
    ensures QueryAt(first, request.query, request.token) && RowAt(second, request.query, request.token)
  {
  }

  // ---------------------------------------------------------------------------------------
  // Refusals
  // ---------------------------------------------------------------------------------------

  /** The atomic operation refuses too: with the same error, or, where a cursor would have moved
      back, because the caller might not read what the subscription was then about. */
  ghost predicate RefusesLike(policy: Policy, db: Db, request: Request, now: int, error: Error) {
    var outcome := Atomic(policy, db, request, now).1;
    && outcome.Refused?
    && (outcome.error == error || (request.JointAck? && error == MovesBack && outcome.error == Denied))
  }

  /** A refusal decided from the query row at one time and the subscription row at a later one. */
  lemma RefusalHasAMoment(policy: Policy, first: Db, second: Db, request: Request, now: int, error: Error)
    requires Admit(policy, request).None? && !request.Ack? && Paired(first) && Lasting(first, second)
    requires Decide(policy, request, Find(first.queries, request.Name()), Find(second.subscriptions, request.Name()), now)
             == Refuse(error)
    ensures RefusesLike(policy, first, request, now, error) || RefusesLike(policy, second, request, now, error)
  {
    hide PutAll, AckAllowed;
  }

  /** From one moment of a run to a later one: rows stay, and pairs stay pairs. */
  lemma LaterIsSafe(policy: Policy, sys: System, steps: seq<Step>, i: nat, j: nat)
    requires Sound(policy, sys) && Undisturbed(steps) && Paired(sys.db) && i <= j <= |steps|
    ensures Paired(Run(policy, sys, steps[..i]).db)
    ensures Lasting(Run(policy, sys, steps[..i]).db, Run(policy, sys, steps[..j]).db)
  {
    hide Run, Sound, Paired, Lasting, Commits;
    RunsRefineAtomic(policy, sys, steps[..i]);
    InterleavedRunsAreSafe(policy, sys, steps[..i]);
    assert steps[..j] == steps[..i] + steps[i..j];
    RunJoins(policy, sys, steps[..i], steps[i..j]);
    InterleavedRunsAreSafe(policy, Run(policy, sys, steps[..i]), steps[i..j]);
  }

  /**
    An operation that reads both rows at different times and refuses: at one of the two moments
    the whole operation, run atomically, would have refused too.
  */
  lemma RefusedAtOneMoment(
    policy: Policy, sys: System, steps: seq<Step>, c: nat, i: nat, j: nat, now: int, error: Error) returns (k: nat)
    requires Sound(policy, sys) && Paired(sys.db) && StepsAt(policy, sys, steps, c, i, j)
    requires !ClientAfter(policy, sys, steps[..i], c).request.Ack?
    requires var client := ClientAfter(policy, sys, steps[..j + 1], c);
             client.SawBoth? && Decide(policy, client.request, client.query, client.row, now) == Refuse(error)
    ensures k == i || k == j
    ensures RefusesLike(policy, Run(policy, sys, steps[..k]).db, ClientAfter(policy, sys, steps[..i], c).request, now, error)
  {
    hide PutAll, Run, Decide, RefusesLike, Admit, ClientAfter, Sound, Paired, Lasting;
    var request := ClientAfter(policy, sys, steps[..i], c).request;
    var first, second := Run(policy, sys, steps[..i]).db, Run(policy, sys, steps[..j]).db;
    TwoReads(policy, sys, steps, c, i, j);
    LaterIsSafe(policy, sys, steps, i, j);
    RefusalHasAMoment(policy, first, second, request, now, error);
    k := if RefusesLike(policy, first, request, now, error) then i else j;
  }

  /** An acknowledgement of the query row alone answers, unless it writes, as the atomic operation
      would have at the moment of its one read. */
  lemma SingleAckIsAtomic(policy: Policy, sys: System, steps: seq<Step>, c: nat, i: nat, j: nat)
    requires StepsAt(policy, sys, steps, c, i, j) && ClientAfter(policy, sys, steps[..i], c).request.Ack?
    ensures var request := ClientAfter(policy, sys, steps[..i], c).request;
            var client := ClientAfter(policy, sys, steps[..j + 1], c);
            client.Proposing? ||
            client == Done(request, Atomic(policy, Run(policy, sys, steps[..i]).db, request, steps[j].now).1)
  {
    hide PutAll, Holds, Admit;
    RunKeepsCount(policy, sys, steps[..i]);
    RunKeepsCount(policy, sys, steps[..j]);
    assert steps[..i + 1][..i] == steps[..i] && steps[..j + 1][..j] == steps[..j];
    ClientWaits(policy, sys, steps, c, i + 1, j);
  }
}
