/**
  Continuous queries: a query row and a subscription row per name, each with a durable
  cursor.  An operation reads the rows one at a time, decides, and commits on the condition
  that the rows it read are still there.  This module gives the operations as imperative
  code, as one atomic step, and as interleaved steps of any number of clients.
*/
module Cursors {
  import opened Bytes
  import Text

  type Filter = string

  const ACK_TIMEOUT_MS: nat := 30000

  datatype Token = Token(timeline: string, lsn: nat)
  datatype Principal = Principal(name: string, roles: set<string>)
  datatype Spec = Spec(name: string, sql: string, filter: Filter, start: Token, bufferLimit: nat)
  datatype Query = Query(name: string, lastAck: Token, createdAt: int, updatedAt: int)
  datatype Config = Config(name: string, filter: Filter, start: Token, bufferLimit: nat, ackTimeoutMs: nat)
  datatype Subscription = Subscription(
    principal: Option<Principal>, trusted: bool, config: Config, lastAck: Token, createdAt: int, updatedAt: int)

  /** The three tables the operations read and write. */
  datatype Db = Db(specs: map<string, Spec>, queries: map<string, Query>, subscriptions: map<string, Subscription>)

  const EMPTY := Db(map[], map[], map[])

  /** What the surroundings decide: whether there is a commit log, and who may read what. */
  datatype Policy = Policy(commitLog: bool, mayRead: (Principal, Filter) -> bool)

  datatype Error =
    | Unsupported | Denied | InvalidName | InvalidSql | PrincipalMismatch
    | MissingQuery | MissingSubscription | MovesBack | Conflict

  datatype Outcome = Accepted(state: Query) | Refused(error: Error)

  datatype Request =
    | CreateAs(principal: Principal, spec: Spec)
    | Ack(query: string, token: Token)
    | JointAck(caller: Option<Principal>, query: string, token: Token)
  {
    function Name(): string { if CreateAs? then spec.name else query }
    function Cursor(): Token { if CreateAs? then spec.start else token }
  }

  datatype Condition =
    | QueryIs(name: string, query: Option<Query>)
    | SubscriptionIs(name: string, subscription: Option<Subscription>)
  datatype Write = PutSpec(spec: Spec) | PutQuery(key: string, query: Query) | PutSubscription(key: string, row: Subscription)
  datatype Batch = Batch(conditions: seq<Condition>, writes: seq<Write>)

  datatype Decision = Refuse(error: Error) | Keep(state: Query) | Propose(batch: Batch, state: Query)

  function Find<V>(rows: map<string, V>, name: string): Option<V> {
    if name in rows then Some(rows[name]) else None
  }

  /** An acknowledgement may not lower the LSN on its own timeline. */
  predicate AckAllowed(previous: Token, token: Token) {
    !(previous.timeline == token.timeline && token.lsn < previous.lsn)
  }

  predicate Owns(row: Subscription, principal: Principal) {
    row.principal.Some? && row.principal.value.name == principal.name
  }

  predicate CallerMayAck(policy: Policy, caller: Option<Principal>, row: Subscription) {
    caller.Some? ==> Owns(row, caller.value) && policy.mayRead(caller.value, row.config.filter)
  }

  function ConfigOf(spec: Spec): Config {
    Config(spec.name, spec.filter, spec.start, spec.bufferLimit, ACK_TIMEOUT_MS)
  }

  /** The checks made before any row is read. */
  function Admit(policy: Policy, request: Request): Option<Error> {
    if !policy.commitLog then Some(Unsupported)
    else if !request.CreateAs? then None
    else if !policy.mayRead(request.principal, request.spec.filter) then Some(Denied)
    else if !Text.Identifier(request.spec.name) then Some(InvalidName)
    else if Text.Blank(request.spec.sql) then Some(InvalidSql)
    else None
  }

  /** A batch conditional on both rows. */
  function BothRows(name: string, query: Option<Query>, row: Option<Subscription>, writes: seq<Write>): Batch {
    Batch([QueryIs(name, query), SubscriptionIs(name, row)], writes)
  }

  function DecideCreate(request: Request, query: Option<Query>, row: Option<Subscription>, now: int): Decision
    requires request.CreateAs?
  {
    var spec := request.spec;
    if row.Some? && !Owns(row.value, request.principal) then Refuse(PrincipalMismatch) else
    var state := Query(spec.name,
      if query.Some? then query.value.lastAck else spec.start,
      if query.Some? then query.value.createdAt else now, now);
    var subscription := Subscription(Some(request.principal), false, ConfigOf(spec),
      if row.Some? then row.value.lastAck else spec.start,
      if row.Some? then row.value.createdAt else now, now);
    Propose(BothRows(spec.name, query, row,
      [PutSpec(spec), PutQuery(spec.name, state), PutSubscription(spec.name, subscription)]), state)
  }

  function DecideAck(request: Request, query: Option<Query>, now: int): Decision
    requires request.Ack?
  {
    if query.None? then Refuse(MissingQuery)
    else if !AckAllowed(query.value.lastAck, request.token) then Refuse(MovesBack)
    else if query.value.lastAck == request.token then Keep(query.value)
    else
      var state := query.value.(lastAck := request.token, updatedAt := now);
      Propose(Batch([QueryIs(request.query, query)], [PutQuery(request.query, state)]), state)
  }

  function DecideJointAck(policy: Policy, request: Request, query: Option<Query>, row: Option<Subscription>, now: int): Decision
    requires request.JointAck?
  {
    if query.None? then Refuse(MissingQuery)
    else if row.None? then Refuse(MissingSubscription)
    else if request.caller.Some? && !Owns(row.value, request.caller.value) then Refuse(PrincipalMismatch)
    else if !CallerMayAck(policy, request.caller, row.value) then Refuse(Denied)
    else if !AckAllowed(query.value.lastAck, request.token) then Refuse(MovesBack)
    else if !AckAllowed(row.value.lastAck, request.token) then Refuse(MovesBack)
    else if query.value.lastAck == request.token && row.value.lastAck == request.token then Keep(query.value)
    else
      var state := query.value.(lastAck := request.token, updatedAt := now);
      var subscription := row.value.(lastAck := request.token, updatedAt := now);
      Propose(BothRows(request.query, query, row,
        [PutQuery(request.query, state), PutSubscription(request.query, subscription)]), state)
  }

  /** What an operation does once it has the rows it reads. */
  function Decide(policy: Policy, request: Request, query: Option<Query>, row: Option<Subscription>, now: int): Decision {
    match request
    case CreateAs(_, _) => DecideCreate(request, query, row, now)
    case Ack(_, _) => DecideAck(request, query, now)
    case JointAck(_, _, _) => DecideJointAck(policy, request, query, row, now)
  }

  predicate Meets(db: Db, condition: Condition) {
    match condition
    case QueryIs(name, query) => Find(db.queries, name) == query
    case SubscriptionIs(name, row) => Find(db.subscriptions, name) == row
  }

  predicate Holds(db: Db, conditions: seq<Condition>) {
    forall i :: 0 <= i < |conditions| ==> Meets(db, conditions[i])
  }

  function Put(db: Db, write: Write): Db {
    match write
    case PutSpec(spec) => db.(specs := db.specs[spec.name := spec])
    case PutQuery(key, query) => db.(queries := db.queries[key := query])
    case PutSubscription(key, row) => db.(subscriptions := db.subscriptions[key := row])
  }

  function PutAll(db: Db, writes: seq<Write>): Db
    decreases |writes|
  {
    if writes == [] then db else PutAll(Put(db, writes[0]), writes[1..])
  }

  lemma PutShort(db: Db, writes: seq<Write>)
    requires 1 <= |writes| <= 3
    ensures |writes| == 1 ==> PutAll(db, writes) == Put(db, writes[0])
    ensures |writes| == 2 ==> PutAll(db, writes) == Put(Put(db, writes[0]), writes[1])
    ensures |writes| == 3 ==> PutAll(db, writes) == Put(Put(Put(db, writes[0]), writes[1]), writes[2])
    decreases |writes|
  {
    hide Put;
    if |writes| >= 2 {
      PutShort(Put(db, writes[0]), writes[1..]);
    }
  }

  /** The operation as one indivisible read, check and write. */
  function Atomic(policy: Policy, db: Db, request: Request, now: int): (Db, Outcome) {
    var admit := Admit(policy, request);
    if admit.Some? then (db, Refused(admit.value)) else
    match Decide(policy, request, Find(db.queries, request.Name()), Find(db.subscriptions, request.Name()), now)
    case Refuse(error) => (db, Refused(error))
    case Keep(state) => (db, Accepted(state))
    case Propose(batch, state) => (PutAll(db, batch.writes), Accepted(state))
  }

  // ---------------------------------------------------------------------------------------
  // The operations as code over a mutable store
  // ---------------------------------------------------------------------------------------

  class MetadataStore {
    var db: Db

    /** Commits all writes of the batch when every condition holds, and nothing otherwise. */
    method CommitConditional(batch: Batch) returns (ok: bool)
      modifies this
      ensures ok == Holds(old(db), batch.conditions)
      ensures db == if ok then PutAll(old(db), batch.writes) else old(db)
    {
      var i := 0;
      while i < |batch.conditions|
        invariant 0 <= i <= |batch.conditions|
        invariant Holds(db, batch.conditions[..i])
        invariant db == old(db)
      {
        if !Meets(db, batch.conditions[i]) {
          return false;
        }
        i := i + 1;
      }
      assert batch.conditions[..i] == batch.conditions;
      i := 0;
      while i < |batch.writes|
        invariant 0 <= i <= |batch.writes|
        invariant PutAll(db, batch.writes[i..]) == PutAll(old(db), batch.writes)
      {
        db := Put(db, batch.writes[i]);
        i := i + 1;
      }
      return true;
    }

    method CreateContinuousQueryAs(policy: Policy, principal: Principal, spec: Spec, now: int) returns (outcome: Outcome)
      modifies this
      ensures (db, outcome) == Atomic(policy, old(db), CreateAs(principal, spec), now)
    {
      if !policy.commitLog {
        return Refused(Unsupported);
      }
      if !policy.mayRead(principal, spec.filter) {
        return Refused(Denied);
      }
      if !Text.Identifier(spec.name) {
        return Refused(InvalidName);
      }
      if Text.Blank(spec.sql) {
        return Refused(InvalidSql);
      }
      var previousQuery := Find(db.queries, spec.name);
      var previousSubscription := Find(db.subscriptions, spec.name);
      if previousSubscription.Some? && !Owns(previousSubscription.value, principal) {
        return Refused(PrincipalMismatch);
      }
      var state := Query(spec.name, spec.start, now, now);
      if previousQuery.Some? {
        state := state.(lastAck := previousQuery.value.lastAck, createdAt := previousQuery.value.createdAt);
      }
      var subscription := Subscription(Some(principal), false, ConfigOf(spec), spec.start, now, now);
      if previousSubscription.Some? {
        subscription := subscription.(lastAck := previousSubscription.value.lastAck,
                                      createdAt := previousSubscription.value.createdAt);
      }
      outcome := Send(
        Batch([QueryIs(spec.name, previousQuery), SubscriptionIs(spec.name, previousSubscription)],
              [PutSpec(spec), PutQuery(spec.name, state), PutSubscription(spec.name, subscription)]), state);
    }

    /** Proposes a batch and answers with the new query state, or with a conflict. */
    method Send(batch: Batch, state: Query) returns (outcome: Outcome)
      modifies this
      ensures Holds(old(db), batch.conditions) ==> db == PutAll(old(db), batch.writes) && outcome == Accepted(state)
      ensures !Holds(old(db), batch.conditions) ==> db == old(db) && outcome == Refused(Conflict)
    {
      var ok := CommitConditional(batch);
      return if ok then Accepted(state) else Refused(Conflict);
    }

    method AckContinuousQuery(policy: Policy, name: string, token: Token, now: int) returns (outcome: Outcome)
      modifies this
      ensures (db, outcome) == Atomic(policy, old(db), Ack(name, token), now)
    {
      if !policy.commitLog {
        return Refused(Unsupported);
      }
      var expected := Find(db.queries, name);
      if expected.None? {
        return Refused(MissingQuery);
      }
      var state := expected.value;
      if !AckAllowed(state.lastAck, token) {
        return Refused(MovesBack);
      }
      if state.lastAck == token {
        return Accepted(state);
      }
      state := state.(lastAck := token);
      state := state.(updatedAt := now);
      outcome := Send(Batch([QueryIs(name, expected)], [PutQuery(name, state)]), state);
    }

    method AckQueryAndSubscription(policy: Policy, caller: Option<Principal>, name: string, token: Token, now: int)
      returns (outcome: Outcome)
      modifies this
      ensures (db, outcome) == Atomic(policy, old(db), JointAck(caller, name, token), now)
    {
      if !policy.commitLog {
        return Refused(Unsupported);
      }
      var expectedQuery := Find(db.queries, name);
      if expectedQuery.None? {
        return Refused(MissingQuery);
      }
      var expectedRow := Find(db.subscriptions, name);
      if expectedRow.None? {
        return Refused(MissingSubscription);
      }
      var state, subscription := expectedQuery.value, expectedRow.value;
      if caller.Some? {
        if !Owns(subscription, caller.value) {
          return Refused(PrincipalMismatch);
        }
        if !policy.mayRead(caller.value, subscription.config.filter) {
          return Refused(Denied);
        }
      }
      if !AckAllowed(state.lastAck, token) {
        return Refused(MovesBack);
      }
      if !AckAllowed(subscription.lastAck, token) {
        return Refused(MovesBack);
      }
      if state.lastAck == token && subscription.lastAck == token {
        return Accepted(state);
      }
      state := state.(lastAck := token);
      subscription := subscription.(lastAck := token);
      state := state.(updatedAt := now);
      subscription := subscription.(updatedAt := now);
      outcome := Send(
        Batch([QueryIs(name, expectedQuery), SubscriptionIs(name, expectedRow)],
              [PutQuery(name, state), PutSubscription(name, subscription)]), state);
    }
  }

  // ---------------------------------------------------------------------------------------
  // The operations as interleaved steps
  // ---------------------------------------------------------------------------------------

  /** Where a client is inside its operation. */
  datatype Client =
    | Started(request: Request)
    | SawQuery(request: Request, query: Option<Query>)
    | SawBoth(request: Request, query: Option<Query>, row: Option<Subscription>)
    | Proposing(request: Request, query: Option<Query>, row: Option<Subscription>, now: int, batch: Batch, state: Query)
    | Done(request: Request, outcome: Outcome)

  datatype System = System(db: Db, clients: seq<Client>)

  /** A client takes its next step at a wall-clock time, or another writer commits anything. */
  datatype Step = Advance(client: nat, now: int) | Outside(db: Db)

  function Settled(request: Request, query: Option<Query>, row: Option<Subscription>, now: int, decision: Decision): Client {
    match decision
    case Refuse(error) => Done(request, Refused(error))
    case Keep(state) => Done(request, Accepted(state))
    case Propose(batch, state) => Proposing(request, query, row, now, batch, state)
  }

  function ClientStep(policy: Policy, db: Db, client: Client, now: int): (Db, Client) {
    match client
    case Started(request) =>
      var admit := Admit(policy, request);
      (db, if admit.Some? then Done(request, Refused(admit.value)) else SawQuery(request, Find(db.queries, request.Name())))
    case SawQuery(request, query) =>
      (db,
       if request.Ack? then Settled(request, query, None, now, DecideAck(request, query, now))
       else SawBoth(request, query, Find(db.subscriptions, request.Name())))
    case SawBoth(request, query, row) =>
      (db, Settled(request, query, row, now, Decide(policy, request, query, row, now)))
    case Proposing(request, _, _, _, batch, state) =>
      if Holds(db, batch.conditions) then (PutAll(db, batch.writes), Done(request, Accepted(state)))
      else (db, Done(request, Refused(Conflict)))
    case Done(_, _) => (db, client)
  }

  function Next(policy: Policy, sys: System, step: Step): System {
    match step
    case Outside(db) => sys.(db := db)
    case Advance(i, now) =>
      if i >= |sys.clients| then sys else
      var (db, client) := ClientStep(policy, sys.db, sys.clients[i], now);
      System(db, sys.clients[i := client])
  }

  function Run(policy: Policy, sys: System, steps: seq<Step>): System {
    if steps == [] then sys else Next(policy, Run(policy, sys, steps[..|steps| - 1]), steps[|steps| - 1])
  }

  /** The operation a step commits: one request at the time its client decided, or an outside write. */
  datatype Event = Operation(request: Request, now: int) | Overwrite(db: Db)

  function Commit(sys: System, step: Step): seq<Event> {
    match step
    case Outside(db) => [Overwrite(db)]
    case Advance(i, _) =>
      if i < |sys.clients| && sys.clients[i].Proposing? && Holds(sys.db, sys.clients[i].batch.conditions)
      then [Operation(sys.clients[i].request, sys.clients[i].now)]
      else []
  }

  function Commits(policy: Policy, sys: System, steps: seq<Step>): seq<Event> {
    if steps == [] then [] else
    Commits(policy, sys, steps[..|steps| - 1]) + Commit(Run(policy, sys, steps[..|steps| - 1]), steps[|steps| - 1])
  }

  function Apply(policy: Policy, db: Db, event: Event): Db {
    match event
    case Operation(request, now) => Atomic(policy, db, request, now).0
    case Overwrite(other) => other
  }

  function Replay(policy: Policy, db: Db, events: seq<Event>): Db {
    if events == [] then db else Apply(policy, Replay(policy, db, events[..|events| - 1]), events[|events| - 1])
  }

  /** What a client carries between steps is what its request decided from the rows it read. */
  ghost predicate SoundClient(policy: Policy, client: Client) {
    match client
    case Started(_) => true
    case SawQuery(request, _) => Admit(policy, request).None?
    case SawBoth(request, _, _) => Admit(policy, request).None? && !request.Ack?
    case Proposing(request, query, row, now, batch, state) =>
      && Admit(policy, request).None?
      && Decide(policy, request, query, row, now) == Propose(batch, state)
    case Done(_, _) => true
  }

  ghost predicate Sound(policy: Policy, sys: System) {
    forall i :: 0 <= i < |sys.clients| ==> SoundClient(policy, sys.clients[i])
  }

  /** The conditions of a batch pin every row the decision was made from. */
  lemma ConditionsPinTheRows(policy: Policy, db: Db, client: Client)
    requires SoundClient(policy, client) && client.Proposing? && Holds(db, client.batch.conditions)
    ensures Find(db.queries, client.request.Name()) == client.query
    ensures client.request.Ack? || Find(db.subscriptions, client.request.Name()) == client.row
    ensures Atomic(policy, db, client.request, client.now) ==
            (PutAll(db, client.batch.writes), Accepted(client.state))
  {
    hide PutAll;
    var conditions := client.batch.conditions;
    assert Meets(db, conditions[0]);
    if !client.request.Ack? {
      assert Meets(db, conditions[1]);
    }
  }

  /**
    One interleaved step either leaves the store alone or has exactly the effect and the
    answer of the whole operation run atomically at that instant.
  */
  lemma StepRefinesAtomic(policy: Policy, sys: System, step: Step)
    requires Sound(policy, sys)
    ensures Sound(policy, Next(policy, sys, step))
    ensures Commit(sys, step) == [] ==> Next(policy, sys, step).db == sys.db
    ensures Next(policy, sys, step).db == Replay(policy, sys.db, Commit(sys, step))
    ensures step.Advance? && Commit(sys, step) != [] ==>
      var event := Commit(sys, step)[0];
      Next(policy, sys, step).clients[step.client] ==
        Done(event.request, Atomic(policy, sys.db, event.request, event.now).1)
  {
    hide PutAll, Atomic, Decide, Holds;
    if step.Advance? && step.client < |sys.clients| {
      var client := sys.clients[step.client];
      ClientStepSound(policy, sys.db, client, step.now);
      if client.Proposing? && Holds(sys.db, client.batch.conditions) {
        ConditionsPinTheRows(policy, sys.db, client);
        var events := Commit(sys, step);
        assert events[..0] == [];
        assert Replay(policy, sys.db, events[..0]) == sys.db;
      }
    } else if step.Outside? {
      var events := Commit(sys, step);
      assert events[..0] == [];
    }
  }

  lemma ClientStepSound(policy: Policy, db: Db, client: Client, now: int)
    requires SoundClient(policy, client)
    ensures SoundClient(policy, ClientStep(policy, db, client, now).1)
  {
    hide PutAll, Holds;
  }

  lemma {:induction false} ReplayJoins(policy: Policy, db: Db, first: seq<Event>, second: seq<Event>)
    ensures Replay(policy, db, first + second) == Replay(policy, Replay(policy, db, first), second)
  {
    hide Apply;
    if second == [] {
      assert first + second == first;
    } else {
      var n := |second| - 1;
      assert (first + second)[..|first + second| - 1] == first + second[..n];
      ReplayJoins(policy, db, first, second[..n]);
    }
  }

  /**
    Refinement over every run: whatever the interleaving, and whatever other writers commit
    in between, the store is the one reached by running the committed operations atomically,
    one after another, in commit order.
  */
  lemma {:induction false} RunsRefineAtomic(policy: Policy, sys: System, steps: seq<Step>)
    requires Sound(policy, sys)
    ensures Sound(policy, Run(policy, sys, steps))
    ensures Run(policy, sys, steps).db == Replay(policy, sys.db, Commits(policy, sys, steps))
  {
    hide Next, Apply, Commit;
    if steps != [] {
      var n := |steps| - 1;
      RunsRefineAtomic(policy, sys, steps[..n]);
      var before := Run(policy, sys, steps[..n]);
      StepRefinesAtomic(policy, before, steps[n]);
      ReplayJoins(policy, sys.db, Commits(policy, sys, steps[..n]), Commit(before, steps[n]));
    }
  }

  // ---------------------------------------------------------------------------------------
  // Every atomic run happens
  // ---------------------------------------------------------------------------------------

  /** A client taking steps with nobody in between. */
  function Solo(policy: Policy, db: Db, client: Client, now: int, n: nat): (Db, Client)
    decreases n
  {
    if n == 0 then (db, client)
    else
      var (after, next) := ClientStep(policy, db, client, now);
      Solo(policy, after, next, now, n - 1)
  }

  /** Four steps are enough for any operation. */
  const STEPS: nat := 4

  function Uninterrupted(client: nat, now: int): seq<Step> {
    seq(STEPS, _ => Advance(client, now))
  }

  /** A client that nobody interrupts has exactly the effect and the answer of the atomic operation. */
  lemma SoloIsAtomic(policy: Policy, db: Db, request: Request, now: int)
    ensures Solo(policy, db, Started(request), now, STEPS) ==
            var (after, outcome) := Atomic(policy, db, request, now); (after, Done(request, outcome))
  {
    hide PutAll;
    if Admit(policy, request).Some? {
      SoloDone(policy, db, Done(request, Refused(Admit(policy, request).value)), now, 3);
    } else {
      var query := Find(db.queries, request.Name());
      if request.Ack? {
        SettledIsAtomic(policy, db, request, query, None, now);
        SoloSettles(policy, db, request, query, None, now, 2);
        assert Solo(policy, db, Started(request), now, STEPS) == Solo(policy, db, SawQuery(request, query), now, 3);
      } else {
        var row := Find(db.subscriptions, request.Name());
        SettledIsAtomic(policy, db, request, query, row, now);
        SoloSettles(policy, db, request, query, row, now, 1);
        assert Solo(policy, db, Started(request), now, STEPS) == Solo(policy, db, SawQuery(request, query), now, 3);
        assert Solo(policy, db, SawQuery(request, query), now, 3) == Solo(policy, db, SawBoth(request, query, row), now, 2);
      }
    }
  }

  lemma {:induction false} SoloDone(policy: Policy, db: Db, client: Client, now: int, n: nat)
    requires client.Done?
    ensures Solo(policy, db, client, now, n) == (db, client)
  {
    if n > 0 {
      SoloDone(policy, db, client, now, n - 1);
    }
  }

  /** What a decision made from the rows in the store leads to in one more step. */
  ghost predicate SettlesTo(policy: Policy, db: Db, request: Request, client: Client, now: int) {
    var (after, outcome) := Atomic(policy, db, request, now);
    || (client == Done(request, outcome) && after == db)
    || (client.Proposing? && ClientStep(policy, db, client, now) == (after, Done(request, outcome)))
  }

  lemma SettledIsAtomic(policy: Policy, db: Db, request: Request, query: Option<Query>, row: Option<Subscription>, now: int)
    requires Admit(policy, request).None? && query == Find(db.queries, request.Name())
    requires if request.Ack? then row.None? else row == Find(db.subscriptions, request.Name())
    ensures SettlesTo(policy, db, request, Settled(request, query, row, now, Decide(policy, request, query, row, now)), now)
  {
    hide PutAll;
    var decision := Decide(policy, request, query, row, now);
    if decision.Propose? {
      assert Holds(db, decision.batch.conditions);
    }
  }

  lemma SoloSettles(policy: Policy, db: Db, request: Request, query: Option<Query>, row: Option<Subscription>, now: int, n: nat)
    requires n > 0
    requires var client := Settled(request, query, row, now, Decide(policy, request, query, row, now));
             SettlesTo(policy, db, request, client, now)
    ensures var client := Settled(request, query, row, now, Decide(policy, request, query, row, now));
            var (after, outcome) := Atomic(policy, db, request, now);
            Solo(policy, db, client, now, n) == (after, Done(request, outcome))
  {
    hide Atomic, ClientStep, Settled, Decide;
    var client := Settled(request, query, row, now, Decide(policy, request, query, row, now));
    var (after, outcome) := Atomic(policy, db, request, now);
    SoloDone(policy, db, Done(request, outcome), now, n);
    SoloDone(policy, after, Done(request, outcome), now, n - 1);
  }

  lemma {:induction false} RunJoins(policy: Policy, sys: System, first: seq<Step>, second: seq<Step>)
    ensures Run(policy, sys, first + second) == Run(policy, Run(policy, sys, first), second)
  {
    hide Next;
    if second == [] {
      assert first + second == first;
    } else {
      var n := |second| - 1;
      assert (first + second)[..|first| + n] == first + second[..n];
      RunJoins(policy, sys, first, second[..n]);
    }
  }

  /** Uninterrupted steps of one client, in the system. */
  lemma {:induction false} RunSolo(policy: Policy, sys: System, c: nat, now: int, n: nat)
    requires c < |sys.clients|
    ensures var (db, client) := Solo(policy, sys.db, sys.clients[c], now, n);
            Run(policy, sys, seq(n, _ => Advance(c, now))) == System(db, sys.clients[c := client])
    decreases n
  {
    hide ClientStep;
    var steps := seq(n, _ => Advance(c, now));
    if n == 0 {
      assert sys.clients[c := sys.clients[c]] == sys.clients;
    } else {
      var rest := seq(n - 1, _ => Advance(c, now));
      assert steps == [Advance(c, now)] + rest;
      RunJoins(policy, sys, [Advance(c, now)], rest);
      var next := Next(policy, sys, Advance(c, now));
      RunOne(policy, sys, Advance(c, now));
      RunSolo(policy, next, c, now, n - 1);
      var client := Solo(policy, next.db, next.clients[c], now, n - 1).1;
      assert next.clients[c := client] == sys.clients[c := client];
    }
  }

  lemma RunOne(policy: Policy, sys: System, step: Step)
    ensures Run(policy, sys, [step]) == Next(policy, sys, step)
  {
    hide Next;
    assert [step][..0] == [];
  }

  /** One client for each operation, none of which has begun. */
  function Waiting(events: seq<Event>): seq<Client>
    requires forall i :: 0 <= i < |events| ==> events[i].Operation?
  {
    seq(|events|, i requires 0 <= i < |events| => Started(events[i].request))
  }

  /** The clients one after another, each uninterrupted. */
  function OneByOne(events: seq<Event>): seq<Step>
    requires forall i :: 0 <= i < |events| ==> events[i].Operation?
  {
    if events == [] then []
    else
      var n := |events| - 1;
      OneByOne(events[..n]) + Uninterrupted(n, events[n].now)
  }

  /**
    The converse of refinement: every sequence of atomic operations is what some interleaving
    of clients does, namely the one in which they take turns.
  */
  lemma {:induction false} EveryAtomicRunHappens(policy: Policy, db: Db, events: seq<Event>, n: nat)
    requires n <= |events| && forall i :: 0 <= i < |events| ==> events[i].Operation?
    ensures var after := Run(policy, System(db, Waiting(events)), OneByOne(events[..n]));
            && after.db == Replay(policy, db, events[..n]) && |after.clients| == |events|
            && forall k :: n <= k < |events| ==> after.clients[k] == Started(events[k].request)
  {
    hide Atomic, ClientStep, Next;
    if n > 0 {
      var m := n - 1;
      EveryAtomicRunHappens(policy, db, events, m);
      assert events[..n][..m] == events[..m];
      var start := System(db, Waiting(events));
      var before := Run(policy, start, OneByOne(events[..m]));
      RunJoins(policy, start, OneByOne(events[..m]), Uninterrupted(m, events[m].now));
      RunSolo(policy, before, m, events[m].now, STEPS);
      SoloIsAtomic(policy, before.db, events[m].request, events[m].now);
    }
  }
}
