/**
 Runs of the server. Request threads interleave at the store's lock: pairing is one
 section; a push or a pull is two, the look-up of the auth hash that authenticates
 it and, later, the operation itself. A run is any sequence of such sections.
 */
module ServerRuns {
  import opened Basics
  import opened SyncStore
  import opened StoreLaws

  datatype Action = Push(records: seq<Wire>) | Pull(collection: Option<string>, since: int)

  /** What an authenticated request carries from its first section to its second. */
  datatype Ticket = Ticket(group: string, presentedHash: string, action: Action)

  /** `inTransaction` is the transaction a refused pairing left open on the connection. */
  datatype Sys = Sys(db: Db, tickets: map<nat, Ticket>, inTransaction: bool)

  const START := Sys(EMPTY_DB, map[], false)

  /** `proofOk` is the part of verify_request that does not read the store. */
  datatype Step =
    | Pair(group: string, hash: Option<string>, salt: Option<string>)
    | Authenticate(thread: nat, ticket: Ticket, proofOk: bool)
    | Act(thread: nat)

  const MAX_RECORDS_PER_BATCH := 1000

  predicate Admitted(s: Sys, step: Step)
    requires step.Authenticate?
  {
    && step.thread !in s.tickets
    && step.ticket.group != ""
    && step.ticket.group in s.db.groups
    && s.db.groups[step.ticket.group].authHash == step.ticket.presentedHash
    && step.proofOk
  }

  datatype Reply =
    | PairReplied(pair: PairReply)
    | Forbidden
    | AuthOk
    | BadBatch
    | Pushed(push: Option<PushReply>)
    | Rows(selection: map<Key, Row>)
    | Silent

  /** One lock section. The rows of a pull are a selection; IsFeed orders them. */
  function Next(s: Sys, step: Step): (Sys, Reply) {
    match step
    case Pair(g, hash, salt) =>
      var (db, r) := Register(s.db, g, hash, salt);
      (s.(db := db, inTransaction := TransactionAfter(s.db, g, hash, s.inTransaction)), PairReplied(r))
    case Authenticate(thread, ticket, _) =>
      if Admitted(s, step) then (s.(tickets := s.tickets[thread := ticket]), AuthOk) else (s, Forbidden)
    case Act(thread) =>
      if thread !in s.tickets then
        (s, Silent)
      else
        var ticket := s.tickets[thread];
        var rest := s.(tickets := s.tickets - {thread});
        match ticket.action
        case Push(ws) =>
          if |ws| > MAX_RECORDS_PER_BATCH then
            (rest, BadBatch)
          else if s.inTransaction then
            (rest.(inTransaction := false), Pushed(None))
          else
            var (db, r) := Upsert(s.db, ticket.group, ws);
            (rest.(db := db), Pushed(r))
        case Pull(coll, since) => (rest, Rows(Selected(s.db, ticket.group, coll, since)))
  }

  function Run(s: Sys, steps: seq<Step>): Sys
    decreases steps
  {
    if steps == [] then s else Run(Next(s, steps[0]).0, steps[1..])
  }

  // ---------- what every run keeps ----------

  /** Tickets stay good: the hash a request was authenticated against is still stored. */
  ghost predicate SysInv(s: Sys) {
    && DbInv(s.db)
    && forall th | th in s.tickets ::
         && s.tickets[th].group in s.db.groups
         && s.db.groups[s.tickets[th].group].authHash == s.tickets[th].presentedHash
  }

  function Counter(db: Db, g: string): nat {
    if g in db.counters then db.counters[g] else 0
  }

  /** Growth of the store: groups and their hashes stay, counters and versions only
      rise, rows stay, and a row that is new or changed has a seq above the counter. */
  ghost predicate Grows(db: Db, db': Db) {
    && (forall g | g in db.groups :: g in db'.groups && db'.groups[g] == db.groups[g])
    && (forall g | g in db.counters :: g in db'.counters && db.counters[g] <= db'.counters[g])
    && (forall k | k in db.rows ::
          k in db'.rows && (db'.rows[k] == db.rows[k] || (db.rows[k].version < db'.rows[k].version && Newer(db, db', k))))
    && (forall k | k in db'.rows && k !in db.rows :: Newer(db, db', k))
  }

  ghost predicate Newer(db: Db, db': Db, k: Key)
    requires k in db'.rows
  {
    Counter(db, k.group) < db'.rows[k].seqNo
  }

  lemma EvolvesGrows(db: Db, g: string, db': Db)
    requires Evolves(db, g, db') && g in db.counters
    ensures Grows(db, db')
  {
  }

  lemma RegisterGrows(db: Db, g: string, hash: Option<string>, salt: Option<string>)
    requires DbInv(db)
    ensures Grows(db, Register(db, g, hash, salt).0)
  {
  }

  lemma PushActKeeps(s: Sys, thread: nat)
    requires SysInv(s) && thread in s.tickets && s.tickets[thread].action.Push?
    ensures SysInv(Next(s, Act(thread)).0)
    ensures Grows(s.db, Next(s, Act(thread)).0.db)
  {
    var g, ws := s.tickets[thread].group, s.tickets[thread].action.records;
    var db' := Upsert(s.db, g, ws).0;
    UpsertKeepsInv(s.db, g, ws);
    UpsertEvolves(s.db, g, ws);
    EvolvesGrows(s.db, g, db');
    assert db'.groups == s.db.groups;
  }

  lemma StepKeeps(s: Sys, step: Step)
    requires SysInv(s)
    ensures SysInv(Next(s, step).0)
    ensures Grows(s.db, Next(s, step).0.db)
  {
    match step
    case Pair(g, hash, salt) =>
      RegisterKeepsInv(s.db, g, hash, salt);
      RegisterGrows(s.db, g, hash, salt);
    case Authenticate(thread, ticket, proofOk) =>
    case Act(thread) =>
      if thread in s.tickets && s.tickets[thread].action.Push? {
        PushActKeeps(s, thread);
      }
  }

  lemma GrowsTransitive(a: Db, b: Db, c: Db)
    requires Grows(a, b) && Grows(b, c)
    ensures Grows(a, c)
  {
  }

  lemma {:induction false} RunKeeps(s: Sys, steps: seq<Step>)
    requires SysInv(s)
    ensures SysInv(Run(s, steps))
    ensures Grows(s.db, Run(s, steps).db)
    decreases steps
  {
    if steps == [] {
    } else {
      StepKeeps(s, steps[0]);
      RunKeeps(Next(s, steps[0]).0, steps[1..]);
      GrowsTransitive(s.db, Next(s, steps[0]).0.db, Run(s, steps).db);
    }
  }

  /** An admitted request acts on a group whose stored hash is still the presented one,
      whatever other threads did in between. */
  lemma AuthorizationSurvives(s: Sys, thread: nat, ticket: Ticket, between: seq<Step>)
    requires SysInv(s)
    requires Admitted(s, Authenticate(thread, ticket, true))
    ensures var later := Run(Next(s, Authenticate(thread, ticket, true)).0, between);
            && ticket.group in later.db.groups
            && later.db.groups[ticket.group].authHash == ticket.presentedHash
            && ticket.group in later.db.counters
  {
    RunKeeps(s, [Authenticate(thread, ticket, true)]);
    RunKeeps(Next(s, Authenticate(thread, ticket, true)).0, between);
  }

  // ---------- an admitted request takes effect ----------

  lemma {:induction false} TicketKept(s: Sys, thread: nat, ticket: Ticket, between: seq<Step>)
    requires thread in s.tickets && s.tickets[thread] == ticket
    requires Act(thread) !in between
    ensures var later := Run(s, between);
            thread in later.tickets && later.tickets[thread] == ticket
    decreases between
  {
    if between == [] {
    } else {
      assert between[0] in between;
      TicketKept(Next(s, between[0]).0, thread, ticket, between[1..]);
    }
  }

  /** What an admitted request does when its thread gets the lock again: a push of more than
      1000 records is turned down; in a transaction left open it raises; otherwise it is
      upserted into the tables of that moment, and its answer is the upsert's. */
  lemma AdmittedPushActs(s: Sys, thread: nat, ticket: Ticket, between: seq<Step>)
    requires Admitted(s, Authenticate(thread, ticket, true)) && ticket.action.Push?
    requires Act(thread) !in between
    ensures var later := Run(Next(s, Authenticate(thread, ticket, true)).0, between);
            var (after, reply) := Next(later, Act(thread));
            var ws := ticket.action.records;
            && thread in later.tickets && later.tickets[thread] == ticket && thread !in after.tickets
            && (|ws| > 1000 ==> reply == BadBatch && after.db == later.db)
            && (|ws| <= 1000 && later.inTransaction ==>
                  reply == Pushed(None) && after.db == later.db && !after.inTransaction)
            && (|ws| <= 1000 && !later.inTransaction ==>
                  reply.Pushed? && (after.db, reply.push) == Upsert(later.db, ticket.group, ws))
  {
    TicketKept(Next(s, Authenticate(thread, ticket, true)).0, thread, ticket, between);
  }

  /** And a pull answers with the rows of the group in the tables of that moment that lie
      above its cursor and in its collection, if it names one. */
  lemma AdmittedPullActs(s: Sys, thread: nat, ticket: Ticket, between: seq<Step>)
    requires Admitted(s, Authenticate(thread, ticket, true)) && ticket.action.Pull?
    requires Act(thread) !in between
    ensures var later := Run(Next(s, Authenticate(thread, ticket, true)).0, between);
            var (after, reply) := Next(later, Act(thread));
            var coll := ticket.action.collection;
            && after.db == later.db && reply.Rows?
            && (forall k :: k in reply.selection <==>
                  && k in later.db.rows && k.group == ticket.group && later.db.rows[k].seqNo > ticket.action.since
                  && (coll.Some? && coll.value != "" ==> k.slot.collection == coll.value))
            && (forall k | k in reply.selection :: reply.selection[k] == later.db.rows[k])
  {
    TicketKept(Next(s, Authenticate(thread, ticket, true)).0, thread, ticket, between);
  }

  lemma {:induction false} RunAppend(s: Sys, a: seq<Step>, b: seq<Step>)
    ensures Run(s, a + b) == Run(Run(s, a), b)
    decreases a
  {
    if a == [] {
      assert a + b == b;
    } else {
      assert (a + b)[1..] == a[1..] + b;
      RunAppend(Next(s, a[0]).0, a[1..], b);
    }
  }

  /** The first registration of a group stays, hash and salt; a later pairing succeeds iff it
      brings the same hash, and changes nothing. Comparing null or non-ASCII text raises. */
  lemma FirstRegistrationWins(s: Sys, g: string, hash: string, salt: Option<string>, between: seq<Step>,
                              hash': Option<string>, salt': Option<string>)
    requires SysInv(s) && g !in s.db.groups
    ensures var later := Run(Next(s, Pair(g, Some(hash), salt)).0, between);
            var (after, reply) := Next(later, Pair(g, hash', salt'));
            && after == later && g in later.db.groups && later.db.groups[g] == Group(hash, salt)
            && reply.PairReplied?
            && (reply.pair.PairRaised? <==> hash'.None? || !forall c | c in hash + hash'.value :: (c as int) < 128)
            && (reply.pair.Paired? <==> !reply.pair.PairRaised? && hash' == Some(hash))
  {
    StepKeeps(s, Pair(g, Some(hash), salt));
    RunKeeps(Next(s, Pair(g, Some(hash), salt)).0, between);
    if hash'.Some? {
      AsciiByCharacters(hash, hash'.value);
    }
  }

  lemma AsciiByCharacters(a: string, b: string)
    ensures IsAscii(a) && IsAscii(b) <==> forall c | c in a + b :: (c as int) < 128
  {
    assert forall i | 0 <= i < |a| :: a[i] in a + b;
    assert forall i | 0 <= i < |b| :: b[i] in a + b;
  }

  // ---------- the counter counts accepted writes ----------

  function AcceptedBy(g: string, s: Sys, step: Step): nat {
    var reply := Next(s, step).1;
    if step.Act? && step.thread in s.tickets && s.tickets[step.thread].group == g && reply.Pushed? && reply.push.Some? then
      |reply.push.value.accepted|
    else
      0
  }

  function AcceptedDuring(g: string, s: Sys, steps: seq<Step>): nat
    decreases steps
  {
    if steps == [] then 0 else AcceptedBy(g, s, steps[0]) + AcceptedDuring(g, Next(s, steps[0]).0, steps[1..])
  }

  lemma {:induction false} CounterCountsFrom(g: string, s: Sys, steps: seq<Step>)
    requires SysInv(s)
    ensures Counter(Run(s, steps).db, g) == Counter(s.db, g) + AcceptedDuring(g, s, steps)
    decreases steps
  {
    if steps == [] {
    } else {
      var step, s' := steps[0], Next(s, steps[0]).0;
      StepKeeps(s, step);
      if step.Act? && step.thread in s.tickets && s.tickets[step.thread].action.Push? {
        UpsertEvolves(s.db, s.tickets[step.thread].group, s.tickets[step.thread].action.records);
      }
      assert Counter(s'.db, g) == Counter(s.db, g) + AcceptedBy(g, s, step);
      CounterCountsFrom(g, s', steps[1..]);
    }
  }

  /** In every reachable state: the seqs of a group's rows are distinct and lie in
      1..counter, and the counter is the number of writes ever accepted. */
  lemma ReachableStates(steps: seq<Step>, g: string)
    ensures var db := Run(START, steps).db;
            && DbInv(db)
            && Counter(db, g) == AcceptedDuring(g, START, steps)
  {
    RunKeeps(START, steps);
    CounterCountsFrom(g, START, steps);
  }

  // ---------- groups do not interfere ----------

  function OnlyRows(rows: map<Key, Row>, g: string): map<Key, Row> {
    map k | k in rows && k.group == g :: rows[k]
  }

  function OnlyKey<V>(m: map<string, V>, g: string): map<string, V> {
    if g in m then map[g := m[g]] else map[]
  }

  function OnlyDb(db: Db, g: string): Db {
    Db(OnlyKey(db.groups, g), OnlyRows(db.rows, g), OnlyKey(db.counters, g))
  }

  function OnlyTickets(s: Sys, g: string): map<nat, Ticket> {
    map th | th in s.tickets && s.tickets[th].group == g :: s.tickets[th]
  }

  function Only(s: Sys, g: string): Sys {
    Sys(OnlyDb(s.db, g), OnlyTickets(s, g), s.inTransaction)
  }

  /** The sections that belong to group g. A thread serves one request at a time, so one
      that holds a ticket does not authenticate another. */
  predicate Concerns(s: Sys, step: Step, g: string) {
    match step
    case Pair(h, _, _) => h == g
    case Authenticate(thread, ticket, _) => ticket.group == g && thread !in s.tickets
    case Act(thread) => thread in s.tickets && s.tickets[thread].group == g
  }

  function Mine(s: Sys, steps: seq<Step>, g: string): seq<Step>
    decreases steps
  {
    if steps == [] then []
    else (if Concerns(s, steps[0], g) then [steps[0]] else []) + Mine(Next(s, steps[0]).0, steps[1..], g)
  }

  function Replies(s: Sys, steps: seq<Step>): seq<Reply>
    decreases steps
  {
    if steps == [] then [] else [Next(s, steps[0]).1] + Replies(Next(s, steps[0]).0, steps[1..])
  }

  function MyReplies(s: Sys, steps: seq<Step>, g: string): seq<Reply>
    decreases steps
  {
    if steps == [] then []
    else (if Concerns(s, steps[0], g) then [Next(s, steps[0]).1] else []) + MyReplies(Next(s, steps[0]).0, steps[1..], g)
  }

  function OnlyTxn(t: Txn, g: string): Txn {
    t.(rows := OnlyRows(t.rows, g))
  }

  lemma {:induction false} PushSeesOwnGroup(t: Txn, g: string, ws: seq<Wire>)
    ensures var all, own := PushAll(t, g, ws), PushAll(OnlyTxn(t, g), g, ws);
            all.Some? == own.Some? && (all.Some? ==> own.value == OnlyTxn(all.value, g))
    decreases ws
  {
    if ws == [] {
    } else {
      var all, own := PushOne(t, g, ws[0]), PushOne(OnlyTxn(t, g), g, ws[0]);
      assert all.Some? == own.Some?;
      if all.Some? {
        assert own.value == OnlyTxn(all.value, g);
        PushSeesOwnGroup(all.value, g, ws[1..]);
      }
    }
  }

  lemma {:induction false} PushSparesOthers(t: Txn, g: string, ws: seq<Wire>, h: string)
    requires g != h && PushAll(t, g, ws).Some?
    ensures OnlyRows(PushAll(t, g, ws).value.rows, h) == OnlyRows(t.rows, h)
    decreases ws
  {
    if ws == [] {
    } else {
      PushSparesOthers(PushOne(t, g, ws[0]).value, g, ws[1..], h);
    }
  }

  lemma UpsertOnly(db: Db, g: string, ws: seq<Wire>, h: string)
    ensures var (db', r), (own', r') := Upsert(db, g, ws), Upsert(OnlyDb(db, h), g, ws);
            if g == h then own' == OnlyDb(db', h) && r' == r else OnlyDb(db', h) == OnlyDb(db, h)
  {
    PushSeesOwnGroup(Begin(db, g), g, ws);
    assert g == h ==> Begin(OnlyDb(db, h), g) == OnlyTxn(Begin(db, g), g);
    if g != h && PushAll(Begin(db, g), g, ws).Some? {
      PushSparesOthers(Begin(db, g), g, ws, h);
    }
  }

  lemma RegisterOnly(db: Db, h: string, hash: Option<string>, salt: Option<string>, g: string)
    ensures var (db', r), (own', r') := Register(db, h, hash, salt), Register(OnlyDb(db, g), h, hash, salt);
            if g == h then own' == OnlyDb(db', g) && r' == r else OnlyDb(db', g) == OnlyDb(db, g)
  {
  }

  /** o has the group's share of s; an open transaction is shared by all groups and may differ. */
  predicate Alike(s: Sys, o: Sys, g: string) {
    o.db == OnlyDb(s.db, g) && o.tickets == OnlyTickets(s, g)
  }

  /** A push of the group that would commit meets an open transaction in just one of the
      two runs. */
  predicate Disturbed(s: Sys, o: Sys, step: Step, g: string) {
    && step.Act? && step.thread in s.tickets && s.tickets[step.thread].group == g
    && s.tickets[step.thread].action.Push?
    && |s.tickets[step.thread].action.records| <= MAX_RECORDS_PER_BATCH
    && s.inTransaction != o.inTransaction
    && Upsert(s.db, g, s.tickets[step.thread].action.records).1.Some?
  }

  /** Step and reply on s, compared with the group's own run in o. */
  predicate StepsAlike(s: Sys, o: Sys, step: Step, g: string) {
    var (s', r), (o', r') := Next(s, step), Next(o, step);
    if !Concerns(s, step, g) then Alike(s', o, g)
    else if Disturbed(s, o, step, g) then r' != r
    else Alike(s', o', g) && r' == r
  }

  lemma TicketUsed(s: Sys, thread: nat, g: string)
    requires thread in s.tickets
    ensures var rest := s.(tickets := s.tickets - {thread});
            OnlyTickets(rest, g) == if s.tickets[thread].group == g then OnlyTickets(s, g) - {thread} else OnlyTickets(s, g)
  {
  }

  lemma PushActOnly(s: Sys, o: Sys, thread: nat, g: string)
    requires Alike(s, o, g) && thread in s.tickets && s.tickets[thread].action.Push?
    ensures StepsAlike(s, o, Act(thread), g)
  {
    var ticket := s.tickets[thread];
    TicketUsed(s, thread, g);
    UpsertOnly(s.db, ticket.group, ticket.action.records, g);
  }

  lemma PullActOnly(s: Sys, o: Sys, thread: nat, g: string)
    requires Alike(s, o, g) && thread in s.tickets && s.tickets[thread].action.Pull?
    ensures StepsAlike(s, o, Act(thread), g)
  {
    var Pull(coll, since) := s.tickets[thread].action;
    TicketUsed(s, thread, g);
    if s.tickets[thread].group == g {
      assert Selected(s.db, g, coll, since) == Selected(OnlyDb(s.db, g), g, coll, since);
    }
  }

  lemma AuthenticateOnly(s: Sys, o: Sys, step: Step, g: string)
    requires Alike(s, o, g) && step.Authenticate?
    ensures StepsAlike(s, o, step, g)
  {
    var tickets := s.tickets[step.thread := step.ticket];
    if step.ticket.group == g {
      assert step.thread !in s.tickets ==> Admitted(o, step) == Admitted(s, step);
      assert OnlyTickets(s.(tickets := tickets), g) == OnlyTickets(s, g)[step.thread := step.ticket];
    } else if step.thread !in s.tickets {
      assert OnlyTickets(s.(tickets := tickets), g) == OnlyTickets(s, g);
    }
  }

  lemma StepOnly(s: Sys, o: Sys, step: Step, g: string)
    requires Alike(s, o, g)
    ensures StepsAlike(s, o, step, g)
  {
    match step
    case Pair(h, hash, salt) => RegisterOnly(s.db, h, hash, salt, g);
    case Authenticate(thread, ticket, proofOk) => AuthenticateOnly(s, o, step, g);
    case Act(thread) =>
      if thread in s.tickets {
        match s.tickets[thread].action
        case Push(_) => PushActOnly(s, o, thread, g);
        case Pull(_, _) => PullActOnly(s, o, thread, g);
      }
  }

  predicate EverDisturbed(s: Sys, o: Sys, steps: seq<Step>, g: string)
    decreases steps
  {
    steps != [] &&
    (Disturbed(s, o, steps[0], g) ||
     EverDisturbed(Next(s, steps[0]).0, if Concerns(s, steps[0], g) then Next(o, steps[0]).0 else o, steps[1..], g))
  }

  /** A group's replies in any interleaving are those of running its own sections alone
      iff it is never disturbed: no push of it that would commit meets an open
      transaction in just one of the two. Its tables are then the same as well. */
  lemma {:induction false} GroupsDoNotInterfere(s: Sys, o: Sys, steps: seq<Step>, g: string)
    requires Alike(s, o, g)
    ensures Replies(o, Mine(s, steps, g)) == MyReplies(s, steps, g) <==> !EverDisturbed(s, o, steps, g)
    ensures !EverDisturbed(s, o, steps, g) ==> Alike(Run(s, steps), Run(o, Mine(s, steps, g)), g)
    decreases steps
  {
    if steps == [] {
    } else {
      var step := steps[0];
      var (s', r) := Next(s, step);
      var (o', r') := Next(o, step);
      var mine, replies := Mine(s', steps[1..], g), MyReplies(s', steps[1..], g);
      StepOnly(s, o, step, g);
      if !Concerns(s, step, g) {
        assert Mine(s, steps, g) == mine && MyReplies(s, steps, g) == replies;
        GroupsDoNotInterfere(s', o, steps[1..], g);
      } else {
        assert Mine(s, steps, g)[1..] == mine;
        assert Replies(o, Mine(s, steps, g)) == [r'] + Replies(o', mine);
        SameHeadSameTail(r', Replies(o', mine), r, replies);
        if !Disturbed(s, o, step, g) {
          GroupsDoNotInterfere(s', o', steps[1..], g);
        }
      }
    }
  }

  lemma SameHeadSameTail(a: Reply, x: seq<Reply>, b: Reply, y: seq<Reply>)
    ensures [a] + x == [b] + y <==> a == b && x == y
  {
    assert ([a] + x)[1..] == x && ([b] + y)[1..] == y;
    assert ([a] + x)[0] == a && ([b] + y)[0] == b;
  }

  /** A pairing whose INSERT the table refuses. */
  predicate RefusedPairing(s: Sys, step: Step) {
    step.Pair? && step.group !in s.db.groups && step.hash.None?
  }

  predicate NoRefusedPairing(s: Sys, steps: seq<Step>)
    decreases steps
  {
    steps == [] || (!RefusedPairing(s, steps[0]) && NoRefusedPairing(Next(s, steps[0]).0, steps[1..]))
  }

  lemma {:induction false} UndisturbedWithoutRefusal(s: Sys, o: Sys, steps: seq<Step>, g: string)
    requires Alike(s, o, g) && !s.inTransaction && !o.inTransaction && NoRefusedPairing(s, steps)
    ensures !EverDisturbed(s, o, steps, g)
    decreases steps
  {
    if steps == [] {
    } else {
      StepOnly(s, o, steps[0], g);
      UndisturbedWithoutRefusal(Next(s, steps[0]).0, if Concerns(s, steps[0], g) then Next(o, steps[0]).0 else o, steps[1..], g);
    }
  }

  /** So as long as no pairing is refused, no group sees anything of another. */
  lemma CleanRunsDoNotInterfere(s: Sys, steps: seq<Step>, g: string)
    requires !s.inTransaction && NoRefusedPairing(s, steps)
    ensures Replies(Only(s, g), Mine(s, steps, g)) == MyReplies(s, steps, g)
    ensures Alike(Run(s, steps), Run(Only(s, g), Mine(s, steps, g)), g)
  {
    UndisturbedWithoutRefusal(s, Only(s, g), steps, g);
    GroupsDoNotInterfere(s, Only(s, g), steps, g);
  }

  /** And a refused pairing of one group costs another group a push: alone it commits, after
      the pairing it raises. */
  lemma RefusedPairingCostsAPush(s: Sys, h: string, thread: nat)
    requires !s.inTransaction && h !in s.db.groups
    requires thread in s.tickets && s.tickets[thread].group != h && s.tickets[thread].action.Push?
    requires |s.tickets[thread].action.records| <= MAX_RECORDS_PER_BATCH
    requires Upsert(s.db, s.tickets[thread].group, s.tickets[thread].action.records).1.Some?
    ensures var refused := Pair(h, None, None);
            && Next(s, Act(thread)).1.push.Some?
            && Next(Next(s, refused).0, Act(thread)).1 == Pushed(None)
            && EverDisturbed(s, Only(s, s.tickets[thread].group), [refused, Act(thread)], s.tickets[thread].group)
  {
    var g, refused := s.tickets[thread].group, Pair(h, None, None);
    assert [refused, Act(thread)][1..] == [Act(thread)];
    assert Disturbed(Next(s, refused).0, Only(s, g), Act(thread), g);
  }
}
