/**
 Optimistic concurrency makes progress. Devices of one group each work through a list
 of intended updates: push the update, and on a conflict encrypt it again at the
 reported server version plus one and retry. A schedule says whose push runs next.
 */
module Progress {
  import opened Basics
  import opened SyncStore
  import opened StoreLaws

  datatype Payload = Payload(nonce: string, ciphertext: string, tombstone: bool, alg: string)

  /** `seal` encrypts the update for a version; `first` is the version tried first. */
  datatype Intent = Intent(slot: Slot, first: int, seal: int -> Payload)

  datatype Client = Client(todo: seq<Intent>, version: int)

  datatype Race = Race(db: Db, clients: seq<Client>)

  function Attempt(c: Client): Wire
    requires c.todo != []
  {
    var p := c.todo[0].seal(c.version);
    Wire(c.todo[0].slot, p.nonce, p.ciphertext, Some(c.version), p.tombstone, Some(p.alg), true)
  }

  function StartNext(todo: seq<Intent>): Client {
    Client(todo, if todo == [] then 0 else todo[0].first)
  }

  predicate HasWork(r: Race, i: nat) {
    i < |r.clients| && r.clients[i].todo != []
  }

  /** Client i pushes its current update, if it has one. */
  function Try(g: string, r: Race, i: nat): Race {
    if !HasWork(r, i) then
      r
    else
      var c := r.clients[i];
      var (db, reply) := Upsert(r.db, g, [Attempt(c)]);
      if reply.None? then
        r
      else if reply.value.conflicts == [] then
        Race(db, r.clients[i := StartNext(c.todo[1..])])
      else
        Race(db, r.clients[i := c.(version := reply.value.conflicts[0].serverVersion + 1)])
  }

  function Exec(g: string, r: Race, sched: seq<nat>): Race
    decreases sched
  {
    if sched == [] then r else Exec(g, Try(g, r, sched[0]), sched[1..])
  }

  // ---------- the measure ----------

  function Pending(cs: seq<Client>): nat
    decreases cs
  {
    if cs == [] then 0 else |cs[0].todo| + Pending(cs[1..])
  }

  /** The push of this client would be a conflict. */
  predicate IsStale(rows: map<Key, Row>, g: string, c: Client) {
    c.todo != [] && Key(g, c.todo[0].slot) in rows && c.version <= rows[Key(g, c.todo[0].slot)].version
  }

  function StaleCount(rows: map<Key, Row>, g: string, cs: seq<Client>): nat
    decreases cs
  {
    if cs == [] then 0 else (if IsStale(rows, g, cs[0]) then 1 else 0) + StaleCount(rows, g, cs[1..])
  }

  function Measure(g: string, r: Race): nat {
    Pending(r.clients) * (|r.clients| + 1) + StaleCount(r.db.rows, g, r.clients)
  }

  lemma {:induction false} PendingUpdate(cs: seq<Client>, i: nat, c: Client)
    requires i < |cs|
    ensures Pending(cs[i := c]) == Pending(cs) - |cs[i].todo| + |c.todo|
    ensures Pending(cs) >= |cs[i].todo|
    decreases cs
  {
    if i == 0 {
      assert cs[0 := c][1..] == cs[1..];
    } else {
      assert cs[i := c][1..] == cs[1..][i - 1 := c];
      PendingUpdate(cs[1..], i - 1, c);
    }
  }

  lemma {:induction false} StaleUpdate(rows: map<Key, Row>, g: string, cs: seq<Client>, i: nat, c: Client)
    requires i < |cs|
    requires IsStale(rows, g, cs[i]) && !IsStale(rows, g, c)
    ensures StaleCount(rows, g, cs[i := c]) == StaleCount(rows, g, cs) - 1
    decreases cs
  {
    if i == 0 {
      assert cs[0 := c][1..] == cs[1..];
    } else {
      assert cs[i := c][1..] == cs[1..][i - 1 := c];
      StaleUpdate(rows, g, cs[1..], i - 1, c);
    }
  }

  lemma {:induction false} StaleBounded(rows: map<Key, Row>, g: string, cs: seq<Client>)
    ensures StaleCount(rows, g, cs) <= |cs|
    decreases cs
  {
    if cs == [] {
    } else {
      StaleBounded(rows, g, cs[1..]);
    }
  }

  // ---------- versions must stay storable ----------

  /** Updates of one slot in one client's list, and in all of them. */
  function Waiting(todo: seq<Intent>, slot: Slot): nat
    decreases todo
  {
    if todo == [] then 0 else (if todo[0].slot == slot then 1 else 0) + Waiting(todo[1..], slot)
  }

  function PendingOn(cs: seq<Client>, slot: Slot): nat
    decreases cs
  {
    if cs == [] then 0 else Waiting(cs[0].todo, slot) + PendingOn(cs[1..], slot)
  }

  lemma {:induction false} PendingOnUpdate(cs: seq<Client>, i: nat, c: Client, slot: Slot)
    requires i < |cs|
    ensures PendingOn(cs[i := c], slot) == PendingOn(cs, slot) - Waiting(cs[i].todo, slot) + Waiting(c.todo, slot)
    ensures PendingOn(cs, slot) >= Waiting(cs[i].todo, slot)
    decreases cs
  {
    if i == 0 {
      assert cs[0 := c][1..] == cs[1..];
    } else {
      assert cs[i := c][1..] == cs[1..][i - 1 := c];
      PendingOnUpdate(cs[1..], i - 1, c, slot);
    }
  }

  /** Versions are 64-bit: every row of the group is as far below the limit as updates of
      its slot are pending. */
  ghost predicate RowRoom(g: string, r: Race) {
    forall slot | Key(g, slot) in r.db.rows ::
      MIN_INTEGER <= r.db.rows[Key(g, slot)].version <= MAX_INTEGER - PendingOn(r.clients, slot)
  }

  /** No client starts, or is, further up than that either. */
  ghost predicate ClientsRoom(r: Race) {
    forall i | 0 <= i < |r.clients| :: ClientRoom(r.clients[i], r.clients)
  }

  ghost predicate ClientRoom(c: Client, cs: seq<Client>) {
    && (c.todo != [] ==> Fits(c.version, c.todo[0].slot, cs))
    && (forall j | 0 <= j < |c.todo| :: Fits(c.todo[j].first, c.todo[j].slot, cs))
  }

  predicate Fits(version: int, slot: Slot, cs: seq<Client>) {
    MIN_INTEGER <= version <= MAX_INTEGER - PendingOn(cs, slot) + 1
  }

  ghost predicate Headroom(g: string, r: Race) {
    g in r.db.counters && RowRoom(g, r) && ClientsRoom(r)
  }

  /** A retry at the reported version plus one is accepted unless that is past 64 bits;
      then it raises, and so does every later retry. */
  lemma RebaseAcceptedIff(db: Db, g: string, w: Wire)
    requires g in db.counters && Key(g, w.slot) in db.rows && w.bindable
    requires MIN_INTEGER <= db.rows[Key(g, w.slot)].version <= MAX_INTEGER
    requires w.version == Some(db.rows[Key(g, w.slot)].version + 1)
    ensures var (db', r) := Upsert(db, g, [w]);
            if db.rows[Key(g, w.slot)].version < MAX_INTEGER then
              r == Some(PushReply([Accepted(w.slot, w.version.value)], [], db.counters[g] + 1)) &&
              Key(g, w.slot) in db'.rows && Carries(db'.rows[Key(g, w.slot)], w)
            else
              r.None? && db' == db
  {
    OneRecord(db, g, w);
  }

  // ---------- every push gets somewhere ----------

  /** Fewer pending updates leave more room. */
  lemma RoomGrows(c: Client, cs: seq<Client>, cs': seq<Client>)
    requires ClientRoom(c, cs)
    requires forall slot :: PendingOn(cs', slot) <= PendingOn(cs, slot)
    ensures ClientRoom(c, cs')
  {
  }

  lemma ConflictProgress(g: string, r: Race, i: nat)
    requires Headroom(g, r) && HasWork(r, i) && IsStale(r.db.rows, g, r.clients[i])
    ensures var r' := Try(g, r, i);
            && r'.db == r.db && Pending(r'.clients) == Pending(r.clients)
            && Headroom(g, r') && Measure(g, r') == Measure(g, r) - 1 && |r'.clients| == |r.clients|
  {
    var c := r.clients[i];
    var slot := c.todo[0].slot;
    OneRecord(r.db, g, Attempt(c));
    var c' := c.(version := r.db.rows[Key(g, slot)].version + 1);
    var r' := Race(r.db, r.clients[i := c']);
    assert Try(g, r, i) == r';
    PendingUpdate(r.clients, i, c');
    StaleUpdate(r.db.rows, g, r.clients, i, c');
    forall s
      ensures PendingOn(r'.clients, s) == PendingOn(r.clients, s)
    {
      PendingOnUpdate(r.clients, i, c', s);
    }
    assert ClientRoom(c, r.clients);
    forall j | 0 <= j < |r'.clients|
      ensures ClientRoom(r'.clients[j], r'.clients)
    {
      RoomGrows(if j == i then c' else r.clients[j], r.clients, r'.clients);
    }
  }

  lemma AcceptedPush(g: string, r: Race, i: nat)
    requires g in r.db.counters && ClientsRoom(r) && HasWork(r, i) && !IsStale(r.db.rows, g, r.clients[i])
    ensures var c := r.clients[i];
            var w, next := Attempt(c), r.db.counters[g] + 1;
            Try(g, r, i) == Race(r.db.(rows := r.db.rows[Key(g, w.slot) := RowOf(w, next)],
                                       counters := r.db.counters[g := next]),
                                 r.clients[i := StartNext(c.todo[1..])])
  {
    var c := r.clients[i];
    assert ClientRoom(c, r.clients);
    PendingOnUpdate(r.clients, i, c, c.todo[0].slot);
    OneRecord(r.db, g, Attempt(c));
  }

  /** What an acceptance does to the pending updates, slot by slot and in total. */
  lemma AcceptedPending(cs: seq<Client>, i: nat)
    requires i < |cs| && cs[i].todo != []
    ensures var cs' := cs[i := StartNext(cs[i].todo[1..])];
            && Pending(cs') == Pending(cs) - 1
            && (forall slot :: PendingOn(cs', slot) == PendingOn(cs, slot) - (if slot == cs[i].todo[0].slot then 1 else 0))
  {
    var c' := StartNext(cs[i].todo[1..]);
    PendingUpdate(cs, i, c');
    forall slot
      ensures PendingOn(cs[i := c'], slot) == PendingOn(cs, slot) - (if slot == cs[i].todo[0].slot then 1 else 0)
    {
      PendingOnUpdate(cs, i, c', slot);
    }
  }

  lemma AcceptKeepsClientsRoom(cs: seq<Client>, i: nat)
    requires i < |cs| && cs[i].todo != [] && forall j | 0 <= j < |cs| :: ClientRoom(cs[j], cs)
    ensures var cs' := cs[i := StartNext(cs[i].todo[1..])];
            forall j | 0 <= j < |cs'| :: ClientRoom(cs'[j], cs')
  {
    var todo := cs[i].todo[1..];
    var cs' := cs[i := StartNext(todo)];
    AcceptedPending(cs, i);
    assert ClientRoom(cs[i], cs);
    assert forall j | 0 <= j < |todo| :: todo[j] == cs[i].todo[j + 1];
    assert ClientRoom(StartNext(todo), cs);
    forall j | 0 <= j < |cs'|
      ensures ClientRoom(cs'[j], cs')
    {
      RoomGrows(if j == i then StartNext(todo) else cs[j], cs, cs');
    }
  }

  lemma AcceptKeepsHeadroom(g: string, r: Race, i: nat)
    requires Headroom(g, r) && HasWork(r, i) && !IsStale(r.db.rows, g, r.clients[i])
    ensures Headroom(g, Try(g, r, i))
    ensures Pending(Try(g, r, i).clients) == Pending(r.clients) - 1
  {
    AcceptedPush(g, r, i);
    AcceptedPending(r.clients, i);
    AcceptKeepsClientsRoom(r.clients, i);
    assert ClientRoom(r.clients[i], r.clients);
    PendingOnUpdate(r.clients, i, r.clients[i], r.clients[i].todo[0].slot);
  }

  lemma AcceptProgress(g: string, r: Race, i: nat)
    requires Headroom(g, r) && HasWork(r, i) && !IsStale(r.db.rows, g, r.clients[i])
    ensures Measure(g, Try(g, r, i)) < Measure(g, r)
    ensures |Try(g, r, i).clients| == |r.clients|
  {
    AcceptedPush(g, r, i);
    AcceptKeepsHeadroom(g, r, i);
    var r', n := Try(g, r, i), |r.clients|;
    assert |r'.clients| == n;
    StaleBounded(r'.db.rows, g, r'.clients);
    OneLessPending(Pending(r.clients), n, StaleCount(r'.db.rows, g, r'.clients));
  }

  lemma OneLessPending(p: int, n: int, stale: int)
    requires stale <= n
    ensures (p - 1) * (n + 1) + stale < p * (n + 1)
  {
  }

  /** Each push by a client with work lowers the measure; a conflict is not wasted. */
  lemma TryDecreases(g: string, r: Race, i: nat)
    requires Headroom(g, r) && HasWork(r, i)
    ensures Headroom(g, Try(g, r, i)) && Measure(g, Try(g, r, i)) < Measure(g, r)
    ensures |Try(g, r, i).clients| == |r.clients|
    ensures Try(g, r, i).db.counters[g] + Pending(Try(g, r, i).clients) == r.db.counters[g] + Pending(r.clients)
  {
    if IsStale(r.db.rows, g, r.clients[i]) {
      ConflictProgress(g, r, i);
    } else {
      AcceptedPush(g, r, i);
      AcceptKeepsHeadroom(g, r, i);
      AcceptProgress(g, r, i);
    }
  }

  // ---------- whole schedules ----------

  /** Pushes actually sent; a client without work sends nothing. */
  function Pushes(g: string, r: Race, sched: seq<nat>): nat
    decreases sched
  {
    if sched == [] then 0
    else (if HasWork(r, sched[0]) then 1 else 0) + Pushes(g, Try(g, r, sched[0]), sched[1..])
  }

  /** Whatever the schedule, the pushes sent are bounded by the measure at the start, and
      the counter has risen by exactly the updates no longer pending. */
  lemma {:induction false} PushesBounded(g: string, r: Race, sched: seq<nat>)
    requires Headroom(g, r)
    ensures var r' := Exec(g, r, sched);
            && Headroom(g, r') && |r'.clients| == |r.clients|
            && Measure(g, r') + Pushes(g, r, sched) <= Measure(g, r)
            && r'.db.counters[g] + Pending(r'.clients) == r.db.counters[g] + Pending(r.clients)
    decreases sched
  {
    if sched == [] {
    } else {
      if HasWork(r, sched[0]) {
        TryDecreases(g, r, sched[0]);
      }
      PushesBounded(g, Try(g, r, sched[0]), sched[1..]);
    }
  }

  predicate Done(r: Race) {
    forall i | 0 <= i < |r.clients| :: r.clients[i].todo == []
  }

  /** In a fair round every client gets a turn. */
  ghost predicate Fair(round: seq<nat>, n: nat) {
    forall i: nat | i < n :: i in round
  }

  lemma {:induction false} RoundPushes(g: string, r: Race, round: seq<nat>, i: nat)
    requires HasWork(r, i) && i in round
    ensures Pushes(g, r, round) >= 1
    decreases round
  {
    if !HasWork(r, round[0]) {
      assert round[0] != i;
      RoundPushes(g, r, round[1..], i);
    }
  }

  function ExecRounds(g: string, r: Race, rounds: seq<seq<nat>>): Race
    decreases rounds
  {
    if rounds == [] then r else ExecRounds(g, Exec(g, r, rounds[0]), rounds[1..])
  }

  lemma {:induction false} NothingPendingIsDone(cs: seq<Client>)
    ensures Pending(cs) == 0 <==> forall i | 0 <= i < |cs| :: cs[i].todo == []
    decreases cs
  {
    if cs == [] {
    } else {
      NothingPendingIsDone(cs[1..]);
      assert forall i | 1 <= i < |cs| :: cs[i] == cs[1..][i - 1];
    }
  }

  /** All intended updates of all clients are accepted: after as many fair rounds as the
      measure counts, nobody has work, and the counter rose once per intended update. */
  lemma {:induction false} AllUpdatesAccepted(g: string, r: Race, rounds: seq<seq<nat>>)
    requires Headroom(g, r)
    requires forall round | round in rounds :: Fair(round, |r.clients|)
    requires |rounds| >= Measure(g, r)
    ensures Done(ExecRounds(g, r, rounds))
    ensures g in ExecRounds(g, r, rounds).db.counters
    ensures ExecRounds(g, r, rounds).db.counters[g] == r.db.counters[g] + Pending(r.clients)
    decreases rounds
  {
    NothingPendingIsDone(r.clients);
    if rounds == [] {
      assert Pending(r.clients) == 0;
    } else {
      var r' := Exec(g, r, rounds[0]);
      PushesBounded(g, r, rounds[0]);
      if i: nat :| HasWork(r, i) {
        assert Fair(rounds[0], |r.clients|);
        RoundPushes(g, r, rounds[0], i);
      } else {
        DoneIsQuiet(g, r);
      }
      assert |rounds| - 1 >= Measure(g, r');
      AllUpdatesAccepted(g, r', rounds[1..]);
    }
  }

  lemma {:induction false} AllFresh(rows: map<Key, Row>, g: string, cs: seq<Client>)
    requires forall i | 0 <= i < |cs| :: cs[i].todo == []
    ensures StaleCount(rows, g, cs) == 0
    decreases cs
  {
    if cs == [] {
    } else {
      assert forall i | 0 <= i < |cs[1..]| :: cs[1..][i] == cs[i + 1];
      AllFresh(rows, g, cs[1..]);
    }
  }

  lemma DoneIsQuiet(g: string, r: Race)
    requires forall i: nat :: !HasWork(r, i)
    ensures Measure(g, r) == 0
  {
    forall i | 0 <= i < |r.clients|
      ensures r.clients[i].todo == []
    {
      assert !HasWork(r, i);
    }
    NothingPendingIsDone(r.clients);
    AllFresh(r.db.rows, g, r.clients);
  }

  // ---------- the room is needed ----------

  /** Values the version column can hold. */
  ghost predicate RowsInRange(g: string, r: Race) {
    g in r.db.counters && forall slot | Key(g, slot) in r.db.rows :: r.db.rows[Key(g, slot)].version <= MAX_INTEGER
  }

  /** No push lowers a slot's version plus its pending updates. */
  lemma TryKeepsDemand(g: string, r: Race, i: nat, slot: Slot)
    requires RowsInRange(g, r) && Key(g, slot) in r.db.rows
    ensures var r' := Try(g, r, i);
            && RowsInRange(g, r') && Key(g, slot) in r'.db.rows
            && r'.db.rows[Key(g, slot)].version + PendingOn(r'.clients, slot) >=
               r.db.rows[Key(g, slot)].version + PendingOn(r.clients, slot)
  {
    if HasWork(r, i) {
      var c := r.clients[i];
      OneRecord(r.db, g, Attempt(c));
      if IsStale(r.db.rows, g, c) {
        PendingOnUpdate(r.clients, i, c.(version := r.db.rows[Key(g, c.todo[0].slot)].version + 1), slot);
      } else {
        AcceptedPending(r.clients, i);
      }
    }
  }

  lemma {:induction false} ExecKeepsDemand(g: string, r: Race, sched: seq<nat>, slot: Slot)
    requires RowsInRange(g, r) && Key(g, slot) in r.db.rows
    ensures var r' := Exec(g, r, sched);
            && RowsInRange(g, r') && Key(g, slot) in r'.db.rows
            && r'.db.rows[Key(g, slot)].version + PendingOn(r'.clients, slot) >=
               r.db.rows[Key(g, slot)].version + PendingOn(r.clients, slot)
    decreases sched
  {
    if sched == [] {
    } else {
      TryKeepsDemand(g, r, sched[0], slot);
      ExecKeepsDemand(g, Try(g, r, sched[0]), sched[1..], slot);
    }
  }

  lemma {:induction false} RoundsKeepDemand(g: string, r: Race, rounds: seq<seq<nat>>, slot: Slot)
    requires RowsInRange(g, r) && Key(g, slot) in r.db.rows
    ensures var r' := ExecRounds(g, r, rounds);
            && RowsInRange(g, r') && Key(g, slot) in r'.db.rows
            && r'.db.rows[Key(g, slot)].version + PendingOn(r'.clients, slot) >=
               r.db.rows[Key(g, slot)].version + PendingOn(r.clients, slot)
    decreases rounds
  {
    if rounds == [] {
    } else {
      ExecKeepsDemand(g, r, rounds[0], slot);
      RoundsKeepDemand(g, Exec(g, r, rounds[0]), rounds[1..], slot);
    }
  }

  lemma {:induction false} DoneHasNothingPending(cs: seq<Client>, slot: Slot)
    requires forall i | 0 <= i < |cs| :: cs[i].todo == []
    ensures PendingOn(cs, slot) == 0
    decreases cs
  {
    if cs != [] {
      assert forall i | 0 <= i < |cs[1..]| :: cs[1..][i] == cs[i + 1];
      DoneHasNothingPending(cs[1..], slot);
    }
  }

  /** The room of the rows is exact: where no client starts too far up, enough fair rounds
      complete all updates iff every row is as far below 2^63 as its slot has pending
      updates. Without that room no schedule completes them. */
  lemma CompletesIff(g: string, r: Race, rounds: seq<seq<nat>>)
    requires RowsInRange(g, r) && ClientsRoom(r)
    requires forall slot | Key(g, slot) in r.db.rows :: MIN_INTEGER <= r.db.rows[Key(g, slot)].version
    requires forall round | round in rounds :: Fair(round, |r.clients|)
    requires |rounds| >= Measure(g, r)
    ensures Done(ExecRounds(g, r, rounds)) <==> RowRoom(g, r)
  {
    if RowRoom(g, r) {
      AllUpdatesAccepted(g, r, rounds);
    }
    if Done(ExecRounds(g, r, rounds)) {
      forall slot | Key(g, slot) in r.db.rows
        ensures r.db.rows[Key(g, slot)].version <= MAX_INTEGER - PendingOn(r.clients, slot)
      {
        RoundsKeepDemand(g, r, rounds, slot);
        DoneHasNothingPending(ExecRounds(g, r, rounds).clients, slot);
      }
    }
  }

  // ---------- who is to blame for a failed retry ----------

  /** The push of client k in state r is accepted and writes the slot. */
  predicate Writes(g: string, r: Race, k: nat, slot: Slot) {
    HasWork(r, k) && r.clients[k].todo[0].slot == slot &&
    var reply := Upsert(r.db, g, [Attempt(r.clients[k])]).1;
    reply.Some? && reply.value.accepted != []
  }

  lemma OnlyWritersChangeSlot(g: string, r: Race, k: nat, slot: Slot)
    requires g in r.db.counters && !Writes(g, r, k, slot)
    ensures var key, rows' := Key(g, slot), Try(g, r, k).db.rows;
            (key in rows' <==> key in r.db.rows) && (key in rows' ==> rows'[key] == r.db.rows[key])
    ensures g in Try(g, r, k).db.counters
  {
    if HasWork(r, k) {
      OneRecord(r.db, g, Attempt(r.clients[k]));
    }
  }

  /** A client whose push is not stale finds it stale later only if some other client's
      accepted write to the slot came in between. */
  lemma {:induction false} StaleOnlyByWrite(g: string, r: Race, i: nat, mid: seq<nat>)
    returns (k: nat)
    requires g in r.db.counters && HasWork(r, i) && i !in mid
    requires !IsStale(r.db.rows, g, r.clients[i])
    requires i < |Exec(g, r, mid).clients| && IsStale(Exec(g, r, mid).db.rows, g, Exec(g, r, mid).clients[i])
    ensures k < |mid| && mid[k] != i && Writes(g, Exec(g, r, mid[..k]), mid[k], r.clients[i].todo[0].slot)
    decreases mid
  {
    var slot := r.clients[i].todo[0].slot;
    assert mid != [];
    if Writes(g, r, mid[0], slot) {
      k := 0;
    } else {
      OnlyWritersChangeSlot(g, r, mid[0], slot);
      var r' := Try(g, r, mid[0]);
      assert mid[0] != i && r'.clients[i] == r.clients[i];
      var k' := StaleOnlyByWrite(g, r', i, mid[1..]);
      k := k' + 1;
      assert mid[..k][1..] == mid[1..][..k'];
    }
  }

  /** Client i failed, rebased, others ran `mid`, and i failed again: one of the pushes
      of `mid`, by somebody else, was an accepted write to the slot. */
  lemma FailedRetryIsCharged(g: string, r: Race, i: nat, mid: seq<nat>) returns (k: nat)
    requires g in r.db.counters && HasWork(r, i) && IsStale(r.db.rows, g, r.clients[i]) && i !in mid
    requires var r2 := Exec(g, Try(g, r, i), mid);
             i < |r2.clients| && IsStale(r2.db.rows, g, r2.clients[i])
    ensures k < |mid| && mid[k] != i
    ensures Writes(g, Exec(g, Try(g, r, i), mid[..k]), mid[k], r.clients[i].todo[0].slot)
  {
    OneRecord(r.db, g, Attempt(r.clients[i]));
    k := StaleOnlyByWrite(g, Try(g, r, i), i, mid);
  }

  // ---------- failures over a whole schedule ----------

  /** The pushes of client i that are answered with a conflict. */
  function Conflicts(g: string, r: Race, sched: seq<nat>, i: nat): nat
    decreases sched
  {
    if sched == [] then 0
    else (if sched[0] == i && HasWork(r, i) && IsStale(r.db.rows, g, r.clients[i]) then 1 else 0) +
         Conflicts(g, Try(g, r, sched[0]), sched[1..], i)
  }

  /** Accepted writes of others to the slot client i is working on at that moment. */
  function ForeignWrites(g: string, r: Race, sched: seq<nat>, i: nat): nat
    decreases sched
  {
    if sched == [] then 0
    else (if sched[0] != i && HasWork(r, i) && Writes(g, r, sched[0], r.clients[i].todo[0].slot) then 1 else 0) +
         ForeignWrites(g, Try(g, r, sched[0]), sched[1..], i)
  }

  /** Updates of client i that are accepted. */
  function OwnUpdates(g: string, r: Race, sched: seq<nat>, i: nat): nat
    decreases sched
  {
    if sched == [] then 0
    else (if sched[0] == i && HasWork(r, i) && Writes(g, r, i, r.clients[i].todo[0].slot) then 1 else 0) +
         OwnUpdates(g, Try(g, r, sched[0]), sched[1..], i)
  }

  function StartsStale(g: string, r: Race, i: nat): nat {
    if HasWork(r, i) && IsStale(r.db.rows, g, r.clients[i]) then 1 else 0
  }

  /** Each failure is charged to a write of its own: over any schedule a client fails at
      most once per accepted write of another client to the slot it is working on, plus
      once per update for the version it starts from. */
  lemma {:induction false} FailuresAreCharged(g: string, r: Race, sched: seq<nat>, i: nat)
    requires g in r.db.counters
    ensures Conflicts(g, r, sched, i) <=
            StartsStale(g, r, i) + ForeignWrites(g, r, sched, i) + OwnUpdates(g, r, sched, i)
    decreases sched
  {
    if sched == [] {
    } else {
      var k, r' := sched[0], Try(g, r, sched[0]);
      ChargeOneStep(g, r, k, i);
      FailuresAreCharged(g, r', sched[1..], i);
    }
  }

  lemma ChargeOneStep(g: string, r: Race, k: nat, i: nat)
    requires g in r.db.counters
    ensures g in Try(g, r, k).db.counters
    ensures StartsStale(g, Try(g, r, k), i) +
            (if k == i && HasWork(r, i) && IsStale(r.db.rows, g, r.clients[i]) then 1 else 0) <=
            StartsStale(g, r, i) +
            (if k != i && HasWork(r, i) && Writes(g, r, k, r.clients[i].todo[0].slot) then 1 else 0) +
            (if k == i && HasWork(r, i) && Writes(g, r, i, r.clients[i].todo[0].slot) then 1 else 0)
  {
    if HasWork(r, k) {
      OneRecord(r.db, g, Attempt(r.clients[k]));
    }
    if k != i && HasWork(r, i) && !Writes(g, r, k, r.clients[i].todo[0].slot) {
      OnlyWritersChangeSlot(g, r, k, r.clients[i].todo[0].slot);
    }
  }

  // ---------- what the pushes leave behind ----------

  /** The row holds the update as encrypted for the row's own version, which is at least the
      version the update was first tried at. */
  predicate SealedBy(row: Row, intent: Intent) {
    var p := intent.seal(row.version);
    && row.version >= intent.first
    && row.nonce == p.nonce && row.ciphertext == p.ciphertext && row.alg == p.alg
    && row.tombstone == (if p.tombstone then 1 else 0)
  }

  ghost predicate Planned(cs: seq<Client>, slot: Slot, row: Row) {
    exists i, j :: 0 <= i < |cs| && 0 <= j < |cs[i].todo| && cs[i].todo[j].slot == slot && SealedBy(row, cs[i].todo[j])
  }

  ghost predicate VersionsStarted(cs: seq<Client>) {
    forall i | 0 <= i < |cs| && cs[i].todo != [] :: cs[i].version >= cs[i].todo[0].first
  }

  /** What is to be done is the end of what was to be done. */
  ghost predicate Ends(cs: seq<Client>, cs': seq<Client>) {
    && |cs'| == |cs|
    && forall i | 0 <= i < |cs| :: |cs'[i].todo| <= |cs[i].todo| && cs'[i].todo == cs[i].todo[|cs[i].todo| - |cs'[i].todo|..]
  }

  lemma PlannedBefore(cs: seq<Client>, cs': seq<Client>, slot: Slot, row: Row)
    requires Ends(cs, cs') && Planned(cs', slot, row)
    ensures Planned(cs, slot, row)
  {
    var i, j :| 0 <= i < |cs'| && 0 <= j < |cs'[i].todo| && cs'[i].todo[j].slot == slot && SealedBy(row, cs'[i].todo[j]);
    var k := |cs[i].todo| - |cs'[i].todo| + j;
    assert cs[i].todo[k] == cs'[i].todo[j];
  }

  lemma TrySeals(g: string, r: Race, i: nat)
    requires g in r.db.counters && VersionsStarted(r.clients)
    ensures var r' := Try(g, r, i);
            && g in r'.db.counters && VersionsStarted(r'.clients) && Ends(r.clients, r'.clients)
            && forall slot | Key(g, slot) in r'.db.rows ::
                 || (Key(g, slot) in r.db.rows && r'.db.rows[Key(g, slot)] == r.db.rows[Key(g, slot)])
                 || Planned(r.clients, slot, r'.db.rows[Key(g, slot)])
  {
    if HasWork(r, i) {
      var c, r' := r.clients[i], Try(g, r, i);
      var w := Attempt(c);
      OneRecord(r.db, g, w);
      forall slot | Key(g, slot) in r'.db.rows &&
                    !(Key(g, slot) in r.db.rows && r'.db.rows[Key(g, slot)] == r.db.rows[Key(g, slot)])
        ensures Planned(r.clients, slot, r'.db.rows[Key(g, slot)])
      {
        assert slot == w.slot && Carries(r'.db.rows[Key(g, slot)], w);
        assert SealedBy(r'.db.rows[Key(g, slot)], r.clients[i].todo[0]);
      }
    }
  }

  /** After any schedule every row of the group is one that was there at the start, or an
      update some client had to do in that slot, encrypted for the very version it is
      stored under: no retry stores a payload made for another version. */
  lemma {:induction false} RowsAreSealed(g: string, r: Race, sched: seq<nat>, slot: Slot)
    requires g in r.db.counters && VersionsStarted(r.clients)
    ensures var r' := Exec(g, r, sched);
            Key(g, slot) in r'.db.rows ==>
              || (Key(g, slot) in r.db.rows && r'.db.rows[Key(g, slot)] == r.db.rows[Key(g, slot)])
              || Planned(r.clients, slot, r'.db.rows[Key(g, slot)])
    decreases sched
  {
    if sched == [] {
    } else {
      var r1, r' := Try(g, r, sched[0]), Exec(g, r, sched);
      TrySeals(g, r, sched[0]);
      RowsAreSealed(g, r1, sched[1..], slot);
      if Key(g, slot) in r'.db.rows && Planned(r1.clients, slot, r'.db.rows[Key(g, slot)]) {
        PlannedBefore(r.clients, r1.clients, slot, r'.db.rows[Key(g, slot)]);
      }
    }
  }
}
