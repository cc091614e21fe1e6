/**
 Last writer wins by version. The row of a slot is the record that arrived first
 among those of the highest version pushed to it, which makes the stored records
 independent of order, duplication and batching exactly where the records of a slot's
 highest version carry one payload.
 */
module LastWriterWins {
  import opened Basics
  import opened SyncStore
  import opened StoreLaws
  import opened ServerRuns

  function VersionOf(w: Wire): int {
    if w.version.Some? then w.version.value else 0
  }

  /** log[i] is the first record of the highest version that the log holds for the slot. */
  ghost predicate Wins(log: seq<Wire>, slot: Slot, i: int) {
    && 0 <= i < |log|
    && log[i].slot == slot
    && (forall j | 0 <= j < |log| && log[j].slot == slot :: VersionOf(log[j]) <= VersionOf(log[i]))
    && (forall j | 0 <= j < i && log[j].slot == slot :: VersionOf(log[j]) < VersionOf(log[i]))
  }

  ghost predicate HoldsWinner(row: Row, log: seq<Wire>, slot: Slot) {
    exists i :: Wins(log, slot, i) && Carries(row, log[i])
  }

  /** The rows of group g are what last-writer-wins makes of the log. */
  ghost predicate Reflects(rows: map<Key, Row>, g: string, log: seq<Wire>) {
    && (forall slot | Key(g, slot) in rows :: HoldsWinner(rows[Key(g, slot)], log, slot))
    && (forall i | 0 <= i < |log| :: Key(g, log[i].slot) in rows)
  }

  lemma PushOneReflects(t: Txn, g: string, w: Wire, log: seq<Wire>)
    requires Reflects(t.rows, g, log) && PushOne(t, g, w).Some?
    ensures Reflects(PushOne(t, g, w).value.rows, g, log + [w])
  {
    var rows, log' := PushOne(t, g, w).value.rows, log + [w];
    forall slot | Key(g, slot) in rows
      ensures HoldsWinner(rows[Key(g, slot)], log', slot)
    {
      if rows == t.rows || slot != w.slot {
        assert HoldsWinner(t.rows[Key(g, slot)], log, slot);
        var i :| Wins(log, slot, i) && Carries(t.rows[Key(g, slot)], log[i]);
        assert Wins(log', slot, i);
      } else {
        forall j | 0 <= j < |log| && log[j].slot == slot
          ensures VersionOf(log[j]) < VersionOf(w)
        {
          assert HoldsWinner(t.rows[Key(g, slot)], log, slot);
        }
        assert Wins(log', slot, |log|) && Carries(rows[Key(g, slot)], log'[|log|]);
      }
    }
  }

  lemma {:induction false} PushReflects(t: Txn, g: string, ws: seq<Wire>, log: seq<Wire>)
    requires Reflects(t.rows, g, log) && PushAll(t, g, ws).Some?
    ensures Reflects(PushAll(t, g, ws).value.rows, g, log + ws)
    decreases ws
  {
    if ws == [] {
      assert log + ws == log;
    } else {
      assert log + ws == (log + [ws[0]]) + ws[1..] by {
        Associate(log, [ws[0]], ws[1..]);
        assert ws == [ws[0]] + ws[1..];
      }
      PushOneReflects(t, g, ws[0], log);
      PushReflects(PushOne(t, g, ws[0]).value, g, ws[1..], log + [ws[0]]);
    }
  }

  // ---------- over any run of the server ----------

  /** The records of one section that were committed to group g. */
  function CommittedBy(s: Sys, step: Step, g: string): seq<Wire> {
    var reply := Next(s, step).1;
    if step.Act? && step.thread in s.tickets && s.tickets[step.thread].group == g && reply.Pushed? && reply.push.Some? then
      s.tickets[step.thread].action.records
    else
      []
  }

  function Committed(s: Sys, steps: seq<Step>, g: string): seq<Wire>
    decreases steps
  {
    if steps == [] then [] else CommittedBy(s, steps[0], g) + Committed(Next(s, steps[0]).0, steps[1..], g)
  }

  lemma StepReflects(s: Sys, step: Step, g: string, log: seq<Wire>)
    requires Reflects(s.db.rows, g, log)
    ensures Reflects(Next(s, step).0.db.rows, g, log + CommittedBy(s, step, g))
  {
    assert log + [] == log;
    if step.Act? && step.thread in s.tickets && Next(s, step).1.Pushed? {
      var ticket := s.tickets[step.thread];
      var h, ws := ticket.group, ticket.action.records;
      var t := Begin(s.db, h);
      if PushAll(t, h, ws).Some? {
        if h == g {
          PushReflects(t, g, ws, log);
        } else {
          PushSparesOthers(t, h, ws, g);
          OtherGroupsReflect(s.db.rows, PushAll(t, h, ws).value.rows, g, log);
        }
      }
    }
  }

  lemma OtherGroupsReflect(rows: map<Key, Row>, rows': map<Key, Row>, g: string, log: seq<Wire>)
    requires Reflects(rows, g, log) && OnlyRows(rows', g) == OnlyRows(rows, g)
    ensures Reflects(rows', g, log)
  {
    forall slot
      ensures Key(g, slot) in rows' <==> Key(g, slot) in rows
      ensures Key(g, slot) in rows' ==> rows'[Key(g, slot)] == rows[Key(g, slot)]
    {
      assert Key(g, slot) in rows' <==> Key(g, slot) in OnlyRows(rows', g);
    }
  }

  lemma Associate(a: seq<Wire>, b: seq<Wire>, c: seq<Wire>)
    ensures a + (b + c) == (a + b) + c
  {
  }

  lemma {:induction false} RunReflects(s: Sys, steps: seq<Step>, g: string, log: seq<Wire>)
    requires Reflects(s.db.rows, g, log)
    ensures Reflects(Run(s, steps).db.rows, g, log + Committed(s, steps, g))
    decreases steps
  {
    if steps == [] {
      assert log + [] == log;
    } else {
      var s', ws := Next(s, steps[0]).0, CommittedBy(s, steps[0], g);
      assert log + Committed(s, steps, g) == (log + ws) + Committed(s', steps[1..], g) by {
        Associate(log, ws, Committed(s', steps[1..], g));
      }
      StepReflects(s, steps[0], g, log);
      RunReflects(s', steps[1..], g, log + ws);
    }
  }

  /** With no assumption on payloads: after any run, a slot has a row iff some committed
      record addressed it, and the row is the first arrival of the highest version. */
  lemma StoredIsFirstOfHighest(steps: seq<Step>, g: string)
    ensures Reflects(Run(START, steps).db.rows, g, Committed(START, steps, g))
  {
    RunReflects(START, steps, g, []);
    assert [] + Committed(START, steps, g) == Committed(START, steps, g);
  }

  // ---------- an admitted push is stored ----------

  lemma {:induction false} CommittedAppend(s: Sys, a: seq<Step>, b: seq<Step>, g: string)
    ensures Committed(s, a + b, g) == Committed(s, a, g) + Committed(Run(s, a), b, g)
    decreases a
  {
    if a == [] {
      assert a + b == b;
    } else {
      assert (a + b)[1..] == a[1..] + b;
      CommittedAppend(Next(s, a[0]).0, a[1..], b, g);
      Associate(CommittedBy(s, a[0], g), Committed(Next(s, a[0]).0, a[1..], g), Committed(Run(s, a), b, g));
    }
  }

  /** A slot that a committed record addressed has a row, of at least that version. */
  lemma CommittedIsStored(steps: seq<Step>, g: string, w: Wire)
    requires w in Committed(START, steps, g) && w.version.Some?
    ensures var rows := Run(START, steps).db.rows;
            Key(g, w.slot) in rows && rows[Key(g, w.slot)].version >= w.version.value
  {
    var log, rows := Committed(START, steps, g), Run(START, steps).db.rows;
    StoredIsFirstOfHighest(steps, g);
    var i :| 0 <= i < |log| && log[i] == w;
    assert Key(g, log[i].slot) in rows;
    assert HoldsWinner(rows[Key(g, w.slot)], log, w.slot);
  }

  lemma ActCommits(s: Sys, thread: nat, ticket: Ticket)
    requires thread in s.tickets && s.tickets[thread] == ticket && !s.inTransaction
    requires ticket.action.Push? && |ticket.action.records| <= 1000
    requires forall w | w in ticket.action.records :: Storable(w)
    ensures CommittedBy(s, Act(thread), ticket.group) == ticket.action.records
    ensures Next(s, Act(thread)).1.Pushed? && Next(s, Act(thread)).1.push.Some?
  {
    StorableCommits(Begin(s.db, ticket.group), ticket.group, ticket.action.records);
  }

  /** The whole way of a push. In a run from the empty server a request of at most 1000
      storable records is admitted, other threads run, it acts while no transaction is
      open, and more follows. Then it commits, in the place where it acted, and from
      there on every record's slot is stored at its version or a higher one. */
  lemma AdmittedPushIsStored(before: seq<Step>, thread: nat, ticket: Ticket, between: seq<Step>, afterwards: seq<Step>)
    requires Admitted(Run(START, before), Authenticate(thread, ticket, true))
    requires ticket.action.Push? && |ticket.action.records| <= 1000
    requires forall w | w in ticket.action.records :: Storable(w)
    requires Act(thread) !in between
    requires !Run(START, before + [Authenticate(thread, ticket, true)] + between).inTransaction
    ensures var start := before + [Authenticate(thread, ticket, true)] + between;
            var steps := start + [Act(thread)] + afterwards;
            var acted := Next(Run(START, start), Act(thread)).0;
            && Committed(START, steps, ticket.group) ==
                 Committed(START, start, ticket.group) + ticket.action.records + Committed(acted, afterwards, ticket.group)
            && forall w | w in ticket.action.records ::
                 && Key(ticket.group, w.slot) in Run(START, steps).db.rows
                 && w.version.Some? && Run(START, steps).db.rows[Key(ticket.group, w.slot)].version >= w.version.value
  {
    var auth, g, ws := Authenticate(thread, ticket, true), ticket.group, ticket.action.records;
    var start := before + [auth] + between;
    var steps := start + [Act(thread)] + afterwards;
    RunAppend(START, before + [auth], between);
    RunAppend(START, before, [auth]);
    OneStep(Run(START, before), auth, g);
    AdmittedPushActs(Run(START, before), thread, ticket, between);
    var later := Run(START, start);
    ActCommits(later, thread, ticket);
    OneStep(later, Act(thread), g);
    CommittedAppend(START, start, [Act(thread)], g);
    RunAppend(START, start, [Act(thread)]);
    CommittedAppend(START, start + [Act(thread)], afterwards, g);
    forall w | w in ws
      ensures Key(g, w.slot) in Run(START, steps).db.rows
      ensures w.version.Some? && Run(START, steps).db.rows[Key(g, w.slot)].version >= w.version.value
    {
      assert w in Committed(START, steps, g);
      CommittedIsStored(steps, g, w);
    }
  }

  lemma OneStep(s: Sys, step: Step, g: string)
    ensures Run(s, [step]) == Next(s, step).0 && Committed(s, [step], g) == CommittedBy(s, step, g)
  {
    assert [step][1..] == [];
    assert Run(Next(s, step).0, []) == Next(s, step).0;
  }

  // ---------- order does not matter ----------

  ghost predicate SameElements(a: seq<Wire>, b: seq<Wire>) {
    forall w :: w in a <==> w in b
  }

  /** Of the new records for its slot, w has the highest version, and a higher one than all
      that came before. */
  ghost predicate IsTop(base: seq<Wire>, log: seq<Wire>, w: Wire) {
    && w in log
    && (forall x | x in base && x.slot == w.slot :: VersionOf(x) < VersionOf(w))
    && (forall x | x in log && x.slot == w.slot :: VersionOf(x) <= VersionOf(w))
  }

  /** The top records of a slot carry one payload. Records below the top may differ. */
  ghost predicate TopsAgree(base: seq<Wire>, log: seq<Wire>) {
    forall v, w | IsTop(base, log, v) && IsTop(base, log, w) && v.slot == w.slot :: SamePayload(v, w)
  }

  predicate SamePayload(v: Wire, w: Wire) {
    v.nonce == w.nonce && v.ciphertext == w.ciphertext && v.tombstone == w.tombstone &&
    (if v.alg.Some? then v.alg.value else UNKNOWN_ALG) == (if w.alg.Some? then w.alg.value else UNKNOWN_ALG)
  }

  /** Equal but for the seq, which records arrival. */
  predicate SameRecord(r: Row, q: Row) {
    r.(seqNo := 0) == q.(seqNo := 0)
  }

  ghost predicate SameRecords(rows: map<Key, Row>, rows': map<Key, Row>, g: string) {
    forall slot ::
      (Key(g, slot) in rows <==> Key(g, slot) in rows') &&
      (Key(g, slot) in rows ==> SameRecord(rows[Key(g, slot)], rows'[Key(g, slot)]))
  }

  lemma SlotSurvives(rows: map<Key, Row>, log: seq<Wire>, rows': map<Key, Row>, log': seq<Wire>, g: string, slot: Slot)
    requires Reflects(rows, g, log) && Reflects(rows', g, log')
    requires forall w | w in log :: w in log'
    requires Key(g, slot) in rows
    ensures Key(g, slot) in rows'
  {
    assert HoldsWinner(rows[Key(g, slot)], log, slot);
    var i :| Wins(log, slot, i);
    assert log[i] in log';
    var j :| 0 <= j < |log'| && log'[j] == log[i];
  }

  /** Either both winners came before, and are one record, or both are top records. */
  lemma WinnersCorrespond(base: seq<Wire>, a: seq<Wire>, b: seq<Wire>, slot: Slot, i: int, k: int)
    requires SameElements(a, b)
    requires Wins(base + a, slot, i) && Wins(base + b, slot, k)
    ensures (base + a)[i] == (base + b)[k] || (IsTop(base, a, (base + a)[i]) && IsTop(base, a, (base + b)[k]))
  {
    var whole, whole' := base + a, base + b;
    var v, w := whole[i], whole'[k];
    assert v in whole' && w in whole;
    var j :| 0 <= j < |whole'| && whole'[j] == v;
    var l :| 0 <= l < |whole| && whole[l] == w;
    assert VersionOf(v) == VersionOf(w);
    assert i < |base| ==> whole'[i] == v;
    assert k < |base| ==> whole[k] == w;
    if i >= |base| && k >= |base| {
      TopIfNew(base, a, slot, i);
      TopIfNew(base, b, slot, k);
    }
  }

  lemma TopIfNew(base: seq<Wire>, log: seq<Wire>, slot: Slot, i: int)
    requires Wins(base + log, slot, i) && i >= |base|
    ensures IsTop(base, log, (base + log)[i])
  {
    var whole := base + log;
    assert whole[i] == log[i - |base|];
    forall x | x in base && x.slot == slot
      ensures VersionOf(x) < VersionOf(whole[i])
    {
      var j :| 0 <= j < |base| && base[j] == x;
      assert whole[j] == x;
    }
    forall x | x in log && x.slot == slot
      ensures VersionOf(x) <= VersionOf(whole[i])
    {
      var j :| 0 <= j < |log| && log[j] == x;
      assert whole[|base| + j] == x;
    }
  }

  lemma WinnersAgree(row: Row, row': Row, base: seq<Wire>, a: seq<Wire>, b: seq<Wire>, slot: Slot)
    requires HoldsWinner(row, base + a, slot) && HoldsWinner(row', base + b, slot)
    requires SameElements(a, b) && TopsAgree(base, a)
    ensures SameRecord(row, row')
  {
    var i :| Wins(base + a, slot, i) && Carries(row, (base + a)[i]);
    var k :| Wins(base + b, slot, k) && Carries(row', (base + b)[k]);
    WinnersCorrespond(base, a, b, slot, i, k);
    var v, w := (base + a)[i], (base + b)[k];
    assert (base + b)[k] in base + a by {
      assert w in base || w in a;
    }
    assert VersionOf(v) == VersionOf(w);
    assert SamePayload(v, w);
  }

  /** Two histories that continue one log with the same records, in any order and with any
      repetition, leave the same record in every slot, if the top records agree. */
  lemma OrderIndependent(rows: map<Key, Row>, rows': map<Key, Row>, base: seq<Wire>, a: seq<Wire>, b: seq<Wire>, g: string)
    requires Reflects(rows, g, base + a) && Reflects(rows', g, base + b)
    requires SameElements(a, b) && TopsAgree(base, a)
    ensures SameRecords(rows, rows', g)
  {
    forall slot
      ensures Key(g, slot) in rows <==> Key(g, slot) in rows'
      ensures Key(g, slot) in rows ==> SameRecord(rows[Key(g, slot)], rows'[Key(g, slot)])
    {
      assert forall w :: w in base + a <==> w in base + b;
      if Key(g, slot) in rows {
        SlotSurvives(rows, base + a, rows', base + b, g, slot);
        WinnersAgree(rows[Key(g, slot)], rows'[Key(g, slot)], base, a, b, slot);
      }
      if Key(g, slot) in rows' {
        SlotSurvives(rows', base + b, rows, base + a, g, slot);
      }
    }
  }

  // ---------- pushing a collection of records in any batches ----------

  function PushBatches(db: Db, g: string, batches: seq<seq<Wire>>): Db
    decreases batches
  {
    if batches == [] then db else PushBatches(Upsert(db, g, batches[0]).0, g, batches[1..])
  }

  function Flatten(batches: seq<seq<Wire>>): seq<Wire>
    decreases batches
  {
    if batches == [] then [] else batches[0] + Flatten(batches[1..])
  }

  lemma {:induction false} StorableCommits(t: Txn, g: string, ws: seq<Wire>)
    requires forall w | w in ws :: Storable(w)
    ensures PushAll(t, g, ws).Some?
    decreases ws
  {
    if ws == [] {
    } else {
      assert Storable(ws[0]);
      StorableCommits(PushOne(t, g, ws[0]).value, g, ws[1..]);
    }
  }

  lemma {:induction false} BatchesReflect(db: Db, g: string, batches: seq<seq<Wire>>, log: seq<Wire>)
    requires Reflects(db.rows, g, log)
    requires forall w | w in Flatten(batches) :: Storable(w)
    ensures Reflects(PushBatches(db, g, batches).rows, g, log + Flatten(batches))
    decreases batches
  {
    if batches == [] {
      assert log + [] == log;
    } else {
      var b, rest := batches[0], Flatten(batches[1..]);
      assert forall w | w in b :: w in Flatten(batches);
      assert forall w | w in rest :: w in Flatten(batches);
      StorableCommits(Begin(db, g), g, b);
      assert log + Flatten(batches) == (log + b) + rest by {
        Associate(log, b, rest);
      }
      PushReflects(Begin(db, g), g, b, log);
      BatchesReflect(Upsert(db, g, b).0, g, batches[1..], log + b);
    }
  }

  /** However the records of the log are pushed, in any order, with any repetition and in
      any batches, every slot ends with the same record. */
  ghost predicate OrderIrrelevant(db: Db, g: string, log: seq<Wire>) {
    forall batches, batches' ::
      SameElements(Flatten(batches), log) && SameElements(Flatten(batches'), log) ==>
      SameRecords(PushBatches(db, g, batches).rows, PushBatches(db, g, batches').rows, g)
  }

  /** Pushing a top record first stores it, whatever else follows. */
  lemma TopFirstIsStored(db: Db, g: string, base: seq<Wire>, log: seq<Wire>, v: Wire)
    requires Reflects(db.rows, g, base) && forall w | w in log :: Storable(w)
    requires IsTop(base, log, v)
    ensures var rows := PushBatches(db, g, [[v] + log]).rows;
            Key(g, v.slot) in rows && Carries(rows[Key(g, v.slot)], v)
  {
    var batches := [[v] + log];
    assert batches[1..] == [] && Flatten(batches) == ([v] + log) + [];
    assert forall w | w in Flatten(batches) :: w in log;
    BatchesReflect(db, g, batches, base);
    var rows, all := PushBatches(db, g, batches).rows, base + Flatten(batches);
    assert all[|base|] == v;
    assert Key(g, all[|base|].slot) in rows;
    assert HoldsWinner(rows[Key(g, v.slot)], all, v.slot);
    var i :| Wins(all, v.slot, i) && Carries(rows[Key(g, v.slot)], all[i]);
    OnlyFirstTopWins(base, Flatten(batches), v, i);
  }

  lemma OnlyFirstTopWins(base: seq<Wire>, log: seq<Wire>, v: Wire, i: int)
    requires log != [] && log[0] == v && IsTop(base, log, v)
    requires Wins(base + log, v.slot, i)
    ensures i == |base|
  {
    var all := base + log;
    assert all[|base|] == v;
    assert forall j | 0 <= j < |base| :: all[j] == base[j] && base[j] in base;
    assert forall j | 0 <= j < |log| :: all[|base| + j] == log[j] && log[j] in log;
  }

  lemma TopsAgreeSuffices(db: Db, g: string, base: seq<Wire>, log: seq<Wire>, batches: seq<seq<Wire>>, batches': seq<seq<Wire>>)
    requires Reflects(db.rows, g, base) && (forall w | w in log :: Storable(w)) && TopsAgree(base, log)
    requires SameElements(Flatten(batches), log) && SameElements(Flatten(batches'), log)
    ensures SameRecords(PushBatches(db, g, batches).rows, PushBatches(db, g, batches').rows, g)
  {
    SameElementsSameTops(base, Flatten(batches), log);
    BatchesReflect(db, g, batches, base);
    BatchesReflect(db, g, batches', base);
    OrderIndependent(PushBatches(db, g, batches).rows, PushBatches(db, g, batches').rows,
                     base, Flatten(batches), Flatten(batches'), g);
  }

  lemma TopsAgreeNeeded(db: Db, g: string, base: seq<Wire>, log: seq<Wire>, v: Wire, w: Wire)
    requires Reflects(db.rows, g, base) && (forall w | w in log :: Storable(w)) && OrderIrrelevant(db, g, log)
    requires IsTop(base, log, v) && IsTop(base, log, w) && v.slot == w.slot
    ensures SamePayload(v, w)
  {
    TopFirstIsStored(db, g, base, log, v);
    TopFirstIsStored(db, g, base, log, w);
    FlattenOne([v] + log);
    FlattenOne([w] + log);
    assert SameElements(Flatten([[v] + log]), log) && SameElements(Flatten([[w] + log]), log);
    var rows, rows' := PushBatches(db, g, [[v] + log]).rows, PushBatches(db, g, [[w] + log]).rows;
    assert SameRecords(rows, rows', g);
    assert SameRecord(rows[Key(g, v.slot)], rows'[Key(g, v.slot)]);
  }

  /** Order, repetition and batching are irrelevant to what a group with log `base` stores
      iff the top records agree. */
  lemma OrderIrrelevantIff(db: Db, g: string, base: seq<Wire>, log: seq<Wire>)
    requires Reflects(db.rows, g, base) && forall w | w in log :: Storable(w)
    ensures OrderIrrelevant(db, g, log) <==> TopsAgree(base, log)
  {
    if TopsAgree(base, log) {
      forall batches, batches' | SameElements(Flatten(batches), log) && SameElements(Flatten(batches'), log)
        ensures SameRecords(PushBatches(db, g, batches).rows, PushBatches(db, g, batches').rows, g)
      {
        TopsAgreeSuffices(db, g, base, log, batches, batches');
      }
    }
    if OrderIrrelevant(db, g, log) {
      forall v, w | IsTop(base, log, v) && IsTop(base, log, w) && v.slot == w.slot
        ensures SamePayload(v, w)
      {
        TopsAgreeNeeded(db, g, base, log, v, w);
      }
    }
  }

  lemma FlattenOne(batch: seq<Wire>)
    ensures Flatten([batch]) == batch
  {
    assert [batch][1..] == [] && batch + [] == batch;
  }

  lemma SameElementsSameTops(base: seq<Wire>, a: seq<Wire>, b: seq<Wire>)
    requires SameElements(a, b) && TopsAgree(base, b)
    ensures TopsAgree(base, a)
  {
    assert forall w :: IsTop(base, a, w) ==> IsTop(base, b, w);
  }

  /** In every reachable state. */
  lemma RebatchingIsIrrelevant(steps: seq<Step>, g: string, log: seq<Wire>)
    requires forall w | w in log :: Storable(w)
    ensures OrderIrrelevant(Run(START, steps).db, g, log) <==> TopsAgree(Committed(START, steps, g), log)
  {
    StoredIsFirstOfHighest(steps, g);
    OrderIrrelevantIff(Run(START, steps).db, g, Committed(START, steps, g), log);
  }

  /** The smallest case in which it fails: two payloads at one version, in two orders. */
  lemma OrderMattersWithoutIt(g: string)
    ensures var a := Wire(Slot("c", "1"), "a", "", Some(1), false, None, true);
            var b := a.(nonce := "b");
            !SameRecords(PushBatches(EMPTY_DB, g, [[a, b]]).rows, PushBatches(EMPTY_DB, g, [[b, a]]).rows, g)
  {
    var a := Wire(Slot("c", "1"), "a", "", Some(1), false, None, true);
    var b := a.(nonce := "b");
    var key := Key(g, a.slot);
    FirstOfTwoStays(g, a, b);
    FirstOfTwoStays(g, b, a);
    assert "a"[0] != "b"[0];
    assert !SameRecord(RowOf(a, 1), RowOf(b, 1));
  }

  lemma FirstOfTwoStays(g: string, a: Wire, b: Wire)
    requires Storable(a) && a.slot == b.slot && a.version == b.version
    ensures PushBatches(EMPTY_DB, g, [[a, b]]).rows == map[Key(g, a.slot) := RowOf(a, 1)]
  {
    var t := Begin(EMPTY_DB, g);
    var t1 := PushOne(t, g, a).value;
    var t2 := PushOne(t1, g, b).value;
    assert [a, b][1..] == [b] && [b][1..] == [];
    assert PushAll(t1, g, [b]) == PushAll(t2, g, []) == Some(t2);
    assert PushAll(t, g, [a, b]) == PushAll(t1, g, [b]);
    assert [[a, b]][1..] == [];
    assert PushBatches(EMPTY_DB, g, [[a, b]]) == Upsert(EMPTY_DB, g, [a, b]).0;
  }
}
