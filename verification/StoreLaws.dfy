/**
 Laws of one store operation: what a batch does to the tables, that batches
 compose and fail as a whole, and the invariant every operation keeps.
 */
module StoreLaws {
  import opened Basics
  import opened SyncStore

  // ---------- what a batch does ----------

  /** From t to t', in a transaction of group g: rows are never removed, a changed
      row has a larger version and a seq that is new to the group, the rows of
      other groups stay, and every accepted record is one tick of the counter. */
  ghost predicate Advances(t: Txn, g: string, t': Txn) {
    && t.seqNo <= t'.seqNo
    && |t'.accepted| - |t.accepted| == t'.seqNo - t.seqNo
    && (forall k | k in t.rows ::
          && k in t'.rows
          && (t'.rows[k] == t.rows[k] || (t.rows[k].version < t'.rows[k].version && Fresh(t, g, t', k))))
    && (forall k | k in t'.rows && k !in t.rows :: Fresh(t, g, t', k))
  }

  /** The values the schema means: a 0/1 tombstone and a 64-bit version. */
  predicate Typed(row: Row) {
    row.tombstone in {0, 1} && MIN_INTEGER <= row.version <= MAX_INTEGER
  }

  /** The row holds what the record carries; a record without alg is stored as "unknown". */
  predicate Carries(row: Row, w: Wire) {
    && row.nonce == w.nonce && row.ciphertext == w.ciphertext && w.version == Some(row.version)
    && row.tombstone == (if w.tombstone then 1 else 0)
    && (w.alg.Some? ==> row.alg == w.alg.value) && (w.alg.None? ==> row.alg == "unknown")
  }

  ghost predicate Fresh(t: Txn, g: string, t': Txn, k: Key)
    requires k in t'.rows
  {
    k.group == g && t.seqNo < t'.rows[k].seqNo <= t'.seqNo && Typed(t'.rows[k])
  }

  lemma {:induction false} PushAdvances(t: Txn, g: string, ws: seq<Wire>)
    requires PushAll(t, g, ws).Some?
    ensures Advances(t, g, PushAll(t, g, ws).value)
    decreases ws
  {
    if ws == [] {
    } else {
      PushAdvances(PushOne(t, g, ws[0]).value, g, ws[1..]);
    }
  }

  /** Slot and version of the records a batch asks for, and of those its answers name. */
  function Asked(ws: seq<Wire>): multiset<(Slot, Option<int>)>
    decreases ws
  {
    if ws == [] then multiset{} else multiset{(ws[0].slot, ws[0].version)} + Asked(ws[1..])
  }

  function NamedAccepted(entries: seq<Accepted>): multiset<(Slot, Option<int>)>
    decreases entries
  {
    if entries == [] then multiset{}
    else
      var last := entries[|entries| - 1];
      NamedAccepted(entries[..|entries| - 1]) + multiset{(last.slot, Some(last.version))}
  }

  function NamedConflicts(entries: seq<Conflict>): multiset<(Slot, Option<int>)>
    decreases entries
  {
    if entries == [] then multiset{}
    else
      var last := entries[|entries| - 1];
      NamedConflicts(entries[..|entries| - 1]) + multiset{(last.slot, Some(last.yourVersion))}
  }

  function Answered(t: Txn): multiset<(Slot, Option<int>)> {
    NamedAccepted(t.accepted) + NamedConflicts(t.conflicts)
  }

  lemma OneRecordAnswered(t: Txn, g: string, w: Wire)
    requires PushOne(t, g, w).Some?
    ensures Answered(PushOne(t, g, w).value) == Answered(t) + multiset{(w.slot, w.version)}
  {
    var t' := PushOne(t, g, w).value;
    if t'.conflicts == t.conflicts {
      assert t'.accepted[..|t'.accepted| - 1] == t.accepted;
    } else {
      assert t'.conflicts[..|t'.conflicts| - 1] == t.conflicts;
    }
  }

  /** Every record of a batch that commits is answered by exactly one entry with its slot
      and version: accepted and conflicts together grow by precisely the batch. */
  lemma {:induction false} EveryRecordAnswered(t: Txn, g: string, ws: seq<Wire>)
    requires PushAll(t, g, ws).Some?
    ensures Answered(PushAll(t, g, ws).value) == Answered(t) + Asked(ws)
    decreases ws
  {
    if ws == [] {
    } else {
      OneRecordAnswered(t, g, ws[0]);
      EveryRecordAnswered(PushOne(t, g, ws[0]).value, g, ws[1..]);
    }
  }

  /** A record pushed alone, with a version: a conflict reports both versions and changes
      nothing; an accepted record takes the next seq; a refused value changes nothing. */
  lemma OneRecord(db: Db, g: string, w: Wire)
    requires g in db.counters && w.version.Some?
    ensures var key, ver, next := Key(g, w.slot), w.version.value, db.counters[g] + 1;
            var (db', r) := Upsert(db, g, [w]);
            if key in db.rows && ver <= db.rows[key].version then
              db' == db && r == Some(PushReply([], [Conflict(w.slot, ver, db.rows[key].version)], db.counters[g]))
            else if w.bindable && -0x8000_0000_0000_0000 <= ver <= 0x7fff_ffff_ffff_ffff then
              db' == db.(rows := db.rows[key := RowOf(w, next)], counters := db.counters[g := next]) &&
              Carries(db'.rows[key], w) && db'.rows[key].seqNo == next &&
              r == Some(PushReply([Accepted(w.slot, ver)], [], next))
            else
              db' == db && r.None?
  {
    var t := Begin(db, g);
    assert [w][1..] == [];
    assert PushAll(t, g, [w]) == PushOne(t, g, w) by {
      if PushOne(t, g, w).Some? {
        assert PushAll(PushOne(t, g, w).value, g, [w][1..]) == PushOne(t, g, w);
      }
    }
    assert forall x: Accepted :: [] + [x] == [x];
    assert forall x: Conflict :: [] + [x] == [x];
    assert db.counters == db.counters[g := db.counters[g]];
  }

  // ---------- batches compose ----------

  function ThenPush(t: Option<Txn>, g: string, ws: seq<Wire>): Option<Txn> {
    if t.None? then None else PushAll(t.value, g, ws)
  }

  lemma {:induction false} PushAppend(t: Txn, g: string, a: seq<Wire>, b: seq<Wire>)
    ensures PushAll(t, g, a + b) == ThenPush(PushAll(t, g, a), g, b)
    decreases a
  {
    if a == [] {
      assert a + b == b;
    } else {
      assert (a + b)[0] == a[0] && (a + b)[1..] == a[1..] + b;
      if PushOne(t, g, a[0]).Some? {
        PushAppend(PushOne(t, g, a[0]).value, g, a[1..], b);
      }
    }
  }

  /** What the two answer lists already hold has no influence; it is kept in front. */
  function Behind(accepted: seq<Accepted>, conflicts: seq<Conflict>, t: Txn): Txn {
    t.(accepted := accepted + t.accepted, conflicts := conflicts + t.conflicts)
  }

  lemma {:induction false} PushCarriesAnswers(t: Txn, g: string, ws: seq<Wire>, acc: seq<Accepted>, con: seq<Conflict>)
    ensures var plain, carried := PushAll(t, g, ws), PushAll(Behind(acc, con, t), g, ws);
            plain.Some? == carried.Some? && (plain.Some? ==> carried.value == Behind(acc, con, plain.value))
    decreases ws
  {
    if ws == [] {
    } else {
      var one, carried := PushOne(t, g, ws[0]), PushOne(Behind(acc, con, t), g, ws[0]);
      assert one.Some? == carried.Some?;
      if one.Some? {
        assert carried.value == Behind(acc, con, one.value) by {
          assert forall x :: acc + (t.accepted + [x]) == (acc + t.accepted) + [x];
          assert forall x :: con + (t.conflicts + [x]) == (con + t.conflicts) + [x];
        }
        PushCarriesAnswers(one.value, g, ws[1..], acc, con);
      }
    }
  }

  /** Pushing a + b is pushing a and then b: same tables, the answer lists one after
      the other, the counter of the second. It raises exactly when one of the two
      would, and then nothing of a is left either. */
  ghost predicate Splits(db: Db, g: string, a: seq<Wire>, b: seq<Wire>) {
    var (dbA, ra) := Upsert(db, g, a);
    var (dbB, rb) := Upsert(dbA, g, b);
    var (dbAB, rab) := Upsert(db, g, a + b);
    if ra.Some? && rb.Some? then
      dbAB == dbB &&
      rab == Some(PushReply(ra.value.accepted + rb.value.accepted,
                            ra.value.conflicts + rb.value.conflicts, rb.value.serverSeq))
    else
      rab.None? && dbAB == db
  }

  lemma BatchSplits(db: Db, g: string, a: seq<Wire>, b: seq<Wire>)
    requires g in db.counters
    ensures Splits(db, g, a, b)
  {
    SplitsFrom(db, g, a, b);
  }

  lemma SplitsFrom(db: Db, g: string, a: seq<Wire>, b: seq<Wire>)
    requires g in db.counters || (Upsert(db, g, a).1.Some? ==> Upsert(db, g, a).1.value.accepted == [])
    ensures Splits(db, g, a, b)
  {
    PushAppend(Begin(db, g), g, a, b);
    var ta := PushAll(Begin(db, g), g, a);
    if ta.Some? {
      PushAdvances(Begin(db, g), g, a);
      var dbA := Commit(db, g, ta.value);
      var start := Begin(dbA, g);
      PushCarriesAnswers(start, g, b, ta.value.accepted, ta.value.conflicts);
      assert Behind(ta.value.accepted, ta.value.conflicts, start) == ta.value;
    }
  }

  /** For a group without a counter row the final UPDATE finds nothing and the next batch
      starts at 0 again. Two batches that both commit then split exactly if the first one
      accepted nothing. */
  lemma BatchSplitsIff(db: Db, g: string, a: seq<Wire>, b: seq<Wire>)
    requires Upsert(db, g, a).1.Some? && Upsert(Upsert(db, g, a).0, g, b).1.Some?
    ensures Splits(db, g, a, b) <==> g in db.counters || Upsert(db, g, a).1.value.accepted == []
  {
    var (dbA, ra) := Upsert(db, g, a);
    var rb := Upsert(dbA, g, b).1;
    if g in db.counters || ra.value.accepted == [] {
      SplitsFrom(db, g, a, b);
    } else {
      PushAdvances(Begin(dbA, g), g, b);
      if PushAll(Begin(db, g), g, a + b).Some? {
        PushAdvances(Begin(db, g), g, a + b);
      }
    }
  }

  // ---------- the invariant ----------

  ghost predicate RowsStamped(rows: map<Key, Row>, counters: map<string, nat>) {
    && (forall k | k in rows ::
          k.group in counters && 1 <= rows[k].seqNo <= counters[k.group] && Typed(rows[k]))
    && SeqsDistinct(rows)
  }

  /** Within a group no two rows have the same seq. */
  ghost predicate SeqsDistinct(rows: map<Key, Row>) {
    forall k, l | k in rows && l in rows && k != l && k.group == l.group :: rows[k].seqNo != rows[l].seqNo
  }

  ghost predicate DbInv(db: Db) {
    db.groups.Keys == db.counters.Keys && RowsStamped(db.rows, db.counters)
  }

  lemma RegisterKeepsInv(db: Db, g: string, hash: Option<string>, salt: Option<string>)
    requires DbInv(db)
    ensures DbInv(Register(db, g, hash, salt).0)
  {
  }

  ghost predicate TxnInv(t: Txn, g: string) {
    && (forall k | k in t.rows && k.group == g :: 1 <= t.rows[k].seqNo <= t.seqNo)
    && SeqsDistinct(t.rows)
  }

  lemma {:induction false} PushKeepsTxnInv(t: Txn, g: string, ws: seq<Wire>)
    requires TxnInv(t, g) && PushAll(t, g, ws).Some?
    ensures TxnInv(PushAll(t, g, ws).value, g)
    decreases ws
  {
    if ws == [] {
    } else {
      PushKeepsTxnInv(PushOne(t, g, ws[0]).value, g, ws[1..]);
    }
  }

  lemma UpsertKeepsInv(db: Db, g: string, ws: seq<Wire>)
    requires DbInv(db) && g in db.groups
    ensures DbInv(Upsert(db, g, ws).0)
  {
    var t := Begin(db, g);
    if PushAll(t, g, ws).Some? {
      PushKeepsTxnInv(t, g, ws);
      PushAdvances(t, g, ws);
    }
  }

  // ---------- stated on the tables ----------

  /** What an upsert of group g does to the tables, whether it commits or not. */
  ghost predicate Evolves(db: Db, g: string, db': Db) {
    && db'.groups == db.groups
    && db'.counters.Keys == db.counters.Keys
    && (forall h | h in db.counters :: db.counters[h] <= db'.counters[h] && (h != g ==> db'.counters[h] == db.counters[h]))
    && (forall k | k in db.rows ::
          && k in db'.rows
          && (db'.rows[k] == db.rows[k] ||
              (db.rows[k].version < db'.rows[k].version && NewlyStamped(db, g, db', k))))
    && (forall k | k in db'.rows && k !in db.rows :: NewlyStamped(db, g, db', k))
  }

  ghost predicate NewlyStamped(db: Db, g: string, db': Db, k: Key)
    requires k in db'.rows
  {
    k.group == g && g in db.counters && db.counters[g] < db'.rows[k].seqNo
  }

  lemma UpsertEvolves(db: Db, g: string, ws: seq<Wire>)
    requires g in db.counters
    ensures var (db', reply) := Upsert(db, g, ws);
            && Evolves(db, g, db')
            && db'.counters[g] == db.counters[g] + (if reply.Some? then |reply.value.accepted| else 0)
            && (reply.Some? ==> reply.value.serverSeq == db'.counters[g])
  {
    var t := Begin(db, g);
    if PushAll(t, g, ws).Some? {
      PushAdvances(t, g, ws);
    }
  }
}
