/** What a device reads is what a device wrote: the pipeline from edit to pulled record. */
module EndToEnd {
  import opened Basics
  import opened SyncStore
  import opened StoreLaws
  import opened ServerRuns
  import opened LastWriterWins
  import opened KeySchedule
  import opened RecordCipher
  import opened RequestAuth
  import opened Progress

  /** Everything committed to the group was encrypted under the group's keys. */
  ghost predicate AllEncrypted(p: Primitives, keys: GroupKeys, log: seq<Wire>) {
    forall w | w in log :: exists e :: w == EncryptRecord(p, keys, e)
  }

  /** Over any run: a pulled record was committed, it is the first arrival of the highest
      version its slot has seen, and it decrypts to the text of the edit it encrypts. */
  lemma PulledMeansLatestEdit(p: Primitives, keys: GroupKeys, steps: seq<Step>, g: string,
                              filter: Option<string>, since: int, recs: seq<Pulled>, i: nat)
    returns (j: int, e: Edit)
    requires AllEncrypted(p, keys, Committed(START, steps, g))
    requires IsFeed(Selected(Run(START, steps).db, g, filter, since), g, recs)
    requires i < |recs|
    ensures var log := Committed(START, steps, g);
            && Wins(log, recs[i].slot, j) && log[j] == EncryptRecord(p, keys, e)
            && e.version == recs[i].version && e.tombstone == recs[i].tombstone && recs[i].alg == AEAD_ALG
            && DecryptRecord(p, keys, recs[i]) == Some(if e.tombstone then [] else e.plaintext)
  {
    var log, db := Committed(START, steps, g), Run(START, steps).db;
    var slot, key := recs[i].slot, Key(g, recs[i].slot);
    assert key in Selected(db, g, filter, since);
    StoredIsFirstOfHighest(steps, g);
    var row := db.rows[key];
    assert HoldsWinner(row, log, slot);
    j :| Wins(log, slot, j) && Carries(row, log[j]);
    assert log[j] in log;
    e :| log[j] == EncryptRecord(p, keys, e);
    assert row == RowOf(log[j], row.seqNo);
    StoredRecordDecrypts(p, keys, e, row.seqNo);
  }

  /** The update is encrypted under the group's keys for each version it is tried at. */
  ghost predicate SealsUnder(p: Primitives, keys: GroupKeys, intent: Intent, text: int -> Bytes) {
    forall version: int :: SealsAt(p, keys, intent, version, text(version))
  }

  ghost predicate SealsAt(p: Primitives, keys: GroupKeys, intent: Intent, version: int, text: Bytes) {
    exists e :: SealOf(p, keys, intent, version, e) && Body(e) == text
  }

  ghost predicate SealOf(p: Primitives, keys: GroupKeys, intent: Intent, version: int, e: Edit) {
    var w := EncryptRecord(p, keys, e);
    && e.slot == intent.slot && e.version == version
    && intent.seal(version) == Payload(w.nonce, w.ciphertext, e.tombstone, AEAD_ALG)
  }

  lemma SealedRowDecrypts(p: Primitives, keys: GroupKeys, intent: Intent, text: int -> Bytes, row: Row)
    requires SealsUnder(p, keys, intent, text) && SealedBy(row, intent)
    ensures DecryptRecord(p, keys, ToPulled(intent.slot, row)) == Some(text(row.version))
  {
    assert SealsAt(p, keys, intent, row.version, text(row.version));
    var e :| SealOf(p, keys, intent, row.version, e) && Body(e) == text(row.version);
    assert row == RowOf(EncryptRecord(p, keys, e), row.seqNo);
    StoredRecordDecrypts(p, keys, e, row.seqNo);
  }

  /** Whatever conflicts a schedule met, every row the clients leave decrypts: to the text of
      an update to that slot, at the version it is stored under. */
  lemma RebasedUpdatesDecrypt(p: Primitives, keys: GroupKeys, g: string, r: Race, sched: seq<nat>,
                              text: (Intent, int) -> Bytes, slot: Slot) returns (i: nat, j: nat)
    requires g in r.db.counters && VersionsStarted(r.clients)
    requires forall c, intent | c in r.clients && intent in c.todo :: SealsUnder(p, keys, intent, v => text(intent, v))
    requires Key(g, slot) in Exec(g, r, sched).db.rows
    requires Key(g, slot) in r.db.rows ==> Exec(g, r, sched).db.rows[Key(g, slot)] != r.db.rows[Key(g, slot)]
    ensures var row := Exec(g, r, sched).db.rows[Key(g, slot)];
            && i < |r.clients| && j < |r.clients[i].todo| && r.clients[i].todo[j].slot == slot
            && DecryptRecord(p, keys, ToPulled(slot, row)) == Some(text(r.clients[i].todo[j], row.version))
  {
    RowsAreSealed(g, r, sched, slot);
    var row := Exec(g, r, sched).db.rows[Key(g, slot)];
    assert Planned(r.clients, slot, row);
    i, j :| i < |r.clients| && j < |r.clients[i].todo| && r.clients[i].todo[j].slot == slot && SealedBy(row, r.clients[i].todo[j]);
    var intent := r.clients[i].todo[j];
    assert r.clients[i] in r.clients && intent in r.clients[i].todo;
    SealedRowDecrypts(p, keys, intent, v => text(intent, v), row);
  }

  /** From pairing to storage. A device pairs; after any traffic it sends a push of storable
      records signed with its keys; after more traffic its thread acts, no transaction being
      open. The push commits, and from then on every slot it names is stored at the
      version it sent or a higher one. */
  lemma SignedPushIsStored(p: Primitives, keys: GroupKeys, before: seq<Step>, salt: Option<string>, later: seq<Step>,
                           thread: nat, ws: seq<Wire>, path: string, body: Bytes,
                           between: seq<Step>, afterwards: seq<Step>)
    requires keys.groupId != ""
    requires Next(Run(START, before), Pair(keys.groupId, Some(AuthHash(p, keys)), salt)).1 == PairReplied(Paired)
    requires thread !in Run(START, before + [Pair(keys.groupId, Some(AuthHash(p, keys)), salt)] + later).tickets
    requires |ws| <= 1000 && (forall w | w in ws :: Storable(w)) && Act(thread) !in between
    requires var auth := SignedRequest(p, keys, thread, Push(ws), "POST", path, body);
             var history := before + [Pair(keys.groupId, Some(AuthHash(p, keys)), salt)] + later;
             !Run(START, history + [auth] + between).inTransaction
    ensures var auth := SignedRequest(p, keys, thread, Push(ws), "POST", path, body);
            var history := before + [Pair(keys.groupId, Some(AuthHash(p, keys)), salt)] + later;
            var rows := Run(START, history + [auth] + between + [Act(thread)] + afterwards).db.rows;
            forall w | w in ws ::
              && Key(keys.groupId, w.slot) in rows
              && w.version.Some? && rows[Key(keys.groupId, w.slot)].version >= w.version.value
  {
    var pair := Pair(keys.groupId, Some(AuthHash(p, keys)), salt);
    var history := before + [pair] + later;
    RunKeeps(START, before);
    PairedIsAcceptedForever(p, Run(START, before), keys, salt, later, "POST", path, body);
    RunAppend(START, before, [pair]);
    RunAppend(START, before + [pair], later);
    OneStep(Run(START, before), pair, keys.groupId);
    SignedIsAdmitted(p, Run(START, history), keys, thread, Push(ws), "POST", path, body);
    AdmittedPushIsStored(history, thread, Ticket(keys.groupId, AuthHash(p, keys), Push(ws)), between, afterwards);
  }
}
