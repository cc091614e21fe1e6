/**
 The sync server's store: three tables, and the four operations that each run
 inside one section of the store's lock.

 `Db` is the value of the tables. The functions over `Db` say what one lock
 section does; class `Store` does it in place, with rollback, and is proved
 against them.
 */
module SyncStore {
  import opened Basics

  // ---------- wire format and tables ----------

  datatype Slot = Slot(collection: string, id: string)

  datatype Key = Key(group: string, slot: Slot)

  /** A record as a client sends it. `version` is None when int() raises on what
      the client sent; `bindable` is false when SQLite refuses one of the other
      values. `tombstone` is the truth value of the field, false if missing. */
  datatype Wire = Wire(slot: Slot, nonce: string, ciphertext: string, version: Option<int>,
                       tombstone: bool, alg: Option<string>, bindable: bool)

  /** A stored row; SQLite keeps the tombstone as an integer. */
  datatype Row = Row(nonce: string, ciphertext: string, version: int, tombstone: int, alg: string, seqNo: nat)

  /** A row as a pull returns it, the tombstone a boolean again. */
  datatype Pulled = Pulled(slot: Slot, nonce: string, ciphertext: string, version: int,
                           tombstone: bool, alg: string, seqNo: nat)

  datatype Group = Group(authHash: string, pairingSalt: Option<string>)

  datatype Db = Db(groups: map<string, Group>, rows: map<Key, Row>, counters: map<string, nat>)

  const EMPTY_DB := Db(map[], map[], map[])

  const UNKNOWN_ALG := "unknown"

  // SQLite's INTEGER column holds signed 64-bit values; binding another integer raises.
  const MAX_INTEGER: int := 0x7fff_ffff_ffff_ffff
  const MIN_INTEGER: int := -0x8000_0000_0000_0000

  predicate Storable(w: Wire) {
    w.bindable && w.version.Some? && MIN_INTEGER <= w.version.value <= MAX_INTEGER
  }

  function RowOf(w: Wire, seqNo: nat): Row
    requires w.version.Some?
  {
    Row(w.nonce, w.ciphertext, w.version.value, if w.tombstone then 1 else 0,
        if w.alg.Some? then w.alg.value else UNKNOWN_ALG, seqNo)
  }

  function ToPulled(slot: Slot, row: Row): Pulled {
    Pulled(slot, row.nonce, row.ciphertext, row.version, row.tombstone != 0, row.alg, row.seqNo)
  }

  // ---------- create_group ----------

  /** hmac.compare_digest on two strings; None where it raises TypeError. */
  function CompareDigest(a: string, b: string): Option<bool> {
    if IsAscii(a) && IsAscii(b) then Some(a == b) else None
  }

  datatype PairReply = Paired | Refused | PairRaised

  /** `hash` is None for a value the groups table refuses: null, or text without a UTF-8 form. */
  function Register(db: Db, g: string, hash: Option<string>, salt: Option<string>): (Db, PairReply) {
    if hash.None? then
      (db, PairRaised)
    else if g in db.groups then
      (db, match CompareDigest(db.groups[g].authHash, hash.value)
           case Some(same) => if same then Paired else Refused
           case None => PairRaised)
    else
      (db.(groups := db.groups[g := Group(hash.value, salt)],
           counters := if g in db.counters then db.counters else db.counters[g := 0]),
       Paired)
  }

  /** Python opens a transaction before an INSERT. The commit closes it; a refused INSERT
      leaves it open, and nothing in create_group rolls it back. */
  function TransactionAfter(db: Db, g: string, hash: Option<string>, before: bool): bool {
    if g in db.groups then before else hash.None?
  }

  // ---------- upsert_records ----------

  datatype Accepted = Accepted(slot: Slot, version: int)

  datatype Conflict = Conflict(slot: Slot, yourVersion: int, serverVersion: int)

  datatype PushReply = PushReply(accepted: seq<Accepted>, conflicts: seq<Conflict>, serverSeq: nat)

  /** The state of an open transaction. */
  datatype Txn = Txn(rows: map<Key, Row>, seqNo: nat, accepted: seq<Accepted>, conflicts: seq<Conflict>)

  /** One round of the batch loop; None where an exception leaves the loop. */
  function PushOne(t: Txn, g: string, w: Wire): Option<Txn> {
    if w.version.None? then
      None
    else
      var key := Key(g, w.slot);
      if key in t.rows && w.version.value <= t.rows[key].version then
        Some(t.(conflicts := t.conflicts + [Conflict(w.slot, w.version.value, t.rows[key].version)]))
      else if !Storable(w) then
        None
      else
        Some(Txn(t.rows[key := RowOf(w, t.seqNo + 1)], t.seqNo + 1,
                 t.accepted + [Accepted(w.slot, w.version.value)], t.conflicts))
  }

  function PushAll(t: Txn, g: string, ws: seq<Wire>): Option<Txn>
    decreases ws
  {
    if ws == [] then
      Some(t)
    else
      match PushOne(t, g, ws[0])
      case None => None
      case Some(t1) => PushAll(t1, g, ws[1..])
  }

  function Begin(db: Db, g: string): Txn {
    Txn(db.rows, if g in db.counters then db.counters[g] else 0, [], [])
  }

  /** The final UPDATE changes the counter row only if there is one. */
  function Commit(db: Db, g: string, t: Txn): Db {
    db.(rows := t.rows, counters := if g in db.counters then db.counters[g := t.seqNo] else db.counters)
  }

  function Upsert(db: Db, g: string, ws: seq<Wire>): (Db, Option<PushReply>) {
    match PushAll(Begin(db, g), g, ws)
    case None => (db, None)
    case Some(t) => (Commit(db, g, t), Some(PushReply(t.accepted, t.conflicts, t.seqNo)))
  }

  // ---------- query_records ----------

  /** Neither None nor the empty string filters. */
  predicate InFilter(collection: Option<string>, slot: Slot) {
    collection.None? || collection.value == "" || slot.collection == collection.value
  }

  function Selected(db: Db, g: string, collection: Option<string>, since: int): map<Key, Row> {
    map k | k in db.rows && k.group == g && db.rows[k].seqNo > since && InFilter(collection, k.slot) :: db.rows[k]
  }

  /** `recs` lists exactly the selected rows of group g, once each, by ascending seq. */
  ghost predicate IsFeed(sel: map<Key, Row>, g: string, recs: seq<Pulled>) {
    Feeds(sel, sel.Keys, g, recs)
  }

  ghost predicate Feeds(sel: map<Key, Row>, keys: set<Key>, g: string, recs: seq<Pulled>)
    requires keys <= sel.Keys
  {
    && (forall i, j | 0 <= i < j < |recs| :: recs[i].seqNo <= recs[j].seqNo)
    && (forall i, j | 0 <= i < j < |recs| :: recs[i].slot != recs[j].slot)
    && (forall i | 0 <= i < |recs| ::
          Key(g, recs[i].slot) in keys && recs[i] == ToPulled(recs[i].slot, sel[Key(g, recs[i].slot)]))
    && (forall k | k in keys :: Lists(recs, g, k))
  }

  ghost predicate Lists(recs: seq<Pulled>, g: string, k: Key) {
    exists i :: 0 <= i < |recs| && Key(g, recs[i].slot) == k
  }

  function NextCursor(recs: seq<Pulled>, since: int): int {
    if recs == [] then since else recs[|recs| - 1].seqNo
  }

  // ---------- the store ----------

  class Store {
    var groups: map<string, Group>
    var rows: map<Key, Row>
    var counters: map<string, nat>
    var inTransaction: bool  // between two lock sections: left over from a refused INSERT

    ghost function Contents(): Db
      reads this
    {
      Db(groups, rows, counters)
    }

    constructor ()
      ensures Contents() == EMPTY_DB && !inTransaction
    {
      groups, rows, counters, inTransaction := map[], map[], map[], false;
    }

    method CreateGroup(g: string, hash: Option<string>, salt: Option<string>) returns (r: PairReply)
      modifies this
      ensures (Contents(), r) == Register(old(Contents()), g, hash, salt)
      ensures inTransaction == TransactionAfter(old(Contents()), g, hash, old(inTransaction))
    {
      if g in groups {
        if hash.None? {
          return PairRaised;
        }
        var same := CompareDigest(groups[g].authHash, hash.value);
        return match same case Some(eq) => (if eq then Paired else Refused) case None => PairRaised;
      }
      inTransaction := true;
      if hash.None? {
        return PairRaised;
      }
      groups := groups[g := Group(hash.value, salt)];
      if g !in counters {
        counters := counters[g := 0];
      }
      inTransaction := false;
      return Paired;
    }

    method GetGroupAuthHash(g: string) returns (r: Option<string>)
      ensures r.Some? <==> g in Contents().groups
      ensures r.Some? ==> r.value == Contents().groups[g].authHash
    {
      return if g in groups then Some(groups[g].authHash) else None;
    }

    /** Writes row by row into the table; an exception restores what BEGIN saw. BEGIN itself
        raises inside an open transaction, and the rollback closes that one. */
    method UpsertRecords(g: string, ws: seq<Wire>) returns (r: Option<PushReply>)
      modifies this
      ensures !old(inTransaction) ==> (Contents(), r) == Upsert(old(Contents()), g, ws)
      ensures old(inTransaction) ==> r.None?
      ensures r.None? ==> Contents() == old(Contents())
      ensures !inTransaction
    {
      if inTransaction {
        inTransaction := false;
        return None;
      }
      inTransaction := true;
      var saved := rows;
      var seqNo: nat := if g in counters then counters[g] else 0;
      var accepted: seq<Accepted>, conflicts: seq<Conflict> := [], [];
      var failed := false;
      var i := 0;
      ghost var t0 := Txn(rows, seqNo, [], []);
      while i < |ws| && !failed
        invariant 0 <= i <= |ws|
        invariant groups == old(groups) && counters == old(counters)
        invariant !failed ==> PushAll(t0, g, ws) == PushAll(Txn(rows, seqNo, accepted, conflicts), g, ws[i..])
        invariant failed ==> PushAll(t0, g, ws).None?
      {
        var w := ws[i];
        assert ws[i..][0] == w && ws[i..][1..] == ws[i + 1..];
        var key := Key(g, w.slot);
        if w.version.None? {
          failed := true;
        } else if key in rows && w.version.value <= rows[key].version {
          conflicts := conflicts + [Conflict(w.slot, w.version.value, rows[key].version)];
        } else {
          seqNo := seqNo + 1;
          if Storable(w) {
            rows := rows[key := RowOf(w, seqNo)];
            accepted := accepted + [Accepted(w.slot, w.version.value)];
          } else {
            failed := true;
          }
        }
        i := i + 1;
      }
      if failed {
        rows, inTransaction := saved, false;
        return None;
      }
      if g in counters {
        counters := counters[g := seqNo];
      }
      inTransaction := false;
      return Some(PushReply(accepted, conflicts, seqNo));
    }

    method QueryRecords(g: string, collection: Option<string>, since: int)
      returns (recs: seq<Pulled>, serverSeq: int)
      ensures IsFeed(Selected(Contents(), g, collection, since), g, recs)
      ensures Answers(Contents(), g, collection, since, recs)
      ensures serverSeq == if recs == [] then since else recs[|recs| - 1].seqNo
    {
      recs := OrderBySeq(Selected(Db(groups, rows, counters), g, collection, since), g);
      FeedAnswers(Contents(), g, collection, since, recs);
      serverSeq := if recs == [] then since else recs[|recs| - 1].seqNo;
    }
  }

  /** ORDER BY seq: the engine yields a selected row of least seq first. */
  method OrderBySeq(sel: map<Key, Row>, g: string) returns (recs: seq<Pulled>)
    requires forall k | k in sel :: k.group == g
    ensures IsFeed(sel, g, recs)
  {
    recs := [];
    var todo := sel.Keys;
    while todo != {}
      invariant PartFeed(sel, g, recs, todo)
      decreases todo
    {
      LeastSeqExists(sel, todo);
      var k :| k in todo && IsLeast(sel, todo, k);
      FeedGrows(sel, g, recs, todo, k);
      recs := recs + [ToPulled(k.slot, sel[k])];
      todo := todo - {k};
    }
  }

  /** The record is the row, column by column, with the tombstone as a boolean. */
  predicate IsRow(r: Pulled, row: Row) {
    && r.nonce == row.nonce && r.ciphertext == row.ciphertext && r.version == row.version
    && r.tombstone == (row.tombstone != 0) && r.alg == row.alg && r.seqNo == row.seqNo
  }

  /** The rows of the group above the cursor, and of the named collection if one is named:
      nothing else, none missing, none twice, by ascending seq. */
  ghost predicate Answers(db: Db, g: string, collection: Option<string>, since: int, recs: seq<Pulled>) {
    && (forall r | r in recs ::
          && Key(g, r.slot) in db.rows && IsRow(r, db.rows[Key(g, r.slot)]) && since < r.seqNo
          && (collection.Some? && collection.value != "" ==> r.slot.collection == collection.value))
    && (forall slot | Key(g, slot) in db.rows && since < db.rows[Key(g, slot)].seqNo ::
          (collection.Some? && collection.value != "" ==> slot.collection == collection.value) ==>
          exists i :: 0 <= i < |recs| && recs[i].slot == slot)
    && (forall i, j | 0 <= i < j < |recs| :: recs[i].slot != recs[j].slot && recs[i].seqNo <= recs[j].seqNo)
  }

  lemma FeedAnswers(db: Db, g: string, collection: Option<string>, since: int, recs: seq<Pulled>)
    requires IsFeed(Selected(db, g, collection, since), g, recs)
    ensures Answers(db, g, collection, since, recs)
  {
    var sel := Selected(db, g, collection, since);
    forall r | r in recs
      ensures Key(g, r.slot) in sel && r == ToPulled(r.slot, sel[Key(g, r.slot)])
    {
      var i :| 0 <= i < |recs| && recs[i] == r;
    }
    forall slot | Key(g, slot) in sel
      ensures exists i :: 0 <= i < |recs| && recs[i].slot == slot
    {
      assert Lists(recs, g, Key(g, slot));
    }
  }

  /** `recs` is the part of the feed before the rows of `todo`. */
  ghost predicate PartFeed(sel: map<Key, Row>, g: string, recs: seq<Pulled>, todo: set<Key>) {
    && todo <= sel.Keys
    && (forall k | k in sel :: Key(g, k.slot) == k)
    && Feeds(sel, sel.Keys - todo, g, recs)
    && (forall i, k | 0 <= i < |recs| && k in todo :: recs[i].seqNo <= sel[k].seqNo)
  }

  lemma ListsGrows(recs: seq<Pulled>, g: string, keys: set<Key>, r: Pulled)
    requires forall k | k in keys :: Lists(recs, g, k)
    ensures forall k | k in keys + {Key(g, r.slot)} :: Lists(recs + [r], g, k)
  {
    var recs' := recs + [r];
    forall x | x in keys + {Key(g, r.slot)}
      ensures Lists(recs', g, x)
    {
      if x == Key(g, r.slot) {
        assert Key(g, recs'[|recs|].slot) == x;
      } else {
        var i :| 0 <= i < |recs| && Key(g, recs[i].slot) == x;
        assert Key(g, recs'[i].slot) == x;
      }
    }
  }

  lemma FeedGrows(sel: map<Key, Row>, g: string, recs: seq<Pulled>, todo: set<Key>, k: Key)
    requires PartFeed(sel, g, recs, todo)
    requires k in todo && forall other | other in todo :: sel[k].seqNo <= sel[other].seqNo
    ensures PartFeed(sel, g, recs + [ToPulled(k.slot, sel[k])], todo - {k})
  {
    var r, done := ToPulled(k.slot, sel[k]), sel.Keys - todo;
    ListsGrows(recs, g, done, r);
    assert sel.Keys - (todo - {k}) == done + {k};
    forall i | 0 <= i < |recs|
      ensures recs[i].slot != k.slot
    {
      assert Key(g, recs[i].slot) in done;
    }
  }

  predicate IsLeast(sel: map<Key, Row>, todo: set<Key>, k: Key)
    requires k in todo && todo <= sel.Keys
  {
    forall other | other in todo :: sel[k].seqNo <= sel[other].seqNo
  }

  lemma {:induction false} LeastSeqExists(sel: map<Key, Row>, todo: set<Key>)
    requires todo != {} && todo <= sel.Keys
    ensures exists k :: k in todo && IsLeast(sel, todo, k)
    decreases todo
  {
    var k :| k in todo;
    if todo == {k} {
      assert IsLeast(sel, todo, k);
    } else {
      LeastSeqExists(sel, todo - {k});
      var m :| m in todo - {k} && IsLeast(sel, todo - {k}, m);
      assert IsLeast(sel, todo, if sel[k].seqNo <= sel[m].seqNo then k else m);
    }
  }
}
