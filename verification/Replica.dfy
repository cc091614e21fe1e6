/**
 A device that keeps a copy of one group's records by incremental pulls: it folds
 every pulled record into a map and sends the returned `server_seq` as the next
 `since`, always with the same collection filter.
 */
module Replica {
  import opened Basics
  import opened SyncStore
  import opened StoreLaws
  import opened ServerRuns

  datatype Device = Device(group: string, filter: Option<string>, view: map<Slot, Pulled>, since: int)

  function NewDevice(g: string, filter: Option<string>): Device {
    Device(g, filter, map[], 0)
  }

  function Fold(view: map<Slot, Pulled>, recs: seq<Pulled>): map<Slot, Pulled>
    decreases recs
  {
    if recs == [] then view else Fold(view[recs[0].slot := recs[0]], recs[1..])
  }

  function Absorb(d: Device, recs: seq<Pulled>): Device {
    d.(view := Fold(d.view, recs), since := NextCursor(recs, d.since))
  }

  /** The copy is exact: the slots of the group and filter, each with its current row. */
  ghost predicate Mirrors(d: Device, db: Db) {
    && (forall slot | slot in d.view ::
          && Key(d.group, slot) in db.rows && InFilter(d.filter, slot)
          && d.view[slot] == ToPulled(slot, db.rows[Key(d.group, slot)]))
    && (forall slot | Key(d.group, slot) in db.rows && InFilter(d.filter, slot) :: slot in d.view)
  }

  /** Between pulls: no phantom slot, and every row stamped at most `since` is exact. */
  ghost predicate UpToDate(d: Device, db: Db) {
    && 0 <= d.since <= Counter(db, d.group)
    && (forall slot | slot in d.view :: Key(d.group, slot) in db.rows && InFilter(d.filter, slot))
    && (forall slot | Key(d.group, slot) in db.rows && InFilter(d.filter, slot) && db.rows[Key(d.group, slot)].seqNo <= d.since ::
          slot in d.view && d.view[slot] == ToPulled(slot, db.rows[Key(d.group, slot)]))
  }

  // ---------- one pull ----------

  lemma {:induction false} FoldFinds(view: map<Slot, Pulled>, recs: seq<Pulled>, slot: Slot)
    requires forall i, j | 0 <= i < j < |recs| :: recs[i].slot != recs[j].slot
    ensures slot in Fold(view, recs) <==> slot in view || exists i :: 0 <= i < |recs| && recs[i].slot == slot
    ensures forall i | 0 <= i < |recs| && recs[i].slot == slot :: slot in Fold(view, recs) && Fold(view, recs)[slot] == recs[i]
    ensures (forall i | 0 <= i < |recs| :: recs[i].slot != slot) && slot in view ==> Fold(view, recs)[slot] == view[slot]
    decreases recs
  {
    if recs == [] {
    } else {
      var rest := recs[1..];
      FoldFinds(view[recs[0].slot := recs[0]], rest, slot);
      if i :| 0 <= i < |recs| && recs[i].slot == slot {
        if i == 0 {
          assert forall j | 0 <= j < |rest| :: rest[j].slot == recs[j + 1].slot;
        } else {
          assert rest[i - 1].slot == slot;
        }
      } else {
        assert forall j | 0 <= j < |rest| :: rest[j].slot == recs[j + 1].slot;
      }
    }
  }

  lemma PullSlot(d: Device, db: Db, recs: seq<Pulled>, slot: Slot)
    requires UpToDate(d, db)
    requires IsFeed(Selected(db, d.group, d.filter, d.since), d.group, recs)
    ensures var view := Absorb(d, recs).view;
            && (slot in view <==> Key(d.group, slot) in db.rows && InFilter(d.filter, slot))
            && (slot in view ==> view[slot] == ToPulled(slot, db.rows[Key(d.group, slot)]))
  {
    var sel, key := Selected(db, d.group, d.filter, d.since), Key(d.group, slot);
    FoldFinds(d.view, recs, slot);
    if key in sel {
      assert Lists(recs, d.group, key);
      var i :| 0 <= i < |recs| && Key(d.group, recs[i].slot) == key;
      assert recs[i] == ToPulled(slot, sel[key]);
    } else {
      forall i | 0 <= i < |recs|
        ensures recs[i].slot != slot
      {
        assert Key(d.group, recs[i].slot) in sel;
      }
    }
  }

  lemma PullMirrors(d: Device, db: Db, recs: seq<Pulled>)
    requires UpToDate(d, db) && forall k | k in db.rows :: db.rows[k].seqNo <= Counter(db, k.group)
    requires IsFeed(Selected(db, d.group, d.filter, d.since), d.group, recs)
    ensures Mirrors(Absorb(d, recs), db)
    ensures UpToDate(Absorb(d, recs), db)
  {
    var d' := Absorb(d, recs);
    forall slot
      ensures slot in d'.view <==> Key(d.group, slot) in db.rows && InFilter(d.filter, slot)
      ensures slot in d'.view ==> d'.view[slot] == ToPulled(slot, db.rows[Key(d.group, slot)])
    {
      PullSlot(d, db, recs, slot);
    }
    if recs != [] {
      var last := recs[|recs| - 1];
      assert Key(d.group, last.slot) in Selected(db, d.group, d.filter, d.since);
      assert last.seqNo == db.rows[Key(d.group, last.slot)].seqNo;
    }
  }

  /** The cursor a pull returns has passed every row it selected: asked again from there,
      the same tables have nothing to send. */
  lemma NothingSentTwice(db: Db, g: string, filter: Option<string>, since: int, recs: seq<Pulled>)
    requires IsFeed(Selected(db, g, filter, since), g, recs)
    ensures Selected(db, g, filter, NextCursor(recs, since)) == map[]
  {
    var sel, next := Selected(db, g, filter, since), NextCursor(recs, since);
    if recs != [] {
      assert Key(g, recs[|recs| - 1].slot) in sel;
    }
    forall k | k in sel
      ensures sel[k].seqNo <= next
    {
      assert Lists(recs, g, k);
      var i :| 0 <= i < |recs| && Key(g, recs[i].slot) == k;
    }
    assert forall k | k in Selected(db, g, filter, next) :: k in sel;
  }

  // ---------- pulls interleaved with everything else ----------

  datatype Event = Server(step: Step) | DevicePull(recs: seq<Pulled>)

  datatype World = World(sys: Sys, device: Device)

  /** The records of a pull are what the server may answer at that moment. */
  ghost predicate Possible(w: World, e: Event) {
    e.DevicePull? ==>
      IsFeed(Selected(w.sys.db, w.device.group, w.device.filter, w.device.since), w.device.group, e.recs)
  }

  function After(w: World, e: Event): World {
    match e
    case Server(step) => w.(sys := Next(w.sys, step).0)
    case DevicePull(recs) => w.(device := Absorb(w.device, recs))
  }

  function Play(w: World, es: seq<Event>): World
    decreases es
  {
    if es == [] then w else Play(After(w, es[0]), es[1..])
  }

  ghost predicate PossibleRun(w: World, es: seq<Event>)
    decreases es
  {
    es == [] || (Possible(w, es[0]) && PossibleRun(After(w, es[0]), es[1..]))
  }

  ghost predicate WorldInv(w: World) {
    SysInv(w.sys) && UpToDate(w.device, w.sys.db)
  }

  /** A row stamped at most the counter of before is the row of before. */
  lemma OldStampOldRow(db: Db, db': Db, k: Key)
    requires Grows(db, db')
    requires k in db'.rows && db'.rows[k].seqNo <= Counter(db, k.group)
    ensures k in db.rows && db'.rows[k] == db.rows[k]
  {
  }

  lemma GrowthKeepsUpToDate(d: Device, db: Db, db': Db)
    requires UpToDate(d, db) && Grows(db, db')
    ensures UpToDate(d, db')
  {
    forall slot | Key(d.group, slot) in db'.rows && db'.rows[Key(d.group, slot)].seqNo <= d.since
      ensures Key(d.group, slot) in db.rows && db'.rows[Key(d.group, slot)] == db.rows[Key(d.group, slot)]
    {
      OldStampOldRow(db, db', Key(d.group, slot));
    }
  }

  lemma ServerKeepsInv(sys: Sys, d: Device, step: Step)
    requires SysInv(sys) && UpToDate(d, sys.db)
    ensures SysInv(Next(sys, step).0) && UpToDate(d, Next(sys, step).0.db)
  {
    StepKeeps(sys, step);
    GrowthKeepsUpToDate(d, sys.db, Next(sys, step).0.db);
  }

  lemma ServerEventKeepsInv(w: World, step: Step)
    requires WorldInv(w)
    ensures WorldInv(After(w, Server(step)))
  {
    ServerKeepsInv(w.sys, w.device, step);
  }

  lemma PullEventKeepsInv(w: World, recs: seq<Pulled>)
    requires WorldInv(w) && Possible(w, DevicePull(recs))
    ensures WorldInv(After(w, DevicePull(recs)))
    ensures Mirrors(After(w, DevicePull(recs)).device, w.sys.db)
  {
    PullMirrors(w.device, w.sys.db, recs);
  }

  lemma EventKeepsInv(w: World, e: Event)
    requires WorldInv(w) && Possible(w, e)
    ensures WorldInv(After(w, e))
  {
    match e
    case Server(step) => ServerEventKeepsInv(w, step);
    case DevicePull(recs) => PullEventKeepsInv(w, recs);
  }

  lemma {:induction false} PlayKeepsInv(w: World, es: seq<Event>)
    requires WorldInv(w) && PossibleRun(w, es)
    ensures WorldInv(Play(w, es))
    decreases es
  {
    if es == [] {
    } else {
      EventKeepsInv(w, es[0]);
      PlayKeepsInv(After(w, es[0]), es[1..]);
    }
  }

  lemma {:induction false} PlaySplits(w: World, es: seq<Event>, e: Event)
    ensures Play(w, es + [e]) == After(Play(w, es), e)
    ensures PossibleRun(w, es + [e]) <==> PossibleRun(w, es) && Possible(Play(w, es), e)
    decreases es
  {
    if es == [] {
      assert (es + [e])[1..] == [];
    } else {
      assert (es + [e])[1..] == es[1..] + [e];
      PlaySplits(After(w, es[0]), es[1..], e);
    }
  }

  /** A mirror spelled out: the copy has exactly the slots of the group, and of the named
      collection if the filter names one, each with the columns of the server's row. */
  lemma MirrorPlainly(d: Device, db: Db)
    requires Mirrors(d, db)
    ensures forall slot :: slot in d.view <==>
              Key(d.group, slot) in db.rows &&
              (d.filter.Some? && d.filter.value != "" ==> slot.collection == d.filter.value)
    ensures forall slot | slot in d.view :: d.view[slot].slot == slot && IsRow(d.view[slot], db.rows[Key(d.group, slot)])
  {
  }

  /** The new cursor has passed every row of the group and filter. */
  lemma CursorPasses(d: Device, db: Db, recs: seq<Pulled>)
    requires IsFeed(Selected(db, d.group, d.filter, d.since), d.group, recs)
    ensures forall slot | Key(d.group, slot) in db.rows && InFilter(d.filter, slot) ::
              db.rows[Key(d.group, slot)].seqNo <= Absorb(d, recs).since
  {
    NothingSentTwice(db, d.group, d.filter, d.since, recs);
    forall slot | Key(d.group, slot) in db.rows && InFilter(d.filter, slot)
      ensures db.rows[Key(d.group, slot)].seqNo <= Absorb(d, recs).since
    {
      assert Key(d.group, slot) !in Selected(db, d.group, d.filter, NextCursor(recs, d.since));
    }
  }

  /** Incremental pull converges. Whatever pairings, pushes and other pulls ran before
      and between a device's pulls, right after each of its pulls its copy equals the
      server's rows of its group and collection: none missed, none stale, no phantom; and
      its cursor has passed all of them. */
  lemma PullConverges(sys: Sys, g: string, filter: Option<string>, es: seq<Event>, recs: seq<Pulled>)
    requires SysInv(sys)
    requires PossibleRun(World(sys, NewDevice(g, filter)), es + [DevicePull(recs)])
    ensures var w := Play(World(sys, NewDevice(g, filter)), es + [DevicePull(recs)]);
            && (forall slot :: slot in w.device.view <==>
                  Key(g, slot) in w.sys.db.rows &&
                  (filter.Some? && filter.value != "" ==> slot.collection == filter.value))
            && (forall slot | slot in w.device.view ::
                  && w.device.view[slot].slot == slot
                  && IsRow(w.device.view[slot], w.sys.db.rows[Key(g, slot)])
                  && w.device.view[slot].seqNo <= w.device.since)
  {
    var w0 := World(sys, NewDevice(g, filter));
    PlaySplits(w0, es, DevicePull(recs));
    PlayKeepsInv(w0, es);
    PlayKeepsOwner(w0, es);
    var w := Play(w0, es);
    PullEventKeepsInv(w, recs);
    MirrorPlainly(Absorb(w.device, recs), w.sys.db);
    CursorPasses(w.device, w.sys.db, recs);
  }

  lemma {:induction false} PlayKeepsOwner(w: World, es: seq<Event>)
    ensures Play(w, es).device.group == w.device.group && Play(w, es).device.filter == w.device.filter
    decreases es
  {
    if es == [] {
    } else {
      PlayKeepsOwner(After(w, es[0]), es[1..]);
    }
  }

  /** Two exact copies of one group under one filter are equal, so devices that have
      both pulled since the last accepted write agree. */
  lemma MirrorsAgree(d: Device, e: Device, db: Db)
    requires d.group == e.group && d.filter == e.filter
    requires Mirrors(d, db) && Mirrors(e, db)
    ensures d.view == e.view
  {
  }

  /** One cursor must not serve two filters: after a pull of collection "a" moved the
      cursor past a record of collection "b", a pull of "b" from there misses it. */
  lemma SharedCursorMisses()
    ensures var row := Row("", "", 1, 0, "", 1);
            var db := Db(map["g" := Group("", None)], map[Key("g", Slot("b", "1")) := row, Key("g", Slot("a", "2")) := row.(seqNo := 2)], map["g" := 2]);
            var first := [ToPulled(Slot("a", "2"), row.(seqNo := 2))];
            && DbInv(db)
            && IsFeed(Selected(db, "g", Some("a"), 0), "g", first)
            && NextCursor(first, 0) == 2
            && IsFeed(Selected(db, "g", Some("b"), 2), "g", [])
            && Key("g", Slot("b", "1")) in db.rows
  {
    var row := Row("", "", 1, 0, "", 1);
    assert "a"[0] != "b"[0];
    var rec := ToPulled(Slot("a", "2"), row.(seqNo := 2));
    assert Key("g", [rec][0].slot) == Key("g", Slot("a", "2"));
  }
}
