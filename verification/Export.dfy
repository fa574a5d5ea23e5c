/**
  The periodic Splunk export: three families of per-tenant row cursors that move
  only after Splunk acknowledged the batch. Rows keep arriving while the job
  waits for its queries, queries fail, and dispatches fail.
 */
module Export {
  import opened Options
  import opened ExportTables

  class SplunkExport {
    var db: set<Row>
    var decisionCursors: map<string, int>
    var alertCursors: map<string, int>
    var incidentCursors: map<string, int>
    ghost var seeds: Marks
    ghost var sent: seq<Dispatch>
    ghost var sights: map<Stream, Sight>

    function Cursors(): Marks
      reads this
    {
      Marks(decisionCursors, alertCursors, incidentCursors)
    }

    /** The batches Splunk acknowledged. */
    ghost function Acked(): seq<seq<Row>>
      reads this
    {
      AckedOf(sent)
    }

    ghost predicate Valid()
      reads this
    {
      && ExactlyOnce(db, seeds, Cursors(), Acked())
      && Sighted(db, seeds, sights)
      && SentWell(db, seeds, Cursors(), sent)
    }

    constructor (rows: set<Row>)
      requires WellKept(rows)
      ensures Valid() && db == rows && Cursors() == NOTHING && sent == [] && sights == map[]
    {
      db := rows;
      decisionCursors, alertCursors, incidentCursors := map[], map[], map[];
      seeds := NOTHING;
      sent := [];
      sights := map[];
      new;
      assert Window(db, seeds, Cursors()) == {};
    }

    /** While the job waits, other tasks insert any rows they like. */
    method Inserts(ghost events: seq<Row>, ghost advances: Marks, ghost base: set<Row>)
      requires Valid() && Collected(db, Cursors(), events, advances) && Grows(base, db)
      modifies this`db
      ensures Valid() && Collected(db, Cursors(), events, advances) && Grows(base, db)
    {
      hide ExactlyOnce, Collected, Grows, Sighted, SentWell, Kept, Onward;
      var left: int := *;
      SameMarks(seeds);
      SameMarks(Cursors());
      while left > 0
        invariant Valid() && Collected(db, Cursors(), events, advances)
        invariant Grows(base, db)
      {
        left := left - 1;
        var row: Row := *;
        if row.rowid > 0 && forall r :: r in db && r.family == row.family ==> r.rowid < row.rowid {
          NewRowGrows(base, db, row);
          InsertStep(db, db + {row}, seeds, Cursors(), Acked(), events, advances);
          SightsGrow(db, db + {row}, seeds, sights);
          SentStays(db, db + {row}, seeds, seeds, Cursors(), Cursors(), sent);
          db := db + {row};
        }
      }
    }

    /** SELECT MAX(rowid), zero for an empty table; the query may fail. */
    method MaxRowid(f: Family, t: string, healthy: bool) returns (max: Option<int>)
      requires WellKept(db)
      ensures healthy ==> max.Some?
      ensures max.Some? ==> Anchored(db, f, max.value)
      ensures max.Some? ==> forall r :: r in db && r.family == f && r.tenant == t ==> r.rowid <= max.value
      ensures max.Some? ==> max.value == 0 || Row(f, t, max.value) in db
    {
      if * { if !healthy { return None; } }
      var m := 0;
      var rest := db;
      while rest != {}
        invariant rest <= db && Anchored(db, f, m) && (m == 0 || Row(f, t, m) in db)
        invariant forall r :: r in db && r !in rest && r.family == f && r.tenant == t ==> r.rowid <= m
        decreases |rest|
      {
        var r :| r in rest;
        rest := rest - {r};
        if r.family == f && r.tenant == t && m < r.rowid { m := r.rowid; }
      }
      max := Some(m);
    }

    /** SELECT ... WHERE rowid > since ORDER BY rowid ASC LIMIT 100; the query may fail. */
    method ListSince(f: Family, t: string, since: int, healthy: bool) returns (page: Option<seq<Row>>)
      requires WellKept(db)
      ensures healthy ==> page.Some?
      ensures page.Some? ==> IsPage(db, f, t, since, page.value)
    {
      hide IsPage, Filling;
      if * { if !healthy { return None; } }
      var all := set r | r in db && r.family == f && r.tenant == t && since < r.rowid;
      var rest := all;
      var rows: seq<Row> := [];
      StartFilling(all);
      while rest != {} && |rows| < BATCH_LIMIT
        invariant rest <= all && |rows| <= BATCH_LIMIT && Filling(all, rest, rows)
      {
        var oldest := Oldest(f, t, rest);
        FillStep(all, rest, rows, oldest);
        rows := rows + [oldest];
        rest := rest - {oldest};
      }
      FilledIsPage(db, f, t, since, all, rest, rows);
      page := Some(rows);
    }

    method Oldest(f: Family, t: string, rows: set<Row>) returns (oldest: Row)
      requires rows != {} && forall r :: r in rows ==> r.family == f && r.tenant == t
      ensures oldest in rows && forall r :: r in rows && r != oldest ==> oldest.rowid < r.rowid
    {
      oldest :| oldest in rows;
      var rest := rows - {oldest};
      while rest != {}
        invariant rest <= rows && oldest in rows
        invariant forall r :: r in rows && r !in rest && r != oldest ==> oldest.rowid < r.rowid
        decreases |rest|
      {
        var r :| r in rest;
        rest := rest - {r};
        if r.rowid < oldest.rowid { oldest := r; }
      }
    }

    method SetCursor(f: Family, t: string, mark: int)
      modifies this`decisionCursors, this`alertCursors, this`incidentCursors
      ensures Cursors() == old(Cursors()).With(f, old(Cursors()).Of(f)[t := mark])
    {
      match f
      case Decisions => decisionCursors := decisionCursors[t := mark];
      case Alerts => alertCursors := alertCursors[t := mark];
      case Incidents => incidentCursors := incidentCursors[t := mark];
    }

    /** The first time a tenant is seen its cursor starts at the newest row, or at zero if that query fails. */
    method Seed(f: Family, t: string, healthy: bool, ghost events: seq<Row>, ghost advances: Marks) returns (seed: int)
      requires Valid() && Collected(db, Cursors(), events, advances) && t !in Cursors().Of(f)
      modifies this
      ensures Valid() && Collected(db, Cursors(), events, advances) && t in Cursors().Of(f)
      ensures db == old(db) && sent == old(sent) && Kept(old(seeds), seeds)
      ensures Cursors() == old(Cursors()).With(f, old(Cursors()).Of(f)[t := seed])
      ensures Remembered(old(sights), sights) && sights.Keys == old(sights).Keys + {Stream(f, t)}
      ensures sights[Stream(f, t)].rows == RowsOf(db, f, t) && (healthy ==> sights[Stream(f, t)].answered)
      ensures sights[Stream(f, t)].answered ==>
                seeds.Of(f)[t] == 0 || Row(f, t, seeds.Of(f)[t]) in sights[Stream(f, t)].rows
    {
      hide Collected, Kept, Onward, Window, Above, AllAnchored, Delivered, SameStreams, Sighted, SentWell;
      var max := MaxRowid(f, t, healthy);
      seed := if max.Some? then max.value else 0;
      SeedStep(db, seeds, Cursors(), Acked(), events, advances, f, t, seed);
      NewStream(db, seeds, Cursors(), Acked(), f, t);
      Unseen(db, seeds, sights, f, t);
      NewSight(db, seeds, sights, f, t, seed, max.Some?);
      ghost var cursors := Cursors().With(f, Cursors().Of(f)[t := seed]);
      KeptIsOnward(Cursors(), cursors);
      SentStays(db, db, seeds, seeds.With(f, seeds.Of(f)[t := seed]), Cursors(), cursors, sent);
      SetCursor(f, t, seed);
      seeds := seeds.With(f, seeds.Of(f)[t := seed]);
      sights := sights[Stream(f, t) := Sight(RowsOf(db, f, t), max.Some?)];
    }

    /** One family of one tenant: seed it if it is new, query, and note the events and the mark to move to. */
    method Collect(f: Family, t: string, events: seq<Row>, advances: Marks, healthy: bool, ghost base: set<Row>)
      returns (more: seq<Row>, moved: Marks)
      requires Valid() && Collected(db, Cursors(), events, advances) && t !in advances.Of(f) && Grows(base, db)
      modifies this
      ensures Valid() && Collected(db, Cursors(), more, moved) && Grows(base, db)
      ensures forall g, u :: u in moved.Of(g) ==> u in advances.Of(g) || (g == f && u == t)
      ensures sent == old(sent) && Kept(old(seeds), seeds) && Kept(old(Cursors()), Cursors())
      ensures Remembered(old(sights), sights)
      ensures more == [] ==> events == [] && moved == advances
      ensures OthersSame(old(Cursors()).Moved(advances), Cursors().Moved(moved), f, t)
      ensures healthy ==> Progress(base, f, t, old(Cursors()), Cursors().Moved(moved))
    {
      hide Collected, Window, Above, AllAnchored, Delivered, SameStreams, IsPage, Sighted, SentWell, Grows, AckedOf,
           Marks.Moved, Progress, OthersSame, Kept, Remembered, LessOnePage, RowsAbove;
      ghost var start := Cursors();
      KeptSame(start, seeds, sights);
      if t !in Cursors().Of(f) {
        var seed := Seed(f, t, healthy, events, advances);
        KeptWith(start, f, t, seed);
      }
      Inserts(events, advances, base);
      more, moved := events, advances;
      var since := Cursors().Of(f)[t];
      var page := ListSince(f, t, since, healthy);
      if page.None? {
        MarksAfter(base, f, t, start, Cursors(), advances, since);
      } else {
        PageProgress(base, db, f, t, since, page.value);
        if page.value == [] {
          MarksAfter(base, f, t, start, Cursors(), advances, since);
        } else {
          var mark := page.value[|page.value| - 1].rowid;
          PageStep(db, Cursors(), events, advances, f, t, page.value);
          MarksAfter(base, f, t, start, Cursors(), advances, mark);
          more := events + page.value;
          moved := advances.With(f, advances.Of(f)[t := mark]);
        }
      }
    }

    /** SELECT id FROM tenants: ids are unique; the query may fail. */
    method ListTenants(all: seq<string>, healthy: bool) returns (ids: Option<seq<string>>)
      ensures ids.Some? ==> ids.value == all
      ensures healthy ==> ids.Some?
    {
      if * { if !healthy { return None; } }
      ids := Some(all);
    }

    /** All three families of every tenant. */
    method CollectAll(tenants: seq<string>, healthy: bool, ghost base: set<Row>)
      returns (events: seq<Row>, advances: Marks)
      requires Valid() && Grows(base, db) && forall i, j :: 0 <= i < j < |tenants| ==> tenants[i] != tenants[j]
      modifies this
      ensures Valid() && Collected(db, Cursors(), events, advances) && Grows(base, db)
      ensures sent == old(sent) && Kept(old(seeds), seeds) && Kept(old(Cursors()), Cursors())
      ensures Remembered(old(sights), sights)
      ensures events == [] ==> Cursors().Moved(advances) == Cursors()
      ensures healthy ==>
                forall g, u :: u in tenants ==> Progress(base, g, u, old(Cursors()), Cursors().Moved(advances))
    {
      hide Collected, ExactlyOnce, Sighted, SentWell, Grows, AckedOf, Progress, OthersSame, Kept, Remembered,
           Marks.Moved;
      events, advances := [], NOTHING;
      NothingCollected(db, Cursors());
      KeptSame(Cursors(), seeds, sights);
      for k := 0 to |tenants|
        invariant Valid() && Collected(db, Cursors(), events, advances) && Grows(base, db)
        invariant forall g, u :: u in advances.Of(g) ==> u in tenants[..k]
        invariant sent == old(sent) && Kept(old(seeds), seeds) && Kept(old(Cursors()), Cursors())
        invariant Remembered(old(sights), sights)
        invariant events == [] ==> advances == NOTHING
        invariant healthy ==>
                    forall g, u :: u in tenants[..k] ==> Progress(base, g, u, old(Cursors()), Cursors().Moved(advances))
      {
        var t := tenants[k];
        assert t !in tenants[..k] && tenants[..k + 1] == tenants[..k] + [t];
        ghost var s0, n0 := seeds, sights;
        events, advances := CollectTenant(t, events, advances, healthy, base, old(Cursors()), tenants[..k]);
        KeptTransitive(old(seeds), s0, seeds);
        RememberedTransitive(old(sights), n0, sights);
      }
      NoneMoved(Cursors(), NOTHING);
      assert tenants[..|tenants|] == tenants;
    }

    /** The three families of one tenant, after those of the tenants done. */
    method CollectTenant(t: string, events: seq<Row>, advances: Marks, healthy: bool, ghost base: set<Row>,
                         ghost start: Marks, ghost done: seq<string>)
      returns (more: seq<Row>, moved: Marks)
      requires Valid() && Collected(db, Cursors(), events, advances) && Grows(base, db) && t !in done
      requires forall g, u :: u in advances.Of(g) ==> u in done
      requires Kept(start, Cursors())
      requires healthy ==> forall g, u :: u in done ==> Progress(base, g, u, start, Cursors().Moved(advances))
      modifies this
      ensures Valid() && Collected(db, Cursors(), more, moved) && Grows(base, db)
      ensures forall g, u :: u in moved.Of(g) ==> u in done || u == t
      ensures sent == old(sent) && Kept(old(seeds), seeds) && Kept(start, Cursors()) && Kept(old(Cursors()), Cursors())
      ensures Remembered(old(sights), sights)
      ensures more == [] ==> events == [] && moved == advances
      ensures healthy ==> forall g, u :: u in done + [t] ==> Progress(base, g, u, start, Cursors().Moved(moved))
    {
      hide Collected, ExactlyOnce, Sighted, SentWell, Grows, AckedOf, Progress, OthersSame, Kept, Remembered,
           Marks.Moved;
      ghost var m0, c0, s0, n0 := Cursors().Moved(advances), Cursors(), seeds, sights;
      more, moved := Collect(Decisions, t, events, advances, healthy, base);
      ghost var m1, c1, s1, n1 := Cursors().Moved(moved), Cursors(), seeds, sights;
      more, moved := Collect(Alerts, t, more, moved, healthy, base);
      ghost var m2, c2, s2, n2 := Cursors().Moved(moved), Cursors(), seeds, sights;
      more, moved := Collect(Incidents, t, more, moved, healthy, base);
      ghost var m3 := Cursors().Moved(moved);
      KeptTransitive(s0, s1, s2);
      KeptTransitive(s0, s2, seeds);
      KeptTransitive(c0, c1, c2);
      KeptTransitive(c0, c2, Cursors());
      KeptTransitive(start, c0, Cursors());
      RememberedTransitive(n0, n1, n2);
      RememberedTransitive(n0, n2, sights);
      if healthy {
        TenantProgress(base, t, start, c0, c1, c2, m1, m2, m3);
        forall g, u | u in done
          ensures Progress(base, g, u, start, m3)
        {
          OthersProgress(base, Decisions, t, g, u, start, m0, m1);
          OthersProgress(base, Alerts, t, g, u, start, m1, m2);
          OthersProgress(base, Incidents, t, g, u, start, m2, m3);
        }
      }
    }

    /** One tick of the loop, whatever the leader flag, the queries, the inserts and the dispatch do. */
    method Tick(isLeader: bool, tenants: seq<string>, healthy: bool, ghost base: set<Row>)
      requires Valid() && Grows(base, db) && forall i, j :: 0 <= i < j < |tenants| ==> tenants[i] != tenants[j]
      modifies this
      ensures Valid() && Grows(base, db)
      ensures Kept(old(seeds), seeds) && Onward(old(Cursors()), Cursors())
      ensures sent == old(sent) || exists d: Dispatch :: d.rows != [] && sent == old(sent) + [d]
      ensures Acked() == old(Acked()) ==> Kept(old(Cursors()), Cursors())
      ensures !isLeader ==> unchanged(this)
      ensures Remembered(old(sights), sights)
      ensures isLeader && healthy ==> forall g, u :: u in tenants ==> Progress(base, g, u, old(Cursors()), Cursors())
    {
      hide Collected, ExactlyOnce, Sighted, SentWell, Grows, AckedOf, Progress;
      if !isLeader {
        return;
      }
      var ids := ListTenants(tenants, healthy);
      if ids.None? {
        return;
      }
      var events, advances := CollectAll(ids.value, healthy, base);
      if events == [] {
        return;
      }
      Inserts(events, advances, base);
      var acknowledged: bool := *;
      acknowledged := acknowledged || healthy;
      AckStep(db, seeds, Cursors(), Acked(), events, advances);
      MarksFit(db, seeds, Cursors(), Acked());
      SentMore(db, seeds, Cursors(), sent, events, advances, acknowledged);
      AckedMore(sent, Dispatch(events, acknowledged));
      sent := sent + [Dispatch(events, acknowledged)];
      if acknowledged {
        decisionCursors := decisionCursors + advances.decisions;
        alertCursors := alertCursors + advances.alerts;
        incidentCursors := incidentCursors + advances.incidents;
      }
    }

    /**
      Any number of ticks, with inserts and changes of leader and tenants in between.
      Each healthy tick of the leader takes a page of a tenant's stream off the rows it had.
     */
    method Run(leader: nat -> bool, tenants: nat -> seq<string>, healthy: nat -> bool, ticks: nat)
      requires Valid()
      requires forall n: nat, i, j :: 0 <= i < j < |tenants(n)| ==> tenants(n)[i] != tenants(n)[j]
      modifies this
      ensures Valid() && Grows(old(db), db)
      ensures Kept(old(seeds), seeds) && Onward(old(Cursors()), Cursors()) && old(sent) <= sent
      ensures Remembered(old(sights), sights)
      ensures forall f, t :: t in old(Cursors()).Of(f) ==>
                |Behind(old(db), f, t, Cursors())|
                <= Owed(|Behind(old(db), f, t, old(Cursors()))|, GoodTicks(leader, tenants, healthy, t, ticks))
    {
      hide Collected, ExactlyOnce, Sighted, SentWell, Grows, AckedOf, Progress, Onward;
      ghost var base, start := db, Cursors();
      StaysGrown(db, seeds, Cursors(), Acked());
      SameMarks(start);
      for n := 0 to ticks
        invariant Valid() && Grows(base, db) && Remembered(old(sights), sights)
        invariant Kept(old(seeds), seeds) && Onward(start, Cursors()) && old(sent) <= sent
        invariant forall f, t :: t in start.Of(f) ==>
                    |Behind(base, f, t, Cursors())|
                    <= Owed(|Behind(base, f, t, start)|, GoodTicks(leader, tenants, healthy, t, n))
      {
        NothingCollected(db, Cursors());
        Inserts([], NOTHING, base);
        ghost var before := Cursors();
        Tick(leader(n), tenants(n), healthy(n), base);
        forall f, t | t in start.Of(f)
          ensures |Behind(base, f, t, Cursors())|
               <= Owed(|Behind(base, f, t, start)|, GoodTicks(leader, tenants, healthy, t, n + 1))
        {
          TickProgress(base, f, t, start, before, Cursors(), leader, tenants, healthy, n);
        }
        OnwardTransitive(start, before, Cursors());
      }
    }
  }

  lemma TenantProgress(base: set<Row>, t: string, start: Marks, c0: Marks, c1: Marks, c2: Marks, m1: Marks, m2: Marks,
                       m3: Marks)
    requires Kept(start, c0) && Kept(c0, c1) && Kept(c1, c2)
    requires Progress(base, Decisions, t, c0, m1) && OthersSame(m1, m2, Alerts, t) && OthersSame(m2, m3, Incidents, t)
    requires Progress(base, Alerts, t, c1, m2) && Progress(base, Incidents, t, c2, m3)
    ensures forall g :: Progress(base, g, t, start, m3)
  {
    forall g
      ensures Progress(base, g, t, start, m3)
    {
      match g
      case Decisions =>
        OthersProgress(base, Alerts, t, g, t, c0, m1, m2);
        OthersProgress(base, Incidents, t, g, t, c0, m2, m3);
      case Alerts => OthersProgress(base, Incidents, t, g, t, c1, m2, m3);
      case Incidents =>
    }
  }

  lemma MarksFit(db: set<Row>, seeds: Marks, cursors: Marks, acked: seq<seq<Row>>)
    requires ExactlyOnce(db, seeds, cursors, acked)
    ensures Above(seeds, cursors) && SameStreams(seeds, cursors)
  {
  }

  lemma OnwardTransitive(a: Marks, b: Marks, c: Marks)
    requires Onward(a, b) && Onward(b, c)
    ensures Onward(a, c)
  {
  }

  /** The ticks so far that could move a tenant's streams: led, answered, acknowledged, with the tenant listed. */
  function GoodTicks(leader: nat -> bool, tenants: nat -> seq<string>, healthy: nat -> bool, t: string, n: nat): nat {
    if n == 0 then 0
    else
      GoodTicks(leader, tenants, healthy, t, n - 1)
      + if leader(n - 1) && healthy(n - 1) && t in tenants(n - 1) then 1 else 0
  }

  /** What is left of `rows` after so many full pages. */
  function Owed(rows: nat, pages: nat): nat {
    if rows <= BATCH_LIMIT * pages then 0 else rows - BATCH_LIMIT * pages
  }

  lemma TickProgress(base: set<Row>, f: Family, t: string, start: Marks, before: Marks, after: Marks,
                     leader: nat -> bool, tenants: nat -> seq<string>, healthy: nat -> bool, n: nat)
    requires t in start.Of(f) && Onward(start, before) && Onward(before, after)
    requires leader(n) && healthy(n) && t in tenants(n) ==> Progress(base, f, t, before, after)
    requires |Behind(base, f, t, before)|
          <= Owed(|Behind(base, f, t, start)|, GoodTicks(leader, tenants, healthy, t, n))
    ensures |Behind(base, f, t, after)|
         <= Owed(|Behind(base, f, t, start)|, GoodTicks(leader, tenants, healthy, t, n + 1))
  {
    Fewer(Behind(base, f, t, after), Behind(base, f, t, before));
  }

  /** When nothing is behind, every row above its seed has been delivered, once. */
  lemma NothingBehind(base: set<Row>, db: set<Row>, seeds: Marks, cursors: Marks, acked: seq<seq<Row>>, r: Row)
    requires ExactlyOnce(db, seeds, cursors, acked) && r in base && base <= db && seeds.Has(r)
    requires |Behind(base, r.family, r.tenant, cursors)| == 0
    ensures seeds.Of(r.family)[r.tenant] < r.rowid ==> Delivered(acked)[r] == 1
  {
    hide Delivered, Window;
    assert seeds.Of(r.family).Keys == cursors.Of(r.family).Keys;
    assert r !in Behind(base, r.family, r.tenant, cursors);
    DeliveredIffPassed(db, seeds, cursors, acked, r);
  }

  /**
    What `Valid` means for a single row: it was delivered once if it is above its
    stream's seed and at or below its cursor, and not at all otherwise.
   */
  lemma DeliveredIffPassed(db: set<Row>, seeds: Marks, cursors: Marks, acked: seq<seq<Row>>, r: Row)
    requires ExactlyOnce(db, seeds, cursors, acked) && r in db
    ensures Delivered(acked)[r] == if seeds.Has(r) && seeds.Of(r.family)[r.tenant] < r.rowid
                                      && cursors.Of(r.family)[r.tenant] >= r.rowid then 1 else 0
  {
    var window := Window(db, seeds, cursors);
    assert cursors.Of(r.family).Keys == seeds.Of(r.family).Keys;
    assert multiset(window)[r] == if r in window then 1 else 0;
  }

  /**
    A row that was there when its stream was first seen is delivered if and only if the
    query for the newest row failed then and the cursor has come past it since.
   */
  lemma OldRowDeliveredIff(db: set<Row>, seeds: Marks, cursors: Marks, acked: seq<seq<Row>>, sights: map<Stream, Sight>,
                           r: Row)
    requires ExactlyOnce(db, seeds, cursors, acked) && Sighted(db, seeds, sights)
    requires Stream(r.family, r.tenant) in sights && r in sights[Stream(r.family, r.tenant)].rows
    ensures r.tenant in cursors.Of(r.family)
    ensures Delivered(acked)[r] ==
            if !sights[Stream(r.family, r.tenant)].answered && r.rowid <= cursors.Of(r.family)[r.tenant] then 1 else 0
  {
    hide Window, Delivered;
    assert SeedFits(db, r.family, r.tenant, seeds.Of(r.family)[r.tenant], sights[Stream(r.family, r.tenant)]);
    assert seeds.Of(r.family).Keys == cursors.Of(r.family).Keys;
    DeliveredIffPassed(db, seeds, cursors, acked, r);
  }

  /** If that query was answered, such a row is never sent at all, with an acknowledgement or without. */
  lemma OldRowNeverSent(db: set<Row>, seeds: Marks, cursors: Marks, sights: map<Stream, Sight>, sent: seq<Dispatch>,
                        r: Row, i: nat)
    requires Sighted(db, seeds, sights) && SentWell(db, seeds, cursors, sent) && i < |sent|
    requires Stream(r.family, r.tenant) in sights && r in sights[Stream(r.family, r.tenant)].rows
    requires sights[Stream(r.family, r.tenant)].answered
    ensures r !in sent[i].rows
  {
    assert SeedFits(db, r.family, r.tenant, seeds.Of(r.family)[r.tenant], sights[Stream(r.family, r.tenant)]);
    assert r in sent[i].rows ==> SentRow(db, seeds, cursors, r, sent[i].acked);
  }

  /** And if it was not, it can be: one old row, a failed query, one tick. */
  lemma OldRowFlooded(t: string)
    ensures var r := Row(Decisions, t, 1);
            var seeds, cursors := Marks(map[t := 0], map[], map[]), Marks(map[t := 1], map[], map[]);
            var sent, sights := [Dispatch([r], true)], map[Stream(Decisions, t) := Sight({r}, false)];
            && ExactlyOnce({r}, seeds, cursors, AckedOf(sent)) && Sighted({r}, seeds, sights)
            && SentWell({r}, seeds, cursors, sent)
            && Delivered(AckedOf(sent))[r] == 1
  {
    var r := Row(Decisions, t, 1);
    var seeds, cursors := Marks(map[t := 0], map[], map[]), Marks(map[t := 1], map[], map[]);
    var sent, sights := [Dispatch([r], true)], map[Stream(Decisions, t) := Sight({r}, false)];
    assert sent[..0] == [] && AckedOf(sent) == [[r]] && [[r]][..0] == [];
    assert Delivered([[r]]) == multiset([r]);
    assert Window({r}, seeds, cursors) == {r};
    assert RowsOf({r}, Decisions, t) == {r};
  }

  /** And so no row is in two acknowledged batches. */
  lemma InOneBatch(db: set<Row>, seeds: Marks, cursors: Marks, acked: seq<seq<Row>>, r: Row, i: nat, j: nat)
    requires ExactlyOnce(db, seeds, cursors, acked)
    requires i < j < |acked| && r in acked[i]
    ensures r !in acked[j]
  {
    assert Delivered(acked)[r] <= 1;
    if r in acked[j] { TwoBatchesCountTwice(acked, r, i, j); }
  }

  lemma {:induction false} TwoBatchesCountTwice(acked: seq<seq<Row>>, r: Row, i: nat, j: nat)
    requires i < j < |acked| && r in acked[i] && r in acked[j]
    ensures Delivered(acked)[r] >= 2
  {
    var n := |acked| - 1;
    if j < n {
      TwoBatchesCountTwice(acked[..n], r, i, j);
    } else {
      BatchIsDelivered(acked[..n], r, i);
    }
  }

  lemma {:induction false} BatchIsDelivered(acked: seq<seq<Row>>, r: Row, i: nat)
    requires i < |acked| && r in acked[i]
    ensures Delivered(acked)[r] >= 1
  {
    if i < |acked| - 1 { BatchIsDelivered(acked[..|acked| - 1], r, i); }
  }
}
