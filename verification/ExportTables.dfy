/**
  The tables and marks of the Splunk export: windows of rows between two marks of
  their stream, pages of a limited query, and what inserting, seeding, paging and
  acknowledging do to them.
 */
module ExportTables {
  datatype Family = Decisions | Alerts | Incidents

  /** A row of one of the three tables. */
  datatype Row = Row(family: Family, tenant: string, rowid: int)

  /** One number per family and tenant: seeds, cursors or the cursors to move to. */
  datatype Marks = Marks(decisions: map<string, int>, alerts: map<string, int>, incidents: map<string, int>) {
    function Of(f: Family): map<string, int> {
      match f
      case Decisions => decisions
      case Alerts => alerts
      case Incidents => incidents
    }

    function With(f: Family, m: map<string, int>): (r: Marks)
      ensures r.Of(f) == m && forall g :: g != f ==> r.Of(g) == Of(g)
    {
      match f
      case Decisions => this.(decisions := m)
      case Alerts => this.(alerts := m)
      case Incidents => this.(incidents := m)
    }

    /** Every mark of `later` replaces the one here. */
    function Moved(later: Marks): (r: Marks)
      ensures forall f :: r.Of(f) == Of(f) + later.Of(f)
    {
      Marks(decisions + later.decisions, alerts + later.alerts, incidents + later.incidents)
    }

    ghost predicate Has(r: Row) {
      r.tenant in Of(r.family)
    }
  }

  const NOTHING := Marks(map[], map[], map[])

  /** SOC_WATCH_BATCH_LIMIT of the storage layer. */
  const BATCH_LIMIT: nat := 100

  // ---------------------------------------------------------------- the tables

  /** Row ids are positive and one table never has one twice. */
  ghost predicate WellKept(db: set<Row>) {
    && (forall r :: r in db ==> r.rowid > 0)
    && forall r, s :: r in db && s in db && r.family == s.family && r.rowid == s.rowid ==> r == s
  }

  /** Inserts: rows stay, and each new row id is above all row ids its table had. */
  ghost predicate Grows(db: set<Row>, later: set<Row>) {
    && db <= later && WellKept(later)
    && forall r, s :: r in later && r !in db && s in db && r.family == s.family ==> s.rowid < r.rowid
  }

  /** The next row id of a table is above all it has. */
  lemma NewRowGrows(before: set<Row>, db: set<Row>, row: Row)
    requires Grows(before, db) && row.rowid > 0
    requires forall r :: r in db && r.family == row.family ==> r.rowid < row.rowid
    ensures Grows(db, db + {row}) && Grows(before, db + {row})
  {
  }

  /** The rows of each stream above its low mark and up to its high mark. */
  ghost function Window(db: set<Row>, low: Marks, high: Marks): set<Row> {
    set r | r in db && low.Has(r) && high.Has(r)
            && low.Of(r.family)[r.tenant] < r.rowid <= high.Of(r.family)[r.tenant]
  }

  /** A mark is zero or the id of a row its table already has, so no new row can fall below it. */
  ghost predicate Anchored(db: set<Row>, f: Family, mark: int) {
    mark == 0 || exists r :: r in db && r.family == f && r.rowid == mark
  }

  ghost predicate AllAnchored(db: set<Row>, marks: Marks) {
    forall f, t :: t in marks.Of(f) ==> Anchored(db, f, marks.Of(f)[t])
  }

  /** Inserts leave every window below anchored marks as it was. */
  lemma WindowStable(db: set<Row>, later: set<Row>, low: Marks, high: Marks)
    requires WellKept(db) && Grows(db, later) && AllAnchored(db, high)
    ensures Window(later, low, high) == Window(db, low, high)
    ensures AllAnchored(later, high)
  {
    forall r | r in later && r !in db && high.Has(r)
      ensures r.rowid > high.Of(r.family)[r.tenant]
    {
      assert Anchored(db, r.family, high.Of(r.family)[r.tenant]);
    }
    forall f, t | t in high.Of(f)
      ensures Anchored(later, f, high.Of(f)[t])
    {
      assert Anchored(db, f, high.Of(f)[t]);
    }
  }

  // ---------------------------------------------------------------- one page of a stream

  /** The page a limited, ascending query returns: the oldest rows above `since`, none left out in between. */
  ghost predicate IsPage(db: set<Row>, f: Family, t: string, since: int, rows: seq<Row>) {
    && (forall i :: 0 <= i < |rows| ==>
                      rows[i] in db && rows[i].family == f && rows[i].tenant == t && since < rows[i].rowid)
    && (forall i, j :: 0 <= i < j < |rows| ==> rows[i].rowid < rows[j].rowid)
    && (forall r :: r in db && r.family == f && r.tenant == t && since < r.rowid && r !in rows
                    ==> forall i :: 0 <= i < |rows| ==> rows[i].rowid < r.rowid)
    && |rows| <= BATCH_LIMIT
    && (|rows| < BATCH_LIMIT ==>
          forall r :: r in db && r.family == f && r.tenant == t && since < r.rowid ==> r in rows)
  }

  ghost function SetOf(rows: seq<Row>): set<Row> {
    set r | r in rows
  }

  lemma {:induction false} DistinctMultiset(rows: seq<Row>)
    requires forall i, j :: 0 <= i < j < |rows| ==> rows[i] != rows[j]
    ensures multiset(rows) == multiset(SetOf(rows))
  {
    if rows != [] {
      var n := |rows| - 1;
      DistinctMultiset(rows[..n]);
      assert rows == rows[..n] + [rows[n]];
      assert rows[n] !in rows[..n];
      assert SetOf(rows) == SetOf(rows[..n]) + {rows[n]};
    }
  }

  lemma DisjointMultiset(a: set<Row>, b: set<Row>)
    requires a !! b
    ensures multiset(a + b) == multiset(a) + multiset(b)
  {
  }

  /** Taking a page of a stream widens the pending window by exactly that page. */
  lemma PageWidensWindow(db: set<Row>, low: Marks, high: Marks, f: Family, t: string, rows: seq<Row>)
    requires t in low.Of(f) && t !in high.Of(f)
    requires rows != [] && IsPage(db, f, t, low.Of(f)[t], rows)
    ensures var wider := high.With(f, high.Of(f)[t := rows[|rows| - 1].rowid]);
            && Window(db, low, wider) == Window(db, low, high) + SetOf(rows)
            && Window(db, low, high) !! SetOf(rows)
            && multiset(Window(db, low, wider)) == multiset(Window(db, low, high)) + multiset(rows)
  {
    var last := rows[|rows| - 1];
    var wider := high.With(f, high.Of(f)[t := last.rowid]);
    forall r | r in db && r.family == f && r.tenant == t && low.Of(f)[t] < r.rowid
      ensures r.rowid <= last.rowid <==> r in rows
    {
      if r in rows {
        var i :| 0 <= i < |rows| && rows[i] == r;
        assert i < |rows| - 1 ==> rows[i].rowid < last.rowid;
      }
    }
    assert Window(db, low, wider) == Window(db, low, high) + SetOf(rows);
    DistinctMultiset(rows);
    DisjointMultiset(Window(db, low, high), SetOf(rows));
  }

  // ---------------------------------------------------------------- what is still to come of a stream

  /** The rows of a stream that are above a mark. */
  ghost function RowsAbove(rows: set<Row>, f: Family, t: string, mark: int): set<Row> {
    set r | r in rows && r.family == f && r.tenant == t && mark < r.rowid
  }

  function LessOnePage(n: nat): nat {
    if n <= BATCH_LIMIT then 0 else n - BATCH_LIMIT
  }

  lemma {:induction false} DistinctCount(rows: seq<Row>)
    requires forall i, j :: 0 <= i < j < |rows| ==> rows[i] != rows[j]
    ensures |SetOf(rows)| == |rows|
  {
    if rows != [] {
      var n := |rows| - 1;
      DistinctCount(rows[..n]);
      assert rows == rows[..n] + [rows[n]];
      assert SetOf(rows) == SetOf(rows[..n]) + {rows[n]};
    }
  }

  /** A page takes a full page off what was to come of earlier rows, or all of it: new rows come after old ones. */
  lemma PageProgress(base: set<Row>, db: set<Row>, f: Family, t: string, since: int, rows: seq<Row>)
    requires Grows(base, db) && IsPage(db, f, t, since, rows)
    ensures var mark := if rows == [] then since else rows[|rows| - 1].rowid;
            |RowsAbove(base, f, t, mark)| <= LessOnePage(|RowsAbove(base, f, t, since)|)
  {
    var mark := if rows == [] then since else rows[|rows| - 1].rowid;
    hide IsPage, Grows;
    var before, after := RowsAbove(base, f, t, since), RowsAbove(base, f, t, mark);
    PageSize(db, f, t, since, rows);
    NoneAboveMark(db, f, t, since, rows, mark);
    if |rows| < BATCH_LIMIT || exists x :: x in rows && x !in base {
      AllTaken(base, db, f, t, since, rows);
      assert after == {};
    } else {
      assert forall r :: r in after ==> r in before && r !in rows;
      FullPageOff(base, db, f, t, since, rows, after);
    }
  }

  lemma FullPageOff(base: set<Row>, db: set<Row>, f: Family, t: string, since: int, rows: seq<Row>, after: set<Row>)
    requires IsPage(db, f, t, since, rows) && |rows| == BATCH_LIMIT && forall r :: r in rows ==> r in base
    requires forall r :: r in after ==> r in RowsAbove(base, f, t, since) && r !in rows
    ensures |after| <= LessOnePage(|RowsAbove(base, f, t, since)|)
  {
    var before := RowsAbove(base, f, t, since);
    forall r | r in rows
      ensures r in before
    {
      var i :| 0 <= i < |rows| && rows[i] == r;
    }
    DistinctCount(rows);
    hide IsPage, RowsAbove;
    assert SetOf(rows) <= before && after <= before - SetOf(rows);
    Fewer(after, before - SetOf(rows));
  }

  lemma PageSize(db: set<Row>, f: Family, t: string, since: int, rows: seq<Row>)
    requires IsPage(db, f, t, since, rows)
    ensures |rows| <= BATCH_LIMIT
  {
  }

  lemma NoneAboveMark(db: set<Row>, f: Family, t: string, since: int, rows: seq<Row>, mark: int)
    requires IsPage(db, f, t, since, rows) && mark == if rows == [] then since else rows[|rows| - 1].rowid
    ensures mark >= since && forall r :: r in rows ==> r.rowid <= mark
  {
    forall r | r in rows
      ensures r.rowid <= mark
    {
      var i :| 0 <= i < |rows| && rows[i] == r;
      assert i < |rows| - 1 ==> rows[i].rowid < rows[|rows| - 1].rowid;
    }
  }

  lemma AllTaken(base: set<Row>, db: set<Row>, f: Family, t: string, since: int, rows: seq<Row>)
    requires Grows(base, db) && IsPage(db, f, t, since, rows)
    requires |rows| < BATCH_LIMIT || exists x :: x in rows && x !in base
    ensures forall r :: r in RowsAbove(base, f, t, since) ==> r in rows
  {
    if |rows| == BATCH_LIMIT {
      var x :| x in rows && x !in base;
      var i :| 0 <= i < |rows| && rows[i] == x;
      forall r | r in RowsAbove(base, f, t, since)
        ensures r in rows
      {
        assert r.rowid < x.rowid;
      }
    }
  }

  lemma {:induction false} Fewer(a: set<Row>, b: set<Row>)
    requires a <= b
    ensures |a| <= |b|
  {
    assert b == a + (b - a);
  }

  /**
    After a failed dispatch the next query of a stream starts with the same rows, and
    returns the same page if and only if that was full or nothing was added to the stream.
   */
  lemma SameWindowIff(db: set<Row>, later: set<Row>, f: Family, t: string, since: int, rows: seq<Row>, again: seq<Row>)
    requires Grows(db, later) && IsPage(db, f, t, since, rows) && IsPage(later, f, t, since, again)
    ensures rows <= again
    ensures rows == again <==> |rows| == BATCH_LIMIT || RowsAbove(later, f, t, since) == RowsAbove(db, f, t, since)
  {
    PageIsPrefix(db, later, f, t, since, rows, again);
    if |rows| < BATCH_LIMIT {
      assert RowsAbove(db, f, t, since) == SetOf(rows);
      if rows == again {
        assert RowsAbove(later, f, t, since) == SetOf(again);
      }
      if RowsAbove(later, f, t, since) == RowsAbove(db, f, t, since) {
        forall r | r in again
          ensures r in RowsAbove(later, f, t, since)
        {
          var i :| 0 <= i < |again| && again[i] == r;
        }
        DistinctCount(rows);
        DistinctCount(again);
        Fewer(SetOf(again), SetOf(rows));
      }
    }
  }

  lemma {:induction false} PageIsPrefix(db: set<Row>, later: set<Row>, f: Family, t: string, since: int,
                                        rows: seq<Row>, again: seq<Row>)
    requires Grows(db, later) && IsPage(db, f, t, since, rows) && IsPage(later, f, t, since, again)
    ensures rows <= again
  {
    LongEnough(db, later, f, t, since, rows, again);
    var n := 0;
    while n < |rows|
      invariant n <= |rows| && rows[..n] == again[..n]
    {
      NextAlike(db, later, f, t, since, rows, again, n);
      assert rows[..n + 1] == rows[..n] + [rows[n]] && again[..n + 1] == again[..n] + [again[n]];
      n := n + 1;
    }
    assert rows[..n] == rows;
  }

  lemma LongEnough(db: set<Row>, later: set<Row>, f: Family, t: string, since: int, rows: seq<Row>, again: seq<Row>)
    requires Grows(db, later) && IsPage(db, f, t, since, rows) && IsPage(later, f, t, since, again)
    ensures |rows| <= |again|
  {
    if |again| < BATCH_LIMIT {
      DistinctCount(rows);
      DistinctCount(again);
      forall r | r in rows
        ensures r in again
      {
        var i :| 0 <= i < |rows| && rows[i] == r;
      }
      Fewer(SetOf(rows), SetOf(again));
    }
  }

  lemma NextAlike(db: set<Row>, later: set<Row>, f: Family, t: string, since: int, rows: seq<Row>, again: seq<Row>,
                  n: nat)
    requires Grows(db, later) && IsPage(db, f, t, since, rows) && IsPage(later, f, t, since, again)
    requires n < |rows| && n < |again| && rows[..n] == again[..n]
    ensures rows[n] == again[n]
  {
    hide IsPage, Grows;
    var x, y := rows[n], again[n];
    OnPage(db, f, t, since, rows, n);
    OnPage(later, f, t, since, again, n);
    KeptAndLater(db, later, x, y);
    NextIsLeast(later, f, t, since, again, n, x);
    if y in db { NextIsLeast(db, f, t, since, rows, n, y); }
  }

  lemma KeptAndLater(db: set<Row>, later: set<Row>, x: Row, y: Row)
    requires Grows(db, later) && x in db && y in later && x.family == y.family
    ensures x in later && (y !in db ==> x.rowid < y.rowid) && (x.rowid == y.rowid ==> x == y)
  {
  }

  lemma OnPage(db: set<Row>, f: Family, t: string, since: int, rows: seq<Row>, n: nat)
    requires IsPage(db, f, t, since, rows) && n < |rows|
    ensures rows[n] in RowsAbove(db, f, t, since) && rows[n] !in rows[..n]
  {
  }

  /** The n-th row of a page is the oldest that is not among the rows before it. */
  lemma NextIsLeast(db: set<Row>, f: Family, t: string, since: int, rows: seq<Row>, n: nat, r: Row)
    requires IsPage(db, f, t, since, rows) && n < |rows| && r in RowsAbove(db, f, t, since) && r !in rows[..n]
    ensures rows[n].rowid <= r.rowid
  {
    if r in rows {
      var i :| 0 <= i < |rows| && rows[i] == r;
    }
  }

  // ---------------------------------------------------------------- moving and seeding cursors

  /** The marks to move to are above the marks they replace. */
  ghost predicate Above(low: Marks, high: Marks) {
    forall f, t :: t in high.Of(f) ==> t in low.Of(f) && low.Of(f)[t] <= high.Of(f)[t]
  }

  /** Moving the cursors hands the pending window over to the delivered one, with nothing in both. */
  lemma MoveJoinsWindows(db: set<Row>, seeds: Marks, cursors: Marks, advances: Marks)
    requires Above(seeds, cursors) && Above(cursors, advances)
    ensures multiset(Window(db, seeds, cursors.Moved(advances)))
         == multiset(Window(db, seeds, cursors)) + multiset(Window(db, cursors, advances))
    ensures Above(seeds, cursors.Moved(advances)) && Above(cursors, cursors.Moved(advances))
  {
    var delivered, pending := Window(db, seeds, cursors), Window(db, cursors, advances);
    assert Window(db, seeds, cursors.Moved(advances)) == delivered + pending;
    DisjointMultiset(delivered, pending);
  }

  /** Seeding a stream at its cursor delivers nothing and leaves the other streams alone. */
  lemma SeedOpensEmptyWindow(db: set<Row>, seeds: Marks, cursors: Marks, advances: Marks, f: Family, t: string,
                             seed: int)
    requires t !in cursors.Of(f) && t !in seeds.Of(f) && Above(cursors, advances)
    ensures var s, c := seeds.With(f, seeds.Of(f)[t := seed]), cursors.With(f, cursors.Of(f)[t := seed]);
            && Window(db, s, c) == Window(db, seeds, cursors)
            && Window(db, c, advances) == Window(db, cursors, advances)
            && Above(c, advances)
  {
    hide Window, Above;
    NewStreamIsEmpty(db, seeds, cursors, f, t, seed);
    OtherStreamsAsBefore(db, cursors, advances, f, t, seed);
  }

  lemma NewStreamIsEmpty(db: set<Row>, seeds: Marks, cursors: Marks, f: Family, t: string, seed: int)
    requires t !in cursors.Of(f) && t !in seeds.Of(f)
    ensures Window(db, seeds.With(f, seeds.Of(f)[t := seed]), cursors.With(f, cursors.Of(f)[t := seed]))
         == Window(db, seeds, cursors)
  {
  }

  lemma OtherStreamsAsBefore(db: set<Row>, cursors: Marks, advances: Marks, f: Family, t: string, seed: int)
    requires t !in cursors.Of(f) && Above(cursors, advances)
    ensures Window(db, cursors.With(f, cursors.Of(f)[t := seed]), advances) == Window(db, cursors, advances)
    ensures Above(cursors.With(f, cursors.Of(f)[t := seed]), advances)
  {
  }

  // ---------------------------------------------------------------- what the job keeps

  /** Everything Splunk acknowledged, with multiplicity. */
  ghost function Delivered(acked: seq<seq<Row>>): multiset<Row> {
    if acked == [] then multiset{}
    else Delivered(acked[..|acked| - 1]) + multiset(acked[|acked| - 1])
  }

  /** No mark is lost and none goes down. */
  ghost predicate Onward(before: Marks, after: Marks) {
    forall f, t :: t in before.Of(f) ==> t in after.Of(f) && before.Of(f)[t] <= after.Of(f)[t]
  }

  /** Marks may be added but those there stay as they are. */
  ghost predicate Kept(before: Marks, after: Marks) {
    forall f, t :: t in before.Of(f) ==> t in after.Of(f) && before.Of(f)[t] == after.Of(f)[t]
  }

  ghost predicate SameStreams(a: Marks, b: Marks) {
    forall f :: a.Of(f).Keys == b.Of(f).Keys
  }

  /**
    The acknowledged rows of every stream are those above its seed and up to its
    cursor, each exactly once.
   */
  ghost predicate ExactlyOnce(db: set<Row>, seeds: Marks, cursors: Marks, acked: seq<seq<Row>>) {
    && WellKept(db)
    && SameStreams(seeds, cursors) && Above(seeds, cursors) && AllAnchored(db, cursors)
    && Delivered(acked) == multiset(Window(db, seeds, cursors))
  }

  /** Halfway through a tick: the events collected are those between the cursors and where they are to move. */
  ghost predicate Collected(db: set<Row>, cursors: Marks, events: seq<Row>, advances: Marks) {
    && Above(cursors, advances) && AllAnchored(db, advances)
    && multiset(events) == multiset(Window(db, cursors, advances))
  }

  // ---------------------------------------------------------------- the first sight of a stream

  datatype Stream = Stream(family: Family, tenant: string)

  /** The rows a stream had when it was first seen, and whether the query for the newest was answered. */
  datatype Sight = Sight(rows: set<Row>, answered: bool)

  ghost function RowsOf(db: set<Row>, f: Family, t: string): set<Row> {
    set r | r in db && r.family == f && r.tenant == t
  }

  /** A seed leaves out all rows that were there, if the query for the newest was answered, and else none. */
  ghost predicate Sighted(db: set<Row>, seeds: Marks, sights: map<Stream, Sight>) {
    && (forall f, t :: t in seeds.Of(f) <==> Stream(f, t) in sights)
    && forall f, t :: Stream(f, t) in sights ==> SeedFits(db, f, t, seeds.Of(f)[t], sights[Stream(f, t)])
  }

  ghost predicate SeedFits(db: set<Row>, f: Family, t: string, seed: int, sight: Sight) {
    && sight.rows <= RowsOf(db, f, t)
    && if sight.answered then forall r :: r in sight.rows ==> r.rowid <= seed else seed == 0
  }

  ghost predicate Remembered(before: map<Stream, Sight>, after: map<Stream, Sight>) {
    forall st :: st in before ==> st in after && after[st] == before[st]
  }

  lemma SightsGrow(db: set<Row>, later: set<Row>, seeds: Marks, sights: map<Stream, Sight>)
    requires Sighted(db, seeds, sights) && db <= later
    ensures Sighted(later, seeds, sights)
  {
    forall f, t | Stream(f, t) in sights
      ensures SeedFits(later, f, t, seeds.Of(f)[t], sights[Stream(f, t)])
    {
      assert SeedFits(db, f, t, seeds.Of(f)[t], sights[Stream(f, t)]);
    }
  }

  lemma Unseen(db: set<Row>, seeds: Marks, sights: map<Stream, Sight>, f: Family, t: string)
    requires Sighted(db, seeds, sights) && t !in seeds.Of(f)
    ensures Stream(f, t) !in sights
  {
  }

  lemma NewSight(db: set<Row>, seeds: Marks, sights: map<Stream, Sight>, f: Family, t: string, seed: int,
                 answered: bool)
    requires Sighted(db, seeds, sights) && t !in seeds.Of(f)
    requires SeedFits(db, f, t, seed, Sight(RowsOf(db, f, t), answered))
    ensures Sighted(db, seeds.With(f, seeds.Of(f)[t := seed]),
                    sights[Stream(f, t) := Sight(RowsOf(db, f, t), answered)])
  {
    var s, m := seeds.With(f, seeds.Of(f)[t := seed]), sights[Stream(f, t) := Sight(RowsOf(db, f, t), answered)];
    hide SeedFits;
    forall g, u | Stream(g, u) in m
      ensures SeedFits(db, g, u, s.Of(g)[u], m[Stream(g, u)])
    {
      if g != f || u != t { assert SeedFits(db, g, u, seeds.Of(g)[u], sights[Stream(g, u)]); }
    }
  }

  lemma NothingCollected(db: set<Row>, cursors: Marks)
    ensures Collected(db, cursors, [], NOTHING)
  {
    assert Window(db, cursors, NOTHING) == {};
  }

  lemma InsertStep(db: set<Row>, later: set<Row>, seeds: Marks, cursors: Marks, acked: seq<seq<Row>>,
                   events: seq<Row>, advances: Marks)
    requires ExactlyOnce(db, seeds, cursors, acked) && Collected(db, cursors, events, advances) && Grows(db, later)
    ensures ExactlyOnce(later, seeds, cursors, acked) && Collected(later, cursors, events, advances)
  {
    WindowStable(db, later, seeds, cursors);
    WindowStable(db, later, cursors, advances);
  }

  lemma StaysGrown(db: set<Row>, seeds: Marks, cursors: Marks, acked: seq<seq<Row>>)
    requires ExactlyOnce(db, seeds, cursors, acked)
    ensures Grows(db, db)
  {
  }

  lemma SeedMarks(db: set<Row>, seeds: Marks, cursors: Marks, f: Family, t: string, seed: int)
    requires SameStreams(seeds, cursors) && Above(seeds, cursors) && AllAnchored(db, cursors)
    requires t !in cursors.Of(f) && Anchored(db, f, seed)
    ensures var s, c := seeds.With(f, seeds.Of(f)[t := seed]), cursors.With(f, cursors.Of(f)[t := seed]);
            && t !in seeds.Of(f)
            && SameStreams(s, c) && Above(s, c) && AllAnchored(db, c)
            && Kept(seeds, s) && Kept(cursors, c)
  {
    hide Anchored, Marks.With, Marks.Of;
    assert seeds.Of(f).Keys == cursors.Of(f).Keys;
  }

  lemma SeedStep(db: set<Row>, seeds: Marks, cursors: Marks, acked: seq<seq<Row>>,
                 events: seq<Row>, advances: Marks, f: Family, t: string, seed: int)
    requires ExactlyOnce(db, seeds, cursors, acked) && Collected(db, cursors, events, advances)
    requires t !in cursors.Of(f) && Anchored(db, f, seed)
    ensures var s, c := seeds.With(f, seeds.Of(f)[t := seed]), cursors.With(f, cursors.Of(f)[t := seed]);
            && ExactlyOnce(db, s, c, acked) && Collected(db, c, events, advances)
            && Kept(seeds, s) && Kept(cursors, c)
  {
    hide Window, Anchored, WellKept, Above, AllAnchored, SameStreams, Kept, Marks.With, Marks.Of, Delivered;
    SeedMarks(db, seeds, cursors, f, t, seed);
    SeedOpensEmptyWindow(db, seeds, cursors, advances, f, t, seed);
  }

  lemma PageStep(db: set<Row>, cursors: Marks, events: seq<Row>, advances: Marks, f: Family, t: string, rows: seq<Row>)
    requires Collected(db, cursors, events, advances) && t in cursors.Of(f) && t !in advances.Of(f)
    requires rows != [] && IsPage(db, f, t, cursors.Of(f)[t], rows)
    ensures Collected(db, cursors, events + rows, advances.With(f, advances.Of(f)[t := rows[|rows| - 1].rowid]))
  {
    hide Window;
    PageWidensWindow(db, cursors, advances, f, t, rows);
    assert rows[|rows| - 1] in db && Anchored(db, f, rows[|rows| - 1].rowid);
  }

  lemma AckStep(db: set<Row>, seeds: Marks, cursors: Marks, acked: seq<seq<Row>>, events: seq<Row>, advances: Marks)
    requires ExactlyOnce(db, seeds, cursors, acked) && Collected(db, cursors, events, advances)
    ensures ExactlyOnce(db, seeds, cursors.Moved(advances), acked + [events])
    ensures Onward(cursors, cursors.Moved(advances))
  {
    hide Window, Anchored, WellKept;
    MoveJoinsWindows(db, seeds, cursors, advances);
    assert (acked + [events])[..|acked|] == acked;
  }

  // ---------------------------------------------------------------- pages

  /** A page being filled: the rows taken are older than the rows left. */
  ghost predicate Filling(all: set<Row>, rest: set<Row>, rows: seq<Row>) {
    && (forall r :: r in all <==> r in rest || r in rows)
    && (forall i, r :: 0 <= i < |rows| && r in rest ==> rows[i].rowid < r.rowid)
    && (forall i, j :: 0 <= i < j < |rows| ==> rows[i].rowid < rows[j].rowid)
  }

  lemma StartFilling(all: set<Row>)
    ensures Filling(all, all, [])
  {
  }

  lemma FillStep(all: set<Row>, rest: set<Row>, rows: seq<Row>, oldest: Row)
    requires Filling(all, rest, rows) && oldest in rest
    requires forall r :: r in rest && r != oldest ==> oldest.rowid < r.rowid
    ensures Filling(all, rest - {oldest}, rows + [oldest])
  {
  }

  lemma FilledIsPage(db: set<Row>, f: Family, t: string, since: int, all: set<Row>, rest: set<Row>, rows: seq<Row>)
    requires all == set r | r in db && r.family == f && r.tenant == t && since < r.rowid
    requires Filling(all, rest, rows) && |rows| <= BATCH_LIMIT && (rest == {} || |rows| == BATCH_LIMIT)
    ensures IsPage(db, f, t, since, rows)
  {
    assert forall i :: 0 <= i < |rows| ==> rows[i] in rows && rows[i] in all;
  }

  // ---------------------------------------------------------------- everything that was sent

  /** A batch that was dispatched, and whether Splunk's acknowledgement came; Splunk may hold it either way. */
  datatype Dispatch = Dispatch(rows: seq<Row>, acked: bool)

  ghost function AckedOf(sent: seq<Dispatch>): seq<seq<Row>> {
    if sent == [] then []
    else
      var last := sent[|sent| - 1];
      AckedOf(sent[..|sent| - 1]) + if last.acked then [last.rows] else []
  }

  /**
    Every row sent, acknowledged or not, is above its stream's seed; an acknowledged one
    is not above the cursor; and nothing is sent again after it was acknowledged.
   */
  ghost predicate SentWell(db: set<Row>, seeds: Marks, cursors: Marks, sent: seq<Dispatch>) {
    && (forall i, r :: 0 <= i < |sent| && r in sent[i].rows ==> SentRow(db, seeds, cursors, r, sent[i].acked))
    && (forall i, j, r :: 0 <= i < j < |sent| && r in sent[i].rows && r in sent[j].rows ==> !sent[i].acked)
  }

  ghost predicate SentRow(db: set<Row>, seeds: Marks, cursors: Marks, r: Row, acked: bool) {
    && r in db && seeds.Has(r) && seeds.Of(r.family)[r.tenant] < r.rowid
    && (acked ==> cursors.Has(r) && r.rowid <= cursors.Of(r.family)[r.tenant])
  }

  lemma SentStays(db: set<Row>, later: set<Row>, seeds: Marks, seeds': Marks, cursors: Marks, cursors': Marks,
                  sent: seq<Dispatch>)
    requires SentWell(db, seeds, cursors, sent) && db <= later && Kept(seeds, seeds') && Onward(cursors, cursors')
    ensures SentWell(later, seeds', cursors', sent)
  {
    forall i, r | 0 <= i < |sent| && r in sent[i].rows
      ensures SentRow(later, seeds', cursors', r, sent[i].acked)
    {
      assert SentRow(db, seeds, cursors, r, sent[i].acked);
    }
  }

  lemma KeptIsOnward(before: Marks, after: Marks)
    requires Kept(before, after)
    ensures Onward(before, after)
  {
  }

  lemma SameMarks(marks: Marks)
    ensures Kept(marks, marks) && Onward(marks, marks)
  {
  }

  /** One more dispatch of what was collected, with its acknowledgement or without. */
  lemma SentMore(db: set<Row>, seeds: Marks, cursors: Marks, sent: seq<Dispatch>, events: seq<Row>, advances: Marks,
                 ok: bool)
    requires SentWell(db, seeds, cursors, sent) && Above(seeds, cursors) && SameStreams(seeds, cursors)
    requires Collected(db, cursors, events, advances) && Onward(cursors, cursors.Moved(advances))
    ensures SentWell(db, seeds, if ok then cursors.Moved(advances) else cursors, sent + [Dispatch(events, ok)])
  {
    var after, more := if ok then cursors.Moved(advances) else cursors, sent + [Dispatch(events, ok)];
    SameMarks(seeds);
    SameMarks(cursors);
    SentStays(db, db, seeds, seeds, cursors, after, sent);
    forall r | r in events
      ensures SentRow(db, seeds, after, r, ok)
      ensures cursors.Has(r) && cursors.Of(r.family)[r.tenant] < r.rowid
    {
      assert r in multiset(events) && r in Window(db, cursors, advances);
      assert seeds.Of(r.family).Keys == cursors.Of(r.family).Keys;
    }
    hide Collected, Window;
    forall i, r | 0 <= i < |sent| && r in sent[i].rows && r in events
      ensures !sent[i].acked
    {
      assert SentRow(db, seeds, cursors, r, sent[i].acked);
    }
  }

  lemma AckedMore(sent: seq<Dispatch>, d: Dispatch)
    ensures AckedOf(sent + [d]) == if d.acked then AckedOf(sent) + [d.rows] else AckedOf(sent)
  {
    assert (sent + [d])[..|sent|] == sent;
  }

  // ---------------------------------------------------------------- progress of a stream

  /** What is still to come of `base` for a stream that has been seen. */
  ghost function Behind(base: set<Row>, f: Family, t: string, marks: Marks): set<Row> {
    if t in marks.Of(f) then RowsAbove(base, f, t, marks.Of(f)[t]) else {}
  }

  /** A page's worth of the rows still to come has been taken off, or all of them. */
  ghost predicate Progress(base: set<Row>, f: Family, t: string, before: Marks, after: Marks) {
    t in before.Of(f) ==>
      t in after.Of(f) && |Behind(base, f, t, after)| <= LessOnePage(|Behind(base, f, t, before)|)
  }

  /** All marks but that of one stream are as they were. */
  ghost predicate OthersSame(before: Marks, after: Marks, f: Family, t: string) {
    forall g, u :: (g != f || u != t) ==>
                     && (u in before.Of(g) <==> u in after.Of(g))
                     && (u in before.Of(g) ==> before.Of(g)[u] == after.Of(g)[u])
  }

  lemma OthersProgress(base: set<Row>, f: Family, t: string, g: Family, u: string, start: Marks, before: Marks,
                       after: Marks)
    requires OthersSame(before, after, f, t) && (g != f || u != t) && Progress(base, g, u, start, before)
    ensures Progress(base, g, u, start, after)
  {
  }

  /** The marks after a stream was collected, up to `mark` or not moved at all. */
  lemma MarksAfter(base: set<Row>, f: Family, t: string, start: Marks, cursors: Marks, advances: Marks, mark: int)
    requires t in cursors.Of(f) && t !in advances.Of(f)
    requires cursors == start || (t !in start.Of(f) && cursors == start.With(f, start.Of(f)[t := cursors.Of(f)[t]]))
    ensures OthersSame(start.Moved(advances), cursors.Moved(advances), f, t)
    ensures OthersSame(start.Moved(advances), cursors.Moved(advances.With(f, advances.Of(f)[t := mark])), f, t)
    ensures |RowsAbove(base, f, t, mark)| <= LessOnePage(|RowsAbove(base, f, t, cursors.Of(f)[t])|) ==>
              && Progress(base, f, t, start, cursors.Moved(advances.With(f, advances.Of(f)[t := mark])))
              && (mark == cursors.Of(f)[t] ==> Progress(base, f, t, start, cursors.Moved(advances)))
  {
    hide RowsAbove, LessOnePage, Marks.With, Marks.Moved, Marks.Of, OthersSame;
    SeedElsewhere(f, t, start, cursors, advances, advances);
    SeedElsewhere(f, t, start, cursors, advances, advances.With(f, advances.Of(f)[t := mark]));
    var moved := cursors.Moved(advances.With(f, advances.Of(f)[t := mark]));
    assert moved.Of(f)[t] == mark && cursors.Moved(advances).Of(f)[t] == cursors.Of(f)[t];
  }

  lemma SeedElsewhere(f: Family, t: string, start: Marks, cursors: Marks, advances: Marks, moved: Marks)
    requires t in cursors.Of(f)
    requires cursors == start || cursors == start.With(f, start.Of(f)[t := cursors.Of(f)[t]])
    requires moved == advances || (t in moved.Of(f) && moved == advances.With(f, advances.Of(f)[t := moved.Of(f)[t]]))
    ensures OthersSame(start.Moved(advances), cursors.Moved(moved), f, t)
  {
    hide Marks.With, Marks.Moved, Marks.Of;
    var x, y := start.Moved(advances), cursors.Moved(moved);
    forall g, u | g != f || u != t
      ensures u in x.Of(g) <==> u in y.Of(g)
      ensures u in x.Of(g) ==> x.Of(g)[u] == y.Of(g)[u]
    {
      assert x.Of(g) == start.Of(g) + advances.Of(g) && y.Of(g) == cursors.Of(g) + moved.Of(g);
    }
  }

  lemma KeptSame(marks: Marks, seeds: Marks, sights: map<Stream, Sight>)
    ensures Kept(marks, marks) && Kept(seeds, seeds) && Remembered(sights, sights)
  {
  }

  lemma KeptWith(marks: Marks, f: Family, t: string, mark: int)
    requires t !in marks.Of(f)
    ensures Kept(marks, marks.With(f, marks.Of(f)[t := mark]))
  {
  }

  lemma KeptTransitive(a: Marks, b: Marks, c: Marks)
    requires Kept(a, b) && Kept(b, c)
    ensures Kept(a, c)
  {
  }

  lemma RememberedTransitive(a: map<Stream, Sight>, b: map<Stream, Sight>, c: map<Stream, Sight>)
    requires Remembered(a, b) && Remembered(b, c)
    ensures Remembered(a, c)
  {
  }

  lemma NoneMoved(cursors: Marks, advances: Marks)
    requires forall g, u :: u !in advances.Of(g)
    ensures cursors.Moved(advances) == cursors
  {
    assert advances.decisions == advances.Of(Decisions) == map[];
    assert advances.alerts == advances.Of(Alerts) == map[];
    assert advances.incidents == advances.Of(Incidents) == map[];
  }

  lemma NewStream(db: set<Row>, seeds: Marks, cursors: Marks, acked: seq<seq<Row>>, f: Family, t: string)
    requires ExactlyOnce(db, seeds, cursors, acked) && t !in cursors.Of(f)
    ensures t !in seeds.Of(f)
  {
    assert seeds.Of(f).Keys == cursors.Of(f).Keys;
  }
}
