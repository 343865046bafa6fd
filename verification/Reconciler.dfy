/**
 * The pin reconciler (openweights-cas-storage, reconciler.rs): sweeps over rows that are stuck on their
 * way to 'pinned', oldest attempt first, at most `BATCH` rows a sweep, orphaning a row after
 * `MAX_PIN_ATTEMPTS` permanent failures.
 */
module Reconciler {
  import opened Prelude

  const BATCH: nat := 20
  const MAX_PIN_ATTEMPTS: nat := 5
  /** Five minutes, in seconds. */
  const STUCK_THRESHOLD: int := 300

  type Hash = seq<Byte>
  type SiaId = seq<Byte>

  datatype Kind = Xorbs | Shards

  datatype PinState = Uploading | Pinning | Pinned | Orphaned

  datatype Row = Row(state: PinState, siaId: Option<SiaId>, attempts: nat, last: Option<int>)

  type Table = map<Hash, Row>

  // ----- the SELECT

  predicate Stuck(row: Row) {
    (row.state == Uploading || row.state == Pinning) && row.attempts < MAX_PIN_ATTEMPTS
  }

  predicate Eligible(row: Row, now: int) {
    Stuck(row) && (row.last == None || row.last.value < now - STUCK_THRESHOLD)
  }

  /** `ORDER BY last_pin_attempt_at ASC NULLS FIRST` */
  predicate NotLater(a: Option<int>, b: Option<int>) {
    a == None || (b.Some? && a.value <= b.value)
  }

  function EligibleRows(rows: Table, now: int): set<Hash> {
    set h | h in rows && Eligible(rows[h], now)
  }

  /** What the query may return: ties are ordered in any way. */
  ghost predicate Selected(rows: Table, now: int, batch: seq<Hash>) {
    && Distinct(batch) && |batch| == Min(BATCH, |EligibleRows(rows, now)|)
    && (forall h :: h in batch ==> h in EligibleRows(rows, now))
    && (forall i, j :: 0 <= i < j < |batch| && batch[i] in rows && batch[j] in rows ==>
          NotLater(rows[batch[i]].last, rows[batch[j]].last))
    && (forall h, g :: h in batch && g in EligibleRows(rows, now) && g !in batch && h in rows ==>
          NotLater(rows[h].last, rows[g].last))
  }

  // ----- one row

  /** What the Sia call for a row comes to. */
  datatype Answer = Succeeds(id: SiaId) | Unavailable | OtherError | TimesOut

  datatype Verdict = Pin(id: SiaId) | Transient | Permanent | Lost

  /** What a sweep makes of the row it selected: a shard's timeout is transient, a xorb's is not; a xorb
      without an id is uploaded again from its stored body, a shard without an id cannot be. */
  function Judge(kind: Kind, row: Row, answer: Answer, hasBody: bool): Verdict {
    if row.state == Uploading then Lost
    else if row.siaId == None && (kind == Shards || !hasBody) then Permanent
    else match answer
      case Succeeds(id) => Pin(if row.siaId.Some? then row.siaId.value else id)
      case Unavailable => Transient
      case OtherError => Permanent
      case TimesOut => if kind == Shards then Transient else Permanent
  }

  /** The UPDATE that a verdict on the selected row leads to, on the row as it is by then. */
  function Update(verdict: Verdict, selected: Row, current: Row, now: int): Row {
    match verdict
    case Pin(id) =>
      if current.state == Pinned then current
      else current.(state := Pinned, siaId := Some(if current.siaId.Some? then current.siaId.value else id),
                    last := Some(now))
    case Transient => current.(last := Some(now))
    case Permanent =>
      if selected.attempts + 1 >= MAX_PIN_ATTEMPTS then OrphanRow(current, now)
      else current.(attempts := current.attempts + 1, last := Some(now))
    case Lost => OrphanRow(current, now)
  }

  function OrphanRow(row: Row, now: int): Row {
    row.(state := Orphaned, attempts := row.attempts + 1, last := Some(now))
  }

  predicate Orphans(verdict: Verdict, selected: Row) {
    verdict == Lost || (verdict == Permanent && selected.attempts + 1 >= MAX_PIN_ATTEMPTS)
  }

  /** The answers that count as a failure of the row: Sia refuses, a xorb's call times out, or there is
      nothing to call Sia with. */
  predicate Fails(kind: Kind, row: Row, answer: Answer, hasBody: bool) {
    || (row.siaId == None && (kind == Shards || !hasBody))
    || answer == OtherError
    || (answer == TimesOut && kind == Xorbs)
  }

  /** A handler pins a row after the SELECT has seen it stuck.  The UPDATE keeps the handler's id and bumps the
      attempts at most once, and the row stays pinned except when it was selected as 'uploading', or on its
      last attempt with an answer that counts as a failure. */
  lemma HandlerRace(kind: Kind, selected: Row, answer: Answer, hasBody: bool, current: Row, now: int)
    requires Stuck(selected) && current.state == Pinned
    ensures var row := Update(Judge(kind, selected, answer, hasBody), selected, current, now);
      && row.siaId == current.siaId && current.attempts <= row.attempts <= current.attempts + 1
      && (row.state == Pinned || row.state == Orphaned)
      && (row.state == Pinned <==>
            !(selected.state == Uploading
              || (selected.attempts == MAX_PIN_ATTEMPTS - 1 && Fails(kind, selected, answer, hasBody))))
  {
    var verdict := Judge(kind, selected, answer, hasBody);
    assert verdict == Permanent <==> selected.state == Pinning && Fails(kind, selected, answer, hasBody);
  }

  // ----- one sweep

  /** The visit of a sweep to one row. */
  datatype Visit = Visit(hash: Hash, answer: Answer, hasBody: bool, now: int)

  function VerdictOn(kind: Kind, rows: Table, v: Visit): Verdict
    requires v.hash in rows
  {
    Judge(kind, rows[v.hash], v.answer, v.hasBody)
  }

  function AfterVisit(kind: Kind, rows: Table, v: Visit): Table {
    if v.hash !in rows then rows
    else rows[v.hash := Update(VerdictOn(kind, rows, v), rows[v.hash], rows[v.hash], v.now)]
  }

  function AfterVisits(kind: Kind, rows: Table, visits: seq<Visit>): Table {
    if visits == [] then rows
    else AfterVisit(kind, AfterVisits(kind, rows, visits[..|visits| - 1]), visits[|visits| - 1])
  }

  function Visited(visits: seq<Visit>): (r: seq<Hash>)
    ensures |r| == |visits|
  {
    seq(|visits|, i requires 0 <= i < |visits| => visits[i].hash)
  }

  /** Rows that are not visited stay as they are. */
  lemma {:induction false} Unvisited(kind: Kind, rows: Table, visits: seq<Visit>, h: Hash)
    requires forall i :: 0 <= i < |visits| ==> visits[i].hash != h
    ensures AfterVisits(kind, rows, visits).Keys == rows.Keys
    ensures h in rows ==> AfterVisits(kind, rows, visits)[h] == rows[h]
  {
    if visits != [] {
      Unvisited(kind, rows, visits[..|visits| - 1], h);
    }
  }

  lemma {:induction false} KeysKept(kind: Kind, rows: Table, visits: seq<Visit>)
    ensures AfterVisits(kind, rows, visits).Keys == rows.Keys
  {
    if visits != [] {
      KeysKept(kind, rows, visits[..|visits| - 1]);
    }
  }

  /** A row that is visited once is updated from what was selected. */
  lemma {:induction false} VisitedOnce(kind: Kind, rows: Table, visits: seq<Visit>, i: nat)
    requires Distinct(Visited(visits)) && i < |visits| && visits[i].hash in rows
    ensures AfterVisits(kind, rows, visits).Keys == rows.Keys
    ensures var v := visits[i];
      AfterVisits(kind, rows, visits)[v.hash] == Update(VerdictOn(kind, rows, v), rows[v.hash], rows[v.hash], v.now)
  {
    var before := visits[..|visits| - 1];
    KeysKept(kind, rows, before);
    var hashes := Visited(visits);
    if i == |visits| - 1 {
      forall j | 0 <= j < |before| ensures before[j].hash != visits[i].hash {
        assert hashes[j] != hashes[i];
      }
      Unvisited(kind, rows, before, visits[i].hash);
    } else {
      assert Visited(before) == hashes[..|visits| - 1];
      VisitedOnce(kind, rows, before, i);
      assert hashes[i] != hashes[|visits| - 1];
    }
  }

  /** The database table of one kind and its metrics. */
  class Sweeper {
    const kind: Kind
    var rows: Table
    var orphaned: nat

    ghost const start: Table
    ghost const began: int
    ghost var history: seq<SweepRecord>

    /** The table is what the sweeps so far have made of the first one, and the metric counts their orphans. */
    ghost predicate Tracked()
      reads this
    {
      && ValidRun(kind, start, history, began) && rows == AfterRun(kind, start, history)
      && orphaned == RunOrphaned(kind, start, history)
    }

    constructor (kind: Kind, rows: Table, ghost now: int)
      ensures this.kind == kind && this.rows == rows && orphaned == 0
      ensures Tracked() && start == rows && began == now && history == []
    {
      this.kind, this.rows, this.orphaned := kind, rows, 0;
      this.start, this.began, this.history := rows, now, [];
    }

    method SetPinned(h: Hash, id: SiaId, now: int)
      requires h in rows
      modifies this`rows
      ensures rows == old(rows)[h := Update(Pin(id), old(rows[h]), old(rows[h]), now)]
    {
      var row := rows[h];
      if row.state != Pinned {
        var kept := if row.siaId.Some? then row.siaId.value else id;
        rows := rows[h := row.(state := Pinned, siaId := Some(kept), last := Some(now))];
      } else {
        assert rows == rows[h := row];
      }
    }

    method Orphan(h: Hash, now: int)
      requires h in rows
      modifies this`rows, this`orphaned
      ensures rows == old(rows)[h := OrphanRow(old(rows[h]), now)] && orphaned == old(orphaned) + 1
    {
      rows := rows[h := rows[h].(state := Orphaned, attempts := rows[h].attempts + 1, last := Some(now))];
      orphaned := orphaned + 1;
    }

    /** `bump_xorb_attempt` and `bump_shard_attempt` */
    method BumpAttempt(h: Hash, selected: Row, transient: bool, now: int)
      requires h in rows
      modifies this`rows, this`orphaned
      ensures var verdict := if transient then Transient else Permanent;
        && rows == old(rows)[h := Update(verdict, selected, old(rows[h]), now)]
        && orphaned == old(orphaned) + if Orphans(verdict, selected) then 1 else 0
    {
      var row := rows[h];
      if transient {
        rows := rows[h := row.(last := Some(now))];
        return;
      }
      var newAttempts := selected.attempts + 1;
      if newAttempts >= MAX_PIN_ATTEMPTS {
        Orphan(h, now);
      } else {
        rows := rows[h := row.(attempts := row.attempts + 1, last := Some(now))];
      }
    }

    /** `reconcile_xorb_row` and `reconcile_shard_row` on the row as it was selected. */
    method ReconcileRow(h: Hash, selected: Row, answer: Answer, hasBody: bool, now: int)
      requires h in rows
      modifies this`rows, this`orphaned
      ensures var verdict := Judge(kind, selected, answer, hasBody);
        && rows == old(rows)[h := Update(verdict, selected, old(rows[h]), now)]
        && orphaned == old(orphaned) + if Orphans(verdict, selected) then 1 else 0
    {
      if selected.state == Uploading {
        Orphan(h, now);
        return;
      }
      match selected.siaId {
        case Some(oid) =>
          match answer {
            case Succeeds(_) => SetPinned(h, oid, now);
            case Unavailable => BumpAttempt(h, selected, true, now);
            case OtherError => BumpAttempt(h, selected, false, now);
            case TimesOut => BumpAttempt(h, selected, kind == Shards, now);
          }
        case None =>
          if kind == Shards || !hasBody {
            BumpAttempt(h, selected, false, now);
          } else {
            match answer {
              case Succeeds(id) => SetPinned(h, id, now);
              case Unavailable => BumpAttempt(h, selected, true, now);
              case OtherError => BumpAttempt(h, selected, false, now);
              case TimesOut => BumpAttempt(h, selected, false, now);
            }
          }
      }
    }

    /** One pass over the table: the rows that the SELECT returned are reconciled one after the other, with
        whatever answers Sia gives and whatever time each takes. */
    method Sweep(now: int, batch: seq<Hash>) returns (handled: nat, end: int, ghost sweep: SweepRecord)
      requires Selected(rows, now, batch)
      modifies this`rows, this`orphaned
      ensures sweep.now == now && sweep.end == end && Clocked(sweep)
      ensures Visited(sweep.visits) == batch && handled == |batch|
      ensures rows == AfterVisits(kind, old(rows), sweep.visits)
      ensures orphaned == old(orphaned) + OrphanedBy(kind, old(rows), sweep.visits)
    {
      var selected := rows;
      ghost var visits: seq<Visit> := [];
      var time := now;
      handled := 0;
      for i := 0 to |batch|
        invariant |visits| == i == handled && now <= time
        invariant forall j :: 0 <= j < i ==> visits[j].hash == batch[j] && now <= visits[j].now <= time
        invariant rows == AfterVisits(kind, selected, visits)
        invariant orphaned == old(orphaned) + OrphanedBy(kind, selected, visits)
      {
        var h := batch[i];
        assert h in EligibleRows(selected, now);
        Unvisited(kind, selected, visits, h);
        var answer, hasBody := AskSia();
        time := Clock(time);
        ReconcileRow(h, selected[h], answer, hasBody, time);
        ghost var v := Visit(h, answer, hasBody, time);
        assert (visits + [v])[..i] == visits;
        visits := visits + [v];
        handled := handled + 1;
      }
      end := time;
      sweep := SweepRecord(now, visits, time);
      assert Visited(visits) == batch;
    }

    /** One of the two halves of `reconcile_once`: the SELECT, then the rows. */
    method Pass(now: int) returns (handled: nat, end: int)
      requires Tracked() && EndOf(history, began) <= now
      modifies this`rows, this`orphaned, this`history
      ensures Tracked() && |history| == |old(history)| + 1 && history[..|old(history)|] == old(history)
      ensures var sweep := history[|old(history)|];
        && sweep.now == now && sweep.end == end && Clocked(sweep)
        && Selected(old(rows), now, Visited(sweep.visits)) && handled == |sweep.visits|
        && rows == AfterVisits(kind, old(rows), sweep.visits)
        && orphaned == old(orphaned) + OrphanedBy(kind, old(rows), sweep.visits)
    {
      var batch := FetchStuck(rows, now);
      ghost var sweep: SweepRecord;
      ghost var before := rows;
      handled, end, sweep := Sweep(now, batch);
      RunAppend(kind, start, history, began, sweep);
      history := history + [sweep];
    }
  }

  // ----- the SELECT as a query

  predicate Oldest(rows: Table, rest: set<Hash>, h: Hash) {
    h in rest && h in rows && forall g :: g in rest && g in rows ==> NotLater(rows[h].last, rows[g].last)
  }

  lemma {:induction false} OldestExists(rows: Table, rest: set<Hash>)
    requires rest != {} && rest <= rows.Keys
    ensures exists h :: Oldest(rows, rest, h)
  {
    var x :| x in rest;
    if rest == {x} {
      assert Oldest(rows, rest, x);
    } else {
      OldestExists(rows, rest - {x});
      var h :| Oldest(rows, rest - {x}, h);
      assert Oldest(rows, rest, if NotLater(rows[h].last, rows[x].last) then h else x);
    }
  }

  /** The part of the answer that has been fetched, and the rows that are left. */
  ghost predicate Fetched(rows: Table, now: int, batch: seq<Hash>, rest: set<Hash>) {
    && Distinct(batch) && |batch| <= BATCH && |batch| + |rest| == |EligibleRows(rows, now)|
    && (forall h :: h in EligibleRows(rows, now) <==> h in batch || h in rest)
    && (forall h :: h in batch ==> h !in rest)
    && (forall i, j :: 0 <= i < j < |batch| && batch[i] in rows && batch[j] in rows ==>
          NotLater(rows[batch[i]].last, rows[batch[j]].last))
    && (forall h, g :: h in batch && g in rest && h in rows && g in rows ==> NotLater(rows[h].last, rows[g].last))
  }

  lemma FetchOne(rows: Table, now: int, batch: seq<Hash>, rest: set<Hash>, h: Hash)
    requires Fetched(rows, now, batch, rest) && Oldest(rows, rest, h) && |batch| < BATCH
    ensures Fetched(rows, now, batch + [h], rest - {h})
  {
    var longer := batch + [h];
    assert forall g :: g in longer <==> g in batch || g == h;
    forall i, j | 0 <= i < j < |longer| && longer[i] in rows && longer[j] in rows
      ensures longer[i] != longer[j] && NotLater(rows[longer[i]].last, rows[longer[j]].last)
    {
      assert longer[i] in batch;
    }
    forall i, j | 0 <= i < j < |longer| ensures longer[i] != longer[j] {
      assert longer[i] in batch;
    }
  }

  /** `fetch_stuck_xorbs` and `fetch_stuck_shards`: oldest attempt first, ties in any order. */
  method FetchStuck(rows: Table, now: int) returns (batch: seq<Hash>)
    ensures Selected(rows, now, batch)
  {
    batch := [];
    var rest := EligibleRows(rows, now);
    while rest != {} && |batch| < BATCH
      invariant Fetched(rows, now, batch, rest)
      decreases |rest|
    {
      OldestExists(rows, rest);
      var h :| Oldest(rows, rest, h);
      FetchOne(rows, now, batch, rest, h);
      batch := batch + [h];
      rest := rest - {h};
    }
  }

  /** What Sia answers, and whether the body of a xorb is still stored: anything. */
  method AskSia() returns (answer: Answer, hasBody: bool)
  {
    hasBody := *;
    var choice: nat := *;
    var id: SiaId := *;
    answer := if choice == 0 then Unavailable else if choice == 1 then OtherError
              else if choice == 2 then TimesOut else Succeeds(id);
  }

  /** A later reading of the clock. */
  method Clock(time: int) returns (later: int)
    ensures later >= time
  {
    later :| later >= time;
  }

  /** The visits of a sweep that selected its rows at `now` and was over by `end`. */
  datatype SweepRecord = SweepRecord(now: int, visits: seq<Visit>, end: int)

  predicate Clocked(s: SweepRecord) {
    s.now <= s.end && forall i :: 0 <= i < |s.visits| ==> s.now <= s.visits[i].now <= s.end
  }

  /** How often the visits orphan a row. */
  function OrphanedBy(kind: Kind, rows: Table, visits: seq<Visit>): nat {
    if visits == [] then 0
    else
      var before := AfterVisits(kind, rows, visits[..|visits| - 1]);
      var v := visits[|visits| - 1];
      OrphanedBy(kind, rows, visits[..|visits| - 1])
      + if v.hash in before && Orphans(VerdictOn(kind, before, v), before[v.hash]) then 1 else 0
  }

  // ----- whole runs

  function AfterRun(kind: Kind, rows: Table, run: seq<SweepRecord>): Table
    decreases |run|
  {
    if run == [] then rows else AfterRun(kind, AfterVisits(kind, rows, run[0].visits), run[1..])
  }

  /** Sweep after sweep on the table as the previous one left it, with a clock that does not go back. */
  ghost predicate ValidRun(kind: Kind, rows: Table, run: seq<SweepRecord>, clock: int)
    decreases |run|
  {
    run == []
    || (&& clock <= run[0].now && Clocked(run[0]) && Selected(rows, run[0].now, Visited(run[0].visits))
        && ValidRun(kind, AfterVisits(kind, rows, run[0].visits), run[1..], run[0].end))
  }

  /** When the last sweep of a run was over. */
  function EndOf(run: seq<SweepRecord>, clock: int): int
    decreases |run|
  {
    if run == [] then clock else EndOf(run[1..], run[0].end)
  }

  lemma {:induction false} EndOfLast(run: seq<SweepRecord>, clock: int)
    ensures EndOf(run, clock) == if run == [] then clock else run[|run| - 1].end
    decreases |run|
  {
    if run != [] {
      EndOfLast(run[1..], run[0].end);
    }
  }

  /** How often the sweeps of a run orphan a row. */
  function RunOrphaned(kind: Kind, rows: Table, run: seq<SweepRecord>): nat
    decreases |run|
  {
    if run == [] then 0
    else OrphanedBy(kind, rows, run[0].visits) + RunOrphaned(kind, AfterVisits(kind, rows, run[0].visits), run[1..])
  }

  lemma {:induction false} RunAppend(kind: Kind, rows: Table, run: seq<SweepRecord>, clock: int, s: SweepRecord)
    requires ValidRun(kind, rows, run, clock) && Clocked(s) && EndOf(run, clock) <= s.now
    requires Selected(AfterRun(kind, rows, run), s.now, Visited(s.visits))
    ensures ValidRun(kind, rows, run + [s], clock)
    ensures AfterRun(kind, rows, run + [s]) == AfterVisits(kind, AfterRun(kind, rows, run), s.visits)
    ensures RunOrphaned(kind, rows, run + [s])
         == RunOrphaned(kind, rows, run) + OrphanedBy(kind, AfterRun(kind, rows, run), s.visits)
    decreases |run|
  {
    var longer := run + [s];
    if run == [] {
      assert longer[1..] == [] && longer[0] == s;
    } else {
      RunAppend(kind, AfterVisits(kind, rows, run[0].visits), run[1..], run[0].end, s);
      assert longer[1..] == run[1..] + [s] && longer[0] == run[0];
    }
  }

  /** `reconcile_once`: the xorbs first, then the shards, which are selected when the xorbs are done; a pass
      that handled rows counts as a sweep. */
  method ReconcileOnce(xorbs: Sweeper, shards: Sweeper, now: int) returns (handled: nat, counted: bool, end: int)
    requires xorbs != shards && xorbs.Tracked() && shards.Tracked()
    requires EndOf(xorbs.history, xorbs.began) <= now && EndOf(shards.history, shards.began) <= now
    modifies xorbs, shards
    ensures xorbs.Tracked() && |xorbs.history| == |old(xorbs.history)| + 1
            && xorbs.history[..|old(xorbs.history)|] == old(xorbs.history)
    ensures shards.Tracked() && |shards.history| == |old(shards.history)| + 1
            && shards.history[..|old(shards.history)|] == old(shards.history)
    ensures var x, y := xorbs.history[|old(xorbs.history)|], shards.history[|old(shards.history)|];
      && x.now == now && x.end <= y.now && y.end == end && Clocked(x) && Clocked(y)
      && Selected(old(xorbs.rows), x.now, Visited(x.visits)) && Selected(old(shards.rows), y.now, Visited(y.visits))
      && xorbs.rows == AfterVisits(xorbs.kind, old(xorbs.rows), x.visits)
      && shards.rows == AfterVisits(shards.kind, old(shards.rows), y.visits)
      && xorbs.orphaned == old(xorbs.orphaned) + OrphanedBy(xorbs.kind, old(xorbs.rows), x.visits)
      && shards.orphaned == old(shards.orphaned) + OrphanedBy(shards.kind, old(shards.rows), y.visits)
      && handled == |x.visits| + |y.visits| && (counted <==> handled > 0)
  {
    var n: nat, m: nat, between: int;
    n, between := xorbs.Pass(now);
    var later := Clock(between);
    EndOfLast(xorbs.history, xorbs.began);
    m, end := shards.Pass(later);
    handled := n + m;
    counted := handled > 0;
  }

  /** `run_reconciler` for `n` ticks: whatever happens in between, the orphan metrics count exactly the rows
      that were orphaned. */
  method RunReconciler(xorbs: Sweeper, shards: Sweeper, start: int, n: nat) returns (sweeps: nat)
    requires xorbs != shards && xorbs.Tracked() && shards.Tracked() && TableOk(xorbs.start) && TableOk(shards.start)
    requires EndOf(xorbs.history, xorbs.began) <= start && EndOf(shards.history, shards.began) <= start
    modifies xorbs, shards
    ensures xorbs.Tracked() && |xorbs.history| == |old(xorbs.history)| + n
    ensures shards.Tracked() && |shards.history| == |old(shards.history)| + n
    ensures sweeps <= n
    ensures |OrphanedRows(xorbs.rows)| == |OrphanedRows(xorbs.start)| + xorbs.orphaned
    ensures |OrphanedRows(shards.rows)| == |OrphanedRows(shards.start)| + shards.orphaned
  {
    sweeps := 0;
    var time := start;
    for i := 0 to n
      invariant xorbs.Tracked() && |xorbs.history| == |old(xorbs.history)| + i
      invariant shards.Tracked() && |shards.history| == |old(shards.history)| + i
      invariant EndOf(xorbs.history, xorbs.began) <= time && EndOf(shards.history, shards.began) <= time
      invariant sweeps <= i
    {
      var handled: nat, counted: bool, end: int;
      handled, counted, end := ReconcileOnce(xorbs, shards, time);
      EndOfLast(xorbs.history, xorbs.began);
      EndOfLast(shards.history, shards.began);
      if counted {
        sweeps := sweeps + 1;
      }
      time := Clock(end);
    }
    RunOrphanCounter(xorbs.kind, xorbs.start, xorbs.history, xorbs.began);
    RunOrphanCounter(shards.kind, shards.start, shards.history, shards.began);
  }

  // ----- bounded waiting

  /** The other stuck rows whose last attempt is not later than `x`'s. */
  function Ahead(rows: Table, x: Hash): set<Hash>
    requires x in rows
  {
    set y | y in rows && y != x && Stuck(rows[y]) && NotLater(rows[y].last, rows[x].last)
  }

  /** Every attempt moves its row behind every row that was already waiting. */
  lemma MovesBehind(kind: Kind, row: Row, answer: Answer, hasBody: bool, time: int, now: int, waiting: Row)
    requires Eligible(row, now) && Eligible(waiting, now) && now <= time
    ensures var row' := Update(Judge(kind, row, answer, hasBody), row, row, time);
            !Stuck(row') || !NotLater(row'.last, waiting.last)
  {
  }

  /** The rows ahead of a row that a sweep passes over: those it visits move behind, the others stay. */
  lemma AheadAfter(kind: Kind, rows: Table, s: SweepRecord, x: Hash)
    requires x in rows && Eligible(rows[x], s.now) && Clocked(s) && Selected(rows, s.now, Visited(s.visits))
    requires x !in Visited(s.visits)
    ensures var rows' := AfterVisits(kind, rows, s.visits);
      && x in rows' && rows'[x] == rows[x]
      && Ahead(rows', x) <= Ahead(rows, x) - (set h | h in Visited(s.visits))
  {
    var rows' := AfterVisits(kind, rows, s.visits);
    var batch := Visited(s.visits);
    NotVisited(s.visits, x);
    Unvisited(kind, rows, s.visits, x);
    forall h | h in Ahead(rows', x) ensures h in Ahead(rows, x) && h !in batch {
      if i :| 0 <= i < |batch| && batch[i] == h {
        KeysKept(kind, rows, s.visits);
        VisitedOnce(kind, rows, s.visits, i);
        assert h in EligibleRows(rows, s.now);
        var v := s.visits[i];
        MovesBehind(kind, rows[h], v.answer, v.hasBody, v.now, s.now, rows[x]);
      } else {
        NotVisited(s.visits, h);
        Unvisited(kind, rows, s.visits, h);
      }
    }
  }

  lemma NotVisited(visits: seq<Visit>, h: Hash)
    requires h !in Visited(visits)
    ensures forall i :: 0 <= i < |visits| ==> visits[i].hash != h
  {
    forall i | 0 <= i < |visits| ensures visits[i].hash != h {
      assert Visited(visits)[i] in Visited(visits);
    }
  }

  /** A sweep that passes over an eligible row takes a full batch of the rows ahead of it, and none of them
      is ahead of it afterwards. */
  lemma PassedOver(kind: Kind, rows: Table, s: SweepRecord, x: Hash)
    requires x in rows && Eligible(rows[x], s.now) && Clocked(s) && Selected(rows, s.now, Visited(s.visits))
    requires x !in Visited(s.visits)
    ensures var rows' := AfterVisits(kind, rows, s.visits);
      && x in rows' && rows'[x] == rows[x]
      && |Ahead(rows', x)| + BATCH <= |Ahead(rows, x)|
  {
    var batch := Visited(s.visits);
    AheadAfter(kind, rows, s, x);
    FullBatch(rows, s.now, batch, x);
    forall h | h in batch ensures h in Ahead(rows, x) {
      assert h in EligibleRows(rows, s.now) && x in EligibleRows(rows, s.now);
    }
    FewerLeft(Ahead(rows, x), Ahead(AfterVisits(kind, rows, s.visits), x), batch);
  }

  lemma FewerLeft(ahead: set<Hash>, left: set<Hash>, batch: seq<Hash>)
    requires Distinct(batch) && (forall h :: h in batch ==> h in ahead) && left <= ahead - (set h | h in batch)
    ensures |left| + |batch| <= |ahead|
  {
    var taken := set h | h in batch;
    DistinctCard(batch);
    SubsetCard(left, ahead - taken);
    assert ahead == (ahead - taken) + taken;
  }

  lemma FullBatch(rows: Table, now: int, batch: seq<Hash>, x: Hash)
    requires x in rows && Eligible(rows[x], now) && Selected(rows, now, batch) && x !in batch
    ensures |batch| == BATCH
  {
    var eligible := EligibleRows(rows, now);
    assert x in eligible;
    DistinctCard(batch);
    var taken := set h | h in batch;
    SubsetCard(taken + {x}, eligible);
    assert |taken + {x}| == |taken| + 1;
  }

  /** Bounded waiting: an eligible row with `k` rows ahead of it is attempted within `k / 20 + 1` sweeps,
      however ties are ordered and whatever Sia answers. */
  lemma {:induction false} BoundedWaiting(kind: Kind, rows: Table, run: seq<SweepRecord>, clock: int, x: Hash)
    requires ValidRun(kind, rows, run, clock) && x in rows && Eligible(rows[x], clock)
    requires |run| >= |Ahead(rows, x)| / 20 + 1
    ensures exists i :: 0 <= i <= |Ahead(rows, x)| / 20 && x in Visited(run[i].visits)
    decreases |run|
  {
    var s := run[0];
    if x !in Visited(s.visits) {
      PassedOver(kind, rows, s, x);
      var rows' := AfterVisits(kind, rows, s.visits);
      BoundedWaiting(kind, rows', run[1..], s.end, x);
      var i :| 0 <= i <= |Ahead(rows', x)| / 20 && x in Visited(run[1..][i].visits);
      assert run[i + 1] == run[1..][i];
    }
  }

  /** What one sweep makes of a row that it visits, case by case: the call to Sia is made for a pinning row with an id,
      or for a pinning xorb whose body is stored; it pins the row if it succeeds, changes nothing but the time if Sia
      is unavailable or a shard's call times out, and otherwise counts, as the lack of anything to call Sia with does;
      the fifth count orphans, and so does a visit to a row that is still uploading. */
  lemma SweepOutcome(kind: Kind, rows: Table, visits: seq<Visit>, i: nat)
    requires Sweeps(rows, visits) && i < |visits|
    ensures visits[i].hash in rows && visits[i].hash in AfterVisits(kind, rows, visits)
    ensures var v := visits[i];
      var row, row' := rows[v.hash], AfterVisits(kind, rows, visits)[v.hash];
      var calls := row.state == Pinning && (row.siaId.Some? || (kind == Xorbs && v.hasBody));
      var spared := calls && (v.answer == Unavailable || (v.answer == TimesOut && kind == Shards));
      && row'.last == Some(v.now)
      && (calls && v.answer.Succeeds? ==>
            row' == Row(Pinned, if row.siaId.Some? then row.siaId else Some(v.answer.id), row.attempts, row'.last))
      && (spared ==> row' == row.(last := row'.last))
      && (!spared && !(calls && v.answer.Succeeds?) ==>
            row' == Row(if row.state == Uploading || row.attempts + 1 == 5 then Orphaned else Pinning,
                        row.siaId, row.attempts + 1, row'.last))
  {
    VisitedOnce(kind, rows, visits, i);
  }

  /** A sweep visits only rows that are on their way, have been tried fewer than five times, and not within the last
      300 seconds; and it visits twenty of them, or all. */
  lemma SelectedExact(rows: Table, now: int, batch: seq<Hash>, h: Hash)
    requires Selected(rows, now, batch) && h in rows
    ensures var row := rows[h];
      var due := (row.state == Uploading || row.state == Pinning) && row.attempts < 5
                 && (row.last.Some? ==> now - row.last.value > 300);
      (h in batch ==> due) && (due && |batch| != 20 ==> h in batch)
  {
    if Eligible(rows[h], now) && h !in batch {
      FullBatch(rows, now, batch, h);
    }
    if h in batch {
      assert h in EligibleRows(rows, now);
    }
  }

  /** Pinned rows are left alone. */
  lemma {:induction false} PinnedStays(kind: Kind, rows: Table, run: seq<SweepRecord>, clock: int, x: Hash)
    requires ValidRun(kind, rows, run, clock) && x in rows && rows[x].state == Pinned
    ensures x in AfterRun(kind, rows, run) && AfterRun(kind, rows, run)[x] == rows[x]
    decreases |run|
  {
    if run != [] {
      forall i | 0 <= i < |run[0].visits| ensures run[0].visits[i].hash != x {
        SelectedSweeps(rows, run[0].now, run[0].visits);
      }
      Unvisited(kind, rows, run[0].visits, x);
      PinnedStays(kind, AfterVisits(kind, rows, run[0].visits), run[1..], run[0].end, x);
    }
  }

  /** Sia takes `x` whenever it is visited: there is something to call it with, and the call succeeds. */
  ghost predicate Takes(kind: Kind, row: Row, run: seq<SweepRecord>, x: Hash) {
    forall i, j :: 0 <= i < |run| && 0 <= j < |run[i].visits| && run[i].visits[j].hash == x ==>
      run[i].visits[j].answer.Succeeds? && (row.siaId.Some? || (kind == Xorbs && run[i].visits[j].hasBody))
  }

  /** A pinning row with `k` rows ahead of it that Sia takes is pinned within `k / 20 + 1` sweeps, with its attempts and
      its id, if it had one, unchanged, however ties are ordered and whatever happens to the other rows. */
  lemma {:induction false} PinnedWithin(kind: Kind, rows: Table, run: seq<SweepRecord>, clock: int, x: Hash)
    requires ValidRun(kind, rows, run, clock) && x in rows && Eligible(rows[x], clock) && rows[x].state == Pinning
    requires Takes(kind, rows[x], run, x) && |run| >= |Ahead(rows, x)| / 20 + 1
    ensures x in AfterRun(kind, rows, run)
    ensures var row := AfterRun(kind, rows, run)[x];
      && row.state == Pinned && row.siaId.Some? && row.attempts == rows[x].attempts
      && (rows[x].siaId.Some? ==> row.siaId == rows[x].siaId)
    decreases |run|
  {
    var s, rows' := run[0], AfterVisits(kind, rows, run[0].visits);
    if x in Visited(s.visits) {
      var j :| 0 <= j < |s.visits| && Visited(s.visits)[j] == x;
      SelectedSweeps(rows, s.now, s.visits);
      SweepOutcome(kind, rows, s.visits, j);
      PinnedStays(kind, rows', run[1..], s.end, x);
    } else {
      PassedOver(kind, rows, s, x);
      assert forall i :: 0 <= i < |run[1..]| ==> run[1..][i] == run[i + 1];
      PinnedWithin(kind, rows', run[1..], s.end, x);
    }
  }

  // ----- run invariants

  ghost predicate TableOk(rows: Table) {
    forall h :: h in rows ==> RowOk(rows[h])
  }

  predicate RowOk(row: Row) {
    && (row.state == Pinned ==> row.siaId.Some?)
    && (row.state == Pinning ==> row.attempts < 5)
  }

  /** How a row may look after any number of sweeps. */
  predicate Evolves(a: Row, b: Row) {
    && (a.state == Pinned || a.state == Orphaned ==> b == a)
    && (a.siaId.Some? ==> b.siaId == a.siaId)
    && a.attempts <= b.attempts
    && (b.state == Uploading ==> b == a)
    && (b.state == Pinning ==> a.state == Pinning)
    && (a.state == Pinning && b.state == Orphaned ==> b.attempts == 5)
  }

  lemma EvolvesOn(a: Row, b: Row, c: Row)
    requires Evolves(a, b) && Evolves(b, c)
    ensures Evolves(a, c)
  {
  }

  /** One visit: what changes, by verdict. */
  lemma VisitRow(kind: Kind, row: Row, v: Visit)
    requires RowOk(row) && Stuck(row)
    ensures var verdict := Judge(kind, row, v.answer, v.hasBody);
            var row' := Update(verdict, row, row, v.now);
      && RowOk(row') && Evolves(row, row')
      && (verdict == Transient ==> row' == row.(last := row'.last))
      && (row'.state == Orphaned <==> Orphans(verdict, row))
      && (row.state == Pinning && row'.state == Orphaned ==> verdict == Permanent)
  {
  }

  /** Every visited row was selected, hence stuck, and is visited once. */
  ghost predicate Sweeps(rows: Table, visits: seq<Visit>) {
    Distinct(Visited(visits)) && forall i :: 0 <= i < |visits| ==> visits[i].hash in rows && Stuck(rows[visits[i].hash])
  }

  lemma SelectedSweeps(rows: Table, now: int, visits: seq<Visit>)
    requires Selected(rows, now, Visited(visits))
    ensures Sweeps(rows, visits)
  {
    forall i | 0 <= i < |visits| ensures visits[i].hash in rows && Stuck(rows[visits[i].hash]) {
      assert Visited(visits)[i] in EligibleRows(rows, now);
    }
  }

  /** The last visit of a sweep finds its row as it was selected. */
  lemma LastVisit(kind: Kind, rows: Table, visits: seq<Visit>)
    requires Sweeps(rows, visits) && visits != []
    ensures Sweeps(rows, visits[..|visits| - 1])
    ensures var before, h := AfterVisits(kind, rows, visits[..|visits| - 1]), visits[|visits| - 1].hash;
            before.Keys == rows.Keys && h in rows && before[h] == rows[h]
  {
    var before, hashes := visits[..|visits| - 1], Visited(visits);
    assert Visited(before) == hashes[..|visits| - 1];
    forall i | 0 <= i < |before| ensures before[i].hash != visits[|visits| - 1].hash {
      assert hashes[i] != hashes[|visits| - 1];
    }
    Unvisited(kind, rows, before, visits[|visits| - 1].hash);
  }

  lemma {:induction false} SweepInvariant(kind: Kind, rows: Table, visits: seq<Visit>)
    requires TableOk(rows) && Sweeps(rows, visits)
    ensures var rows' := AfterVisits(kind, rows, visits);
      rows'.Keys == rows.Keys && TableOk(rows') && forall h :: h in rows ==> Evolves(rows[h], rows'[h])
  {
    if visits != [] {
      LastVisit(kind, rows, visits);
      var v := visits[|visits| - 1];
      SweepInvariant(kind, rows, visits[..|visits| - 1]);
      VisitRow(kind, rows[v.hash], v);
    }
  }

  /** Over every run of sweeps without handler writes in between: pinned and orphaned rows never change,
      pinned rows have an id, a set id never changes, pinning rows keep fewer than five attempts, and a
      pinning row is orphaned only with its fifth counted failure. */
  lemma {:induction false} RunInvariant(kind: Kind, rows: Table, run: seq<SweepRecord>, clock: int)
    requires TableOk(rows) && ValidRun(kind, rows, run, clock)
    ensures var rows' := AfterRun(kind, rows, run);
      rows'.Keys == rows.Keys && TableOk(rows') && forall h :: h in rows ==> Evolves(rows[h], rows'[h])
    decreases |run|
  {
    if run != [] {
      SelectedSweeps(rows, run[0].now, run[0].visits);
      SweepInvariant(kind, rows, run[0].visits);
      var rows1 := AfterVisits(kind, rows, run[0].visits);
      RunInvariant(kind, rows1, run[1..], run[0].end);
      var rows' := AfterRun(kind, rows, run);
      forall h | h in rows ensures Evolves(rows[h], rows'[h]) {
        EvolvesOn(rows[h], rows1[h], rows'[h]);
      }
    }
  }

  // ----- attempts count permanent failures

  /** How many visits of a sweep are permanent failures of `h`. */
  function FailuresIn(kind: Kind, rows: Table, visits: seq<Visit>, h: Hash): nat {
    if visits == [] then 0
    else
      var before := AfterVisits(kind, rows, visits[..|visits| - 1]);
      var v := visits[|visits| - 1];
      FailuresIn(kind, rows, visits[..|visits| - 1], h)
      + if v.hash == h && h in before && VerdictOn(kind, before, v) == Permanent then 1 else 0
  }

  function Failures(kind: Kind, rows: Table, run: seq<SweepRecord>, h: Hash): nat
    decreases |run|
  {
    if run == [] then 0
    else FailuresIn(kind, rows, run[0].visits, h)
         + Failures(kind, AfterVisits(kind, rows, run[0].visits), run[1..], h)
  }

  lemma {:induction false} SweepFailures(kind: Kind, rows: Table, visits: seq<Visit>, h: Hash)
    requires h in rows && rows[h].state != Uploading
    ensures var rows' := AfterVisits(kind, rows, visits);
      h in rows' && rows'[h].state != Uploading
      && rows'[h].attempts == rows[h].attempts + FailuresIn(kind, rows, visits, h)
  {
    if visits != [] {
      SweepFailures(kind, rows, visits[..|visits| - 1], h);
    }
  }

  /** The attempts of a row that is not 'uploading' are exactly its permanent failures. */
  lemma {:induction false} AttemptsCountFailures(kind: Kind, rows: Table, run: seq<SweepRecord>, h: Hash)
    requires h in rows && rows[h].state != Uploading
    ensures var rows' := AfterRun(kind, rows, run);
      h in rows' && rows'[h].attempts == rows[h].attempts + Failures(kind, rows, run, h)
    decreases |run|
  {
    if run != [] {
      SweepFailures(kind, rows, run[0].visits, h);
      AttemptsCountFailures(kind, AfterVisits(kind, rows, run[0].visits), run[1..], h);
    }
  }

  // ----- the orphan counter

  function OrphanedRows(rows: Table): set<Hash> {
    set h | h in rows && rows[h].state == Orphaned
  }

  /** A sweep bumps the orphan counter by exactly the number of rows that it orphans. */
  lemma {:induction false} OrphanCounter(kind: Kind, rows: Table, visits: seq<Visit>)
    requires TableOk(rows) && Sweeps(rows, visits)
    ensures |OrphanedRows(AfterVisits(kind, rows, visits))|
         == |OrphanedRows(rows)| + OrphanedBy(kind, rows, visits)
  {
    if visits != [] {
      LastVisit(kind, rows, visits);
      var v, before := visits[|visits| - 1], AfterVisits(kind, rows, visits[..|visits| - 1]);
      OrphanCounter(kind, rows, visits[..|visits| - 1]);
      VisitRow(kind, rows[v.hash], v);
      OrphanStep(before, v.hash, AfterVisit(kind, before, v)[v.hash]);
    }
  }

  /** Over every run the metric counts exactly the rows that were orphaned. */
  lemma {:induction false} RunOrphanCounter(kind: Kind, rows: Table, run: seq<SweepRecord>, clock: int)
    requires TableOk(rows) && ValidRun(kind, rows, run, clock)
    ensures |OrphanedRows(AfterRun(kind, rows, run))| == |OrphanedRows(rows)| + RunOrphaned(kind, rows, run)
    decreases |run|
  {
    if run != [] {
      SelectedSweeps(rows, run[0].now, run[0].visits);
      SweepInvariant(kind, rows, run[0].visits);
      OrphanCounter(kind, rows, run[0].visits);
      RunOrphanCounter(kind, AfterVisits(kind, rows, run[0].visits), run[1..], run[0].end);
    }
  }

  lemma OrphanStep(rows: Table, h: Hash, row: Row)
    requires h in rows && rows[h].state != Orphaned
    ensures |OrphanedRows(rows[h := row])| == |OrphanedRows(rows)| + if row.state == Orphaned then 1 else 0
  {
    var extra := if row.state == Orphaned then {h} else {};
    assert OrphanedRows(rows[h := row]) == OrphanedRows(rows) + extra;
  }

  // ----- the work that is left

  function Credit(rows: Table, h: Hash): nat {
    if h in rows && Stuck(rows[h]) then MAX_PIN_ATTEMPTS - rows[h].attempts else 0
  }

  /** The sum of the attempts that the stuck rows among `keys` have left. */
  ghost function Work(rows: Table, keys: set<Hash>): nat {
    if keys == {} then 0 else var h :| h in keys; Credit(rows, h) + Work(rows, keys - {h})
  }

  lemma {:induction false} WorkRemove(rows: Table, keys: set<Hash>, h: Hash)
    requires h in keys
    ensures Work(rows, keys) == Credit(rows, h) + Work(rows, keys - {h})
  {
    var g :| g in keys && Work(rows, keys) == Credit(rows, g) + Work(rows, keys - {g});
    if g != h {
      WorkRemove(rows, keys - {g}, h);
      WorkRemove(rows, keys - {h}, g);
      assert keys - {g} - {h} == keys - {h} - {g};
    }
  }

  lemma {:induction false} WorkElsewhere(rows: Table, rows': Table, keys: set<Hash>)
    requires forall h :: h in keys ==> Credit(rows, h) == Credit(rows', h)
    ensures Work(rows, keys) == Work(rows', keys)
  {
    if keys != {} {
      var h :| h in keys;
      WorkRemove(rows, keys, h);
      WorkRemove(rows', keys, h);
      WorkElsewhere(rows, rows', keys - {h});
    }
  }

  /** No verdict of the sweep is transient. */
  ghost predicate NoTransient(kind: Kind, rows: Table, visits: seq<Visit>) {
    forall i :: 0 <= i < |visits| && visits[i].hash in rows ==> VerdictOn(kind, rows, visits[i]) != Transient
  }

  lemma {:induction false} SweepWork(kind: Kind, rows: Table, visits: seq<Visit>)
    requires TableOk(rows) && Sweeps(rows, visits) && NoTransient(kind, rows, visits)
    ensures Work(AfterVisits(kind, rows, visits), rows.Keys) + |visits| <= Work(rows, rows.Keys)
  {
    if visits != [] {
      LastVisit(kind, rows, visits);
      var v, before := visits[|visits| - 1], AfterVisits(kind, rows, visits[..|visits| - 1]);
      SweepWork(kind, rows, visits[..|visits| - 1]);
      var after := AfterVisits(kind, rows, visits);
      WorkRemove(before, rows.Keys, v.hash);
      WorkRemove(after, rows.Keys, v.hash);
      WorkElsewhere(before, after, rows.Keys - {v.hash});
      assert VerdictOn(kind, rows, v) != Transient;
      assert Credit(after, v.hash) < Credit(before, v.hash);
    }
  }

  function Attempts(run: seq<SweepRecord>): nat {
    if run == [] then 0 else |run[0].visits| + Attempts(run[1..])
  }

  ghost predicate RunNoTransient(kind: Kind, rows: Table, run: seq<SweepRecord>)
    decreases |run|
  {
    run == [] || (NoTransient(kind, rows, run[0].visits)
                  && RunNoTransient(kind, AfterVisits(kind, rows, run[0].visits), run[1..]))
  }

  /** Without transient failures, the attempts left in the table bound the attempts of every run. */
  lemma {:induction false} WorkBound(kind: Kind, rows: Table, run: seq<SweepRecord>, clock: int)
    requires TableOk(rows) && ValidRun(kind, rows, run, clock) && RunNoTransient(kind, rows, run)
    ensures Attempts(run) + Work(AfterRun(kind, rows, run), rows.Keys) <= Work(rows, rows.Keys)
    decreases |run|
  {
    if run != [] {
      SelectedSweeps(rows, run[0].now, run[0].visits);
      SweepInvariant(kind, rows, run[0].visits);
      SweepWork(kind, rows, run[0].visits);
      WorkBound(kind, AfterVisits(kind, rows, run[0].visits), run[1..], run[0].end);
    }
  }

  // ----- handler writes between SELECT and UPDATE

  /** A step while a sweep is under way: the reconciler visits a row that it selected, or a handler pins one. */
  datatype Event = Reconciles(visit: Visit) | HandlerPins(hash: Hash, id: SiaId, now: int)

  /** `set_pin_state('pinned', id)` */
  function PinByHandler(row: Row, id: SiaId, now: int): Row {
    Row(Pinned, Some(id), row.attempts + 1, Some(now))
  }

  function AfterEvent(kind: Kind, selected: Table, rows: Table, e: Event): Table {
    match e
    case Reconciles(v) =>
      if v.hash in rows && v.hash in selected
      then rows[v.hash := Update(Judge(kind, selected[v.hash], v.answer, v.hasBody), selected[v.hash], rows[v.hash], v.now)]
      else rows
    case HandlerPins(h, id, now) =>
      if h in rows then rows[h := PinByHandler(rows[h], id, now)] else rows
  }

  /** The table after some events of a sweep that selected its rows from `rows`. */
  function AfterEvents(kind: Kind, rows: Table, events: seq<Event>): Table {
    if events == [] then rows
    else AfterEvent(kind, rows, AfterEvents(kind, rows, events[..|events| - 1]), events[|events| - 1])
  }

  function VisitsOf(events: seq<Event>): seq<Visit> {
    if events == [] then []
    else
      var front, last := VisitsOf(events[..|events| - 1]), events[|events| - 1];
      if last.Reconciles? then front + [last.visit] else front
  }

  predicate Pins(e: Event, h: Hash) {
    e.HandlerPins? && e.hash == h
  }

  /** The visit finds `h` selected as 'uploading', or on its last attempt with a failure. */
  predicate Unpins(kind: Kind, rows: Table, e: Event, h: Hash) {
    && e.Reconciles? && e.visit.hash == h && h in rows
    && (|| rows[h].state == Uploading
        || (rows[h].attempts == MAX_PIN_ATTEMPTS - 1 && Fails(kind, rows[h], e.visit.answer, e.visit.hasBody)))
  }

  /** Some visit orphans `h`, and no handler pins it after that. */
  ghost predicate PinLost(kind: Kind, rows: Table, events: seq<Event>, h: Hash) {
    exists i: nat :: LostAt(kind, rows, events, h, i)
  }

  ghost predicate PinnedIn(events: seq<Event>, h: Hash) {
    exists i :: 0 <= i < |events| && Pins(events[i], h)
  }

  /** Visits only rows that were selected as stuck, each once. */
  ghost predicate RacySweep(rows: Table, events: seq<Event>) {
    Sweeps(rows, VisitsOf(events))
  }

  lemma RacyFront(rows: Table, events: seq<Event>)
    requires RacySweep(rows, events) && events != []
    ensures RacySweep(rows, events[..|events| - 1])
    ensures var e := events[|events| - 1]; e.Reconciles? ==> e.visit.hash in rows && Stuck(rows[e.visit.hash])
  {
    var front, e, all := VisitsOf(events[..|events| - 1]), events[|events| - 1], VisitsOf(events);
    if e.Reconciles? {
      assert all[|front|] == e.visit;
      assert Visited(front) == Visited(all)[..|front|];
      assert forall i :: 0 <= i < |front| ==> all[i] == front[i];
    }
  }

  lemma {:induction false} EventKeys(kind: Kind, rows: Table, events: seq<Event>)
    ensures AfterEvents(kind, rows, events).Keys == rows.Keys
  {
    if events != [] {
      EventKeys(kind, rows, events[..|events| - 1]);
    }
  }

  lemma PinnedStep(events: seq<Event>, h: Hash)
    requires events != []
    ensures PinnedIn(events, h) <==> PinnedIn(events[..|events| - 1], h) || Pins(events[|events| - 1], h)
  {
    var front := events[..|events| - 1];
    if i :| 0 <= i < |front| && Pins(front[i], h) {
      assert Pins(events[i], h);
    }
    if i :| 0 <= i < |events| && Pins(events[i], h) {
      assert i < |front| ==> Pins(front[i], h);
    }
  }

  /** A witness of `PinLost`. */
  predicate LostAt(kind: Kind, rows: Table, events: seq<Event>, h: Hash, i: nat) {
    i < |events| && Unpins(kind, rows, events[i], h) && forall j :: i < j < |events| ==> !Pins(events[j], h)
  }

  lemma LostAtStep(kind: Kind, rows: Table, events: seq<Event>, h: Hash, i: nat)
    requires i < |events| - 1
    ensures LostAt(kind, rows, events, h, i)
            <==> LostAt(kind, rows, events[..|events| - 1], h, i) && !Pins(events[|events| - 1], h)
  {
    var front := events[..|events| - 1];
    assert front[i] == events[i];
    if LostAt(kind, rows, events, h, i) {
      forall j | i < j < |front| ensures !Pins(front[j], h) {
        assert !Pins(events[j], h);
      }
    }
    if LostAt(kind, rows, front, h, i) && !Pins(events[|events| - 1], h) {
      forall j | i < j < |events| ensures !Pins(events[j], h) {
        assert j < |front| ==> !Pins(front[j], h);
      }
    }
  }

  lemma LostStep(kind: Kind, rows: Table, events: seq<Event>, h: Hash)
    requires events != []
    ensures var front, e := events[..|events| - 1], events[|events| - 1];
            PinLost(kind, rows, events, h)
            <==> Unpins(kind, rows, e, h) || (PinLost(kind, rows, front, h) && !Pins(e, h))
  {
    var front, n := events[..|events| - 1], |events| - 1;
    if i: nat :| LostAt(kind, rows, front, h, i) {
      LostAtStep(kind, rows, events, h, i);
    }
    if i: nat :| LostAt(kind, rows, events, h, i) {
      if i < n {
        LostAtStep(kind, rows, events, h, i);
      }
    }
    assert Unpins(kind, rows, events[n], h) ==> LostAt(kind, rows, events, h, n);
  }

  /** A row is visited at most once in a sweep. */
  lemma {:induction false} NotVisitedBefore(rows: Table, events: seq<Event>)
    requires RacySweep(rows, events) && events != [] && events[|events| - 1].Reconciles?
    ensures var h := events[|events| - 1].visit.hash;
            forall v :: v in VisitsOf(events[..|events| - 1]) ==> v.hash != h
  {
    var front, all := VisitsOf(events[..|events| - 1]), VisitsOf(events);
    forall v | v in front ensures v.hash != events[|events| - 1].visit.hash {
      var i :| 0 <= i < |front| && front[i] == v;
      assert Visited(all)[i] == v.hash && Visited(all)[|front|] == events[|events| - 1].visit.hash;
    }
  }

  lemma {:induction false} UnpinsVisits(kind: Kind, rows: Table, events: seq<Event>, h: Hash)
    requires PinLost(kind, rows, events, h)
    ensures exists v :: v in VisitsOf(events) && v.hash == h
  {
    LostStep(kind, rows, events, h);
    var e := events[|events| - 1];
    if e.Reconciles? && e.visit.hash == h {
      assert e.visit in VisitsOf(events);
    } else {
      UnpinsVisits(kind, rows, events[..|events| - 1], h);
    }
  }

  /** Exactly what a race does to a row that a handler pins during a sweep: the row ends pinned if and only if
      no visit orphans it after the last pin; otherwise it ends orphaned.  A visited row keeps its id. */
  lemma {:induction false} RaceExact(kind: Kind, rows: Table, events: seq<Event>, h: Hash)
    requires RacySweep(rows, events) && h in rows && PinnedIn(events, h)
    ensures h in AfterEvents(kind, rows, events)
    ensures var row := AfterEvents(kind, rows, events)[h];
      row.siaId.Some? && row.state == if PinLost(kind, rows, events, h) then Orphaned else Pinned
  {
    var front, e := events[..|events| - 1], events[|events| - 1];
    var before := AfterEvents(kind, rows, front);
    EventKeys(kind, rows, front);
    RacyFront(rows, events);
    LostStep(kind, rows, events, h);
    PinnedStep(events, h);
    if !Pins(e, h) {
      RaceExact(kind, rows, front, h);
      if e.Reconciles? && e.visit.hash == h {
        NotVisitedBefore(rows, events);
        if PinLost(kind, rows, front, h) {
          UnpinsVisits(kind, rows, front, h);
        }
        HandlerRace(kind, rows[h], e.visit.answer, e.visit.hasBody, before[h], e.visit.now);
      }
    }
  }

  /** A sweep and what handlers wrote while it was under way and until the next one. */
  datatype RaceRecord = RaceRecord(now: int, events: seq<Event>)

  function AfterRaces(kind: Kind, rows: Table, run: seq<RaceRecord>): Table
    decreases |run|
  {
    if run == [] then rows else AfterRaces(kind, AfterEvents(kind, rows, run[0].events), run[1..])
  }

  ghost predicate ValidRaces(kind: Kind, rows: Table, run: seq<RaceRecord>)
    decreases |run|
  {
    run == []
    || (&& Selected(rows, run[0].now, Visited(VisitsOf(run[0].events)))
        && ValidRaces(kind, AfterEvents(kind, rows, run[0].events), run[1..]))
  }

  /** A row that is settled when a sweep begins is not visited by it. */
  lemma {:induction false} SettledThroughSweep(kind: Kind, rows: Table, events: seq<Event>, h: Hash)
    requires RacySweep(rows, events) && h in rows && (rows[h].state == Pinned || rows[h].state == Orphaned)
    ensures var rows' := AfterEvents(kind, rows, events);
      h in rows' && (if PinnedIn(events, h) then rows'[h].state == Pinned else rows'[h] == rows[h])
  {
    if events != [] {
      EventKeys(kind, rows, events[..|events| - 1]);
      RacyFront(rows, events);
      SettledThroughSweep(kind, rows, events[..|events| - 1], h);
      PinnedStep(events, h);
    }
  }

  /** Over every run with handler writes anywhere, a row that is pinned when a sweep begins stays pinned. */
  lemma {:induction false} PinnedThroughRaces(kind: Kind, rows: Table, run: seq<RaceRecord>, h: Hash)
    requires ValidRaces(kind, rows, run) && h in rows && rows[h].state == Pinned
    ensures h in AfterRaces(kind, rows, run) && AfterRaces(kind, rows, run)[h].state == Pinned
    decreases |run|
  {
    if run != [] {
      SelectedSweeps(rows, run[0].now, VisitsOf(run[0].events));
      SettledThroughSweep(kind, rows, run[0].events, h);
      PinnedThroughRaces(kind, AfterEvents(kind, rows, run[0].events), run[1..], h);
    }
  }

  ghost predicate PinnedLater(run: seq<RaceRecord>, h: Hash) {
    exists k :: 0 <= k < |run| && PinnedIn(run[k].events, h)
  }

  /** An orphaned row changes only when a handler pins it. */
  lemma {:induction false} OrphanedThroughRaces(kind: Kind, rows: Table, run: seq<RaceRecord>, h: Hash)
    requires ValidRaces(kind, rows, run) && h in rows && rows[h].state == Orphaned
    ensures h in AfterRaces(kind, rows, run)
    ensures AfterRaces(kind, rows, run)[h].state == if PinnedLater(run, h) then Pinned else Orphaned
    decreases |run|
  {
    if run != [] {
      var rows' := AfterEvents(kind, rows, run[0].events);
      SelectedSweeps(rows, run[0].now, VisitsOf(run[0].events));
      SettledThroughSweep(kind, rows, run[0].events, h);
      if PinnedIn(run[0].events, h) {
        PinnedThroughRaces(kind, rows', run[1..], h);
      } else {
        OrphanedThroughRaces(kind, rows', run[1..], h);
        if PinnedLater(run[1..], h) {
          var k :| 0 <= k < |run[1..]| && PinnedIn(run[1..][k].events, h);
          assert PinnedIn(run[k + 1].events, h);
        }
        if PinnedLater(run, h) {
          var k :| 0 <= k < |run| && PinnedIn(run[k].events, h);
          assert PinnedIn(run[1..][k - 1].events, h);
        }
      }
    }
  }

  /** Whole runs: a row that a handler pins during a sweep is pinned at the end of the run if and only if that
      sweep does not orphan it after the pin, or a handler pins it again in a later sweep. */
  lemma RaceRuns(kind: Kind, rows: Table, run: seq<RaceRecord>, h: Hash)
    requires ValidRaces(kind, rows, run) && run != [] && h in rows && PinnedIn(run[0].events, h)
    ensures h in AfterRaces(kind, rows, run)
    ensures AfterRaces(kind, rows, run)[h].state
         == if PinLost(kind, rows, run[0].events, h) && !PinnedLater(run[1..], h) then Orphaned else Pinned
  {
    var rows' := AfterEvents(kind, rows, run[0].events);
    SelectedSweeps(rows, run[0].now, VisitsOf(run[0].events));
    RaceExact(kind, rows, run[0].events, h);
    if PinLost(kind, rows, run[0].events, h) {
      OrphanedThroughRaces(kind, rows', run[1..], h);
    } else {
      PinnedThroughRaces(kind, rows', run[1..], h);
    }
  }

  /** A pinning xorb on its last attempt is selected, a handler pins it, and Sia's refusal of the reconciler's
      own call orphans it: more than a count that is off by one. */
  lemma PinnedThenOrphaned(h: Hash, id: SiaId)
    ensures var rows: Table := map[h := Row(Pinning, Some(id), 4, None)];
            var run := [RaceRecord(0, [HandlerPins(h, id, 1), Reconciles(Visit(h, OtherError, true, 2))])];
            && ValidRaces(Xorbs, rows, run)
            && AfterEvents(Xorbs, rows, run[0].events[..1]) == map[h := Row(Pinned, Some(id), 5, Some(1))]
            && AfterRaces(Xorbs, rows, run) == map[h := Row(Orphaned, Some(id), 6, Some(2))]
  {
    var rows: Table := map[h := Row(Pinning, Some(id), 4, None)];
    var pin, visit := HandlerPins(h, id, 1), Reconciles(Visit(h, OtherError, true, 2));
    var events := [pin, visit];
    assert EligibleRows(rows, 0) == {h};
    assert events[..1] == [pin] && [pin][..0] == [];
    assert AfterEvents(Xorbs, rows, []) == rows;
    assert AfterEvents(Xorbs, rows, [pin]) == rows[h := Row(Pinned, Some(id), 5, Some(1))];
    assert VisitsOf([]) == [] && VisitsOf([pin]) == [];
    assert events[..|events| - 1] == [pin];
    assert VisitsOf(events) == VisitsOf([pin]) + [visit.visit];
    assert Visited(VisitsOf(events)) == [h];
    var run := [RaceRecord(0, events)];
    assert run[1..] == [];
  }
}
