/** The points ledger of database.py: three tables (`points`, `history`,
    `match_results`) and the operations that change them, each one a single
    transaction. The pure functions below give the new tables for each
    operation; class `Ledger` holds the tables and performs the operations in
    place. The central invariant, `Consistent`, says that every user's
    balance is the sum of that user's surviving history entries. */
module Database {
  import opened Text
  import opened Seqs

  /** A row of `points`. */
  datatype PointsRow = PointsRow(username: string, points: int)

  /** A row of `history`; `id` is the store's increasing key and `timestamp`
      the time the row was written. */
  datatype HistoryRow = HistoryRow(
    id: nat, username: string, points: int, matchNumber: int, updatedBy: string, timestamp: int)

  /** A row of `match_results`, also the triple `get_match_results` returns. */
  datatype MatchRow = MatchRow(matchNumber: int, winner: string, timestamp: int)

  /** The three tables, in row order, and the next id the store hands out. */
  datatype Tables = Tables(
    points: seq<PointsRow>, history: seq<HistoryRow>, matchResults: seq<MatchRow>, nextId: nat)

  /** Whether the store answers; a call against an unavailable store is
      rolled back and raises `DatabaseError`. */
  datatype StoreStatus = Available | Unavailable(cause: string)

  datatype DbResult<T> = Ok(value: T) | DatabaseError(message: string)

  /** Freshly created tables. */
  const Empty := Tables([], [], [], 1)

  function RowUser(r: PointsRow): string { r.username }
  function EntryId(e: HistoryRow): int { e.id }
  function ResultMatch(r: MatchRow): int { r.matchNumber }

  // ---------------------------------------------------------------------------
  // Reading the points table

  /** Position of the first row of `u`, or -1: `select('points').eq('username', u)`. */
  function RowIndex(rows: seq<PointsRow>, u: string): (i: int)
    ensures -1 <= i < |rows|
    ensures 0 <= i ==> rows[i].username == u
    ensures forall j :: 0 <= j < |rows| && (i < 0 || j < i) ==> rows[j].username != u
  {
    FindFrom(rows, u, 0)
  }

  function FindFrom(rows: seq<PointsRow>, u: string, k: nat): (i: int)
    requires k <= |rows|
    ensures i == -1 || k <= i < |rows|
    ensures 0 <= i ==> rows[i].username == u
    ensures forall j :: k <= j < |rows| && (i < 0 || j < i) ==> rows[j].username != u
    decreases |rows| - k
  {
    if k == |rows| then -1 else if rows[k].username == u then k else FindFrom(rows, u, k + 1)
  }

  /** The balance of `u`; a user without a row has 0. */
  function Balance(rows: seq<PointsRow>, u: string): int {
    var i := RowIndex(rows, u);
    if i < 0 then 0 else rows[i].points
  }

  lemma {:induction false} SameNamesSameIndex(a: seq<PointsRow>, b: seq<PointsRow>, u: string)
    requires |a| == |b| && forall i :: 0 <= i < |a| ==> a[i].username == b[i].username
    ensures RowIndex(a, u) == RowIndex(b, u)
  {
    if a != [] {
      SameNamesSameIndex(a[1..], b[1..], u);
    }
  }

  lemma RowIndexAppend(rows: seq<PointsRow>, x: PointsRow, u: string)
    ensures RowIndex(rows + [x], u)
         == if RowIndex(rows, u) >= 0 then RowIndex(rows, u)
            else if x.username == u then |rows| else -1
  {
    var r := rows + [x];
    assert forall j :: 0 <= j < |rows| ==> r[j] == rows[j];
    var b := RowIndex(rows, u);
    if b >= 0 {
      assert r[b].username == u;
    } else if x.username == u {
      assert r[|rows|].username == u;
    }
  }

  // ---------------------------------------------------------------------------
  // History sums

  /** What entry `e` adds to the balance of `u`. */
  function Delta(e: HistoryRow, u: string): int {
    if e.username == u then e.points else 0
  }

  /** The sum of `points` over the history entries of `u`. */
  function SumFor(h: seq<HistoryRow>, u: string): int {
    if h == [] then 0 else SumFor(h[..|h| - 1], u) + Delta(h[|h| - 1], u)
  }

  lemma SumForAppend(h: seq<HistoryRow>, e: HistoryRow, u: string)
    ensures SumFor(h + [e], u) == SumFor(h, u) + Delta(e, u)
  {
    assert (h + [e])[..|h|] == h;
  }

  lemma {:induction false} SumForConcat(a: seq<HistoryRow>, b: seq<HistoryRow>, u: string)
    ensures SumFor(a + b, u) == SumFor(a, u) + SumFor(b, u)
    decreases |b|
  {
    if b == [] {
      assert a + b == a;
    } else {
      var b' := b[..|b| - 1];
      assert a + b == (a + b') + [b[|b| - 1]];
      SumForAppend(a + b', b[|b| - 1], u);
      SumForConcat(a, b', u);
    }
  }

  lemma {:induction false} SumForAbsent(h: seq<HistoryRow>, u: string)
    requires forall i :: 0 <= i < |h| ==> h[i].username != u
    ensures SumFor(h, u) == 0
  {
    if h != [] {
      SumForAbsent(h[..|h| - 1], u);
    }
  }

  lemma {:induction false} SumForKeep(h: seq<HistoryRow>, p: HistoryRow -> bool, u: string)
    requires forall i :: 0 <= i < |h| && h[i].username == u ==> p(h[i])
    ensures SumFor(Keep(h, p), u) == SumFor(h, u)
  {
    if h != [] {
      var head := if p(h[0]) then [h[0]] else [];
      SumForKeep(h[1..], p, u);
      SumForConcat(head, Keep(h[1..], p), u);
      assert h == [h[0]] + h[1..];
      SumForConcat([h[0]], h[1..], u);
      assert SumFor([h[0]], u) == Delta(h[0], u);
      assert SumFor(head, u) == Delta(h[0], u);
    }
  }

  /** Removing the entry at `k` takes its delta out of every sum. */
  lemma SumForRemove(h: seq<HistoryRow>, k: nat, u: string)
    requires k < |h|
    ensures SumFor(h[..k] + h[k + 1..], u) == SumFor(h, u) - Delta(h[k], u)
  {
    assert h == h[..k] + [h[k]] + h[k + 1..];
    SumForConcat(h[..k] + [h[k]], h[k + 1..], u);
    SumForAppend(h[..k], h[k], u);
    SumForConcat(h[..k], h[k + 1..], u);
  }

  // ---------------------------------------------------------------------------
  // The invariant

  /** The tables agree with each other: one `points` row per user, history
      ids increasing and below `nextId`, every user in the history has a
      `points` row, and every balance is the sum of its history. */
  predicate HasRow(rows: seq<PointsRow>, u: string) {
    exists j :: 0 <= j < |rows| && rows[j].username == u
  }

  ghost predicate Consistent(t: Tables) {
    && DistinctBy(t.points, RowUser)
    && IncreasingBy(t.history, EntryId)
    && (forall i :: 0 <= i < |t.history| ==> t.history[i].id < t.nextId)
    && (forall i :: 0 <= i < |t.history| ==> HasRow(t.points, t.history[i].username))
    && (forall i :: 0 <= i < |t.points| ==> t.points[i].points == SumFor(t.history, t.points[i].username))
  }

  /** Under the invariant, the balance of any user, with or without a row, is
      the sum of that user's history. */
  lemma BalanceIsSum(t: Tables, u: string)
    requires Consistent(t)
    ensures Balance(t.points, u) == SumFor(t.history, u)
  {
    if RowIndex(t.points, u) < 0 {
      SumForAbsent(t.history, u);
    }
  }

  // ---------------------------------------------------------------------------
  // update_points

  /** The `points` table after adding `delta` for `u`: a new row when `u`
      has none, otherwise the row of `u` set to its balance plus `delta`. */
  function AddPoints(rows: seq<PointsRow>, u: string, delta: int): seq<PointsRow> {
    var i := RowIndex(rows, u);
    if i < 0 then rows + [PointsRow(u, delta)] else rows[i := PointsRow(u, rows[i].points + delta)]
  }

  /** Adding points for `u` gives `u` a row whose balance grew by `delta` and
      leaves the rows of every other user where they were. */
  lemma AddPointsIndex(rows: seq<PointsRow>, u: string, delta: int)
    ensures RowIndex(AddPoints(rows, u, delta), u) >= 0
    ensures Balance(AddPoints(rows, u, delta), u) == Balance(rows, u) + delta
    ensures forall v :: v != u ==> RowIndex(AddPoints(rows, u, delta), v) == RowIndex(rows, v)
    ensures forall v :: v != u ==> Balance(AddPoints(rows, u, delta), v) == Balance(rows, v)
  {
    var r := AddPoints(rows, u, delta);
    if RowIndex(rows, u) < 0 {
      forall v ensures RowIndex(r, v) == RowIndex(rows, v) || v == u {
        RowIndexAppend(rows, PointsRow(u, delta), v);
      }
      RowIndexAppend(rows, PointsRow(u, delta), u);
    } else {
      forall v ensures RowIndex(r, v) == RowIndex(rows, v) {
        SameNamesSameIndex(r, rows, v);
      }
    }
  }

  /** With one row per user, adding points keeps one row per user, changes
      the row of `u` alone, and gives it the old balance plus `delta`. */
  lemma AddPointsRows(rows: seq<PointsRow>, u: string, delta: int)
    requires DistinctBy(rows, RowUser)
    ensures DistinctBy(AddPoints(rows, u, delta), RowUser)
    ensures forall j :: 0 <= j < |AddPoints(rows, u, delta)| && AddPoints(rows, u, delta)[j].username != u ==>
              j < |rows| && AddPoints(rows, u, delta)[j] == rows[j]
    ensures forall j :: 0 <= j < |AddPoints(rows, u, delta)| && AddPoints(rows, u, delta)[j].username == u ==>
              AddPoints(rows, u, delta)[j].points == Balance(rows, u) + delta
  {
    var r := AddPoints(rows, u, delta);
    var i := RowIndex(rows, u);
    if i < 0 {
      assert forall j :: 0 <= j < |rows| ==> r[j] == rows[j];
    } else {
      forall j | 0 <= j < |r| && r[j].username == u ensures j == i {
        assert RowUser(rows[j]) == RowUser(rows[i]);
      }
    }
  }

  /** The tables after `update_points(u, delta, m, updater)` at time `now`:
      the balance row of `u` is created or increased, and one history row and
      one match result row are added. */
  function Award(t: Tables, u: string, delta: int, m: int, updater: string, now: int): Tables {
    Tables(AddPoints(t.points, u, delta),
           t.history + [HistoryRow(t.nextId, u, delta, m, updater, now)],
           t.matchResults + [MatchRow(m, u, now)],
           t.nextId + 1)
  }

  /** An award creates the balance of an unknown user at `delta` or adds
      `delta` to a known one, leaves every other balance and row alone, and
      appends exactly one history row and one match result row, whether or
      not the match already had one. */
  lemma AwardEffect(t: Tables, u: string, delta: int, m: int, updater: string, now: int)
    ensures var r := Award(t, u, delta, m, updater, now);
      && RowIndex(r.points, u) >= 0
      && Balance(r.points, u) == Balance(t.points, u) + delta
      && (forall v :: v != u ==> RowIndex(r.points, v) == RowIndex(t.points, v))
      && (forall v :: v != u ==> Balance(r.points, v) == Balance(t.points, v))
      && r.history == t.history + [HistoryRow(t.nextId, u, delta, m, updater, now)]
      && r.matchResults == t.matchResults + [MatchRow(m, u, now)]
  {
    AddPointsIndex(t.points, u, delta);
  }

  lemma AwardKeepsConsistent(t: Tables, u: string, delta: int, m: int, updater: string, now: int)
    requires Consistent(t)
    ensures Consistent(Award(t, u, delta, m, updater, now))
  {
    var r := Award(t, u, delta, m, updater, now);
    var e := HistoryRow(t.nextId, u, delta, m, updater, now);
    AddPointsIndex(t.points, u, delta);
    AddPointsRows(t.points, u, delta);
    assert IncreasingBy(r.history, EntryId);
    forall j | 0 <= j < |r.history| ensures r.history[j].id < r.nextId && RowIndex(r.points, r.history[j].username) >= 0 {
      if j < |t.history| {
        assert r.history[j] == t.history[j];
      }
    }
    forall j | 0 <= j < |r.points| ensures r.points[j].points == SumFor(r.history, r.points[j].username) {
      var w := r.points[j].username;
      SumForAppend(t.history, e, w);
      if w == u {
        BalanceIsSum(t, u);
      }
    }
  }

  // ---------------------------------------------------------------------------
  // undo_last_point

  /** Position of the history row with the greatest timestamp, the latest
      written one among equal timestamps. */
  function LatestIndex(h: seq<HistoryRow>): (k: nat)
    requires |h| > 0
    ensures k < |h|
    ensures forall i :: 0 <= i < |h| ==> h[i].timestamp <= h[k].timestamp
    ensures forall i :: k < i < |h| ==> h[i].timestamp < h[k].timestamp
  {
    if |h| == 1 then 0
    else
      var k := LatestIndex(h[..|h| - 1]);
      if h[|h| - 1].timestamp >= h[k].timestamp then |h| - 1 else k
  }

  /** The `points` table after taking `delta` off `u`: unchanged when `u`
      has no row, otherwise the row of `u` set to its balance minus `delta`. */
  function TakePoints(rows: seq<PointsRow>, u: string, delta: int): seq<PointsRow> {
    var i := RowIndex(rows, u);
    if i < 0 then rows else rows[i := PointsRow(u, rows[i].points - delta)]
  }

  lemma AddThenTakeKnown(rows: seq<PointsRow>, u: string, delta: int)
    requires DistinctBy(rows, RowUser) && RowIndex(rows, u) >= 0
    ensures TakePoints(AddPoints(rows, u, delta), u, delta) == rows
  {
    var i := RowIndex(rows, u);
    var a := rows[i := PointsRow(u, rows[i].points + delta)];
    assert AddPoints(rows, u, delta) == a;
    SameNamesSameIndex(a, rows, u);
    assert a[i].points - delta == rows[i].points;
    assert TakePoints(a, u, delta) == a[i := PointsRow(u, rows[i].points)];
    assert a[i := PointsRow(u, rows[i].points)] == rows;
  }

  lemma AddThenTakeNew(rows: seq<PointsRow>, u: string, delta: int)
    requires RowIndex(rows, u) < 0
    ensures TakePoints(AddPoints(rows, u, delta), u, delta) == rows + [PointsRow(u, 0)]
  {
    var a := rows + [PointsRow(u, delta)];
    assert AddPoints(rows, u, delta) == a;
    RowIndexAppend(rows, PointsRow(u, delta), u);
    assert TakePoints(a, u, delta) == a[|rows| := PointsRow(u, 0)];
  }

  /** Taking back what was just added restores the table, except that a user
      the addition created keeps a row with 0. */
  lemma AddThenTake(rows: seq<PointsRow>, u: string, delta: int)
    requires DistinctBy(rows, RowUser)
    ensures TakePoints(AddPoints(rows, u, delta), u, delta)
         == if RowIndex(rows, u) >= 0 then rows else rows + [PointsRow(u, 0)]
  {
    if RowIndex(rows, u) >= 0 {
      AddThenTakeKnown(rows, u, delta);
    } else {
      AddThenTakeNew(rows, u, delta);
    }
  }

  function IdIsNot(id: nat): HistoryRow -> bool {
    (e: HistoryRow) => e.id != id
  }

  function MatchIsNot(m: int): MatchRow -> bool {
    (r: MatchRow) => r.matchNumber != m
  }

  /** The tables after `undo_last_point`: the latest history row is deleted
      by id, its points are taken off its user's balance when that user has a
      row, and every match result of its match number is deleted. */
  function UndoTables(t: Tables): Tables {
    if t.history == [] then t
    else
      var e := t.history[LatestIndex(t.history)];
      Tables(TakePoints(t.points, e.username, e.points),
             Keep(t.history, IdIsNot(e.id)),
             Keep(t.matchResults, MatchIsNot(e.matchNumber)),
             t.nextId)
  }

  /** The `(success, message)` pair `undo_last_point` returns. */
  function UndoReply(t: Tables): (r: (bool, string))
    ensures r.0 <==> t.history != []
  {
    if t.history == [] then (false, "No points to undo")
    else
      var e := t.history[LatestIndex(t.history)];
      (true, "Undid " + IntToString(e.points) + " point(s) for " + e.username)
  }

  /** Deleting by id removes exactly one row when ids are increasing. */
  lemma RemoveById(h: seq<HistoryRow>, k: nat)
    requires k < |h| && IncreasingBy(h, EntryId)
    ensures Keep(h, IdIsNot(h[k].id)) == h[..k] + h[k + 1..]
  {
    var p := IdIsNot(h[k].id);
    forall i | 0 <= i < |h| && i != k ensures p(h[i]) {
      if i < k {
        assert EntryId(h[i]) < EntryId(h[k]);
      } else {
        assert EntryId(h[k]) < EntryId(h[i]);
      }
    }
    KeepAllBut(h, k, p);
  }

  /** An undo on an empty history changes nothing and reports it; otherwise it
      removes the latest row alone, takes its points off that user's balance
      when the user has a row (and only then), leaves every other balance
      alone, and deletes every match result with that row's match number. */
  lemma UndoEffect(t: Tables)
    requires IncreasingBy(t.history, EntryId)
    ensures t.history == [] ==> UndoTables(t) == t && UndoReply(t) == (false, "No points to undo")
    ensures t.history != [] ==>
      var k := LatestIndex(t.history);
      var e := t.history[k];
      var r := UndoTables(t);
      && r.history == t.history[..k] + t.history[k + 1..]
      && |r.points| == |t.points|
      && (forall j :: 0 <= j < |t.points| ==> r.points[j].username == t.points[j].username)
      && (forall v :: RowIndex(r.points, v) == RowIndex(t.points, v))
      && (RowIndex(t.points, e.username) >= 0 ==> Balance(r.points, e.username) == Balance(t.points, e.username) - e.points)
      && (RowIndex(t.points, e.username) < 0 ==> r.points == t.points)
      && (forall v :: v != e.username ==> Balance(r.points, v) == Balance(t.points, v))
      && (forall x :: x in r.matchResults ==> x in t.matchResults && x.matchNumber != e.matchNumber)
      && (forall x :: x in t.matchResults && x.matchNumber != e.matchNumber ==> x in r.matchResults)
      && UndoReply(t) == (true, "Undid " + IntToString(e.points) + " point(s) for " + e.username)
  {
    if t.history != [] {
      var k := LatestIndex(t.history);
      var e := t.history[k];
      var r := UndoTables(t);
      RemoveById(t.history, k);
      KeepMembers(t.matchResults, MatchIsNot(e.matchNumber));
      if RowIndex(t.points, e.username) >= 0 {
        forall v ensures RowIndex(r.points, v) == RowIndex(t.points, v) {
          SameNamesSameIndex(r.points, t.points, v);
        }
      }
    }
  }

  /** With one row per user, taking points off a user with a row keeps the
      names and one row per user, changes the row of `u` alone, and gives it
      the old balance minus `delta`. */
  lemma TakePointsRows(rows: seq<PointsRow>, u: string, delta: int)
    requires DistinctBy(rows, RowUser) && RowIndex(rows, u) >= 0
    ensures |TakePoints(rows, u, delta)| == |rows|
    ensures forall j :: 0 <= j < |rows| ==> TakePoints(rows, u, delta)[j].username == rows[j].username
    ensures DistinctBy(TakePoints(rows, u, delta), RowUser)
    ensures forall j :: 0 <= j < |rows| && rows[j].username != u ==> TakePoints(rows, u, delta)[j] == rows[j]
    ensures forall j :: 0 <= j < |rows| && rows[j].username == u ==>
              TakePoints(rows, u, delta)[j].points == Balance(rows, u) - delta
  {
    var i := RowIndex(rows, u);
    var r := TakePoints(rows, u, delta);
    forall j | 0 <= j < |rows| && rows[j].username == u ensures j == i {
      assert RowUser(rows[j]) == RowUser(rows[i]);
    }
  }

  lemma SameNamesHasRow(a: seq<PointsRow>, b: seq<PointsRow>, u: string)
    requires |a| == |b| && forall i :: 0 <= i < |a| ==> a[i].username == b[i].username
    requires HasRow(a, u)
    ensures HasRow(b, u)
  {
    var j :| 0 <= j < |a| && a[j].username == u;
    assert b[j].username == u;
  }

  lemma UndoKeepsConsistent(t: Tables)
    requires Consistent(t)
    ensures Consistent(UndoTables(t))
  {
    if t.history != [] {
      var h := t.history;
      var k := LatestIndex(h);
      var e := h[k];
      var r := UndoTables(t);
      assert HasRow(t.points, e.username);
      TakePointsRows(t.points, e.username, e.points);
      assert IncreasingBy(r.history, EntryId) by {
        KeepIncreasing(h, IdIsNot(e.id), EntryId);
      }
      forall j | 0 <= j < |r.history| ensures r.history[j].id < r.nextId && HasRow(r.points, r.history[j].username) {
        KeepMembers(h, IdIsNot(e.id));
        assert r.history[j] in r.history;
        SameNamesHasRow(t.points, r.points, r.history[j].username);
      }
      forall j | 0 <= j < |r.points| ensures r.points[j].points == SumFor(r.history, r.points[j].username) {
        RemoveById(h, k);
        SumForRemove(h, k, r.points[j].username);
      }
    }
  }

  // ---------------------------------------------------------------------------
  // clear_points

  /** Rows that `delete().neq('username', '')` leaves behind. */
  predicate BlankUser(r: PointsRow) { r.username == "" }
  predicate BlankEntry(e: HistoryRow) { e.username == "" }
  /** Rows that `delete().neq('match_number', 0)` leaves behind. */
  predicate MatchZero(r: MatchRow) { r.matchNumber == 0 }

  /** The tables after `clear_points`: every `points` and `history` row with
      a non-empty username and every match result with a match number other
      than 0 is deleted. */
  function Clear(t: Tables): Tables {
    Tables(Keep(t.points, BlankUser), Keep(t.history, BlankEntry), Keep(t.matchResults, MatchZero), t.nextId)
  }

  /** Clearing twice gives the same tables as clearing once. */
  lemma ClearTwice(t: Tables)
    ensures Clear(Clear(t)) == Clear(t)
  {
    KeepTwice(t.points, BlankUser);
    KeepTwice(t.history, BlankEntry);
    KeepTwice(t.matchResults, MatchZero);
  }

  /** What survives a clear: exactly the blank-name rows and the match
      results of match 0. */
  lemma ClearEffect(t: Tables)
    ensures forall x :: x in Clear(t).points <==> x in t.points && x.username == ""
    ensures forall x :: x in Clear(t).history <==> x in t.history && x.username == ""
    ensures forall x :: x in Clear(t).matchResults <==> x in t.matchResults && x.matchNumber == 0
  {
    KeepMembers(t.points, BlankUser);
    KeepMembers(t.history, BlankEntry);
    KeepMembers(t.matchResults, MatchZero);
  }

  /** Tables whose names are all non-empty and whose match numbers are all
      non-zero are emptied by a clear. */
  lemma ClearEmpties(t: Tables)
    requires forall i :: 0 <= i < |t.points| ==> t.points[i].username != ""
    requires forall i :: 0 <= i < |t.history| ==> t.history[i].username != ""
    requires forall i :: 0 <= i < |t.matchResults| ==> t.matchResults[i].matchNumber != 0
    ensures Clear(t) == Tables([], [], [], t.nextId)
  {
    KeepNone(t.points, BlankUser);
    KeepNone(t.history, BlankEntry);
    KeepNone(t.matchResults, MatchZero);
  }

  lemma ClearKeepsConsistent(t: Tables)
    requires Consistent(t)
    ensures Consistent(Clear(t))
  {
    var r := Clear(t);
    KeepDistinctBy(t.points, BlankUser, RowUser);
    KeepIncreasing(t.history, BlankEntry, EntryId);
    ClearEffect(t);
    SumForKeep(t.history, BlankEntry, "");
    forall j | 0 <= j < |r.history| ensures r.history[j].id < r.nextId && RowIndex(r.points, r.history[j].username) >= 0 {
      assert r.history[j] in r.history;
      var i := RowIndex(t.points, "");
      assert t.points[i] in t.points;
      assert t.points[i] in r.points;
    }
    forall j | 0 <= j < |r.points| ensures r.points[j].points == SumFor(r.history, r.points[j].username) {
      assert r.points[j] in r.points;
    }
  }

  // ---------------------------------------------------------------------------
  // Any sequence of operations

  datatype LedgerOp =
    | AwardOp(username: string, delta: int, matchNumber: int, updatedBy: string, now: int)
    | UndoOp
    | ClearOp

  function Step(t: Tables, op: LedgerOp): Tables {
    match op
    case AwardOp(u, d, m, updater, now) => Award(t, u, d, m, updater, now)
    case UndoOp => UndoTables(t)
    case ClearOp => Clear(t)
  }

  function Run(t: Tables, ops: seq<LedgerOp>): Tables
    decreases |ops|
  {
    if ops == [] then t else Run(Step(t, ops[0]), ops[1..])
  }

  lemma StepKeepsConsistent(t: Tables, op: LedgerOp)
    requires Consistent(t)
    ensures Consistent(Step(t, op))
  {
    match op
    case AwardOp(u, d, m, updater, now) => AwardKeepsConsistent(t, u, d, m, updater, now);
    case UndoOp => UndoKeepsConsistent(t);
    case ClearOp => ClearKeepsConsistent(t);
  }

  lemma EmptyConsistent()
    ensures Consistent(Empty)
  {
  }

  /** From consistent tables, every sequence of awards, undos and clears
      keeps them consistent, and leaves every user's balance, with or without
      a row, equal to the sum of that user's surviving history. */
  lemma {:induction false} RunKeepsBalances(t: Tables, ops: seq<LedgerOp>)
    requires Consistent(t)
    ensures Consistent(Run(t, ops))
    ensures forall u :: Balance(Run(t, ops).points, u) == SumFor(Run(t, ops).history, u)
    decreases |ops|
  {
    if ops != [] {
      StepKeepsConsistent(t, ops[0]);
      RunKeepsBalances(Step(t, ops[0]), ops[1..]);
    }
    forall u ensures Balance(Run(t, ops).points, u) == SumFor(Run(t, ops).history, u) {
      BalanceIsSum(Run(t, ops), u);
    }
  }

  // ---------------------------------------------------------------------------
  // Award followed by undo

  /** An undo right after an award (with a clock that has not gone back)
      removes exactly that award: balances and history are as before. The
      `points` table is as before for a known user, and keeps a 0 row for a
      user the award created. Every match result of the match is gone, so
      the match results are as before only when the match had none. */
  lemma AwardThenUndo(t: Tables, u: string, delta: int, m: int, updater: string, now: int)
    requires Consistent(t)
    requires forall i :: 0 <= i < |t.history| ==> t.history[i].timestamp <= now
    ensures var r := UndoTables(Award(t, u, delta, m, updater, now));
      && r.history == t.history
      && (forall v :: Balance(r.points, v) == Balance(t.points, v))
      && (RowIndex(t.points, u) >= 0 ==> r.points == t.points)
      && (RowIndex(t.points, u) < 0 ==> r.points == t.points + [PointsRow(u, 0)])
      && r.matchResults == Keep(t.matchResults, MatchIsNot(m))
      && ((forall i :: 0 <= i < |t.matchResults| ==> t.matchResults[i].matchNumber != m) ==> r.matchResults == t.matchResults)
    ensures UndoReply(Award(t, u, delta, m, updater, now)) == (true, "Undid " + IntToString(delta) + " point(s) for " + u)
  {
    var a := Award(t, u, delta, m, updater, now);
    var r := UndoTables(a);
    var k := LatestIndex(a.history);
    assert a.history[|t.history|].timestamp == now;
    assert k == |t.history|;
    assert r.history == t.history by {
      assert IncreasingBy(a.history, EntryId);
      RemoveById(a.history, k);
      assert a.history[..k] + a.history[k + 1..] == t.history;
    }
    assert r.matchResults == Keep(t.matchResults, MatchIsNot(m)) by {
      var one := [MatchRow(m, u, now)];
      KeepConcat(t.matchResults, one, MatchIsNot(m));
      assert Keep(one, MatchIsNot(m)) == [] by {
        assert one[1..] == [];
      }
    }
    AddThenTake(t.points, u, delta);
    forall v ensures Balance(r.points, v) == Balance(t.points, v) {
      if RowIndex(t.points, u) < 0 {
        RowIndexAppend(t.points, PointsRow(u, 0), v);
      }
    }
    if forall i :: 0 <= i < |t.matchResults| ==> t.matchResults[i].matchNumber != m {
      KeepAll(t.matchResults, MatchIsNot(m));
    }
  }

  // ---------------------------------------------------------------------------
  // Read projections

  /** `get_points()`: each stored username with its balance, in row order. */
  function GetPoints(t: Tables): (r: seq<(string, int)>)
    ensures |r| == |t.points|
    ensures forall u :: HasRow(t.points, u) <==> exists i :: 0 <= i < |r| && r[i] == (u, Balance(t.points, u))
  {
    var r := seq(|t.points|, i requires 0 <= i < |t.points| => (t.points[i].username, t.points[i].points));
    assert forall u :: HasRow(t.points, u) ==>
      0 <= RowIndex(t.points, u) && r[RowIndex(t.points, u)] == (u, Balance(t.points, u));
    r
  }

  /** Under the invariant, `get_points()` names each user once, reports the
      sum of that user's history, and names every user who has history. */
  lemma GetPointsBalances(t: Tables)
    requires Consistent(t)
    ensures forall i, j :: 0 <= i < j < |GetPoints(t)| ==> GetPoints(t)[i].0 != GetPoints(t)[j].0
    ensures forall i :: 0 <= i < |GetPoints(t)| ==> GetPoints(t)[i].1 == SumFor(t.history, GetPoints(t)[i].0)
    ensures forall e :: e in t.history ==> exists i :: 0 <= i < |GetPoints(t)| && GetPoints(t)[i].0 == e.username
  {
    var r := GetPoints(t);
    forall e | e in t.history ensures exists i :: 0 <= i < |r| && r[i].0 == e.username {
      var i := RowIndex(t.points, e.username);
      assert r[i].0 == e.username;
    }
  }

  function MatchKey(r: MatchRow): int { r.matchNumber }

  /** `get_match_results()`: the match results ordered by match number. */
  function GetMatchResults(t: Tables): (r: seq<MatchRow>)
    ensures SortedBy(r, MatchKey)
    ensures multiset(r) == multiset(t.matchResults)
  {
    SortByCorrect(t.matchResults, MatchKey);
    SortBy(t.matchResults, MatchKey)
  }

  // ---------------------------------------------------------------------------
  // The tables as the module-level store holds them

  class Ledger {
    var points: seq<PointsRow>
    var history: seq<HistoryRow>
    var matchResults: seq<MatchRow>
    var nextId: nat

    function State(): Tables
      reads this
    {
      Tables(points, history, matchResults, nextId)
    }

    ghost predicate Valid()
      reads this
    {
      Consistent(State())
    }

    constructor ()
      ensures Valid() && State() == Empty
    {
      points, history, matchResults, nextId := [], [], [], 1;
    }

    /** `update_points(username, delta, match_number, updated_by)` at time `now`. */
    method UpdatePoints(username: string, delta: int, matchNumber: int, updatedBy: string, now: int, store: StoreStatus)
      returns (r: DbResult<()>)
      requires Valid()
      modifies this
      ensures Valid()
      ensures store.Available? ==> r == Ok(()) && State() == Award(old(State()), username, delta, matchNumber, updatedBy, now)
      ensures store.Unavailable? ==> r == DatabaseError("Failed to update points: " + store.cause) && State() == old(State())
    {
      if store.Unavailable? {
        return DatabaseError("Failed to update points: " + store.cause);
      }
      var before := State();
      AwardKeepsConsistent(before, username, delta, matchNumber, updatedBy, now);
      var i := RowIndex(points, username);
      if i < 0 {
        points := points + [PointsRow(username, delta)];
      } else {
        points := points[i := PointsRow(username, points[i].points + delta)];
      }
      assert points == AddPoints(before.points, username, delta);
      history := history + [HistoryRow(nextId, username, delta, matchNumber, updatedBy, now)];
      matchResults := matchResults + [MatchRow(matchNumber, username, now)];
      nextId := nextId + 1;
      r := Ok(());
    }

    /** `clear_points()`. */
    method ClearPoints(store: StoreStatus) returns (r: DbResult<()>)
      requires Valid()
      modifies this
      ensures Valid()
      ensures store.Available? ==> r == Ok(()) && State() == Clear(old(State()))
      ensures store.Unavailable? ==> r == DatabaseError("Failed to clear points: " + store.cause) && State() == old(State())
    {
      if store.Unavailable? {
        return DatabaseError("Failed to clear points: " + store.cause);
      }
      var before := State();
      ClearKeepsConsistent(before);
      points := Keep(points, BlankUser);
      history := Keep(history, BlankEntry);
      matchResults := Keep(matchResults, MatchZero);
      assert State() == Clear(before);
      r := Ok(());
    }

    /** `undo_last_point()`. */
    method UndoLastPoint(store: StoreStatus) returns (r: DbResult<(bool, string)>)
      requires Valid()
      modifies this
      ensures Valid()
      ensures store.Available? ==> r == Ok(UndoReply(old(State()))) && State() == UndoTables(old(State()))
      ensures store.Unavailable? ==> r == DatabaseError("Failed to undo last point: " + store.cause) && State() == old(State())
    {
      if store.Unavailable? {
        return DatabaseError("Failed to undo last point: " + store.cause);
      }
      if history == [] {
        return Ok((false, "No points to undo"));
      }
      var before := State();
      UndoKeepsConsistent(before);
      var entry := history[LatestIndex(history)];
      var i := RowIndex(points, entry.username);
      if i >= 0 {
        points := points[i := PointsRow(entry.username, points[i].points - entry.points)];
      }
      var after := UndoTables(before);
      assert after.points == TakePoints(before.points, entry.username, entry.points) == points;
      history := Keep(history, IdIsNot(entry.id));
      matchResults := Keep(matchResults, MatchIsNot(entry.matchNumber));
      assert after.history == history && after.matchResults == matchResults && after.nextId == nextId;
      r := Ok((true, "Undid " + IntToString(entry.points) + " point(s) for " + entry.username));
    }
  }
}
