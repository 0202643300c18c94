/** The difference between two file-system snapshots (`agent_harness/storage.py`). */
module SnapshotDiff {
  import opened PyText

  /** What the difference compares about a file. */
  datatype State = State(size: Option<int>, sha256: Option<string>)

  /** A snapshot row: the path as `str` gives it, the compared state and whatever else it holds. */
  datatype Row = Row(path: string, state: State, mtime: string)

  datatype Change = Change(path: string, before: State, after: State)

  datatype Diff = Diff(created: seq<Row>, modified: seq<Change>, deleted: seq<Row>)

  // ---------------------------------------------------------------------------------------
  // The path index: a dictionary keeps the last row of a path and the place of the first

  function Index(rows: seq<Row>): (m: map<string, Row>)
    ensures forall p :: p in m ==> m[p].path == p
  {
    if rows == [] then map[]
    else
      var last := rows[|rows| - 1];
      Index(rows[..|rows| - 1])[last.path := last]
  }

  function Paths(rows: seq<Row>): seq<string> {
    if rows == [] then []
    else
      var before := Paths(rows[..|rows| - 1]);
      var path := rows[|rows| - 1].path;
      if path in before then before else before + [path]
  }

  predicate Distinct(paths: seq<string>) {
    forall i, j :: 0 <= i < j < |paths| ==> paths[i] != paths[j]
  }

  lemma {:induction false} IndexFacts(rows: seq<Row>)
    ensures Distinct(Paths(rows))
    ensures forall p :: p in Paths(rows) <==> p in Index(rows)
    ensures forall p :: p in Index(rows) <==> exists k :: 0 <= k < |rows| && rows[k].path == p
  {
    if rows != [] {
      var n := |rows| - 1;
      var most := rows[..n];
      IndexFacts(most);
      forall p ensures p in Index(rows) <==> exists k :: 0 <= k < |rows| && rows[k].path == p {
        if p in Index(most) {
          var k :| 0 <= k < n && most[k].path == p;
          assert rows[k].path == p;
        } else {
          assert forall k :: 0 <= k < n ==> rows[k] == most[k];
        }
      }
    }
  }

  // ---------------------------------------------------------------------------------------
  // The difference as a function of the two indexes

  function Created(paths: seq<string>, before: map<string, Row>, after: map<string, Row>): (r: seq<Row>)
    requires forall p :: p in paths ==> p in after
  {
    if paths == [] then []
    else
      var n := |paths| - 1;
      var p := paths[n];
      var rows := Created(paths[..n], before, after);
      if p == "" || p in before then rows else rows + [after[p]]
  }

  function Modified(paths: seq<string>, before: map<string, Row>, after: map<string, Row>): (r: seq<Change>)
    requires forall p :: p in paths ==> p in after
  {
    if paths == [] then []
    else
      var n := |paths| - 1;
      var p := paths[n];
      var changes := Modified(paths[..n], before, after);
      if p == "" || p !in before || before[p].state == after[p].state then changes
      else changes + [Change(p, before[p].state, after[p].state)]
  }

  function DiffOf(before: seq<Row>, after: seq<Row>): Diff {
    var b, a := Index(before), Index(after);
    IndexFacts(before);
    IndexFacts(after);
    Diff(Created(Paths(after), b, a), Modified(Paths(after), b, a), Created(Paths(before), a, b))
  }

  /** The dictionary of the rows by path, with its keys in insertion order. */
  method BuildIndex(rows: seq<Row>) returns (paths: seq<string>, index: map<string, Row>)
    ensures paths == Paths(rows) && index == Index(rows)
  {
    paths, index := [], map[];
    var i := 0;
    while i < |rows|
      invariant i <= |rows|
      invariant paths == Paths(rows[..i]) && index == Index(rows[..i])
    {
      assert rows[..i + 1][..i] == rows[..i];
      if rows[i].path !in index {
        paths := paths + [rows[i].path];
      }
      index := index[rows[i].path := rows[i]];
      IndexFacts(rows[..i]);
      i := i + 1;
    }
    assert rows[..i] == rows;
  }

  lemma CreatedSnoc(paths: seq<string>, k: nat, before: map<string, Row>, after: map<string, Row>)
    requires k < |paths| && forall p :: p in paths ==> p in after
    ensures var p, rows := paths[k], Created(paths[..k], before, after);
      Created(paths[..k + 1], before, after) == if p == "" || p in before then rows else rows + [after[p]]
  {
    assert paths[..k + 1][..k] == paths[..k];
  }

  lemma ModifiedSnoc(paths: seq<string>, k: nat, before: map<string, Row>, after: map<string, Row>)
    requires k < |paths| && forall p :: p in paths ==> p in after
    ensures var p, changes := paths[k], Modified(paths[..k], before, after);
      Modified(paths[..k + 1], before, after) ==
      if p == "" || p !in before || before[p].state == after[p].state then changes
      else changes + [Change(p, before[p].state, after[p].state)]
  {
    assert paths[..k + 1][..k] == paths[..k];
  }

  lemma NothingFromNoPaths(before: map<string, Row>, after: map<string, Row>)
    ensures Created([], before, after) == [] && Modified([], before, after) == []
  {
  }

  method DiffSnapshot(before: seq<Row>, after: seq<Row>) returns (d: Diff)
    ensures d == DiffOf(before, after)
  {
    hide Index, Paths, Created, Modified;
    var beforePaths, beforeMap := BuildIndex(before);
    var afterPaths, afterMap := BuildIndex(after);
    IndexFacts(before);
    IndexFacts(after);
    var created: seq<Row>, modified: seq<Change>, deleted: seq<Row> := [], [], [];
    NothingFromNoPaths(beforeMap, afterMap);
    NothingFromNoPaths(afterMap, beforeMap);
    var i := 0;
    while i < |afterPaths|
      invariant i <= |afterPaths|
      invariant created == Created(afterPaths[..i], beforeMap, afterMap)
      invariant modified == Modified(afterPaths[..i], beforeMap, afterMap)
    {
      var path := afterPaths[i];
      CreatedSnoc(afterPaths, i, beforeMap, afterMap);
      ModifiedSnoc(afterPaths, i, beforeMap, afterMap);
      i := i + 1;
      if path == "" {
        continue;
      }
      var row := afterMap[path];
      if path !in beforeMap {
        created := created + [row];
        continue;
      }
      var previous := beforeMap[path];
      if previous.state.sha256 != row.state.sha256 || previous.state.size != row.state.size {
        modified := modified + [Change(path, previous.state, row.state)];
      }
    }
    assert afterPaths[..i] == afterPaths;
    i := 0;
    while i < |beforePaths|
      invariant i <= |beforePaths|
      invariant deleted == Created(beforePaths[..i], afterMap, beforeMap)
    {
      var path := beforePaths[i];
      CreatedSnoc(beforePaths, i, afterMap, beforeMap);
      if path != "" && path !in afterMap {
        deleted := deleted + [beforeMap[path]];
      }
      i := i + 1;
    }
    assert beforePaths[..i] == beforePaths;
    d := Diff(created, modified, deleted);
  }

  // ---------------------------------------------------------------------------------------
  // What the difference means

  /** What a snapshot says about the files in it, by path; rows without a path say nothing. */
  function View(rows: seq<Row>): map<string, State> {
    map p | p in Index(rows) && p != "" :: Index(rows)[p].state
  }

  function RowPaths(rows: seq<Row>): set<string> {
    set row | row in rows :: row.path
  }

  function ChangePaths(changes: seq<Change>): set<string> {
    set change | change in changes :: change.path
  }

  predicate DistinctRows(rows: seq<Row>) {
    forall i, j :: 0 <= i < j < |rows| ==> rows[i].path != rows[j].path
  }

  predicate DistinctChanges(changes: seq<Change>) {
    forall i, j :: 0 <= i < j < |changes| ==> changes[i].path != changes[j].path
  }

  function Writes(rows: seq<Row>): map<string, State> {
    if rows == [] then map[]
    else Writes(rows[..|rows| - 1])[rows[|rows| - 1].path := rows[|rows| - 1].state]
  }

  function Overwrites(changes: seq<Change>): map<string, State> {
    if changes == [] then map[]
    else Overwrites(changes[..|changes| - 1])[changes[|changes| - 1].path := changes[|changes| - 1].after]
  }

  /** Deletes the deleted files, writes the created ones and overwrites the modified ones. */
  function Patch(view: map<string, State>, d: Diff): map<string, State> {
    view - RowPaths(d.deleted) + Writes(d.created) + Overwrites(d.modified)
  }

  function Flip(c: Change): Change {
    Change(c.path, c.after, c.before)
  }

  lemma {:induction false} CreatedFacts(paths: seq<string>, before: map<string, Row>, after: map<string, Row>)
    requires Distinct(paths) && forall p :: p in paths ==> p in after && after[p].path == p
    ensures var r := Created(paths, before, after);
      && DistinctRows(r)
      && forall row :: row in r <==> row.path in paths && row.path != "" && row.path !in before && row == after[row.path]
  {
    if paths != [] {
      var n := |paths| - 1;
      CreatedFacts(paths[..n], before, after);
      var most := Created(paths[..n], before, after);
      assert paths == paths[..n] + [paths[n]] && paths[n] !in paths[..n];
      assert forall k :: 0 <= k < |most| ==> most[k] in most;
    }
  }

  lemma {:induction false} ModifiedFacts(paths: seq<string>, before: map<string, Row>, after: map<string, Row>)
    requires Distinct(paths) && forall p :: p in paths ==> p in after
    ensures var r := Modified(paths, before, after);
      && DistinctChanges(r)
      && forall c :: c in r <==> && c.path in paths && c.path != "" && c.path in before && c.before == before[c.path].state
                                 && c.after == after[c.path].state && c.before != c.after
  {
    if paths != [] {
      var n := |paths| - 1;
      ModifiedFacts(paths[..n], before, after);
      var most := Modified(paths[..n], before, after);
      assert paths == paths[..n] + [paths[n]] && paths[n] !in paths[..n];
      assert forall k :: 0 <= k < |most| ==> most[k] in most;
    }
  }

  lemma {:induction false} WritesFacts(rows: seq<Row>)
    requires DistinctRows(rows)
    ensures Writes(rows).Keys == RowPaths(rows)
    ensures forall row :: row in rows ==> Writes(rows)[row.path] == row.state
  {
    if rows != [] {
      var n := |rows| - 1;
      WritesFacts(rows[..n]);
      assert rows == rows[..n] + [rows[n]];
      assert forall k :: 0 <= k < n ==> rows[..n][k] == rows[k];
    }
  }

  lemma {:induction false} OverwritesFacts(changes: seq<Change>)
    requires DistinctChanges(changes)
    ensures Overwrites(changes).Keys == ChangePaths(changes)
    ensures forall c :: c in changes ==> Overwrites(changes)[c.path] == c.after
  {
    if changes != [] {
      var n := |changes| - 1;
      OverwritesFacts(changes[..n]);
      assert changes == changes[..n] + [changes[n]];
      assert forall k :: 0 <= k < n ==> changes[..n][k] == changes[k];
    }
  }

  /** The three lists by what is in them. */
  lemma PartsFacts(before: seq<Row>, after: seq<Row>)
    ensures var d, b, a := DiffOf(before, after), Index(before), Index(after);
      && DistinctRows(d.created) && DistinctChanges(d.modified) && DistinctRows(d.deleted)
      && (forall row :: row in d.created <==> row.path != "" && row.path in a && row.path !in b && row == a[row.path])
      && (forall row :: row in d.deleted <==> row.path != "" && row.path in b && row.path !in a && row == b[row.path])
      && (forall c :: c in d.modified <==> && c.path != "" && c.path in a && c.path in b && c.before == b[c.path].state
                                           && c.after == a[c.path].state && c.before != c.after)
  {
    var b, a := Index(before), Index(after);
    IndexFacts(before);
    IndexFacts(after);
    CreatedFacts(Paths(after), b, a);
    ModifiedFacts(Paths(after), b, a);
    CreatedFacts(Paths(before), a, b);
  }

  /** The paths of the three lists: exactly the paths on which the snapshots disagree, each in
      one list and once, and in the list that says how they disagree. */
  lemma DiffIsExact(before: seq<Row>, after: seq<Row>)
    ensures var d, earlier, later := DiffOf(before, after), View(before), View(after);
      && DistinctRows(d.created) && DistinctChanges(d.modified) && DistinctRows(d.deleted)
      && RowPaths(d.created) == later.Keys - earlier.Keys
      && RowPaths(d.deleted) == earlier.Keys - later.Keys
      && ChangePaths(d.modified) == (set p | p in earlier && p in later && earlier[p] != later[p])
      && RowPaths(d.created) !! RowPaths(d.deleted) !! ChangePaths(d.modified)
  {
    hide DiffOf, DistinctRows, DistinctChanges;
    var d, b, a := DiffOf(before, after), Index(before), Index(after);
    PartsFacts(before, after);
    forall p ensures p in RowPaths(d.created) <==> p in View(after) && p !in View(before) {
      assert p in a ==> (a[p] in d.created <==> p != "" && p !in b);
    }
    forall p ensures p in RowPaths(d.deleted) <==> p in View(before) && p !in View(after) {
      assert p in b ==> (b[p] in d.deleted <==> p != "" && p !in a);
    }
    forall p ensures p in ChangePaths(d.modified) <==> p in View(before) && p in View(after) && View(before)[p] != View(after)[p] {
      if p in a && p in b {
        assert Change(p, b[p].state, a[p].state) in d.modified <==> p != "" && b[p].state != a[p].state;
      }
    }
  }

  /** What the lists would write is what the second snapshot says. */
  lemma ListsSayAfter(before: seq<Row>, after: seq<Row>)
    ensures var d, later := DiffOf(before, after), View(after);
      && (forall row :: row in d.created ==> row.path in later && row.state == later[row.path])
      && forall c :: c in d.modified ==> c.path in later && c.after == later[c.path]
  {
    hide DiffOf;
    PartsFacts(before, after);
  }

  /** Applying the difference to the first snapshot gives the second. */
  lemma PatchGivesAfter(before: seq<Row>, after: seq<Row>)
    ensures Patch(View(before), DiffOf(before, after)) == View(after)
  {
    hide DiffOf, View, Writes, Overwrites, DistinctRows, DistinctChanges;
    var d := DiffOf(before, after);
    DiffIsExact(before, after);
    ListsSayAfter(before, after);
    WritesFacts(d.created);
    OverwritesFacts(d.modified);
    var patched := Patch(View(before), d);
    assert patched.Keys == View(after).Keys;
    forall p | p in patched ensures patched[p] == View(after)[p] {
      if p in ChangePaths(d.modified) {
        var c :| c in d.modified && c.path == p;
      } else if p in RowPaths(d.created) {
        var row :| row in d.created && row.path == p;
      }
    }
  }

  /** The difference is empty between snapshots that describe the same files, and only then; in
      particular between a snapshot and itself. */
  lemma EmptyDiffMeansEqual(before: seq<Row>, after: seq<Row>)
    ensures DiffOf(before, after) == Diff([], [], []) <==> View(before) == View(after)
    ensures DiffOf(before, before) == Diff([], [], [])
  {
    hide DiffOf, View;
    PatchGivesAfter(before, after);
    NoDifference(before, before);
    if View(before) == View(after) {
      NoDifference(before, after);
    }
    if DiffOf(before, after) == Diff([], [], []) {
      assert Patch(View(before), Diff([], [], [])) == View(before);
    }
  }

  lemma NoDifference(before: seq<Row>, after: seq<Row>)
    requires View(before) == View(after)
    ensures DiffOf(before, after) == Diff([], [], [])
  {
    hide DiffOf, View;
    var d := DiffOf(before, after);
    DiffIsExact(before, after);
    assert d.created != [] ==> d.created[0].path in RowPaths(d.created);
    assert d.deleted != [] ==> d.deleted[0].path in RowPaths(d.deleted);
    assert d.modified != [] ==> d.modified[0].path in ChangePaths(d.modified);
  }

  /** Swapping the snapshots swaps created and deleted, row for row and in the same order, and
      flips every modified entry. */
  lemma SwapReversesDiff(before: seq<Row>, after: seq<Row>)
    ensures var d, r := DiffOf(before, after), DiffOf(after, before);
      && r.created == d.deleted && r.deleted == d.created
      && |r.modified| == |d.modified|
      && forall c :: c in d.modified <==> Flip(c) in r.modified
  {
    var d, r := DiffOf(before, after), DiffOf(after, before);
    assert r.created == d.deleted && r.deleted == d.created;
    hide DiffOf;
    PartsFacts(before, after);
    PartsFacts(after, before);
    DiffIsExact(before, after);
    DiffIsExact(after, before);
    assert ChangePaths(d.modified) == ChangePaths(r.modified);
    DistinctChangesCount(d.modified);
    DistinctChangesCount(r.modified);
  }

  lemma {:induction false} DistinctChangesCount(changes: seq<Change>)
    requires DistinctChanges(changes)
    ensures |ChangePaths(changes)| == |changes|
  {
    if changes != [] {
      var n := |changes| - 1;
      DistinctChangesCount(changes[..n]);
      assert changes == changes[..n] + [changes[n]];
      assert forall k :: 0 <= k < n ==> changes[..n][k] == changes[k];
      assert ChangePaths(changes) == ChangePaths(changes[..n]) + {changes[n].path};
    }
  }
}
