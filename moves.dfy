/** `moveDown` and `moveUp`: exchanging a column's position with its neighbour's,
    found through the project's `id => position` listing and its flip. */
module Moves {
  import opened Columns

  /** `$columns[$id]` for the listing `$columns` of `ps`: the listed position of `id`.
      A later entry overwrites an earlier one, as assignment into a PHP array does. */
  function PositionOf(ps: seq<Column>, id: int): (r: Option<int>)
    ensures r.None? <==> forall i :: 0 <= i < |ps| ==> ps[i].id != id
    ensures r.Some? ==> exists i :: 0 <= i < |ps| && ps[i].id == id && ps[i].position == r.value
  {
    if ps == [] then None
    else
      match PositionOf(ps[1..], id)
      case Some(p) =>
        assert forall i :: 0 <= i < |ps| - 1 ==> ps[1..][i] == ps[i + 1];
        Some(p)
      case None => if ps[0].id == id then Some(ps[0].position) else None
  }

  /** `array_flip($columns)[$p]`: the id listed at position `p`, if any
      (the last such entry, as `array_flip` keeps the last key for a repeated value). */
  function ColumnAt(ps: seq<Column>, p: int): (r: Option<int>)
    ensures r.None? <==> !HasPosition(ps, p)
    ensures r.Some? ==> exists i :: 0 <= i < |ps| && ps[i].position == p && ps[i].id == r.value
  {
    if ps == [] then None
    else
      match ColumnAt(ps[1..], p)
      case Some(id) =>
        assert forall i :: 0 <= i < |ps| - 1 ==> ps[1..][i] == ps[i + 1];
        Some(id)
      case None =>
        assert forall i :: 0 < i < |ps| ==> ps[i] == ps[1..][i - 1];
        if ps[0].position == p then Some(ps[0].id) else None
  }

  /** The outcome of a move: the new table and the method's boolean result. */
  datatype Move = Move(rows: seq<Column>, moved: bool)

  /** The table after the two updates of a move: row `id` gets position `p`, then the
      row `other` (when the flip lookup found one) gets `q`. A missed lookup yields an
      update `WHERE id = NULL`, which changes no row. */
  function Swapped(rows: seq<Column>, id: int, p: int, other: Option<int>, q: int): (r: seq<Column>)
    ensures |r| == |rows|
    ensures forall i :: 0 <= i < |rows| ==> r[i] == rows[i].(position := r[i].position)
  {
    seq(|rows|, i requires 0 <= i < |rows| =>
      if other == Some(rows[i].id) then rows[i].(position := q)
      else if rows[i].id == id then rows[i].(position := p)
      else rows[i])
  }

  /** `moveDown(project, id)`: when the column is listed at some `p < count`, it goes to
      `p + 1` and the column listed at `p + 1` (if any) goes to `p`. */
  function MovedDown(rows: seq<Column>, project: int, id: int): (m: Move)
    ensures |m.rows| == |rows|
    ensures !m.moved ==> m.rows == rows
    ensures forall i :: 0 <= i < |rows| ==> m.rows[i] == rows[i].(position := m.rows[i].position)
  {
    var ps := ProjectRows(rows, project);
    var cur := PositionOf(ps, id);
    if cur.Some? && cur.value < |ps| then
      Move(Swapped(rows, id, cur.value + 1, ColumnAt(ps, cur.value + 1), cur.value), true)
    else
      Move(rows, false)
  }

  /** `moveUp(project, id)`: when the column is listed at some `p > 1`, it goes to
      `p - 1` and the column listed at `p - 1` (if any) goes to `p`. */
  function MovedUp(rows: seq<Column>, project: int, id: int): (m: Move)
    ensures |m.rows| == |rows|
    ensures !m.moved ==> m.rows == rows
    ensures forall i :: 0 <= i < |rows| ==> m.rows[i] == rows[i].(position := m.rows[i].position)
  {
    var ps := ProjectRows(rows, project);
    var cur := PositionOf(ps, id);
    if cur.Some? && cur.value > 1 then
      Move(Swapped(rows, id, cur.value - 1, ColumnAt(ps, cur.value - 1), cur.value), true)
    else
      Move(rows, false)
  }

  /** Position `x` after positions `a` and `b` trade places. */
  function Exchange(x: int, a: int, b: int): int
  {
    if x == a then b else if x == b then a else x
  }

  /** `after` is `before` with the positions `a` and `b` traded inside `project`,
      every other row and field left as it was. */
  predicate ExchangedIn(before: seq<Column>, after: seq<Column>, project: int, a: int, b: int)
  {
    && |after| == |before|
    && forall i :: 0 <= i < |before| ==>
         after[i] == if before[i].projectId == project
                     then before[i].(position := Exchange(before[i].position, a, b))
                     else before[i]
  }

  lemma {:induction false} ProjectRowsExchanged(before: seq<Column>, after: seq<Column>, project: int, a: int, b: int)
    requires ExchangedIn(before, after, project, a, b)
    ensures ExchangedIn(ProjectRows(before, project), ProjectRows(after, project), project, a, b)
  {
    if before != [] {
      assert ExchangedIn(before[1..], after[1..], project, a, b) by {
        forall i | 0 <= i < |before| - 1 ensures before[1..][i] == before[i + 1] && after[1..][i] == after[i + 1] { }
      }
      ProjectRowsExchanged(before[1..], after[1..], project, a, b);
      var head, head' := before[0], after[0];
      assert head'.projectId == head.projectId;
      var ps, qs := ProjectRows(before[1..], project), ProjectRows(after[1..], project);
      if head.projectId == project {
        assert ProjectRows(before, project) == [head] + ps;
        assert ProjectRows(after, project) == [head'] + qs;
      } else {
        assert ProjectRows(before, project) == ps;
        assert ProjectRows(after, project) == qs;
      }
    }
  }

  /** Trading two positions inside 1..N keeps a project's positions exactly 1..N. */
  lemma ContiguousExchanged(ps: seq<Column>, qs: seq<Column>, project: int, a: int, b: int)
    requires Contiguous(ps)
    requires 1 <= a <= |ps| && 1 <= b <= |ps|
    requires forall i :: 0 <= i < |ps| ==> ps[i].projectId == project
    requires ExchangedIn(ps, qs, project, a, b)
    ensures Contiguous(qs)
  {
    forall x | 1 <= x <= |qs| ensures HasPosition(qs, x) {
      assert HasPosition(ps, Exchange(x, a, b));
      var i :| 0 <= i < |ps| && ps[i].position == Exchange(x, a, b);
      assert qs[i].position == x;
    }
  }

  /** With unique ids, the listing gives each column of the project its own position. */
  lemma PositionOfListed(ps: seq<Column>, k: int)
    requires UniqueIds(ps) && 0 <= k < |ps|
    ensures PositionOf(ps, ps[k].id) == Some(ps[k].position)
  {
  }

  /** With distinct positions, the flip gives back the one column at that position. */
  lemma ColumnAtListed(ps: seq<Column>, k: int)
    requires DistinctPositions(ps) && 0 <= k < |ps|
    ensures ColumnAt(ps, ps[k].position) == Some(ps[k].id)
  {
  }

  /** The neighbour found by the flip, and the moved column, are rows of the
      project; a row outside the project has neither id. */
  lemma OutsideProject(rows: seq<Column>, project: int, i: int, c: Column)
    requires UniqueIds(rows) && 0 <= i < |rows| && rows[i].projectId != project
    requires c in ProjectRows(rows, project)
    ensures rows[i].id != c.id
  {
    ProjectRowsMembers(rows, project);
    var j :| 0 <= j < |rows| && rows[j] == c;
  }

  /** The two updates of a move, when the flip found the neighbour, trade the two
      columns' positions `a` and `b` inside the project and touch nothing else. */
  lemma SwappedExchanges(rows: seq<Column>, project: int, k: int, j: int)
    requires UniqueIds(rows)
    requires DistinctPositions(ProjectRows(rows, project))
    requires 0 <= k < |ProjectRows(rows, project)| && 0 <= j < |ProjectRows(rows, project)| && k != j
    ensures var ps := ProjectRows(rows, project);
      ExchangedIn(rows, Swapped(rows, ps[k].id, ps[j].position, Some(ps[j].id), ps[k].position),
                  project, ps[k].position, ps[j].position)
  {
    var ps := ProjectRows(rows, project);
    ProjectRowsUnique(rows, project);
    var r := Swapped(rows, ps[k].id, ps[j].position, Some(ps[j].id), ps[k].position);
    forall i | 0 <= i < |rows|
      ensures r[i] == if rows[i].projectId == project
                      then rows[i].(position := Exchange(rows[i].position, ps[k].position, ps[j].position))
                      else rows[i]
    {
      SwappedRow(rows, project, k, j, i);
    }
  }

  lemma SwappedRow(rows: seq<Column>, project: int, k: int, j: int, i: int)
    requires UniqueIds(rows) && UniqueIds(ProjectRows(rows, project))
    requires DistinctPositions(ProjectRows(rows, project))
    requires 0 <= k < |ProjectRows(rows, project)| && 0 <= j < |ProjectRows(rows, project)| && k != j
    requires 0 <= i < |rows|
    ensures var ps := ProjectRows(rows, project);
      var r := Swapped(rows, ps[k].id, ps[j].position, Some(ps[j].id), ps[k].position);
      r[i] == if rows[i].projectId == project
              then rows[i].(position := Exchange(rows[i].position, ps[k].position, ps[j].position))
              else rows[i]
  {
    var ps := ProjectRows(rows, project);
    if rows[i].projectId == project {
      ProjectRowsMembers(rows, project);
      assert rows[i] in ps;
      var t :| 0 <= t < |ps| && ps[t] == rows[i];
      assert rows[i].id == ps[k].id <==> t == k;
      assert rows[i].id == ps[j].id <==> t == j;
    } else {
      OutsideProject(rows, project, i, ps[k]);
      OutsideProject(rows, project, i, ps[j]);
    }
  }

  /** Unfolds `MovedDown` when the column is listed at `p < count` and the flip finds `other` at `p + 1`. */
  lemma MovedDownFound(rows: seq<Column>, project: int, id: int, p: int, other: int)
    requires PositionOf(ProjectRows(rows, project), id) == Some(p)
    requires p < |ProjectRows(rows, project)|
    requires ColumnAt(ProjectRows(rows, project), p + 1) == Some(other)
    ensures MovedDown(rows, project, id) == Move(Swapped(rows, id, p + 1, Some(other), p), true)
  {
    assert MovedDown(rows, project, id).moved;
    MovedDownRows(rows, project, id, p, other);
  }

  lemma MovedDownRows(rows: seq<Column>, project: int, id: int, p: int, other: int)
    requires PositionOf(ProjectRows(rows, project), id) == Some(p)
    requires MovedDown(rows, project, id).moved
    requires ColumnAt(ProjectRows(rows, project), p + 1) == Some(other)
    ensures MovedDown(rows, project, id).rows == Swapped(rows, id, p + 1, Some(other), p)
  {
    var ps := ProjectRows(rows, project);
    var cur := PositionOf(ps, id);
    var target, found := cur.value + 1, ColumnAt(ps, cur.value + 1);
    assert MovedDown(rows, project, id).rows == Swapped(rows, id, target, found, cur.value);
    assert target == p + 1 && found == Some(other) && cur.value == p;
  }

  /** Unfolds `MovedUp` when the column is listed at `p > 1` and the flip finds `other` at `p - 1`. */
  lemma MovedUpFound(rows: seq<Column>, project: int, id: int, p: int, other: int)
    requires PositionOf(ProjectRows(rows, project), id) == Some(p)
    requires p > 1
    requires ColumnAt(ProjectRows(rows, project), p - 1) == Some(other)
    ensures MovedUp(rows, project, id) == Move(Swapped(rows, id, p - 1, Some(other), p), true)
  {
    var ps := ProjectRows(rows, project);
    var cur := PositionOf(ps, id);
    var target, found := cur.value - 1, ColumnAt(ps, cur.value - 1);
    assert MovedUp(rows, project, id).rows == Swapped(rows, id, target, found, cur.value);
    assert target == p - 1 && found == Some(other) && cur.value == p;
  }

  /** In a project whose positions are 1..N, every position of 1..N has its column. */
  lemma Neighbour(ps: seq<Column>, q: int) returns (j: int)
    requires Contiguous(ps) && 1 <= q <= |ps|
    ensures 0 <= j < |ps| && ps[j].position == q
    ensures DistinctPositions(ps)
  {
    assert HasPosition(ps, q);
    j :| 0 <= j < |ps| && ps[j].position == q;
  }

  /** With unique ids and distinct positions, the listing and its flip are exact. */
  lemma Listed(rows: seq<Column>, project: int, k: int, j: int)
    requires UniqueIds(rows) && DistinctPositions(ProjectRows(rows, project))
    requires 0 <= k < |ProjectRows(rows, project)| && 0 <= j < |ProjectRows(rows, project)|
    ensures var ps := ProjectRows(rows, project);
      PositionOf(ps, ps[k].id) == Some(ps[k].position) && ColumnAt(ps, ps[j].position) == Some(ps[j].id)
  {
    var ps := ProjectRows(rows, project);
    ProjectRowsUnique(rows, project);
    PositionOfListed(ps, k);
    ColumnAtListed(ps, j);
  }

  /** `moveDown` on a column at `p < N` of a project whose positions are 1..N trades
      positions `p` and `p + 1` in that project and returns true. */
  lemma MoveDownExchanges(rows: seq<Column>, project: int, k: int)
    requires UniqueIds(rows)
    requires Contiguous(ProjectRows(rows, project))
    requires 0 <= k < |ProjectRows(rows, project)|
    requires ProjectRows(rows, project)[k].position < |ProjectRows(rows, project)|
    ensures var ps := ProjectRows(rows, project);
      var m := MovedDown(rows, project, ps[k].id);
      m.moved && ExchangedIn(rows, m.rows, project, ps[k].position, ps[k].position + 1)
  {
    var ps := ProjectRows(rows, project);
    var p := ps[k].position;
    var j := Neighbour(ps, p + 1);
    Listed(rows, project, k, j);
    MovedDownFound(rows, project, ps[k].id, p, ps[j].id);
    SwappedExchanges(rows, project, k, j);
  }

  /** `moveUp` on a column at `p > 1` of a project whose positions are 1..N trades
      positions `p` and `p - 1` in that project and returns true. */
  lemma MoveUpExchanges(rows: seq<Column>, project: int, k: int)
    requires UniqueIds(rows)
    requires Contiguous(ProjectRows(rows, project))
    requires 0 <= k < |ProjectRows(rows, project)|
    requires ProjectRows(rows, project)[k].position > 1
    ensures var ps := ProjectRows(rows, project);
      var m := MovedUp(rows, project, ps[k].id);
      m.moved && ExchangedIn(rows, m.rows, project, ps[k].position, ps[k].position - 1)
  {
    var ps := ProjectRows(rows, project);
    var p := ps[k].position;
    var j := Neighbour(ps, p - 1);
    Listed(rows, project, k, j);
    MovedUpFound(rows, project, ps[k].id, p, ps[j].id);
    SwappedExchanges(rows, project, k, j);
  }

  lemma {:induction false} ProjectRowsUntouched(before: seq<Column>, after: seq<Column>, project: int, a: int, b: int, other: int)
    requires ExchangedIn(before, after, project, a, b) && other != project
    ensures ProjectRows(after, other) == ProjectRows(before, other)
  {
    if before != [] {
      assert ExchangedIn(before[1..], after[1..], project, a, b) by {
        forall i | 0 <= i < |before| - 1 ensures before[1..][i] == before[i + 1] && after[1..][i] == after[i + 1] { }
      }
      ProjectRowsUntouched(before[1..], after[1..], project, a, b, other);
      assert after[0].projectId == before[0].projectId;
      assert after[0].projectId == other ==> after[0] == before[0];
    }
  }

  lemma ExchangedKeepsIds(before: seq<Column>, after: seq<Column>, project: int, a: int, b: int)
    requires ExchangedIn(before, after, project, a, b) && UniqueIds(before)
    ensures UniqueIds(after)
  {
    assert forall i :: 0 <= i < |before| ==> after[i].id == before[i].id;
  }

  /** Every row of `ProjectRows(rows, project)` belongs to `project`. */
  lemma ProjectRowsOwn(rows: seq<Column>, project: int)
    ensures forall i :: 0 <= i < |ProjectRows(rows, project)| ==> ProjectRows(rows, project)[i].projectId == project
  {
    ProjectRowsMembers(rows, project);
    var ps := ProjectRows(rows, project);
    forall i | 0 <= i < |ps| ensures ps[i].projectId == project {
      assert ps[i] in ps;
    }
  }

  /** A successful exchange of two positions of 1..N leaves the project's positions
      exactly 1..N, the ids unique, and every other project as it was. */
  lemma ExchangeKeepsBoard(before: seq<Column>, after: seq<Column>, project: int, a: int, b: int)
    requires UniqueIds(before) && Contiguous(ProjectRows(before, project))
    requires 1 <= a <= |ProjectRows(before, project)| && 1 <= b <= |ProjectRows(before, project)|
    requires ExchangedIn(before, after, project, a, b)
    ensures UniqueIds(after)
    ensures |ProjectRows(after, project)| == |ProjectRows(before, project)|
    ensures Contiguous(ProjectRows(after, project))
    ensures forall other :: other != project ==> ProjectRows(after, other) == ProjectRows(before, other)
  {
    ExchangedKeepsIds(before, after, project, a, b);
    ProjectRowsExchanged(before, after, project, a, b);
    ProjectRowsOwn(before, project);
    ContiguousExchanged(ProjectRows(before, project), ProjectRows(after, project), project, a, b);
    forall other | other != project ensures ProjectRows(after, other) == ProjectRows(before, other) {
      ProjectRowsUntouched(before, after, project, a, b, other);
    }
  }

  /** `moveDown` keeps the invariant: positions stay exactly 1..N. */
  lemma MoveDownKeepsContiguous(rows: seq<Column>, project: int, k: int)
    requires UniqueIds(rows)
    requires Contiguous(ProjectRows(rows, project))
    requires 0 <= k < |ProjectRows(rows, project)|
    ensures var m := MovedDown(rows, project, ProjectRows(rows, project)[k].id);
      && UniqueIds(m.rows)
      && |ProjectRows(m.rows, project)| == |ProjectRows(rows, project)|
      && Contiguous(ProjectRows(m.rows, project))
      && forall other :: other != project ==> ProjectRows(m.rows, other) == ProjectRows(rows, other)
  {
    var ps := ProjectRows(rows, project);
    var p := ps[k].position;
    if p < |ps| {
      MoveDownExchanges(rows, project, k);
      ExchangeKeepsBoard(rows, MovedDown(rows, project, ps[k].id).rows, project, p, p + 1);
    } else {
      ProjectRowsUnique(rows, project);
      MoveDownResult(rows, project, ps[k].id);
      assert !MovedDown(rows, project, ps[k].id).moved;
    }
  }

  /** `moveUp` keeps the invariant: positions stay exactly 1..N. */
  lemma MoveUpKeepsContiguous(rows: seq<Column>, project: int, k: int)
    requires UniqueIds(rows)
    requires Contiguous(ProjectRows(rows, project))
    requires 0 <= k < |ProjectRows(rows, project)|
    ensures var m := MovedUp(rows, project, ProjectRows(rows, project)[k].id);
      && UniqueIds(m.rows)
      && |ProjectRows(m.rows, project)| == |ProjectRows(rows, project)|
      && Contiguous(ProjectRows(m.rows, project))
      && forall other :: other != project ==> ProjectRows(m.rows, other) == ProjectRows(rows, other)
  {
    var ps := ProjectRows(rows, project);
    var p := ps[k].position;
    if p > 1 {
      MoveUpExchanges(rows, project, k);
      ExchangeKeepsBoard(rows, MovedUp(rows, project, ps[k].id).rows, project, p, p - 1);
    } else {
      ProjectRowsUnique(rows, project);
      MoveUpResult(rows, project, ps[k].id);
      assert !MovedUp(rows, project, ps[k].id).moved;
    }
  }

  /** `moveDown` returns true exactly when the column is in the project at a position
      below the column count; otherwise it changes nothing. */
  lemma MoveDownResult(rows: seq<Column>, project: int, id: int)
    requires UniqueIds(rows)
    ensures var ps := ProjectRows(rows, project);
      MovedDown(rows, project, id).moved <==> exists k :: 0 <= k < |ps| && ps[k].id == id && ps[k].position < |ps|
  {
    var ps := ProjectRows(rows, project);
    ProjectRowsUnique(rows, project);
    var cur := PositionOf(ps, id);
    assert MovedDown(rows, project, id).moved == (cur.Some? && cur.value < |ps|);
    if exists k :: 0 <= k < |ps| && ps[k].id == id && ps[k].position < |ps| {
      var k :| 0 <= k < |ps| && ps[k].id == id && ps[k].position < |ps|;
      PositionOfListed(ps, k);
    } else if cur.Some? {
      var i :| 0 <= i < |ps| && ps[i].id == id && ps[i].position == cur.value;
      assert !(ps[i].position < |ps|);
    }
  }

  /** `moveUp` returns true exactly when the column is in the project at a position
      above 1; otherwise it changes nothing. */
  lemma MoveUpResult(rows: seq<Column>, project: int, id: int)
    requires UniqueIds(rows)
    ensures var ps := ProjectRows(rows, project);
      MovedUp(rows, project, id).moved <==> exists k :: 0 <= k < |ps| && ps[k].id == id && ps[k].position > 1
  {
    var ps := ProjectRows(rows, project);
    ProjectRowsUnique(rows, project);
    var cur := PositionOf(ps, id);
    assert MovedUp(rows, project, id).moved == (cur.Some? && cur.value > 1);
    if exists k :: 0 <= k < |ps| && ps[k].id == id && ps[k].position > 1 {
      var k :| 0 <= k < |ps| && ps[k].id == id && ps[k].position > 1;
      PositionOfListed(ps, k);
    } else if cur.Some? {
      var i :| 0 <= i < |ps| && ps[i].id == id && ps[i].position == cur.value;
      assert !(ps[i].position > 1);
    }
  }

  /** Trading the same two positions twice gives the table back. */
  lemma ExchangeTwice(a: seq<Column>, b: seq<Column>, c: seq<Column>, project: int, x: int, y: int)
    requires ExchangedIn(a, b, project, x, y) && ExchangedIn(b, c, project, y, x)
    ensures c == a
  {
    assert forall i :: 0 <= i < |a| ==> c[i] == a[i];
  }

  /** `moveUp` followed by `moveDown` on the same column restores every position. */
  lemma MoveUpThenDownRestores(rows: seq<Column>, project: int, k: int)
    requires UniqueIds(rows)
    requires Contiguous(ProjectRows(rows, project))
    requires 0 <= k < |ProjectRows(rows, project)|
    requires ProjectRows(rows, project)[k].position > 1
    ensures var id := ProjectRows(rows, project)[k].id;
      var up := MovedUp(rows, project, id);
      up.moved && MovedDown(up.rows, project, id) == Move(rows, true)
  {
    var ps := ProjectRows(rows, project);
    var id, p := ps[k].id, ps[k].position;
    MoveUpExchanges(rows, project, k);
    var up := MovedUp(rows, project, id);
    ExchangeKeepsBoard(rows, up.rows, project, p, p - 1);
    ProjectRowsExchanged(rows, up.rows, project, p, p - 1);
    var qs := ProjectRows(up.rows, project);
    ProjectRowsOwn(rows, project);
    assert qs[k].id == id && qs[k].position == p - 1;
    MoveDownExchanges(up.rows, project, k);
    ExchangeTwice(rows, up.rows, MovedDown(up.rows, project, id).rows, project, p, p - 1);
  }

  /** `moveDown` followed by `moveUp` on the same column restores every position. */
  lemma MoveDownThenUpRestores(rows: seq<Column>, project: int, k: int)
    requires UniqueIds(rows)
    requires Contiguous(ProjectRows(rows, project))
    requires 0 <= k < |ProjectRows(rows, project)|
    requires ProjectRows(rows, project)[k].position < |ProjectRows(rows, project)|
    ensures var id := ProjectRows(rows, project)[k].id;
      var down := MovedDown(rows, project, id);
      down.moved && MovedUp(down.rows, project, id) == Move(rows, true)
  {
    var ps := ProjectRows(rows, project);
    var id, p := ps[k].id, ps[k].position;
    MoveDownExchanges(rows, project, k);
    var down := MovedDown(rows, project, id);
    ExchangeKeepsBoard(rows, down.rows, project, p, p + 1);
    ProjectRowsExchanged(rows, down.rows, project, p, p + 1);
    var qs := ProjectRows(down.rows, project);
    ProjectRowsOwn(rows, project);
    assert qs[k].id == id && qs[k].position == p + 1;
    MoveUpExchanges(down.rows, project, k);
    ExchangeTwice(rows, down.rows, MovedUp(down.rows, project, id).rows, project, p, p + 1);
  }

  // ---------------------------------------------------------------------------
  // After `removeColumn`: positions have a gap, and the count-bounded, flip-based
  // neighbour lookup no longer matches the displayed order.

  /** The project's rows after deleting its column `ps[r]`: one fewer, unique ids,
      and every other column kept with its position. */
  lemma RemovedFromProject(rows: seq<Column>, project: int, r: int)
    requires UniqueIds(rows)
    requires 0 <= r < |ProjectRows(rows, project)|
    ensures var ps := ProjectRows(rows, project);
      var after := Without(rows, ps[r].id);
      && UniqueIds(after)
      && ProjectRows(after, project) == Without(ps, ps[r].id)
      && |ProjectRows(after, project)| == |ps| - 1
      && forall t :: 0 <= t < |ps| && t != r ==> ps[t] in ProjectRows(after, project)
  {
    var ps := ProjectRows(rows, project);
    ProjectRowsUnique(rows, project);
    WithoutUnique(rows, ps[r].id);
    WithoutUnique(ps, ps[r].id);
    ProjectRowsWithout(rows, project, ps[r].id);
    WithoutMembers(ps, ps[r].id);
  }

  /** In a project whose positions were 1..N (N >= 3), once a column at a position
      below N - 1 is removed, `moveDown` refuses the column at N - 1 although the
      column at N still comes after it: the bound is the new count, N - 1. */
  lemma MoveDownRefusedAfterRemoval(rows: seq<Column>, project: int, r: int, k: int)
    requires UniqueIds(rows)
    requires Contiguous(ProjectRows(rows, project))
    requires 0 <= r < |ProjectRows(rows, project)| && 0 <= k < |ProjectRows(rows, project)|
    requires ProjectRows(rows, project)[r].position < |ProjectRows(rows, project)| - 1
    requires ProjectRows(rows, project)[k].position == |ProjectRows(rows, project)| - 1
    ensures var ps := ProjectRows(rows, project);
      var after := Without(rows, ps[r].id);
      && !MovedDown(after, project, ps[k].id).moved
      && exists c :: c in ProjectRows(after, project) && c.position > ps[k].position
  {
    var ps := ProjectRows(rows, project);
    var after := Without(rows, ps[r].id);
    RemovedFromProject(rows, project, r);
    var qs := ProjectRows(after, project);
    var last := Neighbour(ps, |ps|);
    assert ps[last] in qs;
    MoveDownResult(after, project, ps[k].id);
    ProjectRowsUnique(after, project);
    assert ps[k] in qs;
    forall t | 0 <= t < |qs| && qs[t].id == ps[k].id ensures qs[t].position >= |qs| {
      var u :| 0 <= u < |qs| && qs[u] == ps[k];
    }
  }

  /** In a project whose positions are distinct (1..N, say), once the column at `g >= 1` is removed,
      `moveUp` on the column at `g + 1` returns true, gives it position `g` and moves
      no other column (the flip finds nobody at `g`): the displayed order is unchanged. */
  lemma MoveUpIntoGap(rows: seq<Column>, project: int, r: int, k: int)
    requires UniqueIds(rows)
    requires DistinctPositions(ProjectRows(rows, project))
    requires 0 <= r < |ProjectRows(rows, project)| && 0 <= k < |ProjectRows(rows, project)|
    requires ProjectRows(rows, project)[r].position >= 1
    requires ProjectRows(rows, project)[k].position == ProjectRows(rows, project)[r].position + 1
    ensures var ps := ProjectRows(rows, project);
      var after := Without(rows, ps[r].id);
      MovedUp(after, project, ps[k].id) == Move(WithPosition(after, ps[k].id, ps[r].position), true)
  {
    var ps := ProjectRows(rows, project);
    var g := ps[r].position;
    var after := Without(rows, ps[r].id);
    GapListing(rows, project, r, k);
    MovedUpMissed(after, project, ps[k].id, g + 1);
  }

  /** After the removal, the listing still has the column `ps[k]` at its position and
      the flip has nobody at the removed column's position. */
  lemma GapListing(rows: seq<Column>, project: int, r: int, k: int)
    requires UniqueIds(rows)
    requires DistinctPositions(ProjectRows(rows, project))
    requires 0 <= r < |ProjectRows(rows, project)| && 0 <= k < |ProjectRows(rows, project)| && r != k
    ensures var ps := ProjectRows(rows, project);
      var qs := ProjectRows(Without(rows, ps[r].id), project);
      PositionOf(qs, ps[k].id) == Some(ps[k].position) && ColumnAt(qs, ps[r].position) == None
  {
    var ps := ProjectRows(rows, project);
    var after := Without(rows, ps[r].id);
    RemovedFromProject(rows, project, r);
    var qs := ProjectRows(after, project);
    WithoutMembers(ps, ps[r].id);
    ProjectRowsUnique(after, project);
    assert ps[k] in qs;
    var u :| 0 <= u < |qs| && qs[u] == ps[k];
    PositionOfListed(qs, u);
    forall t | 0 <= t < |qs| ensures qs[t].position != ps[r].position {
      assert qs[t] in Without(ps, ps[r].id);
      NotAtRemovedPosition(ps, r, qs[t]);
    }
  }

  lemma NotAtRemovedPosition(ps: seq<Column>, r: int, c: Column)
    requires DistinctPositions(ps) && 0 <= r < |ps|
    requires c in ps && c.id != ps[r].id
    ensures c.position != ps[r].position
  {
    var v :| 0 <= v < |ps| && ps[v] == c;
    assert v != r;
  }

  /** Unfolds `MovedUp` when the column is listed at `p > 1` and the flip finds nobody at `p - 1`. */
  lemma MovedUpMissed(rows: seq<Column>, project: int, id: int, p: int)
    requires PositionOf(ProjectRows(rows, project), id) == Some(p)
    requires p > 1
    requires ColumnAt(ProjectRows(rows, project), p - 1) == None
    ensures MovedUp(rows, project, id) == Move(WithPosition(rows, id, p - 1), true)
  {
    var sw := Swapped(rows, id, p - 1, None, p);
    assert MovedUp(rows, project, id) == Move(sw, true);
    assert forall i :: 0 <= i < |rows| ==> sw[i] == WithPosition(rows, id, p - 1)[i];
  }

  /** Unfolds `MovedDown` when the column is listed at `p < count` and the flip finds nobody at `p + 1`. */
  lemma MovedDownMissed(rows: seq<Column>, project: int, id: int, p: int)
    requires PositionOf(ProjectRows(rows, project), id) == Some(p)
    requires p < |ProjectRows(rows, project)|
    requires ColumnAt(ProjectRows(rows, project), p + 1) == None
    ensures MovedDown(rows, project, id) == Move(WithPosition(rows, id, p + 1), true)
  {
    var sw := Swapped(rows, id, p + 1, None, p);
    assert MovedDown(rows, project, id) == Move(sw, true);
    assert forall i :: 0 <= i < |rows| ==> sw[i] == WithPosition(rows, id, p + 1)[i];
  }

  // ---------------------------------------------------------------------------
  // Moves in a project whose positions have gaps

  /** Updating one id's position and then listing a project is listing it and then
      updating that id's position. */
  lemma {:induction false} ProjectRowsWithPosition(rows: seq<Column>, project: int, id: int, q: int)
    ensures ProjectRows(WithPosition(rows, id, q), project) == WithPosition(ProjectRows(rows, project), id, q)
  {
    if rows != [] {
      var w := WithPosition(rows, id, q);
      assert w[1..] == WithPosition(rows[1..], id, q);
      ProjectRowsWithPosition(rows[1..], project, id, q);
      var tail := ProjectRows(rows[1..], project);
      assert w[0].projectId == rows[0].projectId;
      if rows[0].projectId == project {
        assert ProjectRows(rows, project) == [rows[0]] + tail;
        assert ProjectRows(w, project) == [w[0]] + ProjectRows(w[1..], project);
        assert WithPosition([rows[0]] + tail, id, q) == [w[0]] + WithPosition(tail, id, q);
      } else {
        assert ProjectRows(rows, project) == tail;
        assert ProjectRows(w, project) == ProjectRows(w[1..], project);
      }
    }
  }

  /** Trading two positions keeps distinct positions distinct. */
  lemma ExchangedDistinct(ps: seq<Column>, qs: seq<Column>, project: int, a: int, b: int)
    requires DistinctPositions(ps)
    requires forall i :: 0 <= i < |ps| ==> ps[i].projectId == project
    requires ExchangedIn(ps, qs, project, a, b)
    ensures DistinctPositions(qs)
  {
    forall i, j | 0 <= i < j < |qs| ensures qs[i].position != qs[j].position {
      assert qs[i].position == Exchange(ps[i].position, a, b);
      assert qs[j].position == Exchange(ps[j].position, a, b);
    }
  }

  /** Giving one column a position no column holds keeps the positions distinct. */
  lemma RepositionedDistinct(ps: seq<Column>, id: int, q: int)
    requires UniqueIds(ps) && DistinctPositions(ps) && !HasPosition(ps, q)
    ensures DistinctPositions(WithPosition(ps, id, q))
  {
    var qs := WithPosition(ps, id, q);
    forall i, j | 0 <= i < j < |qs| ensures qs[i].position != qs[j].position {
      if ps[i].id == id {
        assert qs[j].position == ps[j].position != q;
      } else if ps[j].id == id {
        assert qs[i].position == ps[i].position != q;
      }
    }
  }

  /** The two updates, when the flip found the neighbour `other` at `q`, keep ids unique
      and the project's positions distinct. */
  lemma TradeKeepsDistinct(rows: seq<Column>, project: int, id: int, p: int, q: int, other: int)
    requires UniqueIds(rows) && DistinctPositions(ProjectRows(rows, project))
    requires PositionOf(ProjectRows(rows, project), id) == Some(p)
    requires ColumnAt(ProjectRows(rows, project), q) == Some(other) && p != q
    ensures var r := Swapped(rows, id, q, Some(other), p);
      && UniqueIds(r)
      && |ProjectRows(r, project)| == |ProjectRows(rows, project)|
      && DistinctPositions(ProjectRows(r, project))
  {
    var ps := ProjectRows(rows, project);
    var k :| 0 <= k < |ps| && ps[k].id == id && ps[k].position == p;
    var j :| 0 <= j < |ps| && ps[j].position == q && ps[j].id == other;
    var r := Swapped(rows, id, q, Some(other), p);
    SwappedExchanges(rows, project, k, j);
    ProjectRowsExchanged(rows, r, project, p, q);
    ProjectRowsOwn(rows, project);
    ExchangedDistinct(ps, ProjectRows(r, project), project, p, q);
    ExchangedKeepsIds(rows, r, project, p, q);
  }

  /** The first update alone, when the flip found nobody at `q`, keeps ids unique and the
      project's positions distinct: the column moves into the gap. */
  lemma GapKeepsDistinct(rows: seq<Column>, project: int, id: int, q: int)
    requires UniqueIds(rows) && DistinctPositions(ProjectRows(rows, project))
    requires !HasPosition(ProjectRows(rows, project), q)
    ensures var r := WithPosition(rows, id, q);
      && UniqueIds(r)
      && |ProjectRows(r, project)| == |ProjectRows(rows, project)|
      && DistinctPositions(ProjectRows(r, project))
  {
    var r := WithPosition(rows, id, q);
    ProjectRowsWithPosition(rows, project, id, q);
    ProjectRowsUnique(rows, project);
    RepositionedDistinct(ProjectRows(rows, project), id, q);
    assert forall i :: 0 <= i < |rows| ==> r[i].id == rows[i].id;
  }

  /** On any project whose positions are distinct, gaps allowed, `moveDown` keeps them
      distinct and the ids unique, whether or not the flip finds a neighbour. */
  lemma MoveDownKeepsDistinct(rows: seq<Column>, project: int, id: int)
    requires UniqueIds(rows) && DistinctPositions(ProjectRows(rows, project))
    ensures var m := MovedDown(rows, project, id);
      && UniqueIds(m.rows)
      && |ProjectRows(m.rows, project)| == |ProjectRows(rows, project)|
      && DistinctPositions(ProjectRows(m.rows, project))
  {
    var ps := ProjectRows(rows, project);
    var cur := PositionOf(ps, id);
    assert MovedDown(rows, project, id).moved == (cur.Some? && cur.value < |ps|);
    if cur.Some? && cur.value < |ps| {
      var p := cur.value;
      match ColumnAt(ps, p + 1)
      case Some(other) =>
        MovedDownFound(rows, project, id, p, other);
        TradeKeepsDistinct(rows, project, id, p, p + 1, other);
      case None =>
        MovedDownMissed(rows, project, id, p);
        GapKeepsDistinct(rows, project, id, p + 1);
    }
  }

  /** On any project whose positions are distinct, gaps allowed, `moveUp` keeps them
      distinct and the ids unique, whether or not the flip finds a neighbour. */
  lemma MoveUpKeepsDistinct(rows: seq<Column>, project: int, id: int)
    requires UniqueIds(rows) && DistinctPositions(ProjectRows(rows, project))
    ensures var m := MovedUp(rows, project, id);
      && UniqueIds(m.rows)
      && |ProjectRows(m.rows, project)| == |ProjectRows(rows, project)|
      && DistinctPositions(ProjectRows(m.rows, project))
  {
    var ps := ProjectRows(rows, project);
    var cur := PositionOf(ps, id);
    assert MovedUp(rows, project, id).moved == (cur.Some? && cur.value > 1);
    if cur.Some? && cur.value > 1 {
      var p := cur.value;
      match ColumnAt(ps, p - 1)
      case Some(other) =>
        MovedUpFound(rows, project, id, p, other);
        TradeKeepsDistinct(rows, project, id, p, p - 1, other);
      case None =>
        MovedUpMissed(rows, project, id, p);
        GapKeepsDistinct(rows, project, id, p - 1);
    }
  }
}
