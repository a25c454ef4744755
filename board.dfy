/** The board model: the `columns` table as an object whose methods insert, update,
    reorder and delete rows, and the board view built from it. */
module BoardModel {
  import opened Columns
  import opened Moves
  import opened PhpInt
  import Validation

  // ---------------------------------------------------------------------------
  // Save failures during `create`

  /** The index of the first save that fails among the first `n`, or `n` when none does;
      `failing` holds the indices of the saves the database refuses. */
  function FirstFailure(failing: set<int>, n: nat): (k: nat)
    ensures k <= n
    ensures forall j :: 0 <= j < k ==> j !in failing
    ensures k < n ==> k in failing
  {
    if n == 0 then 0
    else
      var k := FirstFailure(failing, n - 1);
      if k < n - 1 then k else if n - 1 in failing then n - 1 else n
  }

  // ---------------------------------------------------------------------------
  // `update`

  /** `(int) $values['task_limit']` for one column: the cast text, or 0 (the cast of
      `null`) when no limit was submitted for it. */
  function LimitOf(limits: map<int, string>, id: int): (n: int)
    ensures id !in limits ==> n == 0
    ensures id in limits && AllDigits(limits[id]) ==> n == DecimalValue(limits[id])
  {
    if id in limits then
      if AllDigits(limits[id]) then DigitsCast(limits[id]); IntCast(limits[id])
      else IntCast(limits[id])
    else 0
  }

  /** The table once `update` has written the columns whose id is in `done`: a column
      with a submitted title gets that title and its cast limit. A column with only a
      limit is written with a `null` title, which the table's `NOT NULL` title refuses,
      so it keeps its row. */
  function Edited(rows: seq<Column>, titles: map<int, string>, limits: map<int, string>, done: set<int>): (r: seq<Column>)
    ensures |r| == |rows|
  {
    seq(|rows|, i requires 0 <= i < |rows| =>
      var id := rows[i].id;
      if id in done && id in titles then rows[i].(title := titles[id], taskLimit := LimitOf(limits, id))
      else rows[i])
  }

  /** Same ids, projects and positions, row by row. */
  predicate SamePlaces(a: seq<Column>, b: seq<Column>)
  {
    && |a| == |b|
    && forall i :: 0 <= i < |a| ==>
         a[i].id == b[i].id && a[i].projectId == b[i].projectId && a[i].position == b[i].position
  }

  lemma {:induction false} ProjectRowsSamePlaces(a: seq<Column>, b: seq<Column>, project: int)
    requires SamePlaces(a, b)
    ensures SamePlaces(ProjectRows(a, project), ProjectRows(b, project))
  {
    if a != [] {
      assert SamePlaces(a[1..], b[1..]) by {
        forall i | 0 <= i < |a| - 1 ensures a[1..][i] == a[i + 1] && b[1..][i] == b[i + 1] { }
      }
      ProjectRowsSamePlaces(a[1..], b[1..], project);
    }
  }

  lemma SamePlacesContiguous(ps: seq<Column>, qs: seq<Column>)
    requires SamePlaces(ps, qs) && Contiguous(ps)
    ensures Contiguous(qs)
  {
    forall p | 1 <= p <= |qs| ensures HasPosition(qs, p) {
      assert HasPosition(ps, p);
      var i :| 0 <= i < |ps| && ps[i].position == p;
      assert qs[i].position == p;
    }
  }

  /** `update` never touches ids, projects or positions: the ids stay unique and every
      project whose positions were 1..N still has them. A column with a submitted title
      gets it, with the cast limit; every other row is unchanged. */
  lemma UpdateKeepsBoard(rows: seq<Column>, titles: map<int, string>, limits: map<int, string>)
    requires UniqueIds(rows)
    ensures var after := Edited(rows, titles, limits, titles.Keys + limits.Keys);
      && UniqueIds(after)
      && (forall p :: Contiguous(ProjectRows(rows, p)) ==> Contiguous(ProjectRows(after, p)))
      && (forall p :: LastPosition(after, p) == LastPosition(rows, p))
      && forall i :: 0 <= i < |rows| ==>
           if rows[i].id in titles
           then after[i] == rows[i].(title := titles[rows[i].id], taskLimit := LimitOf(limits, rows[i].id))
           else after[i] == rows[i]
  {
    var after := Edited(rows, titles, limits, titles.Keys + limits.Keys);
    assert SamePlaces(rows, after);
    forall p | Contiguous(ProjectRows(rows, p)) ensures Contiguous(ProjectRows(after, p)) {
      ProjectRowsSamePlaces(rows, after, p);
      SamePlacesContiguous(ProjectRows(rows, p), ProjectRows(after, p));
    }
    forall p ensures LastPosition(after, p) == LastPosition(rows, p) {
      ProjectRowsSamePlaces(rows, after, p);
      SamePlacesLast(ProjectRows(rows, p), ProjectRows(after, p));
    }
  }

  lemma SamePlacesLast(ps: seq<Column>, qs: seq<Column>)
    requires SamePlaces(ps, qs)
    ensures ps != [] ==> MaxPosition(ps) == MaxPosition(qs)
  {
    if ps != [] {
      var m := MaxPosition(ps);
      var i :| 0 <= i < |ps| && ps[i].position == m;
      var n := MaxPosition(qs);
      var j :| 0 <= j < |qs| && qs[j].position == n;
      assert qs[i].position == m && ps[j].position == n;
    }
  }

  /** After a form that `validateModification` accepted for the listed columns, every
      listed column with a submitted title holds a title of 1 to 50 characters and a task
      limit that is 0 (no limit: the field was left empty) or positive, and positive
      whenever a limit was filled in. */
  lemma ValidatedUpdate(rows: seq<Column>, columns: seq<int>, titles: map<int, string>, limits: map<int, string>)
    requires Validation.ValidateModification(columns, titles, limits).valid
    ensures var after := Edited(rows, titles, limits, titles.Keys + limits.Keys);
      forall i :: 0 <= i < |rows| && rows[i].id in columns && rows[i].id in titles ==>
        && 1 <= |after[i].title| <= Validation.MaxTitleLength
        && after[i].taskLimit >= 0
        && (Validation.Filled(Validation.Lookup(limits, rows[i].id)) ==> after[i].taskLimit > 0)
  {
    forall i | 0 <= i < |rows| && rows[i].id in columns && rows[i].id in titles
      ensures var id := rows[i].id;
        && 1 <= |titles[id]| <= Validation.MaxTitleLength
        && LimitOf(limits, id) >= 0
        && (Validation.Filled(Validation.Lookup(limits, id)) ==> LimitOf(limits, id) > 0)
    {
      var id := rows[i].id;
      var k :| 0 <= k < |columns| && columns[k] == id;
      assert Validation.ColumnValid(columns[k], titles, limits);
      if id in limits {
        if limits[id] != "" {
          Validation.AcceptedLimitIsPositive(limits[id]);
        } else {
          assert IntCast(limits[id]) == 0;
        }
      }
    }
  }

  // ---------------------------------------------------------------------------
  // `getBoard`

  /** A swimlane of the project, as the swimlane model returns it. */
  datatype Swimlane = Swimlane(id: int, name: string)

  /** One column of a swimlane on the board: the column row, its tasks and their count. */
  datatype BoardColumn<T> = BoardColumn(column: Column, tasks: seq<T>, nbTasks: int)

  /** One swimlane on the board, with its columns and their count. */
  datatype Lane<T> = Lane(swimlane: Swimlane, columns: seq<BoardColumn<T>>, nbColumns: int)

  /** `lane` shows swimlane `s` over the columns `cs`, each with the tasks the task finder
      gives for that column and swimlane, and the counts of both. */
  ghost predicate Shows<T>(lane: Lane<T>, s: Swimlane, cs: seq<Column>, project: int, tasksOf: (int, int, int) -> seq<T>)
  {
    && lane.swimlane == s
    && lane.nbColumns == |cs|
    && |lane.columns| == |cs|
    && forall j :: 0 <= j < |cs| ==>
         && lane.columns[j].column == cs[j]
         && lane.columns[j].tasks == tasksOf(project, cs[j].id, s.id)
         && lane.columns[j].nbTasks == |lane.columns[j].tasks|
  }

  // ---------------------------------------------------------------------------
  // The table

  class ColumnTable {
    /** The rows of the `columns` table. */
    var rows: seq<Column>
    /** The id the next inserted row receives (the table's auto-increment). */
    var nextId: int

    predicate Valid()
      reads this
    {
      && UniqueIds(rows)
      && 1 <= nextId
      && forall i :: 0 <= i < |rows| ==> rows[i].id < nextId
    }

    constructor ()
      ensures Valid() && rows == [] && nextId == 1
    {
      rows := [];
      nextId := 1;
    }

    /** Inserts one row with the next id. */
    method Save(c: Column) returns (id: int)
      requires Valid()
      modifies this
      ensures Valid()
      ensures id == old(nextId) && nextId == old(nextId) + 1
      ensures rows == old(rows) + [c.(id := id)]
    {
      id := nextId;
      rows := rows + [c.(id := id)];
      nextId := nextId + 1;
    }

    /** `create(project, columns)`: saves one row per template, numbered from 1 in input
        order, and returns false at the first save the database refuses, keeping the rows
        saved before it. */
    method Create(project: int, templates: seq<Template>, failing: set<int>) returns (ok: bool)
      requires Valid()
      modifies this
      ensures Valid()
      ensures var k := FirstFailure(failing, |templates|);
        && rows == old(rows) + CreatedRows(project, templates[..k], old(nextId))
        && nextId == old(nextId) + k
        && ok == (k == |templates|)
    {
      var position := 0;
      var i := 0;
      while i < |templates|
        invariant 0 <= i <= |templates|
        invariant position == i
        invariant forall j :: 0 <= j < i ==> j !in failing
        invariant rows == old(rows) + CreatedRows(project, templates[..i], old(nextId))
        invariant nextId == old(nextId) + i
        invariant Valid()
      {
        position := position + 1;
        var values := Column(0, project, templates[i].title, position, templates[i].taskLimit);
        if i in failing {
          assert FirstFailure(failing, |templates|) == i;
          return false;
        }
        var id := Save(values);
        assert CreatedRows(project, templates[..i + 1], old(nextId))
          == CreatedRows(project, templates[..i], old(nextId)) + [values.(id := id)];
        i := i + 1;
      }
      assert templates[..i] == templates;
      ok := true;
    }

    /** `duplicate(from, to)`: creates in project `to` the titles and task limits of
        project `from`'s columns, read in ascending position order. */
    method Duplicate(from: int, to: int, failing: set<int>) returns (ok: bool)
      requires Valid()
      modifies this
      ensures Valid()
      ensures var src := TemplatesOf(ProjectColumns(old(rows), from));
        var k := FirstFailure(failing, |src|);
        && rows == old(rows) + CreatedRows(to, src[..k], old(nextId))
        && nextId == old(nextId) + k
        && ok == (k == |src|)
    {
      var columns := TemplatesOf(ProjectColumns(rows, from));
      ok := Create(to, columns, failing);
    }

    /** `addColumn(project, title, limit)`: saves the column after the project's last
        position and returns its id, or nothing (`false`) when the save is refused. */
    method AddColumn(project: int, title: string, limit: int, saveOk: bool) returns (r: Option<int>)
      requires Valid()
      modifies this
      ensures Valid()
      ensures saveOk ==>
        && r == Some(old(nextId))
        && nextId == old(nextId) + 1
        && rows == old(rows) + [Column(old(nextId), project, title, LastPosition(old(rows), project) + 1, limit)]
      ensures !saveOk ==> r == None && rows == old(rows) && nextId == old(nextId)
    {
      var values := Column(0, project, title, LastPosition(rows, project) + 1, limit);
      if !saveOk {
        return None;
      }
      var id := Save(values);
      r := Some(id);
    }

    /** `updateColumn(id, title, limit)`: writes the title and task limit of the row `id`. */
    method UpdateColumn(id: int, title: string, limit: int) returns (ok: bool)
      requires Valid()
      modifies this
      ensures Valid() && ok
      ensures rows == WithFields(old(rows), id, title, limit) && nextId == old(nextId)
    {
      rows := WithFields(rows, id, title, limit);
      ok := true;
    }

    /** `update(values)`: writes, for every column id in the submitted `title` or
        `task_limit` fields, its title and its `(int)`-cast limit; returns true whatever
        the writes did. */
    method Update(titles: map<int, string>, limits: map<int, string>) returns (ok: bool)
      requires Valid()
      modifies this
      ensures Valid() && ok
      ensures rows == Edited(old(rows), titles, limits, titles.Keys + limits.Keys)
      ensures nextId == old(nextId)
    {
      var todo := titles.Keys + limits.Keys;
      ghost var done: set<int> := {};
      while todo != {}
        invariant Valid() && nextId == old(nextId)
        invariant done + todo == titles.Keys + limits.Keys
        invariant rows == Edited(old(rows), titles, limits, done)
        decreases todo
      {
        NoMemberEmpty(todo);
        var id :| id in todo;
        if id in titles {
          var _ := UpdateColumn(id, titles[id], LimitOf(limits, id));
        }
        todo := todo - {id};
        done := done + {id};
      }
      ok := true;
    }

    /** `moveDown(project, id)`. */
    method MoveDown(project: int, id: int) returns (moved: bool)
      requires Valid()
      modifies this
      ensures Valid() && nextId == old(nextId)
      ensures rows == MovedDown(old(rows), project, id).rows
      ensures moved == MovedDown(old(rows), project, id).moved
    {
      var columns := ProjectRows(rows, project);
      var current := PositionOf(columns, id);
      if current.Some? && current.value < |columns| {
        var position := current.value + 1;
        var other := ColumnAt(columns, position);
        TwoUpdates(rows, id, position, other, current.value);
        rows := WithPosition(rows, id, position);
        if other.Some? {
          rows := WithPosition(rows, other.value, current.value);
        }
        moved := true;
      } else {
        moved := false;
      }
    }

    /** `moveUp(project, id)`. */
    method MoveUp(project: int, id: int) returns (moved: bool)
      requires Valid()
      modifies this
      ensures Valid() && nextId == old(nextId)
      ensures rows == MovedUp(old(rows), project, id).rows
      ensures moved == MovedUp(old(rows), project, id).moved
    {
      var columns := ProjectRows(rows, project);
      var current := PositionOf(columns, id);
      if current.Some? && current.value > 1 {
        var position := current.value - 1;
        var other := ColumnAt(columns, position);
        TwoUpdates(rows, id, position, other, current.value);
        rows := WithPosition(rows, id, position);
        if other.Some? {
          rows := WithPosition(rows, other.value, current.value);
        }
        moved := true;
      } else {
        moved := false;
      }
    }

    /** `removeColumn(id)`: deletes the row `id`; the other positions are left as they are. */
    method RemoveColumn(id: int) returns (ok: bool)
      requires Valid()
      modifies this
      ensures Valid() && ok
      ensures rows == Without(old(rows), id) && nextId == old(nextId)
    {
      WithoutUnique(rows, id);
      WithoutMembers(rows, id);
      rows := Without(rows, id);
      ok := true;
    }

    /** `getBoard(project)`: every swimlane, in order, with all the project's columns in
        ascending position order, each holding the tasks of that column and swimlane. */
    method GetBoard<T>(project: int, swimlanes: seq<Swimlane>, tasksOf: (int, int, int) -> seq<T>)
      returns (board: seq<Lane<T>>)
      ensures |board| == |swimlanes|
      ensures forall i :: 0 <= i < |board| ==>
        Shows(board[i], swimlanes[i], ProjectColumns(rows, project), project, tasksOf)
    {
      var columns := ProjectColumns(rows, project);
      var nbColumns := |columns|;
      board := [];
      var i := 0;
      while i < |swimlanes|
        invariant 0 <= i <= |swimlanes| && |board| == i
        invariant forall l :: 0 <= l < i ==> Shows(board[l], swimlanes[l], columns, project, tasksOf)
      {
        var lane := LaneColumns(project, swimlanes[i], columns, tasksOf);
        board := board + [Lane(swimlanes[i], lane, nbColumns)];
        i := i + 1;
      }
    }
  }

  /** The inner loop of `getBoard`: the columns of one swimlane, each with the tasks the
      finder gives for that column and swimlane, and their count. */
  method LaneColumns<T>(project: int, s: Swimlane, columns: seq<Column>, tasksOf: (int, int, int) -> seq<T>)
    returns (lane: seq<BoardColumn<T>>)
    ensures Shows(Lane(s, lane, |columns|), s, columns, project, tasksOf)
  {
    lane := [];
    var j := 0;
    while j < |columns|
      invariant 0 <= j <= |columns| && |lane| == j
      invariant forall c :: 0 <= c < j ==>
        && lane[c].column == columns[c]
        && lane[c].tasks == tasksOf(project, columns[c].id, s.id)
        && lane[c].nbTasks == |lane[c].tasks|
    {
      var tasks := tasksOf(project, columns[j].id, s.id);
      lane := lane + [BoardColumn(columns[j], tasks, |tasks|)];
      j := j + 1;
    }
  }

  /** A set without members is empty (what lets `update` pick its next column id). */
  lemma NoMemberEmpty(s: set<int>)
    ensures (forall y :: y !in s) ==> s == {}
  {
    if forall y :: y !in s {
      assert s == {};
    }
  }

  /** The two `UPDATE`s of a move are the exchange `Swapped` describes. */
  lemma TwoUpdates(rows: seq<Column>, id: int, p: int, other: Option<int>, q: int)
    ensures other.Some? ==> WithPosition(WithPosition(rows, id, p), other.value, q) == Swapped(rows, id, p, other, q)
    ensures other.None? ==> WithPosition(rows, id, p) == Swapped(rows, id, p, other, q)
  {
  }
}
