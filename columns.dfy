/** The `columns` table of the board: one row per column of a project,
    and the pure reads the board model makes of it. */
module Columns {

  datatype Option<T> = None | Some(value: T)

  /** One row of the `columns` table. */
  datatype Column = Column(id: int, projectId: int, title: string, position: int, taskLimit: int)

  /** What `create` reads from each element of its input: a title and a task limit. */
  datatype Template = Template(title: string, taskLimit: int)

  /** Row ids are the table's primary key. */
  predicate UniqueIds(rows: seq<Column>)
  {
    forall i, j :: 0 <= i < j < |rows| ==> rows[i].id != rows[j].id
  }

  /** The rows of one project (`eq('project_id', project)`), in table order. */
  function ProjectRows(rows: seq<Column>, project: int): (ps: seq<Column>)
    ensures |ps| <= |rows|
  {
    if rows == [] then []
    else (if rows[0].projectId == project then [rows[0]] else []) + ProjectRows(rows[1..], project)
  }

  /** The project's rows are exactly the table's rows that belong to it. */
  lemma {:induction false} ProjectRowsMembers(rows: seq<Column>, project: int)
    ensures forall c :: c in ProjectRows(rows, project) <==> c in rows && c.projectId == project
  {
    if rows != [] {
      ProjectRowsMembers(rows[1..], project);
      assert rows == [rows[0]] + rows[1..];
    }
  }

  /** Some column of `ps` sits at position `p`. */
  predicate HasPosition(ps: seq<Column>, p: int)
  {
    exists i :: 0 <= i < |ps| && ps[i].position == p
  }

  /** No two columns of `ps` share a position (gaps allowed). */
  predicate DistinctPositions(ps: seq<Column>)
  {
    forall i, j :: 0 <= i < j < |ps| ==> ps[i].position != ps[j].position
  }

  /** The positions of `ps` are exactly 1..|ps|, each held by one column. */
  predicate Contiguous(ps: seq<Column>)
  {
    && (forall i :: 0 <= i < |ps| ==> 1 <= ps[i].position <= |ps|)
    && DistinctPositions(ps)
    && (forall p :: 1 <= p <= |ps| ==> HasPosition(ps, p))
  }

  /** `UPDATE columns SET position = p WHERE id = id`. */
  function WithPosition(rows: seq<Column>, id: int, p: int): (r: seq<Column>)
    ensures |r| == |rows|
  {
    seq(|rows|, i requires 0 <= i < |rows| => if rows[i].id == id then rows[i].(position := p) else rows[i])
  }

  /** `UPDATE columns SET title = title, task_limit = limit WHERE id = id`. */
  function WithFields(rows: seq<Column>, id: int, title: string, limit: int): (r: seq<Column>)
    ensures |r| == |rows|
  {
    seq(|rows|, i requires 0 <= i < |rows| =>
      if rows[i].id == id then rows[i].(title := title, taskLimit := limit) else rows[i])
  }

  /** `DELETE FROM columns WHERE id = id`. */
  function Without(rows: seq<Column>, id: int): (r: seq<Column>)
    ensures |r| <= |rows|
  {
    if rows == [] then []
    else (if rows[0].id == id then [] else [rows[0]]) + Without(rows[1..], id)
  }

  /** Deleting by id keeps exactly the rows with another id. */
  lemma {:induction false} WithoutMembers(rows: seq<Column>, id: int)
    ensures forall c :: c in Without(rows, id) <==> c in rows && c.id != id
  {
    if rows != [] {
      WithoutMembers(rows[1..], id);
      assert rows == [rows[0]] + rows[1..];
    }
  }

  /** The rows `create` saves for `ts`: the i-th template gets id `firstId + i` and position i + 1. */
  function CreatedRows(project: int, ts: seq<Template>, firstId: int): (r: seq<Column>)
    ensures |r| == |ts|
  {
    seq(|ts|, i requires 0 <= i < |ts| =>
      Column(firstId + i, project, ts[i].title, i + 1, ts[i].taskLimit))
  }

  /** `columns('title', 'task_limit')`: the part of each row that `duplicate` copies. */
  function TemplatesOf(cs: seq<Column>): (ts: seq<Template>)
    ensures |ts| == |cs|
  {
    seq(|cs|, i requires 0 <= i < |cs| => Template(cs[i].title, cs[i].taskLimit))
  }

  // ---------------------------------------------------------------------------
  // `asc('position')`: ordering a project's rows by position

  predicate SortedByPosition(s: seq<Column>)
  {
    forall i, j :: 0 <= i < j < |s| ==> s[i].position <= s[j].position
  }

  function Insert(c: Column, s: seq<Column>): (r: seq<Column>)
    requires SortedByPosition(s)
    ensures SortedByPosition(r)
    ensures multiset(r) == multiset(s) + multiset{c}
    ensures |r| == |s| + 1
    ensures r[0] == c || (s != [] && r[0] == s[0])
  {
    if s == [] then [c]
    else if c.position <= s[0].position then [c] + s
    else
      var rest := Insert(c, s[1..]);
      assert s == [s[0]] + s[1..];
      [s[0]] + rest
  }

  /** The rows in ascending position order (an insertion sort); the order among rows with
      equal positions is not part of the contract. */
  function SortByPosition(s: seq<Column>): (r: seq<Column>)
    ensures SortedByPosition(r)
    ensures multiset(r) == multiset(s)
    ensures |r| == |s|
  {
    if s == [] then []
    else
      assert s == [s[0]] + s[1..];
      Insert(s[0], SortByPosition(s[1..]))
  }

  /** `getColumns`: the columns of a project, ordered by position. */
  function ProjectColumns(rows: seq<Column>, project: int): (cs: seq<Column>)
    ensures SortedByPosition(cs)
    ensures multiset(cs) == multiset(ProjectRows(rows, project))
    ensures forall c :: c in cs <==> c in rows && c.projectId == project
  {
    var ps := ProjectRows(rows, project);
    var cs := SortByPosition(ps);
    ProjectRowsMembers(rows, project);
    assert forall c :: c in cs <==> c in multiset(cs);
    assert forall c :: c in ps <==> c in multiset(ps);
    cs
  }

  // ---------------------------------------------------------------------------
  // `getLastColumnPosition`

  function MaxPosition(ps: seq<Column>): (r: int)
    requires ps != []
    ensures forall i :: 0 <= i < |ps| ==> ps[i].position <= r
    ensures HasPosition(ps, r)
  {
    if |ps| == 1 then ps[0].position
    else
      var m := MaxPosition(ps[1..]);
      if ps[0].position >= m then ps[0].position else m
  }

  /** The largest position of the project, or 0 (`(int)` of no row) when it has no columns. */
  function LastPosition(rows: seq<Column>, project: int): (r: int)
    ensures var ps := ProjectRows(rows, project);
      && (ps == [] ==> r == 0)
      && (ps != [] ==> HasPosition(ps, r))
      && (forall i :: 0 <= i < |ps| ==> ps[i].position <= r)
  {
    var ps := ProjectRows(rows, project);
    if ps == [] then 0 else MaxPosition(ps)
  }

  // ---------------------------------------------------------------------------
  // How the project's rows relate to the whole table

  lemma {:induction false} ProjectRowsUnique(rows: seq<Column>, project: int)
    requires UniqueIds(rows)
    ensures UniqueIds(ProjectRows(rows, project))
  {
    if rows != [] {
      ProjectRowsUnique(rows[1..], project);
      ProjectRowsMembers(rows[1..], project);
      var rest := ProjectRows(rows[1..], project);
      forall c | c in rest ensures c.id != rows[0].id {
        var j :| 0 <= j < |rows[1..]| && rows[1..][j] == c;
        assert rows[j + 1] == c;
      }
    }
  }

  lemma {:induction false} ProjectRowsAppend(a: seq<Column>, b: seq<Column>, project: int)
    ensures ProjectRows(a + b, project) == ProjectRows(a, project) + ProjectRows(b, project)
  {
    if a != [] {
      assert (a + b)[1..] == a[1..] + b;
      ProjectRowsAppend(a[1..], b, project);
    } else {
      assert a + b == b;
    }
  }

  lemma {:induction false} ProjectRowsWithout(rows: seq<Column>, project: int, id: int)
    ensures ProjectRows(Without(rows, id), project) == Without(ProjectRows(rows, project), id)
  {
    if rows != [] {
      ProjectRowsWithout(rows[1..], project, id);
      var head := if rows[0].id == id then [] else [rows[0]];
      ProjectRowsAppend(head, Without(rows[1..], id), project);
      var phead := if rows[0].projectId == project then [rows[0]] else [];
      assert Without(phead + ProjectRows(rows[1..], project), id) == Without(phead, id) + Without(ProjectRows(rows[1..], project), id) by {
        WithoutAppend(phead, ProjectRows(rows[1..], project), id);
      }
    }
  }

  lemma {:induction false} WithoutAppend(a: seq<Column>, b: seq<Column>, id: int)
    ensures Without(a + b, id) == Without(a, id) + Without(b, id)
  {
    if a != [] {
      assert (a + b)[1..] == a[1..] + b;
      WithoutAppend(a[1..], b, id);
    } else {
      assert a + b == b;
    }
  }

  /** Deleting one row keeps the ids unique and, when the id was present, removes exactly one row. */
  lemma WithoutUnique(rows: seq<Column>, id: int)
    requires UniqueIds(rows)
    ensures UniqueIds(Without(rows, id))
    ensures |Without(rows, id)| == if exists i :: 0 <= i < |rows| && rows[i].id == id then |rows| - 1 else |rows|
  {
    WithoutKeepsUnique(rows, id);
    WithoutCount(rows, id);
  }

  lemma {:induction false} WithoutKeepsUnique(rows: seq<Column>, id: int)
    requires UniqueIds(rows)
    ensures UniqueIds(Without(rows, id))
  {
    if rows != [] {
      assert UniqueIds(rows[1..]) by {
        forall i, j | 0 <= i < j < |rows| - 1 ensures rows[1..][i].id != rows[1..][j].id {
          assert rows[1..][i] == rows[i + 1] && rows[1..][j] == rows[j + 1];
        }
      }
      WithoutKeepsUnique(rows[1..], id);
      WithoutMembers(rows[1..], id);
      var rest := Without(rows[1..], id);
      forall c | c in rest ensures c.id != rows[0].id {
        var j :| 0 <= j < |rows[1..]| && rows[1..][j] == c;
        assert rows[j + 1] == c;
      }
    }
  }

  lemma {:induction false} WithoutCount(rows: seq<Column>, id: int)
    requires UniqueIds(rows)
    ensures |Without(rows, id)| == if exists i :: 0 <= i < |rows| && rows[i].id == id then |rows| - 1 else |rows|
  {
    if rows != [] {
      assert UniqueIds(rows[1..]) by {
        forall i, j | 0 <= i < j < |rows| - 1 ensures rows[1..][i].id != rows[1..][j].id {
          assert rows[1..][i] == rows[i + 1] && rows[1..][j] == rows[j + 1];
        }
      }
      WithoutCount(rows[1..], id);
      if rows[0].id == id {
        assert !exists i :: 0 <= i < |rows[1..]| && rows[1..][i].id == id by {
          forall i | 0 <= i < |rows[1..]| ensures rows[1..][i].id != id {
            assert rows[1..][i] == rows[i + 1];
          }
        }
      } else {
        assert (exists i :: 0 <= i < |rows| && rows[i].id == id) <==>
               (exists i :: 0 <= i < |rows[1..]| && rows[1..][i].id == id) by {
          forall i | 0 < i < |rows| ensures rows[i] == rows[1..][i - 1] { }
        }
      }
    }
  }
}
