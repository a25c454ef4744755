/** What `create`, `duplicate`, `addColumn` and `removeColumn` do to the positions
    of a project's columns. */
module ColumnLifecycle {
  import opened Columns

  lemma {:induction false} ProjectRowsAll(s: seq<Column>, project: int)
    requires forall i :: 0 <= i < |s| ==> s[i].projectId == project
    ensures ProjectRows(s, project) == s
    ensures forall other :: other != project ==> ProjectRows(s, other) == []
  {
    if s != [] {
      ProjectRowsAll(s[1..], project);
      assert s == [s[0]] + s[1..];
    }
  }

  /** `create` on a project that has no columns yet: the project's columns become the
      created rows, in input order, with positions exactly 1..N, each with its own
      title and task limit; no other project changes. */
  lemma CreateOnEmptyProject(rows: seq<Column>, project: int, ts: seq<Template>, firstId: int)
    requires ProjectRows(rows, project) == []
    ensures var after := rows + CreatedRows(project, ts, firstId);
      var ps := ProjectRows(after, project);
      && ps == CreatedRows(project, ts, firstId)
      && Contiguous(ps)
      && TemplatesOf(ps) == ts
      && (forall i :: 0 <= i < |ps| ==> ps[i].position == i + 1 && ps[i].projectId == project)
      && forall other :: other != project ==> ProjectRows(after, other) == ProjectRows(rows, other)
  {
    var created := CreatedRows(project, ts, firstId);
    ProjectRowsAll(created, project);
    ProjectRowsAppend(rows, created, project);
    AppendLeavesOthers(rows, created, project);
    CreatedRowsContiguous(project, ts, firstId);
  }

  /** Appending rows of one project leaves every other project's rows as they were. */
  lemma AppendLeavesOthers(rows: seq<Column>, s: seq<Column>, project: int)
    requires forall i :: 0 <= i < |s| ==> s[i].projectId == project
    ensures forall other :: other != project ==> ProjectRows(rows + s, other) == ProjectRows(rows, other)
  {
    ProjectRowsAll(s, project);
    forall other | other != project
      ensures ProjectRows(rows + s, other) == ProjectRows(rows, other)
    {
      ProjectRowsAppend(rows, s, other);
      assert ProjectRows(rows, other) + [] == ProjectRows(rows, other);
    }
  }

  /** The rows `create` saves are numbered 1..N and carry the input templates in order. */
  lemma CreatedRowsContiguous(project: int, ts: seq<Template>, firstId: int)
    ensures Contiguous(CreatedRows(project, ts, firstId))
    ensures TemplatesOf(CreatedRows(project, ts, firstId)) == ts
  {
    var created := CreatedRows(project, ts, firstId);
    forall p | 1 <= p <= |created| ensures HasPosition(created, p) {
      assert created[p - 1].position == p;
    }
  }

  /** `duplicate`: the target project (with no columns before) receives the source's
      titles and task limits in ascending source-position order, numbered 1..N whatever
      gaps the source positions have; the source is read through `getColumns`' order. */
  lemma DuplicateFidelity(rows: seq<Column>, from: int, to: int, firstId: int)
    requires ProjectRows(rows, to) == []
    ensures var src := ProjectColumns(rows, from);
      var after := rows + CreatedRows(to, TemplatesOf(src), firstId);
      var ps := ProjectRows(after, to);
      && Contiguous(ps)
      && |ps| == |ProjectRows(rows, from)|
      && SortedByPosition(src)
      && multiset(src) == multiset(ProjectRows(rows, from))
      && forall i :: 0 <= i < |ps| ==>
           ps[i].title == src[i].title && ps[i].taskLimit == src[i].taskLimit && ps[i].position == i + 1
  {
    var src := ProjectColumns(rows, from);
    CreateOnEmptyProject(rows, to, TemplatesOf(src), firstId);
    assert |src| == |ProjectRows(rows, from)| by {
      assert |multiset(src)| == |multiset(ProjectRows(rows, from))|;
    }
  }

  /** In a project whose positions are exactly 1..N, the last position is N. */
  lemma LastPositionIsCount(rows: seq<Column>, project: int)
    requires Contiguous(ProjectRows(rows, project))
    ensures LastPosition(rows, project) == |ProjectRows(rows, project)|
  {
    var ps := ProjectRows(rows, project);
    if ps != [] {
      assert HasPosition(ps, |ps|);
    }
  }

  /** `addColumn` puts the new column after every column of the project, so positions
      stay distinct even after a removal has left a gap. */
  lemma AddColumnAfterAll(rows: seq<Column>, project: int, c: Column)
    requires DistinctPositions(ProjectRows(rows, project))
    requires c.projectId == project && c.position == LastPosition(rows, project) + 1
    ensures var ps := ProjectRows(rows + [c], project);
      && ps == ProjectRows(rows, project) + [c]
      && DistinctPositions(ps)
      && forall i :: 0 <= i < |ps| - 1 ==> ps[i].position < c.position
  {
    ProjectRowsAppend(rows, [c], project);
    assert ProjectRows([c], project) == [c];
  }

  /** `addColumn` on a project whose positions are exactly 1..N gives the new column
      N + 1, so they become exactly 1..N + 1. */
  lemma AddColumnKeepsContiguous(rows: seq<Column>, project: int, c: Column)
    requires Contiguous(ProjectRows(rows, project))
    requires c.projectId == project && c.position == LastPosition(rows, project) + 1
    ensures c.position == |ProjectRows(rows, project)| + 1
    ensures Contiguous(ProjectRows(rows + [c], project))
  {
    LastPositionIsCount(rows, project);
    AddColumnAfterAll(rows, project, c);
    ContiguousAppend(ProjectRows(rows, project), c);
  }

  lemma ContiguousAppend(ps: seq<Column>, c: Column)
    requires Contiguous(ps) && c.position == |ps| + 1
    ensures Contiguous(ps + [c])
  {
    var qs := ps + [c];
    forall p | 1 <= p <= |qs| ensures HasPosition(qs, p) {
      if p <= |ps| {
        assert HasPosition(ps, p);
        var i :| 0 <= i < |ps| && ps[i].position == p;
        assert qs[i] == ps[i];
      } else {
        assert qs[|ps|] == c;
      }
    }
  }

  /** `removeColumn` does not renumber: removing any column but the last of a project
      whose positions were 1..N leaves distinct positions that are no longer 1..N - 1. */
  lemma RemoveColumnLeavesGap(rows: seq<Column>, project: int, r: int)
    requires UniqueIds(rows)
    requires Contiguous(ProjectRows(rows, project))
    requires 0 <= r < |ProjectRows(rows, project)|
    requires ProjectRows(rows, project)[r].position < |ProjectRows(rows, project)|
    ensures var ps := ProjectRows(rows, project);
      var qs := ProjectRows(Without(rows, ps[r].id), project);
      && |qs| == |ps| - 1
      && DistinctPositions(qs)
      && !Contiguous(qs)
      && !HasPosition(qs, ps[r].position)
  {
    var ps := ProjectRows(rows, project);
    var id := ps[r].id;
    ProjectRowsUnique(rows, project);
    WithoutUnique(rows, id);
    WithoutUnique(ps, id);
    ProjectRowsWithout(rows, project, id);
    var qs := Without(ps, id);
    WithoutDistinct(ps, id);
    WithoutHole(ps, r);
    var last := LastKept(ps, r);
    assert qs[last].position == |ps| > |qs|;
  }

  lemma WithoutDistinct(ps: seq<Column>, id: int)
    requires DistinctPositions(ps)
    ensures DistinctPositions(Without(ps, id))
  {
    var qs := Without(ps, id);
    forall i, j | 0 <= i < j < |qs| ensures qs[i].position != qs[j].position {
      SubsequenceDistinct(ps, id, i, j);
    }
  }

  /** No kept row sits where the deleted row sat. */
  lemma WithoutHole(ps: seq<Column>, r: int)
    requires DistinctPositions(ps) && 0 <= r < |ps|
    ensures !HasPosition(Without(ps, ps[r].id), ps[r].position)
  {
    var qs := Without(ps, ps[r].id);
    WithoutMembers(ps, ps[r].id);
    forall t | 0 <= t < |qs| ensures qs[t].position != ps[r].position {
      assert qs[t] in ps && qs[t].id != ps[r].id;
      var v :| 0 <= v < |ps| && ps[v] == qs[t];
    }
  }

  /** The column at position N survives the deletion of a column below N. */
  lemma LastKept(ps: seq<Column>, r: int) returns (k: int)
    requires UniqueIds(ps) && Contiguous(ps) && 0 <= r < |ps| && ps[r].position < |ps|
    ensures 0 <= k < |Without(ps, ps[r].id)| && Without(ps, ps[r].id)[k].position == |ps|
  {
    var qs := Without(ps, ps[r].id);
    WithoutMembers(ps, ps[r].id);
    assert HasPosition(ps, |ps|);
    var last :| 0 <= last < |ps| && ps[last].position == |ps|;
    assert ps[last] in qs;
    k :| 0 <= k < |qs| && qs[k] == ps[last];
  }

  /** Two rows kept by a deletion are two distinct rows of the original. */
  lemma {:induction false} SubsequenceDistinct(ps: seq<Column>, id: int, i: int, j: int)
    requires DistinctPositions(ps)
    requires 0 <= i < j < |Without(ps, id)|
    ensures Without(ps, id)[i].position != Without(ps, id)[j].position
  {
    var qs := Without(ps, id);
    var rest := Without(ps[1..], id);
    assert DistinctPositions(ps[1..]) by {
      forall a, b | 0 <= a < b < |ps| - 1 ensures ps[1..][a].position != ps[1..][b].position {
        assert ps[1..][a] == ps[a + 1] && ps[1..][b] == ps[b + 1];
      }
    }
    if ps[0].id == id {
      assert qs == rest;
      SubsequenceDistinct(ps[1..], id, i, j);
    } else {
      assert qs == [ps[0]] + rest;
      if i == 0 {
        WithoutMembers(ps[1..], id);
        assert qs[j] in ps[1..];
        var v :| 0 <= v < |ps[1..]| && ps[1..][v] == qs[j];
        assert ps[v + 1] == qs[j];
      } else {
        SubsequenceDistinct(ps[1..], id, i - 1, j - 1);
      }
    }
  }
}
