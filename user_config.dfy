/** `getUserColumns`: the column templates a new project gets from the comma-separated
    `board_columns` setting (or from the default columns when it is not set). */
module UserConfig {
  import opened Columns

  /** `getDefaultColumns`, untranslated. */
  function DefaultColumns(): seq<string>
  {
    ["Backlog", "Ready", "Work in progress", "Done"]
  }

  // ---------------------------------------------------------------------------
  // `explode(',', s)` and `implode(',', parts)`

  /** `explode(',', s)`: the pieces of `s` between commas (at least one, possibly empty). */
  function Explode(s: string): (parts: seq<string>)
    ensures |parts| >= 1
    ensures forall i :: 0 <= i < |parts| ==> ',' !in parts[i]
  {
    if s == [] then [""]
    else
      var rest := Explode(s[1..]);
      if s[0] == ',' then [""] + rest
      else [[s[0]] + rest[0]] + rest[1..]
  }

  /** `implode(',', parts)`. */
  function Implode(parts: seq<string>): (s: string)
    requires |parts| >= 1
  {
    if |parts| == 1 then parts[0] else parts[0] + "," + Implode(parts[1..])
  }

  /** Splitting a piece that has no comma, followed by a comma and more text. */
  lemma {:induction false} ExplodePiece(piece: string, rest: string)
    requires ',' !in piece
    ensures Explode(piece + "," + rest) == [piece] + Explode(rest)
    ensures Explode(piece) == [piece]
  {
    if piece != [] {
      ExplodePiece(piece[1..], rest);
      assert (piece + "," + rest)[1..] == piece[1..] + "," + rest;
      assert [piece[0]] + piece[1..] == piece;
    }
  }

  /** `explode` undoes `implode` when no part contains the delimiter. */
  lemma {:induction false} ExplodeImplode(parts: seq<string>)
    requires |parts| >= 1
    requires forall i :: 0 <= i < |parts| ==> ',' !in parts[i]
    ensures Explode(Implode(parts)) == parts
  {
    if |parts| == 1 {
      ExplodePiece(parts[0], "");
    } else {
      ExplodeImplode(parts[1..]);
      ExplodePiece(parts[0], Implode(parts[1..]));
    }
  }

  /** `implode` undoes `explode`: no character of the setting is lost. */
  lemma {:induction false} ImplodeExplode(s: string)
    ensures Implode(Explode(s)) == s
  {
    if s != [] {
      ImplodeExplode(s[1..]);
      var rest := Explode(s[1..]);
      if s[0] == ',' {
        assert s == "," + s[1..];
      } else if |rest| == 1 {
        assert s == [s[0]] + s[1..];
      } else {
        assert Implode(rest) == rest[0] + "," + Implode(rest[1..]);
        assert s == [s[0]] + s[1..];
      }
    }
  }

  // ---------------------------------------------------------------------------
  // `trim` and `empty`

  /** The characters PHP's `trim` strips by default: space, tab, newline, carriage
      return, NUL and vertical tab. */
  predicate IsBlank(c: char)
  {
    c == ' ' || c == '\t' || c == '\n' || c == '\r' || c == '\U{0}' || c == '\U{B}'
  }

  function TrimLeft(s: string): (r: string)
    ensures |r| <= |s| && r == s[|s| - |r|..]
    ensures r == [] || !IsBlank(r[0])
    ensures forall i :: 0 <= i < |s| - |r| ==> IsBlank(s[i])
  {
    if s != [] && IsBlank(s[0]) then TrimLeft(s[1..]) else s
  }

  function TrimRight(s: string): (r: string)
    ensures |r| <= |s| && r == s[..|r|]
    ensures r == [] || !IsBlank(r[|r| - 1])
    ensures forall i :: |r| <= i < |s| ==> IsBlank(s[i])
  {
    if s != [] && IsBlank(s[|s| - 1]) then TrimRight(s[..|s| - 1]) else s
  }

  /** `trim(s)`: `s` without the blanks at either end. */
  function Trim(s: string): (r: string)
    ensures r == [] || (!IsBlank(r[0]) && !IsBlank(r[|r| - 1]))
  {
    TrimRight(TrimLeft(s))
  }

  /** `trim` only removes blanks at the two ends: the result is a slice of its input
      and every character cut off on either side is a blank. */
  lemma TrimSlice(s: string)
    ensures exists i, j ::
      && 0 <= i <= j <= |s| && Trim(s) == s[i..j]
      && (forall k :: 0 <= k < i ==> IsBlank(s[k]))
      && (forall k :: j <= k < |s| ==> IsBlank(s[k]))
  {
    var left := TrimLeft(s);
    var r := TrimRight(left);
    var a := |s| - |left|;
    assert left == s[a..];
    assert r == left[..|r|];
    assert s[a..][..|r|] == s[a..a + |r|];
    assert Trim(s) == s[a..a + |r|];
    forall k | a + |r| <= k < |s| ensures IsBlank(s[k]) {
      assert s[k] == left[k - a];
    }
  }

  /** A text with no blank at either end is its own trim. */
  lemma TrimKeeps(s: string)
    requires s == [] || (!IsBlank(s[0]) && !IsBlank(s[|s| - 1]))
    ensures Trim(s) == s
  {
  }

  /** PHP's `empty` on a string: true for "" and for "0". */
  predicate IsEmpty(s: string)
  {
    s == "" || s == "0"
  }

  // ---------------------------------------------------------------------------
  // The loop of `getUserColumns`

  /** A title `getUserColumns` can produce: trimmed and not PHP-empty. */
  predicate CleanTitle(t: string)
  {
    !IsEmpty(t) && !IsBlank(t[0]) && !IsBlank(t[|t| - 1])
  }

  /** Each name trimmed, the empty ones dropped, the others kept in order with task limit 0. */
  function ColumnsFromNames(names: seq<string>): (ts: seq<Template>)
    ensures |ts| <= |names|
  {
    if names == [] then [] else NameColumn(names[0]) + ColumnsFromNames(names[1..])
  }

  /** One turn of the loop: the trimmed name as a column with no task limit, unless it is empty. */
  function NameColumn(name: string): (ts: seq<Template>)
    ensures |ts| <= 1
  {
    var title := Trim(name);
    if IsEmpty(title) then [] else [Template(title, 0)]
  }

  /** Every template the loop keeps has a clean title and task limit 0. */
  lemma {:induction false} ColumnsFromNamesClean(names: seq<string>)
    ensures forall t :: t in ColumnsFromNames(names) ==> t.taskLimit == 0 && CleanTitle(t.title)
  {
    if names != [] {
      ColumnsFromNamesClean(names[1..]);
    }
  }

  /** `getUserColumns`: `setting` is the `board_columns` value, `None` when it is not set. */
  function UserColumns(setting: Option<string>): (ts: seq<Template>)
    ensures forall t :: t in ts ==> t.taskLimit == 0 && CleanTitle(t.title)
  {
    var text := if setting.Some? then setting.value else Implode(DefaultColumns());
    ColumnsFromNamesClean(Explode(text));
    ColumnsFromNames(Explode(text))
  }

  /** The loop keeps the order of the names: it works piece by piece. */
  lemma {:induction false} ColumnsFromNamesAppend(a: seq<string>, b: seq<string>)
    ensures ColumnsFromNames(a + b) == ColumnsFromNames(a) + ColumnsFromNames(b)
  {
    if a != [] {
      var head := NameColumn(a[0]);
      assert (a + b)[0] == a[0];
      assert (a + b)[1..] == a[1..] + b;
      ColumnsFromNamesAppend(a[1..], b);
      calc {
        ColumnsFromNames(a + b);
        head + ColumnsFromNames(a[1..] + b);
        head + (ColumnsFromNames(a[1..]) + ColumnsFromNames(b));
        (head + ColumnsFromNames(a[1..])) + ColumnsFromNames(b);
      }
    } else {
      assert a + b == b;
    }
  }

  /** No title contains the delimiter: every title is a trimmed piece of `explode`. */
  lemma {:induction false} NoCommaInTitles(names: seq<string>)
    requires forall i :: 0 <= i < |names| ==> ',' !in names[i]
    ensures forall t :: t in ColumnsFromNames(names) ==> ',' !in t.title
  {
    if names != [] {
      NoCommaInTitles(names[1..]);
      var title := Trim(names[0]);
      TrimSlice(names[0]);
      var i, j :| 0 <= i <= j <= |names[0]| && title == names[0][i..j];
      assert forall c :: c in title ==> c in names[0];
    }
  }

  /** A setting written as comma-joined names that are already trimmed, non-empty and
      free of commas gives back exactly those names, in order, each with task limit 0. */
  lemma {:induction false} UserColumnsOfNames(names: seq<string>)
    requires |names| >= 1
    requires forall i :: 0 <= i < |names| ==> ',' !in names[i] && CleanTitle(names[i])
    ensures UserColumns(Some(Implode(names))) == seq(|names|, i requires 0 <= i < |names| => Template(names[i], 0))
  {
    ExplodeImplode(names);
    KeptNames(names);
  }

  lemma {:induction false} KeptNames(names: seq<string>)
    requires forall i :: 0 <= i < |names| ==> CleanTitle(names[i])
    ensures ColumnsFromNames(names) == seq(|names|, i requires 0 <= i < |names| => Template(names[i], 0))
  {
    if names != [] {
      TrimKeeps(names[0]);
      KeptNames(names[1..]);
    }
  }

  /** With no `board_columns` setting a project gets the four default columns. */
  lemma DefaultUserColumns()
    ensures UserColumns(None) ==
      [Template("Backlog", 0), Template("Ready", 0), Template("Work in progress", 0), Template("Done", 0)]
  {
    UserColumnsOfNames(DefaultColumns());
  }

  /** A name made only of blanks, or the name "0", gives no column; the names around
      it are kept in order. */
  lemma DropsEmptyNames(before: seq<string>, name: string, after: seq<string>)
    requires IsEmpty(Trim(name))
    ensures ColumnsFromNames(before + [name] + after) == ColumnsFromNames(before) + ColumnsFromNames(after)
  {
    ColumnsFromNamesAppend(before + [name], after);
    ColumnsFromNamesAppend(before, [name]);
    assert NameColumn(name) == [];
    assert ColumnsFromNames([name]) == NameColumn(name) + ColumnsFromNames([]);
    assert ColumnsFromNames(before) + [] == ColumnsFromNames(before);
  }
}
