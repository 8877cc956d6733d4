/**
 * Appending one new, still empty row to a dataset's current table: the row
 * built from the schema, the alignment of an existing table to the schema,
 * and the concatenation that renumbers the rows.
 */
module Ingest {
  import opened Common
  import opened Tables

  /** `buildnewrow(schema)`: one entry per schema column, every value `None`. */
  method BuildNewRow(schema: seq<Name>) returns (row: map<Name, Cell>)
    ensures forall c :: c in row <==> c in schema
    ensures forall c :: c in row ==> row[c] == Missing
  {
    row := map[];
    for k := 0 to |schema|
      invariant forall c :: c in row <==> c in schema[..k]
      invariant forall c :: c in row ==> row[c] == Missing
    {
      assert forall c :: c in schema[..k + 1] <==> c in schema[..k] || c == schema[k];
      row := row[schema[k] := Missing];
    }
    assert schema[..|schema|] == schema;
  }

  /** The row `buildnewrow` returns, as a value. */
  function NewRow(schema: seq<Name>): map<Name, Cell> {
    map c | c in schema :: Missing
  }

  /** `df[c] = None` for each name of `names`, in order. */
  function AddEmptyColumns(t: Table, names: seq<Name>): (r: Table)
    requires WellFormed(t)
    ensures WellFormed(r) && r.index == t.index
  {
    if names == [] then t
    else SetColumn(AddEmptyColumns(t, names[..|names| - 1]), names[|names| - 1], Missings(|t.index|))
  }

  /** The alignment of an existing table: every schema column it lacks is added, empty. */
  function Align(t: Table, schema: seq<Name>): (r: Table)
    requires WellFormed(t)
    ensures WellFormed(r) && r.index == t.index
  {
    AddEmptyColumns(t, Absent(schema, t.columns))
  }

  /** `pd.DataFrame(columns=schema)`: the named columns and no rows. */
  function EmptyTable(schema: seq<Name>): (r: Table)
    requires Distinct(schema)
    ensures WellFormed(r) && r.columns == schema && r.index == []
  {
    Table(schema, map c | c in schema :: [], [])
  }

  /**
   * `pd.concat([df, pd.DataFrame([row])], ignore_index=True)` for a row whose
   * keys are all columns of `df`: every column gets one more cell, missing
   * where the row has no value, and the rows are renumbered 0 .. n.
   */
  function AppendRow(t: Table, row: map<Name, Cell>): (r: Table)
    requires WellFormed(t) && row.Keys <= t.data.Keys
    ensures WellFormed(r) && r.columns == t.columns && r.data.Keys == t.data.Keys
  {
    Table(t.columns, map c | c in t.data :: t.data[c] + [if c in row then row[c] else Missing], Dense(|t.index| + 1))
  }

  /** The table before the new row is added: the aligned existing table, or an empty one with the schema. */
  function Base(existing: Option<Table>, schema: seq<Name>): (r: Table)
    requires existing.Some? ==> WellFormed(existing.value)
    requires existing.None? ==> Distinct(schema)
    ensures WellFormed(r) && forall c :: c in schema ==> c in r.data
  {
    match existing
    case Some(t) =>
      AlignSpec(t, schema);
      Align(t, schema)
    case None => EmptyTable(schema)
  }

  /** Lines 35-45 of `appendnewinfo`: the table written back for a dataset, `existing` being the table read, if any. */
  function AppendNewInfoSpec(existing: Option<Table>, schema: seq<Name>): (r: Table)
    requires existing.Some? ==> WellFormed(existing.value)
    requires existing.None? ==> Distinct(schema)
    ensures WellFormed(r)
  {
    AppendRow(Base(existing, schema), NewRow(schema))
  }

  /** One `df[c] = None`: c is then a column of empty cells, and no other column changes. */
  lemma AddEmptyStepFrame(t: Table, c: Name, n: nat)
    requires WellFormed(t) && n == |t.index|
    ensures forall d :: d in SetColumn(t, c, Missings(n)).data <==> d in t.data || d == c
    ensures SetColumn(t, c, Missings(n)).data[c] == Missings(n)
    ensures forall d :: d in t.data && d != c ==> SetColumn(t, c, Missings(n)).data[d] == t.data[d]
    ensures SetColumn(t, c, Missings(n)).columns == if c in t.data then t.columns else t.columns + [c]
  {
  }

  /** Adding empty columns adds exactly those names and leaves the other columns alone. */
  lemma {:induction false} AddEmptyColumnsFrame(t: Table, names: seq<Name>)
    requires WellFormed(t)
    ensures forall c :: c in AddEmptyColumns(t, names).data <==> c in t.data || c in names
    ensures forall c :: c in t.data && c !in names ==> AddEmptyColumns(t, names).data[c] == t.data[c]
    ensures forall k :: 0 <= k < |names| ==> AddEmptyColumns(t, names).data[names[k]] == Missings(|t.index|)
  {
    if names != [] {
      var init, last := names[..|names| - 1], names[|names| - 1];
      AddEmptyColumnsFrame(t, init);
      var prev := AddEmptyColumns(t, init);
      assert AddEmptyColumns(t, names) == SetColumn(prev, last, Missings(|t.index|));
      AddEmptyFrameStep(t, prev, names);
    }
  }

  /** The inductive step of `AddEmptyColumnsFrame`, over any table the first names were added to. */
  lemma AddEmptyFrameStep(t: Table, prev: Table, names: seq<Name>)
    requires WellFormed(t) && WellFormed(prev) && prev.index == t.index && names != []
    requires forall c :: c in prev.data <==> c in t.data || c in names[..|names| - 1]
    requires forall c :: c in t.data && c !in names[..|names| - 1] ==> prev.data[c] == t.data[c]
    requires forall k :: 0 <= k < |names| - 1 ==> prev.data[names[k]] == Missings(|t.index|)
    ensures var r := SetColumn(prev, names[|names| - 1], Missings(|t.index|));
      && (forall c :: c in r.data <==> c in t.data || c in names)
      && (forall c :: c in t.data && c !in names ==> r.data[c] == t.data[c])
      && (forall k :: 0 <= k < |names| ==> r.data[names[k]] == Missings(|t.index|))
  {
    var init, last := names[..|names| - 1], names[|names| - 1];
    assert forall c :: c in names <==> c in init || c == last by {
      assert names == init + [last];
    }
    AddEmptyStepFrame(prev, last, |t.index|);
    var r := SetColumn(prev, last, Missings(|t.index|));
    forall k | 0 <= k < |names| ensures r.data[names[k]] == Missings(|t.index|) {
      if k < |init| {
        assert names[k] == init[k];
      }
    }
  }

  /**
   * New names are appended after the existing columns in the order of their
   * first occurrence: a repeated name overwrites its own column in place.
   */
  lemma {:induction false} AddEmptyColumnsOrder(t: Table, names: seq<Name>)
    requires WellFormed(t)
    requires forall k :: 0 <= k < |names| ==> names[k] !in t.data
    ensures AddEmptyColumns(t, names).columns == t.columns + FirstOccurrences(names)
  {
    if names != [] {
      var init, last := names[..|names| - 1], names[|names| - 1];
      assert forall k :: 0 <= k < |init| ==> init[k] == names[k];
      AddEmptyColumnsOrder(t, init);
      AddEmptyColumnsFrame(t, init);
      var prev := AddEmptyColumns(t, init);
      assert AddEmptyColumns(t, names) == SetColumn(prev, last, Missings(|t.index|));
      AddEmptyOrderStep(t, prev, names);
    }
  }

  /** The inductive step of `AddEmptyColumnsOrder`, over any table the first names were appended to. */
  lemma AddEmptyOrderStep(t: Table, prev: Table, names: seq<Name>)
    requires WellFormed(t) && WellFormed(prev) && prev.index == t.index && names != []
    requires forall k :: 0 <= k < |names| ==> names[k] !in t.data
    requires forall c :: c in prev.data <==> c in t.data || c in names[..|names| - 1]
    requires prev.columns == t.columns + FirstOccurrences(names[..|names| - 1])
    ensures SetColumn(prev, names[|names| - 1], Missings(|t.index|)).columns == t.columns + FirstOccurrences(names)
  {
    var init, last := names[..|names| - 1], names[|names| - 1];
    var r := SetColumn(prev, last, Missings(|t.index|));
    assert FirstOccurrences(names) == if last in init then FirstOccurrences(init) else FirstOccurrences(init) + [last];
    if last in init {
      assert last in prev.data;
      assert r.columns == prev.columns;
    } else {
      assert last !in t.data;
      assert last !in prev.data;
      assert r.columns == prev.columns + [last];
      AppendAssoc(t.columns, FirstOccurrences(init), last);
    }
  }

  /** Appending after a concatenation appends to its second part. */
  lemma AppendAssoc(a: seq<Name>, b: seq<Name>, x: Name)
    ensures (a + b) + [x] == a + (b + [x])
  {
  }

  /**
   * Alignment gives a table holding every schema column: the existing columns
   * keep their cells, and the added ones are empty on every row.
   */
  lemma AlignSpec(t: Table, schema: seq<Name>)
    requires WellFormed(t)
    ensures forall c :: c in Align(t, schema).data <==> c in t.data || c in schema
    ensures forall c :: c in t.data ==> Align(t, schema).data[c] == t.data[c]
    ensures forall c :: c in schema && c !in t.data ==> Align(t, schema).data[c] == Missings(|t.index|)
  {
    var missing := Absent(schema, t.columns);
    AddEmptyColumnsFrame(t, missing);
    forall c | c in schema && c !in t.data ensures Align(t, schema).data[c] == Missings(|t.index|) {
      assert c in missing;
      var k :| 0 <= k < |missing| && missing[k] == c;
    }
  }

  /**
   * The added columns follow the existing ones, each once, in the order the
   * schema first names them; for a schema without repetitions, in schema order.
   */
  lemma AlignOrder(t: Table, schema: seq<Name>)
    requires WellFormed(t)
    ensures Align(t, schema).columns == t.columns + FirstOccurrences(Absent(schema, t.columns))
    ensures Distinct(schema) ==> Align(t, schema).columns == t.columns + Absent(schema, t.columns)
  {
    var missing := Absent(schema, t.columns);
    assert forall k :: 0 <= k < |missing| ==> missing[k] !in t.data by {
      forall k | 0 <= k < |missing| ensures missing[k] !in t.data {
        assert missing[k] in missing;
      }
    }
    AddEmptyColumnsOrder(t, missing);
    if Distinct(schema) {
      FilterDistinct(schema, c => c !in t.columns);
      FirstOccurrencesDistinct(missing);
    }
  }

  /** The alignment loop `for c in missing: df[c] = None`, changing `df` in place. */
  method AlignInPlace(df: Frame, schema: seq<Name>)
    requires df.Valid()
    modifies df
    ensures df.Valid() && df.View() == Align(old(df.View()), schema)
  {
    ghost var t0 := df.View();
    var missing := Absent(schema, df.columns);
    for k := 0 to |missing|
      invariant df.Valid() && df.View() == AddEmptyColumns(t0, missing[..k])
    {
      assert missing[..k + 1][..k] == missing[..k];
      df.Assign(missing[k], Missings(|df.index|));
    }
    assert missing[..|missing|] == missing;
  }

  /** A row with exactly the schema's keys, all empty, is the row `NewRow` describes. */
  lemma NewRowUnique(row: map<Name, Cell>, schema: seq<Name>)
    requires forall c :: c in row <==> c in schema
    requires forall c :: c in row ==> row[c] == Missing
    ensures row == NewRow(schema)
  {
  }

  /** `appendnewinfo(basename, schema)` once the current file has been read (`existing`), up to the write. */
  method AppendNewInfo(existing: Option<Table>, schema: seq<Name>) returns (ok: bool, written: Table)
    requires existing.Some? ==> WellFormed(existing.value)
    requires existing.None? ==> Distinct(schema)
    ensures ok
    ensures written == AppendNewInfoSpec(existing, schema)
  {
    var df: Frame;
    match existing {
      case Some(t) =>
        df := new Frame(t);
        AlignInPlace(df, schema);
      case None =>
        df := new Frame(EmptyTable(schema));
    }
    assert df.View() == Base(existing, schema);
    var row := BuildNewRow(schema);
    NewRowUnique(row, schema);
    written := AppendRow(df.View(), row);
    ok := true;
  }

  /**
   * The table written has one row more than the table read (one row when
   * there was no file), numbered 0 .. n; it holds the read columns and every
   * schema column; the earlier rows keep their cells, empty in the added
   * columns; and the new row is empty in every column.
   */
  lemma AppendNewInfoRows(existing: Option<Table>, schema: seq<Name>)
    requires existing.Some? ==> WellFormed(existing.value)
    requires existing.None? ==> Distinct(schema)
    ensures var r, n := AppendNewInfoSpec(existing, schema), if existing.Some? then |existing.value.index| else 0;
      && r.index == Dense(n + 1)
      && (forall c :: c in r.data <==> (existing.Some? && c in existing.value.data) || c in schema)
      && (forall c :: c in r.data ==> |r.data[c]| == n + 1 && r.data[c][n] == Missing)
      && (existing.Some? ==> forall c :: c in existing.value.data ==> r.data[c][..n] == existing.value.data[c])
      && (forall c :: c in schema && (existing.None? || c !in existing.value.data) ==> r.data[c][..n] == Missings(n))
  {
    var base := Base(existing, schema);
    var r := AppendNewInfoSpec(existing, schema);
    if existing.Some? {
      AlignSpec(existing.value, schema);
    }
    forall c | c in r.data ensures r.data[c][..|base.index|] == base.data[c] {
      assert r.data[c] == base.data[c] + [Missing];
    }
  }

  /**
   * Column order: with a file, the read columns come first and the missing
   * schema columns follow, each once, in the order the schema first names
   * them; without one, the columns are the schema and the only row is the new one.
   */
  lemma AppendNewInfoColumns(existing: Option<Table>, schema: seq<Name>)
    requires existing.Some? ==> WellFormed(existing.value)
    requires existing.None? ==> Distinct(schema)
    ensures var r := AppendNewInfoSpec(existing, schema);
      && (existing.Some? ==> r.columns == existing.value.columns + FirstOccurrences(Absent(schema, existing.value.columns)))
      && (existing.None? ==> r.columns == schema && |r.index| == 1)
  {
    if existing.Some? {
      AlignOrder(existing.value, schema);
    }
  }
}
