/** The `degree` table behind the router's mutations, held in memory: rows in
    id order, names unique, ids handed out in increasing order. The methods
    are the router's `create`, `update`, `delete`, `deleteAll` and `import`
    procedures, with the database calls they issue (`createMany`, `update`
    by name, `deleteMany`) applied to that table. */
module DegreeStore {
  import opened DegreeModel
  import DegreeImport

  /** What `import` hands back: the bulk insert's row count, or nothing
      (`undefined`). */
  datatype ImportReply = Inserted(count: nat) | Nothing

  /** A well-formed table: ids ascend and stay below `bound`, the next id to
      hand out, and no name is stored twice. */
  ghost predicate WellFormed(rows: seq<Row>, bound: Id)
  {
    && IdsAscending(rows)
    && (forall i :: 0 <= i < |rows| ==> rows[i].id < bound)
    && DistinctNames(Data(rows))
  }

  /** A bulk insert of a batch without repeated or stored names keeps the
      table well formed, appends the batch's records and overrides the name
      view with the batch's. */
  lemma InsertRows(rows: seq<Row>, batch: seq<Degree>, first: Id)
    requires WellFormed(rows, first)
    requires DistinctNames(batch) && Names(batch) !! Names(Data(rows))
    ensures WellFormed(rows + Stamp(batch, first), first + |batch|)
    ensures Data(rows + Stamp(batch, first)) == Data(rows) + batch
    ensures Catalog(Data(rows + Stamp(batch, first))) == Catalog(Data(rows)) + Catalog(batch)
  {
    StampAppend(rows, batch, first);
    DistinctAppend(Data(rows), batch);
    CatalogAppend(Data(rows), batch);
  }

  /** Overwriting the record of row `k`, keeping its id, with a record that
      keeps the row's name or takes an unused one, keeps the table well
      formed and replaces that row's entry of the name view only. */
  lemma ReplaceRow(rows: seq<Row>, bound: Id, k: int, d: Degree)
    requires WellFormed(rows, bound) && 0 <= k < |rows|
    requires d.name == rows[k].record.name || d.name !in Names(Data(rows))
    ensures WellFormed(rows[k := Row(rows[k].id, d)], bound)
    ensures Catalog(Data(rows[k := Row(rows[k].id, d)]))
         == (Catalog(Data(rows)) - {rows[k].record.name})[d.name := d.description]
  {
    var t := rows[k := Row(rows[k].id, d)];
    assert Data(t) == Data(rows)[k := d];
    CatalogReplace(Data(rows), k, d);
  }

  /** Only the row carrying `d.name` carries it, so overwriting that row is
      overwriting every row with that name and no other. */
  lemma RenewOthers(rows: seq<Row>, k: int, d: Degree)
    requires DistinctNames(Data(rows)) && 0 <= k < |rows| && rows[k].record.name == d.name
    ensures forall j :: 0 <= j < |rows| ==>
      rows[k := Row(rows[k].id, d)][j] == if rows[j].record.name == d.name then Row(rows[j].id, d) else rows[j]
    ensures KeepsRows(rows, rows[k := Row(rows[k].id, d)])
  {
    forall j | 0 <= j < |rows| && j != k ensures rows[j].record.name != d.name {
      assert Data(rows)[j].name != Data(rows)[k].name;
    }
  }

  /** Overwriting the record of the row that carries `d.name`: every other
      row, every id and every name stay as they were, and the name view gets
      `d`'s description for that name. */
  lemma RenewRow(rows: seq<Row>, bound: Id, k: int, d: Degree)
    requires WellFormed(rows, bound) && 0 <= k < |rows| && rows[k].record.name == d.name
    ensures var t := rows[k := Row(rows[k].id, d)];
      && WellFormed(t, bound)
      && (forall j :: 0 <= j < |t| ==>
            t[j] == if rows[j].record.name == d.name then Row(rows[j].id, d) else rows[j])
      && KeepsRows(rows, t)
      && Names(Data(t)) == Names(Data(rows))
      && Catalog(Data(t)) == Catalog(Data(rows))[d.name := d.description]
  {
    var t := rows[k := Row(rows[k].id, d)];
    ReplaceRow(rows, bound, k, d);
    RenewOthers(rows, k, d);
    CatalogKeys(Data(rows));
    CatalogKeys(Data(t));
    assert d.name in Names(Data(rows)) by {
      assert Data(rows)[k].name == d.name;
    }
    MapRenew(Catalog(Data(rows)), d.name, d.description);
  }

  /** Dropping row `k` keeps the table well formed and removes exactly its
      name from the name view. */
  lemma DropRow(rows: seq<Row>, bound: Id, k: int)
    requires WellFormed(rows, bound) && 0 <= k < |rows|
    ensures WellFormed(rows[..k] + rows[k + 1..], bound)
    ensures Catalog(Data(rows[..k] + rows[k + 1..])) == Catalog(Data(rows)) - {rows[k].record.name}
  {
    var t := rows[..k] + rows[k + 1..];
    forall i, j | 0 <= i < j < |t| ensures t[i].id < t[j].id {
      var i' := if i < k then i else i + 1;
      var j' := if j < k then j else j + 1;
      assert t[i] == rows[i'] && t[j] == rows[j'];
    }
    forall i | 0 <= i < |t| ensures t[i].id < bound {
      assert t[i] == rows[if i < k then i else i + 1];
    }
    assert Data(t) == Data(rows)[..k] + Data(rows)[k + 1..];
    CatalogRemove(Data(rows), k);
  }

  /** Every row of `before` is still at its position in `after`, with its id
      and its name; `after` may hold more rows behind them. */
  ghost predicate KeepsRows(before: seq<Row>, after: seq<Row>)
  {
    && |before| <= |after|
    && forall j :: 0 <= j < |before| ==>
         after[j].id == before[j].id && after[j].record.name == before[j].record.name
  }

  lemma KeepsRowsAppend(rows: seq<Row>, more: seq<Row>)
    ensures KeepsRows(rows, rows + more)
  {
  }

  lemma KeepsRowsTrans(a: seq<Row>, b: seq<Row>, c: seq<Row>)
    requires KeepsRows(a, b) && KeepsRows(b, c)
    ensures KeepsRows(a, c)
  {
  }

  /** `after` has the rows of `before`, and every row whose name is outside
      `names` is exactly as it was. */
  ghost predicate Untouched(before: seq<Row>, after: seq<Row>, names: set<string>)
  {
    && |after| == |before|
    && forall j :: 0 <= j < |before| && before[j].record.name !in names ==> after[j] == before[j]
  }

  /** One update keyed by a name in `names`, on rows that kept their names,
      leaves the rows with names outside `names` as they were. */
  lemma UntouchedStep(a: seq<Row>, b: seq<Row>, c: seq<Row>, names: set<string>, d: Degree)
    requires Untouched(a, b, names) && KeepsRows(a, b) && d.name in names
    requires |c| == |b|
    requires forall j :: 0 <= j < |c| ==>
      c[j] == if b[j].record.name == d.name then Row(b[j].id, d) else b[j]
    ensures Untouched(a, c, names)
  {
    forall j | 0 <= j < |a| && a[j].record.name !in names ensures c[j] == a[j] {
      assert b[j].record.name == a[j].record.name;
    }
  }

  /** Rows appended with names outside `names` survive updates that touch
      only names in `names`: the records behind `before` are still `batch`,
      in order. */
  lemma TailKept(before: seq<Row>, mid: seq<Row>, after: seq<Row>, batch: seq<Degree>, first: Id, names: set<string>)
    requires mid == before + Stamp(batch, first)
    requires Untouched(mid, after, names) && Names(batch) !! names
    ensures Data(after)[|before|..] == batch
  {
    forall k | 0 <= k < |batch| ensures Data(after)[|before|..][k] == batch[k] {
      assert mid[|before| + k] == Stamp(batch, first)[k];
      assert batch[k].name in Names(batch);
    }
  }

  class DegreeTable {
    /** The stored rows, in the order of their ids. */
    var rows: seq<Row>
    /** The id the next inserted row receives. */
    var nextId: Id

    ghost predicate Valid()
      reads this
    {
      WellFormed(rows, nextId)
    }

    /** The table seen by name: each stored name and its description. */
    ghost function Contents(): map<string, string>
      reads this
    {
      Catalog(Data(rows))
    }

    constructor ()
      ensures Valid() && rows == [] && nextId == 0
    {
      rows := [];
      nextId := 0;
    }

    /** `create`: insert one row with the given name and description; a name
        already stored is refused by the table's uniqueness constraint. */
    method Create(d: Degree) returns (r: Result<Row>)
      requires Valid()
      modifies this
      ensures Valid()
      ensures if d.name in Names(Data(old(rows))) then
                r == Err(UniqueViolation(d.name)) && rows == old(rows) && nextId == old(nextId)
              else
                && r == Ok(Row(old(nextId), d))
                && rows == old(rows) + [r.value]
                && nextId == old(nextId) + 1
                && d.name !in old(Contents())
                && Contents() == old(Contents())[d.name := d.description]
    {
      if d.name in Names(Data(rows)) {
        return Err(UniqueViolation(d.name));
      }
      NamesOne(d);
      assert DistinctNames([d]);
      InsertRows(rows, [d], nextId);
      assert Stamp([d], nextId) == [Row(nextId, d)];
      CatalogSnoc([], d);
      CatalogKeys(Data(rows));
      r := Ok(Row(nextId, d));
      rows := rows + [Row(nextId, d)];
      nextId := nextId + 1;
    }

    /** `update`: overwrite name and description of the row with the given
        id. A missing id is reported as not found; a name that another row
        already has is refused by the uniqueness constraint. */
    method Update(id: Id, d: Degree) returns (r: Result<Row>)
      requires Valid()
      modifies this
      ensures Valid() && nextId == old(nextId)
      ensures var k := IndexOfId(old(rows), id);
        if k.None? then
          r == Err(NotFound(id)) && rows == old(rows)
        else if d.name in Names(Data(old(rows))) && d.name != old(rows)[k.value].record.name then
          r == Err(UniqueViolation(d.name)) && rows == old(rows)
        else
          && r == Ok(Row(id, d))
          && rows == old(rows)[k.value := Row(id, d)]
          && Contents() == (old(Contents()) - {old(rows)[k.value].record.name})[d.name := d.description]
    {
      var k := IndexOfId(rows, id);
      if k.None? {
        return Err(NotFound(id));
      }
      var i := k.value;
      if d.name in Names(Data(rows)) && d.name != rows[i].record.name {
        return Err(UniqueViolation(d.name));
      }
      ReplaceRow(rows, nextId, i, d);
      rows := rows[i := Row(id, d)];
      r := Ok(Row(id, d));
    }

    /** `delete`: remove the row with the given id and hand it back. */
    method Delete(id: Id) returns (r: Result<Row>)
      requires Valid()
      modifies this
      ensures Valid() && nextId == old(nextId)
      ensures var k := IndexOfId(old(rows), id);
        if k.None? then
          r == Err(NotFound(id)) && rows == old(rows)
        else
          && r == Ok(old(rows)[k.value])
          && rows == old(rows)[..k.value] + old(rows)[k.value + 1..]
          && Contents() == old(Contents()) - {r.value.record.name}
    {
      var k := IndexOfId(rows, id);
      if k.None? {
        return Err(NotFound(id));
      }
      var i := k.value;
      r := Ok(rows[i]);
      DropRow(rows, nextId, i);
      rows := rows[..i] + rows[i + 1..];
    }

    /** `deleteAll`: remove every row and report how many there were. */
    method DeleteAll() returns (count: nat)
      requires Valid()
      modifies this
      ensures Valid() && nextId == old(nextId)
      ensures count == |old(rows)| && rows == [] && Contents() == map[]
    {
      count := |rows|;
      rows := [];
    }

    /** The database's `createMany`: one statement that inserts the whole
        batch, or, when a name of the batch is already stored or occurs twice
        in it, fails and inserts nothing. */
    method CreateMany(batch: seq<Degree>) returns (r: Result<nat>)
      requires Valid()
      modifies this
      ensures Valid()
      ensures if DistinctNames(batch) && Names(batch) !! Names(Data(old(rows))) then
                && r == Ok(|batch|)
                && rows == old(rows) + Stamp(batch, old(nextId))
                && Data(rows) == Data(old(rows)) + batch
                && nextId == old(nextId) + |batch|
                && Contents() == old(Contents()) + Catalog(batch)
              else
                && r.Err? && r.error.UniqueViolation? && r.error.name in Names(batch)
                && rows == old(rows) && nextId == old(nextId)
    {
      var clash := FirstClash(Names(Data(rows)), batch);
      if clash.Some? {
        return Err(UniqueViolation(clash.value));
      }
      InsertRows(rows, batch, nextId);
      rows := rows + Stamp(batch, nextId);
      nextId := nextId + |batch|;
      r := Ok(|batch|);
    }

    /** The database's `update` keyed by name, as the UPDATE branch issues
        it: the stored row with that name takes the uploaded record. */
    method UpdateByName(d: Degree)
      requires Valid() && d.name in Names(Data(rows))
      modifies this
      ensures Valid() && nextId == old(nextId) && |rows| == |old(rows)|
      ensures forall j :: 0 <= j < |rows| ==>
        rows[j] == if old(rows)[j].record.name == d.name then Row(old(rows)[j].id, d) else old(rows)[j]
      ensures KeepsRows(old(rows), rows)
      ensures Names(Data(rows)) == Names(Data(old(rows)))
      ensures Contents() == old(Contents())[d.name := d.description]
    {
      var k := IndexOfName(rows, d.name);
      var i := k.value;
      RenewRow(rows, nextId, i, d);
      rows := rows[i := Row(rows[i].id, d)];
    }

    /** The first write of the UPDATE branch: bulk-insert the rows with new
        names, when there are any. */
    method CreateNewRows(createNew: seq<Degree>) returns (r: Result<nat>)
      requires Valid() && Names(createNew) !! Names(Data(rows))
      modifies this
      ensures Valid()
      ensures if DistinctNames(createNew) then
                && r == Ok(|createNew|)
                && rows == old(rows) + Stamp(createNew, old(nextId))
                && Data(rows) == Data(old(rows)) + createNew
                && nextId == old(nextId) + |createNew|
                && Contents() == old(Contents()) + Catalog(createNew)
              else
                r.Err? && rows == old(rows) && nextId == old(nextId)
    {
      if |createNew| > 0 {
        r := CreateMany(createNew);
      } else {
        assert Stamp(createNew, nextId) == [] && Catalog(createNew) == map[];
        assert rows + [] == rows && Data(rows) + [] == Data(rows);
        r := Ok(0);
      }
    }

    /** The per-name updates of the UPDATE branch, issued one after the other
        in upload order: for a name that occurs twice, the later row wins. */
    method OverwriteAll(overWritten: seq<Degree>)
      requires Valid()
      requires forall row :: row in overWritten ==> row.name in Names(Data(rows))
      modifies this
      ensures Valid() && nextId == old(nextId) && |rows| == |old(rows)|
      ensures KeepsRows(old(rows), rows)
      ensures Untouched(old(rows), rows, Names(overWritten))
      ensures Contents() == old(Contents()) + Catalog(overWritten)
    {
      var k := 0;
      while k < |overWritten|
        invariant 0 <= k <= |overWritten|
        invariant Valid() && nextId == old(nextId) && |rows| == |old(rows)|
        invariant KeepsRows(old(rows), rows)
        invariant Untouched(old(rows), rows, Names(overWritten))
        invariant Names(Data(rows)) == Names(Data(old(rows)))
        invariant Contents() == old(Contents()) + Catalog(overWritten[..k])
      {
        var row := overWritten[k];
        assert row in overWritten;
        ghost var before := rows;
        UpdateByName(row);
        assert row.name in Names(overWritten) by {
          assert overWritten[k].name == row.name;
        }
        UntouchedStep(old(rows), before, rows, Names(overWritten), row);
        KeepsRowsTrans(old(rows), before, rows);
        CatalogPrefix(overWritten, k);
        MapOverrideUpdate(old(Contents()), Catalog(overWritten[..k]), row.name, row.description);
        k := k + 1;
      }
      assert overWritten[..|overWritten|] == overWritten;
    }

    /** RESET: delete every row when there is any, then bulk-insert the whole
        upload. With an empty upload the table ends empty; with a name twice
        in the upload the insert fails after the rows are already gone. */
    method ImportReset(upload: seq<Degree>) returns (r: Result<ImportReply>)
      requires Valid()
      modifies this
      ensures Valid()
      ensures if DistinctNames(upload) then
                && r == Ok(Inserted(|upload|))
                && Data(rows) == upload
                && Contents() == Catalog(upload)
                && nextId == old(nextId) + |upload|
              else
                r.Err? && rows == [] && nextId == old(nextId)
    {
      var count := |rows|;
      if count > 0 {
        rows := [];
      }
      var res := CreateMany(upload);
      r := if res.Ok? then Ok(Inserted(res.value)) else Err(res.error);
    }

    /** UPDATE: bulk-insert the upload rows with new names, then overwrite
        the stored row of each upload row with a known name, one after the
        other in upload order. A name twice among the new rows makes the
        insert fail before anything is written. */
    method ImportUpdate(upload: seq<Degree>, oldNames: set<string>) returns (r: Result<ImportReply>)
      requires Valid() && oldNames == Names(Data(rows))
      modifies this
      ensures Valid()
      ensures var created := Select(upload, oldNames, false);
        if DistinctNames(created) then
          && r == Ok(Nothing)
          && Contents() == old(Contents()) + Catalog(upload)
          && |rows| == |old(rows)| + |created|
          && nextId == old(nextId) + |created|
          && KeepsRows(old(rows), rows)
          && Data(rows)[|old(rows)|..] == created
        else
          r.Err? && rows == old(rows) && nextId == old(nextId)
    {
      var overWritten, createNew := DegreeImport.PartitionUpload(upload, oldNames);
      DegreeImport.SplitNamesApart(upload, oldNames);
      var res := CreateNewRows(createNew);
      if res.Err? {
        return Err(res.error);
      }
      assert oldNames <= Names(Data(rows)) by {
        NamesAppend(Data(old(rows)), createNew);
      }
      KeepsRowsAppend(old(rows), Stamp(createNew, old(nextId)));
      ghost var mid, midRows := Contents(), rows;
      ghost var cOver := Catalog(overWritten);
      if |overWritten| > 0 {
        OverwriteAll(overWritten);
        KeepsRowsTrans(old(rows), midRows, rows);
      } else {
        assert cOver == map[];
        MapOverrideEmpty(mid);
      }
      TailKept(old(rows), midRows, rows, createNew, old(nextId), Names(overWritten));
      assert Contents() == mid + cOver;
      assert Contents() == old(Contents()) + Catalog(upload) by {
        DegreeImport.UpdateApplies(old(Contents()), upload, oldNames);
      }
      r := Ok(Nothing);
    }

    /** ADD_NEW_ONLY: bulk-insert only the upload rows whose names are not
        stored yet; stored rows are left as they are. */
    method ImportAddNewOnly(upload: seq<Degree>, oldNames: set<string>) returns (r: Result<ImportReply>)
      requires Valid() && oldNames == Names(Data(rows))
      modifies this
      ensures Valid()
      ensures var newData := Select(upload, oldNames, false);
        if DistinctNames(newData) then
          && r == Ok(Inserted(|newData|))
          && rows == old(rows) + Stamp(newData, old(nextId))
          && Contents() == old(Contents()) + Catalog(newData)
        else
          r.Err? && rows == old(rows) && nextId == old(nextId)
    {
      var newData := DegreeImport.NewRowsOnly(upload, oldNames);
      SelectNames(upload, oldNames, false);
      var res := CreateMany(newData);
      r := if res.Ok? then Ok(Inserted(res.value)) else Err(res.error);
    }

    /** `import`: read the stored names, then reconcile the upload according
        to `importMethod`. A null or unrecognised method changes nothing and
        returns nothing. */
    method Import(upload: seq<Degree>, importMethod: Option<string>) returns (r: Result<ImportReply>)
      requires Valid()
      modifies this
      ensures Valid()
      ensures importMethod == Some("RESET") ==>
        if DistinctNames(upload) then
          r == Ok(Inserted(|upload|)) && Data(rows) == upload && Contents() == Catalog(upload)
        else
          r.Err? && rows == []
      ensures importMethod == Some("UPDATE") ==>
        var created := Select(upload, Names(Data(old(rows))), false);
        if DistinctNames(created) then
          && r == Ok(Nothing)
          && Contents() == old(Contents()) + Catalog(upload)
          && |rows| == |old(rows)| + |created|
          && KeepsRows(old(rows), rows)
          && Data(rows)[|old(rows)|..] == created
        else
          r.Err? && rows == old(rows) && nextId == old(nextId)
      ensures importMethod == Some("ADD_NEW_ONLY") ==>
        var newData := Select(upload, Names(Data(old(rows))), false);
        if DistinctNames(newData) then
          && r == Ok(Inserted(|newData|))
          && rows == old(rows) + Stamp(newData, old(nextId))
          && Contents() == old(Contents()) + Catalog(newData)
        else
          r.Err? && rows == old(rows) && nextId == old(nextId)
      ensures importMethod !in {Some("RESET"), Some("UPDATE"), Some("ADD_NEW_ONLY")} ==>
        r == Ok(Nothing) && rows == old(rows) && nextId == old(nextId)
    {
      var oldNames := DegreeImport.CollectNames(rows);
      if importMethod == Some("RESET") {
        r := ImportReset(upload);
      } else if importMethod == Some("UPDATE") {
        r := ImportUpdate(upload, oldNames);
      } else if importMethod == Some("ADD_NEW_ONLY") {
        r := ImportAddNewOnly(upload, oldNames);
      } else {
        r := Ok(Nothing);
      }
    }
  }
}
