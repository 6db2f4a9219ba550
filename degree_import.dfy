/** The steps of the router's `import` procedure that only compute: the set of
    names read at the start, the split of the upload used by UPDATE, the
    filter used by ADD_NEW_ONLY, and what each mode makes of the name ->
    description view of the table. */
module DegreeImport {
  import opened DegreeModel

  /** `oldListSet`: the names of all rows read at the start of an import,
      gathered into a list one row at a time and then made a set. */
  method CollectNames(oldList: seq<Row>) returns (names: set<string>)
    ensures forall n :: n in names <==> exists i :: 0 <= i < |oldList| && oldList[i].record.name == n
    ensures names == Names(Data(oldList))
  {
    var acc: seq<string> := [];
    var i := 0;
    while i < |oldList|
      invariant 0 <= i <= |oldList|
      invariant |acc| == i
      invariant forall k :: 0 <= k < i ==> acc[k] == oldList[k].record.name
    {
      acc := acc + [oldList[i].record.name];
      i := i + 1;
    }
    names := set n | n in acc;
    forall n | n in Names(Data(oldList)) ensures n in names {
      var k :| 0 <= k < |oldList| && Data(oldList)[k].name == n;
      assert acc[k] == n;
    }
  }

  /** The UPDATE split: each uploaded row goes to `overWritten` when its name
      is already stored and to `createNew` otherwise, both in upload order. */
  method PartitionUpload(upload: seq<Degree>, oldNames: set<string>)
    returns (overWritten: seq<Degree>, createNew: seq<Degree>)
    ensures overWritten == Select(upload, oldNames, true)
    ensures createNew == Select(upload, oldNames, false)
    ensures forall r :: r in overWritten ==> r.name in oldNames
    ensures forall r :: r in createNew ==> r.name !in oldNames
  {
    overWritten, createNew := [], [];
    var i := 0;
    while i < |upload|
      invariant 0 <= i <= |upload|
      invariant overWritten == Select(upload[..i], oldNames, true)
      invariant createNew == Select(upload[..i], oldNames, false)
    {
      assert upload[..i + 1][..i] == upload[..i];
      var row := upload[i];
      if row.name in oldNames {
        overWritten := overWritten + [row];
      } else if row.name !in oldNames {
        createNew := createNew + [row];
      }
      i := i + 1;
    }
    assert upload[..|upload|] == upload;
    SelectMembers(upload, oldNames, true);
    SelectMembers(upload, oldNames, false);
  }

  /** The ADD_NEW_ONLY filter `newData`: the uploaded rows whose name is not
      stored yet, in upload order. */
  method NewRowsOnly(upload: seq<Degree>, oldNames: set<string>) returns (newData: seq<Degree>)
    ensures newData == Select(upload, oldNames, false)
    ensures forall r :: r in newData <==> r in upload && r.name !in oldNames
  {
    newData := [];
    var i := 0;
    while i < |upload|
      invariant 0 <= i <= |upload|
      invariant newData == Select(upload[..i], oldNames, false)
    {
      assert upload[..i + 1][..i] == upload[..i];
      if upload[i].name !in oldNames {
        newData := newData + [upload[i]];
      }
      i := i + 1;
    }
    assert upload[..|upload|] == upload;
    SelectMembers(upload, oldNames, false);
  }

  // ---------------------------------------------------------------------------
  // What each mode does to the name -> description view
  // ---------------------------------------------------------------------------

  /** UPDATE leaves the table's view as `before + Catalog(upload)`. In those
      terms: no stored name disappears and every uploaded name is present; a
      name stored before and absent from the upload keeps its description;
      a name in the upload ends with the description of its last upload row,
      whether it was stored before or not. */
  lemma {:induction false} UpdateOutcome(before: map<string, string>, upload: seq<Degree>, i: int)
    requires 0 <= i < |upload|
    requires forall j :: i < j < |upload| ==> upload[j].name != upload[i].name
    ensures (before + Catalog(upload)).Keys == before.Keys + Names(upload)
    ensures forall n :: n in before && n !in Names(upload) ==> (before + Catalog(upload))[n] == before[n]
    ensures (before + Catalog(upload))[upload[i].name] == upload[i].description
  {
    CatalogKeys(upload);
    CatalogLastWins(upload, i);
  }

  /** The new-name part of the UPDATE split shares no name with the stored
      names, nor with the stored-name part. */
  lemma SplitNamesApart(upload: seq<Degree>, oldNames: set<string>)
    ensures Names(Select(upload, oldNames, false)) !! oldNames
    ensures Names(Select(upload, oldNames, false)) !! Names(Select(upload, oldNames, true))
  {
    SelectNames(upload, oldNames, false);
    SelectNames(upload, oldNames, true);
  }

  /** The UPDATE branch inserts the new-name rows, then overwrites with the
      stored-name rows; in the name view that is the same as applying the
      whole upload over what was stored. */
  lemma UpdateApplies(before: map<string, string>, upload: seq<Degree>, oldNames: set<string>)
    ensures before + Catalog(Select(upload, oldNames, false)) + Catalog(Select(upload, oldNames, true))
         == before + Catalog(upload)
  {
    CatalogPartition(upload, oldNames);
    MapOverrideAssoc(before, Catalog(Select(upload, oldNames, false)), Catalog(Select(upload, oldNames, true)));
  }

  /** ADD_NEW_ONLY leaves the table's view as `before + Catalog(newData)`
      with `newData` the upload rows whose names `before` lacks: every stored
      name keeps its description, and the names afterwards are the stored
      ones and the uploaded ones. */
  lemma AddNewOnlyOutcome(before: map<string, string>, upload: seq<Degree>)
    ensures var after := before + Catalog(Select(upload, before.Keys, false));
      && after.Keys == before.Keys + Names(upload)
      && forall n :: n in before ==> after[n] == before[n]
  {
    var newData := Select(upload, before.Keys, false);
    SelectNames(upload, before.Keys, false);
    CatalogKeys(newData);
  }
}
