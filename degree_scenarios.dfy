/** Verified client methods of the store's `import`: the outcome of each
    mode on a table holding degrees "A" and "B", derived from the contracts
    alone. */
module DegreeScenarios {
  import opened DegreeModel
  import opened DegreeStore

  method TableAB() returns (t: DegreeTable)
    ensures fresh(t) && t.Valid()
    ensures t.Contents() == map["A" := "a", "B" := "b"]
    ensures Names(Data(t.rows)) == {"A", "B"}
  {
    t := new DegreeTable();
    var ra := t.Create(Degree("A", "a"));
    var rb := t.Create(Degree("B", "b"));
    CatalogKeys(Data(t.rows));
  }

  /** The mode strings differ from one another and from "MERGE". */
  lemma ModesDiffer()
    ensures "RESET" != "UPDATE" && "RESET" != "ADD_NEW_ONLY" && "UPDATE" != "ADD_NEW_ONLY"
    ensures "MERGE" !in {"RESET", "UPDATE", "ADD_NEW_ONLY"}
  {
    assert "RESET"[0] != "UPDATE"[0] && "RESET"[0] != "ADD_NEW_ONLY"[0] && "UPDATE"[0] != "ADD_NEW_ONLY"[0];
    assert "MERGE"[0] != "RESET"[0] && "MERGE"[0] != "UPDATE"[0] && "MERGE"[0] != "ADD_NEW_ONLY"[0];
  }

  /** Of an upload of a stored name B and a new name C, only C is new. */
  lemma NewOfBC(b: string)
    ensures Select([Degree("B", b), Degree("C", "c")], {"A", "B"}, false) == [Degree("C", "c")]
  {
    assert [Degree("B", b), Degree("C", "c")][..1] == [Degree("B", b)];
  }

  lemma CatalogOfBC()
    ensures Catalog([Degree("B", "b2"), Degree("C", "c")]) == map["B" := "b2", "C" := "c"]
  {
    CatalogSnoc([Degree("B", "b2")], Degree("C", "c"));
    CatalogSnoc([], Degree("B", "b2"));
  }

  lemma OverrideAB()
    ensures map["A" := "a", "B" := "b"] + map["B" := "b2", "C" := "c"] == map["A" := "a", "B" := "b2", "C" := "c"]
  {
    ModesDiffer();
  }

  /** UPDATE with [B', C]: A is kept, B takes the new description, C is added. */
  method UpdateScenario()
  {
    var t := TableAB();
    var upload := [Degree("B", "b2"), Degree("C", "c")];
    NewOfBC("b2");
    CatalogOfBC();
    OverrideAB();
    ModesDiffer();
    var r := t.Import(upload, Some("UPDATE"));
    assert r == Ok(Nothing);
    assert t.Contents() == map["A" := "a", "B" := "b2", "C" := "c"];
  }

  /** ADD_NEW_ONLY with [B, C]: only C is inserted. */
  method AddNewOnlyScenario()
  {
    var t := TableAB();
    var upload := [Degree("B", "other"), Degree("C", "c")];
    NewOfBC("other");
    CatalogSnoc([], Degree("C", "c"));
    ModesDiffer();
    var r := t.Import(upload, Some("ADD_NEW_ONLY"));
    assert r == Ok(Inserted(1));
    assert t.Contents() == map["A" := "a", "B" := "b", "C" := "c"];
  }

  /** RESET with [C, D]: A and B are gone; RESET with [] empties the table. */
  method ResetScenario()
  {
    var t := TableAB();
    var upload := [Degree("C", "c"), Degree("D", "d")];
    ModesDiffer();
    var r := t.Import(upload, Some("RESET"));
    assert r == Ok(Inserted(2));
    assert Data(t.rows) == upload;
    r := t.Import([], Some("RESET"));
    assert r == Ok(Inserted(0)) && t.rows == [];
  }

  /** An unknown method changes nothing. */
  method UnknownModeScenario()
  {
    var t := TableAB();
    ModesDiffer();
    var r := t.Import([Degree("C", "c")], Some("MERGE"));
    assert r == Ok(Nothing) && t.Contents() == map["A" := "a", "B" := "b"];
    r := t.Import([Degree("C", "c")], None);
    assert r == Ok(Nothing) && t.Contents() == map["A" := "a", "B" := "b"];
  }
}
