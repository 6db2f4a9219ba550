/** The data of the degree router: the `IData` record, the rows the store
    keeps, the store's errors, and the name-keyed view of a list of records
    that the import reconciliation works on. */
module DegreeModel {

  datatype Option<+T> = None | Some(value: T)

  /** Identifier the store assigns when a row is created. */
  type Id = nat

  /** Errors the database raises on the router's behalf. */
  datatype StoreError =
    | UniqueViolation(name: string)  // a second row with a name already in use
    | NotFound(id: Id)               // no row has this id

  datatype Result<+T> = Ok(value: T) | Err(error: StoreError)

  /** `IData`: the fields a caller supplies for a degree. */
  datatype Degree = Degree(name: string, description: string)

  /** A stored row: the store's id and the record. */
  datatype Row = Row(id: Id, record: Degree)

  // ---------------------------------------------------------------------------
  // Views of a table of rows
  // ---------------------------------------------------------------------------

  /** The records of a table, in table order. */
  function Data(rows: seq<Row>): (s: seq<Degree>)
    ensures |s| == |rows|
    ensures forall i :: 0 <= i < |rows| ==> s[i] == rows[i].record
  {
    seq(|rows|, i requires 0 <= i < |rows| => rows[i].record)
  }

  /** The set of names that occur in a list of records. */
  function Names(s: seq<Degree>): set<string>
  {
    set i | 0 <= i < |s| :: s[i].name
  }

  /** No name occurs twice. */
  ghost predicate DistinctNames(s: seq<Degree>)
  {
    forall i, j :: 0 <= i < j < |s| ==> s[i].name != s[j].name
  }

  /** Ids strictly increase along the table, so table order is id order. */
  ghost predicate IdsAscending(rows: seq<Row>)
  {
    forall i, j :: 0 <= i < j < |rows| ==> rows[i].id < rows[j].id
  }

  lemma NamesAppend(a: seq<Degree>, b: seq<Degree>)
    ensures Names(a + b) == Names(a) + Names(b)
  {
    forall n | n in Names(a + b) ensures n in Names(a) + Names(b) {
      var i :| 0 <= i < |a + b| && (a + b)[i].name == n;
      if i >= |a| { assert b[i - |a|].name == n; }
    }
    forall n | n in Names(a) + Names(b) ensures n in Names(a + b) {
      if n in Names(a) {
        var i :| 0 <= i < |a| && a[i].name == n;
        assert (a + b)[i].name == n;
      } else {
        var i :| 0 <= i < |b| && b[i].name == n;
        assert (a + b)[|a| + i].name == n;
      }
    }
  }

  lemma NamesOne(d: Degree)
    ensures Names([d]) == {d.name}
  {
    assert [d][0].name == d.name;
  }

  /** Two lists without repeated names and with no name in common make a
      list without repeated names. */
  lemma DistinctAppend(a: seq<Degree>, b: seq<Degree>)
    requires DistinctNames(a) && DistinctNames(b) && Names(a) !! Names(b)
    ensures DistinctNames(a + b)
  {
    forall i, j | 0 <= i < j < |a + b| ensures (a + b)[i].name != (a + b)[j].name {
      if i < |a| && j >= |a| {
        assert (a + b)[i].name in Names(a);
        assert (a + b)[j].name == b[j - |a|].name;
        assert b[j - |a|].name in Names(b);
      }
    }
  }

  // ---------------------------------------------------------------------------
  // Catalog: the name -> description view
  // ---------------------------------------------------------------------------

  /** What a list of records says about each name: a later record with the
      same name overrides an earlier one. On the store's rows, whose names are
      distinct, it is the content of the table as seen by name. */
  ghost function Catalog(s: seq<Degree>): map<string, string>
  {
    if s == [] then map[]
    else Catalog(s[..|s| - 1])[s[|s| - 1].name := s[|s| - 1].description]
  }

  /** A catalog holds exactly the names of its records. */
  lemma {:induction false} CatalogKeys(s: seq<Degree>)
    ensures Catalog(s).Keys == Names(s)
  {
    if s != [] {
      var p := s[..|s| - 1];
      CatalogKeys(p);
      assert s == p + [s[|s| - 1]];
      NamesAppend(p, [s[|s| - 1]]);
    }
  }

  /** The last record with a given name decides its description. */
  lemma {:induction false} CatalogLastWins(s: seq<Degree>, i: int)
    requires 0 <= i < |s|
    requires forall j :: i < j < |s| ==> s[j].name != s[i].name
    ensures s[i].name in Catalog(s) && Catalog(s)[s[i].name] == s[i].description
  {
    if i < |s| - 1 {
      CatalogLastWins(s[..|s| - 1], i);
    }
  }

  lemma MapOverrideUpdate(m: map<string, string>, m': map<string, string>, k: string, v: string)
    ensures m + m'[k := v] == (m + m')[k := v]
  {
  }

  lemma MapUpdateUnder(m: map<string, string>, m': map<string, string>, k: string, v: string)
    requires k !in m'
    ensures m[k := v] + m' == (m + m')[k := v]
  {
  }

  lemma CatalogSnoc(s: seq<Degree>, x: Degree)
    ensures Catalog(s + [x]) == Catalog(s)[x.name := x.description]
  {
    assert (s + [x])[..|s|] == s;
  }

  /** Reading one more record of a list. */
  lemma CatalogPrefix(s: seq<Degree>, k: int)
    requires 0 <= k < |s|
    ensures Catalog(s[..k + 1]) == Catalog(s[..k])[s[k].name := s[k].description]
  {
    assert s[..k + 1][..k] == s[..k];
  }

  /** Reading two lists one after the other: the second overrides the first. */
  lemma {:induction false} CatalogAppend(a: seq<Degree>, b: seq<Degree>)
    ensures Catalog(a + b) == Catalog(a) + Catalog(b)
  {
    if b == [] {
      assert a + b == a;
    } else {
      var b' := b[..|b| - 1];
      var x := b[|b| - 1];
      assert a + b == (a + b') + [x];
      assert b == b' + [x];
      CatalogAppend(a, b');
      CatalogSnoc(a + b', x);
      CatalogSnoc(b', x);
    }
  }

  /** A name that no record carries is not in the list's names. */
  lemma NameAbsent(s: seq<Degree>, n: string)
    requires forall i :: 0 <= i < |s| ==> s[i].name != n
    ensures n !in Names(s)
  {
  }

  /** Cutting a list without repeated names around position `k`: the name at
      `k` occurs in neither part. */
  lemma SplitAround(s: seq<Degree>, k: int)
    requires DistinctNames(s) && 0 <= k < |s|
    ensures s == s[..k] + [s[k]] + s[k + 1..]
    ensures s[k].name !in Names(s[..k]) && s[k].name !in Names(s[k + 1..])
    ensures DistinctNames(s[..k]) && DistinctNames(s[k + 1..])
  {
    var a: seq<Degree>, b: seq<Degree> := s[..k], s[k + 1..];
    forall i | 0 <= i < |a| ensures a[i].name != s[k].name {
      assert a[i] == s[i];
    }
    forall i | 0 <= i < |b| ensures b[i].name != s[k].name {
      assert b[i] == s[k + 1 + i];
    }
    NameAbsent(a, s[k].name);
    NameAbsent(b, s[k].name);
    assert DistinctNames(b) by {
      forall i, j | 0 <= i < j < |b| ensures b[i].name != b[j].name {
        assert b[i] == s[k + 1 + i] && b[j] == s[k + 1 + j];
      }
    }
  }

  lemma MapOverrideEmpty(m: map<string, string>)
    ensures m + map[] == m
  {
  }

  lemma MapOverrideAssoc(m: map<string, string>, m': map<string, string>, m'': map<string, string>)
    ensures (m + m') + m'' == m + (m' + m'')
  {
  }

  lemma MapUpdateRemove(m: map<string, string>, m': map<string, string>, k: string, v: string)
    requires k !in m && k !in m'
    ensures (m[k := v] + m') - {k} == m + m'
  {
  }

  lemma MapRenew(m: map<string, string>, k: string, v: string)
    requires k in m
    ensures (m - {k})[k := v] == m[k := v]
    ensures m[k := v].Keys == m.Keys
  {
  }

  /** Dropping the record at `k` keeps the names distinct. */
  lemma DistinctRemove(s: seq<Degree>, k: int)
    requires DistinctNames(s) && 0 <= k < |s|
    ensures DistinctNames(s[..k] + s[k + 1..])
  {
    var t := s[..k] + s[k + 1..];
    forall i, j | 0 <= i < j < |t| ensures t[i].name != t[j].name {
      var i' := if i < k then i else i + 1;
      var j' := if j < k then j else j + 1;
      assert t[i] == s[i'] && t[j] == s[j'];
    }
  }

  /** Overwriting the record at `k` with one that keeps its name, or takes a
      name no record has, keeps the names distinct. */
  lemma DistinctReplace(s: seq<Degree>, k: int, d: Degree)
    requires DistinctNames(s) && 0 <= k < |s|
    requires d.name == s[k].name || d.name !in Names(s)
    ensures DistinctNames(s[k := d])
  {
    var t := s[k := d];
    forall i, j | 0 <= i < j < |t| ensures t[i].name != t[j].name {
      if i == k { assert s[j].name in Names(s); }
      if j == k { assert s[i].name in Names(s); }
    }
  }

  /** The catalog of a list without repeated names, seen around position
      `k`: the entry for the name at `k` comes from that record alone. */
  lemma CatalogAround(s: seq<Degree>, k: int)
    requires DistinctNames(s) && 0 <= k < |s|
    ensures var a, b := s[..k], s[k + 1..];
      && s[k].name !in Catalog(a) && s[k].name !in Catalog(b)
      && Catalog(s) == Catalog(a)[s[k].name := s[k].description] + Catalog(b)
      && Names(b) <= Names(s)
  {
    var a: seq<Degree>, b: seq<Degree> := s[..k], s[k + 1..];
    SplitAround(s, k);
    CatalogKeys(a);
    CatalogKeys(b);
    CatalogAppend(a + [s[k]], b);
    CatalogSnoc(a, s[k]);
    NamesAppend(a + [s[k]], b);
  }

  /** Overwriting one record of a list without repeated names, keeping the
      names distinct, replaces that one entry of the catalog and no other. */
  lemma CatalogReplace(s: seq<Degree>, k: int, d: Degree)
    requires DistinctNames(s) && 0 <= k < |s|
    requires d.name == s[k].name || d.name !in Names(s)
    ensures DistinctNames(s[k := d])
    ensures Catalog(s[k := d]) == (Catalog(s) - {s[k].name})[d.name := d.description]
  {
    DistinctReplace(s, k, d);
    var a: seq<Degree>, b: seq<Degree> := s[..k], s[k + 1..];
    CatalogAround(s, k);
    var ca, cb := Catalog(a), Catalog(b);
    assert s[k := d] == (a + [d]) + b;
    CatalogAppend(a + [d], b);
    CatalogSnoc(a, d);
    CatalogKeys(b);
    MapUpdateRemove(ca, cb, s[k].name, s[k].description);
    MapUpdateUnder(ca, cb, d.name, d.description);
  }

  /** Removing one record of a list without repeated names drops exactly its
      name from the catalog. */
  lemma CatalogRemove(s: seq<Degree>, k: int)
    requires DistinctNames(s) && 0 <= k < |s|
    ensures DistinctNames(s[..k] + s[k + 1..])
    ensures Catalog(s[..k] + s[k + 1..]) == Catalog(s) - {s[k].name}
  {
    DistinctRemove(s, k);
    var a: seq<Degree>, b: seq<Degree> := s[..k], s[k + 1..];
    CatalogAround(s, k);
    CatalogAppend(a, b);
    MapUpdateRemove(Catalog(a), Catalog(b), s[k].name, s[k].description);
  }

  // ---------------------------------------------------------------------------
  // Selection of uploaded records by name
  // ---------------------------------------------------------------------------

  /** The records of `s` whose name is in `names` (when `present`) or is not
      (when `!present`), in their original order. */
  function Select(s: seq<Degree>, names: set<string>, present: bool): (r: seq<Degree>)
    ensures |r| <= |s|
  {
    if s == [] then []
    else
      var p := Select(s[..|s| - 1], names, present);
      if (s[|s| - 1].name in names) == present then p + [s[|s| - 1]] else p
  }

  /** The positions in `s` of the records `Select` keeps. */
  function Positions(s: seq<Degree>, names: set<string>, present: bool): seq<int>
  {
    if s == [] then []
    else
      var p := Positions(s[..|s| - 1], names, present);
      if (s[|s| - 1].name in names) == present then p + [|s| - 1] else p
  }

  /** A record is selected if and only if it is in the list and its name is
      (or is not) in the set. */
  lemma {:induction false} SelectMembers(s: seq<Degree>, names: set<string>, present: bool)
    ensures forall x :: x in Select(s, names, present) <==> x in s && (x.name in names) == present
  {
    if s != [] {
      var p := s[..|s| - 1];
      SelectMembers(p, names, present);
      assert s == p + [s[|s| - 1]];
    }
  }

  /** `Select` keeps upload order: its result is the records of `s` at the
      strictly increasing positions `Positions`, and those positions are
      exactly the ones whose record qualifies. */
  lemma {:induction false} SelectInOrder(s: seq<Degree>, names: set<string>, present: bool)
    ensures var r, ps := Select(s, names, present), Positions(s, names, present);
      && |ps| == |r|
      && (forall k :: 0 <= k < |ps| ==> 0 <= ps[k] < |s| && r[k] == s[ps[k]])
      && (forall k, l :: 0 <= k < l < |ps| ==> ps[k] < ps[l])
      && (forall i :: 0 <= i < |s| ==> (i in ps <==> (s[i].name in names) == present))
  {
    if s != [] {
      var p := s[..|s| - 1];
      SelectInOrder(p, names, present);
    }
  }

  /** The two selections split the list: together they hold every record of
      `s`, each as often as it occurs there. */
  lemma {:induction false} SelectSplit(s: seq<Degree>, names: set<string>)
    ensures multiset(Select(s, names, true)) + multiset(Select(s, names, false)) == multiset(s)
    ensures |Select(s, names, true)| + |Select(s, names, false)| == |s|
  {
    if s != [] {
      var p, x := s[..|s| - 1], s[|s| - 1];
      SelectSplit(p, names);
      assert s == p + [x];
      assert multiset(s) == multiset(p) + multiset{x};
    }
  }

  /** Selecting from a concatenation is concatenating the selections. */
  lemma {:induction false} SelectAppend(a: seq<Degree>, b: seq<Degree>, names: set<string>, present: bool)
    ensures Select(a + b, names, present) == Select(a, names, present) + Select(b, names, present)
  {
    if b == [] {
      assert a + b == a;
    } else {
      var b' := b[..|b| - 1];
      assert (a + b)[..|a + b| - 1] == a + b';
      SelectAppend(a, b', names, present);
    }
  }

  /** The names of a selection are those of the list that are (or are not)
      in the set. */
  lemma {:induction false} SelectNames(s: seq<Degree>, names: set<string>, present: bool)
    ensures Names(Select(s, names, present)) == if present then Names(s) * names else Names(s) - names
  {
    if s != [] {
      var p, x := s[..|s| - 1], s[|s| - 1];
      SelectNames(p, names, present);
      assert s == p + [x];
      NamesAppend(p, [x]);
      if (x.name in names) == present {
        NamesAppend(Select(p, names, present), [x]);
      }
    }
  }

  /** Every record of the upload is in exactly one selection, so the catalog
      of the upload is the catalog of the rows with new names overridden by
      the catalog of the rows with known names. */
  lemma {:induction false} CatalogPartition(s: seq<Degree>, names: set<string>)
    ensures Catalog(s) == Catalog(Select(s, names, false)) + Catalog(Select(s, names, true))
  {
    if s != [] {
      var p, x := s[..|s| - 1], s[|s| - 1];
      var known, novel := Select(p, names, true), Select(p, names, false);
      CatalogPartition(p, names);
      assert Catalog(s) == (Catalog(novel) + Catalog(known))[x.name := x.description];
      if x.name in names {
        assert Select(s, names, true) == known + [x];
        CatalogSnoc(known, x);
        MapOverrideUpdate(Catalog(novel), Catalog(known), x.name, x.description);
      } else {
        assert Select(s, names, false) == novel + [x];
        CatalogSnoc(novel, x);
        SelectNames(p, names, true);
        CatalogKeys(known);
        MapUpdateUnder(Catalog(novel), Catalog(known), x.name, x.description);
      }
    }
  }

  // ---------------------------------------------------------------------------
  // Bulk insert
  // ---------------------------------------------------------------------------

  /** The rows a bulk insert of `batch` appends when `first` is the next id. */
  function Stamp(batch: seq<Degree>, first: Id): (rows: seq<Row>)
    ensures |rows| == |batch|
    ensures forall k :: 0 <= k < |rows| ==> rows[k] == Row(first + k, batch[k])
  {
    seq(|batch|, k requires 0 <= k < |batch| => Row(first + k, batch[k]))
  }

  lemma DataAppend(a: seq<Row>, b: seq<Row>)
    ensures Data(a + b) == Data(a) + Data(b)
  {
    assert Data(a + b) == Data(a) + Data(b);
  }

  /** Appending stamped rows after rows whose ids are below `first` keeps
      the ids ascending and below `first + |batch|`, and appends the batch's
      records. */
  lemma StampAppend(rows: seq<Row>, batch: seq<Degree>, first: Id)
    requires IdsAscending(rows) && forall i :: 0 <= i < |rows| ==> rows[i].id < first
    ensures IdsAscending(rows + Stamp(batch, first))
    ensures forall i :: 0 <= i < |rows| + |batch| ==> (rows + Stamp(batch, first))[i].id < first + |batch|
    ensures Data(rows + Stamp(batch, first)) == Data(rows) + batch
  {
    DataAppend(rows, Stamp(batch, first));
    assert Data(Stamp(batch, first)) == batch;
  }

  /** The first name of `batch` that a bulk insert cannot store because it is
      already `taken` or occurs earlier in the batch; None when the whole
      batch can be stored. */
  function FirstClash(taken: set<string>, batch: seq<Degree>): (r: Option<string>)
    ensures r.None? <==> DistinctNames(batch) && Names(batch) !! taken
    ensures r.Some? ==> r.value in Names(batch)
    decreases |batch|
  {
    if batch == [] then None
    else if batch[0].name in taken then Some(batch[0].name)
    else
      var r := FirstClash(taken + {batch[0].name}, batch[1..]);
      assert Names(batch) == {batch[0].name} + Names(batch[1..]) by {
        assert batch == [batch[0]] + batch[1..];
        NamesAppend([batch[0]], batch[1..]);
      }
      assert r.None? ==> DistinctNames(batch) by {
        if r.None? {
          forall i, j | 0 <= i < j < |batch| ensures batch[i].name != batch[j].name {
            assert batch[j] == batch[1..][j - 1];
            if i > 0 { assert batch[i] == batch[1..][i - 1]; }
          }
        }
      }
      assert DistinctNames(batch) ==> batch[0].name !in Names(batch[1..]) by {
        if DistinctNames(batch) {
          forall j | 0 <= j < |batch| - 1 ensures batch[1..][j].name != batch[0].name {
            assert batch[1..][j] == batch[j + 1];
          }
          NameAbsent(batch[1..], batch[0].name);
        }
      }
      r
  }

  // ---------------------------------------------------------------------------
  // Lookups by key
  // ---------------------------------------------------------------------------

  /** Position of the row with the given id, if any. */
  function IndexOfId(rows: seq<Row>, id: Id): (k: Option<nat>)
    ensures k.Some? ==> k.value < |rows| && rows[k.value].id == id
    ensures k.None? ==> forall i :: 0 <= i < |rows| ==> rows[i].id != id
  {
    if rows == [] then None
    else if rows[0].id == id then Some(0)
    else match IndexOfId(rows[1..], id)
      case None => None
      case Some(k) => Some(k + 1)
  }

  /** Position of the row with the given name, if any. */
  function IndexOfName(rows: seq<Row>, name: string): (k: Option<nat>)
    ensures k.Some? ==> k.value < |rows| && rows[k.value].record.name == name
    ensures k.None? ==> name !in Names(Data(rows))
  {
    if rows == [] then None
    else if rows[0].record.name == name then Some(0)
    else match IndexOfName(rows[1..], name)
      case None =>
        assert Data(rows) == [rows[0].record] + Data(rows[1..]);
        NamesAppend([rows[0].record], Data(rows[1..]));
        None
      case Some(k) => Some(k + 1)
  }
}
