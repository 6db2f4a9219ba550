/** The router's read-only procedures `get` and `getById`, as selections over
    the table's rows. The rows are taken in table order, which is id order on
    the store's table (its ids ascend). */
module DegreeQueries {
  import opened DegreeModel

  /** What `get` returns: one page of rows and the size of the whole table. */
  datatype Page = Page(queryData: seq<Row>, rowCount: nat)

  function Min(a: int, b: int): int { if a <= b then a else b }

  /** ASCII lower-casing: the part of the case-insensitive comparison the
      model keeps. */
  function LowerChar(c: char): char
  {
    if 'A' <= c <= 'Z' then (c as int + 32) as char else c
  }

  function Lower(s: string): (r: string)
    ensures |r| == |s|
  {
    seq(|s|, i requires 0 <= i < |s| => LowerChar(s[i]))
  }

  /** `needle` occurs in `hay`: it is a prefix of `hay` or of one of its
      suffixes. */
  predicate Contains(hay: string, needle: string)
    decreases |hay|
  {
    needle <= hay || (hay != [] && Contains(hay[1..], needle))
  }

  /** `needle` is the slice of `hay` that starts at `i`. */
  ghost predicate OccursAt(hay: string, needle: string, i: int)
  {
    0 <= i && i + |needle| <= |hay| && hay[i..i + |needle|] == needle
  }

  /** `Contains` agrees with the reading "some slice of `hay` equals `needle`". */
  lemma {:induction false} ContainsIff(hay: string, needle: string)
    ensures Contains(hay, needle) <==> exists i :: OccursAt(hay, needle, i)
    decreases |hay|
  {
    if hay != [] {
      ContainsIff(hay[1..], needle);
      if needle <= hay {
        assert OccursAt(hay, needle, 0);
      }
      if Contains(hay[1..], needle) {
        var i :| OccursAt(hay[1..], needle, i);
        assert hay[1..][i..i + |needle|] == hay[i + 1..i + 1 + |needle|];
        assert OccursAt(hay, needle, i + 1);
      }
      if exists i :: OccursAt(hay, needle, i) {
        var i :| OccursAt(hay, needle, i);
        if i == 0 {
          assert needle <= hay;
        } else {
          assert hay[1..][i - 1..i - 1 + |needle|] == hay[i..i + |needle|];
          assert OccursAt(hay[1..], needle, i - 1);
        }
      }
    } else {
      if Contains(hay, needle) {
        assert OccursAt(hay, needle, 0);
      }
      if exists i :: OccursAt(hay, needle, i) {
        var i :| OccursAt(hay, needle, i);
        assert needle == [];
      }
    }
  }

  /** The `where` filter of `get`: the name contains the search key, case
      ignored. */
  predicate NameMatches(name: string, searchKey: string)
  {
    Contains(Lower(name), Lower(searchKey))
  }

  /** The rows whose name matches the search key, in table order. */
  function Matching(table: seq<Row>, searchKey: string): (m: seq<Row>)
    ensures |m| <= |table|
    ensures forall r :: r in m <==> r in table && NameMatches(r.record.name, searchKey)
    ensures searchKey == [] ==> m == table
  {
    if table == [] then []
    else
      var rest := Matching(table[1..], searchKey);
      assert table == [table[0]] + table[1..];
      if NameMatches(table[0].record.name, searchKey) then [table[0]] + rest else rest
  }

  /** Filtering keeps table order, so matches of a table in id order are in
      id order. */
  lemma {:induction false} MatchingAscending(table: seq<Row>, searchKey: string)
    ensures IdsAscending(table) ==> IdsAscending(Matching(table, searchKey))
  {
    if table != [] && IdsAscending(table) {
      var rest := Matching(table[1..], searchKey);
      assert IdsAscending(table[1..]) by {
        forall i, j | 0 <= i < j < |table| - 1 ensures table[1..][i].id < table[1..][j].id {
          assert table[1..][i] == table[i + 1] && table[1..][j] == table[j + 1];
        }
      }
      MatchingAscending(table[1..], searchKey);
      if NameMatches(table[0].record.name, searchKey) {
        var m := [table[0]] + rest;
        forall j | 0 < j < |m| ensures table[0].id < m[j].id {
          assert m[j] in table[1..];
          var k :| 0 <= k < |table| - 1 && table[1..][k] == m[j];
          assert table[1..][k] == table[k + 1];
        }
      }
    }
  }

  /** `skip`/`take` on a list: at most `take` elements, starting after the
      first `skip`. */
  function Window(m: seq<Row>, skip: nat, take: nat): (w: seq<Row>)
    ensures |w| == if skip < |m| then Min(take, |m| - skip) else 0
    ensures forall k :: 0 <= k < |w| ==> w[k] == m[skip + k]
    ensures IdsAscending(m) ==> IdsAscending(w)
    ensures forall r :: r in w ==> r in m
  {
    if skip < |m| then m[skip..Min(skip + take, |m|)] else []
  }

  /** `get`: the matching rows in id order, `pageIndex * pageSize` of them
      skipped and at most `pageSize` taken, with the number of rows in the
      whole table whatever the search key. */
  function Get(table: seq<Row>, searchKey: string, pageIndex: nat, pageSize: nat): (p: Page)
    ensures p.rowCount == |table|
    ensures |p.queryData| <= pageSize
    ensures forall r :: r in p.queryData ==> r in table && NameMatches(r.record.name, searchKey)
    ensures IdsAscending(table) ==> IdsAscending(p.queryData)
    ensures p.queryData == Window(Matching(table, searchKey), pageIndex * pageSize, pageSize)
  {
    MatchingAscending(table, searchKey);
    Page(Window(Matching(table, searchKey), pageIndex * pageSize, pageSize), |table|)
  }

  /** Paging reaches every matching row: the one at position `pos` among the
      matches is on page `pos / pageSize`, at offset `pos % pageSize`. */
  lemma PageHoldsMatch(table: seq<Row>, searchKey: string, pageSize: nat, pos: nat)
    requires pageSize > 0 && pos < |Matching(table, searchKey)|
    ensures var page := Get(table, searchKey, pos / pageSize, pageSize).queryData;
      pos % pageSize < |page| && page[pos % pageSize] == Matching(table, searchKey)[pos]
  {
    var m := Matching(table, searchKey);
    DivMod(pos, pageSize);
    assert Get(table, searchKey, pos / pageSize, pageSize).queryData
        == Window(m, (pos / pageSize) * pageSize, pageSize);
    PageAt(m, pageSize, pos);
  }

  /** On any list, the element at `pos` is in the window of page
      `pos / pageSize`, at offset `pos % pageSize`. */
  lemma PageAt(m: seq<Row>, pageSize: nat, pos: nat)
    requires pageSize > 0 && pos < |m|
    ensures var w := Window(m, (pos / pageSize) * pageSize, pageSize);
      pos % pageSize < |w| && w[pos % pageSize] == m[pos]
  {
    var q, r := pos / pageSize, pos % pageSize;
    DivMod(pos, pageSize);
    var skip: nat := q * pageSize;
    WindowAt(m, skip, pageSize, r);
  }

  /** The element `r` places into a window is the one `skip + r` into the list. */
  lemma WindowAt(m: seq<Row>, skip: nat, take: nat, r: nat)
    requires r < take && skip + r < |m|
    ensures r < |Window(m, skip, take)| && Window(m, skip, take)[r] == m[skip + r]
  {
  }

  lemma DivMod(a: nat, b: nat)
    requires b > 0
    ensures 0 <= a / b && (a / b) * b + a % b == a && 0 <= a % b < b && 0 <= (a / b) * b <= a
  {
  }

  /** `getById`: the row with the given id, or nothing. On a table whose ids
      ascend there is at most one such row. */
  function GetById(table: seq<Row>, id: Id): (r: Option<Row>)
    ensures r.Some? ==> r.value in table && r.value.id == id
    ensures r.None? ==> forall i :: 0 <= i < |table| ==> table[i].id != id
    ensures r.Some? && IdsAscending(table) ==>
      forall i :: 0 <= i < |table| && table[i].id == id ==> table[i] == r.value
  {
    match IndexOfId(table, id)
    case None => None
    case Some(k) => Some(table[k])
  }
}
