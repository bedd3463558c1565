/** The pandas operations both fetchers go through, on values: building a
    DataFrame from a list of dicts, reading one back as records, a column,
    `nunique`, dropping a column and sorting rows by a column. */
module Frames {
  import opened Values

  /** A DataFrame: column labels and its rows of cells, row by row. */
  datatype Frame = Frame(names: seq<string>, cells: seq<seq<Value>>)

  predicate WellFormed(f: Frame) {
    Distinct(f.names) && forall i :: 0 <= i < |f.cells| ==> |f.cells[i]| == |f.names|
  }

  // ---------------------------------------------------------------------
  // pd.DataFrame(list_of_dicts)
  // ---------------------------------------------------------------------

  /** Appends the keys of `ks` not yet in `acc`, in order. */
  function AddKeys(acc: seq<string>, ks: seq<string>): seq<string>
    decreases |ks|
  {
    if ks == [] then acc
    else AddKeys(if ks[0] in acc then acc else acc + [ks[0]], ks[1..])
  }

  lemma {:induction false} AddKeysProps(acc: seq<string>, ks: seq<string>)
    requires Distinct(acc)
    ensures Distinct(AddKeys(acc, ks))
    ensures |acc| <= |AddKeys(acc, ks)| && AddKeys(acc, ks)[..|acc|] == acc
    ensures forall k :: k in AddKeys(acc, ks) <==> k in acc || k in ks
    decreases |ks|
  {
    if ks != [] {
      var next := if ks[0] in acc then acc else acc + [ks[0]];
      if ks[0] !in acc {
        forall i, j | 0 <= i < j < |next| ensures next[i] != next[j] {
          if j == |acc| { assert acc[i] in acc; }
        }
        assert next[..|acc|] == acc;
      }
      AddKeysProps(next, ks[1..]);
      var r := AddKeys(next, ks[1..]);
      assert r[..|acc|] == r[..|next|][..|acc|];
      assert forall k :: k in ks <==> k == ks[0] || k in ks[1..];
    }
  }

  /** Keys that are already distinct are added as they are. */
  lemma {:induction false} AddKeysFresh(acc: seq<string>, ks: seq<string>)
    requires Distinct(acc + ks)
    ensures AddKeys(acc, ks) == acc + ks
    decreases |ks|
  {
    if ks != [] {
      forall i | 0 <= i < |acc| ensures acc[i] != ks[0] {
        assert (acc + ks)[i] == acc[i] && (acc + ks)[|acc|] == ks[0];
      }
      assert acc + ks == (acc + [ks[0]]) + ks[1..];
      AddKeysFresh(acc + [ks[0]], ks[1..]);
    }
  }

  /** Keys that are all there already add nothing. */
  lemma {:induction false} AddKeysPresent(acc: seq<string>, ks: seq<string>)
    requires forall k :: k in ks ==> k in acc
    ensures AddKeys(acc, ks) == acc
    decreases |ks|
  {
    if ks != [] {
      assert ks[0] in ks;
      assert forall k :: k in ks[1..] ==> k in ks;
      AddKeysPresent(acc, ks[1..]);
    }
  }

  /** Keys met one after another are added in the order they come. */
  lemma {:induction false} AddKeysConcat(acc: seq<string>, a: seq<string>, b: seq<string>)
    ensures AddKeys(acc, a + b) == AddKeys(AddKeys(acc, a), b)
    decreases |a|
  {
    if a == [] {
      assert a + b == b;
    } else {
      var next := if a[0] in acc then acc else acc + [a[0]];
      assert (a + b)[0] == a[0] && (a + b)[1..] == a[1..] + b;
      AddKeysConcat(next, a[1..], b);
    }
  }

  /** Adding one more key of `s` appends it unless it is already there. */
  lemma AddKeysSnoc(acc: seq<string>, s: seq<string>, n: nat)
    requires 0 < n <= |s|
    ensures var front := AddKeys(acc, s[..n - 1]);
      AddKeys(acc, s[..n]) == if s[n - 1] in front then front else front + [s[n - 1]]
  {
    var front := AddKeys(acc, s[..n - 1]);
    assert s[..n] == s[..n - 1] + [s[n - 1]];
    AddKeysConcat(acc, s[..n - 1], [s[n - 1]]);
    assert [s[n - 1]][1..] == [];
  }

  /** Every element of `s` at its first occurrence only, in order of
      occurrence: first-seen order, defined independently of `AddKeys`. */
  function FirstSeen(s: seq<string>): (r: seq<string>)
    ensures forall k :: 0 <= k < |r| ==> r[k] in s
  {
    if s == [] then []
    else
      var init := s[..|s| - 1];
      assert forall x :: x in init ==> x in s;
      FirstSeen(init) + (if s[|s| - 1] in init then [] else [s[|s| - 1]])
  }

  lemma {:induction false} FirstSeenMembers(s: seq<string>, x: string)
    ensures x in FirstSeen(s) <==> x in s
  {
    if s != [] {
      var init := s[..|s| - 1];
      assert s == init + [s[|s| - 1]];
      FirstSeenMembers(init, x);
    }
  }

  lemma {:induction false} FirstSeenDistinct(s: seq<string>)
    ensures Distinct(FirstSeen(s))
  {
    if s != [] {
      var init, last := s[..|s| - 1], s[|s| - 1];
      var p := FirstSeen(init);
      FirstSeenDistinct(init);
      if last !in init {
        forall i, j | 0 <= i < j < |p| + 1 ensures (p + [last])[i] != (p + [last])[j] {
          if j == |p| {
            assert p[i] in init;
          }
        }
      }
    }
  }

  /** Dropping the last element of a sequence without repeats leaves one
      without repeats, and without that element. */
  lemma DistinctInit(s: seq<string>)
    requires Distinct(s) && s != []
    ensures Distinct(s[..|s| - 1]) && s[|s| - 1] !in s[..|s| - 1]
  {
    var init := s[..|s| - 1];
    forall i, j | 0 <= i < j < |init| ensures init[i] != init[j] {
      assert init[i] == s[i] && init[j] == s[j];
    }
    forall i | 0 <= i < |init| ensures init[i] != s[|s| - 1] {
      assert init[i] == s[i];
    }
  }

  /** A sequence without repeats is its own first-seen order. */
  lemma {:induction false} FirstSeenOfDistinct(s: seq<string>)
    requires Distinct(s)
    ensures FirstSeen(s) == s
  {
    if s != [] {
      var init, last := s[..|s| - 1], s[|s| - 1];
      DistinctInit(s);
      FirstSeenOfDistinct(init);
      assert FirstSeen(s) == FirstSeen(init) + [last];
      assert init + [last] == s;
    }
  }

  lemma {:induction false} IndexOfAppend(s: seq<string>, t: seq<string>, y: string)
    requires y in s
    ensures y in s + t && IndexOf(s + t, y) == IndexOf(s, y)
  {
    assert (s + t)[0] == s[0];
    if s[0] != y {
      assert (s + t)[1..] == s[1..] + t;
      IndexOfAppend(s[1..], t, y);
    }
  }

  /** First-seen order: of two kept elements, the one kept first occurs
      first in `s`. */
  lemma {:induction false} FirstSeenOrder(s: seq<string>, i: nat, j: nat)
    requires i < j < |FirstSeen(s)|
    ensures IndexOf(s, FirstSeen(s)[i]) < IndexOf(s, FirstSeen(s)[j])
  {
    var init, last := s[..|s| - 1], s[|s| - 1];
    var p := FirstSeen(init);
    assert s == init + [last];
    assert FirstSeen(s)[i] == p[i];
    IndexOfAppend(init, [last], p[i]);
    if j < |p| {
      FirstSeenOrder(init, i, j);
      assert FirstSeen(s)[j] == p[j];
      IndexOfAppend(init, [last], p[j]);
    } else {
      assert FirstSeen(s)[j] == last && last !in init;
    }
  }

  /** Adding keys to distinct labels yields the first-seen order of all of them. */
  lemma {:induction false} AddKeysFirstSeen(acc: seq<string>, ks: seq<string>)
    requires Distinct(acc)
    ensures AddKeys(acc, ks) == FirstSeen(acc + ks)
    decreases |ks|
  {
    if ks == [] {
      assert acc + ks == acc;
      FirstSeenOfDistinct(acc);
    } else {
      var front, x := ks[..|ks| - 1], ks[|ks| - 1];
      assert ks == front + [x];
      AddKeysConcat(acc, front, [x]);
      AddKeysFirstSeen(acc, front);
      var a := AddKeys(acc, front);
      assert [x][1..] == [];
      assert AddKeys(a, [x]) == if x in a then a else a + [x];
      FirstSeenMembers(acc + front, x);
      assert acc + ks == (acc + front) + [x];
      assert (acc + ks)[..|acc + ks| - 1] == acc + front;
    }
  }

  /** Every key of every row: the first row's keys, then the next row's, and so on. */
  function AllKeys(rows: seq<Row>): seq<string> {
    if rows == [] then [] else Keys(rows[0]) + AllKeys(rows[1..])
  }

  function ColumnsFrom(acc: seq<string>, rows: seq<Row>): seq<string>
    decreases |rows|
  {
    if rows == [] then acc
    else ColumnsFrom(AddKeys(acc, Keys(rows[0])), rows[1..])
  }

  lemma {:induction false} ColumnsFromProps(acc: seq<string>, rows: seq<Row>)
    requires Distinct(acc)
    ensures Distinct(ColumnsFrom(acc, rows))
    ensures |acc| <= |ColumnsFrom(acc, rows)| && ColumnsFrom(acc, rows)[..|acc|] == acc
    ensures forall k :: k in ColumnsFrom(acc, rows) <==>
              k in acc || exists i :: 0 <= i < |rows| && k in Keys(rows[i])
    decreases |rows|
  {
    if rows != [] {
      var next := AddKeys(acc, Keys(rows[0]));
      AddKeysProps(acc, Keys(rows[0]));
      ColumnsFromProps(next, rows[1..]);
      var r := ColumnsFrom(next, rows[1..]);
      assert r[..|acc|] == r[..|next|][..|acc|];
      forall k
        ensures k in r <==> k in acc || exists i :: 0 <= i < |rows| && k in Keys(rows[i])
      {
        if exists i :: 0 <= i < |rows| && k in Keys(rows[i]) {
          var i :| 0 <= i < |rows| && k in Keys(rows[i]);
          if i > 0 { assert rows[1..][i - 1] == rows[i]; }
        }
        if exists i :: 0 <= i < |rows[1..]| && k in Keys(rows[1..][i]) {
          var i :| 0 <= i < |rows[1..]| && k in Keys(rows[1..][i]);
          assert rows[1..][i] == rows[i + 1];
        }
      }
    }
  }

  /** Keys already collected, met again in every later row, add nothing. */
  lemma {:induction false} ColumnsFromPresent(acc: seq<string>, rows: seq<Row>)
    requires forall i, k :: 0 <= i < |rows| && k in Keys(rows[i]) ==> k in acc
    ensures ColumnsFrom(acc, rows) == acc
    decreases |rows|
  {
    if rows != [] {
      AddKeysPresent(acc, Keys(rows[0]));
      assert forall i :: 0 <= i < |rows[1..]| ==> rows[1..][i] == rows[i + 1];
      ColumnsFromPresent(acc, rows[1..]);
    }
  }

  lemma {:induction false} ColumnsFromAll(acc: seq<string>, rows: seq<Row>)
    ensures ColumnsFrom(acc, rows) == AddKeys(acc, AllKeys(rows))
    decreases |rows|
  {
    if rows != [] {
      ColumnsFromAll(AddKeys(acc, Keys(rows[0])), rows[1..]);
      AddKeysConcat(acc, Keys(rows[0]), AllKeys(rows[1..]));
    }
  }

  /** The column labels pandas gives a frame built from `rows`: every key of
      every row, in the order it is first seen. */
  function ColumnsOf(rows: seq<Row>): seq<string> {
    ColumnsFrom([], rows)
  }

  lemma ColumnsOfProps(rows: seq<Row>)
    ensures Distinct(ColumnsOf(rows))
    ensures forall k :: k in ColumnsOf(rows) <==> exists i :: 0 <= i < |rows| && k in Keys(rows[i])
    ensures rows != [] && Distinct(Keys(rows[0])) ==>
              |rows[0]| <= |ColumnsOf(rows)| && ColumnsOf(rows)[..|rows[0]|] == Keys(rows[0])
  {
    ColumnsFromProps([], rows);
    if rows != [] && Distinct(Keys(rows[0])) {
      assert [] + Keys(rows[0]) == Keys(rows[0]);
      AddKeysFresh([], Keys(rows[0]));
      ColumnsFromProps(Keys(rows[0]), rows[1..]);
    }
  }

  /** The columns are the keys of all rows in first-seen order: of two
      labels, the one first met (record by record, key by key) comes first. */
  lemma ColumnsOfFirstSeen(rows: seq<Row>)
    ensures ColumnsOf(rows) == FirstSeen(AllKeys(rows))
    ensures forall i, j :: 0 <= i < j < |ColumnsOf(rows)| ==>
      ColumnsOf(rows)[i] in AllKeys(rows) && ColumnsOf(rows)[j] in AllKeys(rows) &&
      IndexOf(AllKeys(rows), ColumnsOf(rows)[i]) < IndexOf(AllKeys(rows), ColumnsOf(rows)[j])
  {
    ColumnsFromAll([], rows);
    assert [] + AllKeys(rows) == AllKeys(rows);
    AddKeysFirstSeen([], AllKeys(rows));
    forall i, j | 0 <= i < j < |ColumnsOf(rows)|
      ensures IndexOf(AllKeys(rows), ColumnsOf(rows)[i]) < IndexOf(AllKeys(rows), ColumnsOf(rows)[j])
    {
      FirstSeenOrder(AllKeys(rows), i, j);
    }
  }

  /** `pd.DataFrame(rows)`: one column per key of any row, and a null cell
      wherever a row lacks that key. */
  function FromRecords(rows: seq<Row>): (f: Frame)
    ensures WellFormed(f) && |f.cells| == |rows|
    ensures forall k :: k in f.names <==> exists i :: 0 <= i < |rows| && k in Keys(rows[i])
  {
    var names := ColumnsOf(rows);
    ColumnsOfProps(rows);
    Frame(names, seq(|rows|, i requires 0 <= i < |rows| =>
      seq(|names|, j requires 0 <= j < |names| => Lookup(rows[i], names[j]).GetOr(Null))))
  }

  /** A row's own value sits under each of its keys; where it has no such
      key the cell is null. */
  lemma FromRecordsCell(rows: seq<Row>, i: nat, j: nat)
    requires i < |rows| && j < |FromRecords(rows).names|
    ensures var f := FromRecords(rows);
      (f.names[j] in Keys(rows[i]) ==> Lookup(rows[i], f.names[j]) == Some(f.cells[i][j])) &&
      (f.names[j] !in Keys(rows[i]) ==> f.cells[i][j] == Null)
  {
    LookupFound(rows[i], FromRecords(rows).names[j]);
  }

  // ---------------------------------------------------------------------
  // df.to_dict(orient="records")
  // ---------------------------------------------------------------------

  function Zip(names: seq<string>, vals: seq<Value>): Row
    requires |names| == |vals|
  {
    seq(|names|, j requires 0 <= j < |names| => (names[j], vals[j]))
  }

  /** `df.to_dict(orient="records")`: one dict per row, its keys the column
      labels in column order. pandas reads the rows off the columns (a zip
      over them), so a frame with rows but no columns gives no records. */
  function ToRecords(f: Frame): (rows: seq<Row>)
    requires WellFormed(f)
    ensures |rows| == if f.names == [] then 0 else |f.cells|
    ensures forall i :: 0 <= i < |rows| ==> Keys(rows[i]) == f.names
  {
    if f.names == [] then []
    else seq(|f.cells|, i requires 0 <= i < |f.cells| => Zip(f.names, f.cells[i]))
  }

  /** Each record holds, under each column label, that row's cell. */
  lemma ToRecordsLookup(f: Frame, i: nat, j: nat)
    requires WellFormed(f) && i < |f.cells| && j < |f.names|
    ensures Lookup(ToRecords(f)[i], f.names[j]) == Some(f.cells[i][j])
  {
    var r := ToRecords(f)[i];
    assert Keys(r) == f.names;
    LookupAt(r, j);
  }

  /** Rows that all have the same distinct keys in the same order survive
      the DataFrame round trip unchanged, unless they have no keys at all:
      then no records come back. */
  lemma UniformRoundTrip(rows: seq<Row>, ks: seq<string>)
    requires Distinct(ks)
    requires forall i :: 0 <= i < |rows| ==> Keys(rows[i]) == ks
    ensures ToRecords(FromRecords(rows)) == if ks == [] then [] else rows
  {
    if rows != [] {
      assert ColumnsOf(rows) == ks by {
        assert [] + ks == ks;
        AddKeysFresh([], ks);
        forall i, k | 0 <= i < |rows[1..]| && k in Keys(rows[1..][i]) ensures k in ks {
          assert rows[1..][i] == rows[i + 1];
        }
        ColumnsFromPresent(ks, rows[1..]);
      }
      var out := ToRecords(FromRecords(rows));
      forall i | 0 <= i < |rows| && ks != [] ensures out[i] == rows[i] {
        forall j | 0 <= j < |ks| ensures out[i][j] == rows[i][j] {
          assert Keys(rows[i])[j] == ks[j];
          LookupAt(rows[i], j);
        }
      }
    }
  }

  // ---------------------------------------------------------------------
  // df[col], df[col].nunique(), df.drop(columns=[col])
  // ---------------------------------------------------------------------

  function Column(f: Frame, j: nat): seq<Value>
    requires WellFormed(f) && j < |f.names|
  {
    seq(|f.cells|, i requires 0 <= i < |f.cells| => f.cells[i][j])
  }

  /** The distinct values of a column other than null. */
  function NonNullValues(vals: seq<Value>): set<Value> {
    set v | v in vals && v != Null
  }

  /** `series.nunique()`: the number of distinct values, nulls not counted. */
  function NUnique(vals: seq<Value>): nat {
    |NonNullValues(vals)|
  }

  /** A column of one value has one distinct value, unless that value is null. */
  lemma NUniqueSingleton(v: Value)
    ensures NUnique([v]) == if v == Null then 0 else 1
  {
    if v == Null {
      assert NonNullValues([v]) == {};
    } else {
      assert NonNullValues([v]) == {v};
    }
  }

  /** Position of `x` in `s`. */
  function IndexOf(s: seq<string>, x: string): (k: nat)
    requires x in s
    ensures k < |s| && s[k] == x
    ensures forall i :: 0 <= i < k ==> s[i] != x
  {
    if s[0] == x then 0 else 1 + IndexOf(s[1..], x)
  }

  lemma IndexOfDistinct(s: seq<string>, k: nat)
    requires Distinct(s) && k < |s|
    ensures IndexOf(s, s[k]) == k
  {
  }

  function Remove<T>(s: seq<T>, j: nat): (r: seq<T>)
    requires j < |s|
  {
    s[..j] + s[j + 1..]
  }

  lemma RemoveAt<T>(s: seq<T>, j: nat, k: nat)
    requires j < |s| && k < |s| - 1
    ensures |Remove(s, j)| == |s| - 1
    ensures Remove(s, j)[k] == if k < j then s[k] else s[k + 1]
  {
  }

  /** `df.drop(columns=[f.names[j]])`. */
  function DropColumn(f: Frame, j: nat): (g: Frame)
    requires WellFormed(f) && j < |f.names|
    ensures WellFormed(g) && |g.cells| == |f.cells| && |g.names| == |f.names| - 1
    ensures g.names == Remove(f.names, j) && f.names[j] !in g.names
    ensures forall k :: 0 <= k < |g.names| ==> Column(g, k) == Column(f, if k < j then k else k + 1)
  {
    var names := Remove(f.names, j);
    forall a, b | 0 <= a < b < |names| ensures names[a] != names[b] {
      RemoveAt(f.names, j, a);
      RemoveAt(f.names, j, b);
    }
    assert f.names[j] !in names by {
      forall k | 0 <= k < |names| ensures names[k] != f.names[j] {
        RemoveAt(f.names, j, k);
      }
    }
    var g := Frame(names, seq(|f.cells|, i requires 0 <= i < |f.cells| => Remove(f.cells[i], j)));
    assert forall k :: 0 <= k < |g.names| ==> Column(g, k) == Column(f, if k < j then k else k + 1) by {
      forall k, i | 0 <= k < |g.names| && 0 <= i < |f.cells| ensures g.cells[i][k] == f.cells[i][if k < j then k else k + 1] {
        RemoveAt(f.cells[i], j, k);
      }
    }
    g
  }

  // ---------------------------------------------------------------------
  // df.sort_values(by=col, ascending=False)
  // ---------------------------------------------------------------------

  /** The order `sort_values(ascending=False)` puts cells in: larger numbers
      first, then nulls. Only numbers and nulls are ever sorted, because the
      column is coerced first; placing other values with the nulls is this
      model's own choice for a case that cannot arise (pandas would raise). */
  predicate Precedes(a: Value, b: Value) {
    if a.Num? && b.Num? then a.x >= b.x else a.Num? || !b.Num?
  }

  lemma PrecedesTotal(a: Value, b: Value)
    ensures Precedes(a, b) || Precedes(b, a)
  {
  }

  predicate HasColumn(rows: seq<seq<Value>>, j: nat) {
    forall i :: 0 <= i < |rows| ==> j < |rows[i]|
  }

  /** Non-increasing in column `j`, nulls last. */
  predicate SortedDescending(rows: seq<seq<Value>>, j: nat)
    requires HasColumn(rows, j)
  {
    forall a, b :: 0 <= a < b < |rows| ==> Precedes(rows[a][j], rows[b][j])
  }

  function Insert(row: seq<Value>, rows: seq<seq<Value>>, j: nat): (r: seq<seq<Value>>)
    requires j < |row| && HasColumn(rows, j)
    ensures multiset(r) == multiset(rows) + multiset{row}
    ensures HasColumn(r, j)
  {
    if rows == [] then [row]
    else if Precedes(row[j], rows[0][j]) then [row] + rows
    else
      assert rows == [rows[0]] + rows[1..];
      [rows[0]] + Insert(row, rows[1..], j)
  }

  lemma {:induction false} InsertSorted(row: seq<Value>, rows: seq<seq<Value>>, j: nat)
    requires j < |row| && HasColumn(rows, j) && SortedDescending(rows, j)
    ensures SortedDescending(Insert(row, rows, j), j)
  {
    if rows != [] && !Precedes(row[j], rows[0][j]) {
      InsertSorted(row, rows[1..], j);
      var rest := Insert(row, rows[1..], j);
      PrecedesTotal(row[j], rows[0][j]);
      forall b | 0 <= b < |rest| ensures Precedes(rows[0][j], rest[b][j]) {
        assert rest[b] in multiset(rest);
        if rest[b] != row {
          assert rest[b] in rows[1..];
        }
      }
    }
  }

  function SortRows(rows: seq<seq<Value>>, j: nat): (r: seq<seq<Value>>)
    requires HasColumn(rows, j)
    ensures multiset(r) == multiset(rows)
    ensures HasColumn(r, j) && SortedDescending(r, j)
  {
    if rows == [] then []
    else
      assert rows == [rows[0]] + rows[1..];
      var rest := SortRows(rows[1..], j);
      InsertSorted(rows[0], rest, j);
      Insert(rows[0], rest, j)
  }

  /** `df.sort_values(by=f.names[j], ascending=False)`: the same rows,
      reordered so that column `j` does not increase, nulls last. The order
      among equal cells is left open, as pandas' default sort is not stable. */
  function SortDescending(f: Frame, j: nat): (g: Frame)
    requires WellFormed(f) && j < |f.names|
    ensures WellFormed(g) && g.names == f.names && |g.cells| == |f.cells|
    ensures multiset(g.cells) == multiset(f.cells)
    ensures HasColumn(g.cells, j) && SortedDescending(g.cells, j)
  {
    var sorted := SortRows(f.cells, j);
    assert forall i :: 0 <= i < |sorted| ==> sorted[i] in multiset(f.cells);
    Frame(f.names, sorted)
  }

  /** Reordering rows reorders every column, so a column keeps its set of
      values and its count of distinct values. */
  lemma PermutationKeepsColumnValues(f: Frame, g: Frame, k: nat)
    requires WellFormed(f) && WellFormed(g) && g.names == f.names && k < |f.names|
    requires multiset(g.cells) == multiset(f.cells)
    ensures forall v :: v in Column(f, k) <==> v in Column(g, k)
    ensures NUnique(Column(g, k)) == NUnique(Column(f, k))
  {
    forall v ensures v in Column(f, k) ==> v in Column(g, k) {
      if v in Column(f, k) {
        var i :| 0 <= i < |f.cells| && Column(f, k)[i] == v;
        assert f.cells[i] in multiset(g.cells);
        var i' :| 0 <= i' < |g.cells| && g.cells[i'] == f.cells[i];
        assert Column(g, k)[i'] == v;
      }
    }
    forall v ensures v in Column(g, k) ==> v in Column(f, k) {
      if v in Column(g, k) {
        var i :| 0 <= i < |g.cells| && Column(g, k)[i] == v;
        assert g.cells[i] in multiset(f.cells);
        var i' :| 0 <= i' < |f.cells| && f.cells[i'] == g.cells[i];
        assert Column(f, k)[i'] == v;
      }
    }
    assert NonNullValues(Column(g, k)) == NonNullValues(Column(f, k));
  }
}
