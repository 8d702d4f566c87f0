/** The slice of pandas' DataFrame the script uses: column labels, rows of
    cells, an optional index column, and the column operations `columns =`,
    `insert`, `drop(columns=...)`, `set_index` and `reset_index`, with the
    exceptions pandas raises for them. */
module Tables {
  import opened Wrappers
  import opened Text

  /** A cell: scraped text, a calendar day, a market value (its arithmetic
      is not modelled) or a missing value (None / NaN / NaT). */
  datatype Cell = Text(text: string) | Date(day: int) | Number(amount: real) | Missing

  /** The Python exceptions the modelled operations can raise.
      `LengthMismatch` is pandas' ValueError "Length mismatch", raised when
      a `columns =` assignment has the wrong number of names. */
  datatype Error =
    | LengthMismatch(expected: int, given: int)
    | KeyError(key: string)
    | ValueError(reason: string)
    | TypeError(reason: string)
    | IndexError
    | AttributeError(name: string)

  /** A frame with a default integer index. */
  datatype Table = Table(columns: seq<string>, rows: seq<seq<Cell>>)

  /** A frame whose index is one named column, kept apart from the others. */
  datatype Indexed = Indexed(indexName: string, index: seq<Cell>, columns: seq<string>, rows: seq<seq<Cell>>)

  /** Every row has one cell per column. */
  predicate WellFormed(t: Table) {
    forall i :: 0 <= i < |t.rows| ==> |t.rows[i]| == |t.columns|
  }

  predicate IndexedWellFormed(f: Indexed) {
    && |f.index| == |f.rows|
    && forall i :: 0 <= i < |f.rows| ==> |f.rows[i]| == |f.columns|
  }

  /** How many columns carry `name`. */
  function CountLabel(columns: seq<string>, name: string): (n: nat)
    ensures n == 0 <==> name !in columns
    ensures n <= |columns|
  {
    if |columns| == 0 then 0
    else (if columns[0] == name then 1 else 0) + CountLabel(columns[1..], name)
  }

  /** `df.columns = names`: relabels every column; pandas refuses a list of
      the wrong length. */
  function SetColumns(t: Table, names: seq<string>): (r: Result<Table, Error>)
    ensures r.Failure? <==> |names| != |t.columns|
    ensures r.Failure? ==> r.error == LengthMismatch(|t.columns|, |names|)
    ensures r.Success? ==> r.value.columns == names && r.value.rows == t.rows
  {
    if |names| != |t.columns| then Failure(LengthMismatch(|t.columns|, |names|))
    else Success(Table(names, t.rows))
  }

  /** Relabelling is undone by assigning the old labels back: the rows and
      their order are untouched by `columns =`. */
  lemma SetColumnsRestores(t: Table, names: seq<string>)
    requires |names| == |t.columns|
    ensures SetColumns(t, names).Success?
    ensures SetColumns(SetColumns(t, names).value, t.columns) == Success(t)
  {
  }

  /** `df.columns = [c.upper() for c in df.columns]`. */
  function UpperColumns(t: Table): (r: Table)
    ensures |r.columns| == |t.columns| && r.rows == t.rows
    ensures forall i :: 0 <= i < |r.columns| ==> IsUpper(r.columns[i])
    ensures forall i :: 0 <= i < |r.columns| ==> |r.columns[i]| == |t.columns[i]|
  {
    Table(seq(|t.columns|, i requires 0 <= i < |t.columns| => Upper(t.columns[i])), t.rows)
  }

  /** The positions, in increasing order, of the columns not labelled
      `name`; `KeptIncreasing` and `KeptComplete` state the order and that
      none is missed. */
  function Kept(columns: seq<string>, name: string): (ps: seq<int>)
    ensures forall k :: 0 <= k < |ps| ==> 0 <= ps[k] < |columns| && columns[ps[k]] != name
    ensures |ps| + CountLabel(columns, name) == |columns|
  {
    assert columns[0..] == columns;
    KeptFrom(columns, name, 0)
  }

  /** The positions from `i` on of the columns not labelled `name`. */
  function KeptFrom(columns: seq<string>, name: string, i: int): (ps: seq<int>)
    requires 0 <= i <= |columns|
    decreases |columns| - i
    ensures forall k :: 0 <= k < |ps| ==> i <= ps[k] < |columns| && columns[ps[k]] != name
    ensures |ps| + CountLabel(columns[i..], name) == |columns| - i
  {
    if i == |columns| then []
    else
      assert columns[i..][1..] == columns[i + 1..];
      (if columns[i] != name then [i] else []) + KeptFrom(columns, name, i + 1)
  }

  predicate Increasing(ps: seq<int>) {
    forall k, l :: 0 <= k < l < |ps| ==> ps[k] < ps[l]
  }

  lemma {:induction false} KeptFromIncreasing(columns: seq<string>, name: string, i: int)
    requires 0 <= i <= |columns|
    decreases |columns| - i
    ensures Increasing(KeptFrom(columns, name, i))
  {
    if i < |columns| {
      KeptFromIncreasing(columns, name, i + 1);
      var rest := KeptFrom(columns, name, i + 1);
      if columns[i] != name {
        var ps := [i] + rest;
        assert KeptFrom(columns, name, i) == ps;
        forall k, l | 0 <= k < l < |ps|
          ensures ps[k] < ps[l]
        {
          assert ps[l] == rest[l - 1];
          if k > 0 {
            assert ps[k] == rest[k - 1];
          }
        }
      } else {
        assert KeptFrom(columns, name, i) == [] + rest;
      }
    }
  }

  lemma {:induction false} KeptFromComplete(columns: seq<string>, name: string, i: int, j: int)
    requires 0 <= i <= j < |columns| && columns[j] != name
    decreases |columns| - i
    ensures j in KeptFrom(columns, name, i)
  {
    var rest := KeptFrom(columns, name, i + 1);
    var head := if columns[i] != name then [i] else [];
    assert KeptFrom(columns, name, i) == head + rest;
    if j > i {
      KeptFromComplete(columns, name, i + 1, j);
    } else {
      assert (head + rest)[0] == i;
    }
  }

  /** `Kept` lists the kept positions in increasing order. */
  lemma KeptIncreasing(columns: seq<string>, name: string)
    ensures Increasing(Kept(columns, name))
  {
    assert Kept(columns, name) == KeptFrom(columns, name, 0);
    KeptFromIncreasing(columns, name, 0);
  }

  /** Every position whose column is not `name` is kept. */
  lemma KeptComplete(columns: seq<string>, name: string, j: int)
    requires 0 <= j < |columns| && columns[j] != name
    ensures j in Kept(columns, name)
  {
    KeptFromComplete(columns, name, 0, j);
  }

  /** The cells of `row` at positions `ps`. */
  function Project<T>(row: seq<T>, ps: seq<int>): (r: seq<T>)
    requires forall k :: 0 <= k < |ps| ==> 0 <= ps[k] < |row|
    ensures |r| == |ps| && forall k :: 0 <= k < |ps| ==> r[k] == row[ps[k]]
  {
    seq(|ps|, k requires 0 <= k < |ps| => row[ps[k]])
  }

  /** `df.drop(columns=name)`: removes every column labelled `name`, with
      its cells; a name that is not there raises KeyError. */
  function DropColumn(t: Table, name: string): (r: Result<Table, Error>)
    requires WellFormed(t)
    ensures r.Failure? <==> name !in t.columns
    ensures r.Failure? ==> r.error == KeyError(name)
    ensures r.Success? ==> WellFormed(r.value) && |r.value.rows| == |t.rows|
    ensures r.Success? ==> r.value.columns == Without(t.columns, name)
    ensures r.Success? ==> |r.value.columns| == |t.columns| - CountLabel(t.columns, name)
    ensures r.Success? ==> var ps := Kept(t.columns, name);
      && |ps| == |r.value.columns|
      && (forall i, k :: 0 <= i < |t.rows| && 0 <= k < |ps| ==> r.value.rows[i][k] == t.rows[i][ps[k]])
  {
    if name !in t.columns then Failure(KeyError(name))
    else
      var ps := Kept(t.columns, name);
      KeptFromIsWithout(t.columns, name, 0);
      assert t.columns[0..] == t.columns;
      var rows := seq(|t.rows|, i requires 0 <= i < |t.rows| => Project(t.rows[i], ps));
      Success(Table(Project(t.columns, ps), rows))
  }

  /** `df.insert(0, name, value)`: a new first column holding `value` in
      every row; a name already present raises ValueError. */
  function InsertFirst(t: Table, name: string, value: Cell): (r: Result<Table, Error>)
    requires WellFormed(t)
    ensures r.Failure? <==> name in t.columns
    ensures r.Failure? ==> r.error.ValueError?
    ensures r.Success? ==> WellFormed(r.value)
    ensures r.Success? ==> r.value.columns == [name] + t.columns
    ensures r.Success? ==> |r.value.rows| == |t.rows|
    ensures r.Success? ==> forall i :: 0 <= i < |t.rows| ==> r.value.rows[i][0] == value && r.value.rows[i][1..] == t.rows[i]
  {
    if name in t.columns then Failure(ValueError("cannot insert " + name + ", already exists"))
    else Success(Table([name] + t.columns, seq(|t.rows|, i requires 0 <= i < |t.rows| => [value] + t.rows[i])))
  }

  /** Indexing by a freshly inserted first column gives that column's
      value as every row's index and leaves the original frame. */
  lemma SetIndexUndoesInsertFirst(t: Table, name: string, value: Cell)
    requires WellFormed(t) && name !in t.columns
    ensures var f := SetIndex(InsertFirst(t, name, value).value, name);
      && f.Success? && f.value.indexName == name
      && f.value.columns == t.columns && f.value.rows == t.rows
      && forall i :: 0 <= i < |t.rows| ==> f.value.index[i] == value
  {
    var u := InsertFirst(t, name, value).value;
    assert CountLabel(u.columns, name) == 1 by {
      assert u.columns == [name] + t.columns;
    }
    assert PositionOf(u.columns, name) == 0;
    var f := SetIndex(u, name).value;
    assert f.columns == t.columns;
    assert |f.rows| == |t.rows|;
    forall i | 0 <= i < |t.rows|
      ensures f.rows[i] == t.rows[i]
    {
      assert u.rows[i][1..] == t.rows[i];
    }
  }

  /** `df.set_index(name)`: the one column labelled `name` becomes the
      index. A missing name raises KeyError; a name carried by several
      columns is refused as well. */
  function SetIndex(t: Table, name: string): (r: Result<Indexed, Error>)
    requires WellFormed(t)
    ensures r.Failure? <==> CountLabel(t.columns, name) != 1
    ensures r.Failure? && name !in t.columns ==> r.error == KeyError(name)
    ensures r.Success? ==> IndexedWellFormed(r.value) && r.value.indexName == name
    ensures r.Success? ==> r.value.columns == Without(t.columns, name)
    ensures r.Success? ==> |r.value.rows| == |t.rows|
    ensures r.Success? ==> var p := PositionOf(t.columns, name);
      && r.value.columns == t.columns[..p] + t.columns[p + 1..]
      && forall i :: 0 <= i < |t.rows| ==>
           r.value.index[i] == t.rows[i][p] && r.value.rows[i] == t.rows[i][..p] + t.rows[i][p + 1..]
  {
    var n := CountLabel(t.columns, name);
    if n == 0 then Failure(KeyError(name))
    else if n > 1 then Failure(ValueError("column name " + name + " is not unique"))
    else
      var p := PositionOf(t.columns, name);
      var columns := t.columns[..p] + t.columns[p + 1..];
      WithoutUnique(t.columns, name, p);
      Success(Indexed(name,
        seq(|t.rows|, i requires 0 <= i < |t.rows| => t.rows[i][p]),
        columns,
        seq(|t.rows|, i requires 0 <= i < |t.rows| => t.rows[i][..p] + t.rows[i][p + 1..])))
  }

  /** The first position of `name`. */
  function PositionOf(columns: seq<string>, name: string): (p: int)
    requires name in columns
    ensures 0 <= p < |columns| && columns[p] == name && name !in columns[..p]
  {
    if columns[0] == name then 0
    else
      var p := PositionOf(columns[1..], name) + 1;
      assert columns[..p] == [columns[0]] + columns[1..][..p - 1];
      p
  }

  /** `df.reset_index()`: the index becomes the first column again; pandas
      refuses when a column already carries the index's name. */
  function ResetIndex(f: Indexed): (r: Result<Table, Error>)
    requires IndexedWellFormed(f)
    ensures r.Failure? <==> f.indexName in f.columns
    ensures r.Success? ==> WellFormed(r.value) && r.value.columns == [f.indexName] + f.columns
    ensures r.Success? ==> |r.value.rows| == |f.rows|
    ensures r.Success? ==> forall i :: 0 <= i < |f.rows| ==>
      r.value.rows[i][0] == f.index[i] && r.value.rows[i][1..] == f.rows[i]
  {
    if f.indexName in f.columns then Failure(ValueError("cannot insert " + f.indexName + ", already exists"))
    else Success(Table([f.indexName] + f.columns,
      seq(|f.rows|, i requires 0 <= i < |f.rows| => [f.index[i]] + f.rows[i])))
  }

  /** `set_index` undoes `reset_index`. */
  lemma SetIndexUndoesResetIndex(f: Indexed)
    requires IndexedWellFormed(f)
    requires f.indexName !in f.columns
    ensures ResetIndex(f).Success?
    ensures SetIndex(ResetIndex(f).value, f.indexName) == Success(f)
  {
    var t := ResetIndex(f).value;
    assert CountLabel(t.columns, f.indexName) == 1 by {
      assert t.columns[1..] == f.columns;
    }
    var r := SetIndex(t, f.indexName);
    assert PositionOf(t.columns, f.indexName) == 0;
    assert t.columns[..0] + t.columns[1..] == f.columns;
    assert r.value.columns == f.columns;
    assert r.value.index == f.index;
    assert r.value.rows == f.rows by {
      forall i | 0 <= i < |f.rows|
        ensures r.value.rows[i] == f.rows[i]
      {
        assert t.rows[i][..0] + t.rows[i][1..] == f.rows[i];
      }
    }
    assert r.value == Indexed(f.indexName, f.index, f.columns, f.rows);
  }

  /** `names` without any occurrence of `name`, order kept. */
  function Without(names: seq<string>, name: string): seq<string> {
    if |names| == 0 then []
    else (if names[0] == name then [] else [names[0]]) + Without(names[1..], name)
  }

  /** `Without` keeps exactly the other names. */
  lemma {:induction false} WithoutMembership(names: seq<string>, name: string, c: string)
    ensures c in Without(names, name) <==> c in names && c != name
  {
    if |names| > 0 {
      WithoutMembership(names[1..], name, c);
      assert names == [names[0]] + names[1..];
    }
  }

  /** Filtering out two names leaves only names that are neither. */
  lemma WithoutTwo(names: seq<string>, a: string, b: string)
    ensures forall c :: c in Without(Without(names, a), b) ==> c in names && c != a && c != b
  {
    forall c | c in Without(Without(names, a), b)
      ensures c in names && c != a && c != b
    {
      WithoutMembership(Without(names, a), b, c);
      WithoutMembership(names, a, c);
    }
  }

  /** Projecting onto the kept positions is filtering out the dropped name. */
  lemma {:induction false} KeptFromIsWithout(columns: seq<string>, name: string, i: int)
    requires 0 <= i <= |columns|
    decreases |columns| - i
    ensures Project(columns, KeptFrom(columns, name, i)) == Without(columns[i..], name)
  {
    if i < |columns| {
      var rest := KeptFrom(columns, name, i + 1);
      KeptFromIsWithout(columns, name, i + 1);
      WithoutFrom(columns, name, i);
      if columns[i] != name {
        ProjectCons(columns, i, rest);
      }
    }
  }

  /** The kept positions pick out exactly the filtered names. */
  lemma KeptIsWithout(columns: seq<string>, name: string)
    ensures Project(columns, Kept(columns, name)) == Without(columns, name)
  {
    assert Kept(columns, name) == KeptFrom(columns, name, 0);
    KeptFromIsWithout(columns, name, 0);
    assert columns[0..] == columns;
  }

  /** `ps` with its entry at `p` left out. */
  lemma SkipAt(ps: seq<int>, p: int)
    requires 0 <= p < |ps| && Increasing(ps)
    ensures var qs := ps[..p] + ps[p + 1..];
      && |qs| == |ps| - 1 && Increasing(qs)
      && (forall k :: 0 <= k < p ==> qs[k] == ps[k])
      && (forall k :: p <= k < |qs| ==> qs[k] == ps[k + 1])
  {
  }

  /** `f` keeps, in `index`-free form, the cells of `t` at positions `qs`:
      the increasing list of every position whose label is neither `a`
      nor `b`, with the labels and cells found there. */
  predicate CellsKept(t: Table, a: string, b: string, f: Indexed, qs: seq<int>) {
    && Increasing(qs)
    && |qs| == |f.columns|
    && (forall k :: 0 <= k < |qs| ==>
          && 0 <= qs[k] < |t.columns| && t.columns[qs[k]] != a && t.columns[qs[k]] != b
          && f.columns[k] == t.columns[qs[k]])
    && (forall j :: 0 <= j < |t.columns| && t.columns[j] != a && t.columns[j] != b ==> j in qs)
    && |f.rows| == |t.rows|
    && (forall i :: 0 <= i < |t.rows| ==> |f.rows[i]| == |qs| && |t.rows[i]| == |t.columns|)
    && (forall i, k :: 0 <= i < |t.rows| && 0 <= k < |qs| ==> f.rows[i][k] == t.rows[i][qs[k]])
  }

  /** A label that occurs once in `ds` occurs at one position only. */
  lemma OnlyPosition(ds: seq<string>, b: string, m: int, p: int)
    requires 0 <= m < |ds| && 0 <= p < |ds| && ds[m] == b && ds[p] == b
    requires CountLabel(ds, b) == 1
    ensures m == p
  {
    if m < p {
      CountAtLeastTwo(ds, b, m, p);
    } else if p < m {
      CountAtLeastTwo(ds, b, p, m);
    }
  }

  /** The labels `ds` sit at increasing positions `ps` of `cols`, which
      are all positions not labelled `a`; `b` occurs once in `ds`, at `p`.
      Leaving `p` out of `ps` gives all positions labelled neither `a`
      nor `b`, and the first occurrence of `b` in `cols` is at `ps[p]`. */
  lemma SkipLabel(cols: seq<string>, a: string, b: string, ps: seq<int>, ds: seq<string>, p: int)
    requires a != b && Increasing(ps) && |ds| == |ps|
    requires forall m :: 0 <= m < |ps| ==> 0 <= ps[m] < |cols| && cols[ps[m]] != a && ds[m] == cols[ps[m]]
    requires forall j :: 0 <= j < |cols| && cols[j] != a ==> j in ps
    requires 0 <= p < |ps| && ds[p] == b && CountLabel(ds, b) == 1
    ensures b in cols && PositionOf(cols, b) == ps[p]
    ensures var qs := ps[..p] + ps[p + 1..];
      && (forall k :: 0 <= k < |qs| ==> cols[qs[k]] != b)
      && (forall j :: 0 <= j < |cols| && cols[j] != a && cols[j] != b ==> j in qs)
  {
    var q := PositionOf(cols, b);
    if q < ps[p] {
      var m :| 0 <= m < |ps| && ps[m] == q;
      OnlyPosition(ds, b, m, p);
    }
    var qs := ps[..p] + ps[p + 1..];
    SkipAt(ps, p);
    forall k | 0 <= k < |qs|
      ensures cols[qs[k]] != b
    {
      var m := if k < p then k else k + 1;
      assert qs[k] == ps[m];
      if ds[m] == b {
        OnlyPosition(ds, b, m, p);
      }
    }
    forall j | 0 <= j < |cols| && cols[j] != a && cols[j] != b
      ensures j in qs
    {
      var m :| 0 <= m < |ps| && ps[m] == j;
      if m < p {
        assert qs[m] == j;
      } else {
        assert qs[m - 1] == j;
      }
    }
  }

  /** Removing entry `p` from a projection is projecting onto `ps` with
      entry `p` removed. */
  lemma SkipProjected<T>(xs: seq<T>, ds: seq<T>, ps: seq<int>, p: int)
    requires |ds| == |ps| && 0 <= p < |ps|
    requires forall m :: 0 <= m < |ps| ==> 0 <= ps[m] < |xs| && ds[m] == xs[ps[m]]
    ensures var qs := ps[..p] + ps[p + 1..];
      forall k :: 0 <= k < |qs| ==> (ds[..p] + ds[p + 1..])[k] == xs[qs[k]]
  {
    var qs := ps[..p] + ps[p + 1..];
    forall k | 0 <= k < |qs|
      ensures (ds[..p] + ds[p + 1..])[k] == xs[qs[k]]
    {
      if k < p {
        assert qs[k] == ps[k];
      } else {
        assert qs[k] == ps[k + 1];
      }
    }
  }

  /** The cells of `d` are those of `t` at the increasing positions `ps`,
      which are exactly the positions not labelled `a`. */
  predicate ProjectedOn(t: Table, a: string, ps: seq<int>, d: Table) {
    && WellFormed(t) && WellFormed(d) && Increasing(ps)
    && |d.columns| == |ps| && |d.rows| == |t.rows|
    && (forall m :: 0 <= m < |ps| ==>
          0 <= ps[m] < |t.columns| && t.columns[ps[m]] != a && d.columns[m] == t.columns[ps[m]])
    && (forall j :: 0 <= j < |t.columns| && t.columns[j] != a ==> j in ps)
    && (forall i, m :: 0 <= i < |t.rows| && 0 <= m < |ps| ==> d.rows[i][m] == t.rows[i][ps[m]])
  }

  /** `drop(columns=a)` keeps the cells at the positions not labelled `a`. */
  lemma DropProjects(t: Table, a: string)
    requires WellFormed(t) && DropColumn(t, a).Success?
    ensures ProjectedOn(t, a, Kept(t.columns, a), DropColumn(t, a).value)
  {
    var ps := Kept(t.columns, a);
    KeptIncreasing(t.columns, a);
    KeptIsWithout(t.columns, a);
    forall j | 0 <= j < |t.columns| && t.columns[j] != a
      ensures j in ps
    {
      KeptComplete(t.columns, a, j);
    }
  }

  /** `f` is `d` indexed by the column `b`, which `d` has once, at `p`. */
  predicate IndexedBy(d: Table, b: string, p: int, f: Indexed) {
    && WellFormed(d) && 0 <= p < |d.columns| && d.columns[p] == b && CountLabel(d.columns, b) == 1
    && IndexedWellFormed(f) && |f.rows| == |d.rows| && f.columns == d.columns[..p] + d.columns[p + 1..]
    && forall i :: 0 <= i < |d.rows| ==>
         f.index[i] == d.rows[i][p] && f.rows[i] == d.rows[i][..p] + d.rows[i][p + 1..]
  }

  lemma SetIndexAt(d: Table, b: string)
    requires WellFormed(d) && SetIndex(d, b).Success?
    ensures b in d.columns && IndexedBy(d, b, PositionOf(d.columns, b), SetIndex(d, b).value)
  {
  }

  /** Indexing a projection `d` by its one column `b`: the index holds
      each row's cell under `b`. */
  lemma IndexAfterProjection(t: Table, a: string, b: string, ps: seq<int>, d: Table, p: int, f: Indexed)
    requires a != b && ProjectedOn(t, a, ps, d) && IndexedBy(d, b, p, f)
    ensures b in t.columns
    ensures forall i :: 0 <= i < |t.rows| ==> f.index[i] == t.rows[i][PositionOf(t.columns, b)]
  {
    SkipLabel(t.columns, a, b, ps, d.columns, p);
  }

  /** Indexing a projection `d` by its one column `b` keeps the labels
      other than `a` and `b`, in the original order ... */
  lemma LabelsAfterProjection(t: Table, a: string, b: string, ps: seq<int>, d: Table, p: int, f: Indexed)
    requires a != b && ProjectedOn(t, a, ps, d) && IndexedBy(d, b, p, f)
    ensures var qs := ps[..p] + ps[p + 1..];
      && Increasing(qs) && |qs| == |f.columns|
      && (forall k :: 0 <= k < |qs| ==>
            && 0 <= qs[k] < |t.columns| && t.columns[qs[k]] != a && t.columns[qs[k]] != b
            && f.columns[k] == t.columns[qs[k]])
      && (forall j :: 0 <= j < |t.columns| && t.columns[j] != a && t.columns[j] != b ==> j in qs)
  {
    SkipLabel(t.columns, a, b, ps, d.columns, p);
    SkipAt(ps, p);
    SkipProjected(t.columns, d.columns, ps, p);
  }

  /** ... and the cells under them. */
  lemma RowsAfterProjection(t: Table, a: string, b: string, ps: seq<int>, d: Table, p: int, f: Indexed)
    requires a != b && ProjectedOn(t, a, ps, d) && IndexedBy(d, b, p, f)
    ensures var qs := ps[..p] + ps[p + 1..];
      forall i :: 0 <= i < |t.rows| ==>
        && |f.rows[i]| == |qs|
        && forall k :: 0 <= k < |qs| ==> 0 <= qs[k] < |t.rows[i]| && f.rows[i][k] == t.rows[i][qs[k]]
  {
    var qs := ps[..p] + ps[p + 1..];
    SkipAt(ps, p);
    forall i | 0 <= i < |t.rows|
      ensures |f.rows[i]| == |qs| && forall k :: 0 <= k < |qs| ==> 0 <= qs[k] < |t.rows[i]| && f.rows[i][k] == t.rows[i][qs[k]]
    {
      SkipProjected(t.rows[i], d.rows[i], ps, p);
    }
  }

  /** Indexing a projection `d` by its one column `b` keeps the cells
      under every label but `a` and `b`, in the original order. */
  lemma CellsAfterProjection(t: Table, a: string, b: string, ps: seq<int>, d: Table, p: int, f: Indexed)
    returns (qs: seq<int>)
    requires a != b && ProjectedOn(t, a, ps, d) && IndexedBy(d, b, p, f)
    ensures CellsKept(t, a, b, f, qs)
  {
    LabelsAfterProjection(t, a, b, ps, d, p, f);
    RowsAfterProjection(t, a, b, ps, d, p, f);
    qs := ps[..p] + ps[p + 1..];
  }

  /** When column 0 is labelled `b` and column 1 is kept, the first kept
      column is column 1. */
  lemma FirstKeptIsSecond(t: Table, a: string, b: string, f: Indexed, qs: seq<int>)
    requires CellsKept(t, a, b, f, qs)
    requires |t.columns| > 1 && t.columns[0] == b && t.columns[1] != a && t.columns[1] != b
    ensures |qs| > 0 && qs[0] == 1
  {
  }

  /** `drop(columns=a)` followed by `set_index(b)`: the index holds each
      row's cell under `b`, and every other cell stays with its column,
      columns labelled `a` or `b` aside, in the original order. */
  lemma DropThenSetIndex(t: Table, a: string, b: string)
    requires WellFormed(t) && a != b
    requires DropColumn(t, a).Success? && SetIndex(DropColumn(t, a).value, b).Success?
    ensures b in t.columns
    ensures var f := SetIndex(DropColumn(t, a).value, b).value;
      && (forall i :: 0 <= i < |t.rows| ==> f.index[i] == t.rows[i][PositionOf(t.columns, b)])
      && exists qs :: CellsKept(t, a, b, f, qs)
  {
    var d := DropColumn(t, a).value;
    DropProjects(t, a);
    SetIndexAt(d, b);
    var p := PositionOf(d.columns, b);
    IndexAfterProjection(t, a, b, Kept(t.columns, a), d, p, SetIndex(d, b).value);
    var qs := CellsAfterProjection(t, a, b, Kept(t.columns, a), d, p, SetIndex(d, b).value);
  }

  /** Filtering from position `i` on: the column at `i`, unless it is
      `name`, then the filtered rest. */
  lemma WithoutFrom(columns: seq<string>, name: string, i: int)
    requires 0 <= i < |columns|
    ensures Without(columns[i..], name)
         == (if columns[i] == name then [] else [columns[i]]) + Without(columns[i + 1..], name)
  {
    assert columns[i..][0] == columns[i];
    assert columns[i..][1..] == columns[i + 1..];
  }

  lemma ProjectCons<T>(s: seq<T>, i: int, ps: seq<int>)
    requires 0 <= i < |s| && forall k :: 0 <= k < |ps| ==> 0 <= ps[k] < |s|
    ensures Project(s, [i] + ps) == [s[i]] + Project(s, ps)
  {
  }

  /** Removing the one occurrence of `name` at `p` is `Without`. */
  lemma {:induction false} WithoutUnique(names: seq<string>, name: string, p: int)
    requires 0 <= p < |names| && names[p] == name
    requires CountLabel(names, name) == 1
    ensures names[..p] + names[p + 1..] == Without(names, name)
  {
    if p == 0 {
      assert CountLabel(names[1..], name) == 0;
      WithoutAbsent(names[1..], name);
    } else {
      var head, tail := names[0], names[1..];
      assert head != name by {
        if head == name {
          CountAtLeastTwo(names, name, 0, p);
        }
      }
      WithoutUnique(tail, name, p - 1);
      assert Without(names, name) == [head] + Without(tail, name);
      assert names[..p] == [head] + tail[..p - 1];
      assert names[p + 1..] == tail[p..];
    }
  }

  lemma {:induction false} WithoutAbsent(names: seq<string>, name: string)
    requires CountLabel(names, name) == 0
    ensures Without(names, name) == names
  {
    if |names| > 0 {
      WithoutAbsent(names[1..], name);
      assert names == [names[0]] + names[1..];
    }
  }

  lemma {:induction false} CountAtLeastTwo(names: seq<string>, name: string, i: int, j: int)
    requires 0 <= i < j < |names| && names[i] == name && names[j] == name
    ensures CountLabel(names, name) >= 2
  {
    if i > 0 {
      CountAtLeastTwo(names[1..], name, i - 1, j - 1);
    } else {
      assert names[1..][j - 1] == name;
      assert CountLabel(names[1..], name) >= 1;
    }
  }


  /** Filtering a concatenation filters each part. */
  lemma {:induction false} WithoutConcat(a: seq<string>, b: seq<string>, name: string)
    ensures Without(a + b, name) == Without(a, name) + Without(b, name)
  {
    if |a| > 0 {
      WithoutConcat(a[1..], b, name);
      assert (a + b)[1..] == a[1..] + b;
    } else {
      assert a + b == b;
    }
  }

  /** Counting over a concatenation adds the counts of the parts. */
  lemma {:induction false} CountLabelConcat(a: seq<string>, b: seq<string>, name: string)
    ensures CountLabel(a + b, name) == CountLabel(a, name) + CountLabel(b, name)
  {
    if |a| > 0 {
      CountLabelConcat(a[1..], b, name);
      assert (a + b)[1..] == a[1..] + b;
    } else {
      assert a + b == b;
    }
  }

  /** A name that occurs once, between two stretches free of it: it is
      counted once, and filtering it out joins the two stretches. */
  lemma DropMiddle(pre: seq<string>, name: string, post: seq<string>)
    requires name !in pre && name !in post
    ensures Without(pre + [name] + post, name) == pre + post
    ensures CountLabel(pre + [name] + post, name) == 1
  {
    WithoutMiddle(pre, name, post);
    CountLabelConcat(pre + [name], post, name);
    CountLabelConcat(pre, [name], name);
  }

  lemma WithoutMiddle(pre: seq<string>, name: string, post: seq<string>)
    requires name !in pre && name !in post
    ensures Without(pre + [name] + post, name) == pre + post
  {
    assert Without(pre + [name], name) == pre by {
      WithoutConcat(pre, [name], name);
      WithoutAbsent(pre, name);
      assert [name][1..] == [];
    }
    assert Without(post, name) == post by {
      WithoutAbsent(post, name);
    }
    WithoutConcat(pre + [name], post, name);
  }
}
