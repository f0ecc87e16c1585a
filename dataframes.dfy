/**
 * The tabular data the dashboard receives from its spreadsheet and CSV
 * readers: named, typed columns of equal length. Reading a file is not part of
 * this model; a parsed table is an input to the operations that use it.
 */
module DataFrames {
  import opened Wrappers

  /** One cell as a row record shows it: missing (NaN/None), a number or a text value. */
  datatype Cell = Null | Number(n: real) | Text(s: string)

  /** How many times `x` occurs in `s`. */
  function CountOf<T(==)>(s: seq<T>, x: T): (k: nat)
    ensures k <= |s|
    ensures k == 0 <==> x !in s
  {
    if s == [] then 0
    else
      assert s == s[..|s| - 1] + [s[|s| - 1]];
      CountOf(s[..|s| - 1], x) + (if s[|s| - 1] == x then 1 else 0)
  }

  /** Every cell of `s` is missing (`isna().all()`; true of an empty column). */
  predicate AllNull<T>(s: seq<Option<T>>) {
    forall i :: 0 <= i < |s| ==> s[i].None?
  }

  /** The present values of `s`, in row order (`dropna()`). */
  function NonNull<T(==)>(s: seq<Option<T>>): (r: seq<T>)
    ensures |r| == |s| - CountOf(s, None)
  {
    if s == [] then []
    else
      assert s == s[..|s| - 1] + [s[|s| - 1]];
      NonNull(s[..|s| - 1]) + (if s[|s| - 1].Some? then [s[|s| - 1].value] else [])
  }

  /** Dropping missing values keeps the order of rows: it distributes over concatenation. */
  lemma {:induction false} NonNullAppend<T>(a: seq<Option<T>>, b: seq<Option<T>>)
    ensures NonNull(a + b) == NonNull(a) + NonNull(b)
  {
    if b != [] {
      var b' := b[..|b| - 1];
      assert (a + b)[..|a + b| - 1] == a + b';
      assert (a + b)[|a + b| - 1] == b[|b| - 1];
      NonNullAppend(a, b');
    } else {
      assert a + b == a;
    }
  }

  /** The present values are exactly the values of the cells that are not missing. */
  lemma {:induction false} NonNullMembers<T>(s: seq<Option<T>>)
    ensures forall i :: 0 <= i < |NonNull(s)| ==> Some(NonNull(s)[i]) in s
    ensures forall i :: 0 <= i < |s| && s[i].Some? ==> s[i].value in NonNull(s)
  {
    if s != [] {
      var init := s[..|s| - 1];
      NonNullMembers(init);
      assert s == init + [s[|s| - 1]];
      forall i | 0 <= i < |s| && s[i].Some? ensures s[i].value in NonNull(s) {
        if i < |init| {
          assert init[i] == s[i];
        }
      }
    }
  }

  /** A column has no present value exactly when all of its cells are missing. */
  lemma {:induction false} AllNullIff<T>(s: seq<Option<T>>)
    ensures AllNull(s) <==> NonNull(s) == []
    ensures AllNull(s) <==> CountOf(s, None) == |s|
  {
    if s != [] {
      var init := s[..|s| - 1];
      AllNullIff(init);
      assert AllNull(s) <==> AllNull(init) && s[|s| - 1].None?;
    }
  }

  /**
   * A column's cells. pandas' numeric dtypes (integers, floats, booleans) hold
   * numbers; every other dtype is profiled as text.
   */
  datatype Cells = Numeric(nums: seq<Option<real>>) | NonNumeric(texts: seq<Option<string>>)
  {
    function Length(): nat {
      match this
      case Numeric(v) => |v|
      case NonNumeric(v) => |v|
    }

    /** The cell of row `r`. */
    function At(r: nat): (c: Cell)
      requires r < Length()
      ensures Numeric? ==> (c == Null <==> nums[r].None?)
      ensures NonNumeric? ==> (c == Null <==> texts[r].None?)
    {
      match this
      case Numeric(v) => if v[r].Some? then Number(v[r].value) else Null
      case NonNumeric(v) => if v[r].Some? then Text(v[r].value) else Null
    }

    /** `isna().sum()`. */
    function NullCount(): (k: nat)
      ensures k <= Length()
    {
      match this
      case Numeric(v) => CountOf(v, None)
      case NonNumeric(v) => CountOf(v, None)
    }

    /** The first `k` cells (`head(k)`). */
    function Take(k: nat): (c: Cells)
      ensures c.Length() == Min(k, Length())
      ensures c.Numeric? == Numeric?
      ensures forall r :: 0 <= r < c.Length() ==> c.At(r) == At(r)
    {
      match this
      case Numeric(v) => Numeric(v[..Min(k, |v|)])
      case NonNumeric(v) => NonNumeric(v[..Min(k, |v|)])
    }

    /** The present cells among the first `k` rows, in row order. */
    function PresentIn(k: nat): (r: seq<Cell>)
      requires k <= Length()
      ensures |r| <= k
      ensures forall i :: 0 <= i < |r| ==> r[i] != Null
    {
      if k == 0 then []
      else PresentIn(k - 1) + (if At(k - 1) == Null then [] else [At(k - 1)])
    }

    /** The present cells of the whole column, in row order (`dropna().tolist()`). */
    function Present(): (r: seq<Cell>)
      ensures |r| <= Length()
      ensures forall i :: 0 <= i < |r| ==> r[i] != Null
    {
      PresentIn(Length())
    }
  }

  /** Reading further rows only appends to the present cells seen so far. */
  lemma {:induction false} PresentInPrefix(c: Cells, k: nat, m: nat)
    requires k <= m <= c.Length()
    ensures c.PresentIn(k) <= c.PresentIn(m)
    decreases m - k
  {
    if k < m {
      PresentInPrefix(c, k, m - 1);
    }
  }

  /** The present cells among the first `k` rows number `k` less the missing ones among them. */
  lemma PresentInCount(c: Cells, k: nat)
    requires k <= c.Length()
    ensures |c.PresentIn(k)| == k - c.Take(k).NullCount()
  {
    match c
    case Numeric(v) =>
      PresentInIsNumbers(c, k);
      assert c.Take(k) == Numeric(v[..k]);
    case NonNumeric(v) =>
      PresentInIsTexts(c, k);
      assert c.Take(k) == NonNumeric(v[..k]);
  }

  /** A column has as many present cells as it has cells that are not missing. */
  lemma PresentCount(c: Cells)
    ensures |c.Present()| == c.Length() - c.NullCount()
  {
    PresentInCount(c, c.Length());
    match c
    case Numeric(v) =>
      assert v[..|v|] == v;
    case NonNumeric(v) =>
      assert v[..|v|] == v;
  }

  /** Numbers as cells. */
  function Numbers(s: seq<real>): (r: seq<Cell>)
    ensures |r| == |s|
  {
    seq(|s|, i requires 0 <= i < |s| => Number(s[i]))
  }

  /** Texts as cells. */
  function Texts(s: seq<string>): (r: seq<Cell>)
    ensures |r| == |s|
  {
    seq(|s|, i requires 0 <= i < |s| => Text(s[i]))
  }

  lemma NumbersAppend(a: seq<real>, b: seq<real>)
    ensures Numbers(a + b) == Numbers(a) + Numbers(b)
  {
    assert forall i :: 0 <= i < |a + b| ==> Numbers(a + b)[i] == (Numbers(a) + Numbers(b))[i];
  }

  lemma TextsAppend(a: seq<string>, b: seq<string>)
    ensures Texts(a + b) == Texts(a) + Texts(b)
  {
    assert forall i :: 0 <= i < |a + b| ==> Texts(a + b)[i] == (Texts(a) + Texts(b))[i];
  }

  lemma NumbersSnoc(prev: seq<Cell>, kept: seq<real>, cellTail: seq<Cell>, tail: seq<real>)
    requires prev == Numbers(kept) && cellTail == Numbers(tail)
    ensures prev + cellTail == Numbers(kept + tail)
  {
    NumbersAppend(kept, tail);
  }

  lemma TextsSnoc(prev: seq<Cell>, kept: seq<string>, cellTail: seq<Cell>, tail: seq<string>)
    requires prev == Texts(kept) && cellTail == Texts(tail)
    ensures prev + cellTail == Texts(kept + tail)
  {
    TextsAppend(kept, tail);
  }

  /** Reading one more row appends its value, if present, to the kept values. */
  lemma NonNullSnoc<T>(v: seq<Option<T>>, k: nat)
    requires 0 < k <= |v|
    ensures NonNull(v[..k]) == NonNull(v[..k - 1]) + (if v[k - 1].Some? then [v[k - 1].value] else [])
  {
    assert v[..k][..k - 1] == v[..k - 1];
  }

  /** The present cells among the first `k` rows of a numeric column are the numbers `NonNull` keeps of them. */
  lemma {:induction false} PresentInIsNumbers(c: Cells, k: nat)
    requires c.Numeric? && k <= c.Length()
    ensures c.PresentIn(k) == Numbers(NonNull(c.nums[..k]))
  {
    if k > 0 {
      var v := c.nums;
      PresentInIsNumbers(c, k - 1);
      NonNullSnoc(v, k);
      var tail := if v[k - 1].Some? then [v[k - 1].value] else [];
      var cellTail := if c.At(k - 1) == Null then [] else [c.At(k - 1)];
      assert Numbers(tail) == cellTail;
      NumbersSnoc(c.PresentIn(k - 1), NonNull(v[..k - 1]), cellTail, tail);
    } else {
      assert c.nums[..0] == [];
    }
  }

  /** The same for a text column. */
  lemma {:induction false} PresentInIsTexts(c: Cells, k: nat)
    requires c.NonNumeric? && k <= c.Length()
    ensures c.PresentIn(k) == Texts(NonNull(c.texts[..k]))
  {
    if k > 0 {
      var v := c.texts;
      PresentInIsTexts(c, k - 1);
      NonNullSnoc(v, k);
      var tail := if v[k - 1].Some? then [v[k - 1].value] else [];
      var cellTail := if c.At(k - 1) == Null then [] else [c.At(k - 1)];
      assert Texts(tail) == cellTail;
      TextsSnoc(c.PresentIn(k - 1), NonNull(v[..k - 1]), cellTail, tail);
    } else {
      assert c.texts[..0] == [];
    }
  }

  /** `Present` and `NonNull` are one concept: a column's present cells are its non-missing values. */
  lemma PresentIsNonNull(c: Cells)
    ensures c.Numeric? ==> c.Present() == Numbers(NonNull(c.nums))
    ensures c.NonNumeric? ==> c.Present() == Texts(NonNull(c.texts))
  {
    match c
    case Numeric(v) =>
      PresentInIsNumbers(c, |v|);
      assert v[..|v|] == v;
    case NonNumeric(v) =>
      PresentInIsTexts(c, |v|);
      assert v[..|v|] == v;
  }

  /** Every present cell is the cell of some row. */
  lemma {:induction false} PresentInRows(c: Cells, k: nat)
    requires k <= c.Length()
    ensures forall i :: 0 <= i < |c.PresentIn(k)| ==> exists r :: 0 <= r < k && c.At(r) == c.PresentIn(k)[i]
  {
    if k > 0 {
      PresentInRows(c, k - 1);
      var p := c.PresentIn(k - 1);
      assert c.PresentIn(k) == p + (if c.At(k - 1) == Null then [] else [c.At(k - 1)]);
      forall i | 0 <= i < |c.PresentIn(k)| ensures exists r :: 0 <= r < k && c.At(r) == c.PresentIn(k)[i] {
        if i < |p| {
          assert c.PresentIn(k)[i] == p[i];
          var r :| 0 <= r < k - 1 && c.At(r) == p[i];
          assert 0 <= r < k && c.At(r) == c.PresentIn(k)[i];
        } else {
          assert 0 <= k - 1 < k && c.At(k - 1) == c.PresentIn(k)[i];
        }
      }
    } else {
      assert c.PresentIn(k) == [];
    }
  }

  /** `dtype` is the name pandas gives the column's type; it is carried along, never interpreted. */
  datatype Column = Column(name: string, dtype: string, cells: Cells)

  datatype FrameData = FrameData(columns: seq<Column>, rowCount: nat)

  /** Row alignment: every column has one cell per row. */
  predicate Aligned(f: FrameData) {
    forall i :: 0 <= i < |f.columns| ==> f.columns[i].cells.Length() == f.rowCount
  }

  /** A parsed table (a DataFrame). */
  type Frame = f: FrameData | Aligned(f) witness FrameData([], 0)

  /** `list(df.columns)`. */
  function ColumnNames(f: Frame): (names: seq<string>)
    ensures |names| == |f.columns|
    ensures forall i :: 0 <= i < |f.columns| ==> names[i] == f.columns[i].name
  {
    seq(|f.columns|, i requires 0 <= i < |f.columns| => f.columns[i].name)
  }

  /** `df.head(k)`: the first `k` rows of every column, columns unchanged otherwise. */
  function Head(f: Frame, k: nat): (h: Frame)
    ensures h.rowCount == Min(k, f.rowCount)
    ensures |h.columns| == |f.columns|
    ensures forall i :: 0 <= i < |f.columns| ==>
      && h.columns[i].name == f.columns[i].name
      && h.columns[i].dtype == f.columns[i].dtype
      && h.columns[i].cells == f.columns[i].cells.Take(k)
  {
    FrameData(
      seq(|f.columns|, i requires 0 <= i < |f.columns| =>
        Column(f.columns[i].name, f.columns[i].dtype, f.columns[i].cells.Take(k))),
      Min(k, f.rowCount))
  }

  /** No later column has the same name as column `j`. */
  predicate LastWithName(cols: seq<Column>, j: nat)
    requires j < |cols|
  {
    forall i :: j < i < |cols| ==> cols[i].name != cols[j].name
  }

  /**
   * Row `r` as a record mapping column names to cells. Under a repeated name
   * the record keeps the last column's cell, as building a dict from
   * (name, value) pairs does.
   */
  function RowRecord(cols: seq<Column>, r: nat): map<string, Cell>
    requires forall i :: 0 <= i < |cols| ==> r < cols[i].cells.Length()
  {
    if cols == [] then map[]
    else RowRecord(cols[..|cols| - 1], r)[cols[|cols| - 1].name := cols[|cols| - 1].cells.At(r)]
  }

  /** A record has one key per distinct column name and no other key. */
  lemma {:induction false} RowRecordKeys(cols: seq<Column>, r: nat)
    requires forall i :: 0 <= i < |cols| ==> r < cols[i].cells.Length()
    ensures forall j :: 0 <= j < |cols| ==> cols[j].name in RowRecord(cols, r)
    ensures forall k :: k in RowRecord(cols, r) ==> exists j :: 0 <= j < |cols| && cols[j].name == k
  {
    if cols != [] {
      var init := cols[..|cols| - 1];
      RowRecordKeys(init, r);
      forall k | k in RowRecord(cols, r) ensures exists j :: 0 <= j < |cols| && cols[j].name == k {
        if k != cols[|cols| - 1].name {
          var j :| 0 <= j < |init| && init[j].name == k;
          assert cols[j].name == k;
        }
      }
      forall j | 0 <= j < |cols| ensures cols[j].name in RowRecord(cols, r) {
        if j < |init| {
          assert init[j] == cols[j];
        }
      }
    }
  }

  /** Under a name no later column repeats, the record holds that column's cell of row `r`. */
  lemma {:induction false} RowRecordAt(cols: seq<Column>, r: nat, j: nat)
    requires forall i :: 0 <= i < |cols| ==> r < cols[i].cells.Length()
    requires j < |cols| && LastWithName(cols, j)
    ensures cols[j].name in RowRecord(cols, r)
    ensures RowRecord(cols, r)[cols[j].name] == cols[j].cells.At(r)
  {
    if j < |cols| - 1 {
      var init := cols[..|cols| - 1];
      assert init[j] == cols[j];
      assert LastWithName(init, j);
      RowRecordAt(init, r, j);
    }
  }

  /** `df.to_dict('records')`: one record per row, in row order. */
  function Records(f: Frame): (rs: seq<map<string, Cell>>)
    ensures |rs| == f.rowCount
  {
    seq(f.rowCount, r requires 0 <= r < f.rowCount => RowRecord(f.columns, r))
  }
}
