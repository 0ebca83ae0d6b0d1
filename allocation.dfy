/** `allocate_quantity`: split an available quantity across the departments
    in proportion to their shares, push any gap between the column sum and
    the available quantity onto the largest row, then round every row. */
module Allocation {

  import opened Wrappers
  import opened Records
  import opened Proportion

  /** One row of the allocation table: DEPARTMENT_CAT, the share column
      carried over from the proportions, and "Allocated Quantity". */
  datatype Allocation = Allocation(department: string, share: real, allocatedQuantity: real)

  /** Sum of a column, first row to last. */
  function Sum(xs: seq<real>): real
  {
    if xs == [] then 0.0 else Sum(xs[..|xs| - 1]) + xs[|xs| - 1]
  }

  /** `(proportions["QUANTITY"] / 100) * available_quantity`, row by row. */
  function Split(ps: seq<Row>, available: real): (xs: seq<real>)
  {
    seq(|ps|, i requires 0 <= i < |ps| => ps[i].value / 100.0 * available)
  }

  /** `idxmax()`: the position of the first row holding the largest value. */
  function FirstMaxIndex(xs: seq<real>): (k: nat)
    requires |xs| > 0
    ensures k < |xs|
    ensures forall j :: 0 <= j < |xs| ==> xs[j] <= xs[k]
    ensures forall j :: 0 <= j < k ==> xs[j] < xs[k]
  {
    if |xs| == 1 then 0
    else
      var k := FirstMaxIndex(xs[..|xs| - 1]);
      if xs[|xs| - 1] > xs[k] then |xs| - 1 else k
  }

  /** The correction step of `allocate_quantity`: when the column does not add up to the available
      quantity, the whole difference goes to the first largest row. */
  function Correct(xs: seq<real>, available: real): (ys: seq<real>)
    requires |xs| > 0
  {
    var allocatedSum := Sum(xs);
    if allocatedSum == available then xs
    else
      var indexMax := FirstMaxIndex(xs);
      xs[indexMax := xs[indexMax] + (available - allocatedSum)]
  }

  /** `round(0)` on a float column: to the nearest integer, halves to the
      even neighbour. */
  function RoundHalfEven(x: real): (n: int)
    ensures x - 0.5 <= n as real <= x + 0.5
    ensures (n as real == x - 0.5 || n as real == x + 0.5) ==> n % 2 == 0
  {
    var f := x.Floor;
    var fraction := x - f as real;
    if fraction < 0.5 then f
    else if fraction > 0.5 then f + 1
    else if f % 2 == 0 then f
    else f + 1
  }

  /** The column with every value rounded. */
  function Rounded(xs: seq<real>): (ys: seq<real>)
  {
    seq(|xs|, i requires 0 <= i < |xs| => RoundHalfEven(xs[i]) as real)
  }

  /** The proportion table with an "Allocated Quantity" column added. */
  function WithColumn(ps: seq<Row>, column: seq<real>): (t: seq<Allocation>)
    requires |column| == |ps|
  {
    seq(|ps|, i requires 0 <= i < |ps| => Allocation(ps[i].department, ps[i].value, column[i]))
  }

  /** The table `allocate_quantity` returns for a proportion table. */
  function AllocationTable(ps: seq<Row>, available: real): (t: seq<Allocation>)
    requires |ps| > 0
  {
    WithColumn(ps, Rounded(Correct(Split(ps, available), available)))
  }

  /** Sum of the "Allocated Quantity" column of a table. */
  function AllocatedSum(t: seq<Allocation>): real
  {
    if t == [] then 0.0 else AllocatedSum(t[..|t| - 1]) + t[|t| - 1].allocatedQuantity
  }

  /** `proportions["Allocated Quantity"].sum()` on the column. */
  method ColumnSum(column: array<real>) returns (s: real)
    ensures s == Sum(column[..])
  {
    s := 0.0;
    for i := 0 to column.Length
      invariant s == Sum(column[..i])
    {
      assert column[..i + 1][..i] == column[..i];
      s := s + column[i];
    }
    assert column[..column.Length] == column[..];
  }

  /** `proportions["Allocated Quantity"].idxmax()` on the column. */
  method IndexOfMax(column: array<real>) returns (k: nat)
    requires column.Length > 0
    ensures k < column.Length
    ensures forall j :: 0 <= j < column.Length ==> column[j] <= column[k]
    ensures forall j :: 0 <= j < k ==> column[j] < column[k]
    ensures k == FirstMaxIndex(column[..])
  {
    k := 0;
    for i := 1 to column.Length
      invariant k < i
      invariant forall j :: 0 <= j < i ==> column[j] <= column[k]
      invariant forall j :: 0 <= j < k ==> column[j] < column[k]
    {
      if column[i] > column[k] {
        k := i;
      }
    }
    FirstMaxIndexUnique(column[..], k);
  }

  /** The split step of `allocate_quantity`: fills the new "Allocated
      Quantity" column with each share of the available quantity. */
  method FillSplit(column: array<real>, ps: seq<Row>, available: real)
    requires column.Length == |ps|
    modifies column
    ensures column[..] == Split(ps, available)
  {
    for i := 0 to column.Length
      invariant forall j :: 0 <= j < i ==> column[j] == ps[j].value / 100.0 * available
    {
      column[i] := ps[i].value / 100.0 * available;
    }
    assert forall j :: 0 <= j < |ps| ==> column[..][j] == Split(ps, available)[j];
  }

  /** The correction step of `allocate_quantity`, in place: only the cell
      at `idxmax` is written. */
  method CorrectColumn(column: array<real>, available: real)
    requires column.Length > 0
    modifies column
    ensures column[..] == Correct(old(column[..]), available)
  {
    var allocatedSum := ColumnSum(column);
    if allocatedSum != available {
      var difference := available - allocatedSum;
      var indexMax := IndexOfMax(column);
      column[indexMax] := column[indexMax] + difference;
    }
  }

  /** The rounding step of `allocate_quantity`: overwrites the column with
      its rounded values. */
  method RoundColumn(column: array<real>)
    modifies column
    ensures column[..] == Rounded(old(column[..]))
  {
    for i := 0 to column.Length
      invariant forall j :: 0 <= j < i ==> column[j] == RoundHalfEven(old(column[j])) as real
      invariant forall j :: i <= j < column.Length ==> column[j] == old(column[j])
    {
      column[i] := RoundHalfEven(column[i]) as real;
    }
  }

  /** `allocate_quantity(df, identifier, available_quantity)`. */
  method AllocateQuantity(records: seq<UsageRecord>, identifier: string, available: real)
    returns (result: Option<seq<Allocation>>)
    requires Loaded(records)
    requires NonZeroTotal(records, identifier)
    requires available > 0.0
    ensures result.None? <==> CalculateProportion(records, identifier).None?
    ensures result.Some? ==>
              result.value == AllocationTable(CalculateProportion(records, identifier).value, available)
  {
    var proportions := CalculateProportion(records, identifier);
    if proportions.None? {
      return None;
    }
    OneRowPerDepartment(records, identifier);
    var rows := AllocateRows(proportions.value, available);
    result := Some(rows);
  }

  /** The body of `allocate_quantity` on a proportion table: add the column, correct it, round
      it, and return the table. */
  method AllocateRows(ps: seq<Row>, available: real) returns (rows: seq<Allocation>)
    requires |ps| > 0
    ensures rows == AllocationTable(ps, available)
  {
    var column := new real[|ps|];
    FillSplit(column, ps, available);
    CorrectColumn(column, available);
    RoundColumn(column);
    rows := [];
    for i := 0 to column.Length
      invariant |rows| == i
      invariant forall j :: 0 <= j < i ==> rows[j] == Allocation(ps[j].department, ps[j].value, column[j])
    {
      rows := rows + [Allocation(ps[i].department, ps[i].value, column[i])];
    }
    assert rows == WithColumn(ps, column[..]);
  }

  /** The two properties of FirstMaxIndex pin the position down. */
  lemma FirstMaxIndexUnique(xs: seq<real>, k: nat)
    requires k < |xs|
    requires forall j :: 0 <= j < |xs| ==> xs[j] <= xs[k]
    requires forall j :: 0 <= j < k ==> xs[j] < xs[k]
    ensures k == FirstMaxIndex(xs)
  {
  }

  lemma {:induction false} SumUpdate(xs: seq<real>, k: nat, v: real)
    requires k < |xs|
    ensures Sum(xs[k := v]) == Sum(xs) - xs[k] + v
  {
    var n := |xs|;
    if k < n - 1 {
      assert xs[k := v][..n - 1] == xs[..n - 1][k := v];
      SumUpdate(xs[..n - 1], k, v);
    } else {
      assert xs[k := v][..n - 1] == xs[..n - 1];
    }
  }

  /** The correction step: afterwards the column adds up to the available
      quantity; a column that already did is left as it is; otherwise only
      the first largest row changes, by exactly the difference. */
  lemma CorrectSpec(xs: seq<real>, available: real)
    requires |xs| > 0
    ensures var ys := Correct(xs, available);
            && |ys| == |xs|
            && Sum(ys) == available
            && (Sum(xs) == available ==> ys == xs)
            && (Sum(xs) != available ==>
                  var k := FirstMaxIndex(xs);
                  && ys[k] == xs[k] + (available - Sum(xs))
                  && forall i :: 0 <= i < |xs| && i != k ==> ys[i] == xs[i])
  {
    if Sum(xs) != available {
      var k := FirstMaxIndex(xs);
      SumUpdate(xs, k, xs[k] + (available - Sum(xs)));
    }
  }

  lemma {:induction false} SumSplit(ps: seq<Row>, available: real)
    ensures Sum(Split(ps, available)) == ValueSum(ps) / 100.0 * available
  {
    if ps != [] {
      var xs := Split(ps, available);
      SplitTail(ps, available);
      SumSplit(ps[1..], available);
      SumFront(xs);
      Distribute(ps[0].value, ValueSum(ps[1..]), available);
    }
  }

  lemma SplitTail(ps: seq<Row>, available: real)
    requires ps != []
    ensures Split(ps, available)[0] == ps[0].value / 100.0 * available
    ensures Split(ps, available)[1..] == Split(ps[1..], available)
  {
    var xs := Split(ps, available);
    var rest := Split(ps[1..], available);
    forall i | 0 <= i < |ps| - 1 ensures xs[1..][i] == rest[i] {
      assert ps[1..][i] == ps[i + 1];
    }
  }

  lemma Distribute(x: real, y: real, available: real)
    ensures x / 100.0 * available + y / 100.0 * available == (x + y) / 100.0 * available
  {
  }

  lemma {:induction false} SumFront(xs: seq<real>)
    requires xs != []
    ensures Sum(xs) == xs[0] + Sum(xs[1..])
  {
    var n := |xs|;
    if n > 1 {
      SumFront(xs[..n - 1]);
      assert xs[..n - 1][1..] == xs[1..][..n - 2];
    } else {
      assert xs[..n - 1] == [];
    }
  }

  /** With shares adding up to 100 the split already adds up to the
      available quantity. */
  lemma SplitSumsToAvailable(ps: seq<Row>, available: real)
    requires ValueSum(ps) == 100.0
    ensures Sum(Split(ps, available)) == available
  {
    SumSplit(ps, available);
  }

  /** In exact arithmetic the correction never fires on a table that
      `calculate_proportion` produced: each department keeps
      `share / 100 * available_quantity` before rounding. */
  lemma CorrectionIsNoOp(records: seq<UsageRecord>, identifier: string, available: real)
    requires Loaded(records)
    requires NonZeroTotal(records, identifier)
    requires CalculateProportion(records, identifier).Some?
    ensures var ps := CalculateProportion(records, identifier).value;
            |ps| > 0 && Correct(Split(ps, available), available) == Split(ps, available)
  {
    var ps := CalculateProportion(records, identifier).value;
    OneRowPerDepartment(records, identifier);
    SharesSumTo100(records, identifier);
    SplitSumsToAvailable(ps, available);
  }

  /** A rounding satisfying the two properties of RoundHalfEven is that
      rounding. */
  lemma RoundHalfEvenUnique(x: real, n: int)
    requires x - 0.5 <= n as real <= x + 0.5
    requires (n as real == x - 0.5 || n as real == x + 0.5) ==> n % 2 == 0
    ensures n == RoundHalfEven(x)
  {
  }

  /** The table keeps the departments, their order and their shares, and
      every allocation is the rounding of the corrected split. */
  lemma AllocationTableSpec(ps: seq<Row>, available: real)
    requires |ps| > 0
    ensures var t := AllocationTable(ps, available);
            var corrected := Correct(Split(ps, available), available);
            && |t| == |ps|
            && forall i :: 0 <= i < |ps| ==>
                 && t[i].department == ps[i].department
                 && t[i].share == ps[i].value
                 && t[i].allocatedQuantity == t[i].allocatedQuantity.Floor as real
                 && corrected[i] - 0.5 <= t[i].allocatedQuantity <= corrected[i] + 0.5
  {
    CorrectSpec(Split(ps, available), available);
  }

  /** The table without the correction step: each department receives
      the rounding of `share / 100 * available_quantity`. */
  function UncorrectedTable(ps: seq<Row>, available: real): (t: seq<Allocation>)
  {
    WithColumn(ps, Rounded(Split(ps, available)))
  }

  /** When the shares add up to 100 the correction changes nothing, so the
      table is the uncorrected one. */
  lemma TableOfFullShares(ps: seq<Row>, available: real)
    requires |ps| > 0
    requires ValueSum(ps) == 100.0
    ensures AllocationTable(ps, available) == UncorrectedTable(ps, available)
  {
    SplitNeedsNoCorrection(ps, available);
  }

  lemma SplitNeedsNoCorrection(ps: seq<Row>, available: real)
    requires |ps| > 0
    requires ValueSum(ps) == 100.0
    ensures Correct(Split(ps, available), available) == Split(ps, available)
  {
    SplitSumsToAvailable(ps, available);
  }

  /** End to end, in exact arithmetic: for a table `calculate_proportion`
      produced, the allocation is the uncorrected one. */
  lemma AllocationOfProportions(records: seq<UsageRecord>, identifier: string, available: real)
    requires Loaded(records)
    requires NonZeroTotal(records, identifier)
    requires CalculateProportion(records, identifier).Some?
    ensures |CalculateProportion(records, identifier).value| > 0
    ensures var ps := CalculateProportion(records, identifier).value;
            AllocationTable(ps, available) == UncorrectedTable(ps, available)
  {
    var ps := CalculateProportion(records, identifier).value;
    OneRowPerDepartment(records, identifier);
    SharesSumTo100(records, identifier);
    TableOfFullShares(ps, available);
  }

  /** An item used by a single department: one row, a share of 100, and the
      whole available quantity, rounded. */
  lemma SingleDepartment(records: seq<UsageRecord>, identifier: string, available: real)
    requires Loaded(records)
    requires NonZeroTotal(records, identifier)
    requires CalculateProportion(records, identifier).Some?
    requires |set r | r in records && Matches(r, identifier) :: r.department| == 1
    ensures var ps := CalculateProportion(records, identifier).value;
            && |ps| == 1
            && ps[0].value == 100.0
            && AllocationTable(ps, available)[0].allocatedQuantity == RoundHalfEven(available) as real
  {
    var ps := CalculateProportion(records, identifier).value;
    OneRowPerDepartment(records, identifier);
    SharesSumTo100(records, identifier);
    assert ValueSum(ps) == ps[0].value + ValueSum(ps[1..]);
    assert ps[0].value == 100.0;
    AllocationOfProportions(records, identifier, available);
    var t := UncorrectedTable(ps, available);
    assert t[0].allocatedQuantity == RoundHalfEven(ps[0].value / 100.0 * available) as real;
    assert ps[0].value / 100.0 * available == available;
  }
}
