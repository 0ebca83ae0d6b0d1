/** Worked examples of the two steps on small record sets. */
module Scenarios {

  import opened Wrappers
  import opened Records
  import opened Proportion
  import opened Allocation

  /** Two records of "Flour": 30 units used by department A, 70 by B. */
  function FlourRecords(): seq<UsageRecord>
  {
    [UsageRecord("1001", "Flour", "A", 30.0, 2024), UsageRecord("1001", "Flour", "B", 70.0, 2024)]
  }

  /** Asking for "flour", in lower case, selects both records. */
  lemma FlourMatched()
    ensures Matched(FlourRecords(), "flour") == FlourRecords()
  {
    var records := FlourRecords();
    assert !IsNumeric("flour") by {
      assert !IsDigit("flour"[0]);
    }
    assert Lower("Flour") == Lower("flour");
    assert Matches(records[0], "flour") && Matches(records[1], "flour");
    assert records[1..][1..] == [];
    assert Matched(records[1..], "flour") == records[1..];
  }

  /** Grouping the two records gives A with 30 and B with 70. */
  lemma FlourGrouped()
    ensures GroupByDepartment(FlourRecords()) == [Row("A", 30.0), Row("B", 70.0)]
  {
    var records := FlourRecords();
    assert records[..1] == [records[0]];
    assert records[..1][..0] == [];
  }

  /** Their total is 100, so the percentages equal the sums. */
  lemma FlourPercent()
    ensures ValueSum([Row("A", 30.0), Row("B", 70.0)]) == 100.0
    ensures ToPercent([Row("A", 30.0), Row("B", 70.0)], 100.0) == [Row("A", 30.0), Row("B", 70.0)]
  {
  }

  /** Sorting puts B first. */
  lemma FlourSorted()
    ensures SortDescending([Row("A", 30.0), Row("B", 70.0)]) == [Row("B", 70.0), Row("A", 30.0)]
  {
    var usage := [Row("A", 30.0), Row("B", 70.0)];
    assert usage[1..][1..] == [];
  }

  /** The proportions are B with 70% and A with 30%, in that order. */
  lemma FlourProportion()
    ensures Loaded(FlourRecords()) && NonZeroTotal(FlourRecords(), "flour")
    ensures CalculateProportion(FlourRecords(), "flour") == Some([Row("B", 70.0), Row("A", 30.0)])
  {
    FlourMatched();
    FlourGrouped();
    FlourPercent();
    FlourSorted();
  }

  /** Ten available units are split 7 and 3. */
  lemma FlourAllocation()
    ensures AllocationTable([Row("B", 70.0), Row("A", 30.0)], 10.0)
            == [Allocation("B", 70.0, 7.0), Allocation("A", 30.0, 3.0)]
  {
    var ps := [Row("B", 70.0), Row("A", 30.0)];
    assert ValueSum(ps) == 100.0;
    TableOfFullShares(ps, 10.0);
    assert RoundHalfEven(7.0) == 7 && RoundHalfEven(3.0) == 3;
  }

  /** Rounding comes after the correction, so the rounded column need not
      add up to the available quantity: three equal users of an item and
      10 units to share give 3 + 3 + 3. */
  lemma RoundedTotalMayDiffer()
    ensures var third := 100.0 / 3.0;
            var ps := [Row("A", third), Row("B", third), Row("C", third)];
            && ValueSum(ps) == 100.0
            && AllocatedSum(AllocationTable(ps, 10.0)) == 9.0
  {
    var third := 100.0 / 3.0;
    var ps := [Row("A", third), Row("B", third), Row("C", third)];
    assert ValueSum(ps[2..]) == third;
    assert ValueSum(ps[1..]) == third + third by {
      assert ps[1..][1..] == ps[2..];
    }
    var xs := Split(ps, 10.0);
    assert xs == [10.0 / 3.0, 10.0 / 3.0, 10.0 / 3.0];
    assert Sum(xs) == 10.0 by {
      assert xs[..1][..0] == [];
      assert Sum(xs[..1]) == 10.0 / 3.0;
      assert xs[..2][..1] == xs[..1];
      assert Sum(xs[..2]) == 20.0 / 3.0;
      assert xs[..2] == xs[..|xs| - 1];
    }
    assert RoundHalfEven(10.0 / 3.0) == 3;
    var t := AllocationTable(ps, 10.0);
    assert forall i :: 0 <= i < 3 ==> t[i].allocatedQuantity == 3.0 by {
      assert Correct(xs, 10.0) == xs;
    }
    assert t[..1][..0] == [];
    assert AllocatedSum(t[..1]) == 3.0;
    assert t[..2][..1] == t[..1];
    assert AllocatedSum(t[..2]) == 6.0;
    assert t[..2] == t[..|t| - 1];
  }
}
