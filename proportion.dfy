/** `calculate_proportion`: select an item's usage records, sum them per
    department, turn the sums into percentages of the total and order the
    departments by share, largest first. */
module Proportion {

  import opened Wrappers
  import opened Records

  /** One row of a per-department table: the department label and a value.
      In the group-by result the value is the summed QUANTITY; after
      normalisation the same column holds the department's percentage. */
  datatype Row = Row(department: string, value: real)

  /** The departments a table has a row for. */
  function Departments(g: seq<Row>): set<string>
  {
    if g == [] then {} else {g[0].department} + Departments(g[1..])
  }

  /** No department has two rows. */
  predicate DistinctDepartments(g: seq<Row>)
  {
    g == [] || (g[0].department !in Departments(g[1..]) && DistinctDepartments(g[1..]))
  }

  /** The value of a department's row (the first one), 0 when it has none. */
  function ValueOf(g: seq<Row>, department: string): real
  {
    if g == [] then 0.0
    else if g[0].department == department then g[0].value
    else ValueOf(g[1..], department)
  }

  /** Sum of the value column. */
  function ValueSum(g: seq<Row>): real
  {
    if g == [] then 0.0 else g[0].value + ValueSum(g[1..])
  }

  /** Non-increasing by value: the order `sort_values(ascending=False)`
      leaves. */
  predicate SortedDescending(g: seq<Row>)
  {
    forall i, j :: 0 <= i < j < |g| ==> g[i].value >= g[j].value
  }

  /** Folds one record into a group-by table: its quantity is added to its
      department's row, or a new row is opened for it. */
  function AddUsage(g: seq<Row>, r: UsageRecord): (h: seq<Row>)
    ensures Departments(h) == Departments(g) + {r.department}
    ensures DistinctDepartments(g) ==> DistinctDepartments(h)
    ensures forall d :: ValueOf(h, d) == ValueOf(g, d) + (if d == r.department then r.quantity else 0.0)
    ensures ValueSum(h) == ValueSum(g) + r.quantity
  {
    if g == [] then [Row(r.department, r.quantity)]
    else if g[0].department == r.department then [Row(r.department, g[0].value + r.quantity)] + g[1..]
    else [g[0]] + AddUsage(g[1..], r)
  }

  /** `groupby("DEPARTMENT_CAT")["QUANTITY"].sum()`: one row per department
      that occurs, holding the sum of that department's quantities. */
  function GroupByDepartment(rs: seq<UsageRecord>): (g: seq<Row>)
    ensures DistinctDepartments(g)
    ensures Departments(g) == RecordDepartments(rs)
    ensures forall d :: ValueOf(g, d) == DepartmentSum(rs, d)
    ensures ValueSum(g) == TotalQuantity(rs)
    ensures rs != [] ==> g != []
  {
    if rs == [] then []
    else
      var prefix := rs[..|rs| - 1];
      assert RecordDepartments(rs) == RecordDepartments(prefix) + {rs[|rs| - 1].department} by {
        assert rs == prefix + [rs[|rs| - 1]];
      }
      AddUsage(GroupByDepartment(prefix), rs[|rs| - 1])
  }

  /** `(usage_summary / total_usage) * 100`, row by row. */
  function ToPercent(g: seq<Row>, total: real): (h: seq<Row>)
    requires total != 0.0
    ensures |h| == |g|
    ensures forall i :: 0 <= i < |g| ==> h[i] == Row(g[i].department, g[i].value / total * 100.0)
    ensures Departments(h) == Departments(g)
    ensures DistinctDepartments(g) ==> DistinctDepartments(h)
  {
    if g == [] then []
    else [Row(g[0].department, g[0].value / total * 100.0)] + ToPercent(g[1..], total)
  }

  /** Normalising by the total scales the sum of the column in the same way. */
  lemma {:induction false} PercentSum(g: seq<Row>, total: real)
    requires total != 0.0
    ensures ValueSum(ToPercent(g, total)) == ValueSum(g) / total * 100.0
  {
    if g != [] {
      PercentSum(g[1..], total);
      var h := ToPercent(g, total);
      assert h[1..] == ToPercent(g[1..], total);
      assert ValueSum(h) == g[0].value / total * 100.0 + ValueSum(g[1..]) / total * 100.0;
      PercentDistributes(g[0].value, ValueSum(g[1..]), total);
    }
  }

  lemma PercentDistributes(x: real, y: real, total: real)
    requires total != 0.0
    ensures x / total * 100.0 + y / total * 100.0 == (x + y) / total * 100.0
  {
  }

  /** Inserts a row in front of the first row whose value is not larger. */
  function InsertByValue(x: Row, s: seq<Row>): (r: seq<Row>)
    ensures multiset(r) == multiset(s) + multiset{x}
    ensures |r| == |s| + 1
  {
    if s == [] || x.value >= s[0].value then [x] + s
    else
      assert s == [s[0]] + s[1..];
      [s[0]] + InsertByValue(x, s[1..])
  }

  /** `sort_values(ascending=False)`: the same rows, largest value first
      (an insertion sort; see SortDescendingSorted). */
  function SortDescending(s: seq<Row>): (r: seq<Row>)
    ensures multiset(r) == multiset(s)
    ensures |r| == |s|
  {
    if s == [] then []
    else
      assert s == [s[0]] + s[1..];
      InsertByValue(s[0], SortDescending(s[1..]))
  }

  lemma {:induction false} InsertSorted(x: Row, s: seq<Row>)
    requires SortedDescending(s)
    ensures SortedDescending(InsertByValue(x, s))
  {
    if s == [] || x.value >= s[0].value {
      ConsSorted(x, s);
    } else {
      var rest := s[1..];
      assert forall k :: 0 <= k < |rest| ==> rest[k].value <= s[0].value by {
        forall k | 0 <= k < |rest| ensures rest[k].value <= s[0].value {
          assert rest[k] == s[k + 1];
        }
      }
      assert SortedDescending(rest) by {
        forall i, j | 0 <= i < j < |rest| ensures rest[i].value >= rest[j].value {
          assert rest[i] == s[i + 1] && rest[j] == s[j + 1];
        }
      }
      InsertSorted(x, rest);
      InsertBounded(x, rest, s[0].value);
      ConsSorted(s[0], InsertByValue(x, rest));
    }
  }

  /** Inserting keeps every value under a common bound. */
  lemma {:induction false} InsertBounded(x: Row, s: seq<Row>, bound: real)
    requires x.value <= bound
    requires forall k :: 0 <= k < |s| ==> s[k].value <= bound
    ensures forall k :: 0 <= k < |InsertByValue(x, s)| ==> InsertByValue(x, s)[k].value <= bound
  {
    if s != [] && x.value < s[0].value {
      var rest := s[1..];
      assert forall k :: 0 <= k < |rest| ==> rest[k].value <= bound by {
        forall k | 0 <= k < |rest| ensures rest[k].value <= bound {
          assert rest[k] == s[k + 1];
        }
      }
      InsertBounded(x, rest, bound);
    }
  }

  /** A row no smaller than any row of a sorted table may go in front. */
  lemma ConsSorted(a: Row, t: seq<Row>)
    requires SortedDescending(t)
    requires forall k :: 0 <= k < |t| ==> t[k].value <= a.value
    ensures SortedDescending([a] + t)
  {
    var r := [a] + t;
    forall i, j | 0 <= i < j < |r| ensures r[i].value >= r[j].value {
      assert r[j] == t[j - 1];
      if i > 0 {
        assert r[i] == t[i - 1];
      }
    }
  }

  lemma {:induction false} InsertKeepsDepartments(x: Row, s: seq<Row>)
    ensures Departments(InsertByValue(x, s)) == Departments(s) + {x.department}
    ensures DistinctDepartments(s) && x.department !in Departments(s) ==>
              DistinctDepartments(InsertByValue(x, s))
  {
    if s != [] && x.value < s[0].value {
      InsertKeepsDepartments(x, s[1..]);
    }
  }

  lemma {:induction false} InsertKeepsSum(x: Row, s: seq<Row>)
    ensures ValueSum(InsertByValue(x, s)) == x.value + ValueSum(s)
  {
    if s != [] && x.value < s[0].value {
      InsertKeepsSum(x, s[1..]);
    }
  }

  /** The sort orders its rows by value, largest first. */
  lemma {:induction false} SortDescendingSorted(s: seq<Row>)
    ensures SortedDescending(SortDescending(s))
  {
    if s != [] {
      SortDescendingSorted(s[1..]);
      InsertSorted(s[0], SortDescending(s[1..]));
    }
  }

  /** The sort keeps the departments and their uniqueness. */
  lemma {:induction false} SortDescendingKeepsDepartments(s: seq<Row>)
    ensures Departments(SortDescending(s)) == Departments(s)
    ensures DistinctDepartments(s) ==> DistinctDepartments(SortDescending(s))
  {
    if s != [] {
      var sortedRest := SortDescending(s[1..]);
      SortDescendingKeepsDepartments(s[1..]);
      InsertKeepsDepartments(s[0], sortedRest);
    }
  }

  /** The sort keeps the column's total. */
  lemma {:induction false} SortDescendingKeepsSum(s: seq<Row>)
    ensures ValueSum(SortDescending(s)) == ValueSum(s)
  {
    if s != [] {
      var sortedRest := SortDescending(s[1..]);
      SortDescendingKeepsSum(s[1..]);
      InsertKeepsSum(s[0], sortedRest);
    }
  }

  /** `calculate_proportion(df, identifier)`: `None` when no record
      matches, otherwise one row per department with its percentage of the
      item's total usage, largest first. */
  function CalculateProportion(records: seq<UsageRecord>, identifier: string): Option<seq<Row>>
    requires Loaded(records)
    requires NonZeroTotal(records, identifier)
  {
    var filtered := Matched(records, identifier);
    if filtered == [] then None
    else
      var usage := GroupByDepartment(filtered);
      var total := ValueSum(usage);
      Some(SortDescending(ToPercent(usage, total)))
  }

  lemma DepartmentsMembership(g: seq<Row>, d: string)
    ensures d in Departments(g) <==> exists i :: 0 <= i < |g| && g[i].department == d
  {
    if g != [] {
      DepartmentsMembership(g[1..], d);
      if d in Departments(g[1..]) {
        var i :| 0 <= i < |g| - 1 && g[1..][i].department == d;
        assert g[i + 1].department == d;
      }
    }
  }

  /** In a table without repeated departments, each row's value is the
      value looked up by its department. */
  lemma {:induction false} ValueOfRow(g: seq<Row>, i: nat)
    requires DistinctDepartments(g)
    requires i < |g|
    ensures ValueOf(g, g[i].department) == g[i].value
  {
    if i > 0 {
      DepartmentsMembership(g[1..], g[i].department);
      assert g[1..][i - 1] == g[i];
      ValueOfRow(g[1..], i - 1);
    }
  }

  /** `None` comes back exactly when no record matches the identifier. */
  lemma NotFoundIffNoMatch(records: seq<UsageRecord>, identifier: string)
    requires Loaded(records)
    requires NonZeroTotal(records, identifier)
    ensures CalculateProportion(records, identifier).None? <==>
            forall i :: 0 <= i < |records| ==> !Matches(records[i], identifier)
  {
    MatchedEmpty(records, identifier);
  }

  /** Without repeated departments, rows at different positions belong to
      different departments and there are as many rows as departments. */
  lemma {:induction false} DistinctRows(g: seq<Row>)
    requires DistinctDepartments(g)
    ensures forall i, j :: 0 <= i < j < |g| ==> g[i].department != g[j].department
    ensures |Departments(g)| == |g|
  {
    if g != [] {
      DistinctRows(g[1..]);
      forall j | 0 < j < |g| ensures g[0].department != g[j].department {
        DepartmentsMembership(g[1..], g[j].department);
        assert g[1..][j - 1] == g[j];
      }
      forall i, j | 0 < i < j < |g| ensures g[i].department != g[j].department {
        assert g[1..][i - 1] == g[i] && g[1..][j - 1] == g[j];
      }
    }
  }

  /** The result has exactly one row for each department that used the
      item, and no other rows. */
  lemma OneRowPerDepartment(records: seq<UsageRecord>, identifier: string)
    requires Loaded(records)
    requires NonZeroTotal(records, identifier)
    ensures CalculateProportion(records, identifier).Some? ==>
              var ps := CalculateProportion(records, identifier).value;
              var used := set r | r in records && Matches(r, identifier) :: r.department;
              && Departments(ps) == used
              && |ps| == |used| > 0
              && forall i, j :: 0 <= i < j < |ps| ==> ps[i].department != ps[j].department
  {
    var filtered := Matched(records, identifier);
    if filtered != [] {
      var usage := GroupByDepartment(filtered);
      var total := ValueSum(usage);
      var unsorted := ToPercent(usage, total);
      SortDescendingKeepsDepartments(unsorted);
      DistinctRows(SortDescending(unsorted));
      assert RecordDepartments(filtered) == set r | r in records && Matches(r, identifier) :: r.department;
    }
  }

  /** Each row's share is its department's summed quantity as a percentage
      of the item's total usage. */
  lemma ShareOfDepartment(records: seq<UsageRecord>, identifier: string, i: nat)
    requires Loaded(records)
    requires NonZeroTotal(records, identifier)
    requires CalculateProportion(records, identifier).Some?
    requires i < |CalculateProportion(records, identifier).value|
    ensures var ps := CalculateProportion(records, identifier).value;
            var filtered := Matched(records, identifier);
            ps[i].value == DepartmentSum(filtered, ps[i].department) / TotalQuantity(filtered) * 100.0
  {
    var filtered := Matched(records, identifier);
    var usage := GroupByDepartment(filtered);
    var total := ValueSum(usage);
    var unsorted := ToPercent(usage, total);
    var ps := SortDescending(unsorted);
    assert ps[i] in multiset(unsorted);
    var j :| 0 <= j < |unsorted| && unsorted[j] == ps[i];
    ValueOfRow(usage, j);
  }

  /** The shares add up to 100. */
  lemma SharesSumTo100(records: seq<UsageRecord>, identifier: string)
    requires Loaded(records)
    requires NonZeroTotal(records, identifier)
    requires CalculateProportion(records, identifier).Some?
    ensures ValueSum(CalculateProportion(records, identifier).value) == 100.0
  {
    var filtered := Matched(records, identifier);
    var usage := GroupByDepartment(filtered);
    var total := ValueSum(usage);
    var unsorted := ToPercent(usage, total);
    SortDescendingKeepsSum(unsorted);
    PercentSum(usage, total);
    WholeIsHundredPercent(total);
  }

  lemma WholeIsHundredPercent(total: real)
    requires total != 0.0
    ensures total / total * 100.0 == 100.0
  {
  }

  /** The rows are ordered by share, largest first. */
  lemma OrderedByShare(records: seq<UsageRecord>, identifier: string)
    requires Loaded(records)
    requires NonZeroTotal(records, identifier)
    requires CalculateProportion(records, identifier).Some?
    ensures SortedDescending(CalculateProportion(records, identifier).value)
  {
    var filtered := Matched(records, identifier);
    var usage := GroupByDepartment(filtered);
    SortDescendingSorted(ToPercent(usage, ValueSum(usage)));
  }
}
