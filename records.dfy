/** Historical usage records, how an item identifier selects them, and the
    sums the proportion step is defined by. */
module Records {

  /** One row of the usage sheet after loading, reduced to the columns the
      allocation reads: ITEM_SERIAL, ITEM NAME, DEPARTMENT_CAT, QUANTITY and
      the year of DATE. A quantity that did not parse never becomes a
      record, so `quantity` is always a number. */
  datatype UsageRecord = UsageRecord(
    serial: string,
    name: string,
    department: string,
    quantity: real,
    year: int)

  /** What loading guarantees of every record handed to the core: only rows
      dated 2024 or later are kept. */
  predicate Loaded(records: seq<UsageRecord>)
  {
    forall i :: 0 <= i < |records| ==> records[i].year >= 2024
  }

  predicate IsUpper(c: char)
  {
    'A' <= c <= 'Z'
  }

  predicate IsDigit(c: char)
  {
    '0' <= c <= '9'
  }

  /** Lower-casing of one character (ASCII letters only). */
  function LowerChar(c: char): (l: char)
    ensures !IsUpper(l)
    ensures !IsUpper(c) ==> l == c
    ensures IsUpper(c) ==> l as int - c as int == 'a' as int - 'A' as int
  {
    if IsUpper(c) then (c as int - 'A' as int + 'a' as int) as char else c
  }

  /** `str.lower()`, character by character. */
  function Lower(s: string): (l: string)
  {
    seq(|s|, i requires 0 <= i < |s| => LowerChar(s[i]))
  }

  /** `str.isnumeric()`: non-empty and made of digits only. */
  predicate IsNumeric(s: string)
  {
    |s| > 0 && forall i :: 0 <= i < |s| ==> IsDigit(s[i])
  }

  /** The row filter of `calculate_proportion`: a numeric identifier is
      compared with the serial column, any other with the item-name column,
      both sides lower-cased. */
  predicate Matches(r: UsageRecord, identifier: string)
  {
    if IsNumeric(identifier) then Lower(r.serial) == Lower(identifier)
    else Lower(r.name) == Lower(identifier)
  }

  /** The records an identifier selects, in their original order. */
  function Matched(records: seq<UsageRecord>, identifier: string): (m: seq<UsageRecord>)
    ensures forall r :: r in m <==> r in records && Matches(r, identifier)
    ensures forall r :: multiset(m)[r] == if Matches(r, identifier) then multiset(records)[r] else 0
    ensures |m| <= |records|
  {
    if records == [] then []
    else
      assert records == [records[0]] + records[1..];
      if Matches(records[0], identifier) then [records[0]] + Matched(records[1..], identifier)
      else Matched(records[1..], identifier)
  }

  /** Sum of the QUANTITY column. */
  function TotalQuantity(rs: seq<UsageRecord>): real
  {
    if rs == [] then 0.0 else TotalQuantity(rs[..|rs| - 1]) + rs[|rs| - 1].quantity
  }

  /** Sum of the QUANTITY column over the records of one department. */
  function DepartmentSum(rs: seq<UsageRecord>, department: string): real
  {
    if rs == [] then 0.0
    else
      DepartmentSum(rs[..|rs| - 1], department)
      + (if rs[|rs| - 1].department == department then rs[|rs| - 1].quantity else 0.0)
  }

  /** The departments that occur in some records. */
  function RecordDepartments(rs: seq<UsageRecord>): set<string>
  {
    set r | r in rs :: r.department
  }

  /** `calculate_proportion` divides by the matched total without a guard;
      callers must only ask about items whose matched usage does not add up
      to zero. */
  predicate NonZeroTotal(records: seq<UsageRecord>, identifier: string)
  {
    Matched(records, identifier) != [] ==> TotalQuantity(Matched(records, identifier)) != 0.0
  }

  /** Lower-casing leaves nothing upper-case and changes no other character. */
  lemma LowerSpec(s: string)
    ensures |Lower(s)| == |s|
    ensures forall i :: 0 <= i < |s| ==> !IsUpper(Lower(s)[i])
    ensures forall i :: 0 <= i < |s| && !IsUpper(s[i]) ==> Lower(s)[i] == s[i]
  {
  }

  /** Lower-casing twice is lower-casing once. */
  lemma LowerIdempotent(s: string)
    ensures Lower(Lower(s)) == Lower(s)
  {
  }

  /** A numeric identifier is compared against the serial only: the item
      name of a record does not affect whether it matches. */
  lemma NumericIgnoresName(r: UsageRecord, identifier: string, name: string)
    requires IsNumeric(identifier)
    ensures Matches(r.(name := name), identifier) == Matches(r, identifier)
  {
  }

  /** Any other identifier is compared against the item name only: the
      serial of a record does not affect whether it matches. */
  lemma NameIgnoresSerial(r: UsageRecord, identifier: string, serial: string)
    requires !IsNumeric(identifier)
    ensures Matches(r.(serial := serial), identifier) == Matches(r, identifier)
  {
  }

  /** Lower-casing does not change digits, so a numeric identifier selects
      the records whose lower-cased serial is exactly that identifier. */
  lemma NumericMatchesSerial(r: UsageRecord, identifier: string)
    requires IsNumeric(identifier)
    ensures Matches(r, identifier) <==> Lower(r.serial) == identifier
  {
    assert Lower(identifier) == identifier by {
      forall i | 0 <= i < |identifier| ensures Lower(identifier)[i] == identifier[i] {
        assert IsDigit(identifier[i]);
      }
    }
  }

  /** Matching ignores case on both sides: two identifiers that differ only
      in case select the same records. */
  lemma MatchIgnoresCase(r: UsageRecord, a: string, b: string)
    requires Lower(a) == Lower(b)
    ensures Matches(r, a) == Matches(r, b)
  {
    NumericUnderLower(a);
    NumericUnderLower(b);
  }

  /** Whether an identifier reads as numeric does not depend on its case. */
  lemma NumericUnderLower(s: string)
    ensures IsNumeric(Lower(s)) == IsNumeric(s)
  {
    if IsNumeric(Lower(s)) {
      forall i | 0 <= i < |s| ensures IsDigit(s[i]) {
        assert IsDigit(Lower(s)[i]);
      }
    }
  }

  /** Nothing is selected exactly when no record matches. */
  lemma MatchedEmpty(records: seq<UsageRecord>, identifier: string)
    ensures Matched(records, identifier) == [] <==>
            forall i :: 0 <= i < |records| ==> !Matches(records[i], identifier)
  {
    if Matched(records, identifier) != [] {
      var r := Matched(records, identifier)[0];
      assert r in records;
    }
  }
}
