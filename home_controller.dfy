/**
 * HomeController: the read-only dashboard. Counts of the three tables, the
 * total of actual overtime hours (SQL SUM, NULL on no rows, coalesced to 0)
 * and the five entries with the latest overtime dates.
 */
module HomeController {
  import opened Wrappers
  import opened Entities
  import opened Tables
  import opened Listing
  import opened OvertimeController

  const RecentCount: nat := 5

  datatype Dashboard = Dashboard(
    totalEmployees: nat,
    totalDepartments: nat,
    totalOvertimes: nat,
    totalOTHours: real,
    recentOvertimes: seq<Overtime>)

  /** The arithmetic sum of ActualOTHours over the entries. */
  function SumActual(overtimes: seq<Overtime>): real
  {
    if overtimes == [] then 0.0 else overtimes[0].actualOTHours + SumActual(overtimes[1..])
  }

  /** SUM over a nullable column: NULL when there are no rows. */
  function NullableSum(overtimes: seq<Overtime>): (r: Option<real>)
    ensures r.None? <==> overtimes == []
    ensures r.Some? ==> r.value == SumActual(overtimes)
  {
    if overtimes == [] then None else Some(SumActual(overtimes))
  }

  /** `Sum(o => (decimal?)o.ActualOTHours) ?? 0`: the sum of actual hours, 0 on an empty table. */
  function TotalOTHours(overtimes: seq<Overtime>): (total: real)
    ensures total == SumActual(overtimes)
    ensures overtimes == [] ==> total == 0.0
  {
    match NullableSum(overtimes)
    case None => 0.0
    case Some(sum) => sum
  }

  /** `OrderByDescending(o => o.OvertimeDate).Take(5)`. */
  function Recent(overtimes: seq<Overtime>): (r: seq<Overtime>)
    ensures |r| == Min(RecentCount, |overtimes|)
    ensures SortedDesc(r, OvertimeDate)
    ensures multiset(r) <= multiset(overtimes)
    ensures forall o :: o in overtimes && |r| > 0 && o.overtimeDate > r[|r| - 1].overtimeDate ==> o in r
  {
    var all := SortDesc(overtimes, OvertimeDate);
    TakeOfSortedKeepsLater(all, OvertimeDate, RecentCount);
    assert forall o :: o in overtimes ==> o in multiset(all);
    Take(all, RecentCount)
  }

  /** GET Home/Index over the current table contents; a function, so it changes no table. */
  function Index(departments: seq<Department>, employees: seq<Employee>, overtimes: seq<Overtime>): (d: Dashboard)
    ensures d.totalEmployees == |employees| && d.totalDepartments == |departments|
    ensures d.totalOvertimes == |overtimes|
    ensures d.totalOTHours == SumActual(overtimes)
    ensures |d.recentOvertimes| <= RecentCount
    ensures |d.recentOvertimes| == Min(RecentCount, |overtimes|)
    ensures SortedDesc(d.recentOvertimes, OvertimeDate)
    ensures multiset(d.recentOvertimes) <= multiset(overtimes)
    ensures var r := d.recentOvertimes;
            forall o :: o in overtimes && |r| > 0 && o.overtimeDate > r[|r| - 1].overtimeDate ==> o in r
  {
    Dashboard(|employees|, |departments|, |overtimes|, TotalOTHours(overtimes), Recent(overtimes))
  }

  lemma {:induction false} SumAppend(a: seq<Overtime>, b: seq<Overtime>)
    ensures SumActual(a + b) == SumActual(a) + SumActual(b)
  {
    if a == [] {
      assert a + b == b;
    } else {
      assert (a + b)[1..] == a[1..] + b;
      SumAppend(a[1..], b);
    }
  }

  lemma SumRemoveAt(overtimes: seq<Overtime>, i: nat)
    requires i < |overtimes|
    ensures SumActual(RemoveAt(overtimes, i)) == SumActual(overtimes) - overtimes[i].actualOTHours
  {
    var s := overtimes;
    assert s == s[..i] + s[i..];
    SumAppend(s[..i], s[i..]);
    assert s[i..][1..] == s[i + 1..];
    assert RemoveAt(s, i) == s[..i] + s[i + 1..];
    SumAppend(s[..i], s[i + 1..]);
  }

  /** Under the cap every entry keeps, the total is at most three hours per entry. */
  lemma {:induction false} TotalWithinCap(overtimes: seq<Overtime>)
    requires HoursInvariant(overtimes)
    ensures TotalOTHours(overtimes) <= MaxOTHours * |overtimes| as real
  {
    if overtimes != [] {
      assert HoursConsistent(overtimes[0]);
      assert HoursInvariant(overtimes[1..]) by {
        forall k | 0 <= k < |overtimes[1..]| ensures HoursConsistent(overtimes[1..][k]) {
          assert overtimes[1..][k] == overtimes[k + 1];
        }
      }
      TotalWithinCap(overtimes[1..]);
    }
  }

  /** After a successful overtime Create the dashboard counts one more entry and its hours. */
  lemma AfterCreate(departments: seq<Department>, employees: seq<Employee>, overtimes: seq<Overtime>, row: Overtime)
    ensures var before := Index(departments, employees, overtimes);
            var after := Index(departments, employees, overtimes + [row]);
            && after.totalOvertimes == before.totalOvertimes + 1
            && after.totalOTHours == before.totalOTHours + row.actualOTHours
            && after.totalEmployees == before.totalEmployees
  {
    SumAppend(overtimes, [row]);
    assert SumActual([row]) == row.actualOTHours by {
      assert [row][1..] == [];
    }
  }

  /** After a successful overtime Delete the dashboard counts one entry and its hours less. */
  lemma AfterDelete(departments: seq<Department>, employees: seq<Employee>, overtimes: seq<Overtime>, i: nat)
    requires i < |overtimes|
    ensures var before := Index(departments, employees, overtimes);
            var after := Index(departments, employees, RemoveAt(overtimes, i));
            && after.totalOvertimes == before.totalOvertimes - 1
            && after.totalOTHours == before.totalOTHours - overtimes[i].actualOTHours
  {
    SumRemoveAt(overtimes, i);
  }
}
