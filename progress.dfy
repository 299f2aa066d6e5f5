/** The progress records of one habit and the collection operations the
    services apply to them: the completion predicate, counting and summing,
    selecting the records of one day, `ToDictionary` keyed by day, and the
    stable `OrderBy`/`OrderByDescending` on the date. */
module Progress {
  import opened Prelude

  /** A record whose value reaches this marks its day as completed. */
  const CompletionThreshold: int := 100

  /** One progress entry: its day (whole days since 0001-01-01), the value
      the user logged (0..100 when it comes through the API) and free-text
      notes. */
  datatype Record = Record(date: int, value: int, notes: string)

  /** `p.Value >= 100` */
  predicate Completed(p: Record) {
    p.value >= CompletionThreshold
  }

  /** Every value lies in the range 0..100 that the API accepts. */
  predicate ValidValues(s: seq<Record>) {
    forall i :: 0 <= i < |s| ==> 0 <= s[i].value <= 100
  }

  /** Some record dated `d` is completed. */
  predicate CompletedOn(s: seq<Record>, d: int) {
    exists x :: x in s && x.date == d && Completed(x)
  }

  /** No two records share a day. */
  predicate DistinctDays(s: seq<Record>) {
    forall i, j :: 0 <= i < j < |s| ==> s[i].date != s[j].date
  }

  /** `progress.Count(p => p.Value >= 100)` */
  function CompletedCount(s: seq<Record>): (n: nat)
    ensures n <= |s|
    ensures n == 0 <==> forall x :: x in s ==> !Completed(x)
  {
    if |s| == 0 then 0
    else
      assert forall x :: x in s <==> x == s[0] || x in s[1..];
      (if Completed(s[0]) then 1 else 0) + CompletedCount(s[1..])
  }

  /** `progress.Sum(p => p.Value)`: never negative over values that are
      not, 0 over values that are all 0, and at most 100 per record over
      values up to 100. */
  function ValueSum(s: seq<Record>): (r: int)
    ensures (forall x :: x in s ==> x.value >= 0) ==> r >= 0
    ensures (forall x :: x in s ==> x.value == 0) ==> r == 0
    ensures (forall x :: x in s ==> x.value <= CompletionThreshold) ==> r <= CompletionThreshold * |s|
  {
    if |s| == 0 then 0
    else
      assert forall x :: x in s[1..] ==> x in s;
      s[0].value + ValueSum(s[1..])
  }

  lemma {:induction false} CompletedCountAppend(a: seq<Record>, b: seq<Record>)
    ensures CompletedCount(a + b) == CompletedCount(a) + CompletedCount(b)
  {
    if |a| > 0 {
      assert (a + b)[1..] == a[1..] + b;
      CompletedCountAppend(a[1..], b);
    } else {
      assert a + b == b;
    }
  }

  /** `Where(p => p.Date.Date == d)`: the records dated `d`, in their
      order in `s`. */
  function OnDay(s: seq<Record>, d: int): (r: seq<Record>)
    ensures |r| <= |s|
  {
    if |s| == 0 then [] else (if s[0].date == d then [s[0]] else []) + OnDay(s[1..], d)
  }

  /** The records `OnDay` selects are exactly those of `s` dated `d`. */
  lemma {:induction false} OnDayMembers(s: seq<Record>, d: int)
    ensures forall x :: x in OnDay(s, d) <==> x in s && x.date == d
  {
    if |s| > 0 {
      OnDayMembers(s[1..], d);
      assert forall x :: x in s <==> x == s[0] || x in s[1..];
    }
  }

  /** `FirstOrDefault(p => p.Date.Date == d)`: the first record dated `d`. */
  function FirstOnDay(s: seq<Record>, d: int): Option<Record> {
    var f := OnDay(s, d);
    if |f| == 0 then None else Some(f[0])
  }

  /** The record found is a record of `s` on day `d`, and none is found
      exactly when `s` has no record on day `d`. */
  lemma FirstOnDayFacts(s: seq<Record>, d: int)
    ensures FirstOnDay(s, d).Some? ==> FirstOnDay(s, d).value in s && FirstOnDay(s, d).value.date == d
    ensures FirstOnDay(s, d).None? <==> forall x :: x in s ==> x.date != d
  {
    OnDayMembers(s, d);
    var f := OnDay(s, d);
    assert |f| > 0 ==> f[0] in f;
  }

  /** With distinct days a day holds at most one record. */
  lemma {:induction false} OnDayDistinct(s: seq<Record>, d: int)
    requires DistinctDays(s)
    ensures |OnDay(s, d)| <= 1
  {
    if |s| > 0 {
      assert DistinctDays(s[1..]) by {
        forall i, j | 0 <= i < j < |s| - 1 ensures s[1..][i].date != s[1..][j].date {
          assert s[1..][i] == s[i + 1] && s[1..][j] == s[j + 1];
        }
      }
      OnDayDistinct(s[1..], d);
      if s[0].date == d {
        forall x | x in s[1..] ensures x.date != d {
          var j :| 0 <= j < |s[1..]| && s[1..][j] == x;
          assert s[j + 1] == x;
        }
        FirstOnDayFacts(s[1..], d);
        assert FirstOnDay(s[1..], d).None?;
      }
    }
  }

  /** With distinct days the record found on a day is the only one there,
      so the day is completed exactly when that record is. */
  lemma OnlyOnDay(s: seq<Record>, x: Record)
    requires DistinctDays(s) && x in s
    ensures FirstOnDay(s, x.date) == Some(x)
    ensures CompletedOn(s, x.date) <==> Completed(x)
  {
    OnDayDistinct(s, x.date);
    OnDayMembers(s, x.date);
    var f := OnDay(s, x.date);
    assert x in f;
    assert f == [x];
  }

  /** `ToDictionary(p => p.Date.Date)`: a map from day to record, or
      `None` where the source throws on a repeated key. */
  function ToDictionary(s: seq<Record>): (r: Option<map<int, Record>>)
    ensures r.Some? <==> DistinctDays(s)
    ensures r.Some? ==> forall x :: x in s ==> x.date in r.value && r.value[x.date] == x
    ensures r.Some? ==> forall d :: d in r.value ==> r.value[d] in s && r.value[d].date == d
  {
    if |s| == 0 then Some(map[])
    else
      assert forall x :: x in s <==> x == s[0] || x in s[1..];
      DistinctDaysCons(s);
      match ToDictionary(s[1..])
      case None => None
      case Some(m) => if s[0].date in m then None else Some(m[s[0].date := s[0]])
  }

  /** A sequence has distinct days exactly when its tail does and no record
      of the tail shares the first record's day. */
  lemma DistinctDaysCons(s: seq<Record>)
    requires |s| > 0
    ensures DistinctDays(s) <==> DistinctDays(s[1..]) && forall x :: x in s[1..] ==> x.date != s[0].date
  {
    if DistinctDays(s[1..]) && forall x :: x in s[1..] ==> x.date != s[0].date {
      forall i, j | 0 <= i < j < |s| ensures s[i].date != s[j].date {
        if i == 0 {
          assert s[j] in s[1..];
        } else {
          assert s[1..][i - 1] == s[i] && s[1..][j - 1] == s[j];
        }
      }
    }
    if DistinctDays(s) {
      forall i, j | 0 <= i < j < |s| - 1 ensures s[1..][i].date != s[1..][j].date {
        assert s[1..][i] == s[i + 1] && s[1..][j] == s[j + 1];
      }
      forall x | x in s[1..] ensures x.date != s[0].date {
        var j :| 0 <= j < |s[1..]| && s[1..][j] == x;
        assert s[j + 1] == x;
      }
    }
  }

  /** `a` may stand before `b` in `OrderBy(p => p.Date)` (`desc` false) or
      in `OrderByDescending(p => p.Date)` (`desc` true). */
  predicate InOrder(a: Record, b: Record, desc: bool) {
    if desc then a.date >= b.date else a.date <= b.date
  }

  predicate Sorted(s: seq<Record>, desc: bool) {
    forall i, j :: 0 <= i < j < |s| ==> InOrder(s[i], s[j], desc)
  }

  /** Inserts `x` in front of every record of `t` it may precede, so that
      records of equal date keep their relative order. */
  function Insert(x: Record, t: seq<Record>, desc: bool): (r: seq<Record>)
    ensures multiset(r) == multiset(t) + multiset{x}
    ensures |r| == |t| + 1
  {
    if |t| == 0 || InOrder(x, t[0], desc) then [x] + t
    else
      assert t == [t[0]] + t[1..];
      [t[0]] + Insert(x, t[1..], desc)
  }

  lemma {:induction false} InsertSorted(x: Record, t: seq<Record>, desc: bool)
    requires Sorted(t, desc)
    ensures Sorted(Insert(x, t, desc), desc)
  {
    if |t| > 0 && !InOrder(x, t[0], desc) {
      var rest := Insert(x, t[1..], desc);
      InsertSorted(x, t[1..], desc);
      forall k | 0 <= k < |rest| ensures InOrder(t[0], rest[k], desc) {
        assert rest[k] in multiset(rest);
        if rest[k] != x {
          assert rest[k] in t[1..];
          var j :| 0 <= j < |t[1..]| && t[1..][j] == rest[k];
          assert t[j + 1] == rest[k];
        }
      }
    }
  }

  /** The stable sort behind `OrderBy`/`OrderByDescending` on the date. */
  function SortByDate(s: seq<Record>, desc: bool): (r: seq<Record>)
    ensures multiset(r) == multiset(s)
    ensures |r| == |s|
    ensures Sorted(r, desc)
  {
    if |s| == 0 then []
    else
      var t := SortByDate(s[1..], desc);
      InsertSorted(s[0], t, desc);
      assert s == [s[0]] + s[1..];
      Insert(s[0], t, desc)
  }

  /** Sorting keeps exactly the records it was given. */
  lemma SortSameRecords(s: seq<Record>, desc: bool)
    ensures forall x :: x in SortByDate(s, desc) <==> x in s
  {
    SameMembers(SortByDate(s, desc), s);
  }

  /** Inserting `x` puts it first among the records of its own day. */
  lemma {:induction false} InsertOnDay(x: Record, t: seq<Record>, desc: bool, d: int)
    ensures OnDay(Insert(x, t, desc), d) == (if x.date == d then [x] else []) + OnDay(t, d)
  {
    if |t| == 0 || InOrder(x, t[0], desc) {
      assert ([x] + t)[1..] == t;
    } else {
      InsertOnDay(x, t[1..], desc, d);
      var r := [t[0]] + Insert(x, t[1..], desc);
      assert r[1..] == Insert(x, t[1..], desc);
      var px := if x.date == d then [x] else [];
      var p0 := if t[0].date == d then [t[0]] else [];
      assert t[0].date != x.date;
      assert p0 == [] || px == [];
      assert OnDay(r, d) == p0 + (px + OnDay(t[1..], d));
      assert OnDay(t, d) == p0 + OnDay(t[1..], d);
    }
  }

  /** The sort is stable: the records of each day keep their input order. */
  lemma {:induction false} SortOnDay(s: seq<Record>, desc: bool, d: int)
    ensures OnDay(SortByDate(s, desc), d) == OnDay(s, d)
  {
    if |s| > 0 {
      SortOnDay(s[1..], desc, d);
      InsertOnDay(s[0], SortByDate(s[1..], desc), desc, d);
    }
  }

  /** So the first record found on a day is the same before and after
      sorting. */
  lemma SortFirstOnDay(s: seq<Record>, desc: bool, d: int)
    ensures FirstOnDay(SortByDate(s, desc), d) == FirstOnDay(s, d)
  {
    SortOnDay(s, desc, d);
  }

  lemma {:induction false} InsertCompletedCount(x: Record, t: seq<Record>, desc: bool)
    ensures CompletedCount(Insert(x, t, desc)) == (if Completed(x) then 1 else 0) + CompletedCount(t)
  {
    if |t| == 0 || InOrder(x, t[0], desc) {
      assert ([x] + t)[1..] == t;
    } else {
      InsertCompletedCount(x, t[1..], desc);
      var r := [t[0]] + Insert(x, t[1..], desc);
      assert r[1..] == Insert(x, t[1..], desc);
    }
  }

  /** Sorting neither adds nor loses completed records. */
  lemma {:induction false} SortCompletedCount(s: seq<Record>, desc: bool)
    ensures CompletedCount(SortByDate(s, desc)) == CompletedCount(s)
  {
    if |s| > 0 {
      SortCompletedCount(s[1..], desc);
      InsertCompletedCount(s[0], SortByDate(s[1..], desc), desc);
    }
  }

  /** An already sorted sequence is left as it is. */
  lemma {:induction false} SortSorted(s: seq<Record>, desc: bool)
    requires Sorted(s, desc)
    ensures SortByDate(s, desc) == s
  {
    if |s| > 0 {
      SortSorted(s[1..], desc);
      assert s == [s[0]] + s[1..];
    }
  }

  /** The first record of a sorted sequence may precede any of its records. */
  lemma FirstPrecedes(a: seq<Record>, desc: bool, x: Record)
    requires Sorted(a, desc) && x in a
    ensures InOrder(a[0], x, desc)
  {
    var i :| 0 <= i < |a| && a[i] == x;
    assert i == 0 || InOrder(a[0], a[i], desc);
  }

  /** Dropping the first record drops it from the records of its day. */
  lemma OnDayTail(a: seq<Record>, d: int)
    requires |a| > 0
    ensures OnDay(a[1..], d) == OnDay(a, d)[(if a[0].date == d then 1 else 0)..]
  {
  }

  /** Two sorted sequences that agree on the records of every day start
      with the same record. */
  lemma SameFirst(a: seq<Record>, b: seq<Record>, desc: bool)
    requires Sorted(a, desc) && Sorted(b, desc) && |a| > 0
    requires forall d :: OnDay(a, d) == OnDay(b, d)
    ensures |b| > 0 && a[0] == b[0]
  {
    var d0 := a[0].date;
    assert OnDay(a, d0) == [a[0]] + OnDay(a[1..], d0);
    OnDayMembers(b, d0);
    assert a[0] in OnDay(b, d0);
    var e0 := b[0].date;
    assert OnDay(b, e0) == [b[0]] + OnDay(b[1..], e0);
    OnDayMembers(a, e0);
    assert b[0] in OnDay(a, e0);
    FirstPrecedes(a, desc, b[0]);
    FirstPrecedes(b, desc, a[0]);
    assert e0 == d0;
    assert OnDay(a, d0)[0] == a[0];
    assert OnDay(b, d0)[0] == b[0];
    assert OnDay(a, d0) == OnDay(b, d0);
  }

  /** Two sorted sequences that agree on the records of every day are
      equal. */
  lemma {:induction false} SortedUnique(a: seq<Record>, b: seq<Record>, desc: bool)
    requires Sorted(a, desc) && Sorted(b, desc)
    requires forall d :: OnDay(a, d) == OnDay(b, d)
    ensures a == b
  {
    if |a| > 0 {
      SameFirst(a, b, desc);
    } else if |b| > 0 {
      SameFirst(b, a, desc);
    }
    if |a| > 0 && |b| > 0 {
      forall d ensures OnDay(a[1..], d) == OnDay(b[1..], d) {
        OnDayTail(a, d);
        OnDayTail(b, d);
      }
      SortedUnique(a[1..], b[1..], desc);
      assert a == [a[0]] + a[1..] && b == [b[0]] + b[1..];
    }
  }

  /** The sorted order depends only on the records of each day. */
  lemma SortDeterminedByDays(s: seq<Record>, t: seq<Record>, desc: bool)
    requires forall d :: OnDay(s, d) == OnDay(t, d)
    ensures SortByDate(s, desc) == SortByDate(t, desc)
  {
    forall d ensures OnDay(SortByDate(s, desc), d) == OnDay(SortByDate(t, desc), d) {
      SortOnDay(s, desc, d);
      SortOnDay(t, desc, d);
    }
    SortedUnique(SortByDate(s, desc), SortByDate(t, desc), desc);
  }

  /** Sequences with the same multiset have the same members. */
  lemma SameMembers(s: seq<Record>, t: seq<Record>)
    requires multiset(s) == multiset(t)
    ensures forall x :: x in s <==> x in t
  {
    forall x ensures x in s <==> x in t {
      assert x in s <==> x in multiset(s);
      assert x in t <==> x in multiset(t);
    }
  }

  /** Two sequences of at most one record with the same members are equal. */
  lemma AtMostOneEqual(a: seq<Record>, b: seq<Record>)
    requires |a| <= 1 && |b| <= 1
    requires forall x :: x in a <==> x in b
    ensures a == b
  {
    assert |a| > 0 ==> a[0] in b;
    assert |b| > 0 ==> b[0] in a;
  }

  /** Two orderings of the same records with distinct days select the same
      records on every day. */
  lemma PermutationOnDay(s: seq<Record>, t: seq<Record>, d: int)
    requires DistinctDays(s) && DistinctDays(t) && multiset(s) == multiset(t)
    ensures OnDay(s, d) == OnDay(t, d)
  {
    OnDayDistinct(s, d);
    OnDayDistinct(t, d);
    OnDayMembers(s, d);
    OnDayMembers(t, d);
    SameMembers(s, t);
    AtMostOneEqual(OnDay(s, d), OnDay(t, d));
  }

  /** `Min(p => p.Date)`: the earliest day of a non-empty sequence. */
  function MinDay(s: seq<Record>): (m: int)
    requires |s| > 0
    ensures forall x :: x in s ==> m <= x.date
    ensures exists i :: 0 <= i < |s| && s[i].date == m
  {
    if |s| == 1 then s[0].date
    else
      var rest := MinDay(s[1..]);
      assert forall x :: x in s <==> x == s[0] || x in s[1..];
      assert forall i :: 0 <= i < |s| - 1 ==> s[1..][i] == s[i + 1];
      if s[0].date <= rest then s[0].date else rest
  }

  /** The earliest day depends only on which records are present. */
  lemma MinDaySameRecords(s: seq<Record>, t: seq<Record>)
    requires |s| > 0 && |t| > 0
    requires forall x :: x in s <==> x in t
    ensures MinDay(s) == MinDay(t)
  {
    var i :| 0 <= i < |s| && s[i].date == MinDay(s);
    var j :| 0 <= j < |t| && t[j].date == MinDay(t);
    assert s[i] in t && t[j] in s;
  }

  /** Sorting does not change the earliest day. */
  lemma SortMinDay(s: seq<Record>, desc: bool)
    requires |s| > 0
    ensures MinDay(SortByDate(s, desc)) == MinDay(s)
  {
    SortSameRecords(s, desc);
    MinDaySameRecords(SortByDate(s, desc), s);
  }

  /** The first record dated `d` is the one at the first index with that
      date. */
  lemma {:induction false} FirstOnDayAt(s: seq<Record>, i: int, d: int)
    requires 0 <= i < |s| && s[i].date == d
    requires forall j :: 0 <= j < i ==> s[j].date != d
    ensures FirstOnDay(s, d) == Some(s[i])
  {
    if i > 0 {
      assert forall j :: 0 <= j < i - 1 ==> s[1..][j] == s[j + 1];
      FirstOnDayAt(s[1..], i - 1, d);
    }
  }

  /** Two records of `s` on the same day both appear in `OnDay`. */
  lemma {:induction false} OnDayTwo(s: seq<Record>, i: int, j: int)
    requires 0 <= i < j < |s|
    ensures s[i].date == s[j].date ==> |OnDay(s, s[i].date)| >= 2
  {
    var d := s[i].date;
    if i > 0 {
      assert s[1..][i - 1] == s[i] && s[1..][j - 1] == s[j];
      OnDayTwo(s[1..], i - 1, j - 1);
    } else {
      OnDayMembers(s[1..], d);
      assert s[1..][j - 1] == s[j];
      assert s[j].date == d ==> s[j] in OnDay(s[1..], d);
    }
  }

  /** Sorting keeps the days distinct. */
  lemma SortKeepsDistinct(s: seq<Record>, desc: bool)
    requires DistinctDays(s)
    ensures DistinctDays(SortByDate(s, desc))
  {
    var r := SortByDate(s, desc);
    forall i, j | 0 <= i < j < |r| ensures r[i].date != r[j].date {
      OnDayTwo(r, i, j);
      SortOnDay(s, desc, r[i].date);
      OnDayDistinct(s, r[i].date);
    }
  }
}
