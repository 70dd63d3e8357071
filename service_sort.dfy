/** `appointments.sort(key=lambda x: (x.date, x.time))` in
    backend/appointment_service.py: a stable sort by the pair (date, time),
    both compared as strings.  A stable sort has exactly one result, so it is
    specified here by insertion sort, which the in-place method follows. */
module ServiceSort {
  import opened Text
  import opened Seqs
  import opened Models

  /** Python's tuple order on `(date, time)`. */
  predicate KeyLess(a: Appointment, b: Appointment) {
    Less(a.date, b.date) || (a.date == b.date && Less(a.time, b.time))
  }

  predicate SameKey(a: Appointment, b: Appointment) {
    a.date == b.date && a.time == b.time
  }

  lemma KeyOrder(a: Appointment, b: Appointment, c: Appointment)
    ensures !KeyLess(a, a)
    ensures KeyLess(a, b) ==> !KeyLess(b, a)
    ensures !KeyLess(a, b) && !KeyLess(b, a) ==> SameKey(a, b)
    ensures KeyLess(a, b) && KeyLess(b, c) ==> KeyLess(a, c)
    ensures KeyLess(a, b) && SameKey(b, c) ==> KeyLess(a, c)
  {
    Trichotomy(a.date, b.date);
    Trichotomy(a.time, b.time);
    Trichotomy(a.date, a.date);
    Trichotomy(a.time, a.time);
    if KeyLess(a, b) && KeyLess(b, c) {
      if Less(a.date, b.date) && Less(b.date, c.date) {
        LessTransitive(a.date, b.date, c.date);
      } else if Less(a.time, b.time) && Less(b.time, c.time) {
        LessTransitive(a.time, b.time, c.time);
      }
    }
  }

  /** No element is placed after one with a smaller key. */
  predicate Sorted(s: seq<Appointment>) {
    forall i, j :: 0 <= i < j < |s| ==> !KeyLess(s[j], s[i])
  }

  /** Insert `x` after the last element whose key is not greater than its
      own, scanning from the back. */
  function Insert(s: seq<Appointment>, x: Appointment): (r: seq<Appointment>)
    ensures |r| == |s| + 1
    decreases |s|
  {
    if s == [] then [x]
    else if KeyLess(x, s[|s| - 1]) then Insert(s[..|s| - 1], x) + [s[|s| - 1]]
    else s + [x]
  }

  /** The stable sort by (date, time). */
  function SortByKey(s: seq<Appointment>): (r: seq<Appointment>)
    ensures |r| == |s|
    decreases |s|
  {
    if s == [] then [] else Insert(SortByKey(s[..|s| - 1]), s[|s| - 1])
  }

  lemma {:induction false} InsertPermutes(s: seq<Appointment>, x: Appointment)
    ensures multiset(Insert(s, x)) == multiset(s) + multiset{x}
    decreases |s|
  {
    if s != [] && KeyLess(x, s[|s| - 1]) {
      InsertPermutes(s[..|s| - 1], x);
      assert s == s[..|s| - 1] + [s[|s| - 1]];
    }
  }

  /** Every element's key is at most that of `y`. */
  predicate AllAtMost(s: seq<Appointment>, y: Appointment) {
    forall i :: 0 <= i < |s| ==> !KeyLess(y, s[i])
  }

  lemma {:induction false} InsertAtMost(s: seq<Appointment>, x: Appointment, y: Appointment)
    requires AllAtMost(s, y) && !KeyLess(y, x)
    ensures AllAtMost(Insert(s, x), y)
    decreases |s|
  {
    if s != [] && KeyLess(x, s[|s| - 1]) {
      InsertAtMost(s[..|s| - 1], x, y);
    }
  }

  lemma SortedSnoc(t: seq<Appointment>, y: Appointment)
    requires Sorted(t) && AllAtMost(t, y)
    ensures Sorted(t + [y])
  {
  }

  lemma {:induction false} InsertKeepsSorted(s: seq<Appointment>, x: Appointment)
    requires Sorted(s)
    ensures Sorted(Insert(s, x))
    decreases |s|
  {
    if s != [] {
      var n := |s| - 1;
      var init, last := s[..n], s[n];
      KeyOrder(x, last, last);
      if KeyLess(x, last) {
        InsertKeepsSorted(init, x);
        assert AllAtMost(init, last);
        InsertAtMost(init, x, last);
        SortedSnoc(Insert(init, x), last);
      } else {
        forall i | 0 <= i < |s| ensures !KeyLess(x, s[i]) {
          KeyOrder(s[i], last, last);
          KeyOrder(x, s[i], last);
        }
        SortedSnoc(s, x);
      }
    }
  }

  /** The sorted list is in (date, time) order. */
  lemma {:induction false} SortIsSorted(s: seq<Appointment>)
    ensures Sorted(SortByKey(s))
    decreases |s|
  {
    if s != [] {
      SortIsSorted(s[..|s| - 1]);
      InsertKeepsSorted(SortByKey(s[..|s| - 1]), s[|s| - 1]);
    }
  }

  /** The sorted list holds the same appointments, as many times each. */
  lemma {:induction false} SortIsPermutation(s: seq<Appointment>)
    ensures multiset(SortByKey(s)) == multiset(s)
    decreases |s|
  {
    if s != [] {
      var init := s[..|s| - 1];
      SortIsPermutation(init);
      InsertPermutes(SortByKey(init), s[|s| - 1]);
      assert s == init + [s[|s| - 1]];
    }
  }

  lemma SortKeepsMembers(s: seq<Appointment>)
    ensures forall x :: x in SortByKey(s) <==> x in s
  {
    SortIsPermutation(s);
    assert forall x :: x in SortByKey(s) <==> x in multiset(SortByKey(s));
    assert forall x :: x in s <==> x in multiset(s);
  }

  function HasKeyOf(k: Appointment): Appointment -> bool {
    (a: Appointment) => SameKey(a, k)
  }

  /** Two appointments of which one sorts strictly first cannot both have
      the key of `k`, so filtering them for that key gives the same in
      either order. */
  lemma SwapUnequalKeys(x: Appointment, y: Appointment, k: Appointment)
    requires KeyLess(x, y)
    ensures Filter(HasKeyOf(k), [x]) + Filter(HasKeyOf(k), [y]) == Filter(HasKeyOf(k), [y]) + Filter(HasKeyOf(k), [x])
  {
    KeyOrder(x, x, x);
    assert !(SameKey(x, k) && SameKey(y, k));
    if SameKey(x, k) {
      assert Filter(HasKeyOf(k), [y]) == [];
    } else {
      assert Filter(HasKeyOf(k), [x]) == [];
    }
  }

  lemma {:induction false} InsertIsStable(s: seq<Appointment>, x: Appointment, k: Appointment)
    ensures Filter(HasKeyOf(k), Insert(s, x)) == Filter(HasKeyOf(k), s + [x])
    decreases |s|
  {
    var p := HasKeyOf(k);
    if s != [] {
      var n := |s| - 1;
      var init, last := s[..n], s[n];
      if KeyLess(x, last) {
        var a := Insert(init, x);
        assert s == init + [last];
        calc {
          Filter(p, Insert(s, x));
          { assert Insert(s, x) == a + [last]; }
          Filter(p, a + [last]);
          { FilterConcat(p, a, [last]); }
          Filter(p, a) + Filter(p, [last]);
          { InsertIsStable(init, x, k); FilterConcat(p, init, [x]); }
          Filter(p, init) + Filter(p, [x]) + Filter(p, [last]);
          { SwapUnequalKeys(x, last, k); }
          Filter(p, init) + (Filter(p, [last]) + Filter(p, [x]));
          { FilterConcat(p, [last], [x]); }
          Filter(p, init) + Filter(p, [last] + [x]);
          { FilterConcat(p, init, [last] + [x]); }
          Filter(p, init + ([last] + [x]));
          { assert s + [x] == init + ([last] + [x]); }
          Filter(p, s + [x]);
        }
      }
    }
  }

  /** Appointments with equal (date, time) keep their original order. */
  lemma {:induction false} SortIsStable(s: seq<Appointment>, k: Appointment)
    ensures Filter(HasKeyOf(k), SortByKey(s)) == Filter(HasKeyOf(k), s)
    decreases |s|
  {
    if s != [] {
      var n := |s| - 1;
      var init := s[..n];
      SortIsStable(init, k);
      InsertIsStable(SortByKey(init), s[n], k);
      FilterConcat(HasKeyOf(k), SortByKey(init), [s[n]]);
      FilterConcat(HasKeyOf(k), init, [s[n]]);
      assert init + [s[n]] == s;
    }
  }

  /** For validated appointments the sorted order is chronological: by the
      calendar date, then by the minute of the day. */
  lemma SortedIsChronological(s: seq<Appointment>, i: nat, j: nat)
    requires Sorted(s) && i < j < |s|
    requires ValidDate(s[i].date) && ValidTime(s[i].time) && ValidDate(s[j].date) && ValidTime(s[j].time)
    ensures DateNumber(s[i].date) < DateNumber(s[j].date)
         || (DateNumber(s[i].date) == DateNumber(s[j].date) && TimeMinutes(s[i].time) <= TimeMinutes(s[j].time))
  {
    DateOrder(s[j].date, s[i].date);
    TimeOrder(s[j].time, s[i].time);
  }

  /** Insertion where the scan stopped at position `j`. */
  lemma {:induction false} InsertAt(s: seq<Appointment>, x: Appointment, j: nat)
    requires j <= |s|
    requires j == 0 || !KeyLess(x, s[j - 1])
    requires forall m :: j <= m < |s| ==> KeyLess(x, s[m])
    ensures Insert(s, x) == s[..j] + [x] + s[j..]
    decreases |s|
  {
    if j < |s| {
      var n := |s| - 1;
      var init := s[..n];
      assert KeyLess(x, s[n]);
      assert Insert(s, x) == Insert(init, x) + [s[n]];
      assert forall m :: j <= m < |init| ==> init[m] == s[m];
      assert j == 0 || init[j - 1] == s[j - 1];
      InsertAt(init, x, j);
      assert init[..j] == s[..j];
      assert s[j..] == init[j..] + [s[n]];
    } else {
      assert s[..j] == s;
      assert s[j..] == [];
    }
  }

  /** The array after the scan stopped at `j`, read as a sequence. */
  lemma ShiftedIsInserted(b: seq<Appointment>, sorted: seq<Appointment>, x: Appointment, j: nat)
    requires j <= |sorted| && |b| == |sorted| + 1
    requires j == 0 || !KeyLess(x, sorted[j - 1])
    requires forall m :: j <= m < |sorted| ==> KeyLess(x, sorted[m])
    requires forall m :: 0 <= m < j ==> b[m] == sorted[m]
    requires b[j] == x
    requires forall m :: j < m < |b| ==> b[m] == sorted[m - 1]
    ensures b == Insert(sorted, x)
  {
    InsertAt(sorted, x, j);
    assert b == sorted[..j] + [x] + sorted[j..];
  }

  /** One insertion step: `a[i]` moves left past every element of the
      sorted prefix `a[..i]` with a greater key. */
  method InsertStep(a: array<Appointment>, i: nat)
    requires i < a.Length
    modifies a
    ensures a[..i + 1] == Insert(old(a[..i]), old(a[i]))
    ensures forall m :: i < m < a.Length ==> a[m] == old(a[m])
  {
    ghost var sorted := a[..i];
    var x := a[i];
    var j := i;
    while j > 0 && KeyLess(x, a[j - 1])
      invariant 0 <= j <= i
      invariant forall m :: 0 <= m < j ==> a[m] == sorted[m]
      invariant forall m :: j < m <= i ==> a[m] == sorted[m - 1]
      invariant forall m :: i < m < a.Length ==> a[m] == old(a[m])
      invariant forall m :: j <= m < i ==> KeyLess(x, sorted[m])
    {
      a[j] := a[j - 1];
      j := j - 1;
    }
    a[j] := x;
    ShiftedIsInserted(a[..i + 1], sorted, x, j);
  }

  /** The list sort in place, as insertion sort on an array. */
  method SortInPlace(a: array<Appointment>)
    modifies a
    ensures a[..] == SortByKey(old(a[..]))
  {
    ghost var input := a[..];
    var i := 0;
    while i < a.Length
      invariant 0 <= i <= a.Length
      invariant a[..i] == SortByKey(input[..i])
      invariant forall m :: i <= m < a.Length ==> a[m] == input[m]
    {
      InsertStep(a, i);
      assert input[..i + 1][..i] == input[..i];
      i := i + 1;
    }
    assert a[..] == a[..a.Length] && input == input[..a.Length];
  }
}
