/**
 * The detail merger (app.js:88-89): the per-batch results are concatenated
 * in the order the batches were issued (`Promise.all` resolves to its
 * results by position) and sorted in place by `eventDate`, most recent
 * first, with a stable sort, so records with equal dates keep the order of
 * that concatenation.
 */
module DetailMerger {
  import opened Records
  import opened Seqs

  ghost predicate NonIncreasing(s: seq<Detail>)
  {
    forall i, j :: 0 <= i < j < |s| ==> s[i].eventDate >= s[j].eventDate
  }

  /** The records of `s` stamped `d`, in their order in `s`. */
  function WithDate(s: seq<Detail>, d: int): seq<Detail>
  {
    if s == [] then []
    else (if s[0].eventDate == d then [s[0]] else []) + WithDate(s[1..], d)
  }

  /** `r` is `s` sorted most recent first, with records of equal date in their order in `s`. */
  ghost predicate IsStableSortOf(r: seq<Detail>, s: seq<Detail>)
  {
    NonIncreasing(r) && forall d :: WithDate(r, d) == WithDate(s, d)
  }

  /**
   * Places `x` after every record at least as recent as it: the comparator
   * `new Date(b.eventDate) - new Date(a.eventDate)` is zero on ties, and a
   * stable sort keeps the earlier record first.
   */
  function Insert(x: Detail, s: seq<Detail>): seq<Detail>
  {
    if s == [] then [x]
    else if s[0].eventDate >= x.eventDate then [s[0]] + Insert(x, s[1..])
    else [x] + s
  }

  /** Insertion of each record in input order: the stable sort, most recent first. */
  function SortedByDate(s: seq<Detail>): seq<Detail>
  {
    if s == [] then [] else Insert(s[|s| - 1], SortedByDate(s[..|s| - 1]))
  }

  // ---------------------------------------------------------------------
  // Properties of the sort

  lemma WithDateAbsent(s: seq<Detail>, d: int)
    requires forall i :: 0 <= i < |s| ==> s[i].eventDate != d
    ensures WithDate(s, d) == []
  {
    if s != [] {
      WithDateAbsent(s[1..], d);
    }
  }

  lemma {:induction false} InsertMultiset(x: Detail, s: seq<Detail>)
    ensures multiset(Insert(x, s)) == multiset(s) + multiset{x}
  {
    if s == [] {
      assert Insert(x, s) == [x];
    } else if s[0].eventDate >= x.eventDate {
      var rest := Insert(x, s[1..]);
      assert Insert(x, s) == [s[0]] + rest;
      InsertMultiset(x, s[1..]);
      assert s == [s[0]] + s[1..];
      calc {
        multiset(Insert(x, s));
        multiset([s[0]]) + multiset(rest);
        multiset([s[0]]) + multiset(s[1..]) + multiset{x};
        multiset(s) + multiset{x};
      }
    } else {
      assert Insert(x, s) == [x] + s;
    }
  }

  /** Inserting a record no newer than `b` into records no newer than `b` keeps that bound. */
  lemma {:induction false} InsertBounded(x: Detail, s: seq<Detail>, b: int)
    requires x.eventDate <= b && forall i :: 0 <= i < |s| ==> s[i].eventDate <= b
    ensures forall i :: 0 <= i < |Insert(x, s)| ==> Insert(x, s)[i].eventDate <= b
  {
    if s != [] && s[0].eventDate >= x.eventDate {
      InsertBounded(x, s[1..], b);
      assert Insert(x, s) == [s[0]] + Insert(x, s[1..]);
    }
  }

  lemma {:induction false} InsertSorted(x: Detail, s: seq<Detail>)
    requires NonIncreasing(s)
    ensures NonIncreasing(Insert(x, s))
  {
    if s != [] && s[0].eventDate >= x.eventDate {
      var rest := Insert(x, s[1..]);
      InsertSorted(x, s[1..]);
      InsertBounded(x, s[1..], s[0].eventDate);
      var r := [s[0]] + rest;
      assert Insert(x, s) == r;
      forall i, j | 0 <= i < j < |r| ensures r[i].eventDate >= r[j].eventDate {
        assert r[j] == rest[j - 1];
        if i > 0 {
          assert r[i] == rest[i - 1];
        }
      }
    }
  }

  /** A record newer than all of `s`, put in front of it, comes last among its own date. */
  lemma WithDateFront(x: Detail, s: seq<Detail>, d: int)
    requires forall k :: 0 <= k < |s| ==> s[k].eventDate < x.eventDate
    ensures WithDate([x] + s, d) == WithDate(s, d) + (if x.eventDate == d then [x] else [])
  {
    assert ([x] + s)[0] == x && ([x] + s)[1..] == s;
    if x.eventDate == d {
      WithDateAbsent(s, d);
    }
  }

  /** Inserting past a record at least as recent adds that record's share in front. */
  lemma InsertWithDateSkip(x: Detail, s: seq<Detail>, d: int)
    requires s != [] && s[0].eventDate >= x.eventDate
    requires WithDate(Insert(x, s[1..]), d) == WithDate(s[1..], d) + (if x.eventDate == d then [x] else [])
    ensures WithDate(Insert(x, s), d) == WithDate(s, d) + (if x.eventDate == d then [x] else [])
  {
    var rest := Insert(x, s[1..]);
    var r := [s[0]] + rest;
    var head := if s[0].eventDate == d then [s[0]] else [];
    var own := if x.eventDate == d then [x] else [];
    assert Insert(x, s) == r;
    assert r[0] == s[0] && r[1..] == rest;
    assert WithDate(r, d) == head + WithDate(rest, d);
    assert WithDate(s, d) == head + WithDate(s[1..], d);
    assert head + (WithDate(s[1..], d) + own) == (head + WithDate(s[1..], d)) + own;
  }

  lemma {:induction false} InsertWithDate(x: Detail, s: seq<Detail>, d: int)
    requires NonIncreasing(s)
    ensures WithDate(Insert(x, s), d) == WithDate(s, d) + (if x.eventDate == d then [x] else [])
  {
    if s == [] {
      assert Insert(x, s) == [x] + s;
      WithDateFront(x, s, d);
    } else if s[0].eventDate >= x.eventDate {
      InsertWithDate(x, s[1..], d);
      InsertWithDateSkip(x, s, d);
    } else {
      assert Insert(x, s) == [x] + s;
      forall k | 0 <= k < |s| ensures s[k].eventDate < x.eventDate {
        assert s[0].eventDate >= s[k].eventDate;
      }
      WithDateFront(x, s, d);
    }
  }

  lemma {:induction false} WithDateAppend(s: seq<Detail>, t: seq<Detail>, d: int)
    ensures WithDate(s + t, d) == WithDate(s, d) + WithDate(t, d)
  {
    if s == [] {
      assert s + t == t;
    } else {
      var st := s + t;
      assert st[0] == s[0];
      assert st[1..] == s[1..] + t;
      WithDateAppend(s[1..], t, d);
      var head := if s[0].eventDate == d then [s[0]] else [];
      calc {
        WithDate(st, d);
        head + WithDate(s[1..] + t, d);
        head + (WithDate(s[1..], d) + WithDate(t, d));
        (head + WithDate(s[1..], d)) + WithDate(t, d);
      }
    }
  }

  lemma {:induction false} SortedByDateNonIncreasing(s: seq<Detail>)
    ensures NonIncreasing(SortedByDate(s))
  {
    if s != [] {
      var init := s[..|s| - 1];
      SortedByDateNonIncreasing(init);
      InsertSorted(s[|s| - 1], SortedByDate(init));
    }
  }

  lemma {:induction false} SortedByDateMultiset(s: seq<Detail>)
    ensures multiset(SortedByDate(s)) == multiset(s)
  {
    if s != [] {
      var init, x := s[..|s| - 1], s[|s| - 1];
      var sortedInit := SortedByDate(init);
      assert SortedByDate(s) == Insert(x, sortedInit);
      SortedByDateMultiset(init);
      InsertMultiset(x, sortedInit);
      assert s == init + [x];
      assert multiset(s) == multiset(init) + multiset{x};
    }
  }

  lemma SortedByDateSorted(s: seq<Detail>)
    ensures NonIncreasing(SortedByDate(s))
    ensures multiset(SortedByDate(s)) == multiset(s)
  {
    SortedByDateNonIncreasing(s);
    SortedByDateMultiset(s);
  }

  /** Records of equal date keep their input order. */
  lemma {:induction false} SortedByDateTies(s: seq<Detail>, d: int)
    ensures WithDate(SortedByDate(s), d) == WithDate(s, d)
  {
    if s != [] {
      var init, x := s[..|s| - 1], s[|s| - 1];
      var sortedInit := SortedByDate(init);
      var own := if x.eventDate == d then [x] else [];
      assert SortedByDate(s) == Insert(x, sortedInit);
      SortedByDateNonIncreasing(init);
      InsertWithDate(x, sortedInit, d);
      SortedByDateTies(init, d);
      assert WithDate(SortedByDate(s), d) == WithDate(init, d) + own;
      assert s == init + [x];
      WithDateAppend(init, [x], d);
      assert [x][1..] == [];
      assert WithDate([x], d) == own + WithDate([], d);
    }
  }

  lemma SortedByDateProps(s: seq<Detail>)
    ensures IsStableSortOf(SortedByDate(s), s)
    ensures multiset(SortedByDate(s)) == multiset(s)
  {
    SortedByDateSorted(s);
    forall d ensures WithDate(SortedByDate(s), d) == WithDate(s, d) {
      SortedByDateTies(s, d);
    }
  }

  lemma WithDateHead(s: seq<Detail>, d: int)
    requires WithDate(s, d) != []
    ensures exists i :: 0 <= i < |s| && s[i].eventDate == d
  {
    if s[0].eventDate != d {
      WithDateHead(s[1..], d);
      var i :| 0 <= i < |s[1..]| && s[1..][i].eventDate == d;
      assert s[i + 1].eventDate == d;
    }
  }

  lemma WithDateOfHead(w: seq<Detail>)
    requires w != []
    ensures WithDate(w, w[0].eventDate) != []
  {
  }

  lemma SameDatesSameEmptiness(u: seq<Detail>, v: seq<Detail>)
    requires forall d :: WithDate(u, d) == WithDate(v, d)
    ensures u == [] ==> v == []
  {
    if v != [] {
      WithDateOfHead(v);
      assert WithDate(u, v[0].eventDate) != [];
    }
  }

  /** Two non-empty stable sorts of the same records start alike and agree on the rest. */
  lemma HeadsAgree(u: seq<Detail>, v: seq<Detail>)
    requires u != [] && v != [] && NonIncreasing(u) && NonIncreasing(v)
    requires forall d :: WithDate(u, d) == WithDate(v, d)
    ensures u[0] == v[0]
    ensures forall d :: WithDate(u[1..], d) == WithDate(v[1..], d)
  {
    var du, dv := u[0].eventDate, v[0].eventDate;
    WithDateOfHead(u);
    WithDateHead(v, du);
    WithDateOfHead(v);
    WithDateHead(u, dv);
    assert du == dv;
    assert WithDate(u, du)[0] == u[0] && WithDate(v, du)[0] == v[0];
    forall d ensures WithDate(u[1..], d) == WithDate(v[1..], d) {
      if d == du {
        assert WithDate(u[1..], d) == WithDate(u, d)[1..];
        assert WithDate(v[1..], d) == WithDate(v, d)[1..];
      } else {
        assert WithDate(u, d) == WithDate(u[1..], d);
        assert WithDate(v, d) == WithDate(v[1..], d);
      }
    }
  }

  /**
   * A stable sort's result is unique: two sequences sorted most recent first
   * that agree, date by date, on the order of their records are equal.
   */
  lemma {:induction false} StableSortUnique(u: seq<Detail>, v: seq<Detail>)
    requires NonIncreasing(u) && NonIncreasing(v)
    requires forall d :: WithDate(u, d) == WithDate(v, d)
    ensures u == v
  {
    SameDatesSameEmptiness(u, v);
    SameDatesSameEmptiness(v, u);
    if u != [] {
      HeadsAgree(u, v);
      StableSortUnique(u[1..], v[1..]);
      assert u == [u[0]] + u[1..] && v == [v[0]] + v[1..];
    }
  }

  /** Whatever stable algorithm the engine uses, its result is SortedByDate. */
  lemma StableSortIsSortedByDate(s: seq<Detail>, r: seq<Detail>)
    requires IsStableSortOf(r, s)
    ensures r == SortedByDate(s)
  {
    SortedByDateProps(s);
    StableSortUnique(r, SortedByDate(s));
  }

  /** Two records with the same date from batches 1 and 2 come out in batch order. */
  lemma TieKeepsBatchOrder(a: Detail, b: Detail)
    requires a.eventDate == b.eventDate
    ensures SortedByDate(Flatten([[a], [b]])) == [a, b]
  {
    var batches := [[a], [b]];
    assert batches[1..] == [[b]] && batches[1..][1..] == [];
    assert Flatten(batches[1..]) == [b] + Flatten([]);
    assert Flatten(batches) == [a] + [b];
    var s := [a, b];
    assert s[..|s| - 1] == [a];
    assert [a][..0] == [];
    assert SortedByDate([a]) == [a];
    assert [a][1..] == [];
    assert Insert(b, [a]) == [a] + [b];
  }

  // ---------------------------------------------------------------------
  // The source's operations

  /** `s` with `x` inserted at position `j`, when `j` is where Insert puts it. */
  lemma {:induction false} InsertAt(x: Detail, s: seq<Detail>, j: nat)
    requires NonIncreasing(s) && j <= |s|
    requires j == 0 || s[j - 1].eventDate >= x.eventDate
    requires forall k :: j <= k < |s| ==> s[k].eventDate < x.eventDate
    ensures Insert(x, s) == s[..j] + [x] + s[j..]
  {
    if j > 0 {
      InsertAt(x, s[1..], j - 1);
      assert s[..j] == [s[0]] + s[1..][..j - 1];
      assert s[j..] == s[1..][j - 1..];
    }
  }

  lemma Spliced(t: seq<Detail>, s: seq<Detail>, x: Detail, j: nat)
    requires j <= |s| && |t| == |s| + 1 && t[j] == x
    requires forall k :: 0 <= k < j ==> t[k] == s[k]
    requires forall k :: j < k < |t| ==> t[k] == s[k - 1]
    ensures t == s[..j] + [x] + s[j..]
  {
  }

  /** The array prefix after one pass, described pointwise, is the stable insertion of `x`. */
  lemma InsertedPrefix(t: seq<Detail>, s: seq<Detail>, x: Detail, j: nat)
    requires NonIncreasing(s) && j <= |s| && |t| == |s| + 1 && t[j] == x
    requires j == 0 || s[j - 1].eventDate >= x.eventDate
    requires forall k :: j <= k < |s| ==> s[k].eventDate < x.eventDate
    requires forall k :: 0 <= k < j ==> t[k] == s[k]
    requires forall k :: j < k < |t| ==> t[k] == s[k - 1]
    ensures t == Insert(x, s)
  {
    InsertAt(x, s, j);
    Spliced(t, s, x, j);
  }

  /** One pass of the insertion sort: moves `a[i]` into the sorted prefix `a[..i]`. */
  method InsertIntoPrefix(a: array<Detail>, i: nat)
    requires i < a.Length && NonIncreasing(a[..i])
    modifies a
    ensures a[..i + 1] == Insert(old(a[i]), old(a[..i]))
    ensures forall k :: i < k < a.Length ==> a[k] == old(a[k])
  {
    ghost var whole := a[..];
    ghost var s := a[..i];
    var x := a[i];
    var j := i;
    while j > 0 && a[j - 1].eventDate < x.eventDate
      invariant 0 <= j <= i
      invariant forall k :: 0 <= k < a.Length && (k < j || i < k) ==> a[k] == whole[k]
      invariant forall k :: j < k <= i ==> a[k] == whole[k - 1]
      invariant forall k :: j <= k < i ==> whole[k].eventDate < x.eventDate
    {
      a[j] := a[j - 1];
      j := j - 1;
    }
    a[j] := x;
    InsertedPrefix(a[..i + 1], s, x, j);
  }

  /** app.js:89: `details.sort(...)`, in place, as a stable insertion sort. */
  method SortByDateDescending(a: array<Detail>)
    modifies a
    ensures a[..] == SortedByDate(old(a[..]))
  {
    ghost var orig := a[..];
    for i := 0 to a.Length
      invariant a[..i] == SortedByDate(orig[..i])
      invariant forall k :: i <= k < a.Length ==> a[k] == orig[k]
    {
      SortedByDateNonIncreasing(orig[..i]);
      ghost var next := orig[..i + 1];
      assert next[..|next| - 1] == orig[..i] && next[|next| - 1] == orig[i];
      assert SortedByDate(next) == Insert(orig[i], SortedByDate(orig[..i]));
      InsertIntoPrefix(a, i);
    }
    assert orig[..a.Length] == orig;
  }

  /** app.js:88-89: concatenate the batch results in issue order, then sort. */
  method MergeDetails(responses: seq<seq<Detail>>) returns (details: seq<Detail>)
    ensures details == SortedByDate(Flatten(responses))
    ensures IsStableSortOf(details, Flatten(responses))
    ensures multiset(details) == multiset(Flatten(responses))
  {
    var all := Flatten(responses);
    var a := new Detail[|all|](i requires 0 <= i < |all| => all[i]);
    assert a[..] == all;
    SortByDateDescending(a);
    details := a[..];
    SortedByDateProps(all);
  }
}
