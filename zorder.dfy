/** The order ShapeRenderer.render paints in: shapes sorted by
    shapes.sort((a, b) => a.zIndex - b.zIndex), a stable sort. */
module ZOrder {
  import opened Numbers
  import opened Shapefile

  /** The comparator a.zIndex - b.zIndex is positive, so a goes after b.
      A NaN difference counts as 0 (ECMAScript's SortCompare), so a record
      whose zIndex is NaN is never greater or smaller than another. */
  predicate Greater(a: ShapeRecord, b: ShapeRecord)
    ensures Greater(a, b) <==> var d := ZDifference(a, b); d.Int? && d.value > 0
    ensures a.zIndex.NaN? || b.zIndex.NaN? ==> !Greater(a, b)
  {
    a.zIndex.Int? && b.zIndex.Int? && a.zIndex.value > b.zIndex.value
  }

  /** The comparator's value a.zIndex - b.zIndex: NaN when either operand
      is NaN. */
  function ZDifference(a: ShapeRecord, b: ShapeRecord): Num {
    if a.zIndex.NaN? || b.zIndex.NaN? then NaN else Int(a.zIndex.value - b.zIndex.value)
  }

  /** The comparator is a strict order on records: never greater than
      itself, never both ways, and transitive. Two records compare equal
      exactly when their zIndex values are equal or either is NaN. */
  lemma GreaterStrictOrder(a: ShapeRecord, b: ShapeRecord, c: ShapeRecord)
    ensures !Greater(a, a)
    ensures Greater(a, b) ==> !Greater(b, a)
    ensures Greater(a, b) && Greater(b, c) ==> Greater(a, c)
    ensures !Greater(a, b) && !Greater(b, a) <==>
      a.zIndex == b.zIndex || a.zIndex.NaN? || b.zIndex.NaN?
  {
  }

  /** No record comes after one that compares greater than it. */
  predicate ZSorted(s: seq<ShapeRecord>) {
    forall i, j :: 0 <= i < j < |s| ==> !Greater(s[i], s[j])
  }

  /** Every zIndex was read as a number. */
  predicate NumericZ(s: seq<ShapeRecord>) {
    forall i :: 0 <= i < |s| ==> s[i].zIndex.Int?
  }

  /** The records of s whose zIndex is z, in their order in s. */
  function WithZ(s: seq<ShapeRecord>, z: Num): seq<ShapeRecord> {
    if s == [] then []
    else WithZ(s[..|s| - 1], z) + (if s[|s| - 1].zIndex == z then [s[|s| - 1]] else [])
  }

  /** Inserts x in front of the first record that compares greater than it,
      so after every record it ties with. */
  function Insert(x: ShapeRecord, s: seq<ShapeRecord>): (r: seq<ShapeRecord>)
    ensures |r| == |s| + 1
    ensures forall y :: y in r <==> y == x || y in s
  {
    if s == [] then [x]
    else if Greater(s[0], x) then [x] + s
    else
      assert s == [s[0]] + s[1..];
      [s[0]] + Insert(x, s[1..])
  }

  /** Insertion sort by zIndex: each record, in its original order, is
      inserted into the sorted records before it. */
  function SortByZ(s: seq<ShapeRecord>): (r: seq<ShapeRecord>)
    ensures |r| == |s|
    ensures forall y :: y in r <==> y in s
  {
    if s == [] then []
    else
      assert s == s[..|s| - 1] + [s[|s| - 1]];
      Insert(s[|s| - 1], SortByZ(s[..|s| - 1]))
  }

  // ---------------------------------------------------------------------
  // Insert

  /** Insert places x at the first index whose record compares greater. */
  lemma {:induction false} InsertAt(x: ShapeRecord, s: seq<ShapeRecord>, k: nat)
    requires k <= |s|
    requires forall j :: 0 <= j < k ==> !Greater(s[j], x)
    requires k == |s| || Greater(s[k], x)
    ensures Insert(x, s) == s[..k] + [x] + s[k..]
  {
    if s != [] && k > 0 {
      InsertAt(x, s[1..], k - 1);
      assert s[..k] == [s[0]] + s[1..][..k - 1];
      assert s[k..] == s[1..][k - 1..];
    }
  }

  lemma {:induction false} InsertPermutes(x: ShapeRecord, s: seq<ShapeRecord>)
    ensures multiset(Insert(x, s)) == multiset(s) + multiset{x}
  {
    if s == [] {
      assert Insert(x, s) == [x];
    } else if Greater(s[0], x) {
      assert Insert(x, s) == [x] + s;
    } else {
      var r := Insert(x, s[1..]);
      InsertPermutes(x, s[1..]);
      assert Insert(x, s) == [s[0]] + r;
      assert s == [s[0]] + s[1..];
      assert multiset(Insert(x, s)) == multiset{s[0]} + multiset(r);
      assert multiset(s) == multiset{s[0]} + multiset(s[1..]);
    }
  }

  lemma {:induction false} InsertSorted(x: ShapeRecord, s: seq<ShapeRecord>)
    requires ZSorted(s)
    ensures ZSorted(Insert(x, s))
  {
    if s != [] && !Greater(s[0], x) {
      InsertSorted(x, s[1..]);
      var r := Insert(x, s[1..]);
      forall j | 0 <= j < |r| ensures !Greater(s[0], r[j]) {
        assert r[j] in r;
        if r[j] != x {
          var m :| 0 <= m < |s[1..]| && s[1..][m] == r[j];
          assert s[m + 1] == r[j];
        }
      }
      assert Insert(x, s) == [s[0]] + r;
    }
  }

  /** Inserting x leaves the records of every other zIndex where they were,
      and puts x after the records of its own. */
  lemma InsertWithZ(x: ShapeRecord, s: seq<ShapeRecord>, z: Num)
    requires ZSorted(s)
    ensures WithZ(Insert(x, s), z) == WithZ(s, z) + (if x.zIndex == z then [x] else [])
  {
    var k := FirstGreater(x, s);
    var p, q := s[..k], s[k..];
    var e := if x.zIndex == z then [x] else [];
    var wp, wq := WithZ(p, z), WithZ(q, z);
    assert wq + e == e + wq by {
      if x.zIndex == z {
        NoneWithZ(q, z, x);
      }
    }
    assert WithZ(Insert(x, s), z) == wp + e + wq by {
      InsertAt(x, s, k);
      WithZAround(p, x, q, z);
    }
    assert WithZ(s, z) == wp + wq by {
      SplitAt(s, k, z);
    }
    Reassociate(wp, e, wq);
  }

  lemma Reassociate(wp: seq<ShapeRecord>, e: seq<ShapeRecord>, wq: seq<ShapeRecord>)
    requires wq + e == e + wq
    ensures wp + e + wq == wp + wq + e
  {
    assert wp + e + wq == wp + (e + wq);
    assert wp + wq + e == wp + (wq + e);
  }

  lemma SplitAt(s: seq<ShapeRecord>, k: nat, z: Num)
    requires k <= |s|
    ensures WithZ(s, z) == WithZ(s[..k], z) + WithZ(s[k..], z)
  {
    assert s == s[..k] + s[k..];
    WithZAppend(s[..k], s[k..], z);
  }

  lemma WithZAround(p: seq<ShapeRecord>, x: ShapeRecord, q: seq<ShapeRecord>, z: Num)
    ensures WithZ(p + [x] + q, z) == WithZ(p, z) + (if x.zIndex == z then [x] else []) + WithZ(q, z)
  {
    WithZAppend(p + [x], q, z);
    WithZAppend(p, [x], z);
    WithZOne(x, z);
  }

  /** The index of the first record of s that compares greater than x. */
  function FirstGreater(x: ShapeRecord, s: seq<ShapeRecord>): (k: nat)
    ensures k <= |s|
    ensures forall j :: 0 <= j < k ==> !Greater(s[j], x)
    ensures k == |s| || Greater(s[k], x)
  {
    if s == [] || Greater(s[0], x) then 0 else 1 + FirstGreater(x, s[1..])
  }

  lemma WithZOne(x: ShapeRecord, z: Num)
    ensures WithZ([x], z) == (if x.zIndex == z then [x] else [])
  {
    assert [x][..0] == [];
  }

  /** In a sorted sequence that starts with a record greater than x, no
      record ties with x. */
  lemma NoneWithZ(t: seq<ShapeRecord>, z: Num, x: ShapeRecord)
    requires x.zIndex == z
    requires ZSorted(t)
    requires t == [] || Greater(t[0], x)
    ensures WithZ(t, z) == []
  {
    forall i | 0 <= i < |t| ensures t[i].zIndex != z {
      if i > 0 {
        assert !Greater(t[0], t[i]);
      }
    }
    WithZEmpty(t, z);
  }

  lemma {:induction false} WithZEmpty(t: seq<ShapeRecord>, z: Num)
    requires forall i :: 0 <= i < |t| ==> t[i].zIndex != z
    ensures WithZ(t, z) == []
  {
    if t != [] {
      WithZEmpty(t[..|t| - 1], z);
    }
  }

  lemma {:induction false} WithZAppend(a: seq<ShapeRecord>, b: seq<ShapeRecord>, z: Num)
    ensures WithZ(a + b, z) == WithZ(a, z) + WithZ(b, z)
  {
    if b == [] {
      assert a + b == a;
    } else {
      WithZAppend(a, b[..|b| - 1], z);
      assert (a + b)[..|a + b| - 1] == a + b[..|b| - 1];
    }
  }

  // ---------------------------------------------------------------------
  // Sort

  /** The sort rearranges the records and neither adds nor loses any. */
  lemma {:induction false} SortPermutes(s: seq<ShapeRecord>)
    ensures multiset(SortByZ(s)) == multiset(s)
  {
    if s != [] {
      SortPermutes(s[..|s| - 1]);
      InsertPermutes(s[|s| - 1], SortByZ(s[..|s| - 1]));
      assert s == s[..|s| - 1] + [s[|s| - 1]];
    }
  }

  /** After the sort no record follows one with a greater zIndex: with
      every zIndex a number, the zIndex values are non-decreasing. */
  lemma {:induction false} SortSorted(s: seq<ShapeRecord>)
    ensures ZSorted(SortByZ(s))
  {
    if s != [] {
      SortSorted(s[..|s| - 1]);
      InsertSorted(s[|s| - 1], SortByZ(s[..|s| - 1]));
    }
  }

  /** Stability: for every zIndex, the records with that zIndex keep their
      relative order. */
  lemma {:induction false} SortStable(s: seq<ShapeRecord>, z: Num)
    ensures WithZ(SortByZ(s), z) == WithZ(s, z)
  {
    if s != [] {
      SortStable(s[..|s| - 1], z);
      SortSorted(s[..|s| - 1]);
      InsertWithZ(s[|s| - 1], SortByZ(s[..|s| - 1]), z);
    }
  }

  /** Sorting records already in zIndex order changes nothing, so a second
      render keeps the order of the first. */
  lemma {:induction false} SortSortedUnchanged(s: seq<ShapeRecord>)
    requires ZSorted(s)
    ensures SortByZ(s) == s
  {
    if s != [] {
      var init := s[..|s| - 1];
      assert ZSorted(init);
      SortSortedUnchanged(init);
      InsertAt(s[|s| - 1], init, |init|);
      assert init + [s[|s| - 1]] + [] == s;
    }
  }

  /** Rendering twice paints in the same order as rendering once. */
  lemma SortIdempotent(s: seq<ShapeRecord>)
    ensures SortByZ(SortByZ(s)) == SortByZ(s)
  {
    SortSorted(s);
    SortSortedUnchanged(SortByZ(s));
  }

  /** When every zIndex is a number, a stable sort has only one possible
      result: any ordering of the records by zIndex that keeps, for each
      zIndex, the original relative order is the one SortByZ gives. */
  lemma StableSortUnique(s: seq<ShapeRecord>, t: seq<ShapeRecord>)
    requires NumericZ(s) && NumericZ(t)
    requires ZSorted(t)
    requires forall z :: WithZ(t, z) == WithZ(s, z)
    ensures t == SortByZ(s)
  {
    var u := SortByZ(s);
    SortSorted(s);
    SortPermutes(s);
    forall i | 0 <= i < |u| ensures u[i].zIndex.Int? {
      assert u[i] in multiset(u);
    }
    forall z ensures WithZ(t, z) == WithZ(u, z) {
      SortStable(s, z);
    }
    SameFiltersEqual(t, u);
  }

  /** Two sequences in zIndex order, all zIndex values numbers, with the
      same records for every zIndex, are equal. */
  lemma {:induction false} SameFiltersEqual(t: seq<ShapeRecord>, u: seq<ShapeRecord>)
    requires NumericZ(t) && NumericZ(u)
    requires ZSorted(t) && ZSorted(u)
    requires forall z :: WithZ(t, z) == WithZ(u, z)
    ensures t == u
    decreases |t| + |u|
  {
    if t == [] {
      if u != [] {
        var b := u[|u| - 1];
        WithZLast(u, b.zIndex);
      }
    } else if u == [] {
      var a := t[|t| - 1];
      WithZLast(t, a.zIndex);
    } else {
      var a, b := t[|t| - 1], u[|u| - 1];
      var t', u' := t[..|t| - 1], u[..|u| - 1];
      // a's zIndex occurs in u, so it is at most b's; and symmetrically.
      WithZLast(t, a.zIndex);
      WithZLast(u, b.zIndex);
      WithZMember(u, a.zIndex);
      WithZMember(t, b.zIndex);
      var z := a.zIndex;
      assert b.zIndex == z;
      var w := WithZ(t, z);
      assert w == WithZ(t', z) + [a];
      assert w == WithZ(u', z) + [b];
      assert a == w[|w| - 1] == b;
      forall y ensures WithZ(t', y) == WithZ(u', y) {
        var e := if a.zIndex == y then [a] else [];
        assert WithZ(t, y) == WithZ(u, y);
        assert WithZ(t, y) == WithZ(t', y) + e;
        assert WithZ(u, y) == WithZ(u', y) + e;
        SuffixCancel(WithZ(t', y), WithZ(u', y), e);
      }
      SameFiltersEqual(t', u');
      assert t == t' + [a];
      assert u == u' + [b];
    }
  }

  lemma SuffixCancel(p: seq<ShapeRecord>, q: seq<ShapeRecord>, e: seq<ShapeRecord>)
    requires p + e == q + e
    ensures p == q
  {
    assert |p| == |q|;
    assert p == (p + e)[..|p|];
    assert q == (q + e)[..|q|];
  }

  lemma WithZLast(s: seq<ShapeRecord>, z: Num)
    requires s != [] && s[|s| - 1].zIndex == z
    ensures WithZ(s, z) != []
  {
  }

  /** A record with zIndex z in a sorted numeric sequence is not greater
      than the last one; so if z occurs, the last zIndex is at least z. */
  lemma WithZMember(s: seq<ShapeRecord>, z: Num)
    requires s != [] && NumericZ(s) && ZSorted(s)
    requires z.Int? && WithZ(s, z) != []
    ensures s[|s| - 1].zIndex.value >= z.value
  {
    var i := WithZWitness(s, z);
    if i < |s| - 1 {
      assert !Greater(s[i], s[|s| - 1]);
    }
  }

  lemma {:induction false} WithZWitness(s: seq<ShapeRecord>, z: Num) returns (i: nat)
    requires WithZ(s, z) != []
    ensures i < |s| && s[i].zIndex == z
  {
    var init := s[..|s| - 1];
    if s[|s| - 1].zIndex == z {
      i := |s| - 1;
    } else {
      i := WithZWitness(init, z);
    }
  }

  /** Records added with zIndex 2, 1, 1, 0 are painted 0, 1, 1, 2, the two
      records with zIndex 1 in the order they were added. */
  lemma StableExample(a: ShapeRecord, b: ShapeRecord, c: ShapeRecord, d: ShapeRecord)
    requires a.zIndex == Int(2) && b.zIndex == Int(1) && c.zIndex == Int(1) && d.zIndex == Int(0)
    ensures SortByZ([a, b, c, d]) == [d, b, c, a]
  {
    assert [a][..0] == [];
    assert SortByZ([a]) == [a];
    assert [a, b][..1] == [a];
    assert SortByZ([a, b]) == Insert(b, [a]) == [b, a];
    assert [a, b, c][..2] == [a, b];
    assert [b, a][1..] == [a];
    assert SortByZ([a, b, c]) == Insert(c, [b, a]) == [b, c, a];
    assert [a, b, c, d][..3] == [a, b, c];
    assert SortByZ([a, b, c, d]) == Insert(d, [b, c, a]) == [d, b, c, a];
  }

  // ---------------------------------------------------------------------
  // The sort as a program

  /** Inserts x into sorted records: scans for the first record greater
      than x and puts x in front of it. */
  method InsertByZ(x: ShapeRecord, sorted: seq<ShapeRecord>) returns (r: seq<ShapeRecord>)
    ensures r == Insert(x, sorted)
  {
    var k := 0;
    while k < |sorted| && !Greater(sorted[k], x)
      invariant 0 <= k <= |sorted|
      invariant forall j :: 0 <= j < k ==> !Greater(sorted[j], x)
    {
      k := k + 1;
    }
    InsertAt(x, sorted, k);
    r := sorted[..k] + [x] + sorted[k..];
  }

  /** Sorts records by zIndex, stably, by insertion. */
  method SortByZIndex(shapes: seq<ShapeRecord>) returns (sorted: seq<ShapeRecord>)
    ensures sorted == SortByZ(shapes)
  {
    sorted := [];
    var i := 0;
    while i < |shapes|
      invariant 0 <= i <= |shapes|
      invariant sorted == SortByZ(shapes[..i])
    {
      assert shapes[..i + 1][..i] == shapes[..i];
      sorted := InsertByZ(shapes[i], sorted);
      i := i + 1;
    }
    assert shapes[..i] == shapes;
  }
}
