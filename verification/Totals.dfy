/** Sums over the values of a map, and how they change with one entry. */
module Totals {

  /** The sum of f over all values of m. */
  ghost function Total<K, V>(m: map<K, V>, f: V -> int): int {
    if m == map[] then 0 else
    var k :| k in m;
    f(m[k]) + Total(m - {k}, f)
  }

  /** Any entry can be taken out first. */
  lemma {:induction false} TotalWithout<K, V>(m: map<K, V>, f: V -> int, k: K)
    requires k in m
    ensures Total(m, f) == f(m[k]) + Total(m - {k}, f)
    decreases |m|
  {
    var j :| j in m && Total(m, f) == f(m[j]) + Total(m - {j}, f);
    if j != k {
      TotalWithout(m - {j}, f, k);
      TotalWithout(m - {k}, f, j);
      assert m - {j} - {k} == m - {k} - {j};
    }
  }

  /** Overwriting or adding one entry changes the sum by the difference of its values. */
  lemma TotalUpdate<K, V>(m: map<K, V>, f: V -> int, k: K, v: V)
    ensures Total(m[k := v], f) == Total(m, f) + f(v) - (if k in m then f(m[k]) else 0)
  {
    TotalWithout(m[k := v], f, k);
    if k in m {
      TotalWithout(m, f, k);
      assert m[k := v] - {k} == m - {k};
    } else {
      assert m[k := v] - {k} == m;
    }
  }

  /** The sum only depends on f at each key. */
  lemma {:induction false} TotalSame<K, V>(m: map<K, V>, n: map<K, V>, f: V -> int)
    requires m.Keys == n.Keys && forall k :: k in m ==> f(m[k]) == f(n[k])
    ensures Total(m, f) == Total(n, f)
    decreases |m|
  {
    if m == map[] {
      assert n == map[];
    } else {
      var k :| k in m;
      TotalWithout(m, f, k);
      TotalWithout(n, f, k);
      TotalSame(m - {k}, n - {k}, f);
    }
  }

  /** With non-negative values, no single value exceeds the sum, and the sum is non-negative. */
  lemma {:induction false} TotalBounds<K, V>(m: map<K, V>, f: V -> int)
    requires forall k :: k in m ==> f(m[k]) >= 0
    ensures Total(m, f) >= 0
    ensures forall k :: k in m ==> f(m[k]) <= Total(m, f)
    decreases |m|
  {
    if m != map[] {
      var j :| j in m;
      var rest := m - {j};
      TotalBounds(rest, f);
      TotalWithout(m, f, j);
      assert forall k :: k in m && k != j ==> k in rest && rest[k] == m[k];
    }
  }

  /** The sum of a weight over a set. */
  ghost function SetTotal<T>(s: set<T>, w: T -> int): int {
    if s == {} then 0 else
    var x :| x in s;
    w(x) + SetTotal(s - {x}, w)
  }

  lemma {:induction false} SetTotalWithout<T>(s: set<T>, w: T -> int, x: T)
    requires x in s
    ensures SetTotal(s, w) == w(x) + SetTotal(s - {x}, w)
    decreases |s|
  {
    var y :| y in s && SetTotal(s, w) == w(y) + SetTotal(s - {y}, w);
    if y != x {
      SetTotalWithout(s - {y}, w, x);
      SetTotalWithout(s - {x}, w, y);
      assert s - {y} - {x} == s - {x} - {y};
    }
  }

  /** Disjoint parts add up. */
  lemma {:induction false} SetTotalUnion<T>(a: set<T>, b: set<T>, w: T -> int)
    requires a !! b
    ensures SetTotal(a + b, w) == SetTotal(a, w) + SetTotal(b, w)
    decreases |a|
  {
    if a == {} {
      assert a + b == b;
    } else {
      var x :| x in a;
      SetTotalWithout(a, w, x);
      SetTotalWithout(a + b, w, x);
      assert a + b - {x} == (a - {x}) + b;
      SetTotalUnion(a - {x}, b, w);
    }
  }

  lemma OneMoreTimes(n: nat, t: int)
    ensures (n + 1) * t == n * t + t
  {
  }

  lemma {:induction false} SetTotalAtMost<T>(s: set<T>, w: T -> int, t: int)
    requires forall x :: x in s ==> w(x) <= t
    ensures SetTotal(s, w) <= |s| * t
    decreases |s|
  {
    if s != {} {
      var x :| x in s;
      SetTotalWithout(s, w, x);
      SetTotalAtMost(s - {x}, w, t);
      OneMoreTimes(|s - {x}|, t);
    }
  }

  lemma {:induction false} SetTotalAtLeast<T>(s: set<T>, w: T -> int, t: int)
    requires forall x :: x in s ==> w(x) >= t
    ensures SetTotal(s, w) >= |s| * t
    decreases |s|
  {
    if s != {} {
      var x :| x in s;
      SetTotalWithout(s, w, x);
      SetTotalAtLeast(s - {x}, w, t);
      OneMoreTimes(|s - {x}|, t);
    }
  }

  lemma SubsetSize<T>(a: set<T>, b: set<T>)
    requires a <= b
    ensures |a| <= |b|
  {
    assert b == a + (b - a);
  }

  /** The exchange argument: a set whose members all weigh at least t, against one of no more
      members whose own members outside the first all weigh at most t. */
  lemma HeavierSet<T>(mine: set<T>, other: set<T>, w: T -> int, t: int)
    requires t >= 0 && |other| <= |mine|
    requires forall x :: x in mine ==> w(x) >= t
    requires forall x :: x in other && x !in mine ==> w(x) <= t
    ensures SetTotal(other, w) <= SetTotal(mine, w)
  {
    SetTotalApart(mine, other, w);
    SetTotalApart(other, mine, w);
    assert mine * other == other * mine;
    SetTotalAtLeast(mine - other, w, t);
    SetTotalAtMost(other - mine, w, t);
    ScaledCounts(|other - mine|, |mine - other|, t);
  }

  lemma SetTotalApart<T>(a: set<T>, b: set<T>, w: T -> int)
    ensures SetTotal(a, w) == SetTotal(a - b, w) + SetTotal(a * b, w)
    ensures |a| == |a - b| + |a * b|
  {
    assert a == (a - b) + a * b;
    SetTotalUnion(a - b, a * b, w);
  }

  lemma ScaledCounts(a: nat, b: nat, t: int)
    requires a <= b && t >= 0
    ensures a * t <= b * t
  {
    assert (b - a) * t >= 0;
  }

  /** The sum of the values of m. */
  ghost function RealTotal<K>(m: map<K, real>): real {
    if m == map[] then 0.0 else
    var k :| k in m;
    m[k] + RealTotal(m - {k})
  }

  lemma {:induction false} RealTotalWithout<K>(m: map<K, real>, k: K)
    requires k in m
    ensures RealTotal(m) == m[k] + RealTotal(m - {k})
    decreases |m|
  {
    var j :| j in m && RealTotal(m) == m[j] + RealTotal(m - {j});
    if j != k {
      RealTotalWithout(m - {j}, k);
      RealTotalWithout(m - {k}, j);
      assert m - {j} - {k} == m - {k} - {j};
    }
  }

  lemma RealTotalUpdate<K>(m: map<K, real>, k: K, v: real)
    ensures RealTotal(m[k := v]) == RealTotal(m) + v - (if k in m then m[k] else 0.0)
  {
    RealTotalWithout(m[k := v], k);
    if k in m {
      RealTotalWithout(m, k);
      assert m[k := v] - {k} == m - {k};
    } else {
      assert m[k := v] - {k} == m;
    }
  }

  lemma {:induction false} RealTotalBounds<K>(m: map<K, real>)
    requires forall k :: k in m ==> m[k] >= 0.0
    ensures RealTotal(m) >= 0.0
    ensures forall k :: k in m ==> m[k] <= RealTotal(m)
    decreases |m|
  {
    if m != map[] {
      var j :| j in m;
      var rest := m - {j};
      RealTotalBounds(rest);
      RealTotalWithout(m, j);
      assert forall k :: k in m && k != j ==> k in rest && rest[k] == m[k];
    }
  }
}
