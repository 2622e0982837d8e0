/** Sizes of finite sets, and sequences of sets that grow inside a finite one. */
module Sets {

  lemma {:induction false} SubsetSize<T>(a: set<T>, b: set<T>)
    requires a <= b
    ensures |a| <= |b|
  {
    if a != {} {
      var x :| x in a;
      SubsetSize(a - {x}, b - {x});
    }
  }

  lemma SmallerSet<T>(a: set<T>, b: set<T>)
    requires a < b
    ensures |a| < |b|
  {
    assert b == a + (b - a);
    var x :| x in b - a;
    SubsetSize(a, b - {x});
  }

  lemma SubsetOfSameSize<T>(a: set<T>, b: set<T>)
    requires a <= b && |a| == |b|
    ensures a == b
  {
    if a != b {
      SmallerSet(a, b);
    }
  }

  lemma {:induction false} PairsSize<T, U>(a: set<T>, b: set<U>)
    ensures |Pairs(a, b)| == |a| * |b|
  {
    if a != {} {
      var x :| x in a;
      var row, rest := Pairs({x}, b), Pairs(a - {x}, b);
      PairsSize(a - {x}, b);
      RowSize(x, b);
      assert Pairs(a, b) == row + rest && row !! rest;
      assert |a| * |b| == |b| + (|a| - 1) * |b|;
    }
  }

  lemma {:induction false} RowSize<T, U>(x: T, b: set<U>)
    ensures |Pairs({x}, b)| == |b|
  {
    if b != {} {
      var y :| y in b;
      RowSize(x, b - {y});
      assert Pairs({x}, b) == {(x, y)} + Pairs({x}, b - {y});
    }
  }

  ghost function Pairs<T, U>(a: set<T>, b: set<U>): set<(T, U)> {
    set x <- a, y <- b :: (x, y)
  }

  /** Sets that grow inside all, and stop growing for good once they stop. */
  ghost predicate Grows<T>(s: nat -> set<T>, all: set<T>) {
    forall k: nat :: GrowsAt(s, all, k)
  }

  ghost predicate GrowsAt<T>(s: nat -> set<T>, all: set<T>, k: nat) {
    s(k) <= s(k + 1) <= all && (s(k) == s(k + 1) ==> s(k + 1) == s(k + 2))
  }

  lemma {:induction false} GrownOrStopped<T>(s: nat -> set<T>, all: set<T>, k: nat)
    requires Grows(s, all)
    ensures |s(k)| >= k || s(k) == s(k + 1)
  {
    if k > 0 {
      GrownOrStopped(s, all, k - 1);
      assert GrowsAt(s, all, k - 1);
      if s(k - 1) != s(k) {
        SmallerSet(s(k - 1), s(k));
      }
    }
  }

  lemma {:induction false} Stopped<T>(s: nat -> set<T>, all: set<T>, k: nat, j: nat)
    requires Grows(s, all) && s(k) == s(k + 1) && k <= j
    ensures s(j) == s(k) == s(j + 1)
    decreases j
  {
    if k < j {
      Stopped(s, all, k, j - 1);
      assert GrowsAt(s, all, j - 1);
    }
  }

  /** They have everything they ever get after as many rounds as all has members. */
  lemma Settled<T>(s: nat -> set<T>, all: set<T>, j: nat)
    requires Grows(s, all)
    ensures s(j) <= s(|all|)
  {
    var n := |all|;
    GrownOrStopped(s, all, n);
    assert GrowsAt(s, all, n);
    if s(n) != s(n + 1) {
      SmallerSet(s(n), s(n + 1));
      SubsetSize(s(n + 1), all);
    }
    if n <= j {
      Stopped(s, all, n, j);
    } else {
      UpTo(s, all, j, n);
    }
  }

  lemma {:induction false} UpTo<T>(s: nat -> set<T>, all: set<T>, j: nat, n: nat)
    requires Grows(s, all) && j <= n
    ensures s(j) <= s(n)
    decreases n
  {
    if j < n {
      UpTo(s, all, j, n - 1);
      assert GrowsAt(s, all, n - 1);
    }
  }

  /** More members than a set has cannot be pairwise distinct. */
  lemma {:induction false} Repeats<T>(s: seq<T>, all: set<T>) returns (i: nat, j: nat)
    requires |s| > |all| && forall x <- s :: x in all
    ensures i < j < |s| && s[i] == s[j]
  {
    var k := |s| - 1;
    if m :| 0 <= m < k && s[m] == s[k] {
      i, j := m, k;
    } else {
      i, j := Repeats(s[..k], all - {s[k]});
    }
  }

  ghost function Pick<T>(s: set<T>): (x: T)
    requires s != {}
    ensures x in s
  {
    var x :| x in s;
    x
  }

  /** The maps from some of dom into ran. */
  ghost function Maps<T, U>(dom: set<T>, ran: set<U>): set<map<T, U>> {
    if dom == {} then {map[]} else
      var rest := Maps(dom - {Pick(dom)}, ran);
      rest + set m <- rest, v <- ran :: m[Pick(dom) := v]
  }

  lemma {:induction false} AllMaps<T, U>(dom: set<T>, ran: set<U>, m: map<T, U>)
    requires m.Keys <= dom && m.Values <= ran
    ensures m in Maps(dom, ran)
    decreases dom
  {
    if dom == {} {
      assert m == map[];
    } else {
      var x := Pick(dom);
      var m' := m - {x};
      assert m'.Values <= m.Values;
      AllMaps(dom - {x}, ran, m');
      if x in m {
        assert m[x] in m.Values && m == m'[x := m[x]];
      } else {
        assert m == m';
      }
    }
  }
}
