/** Small vocabulary shared by every component: optional values, saturating
    subtraction, and the ascending enumeration of a finite set of integers. */
module Collections {
  datatype Option<+T> = None | Some(value: T)

  datatype Result<+T, +E> = Ok(value: T) | Err(error: E)

  /** `u64::saturating_sub`. */
  function SatSub(a: nat, b: nat): nat {
    if a <= b then 0 else a - b
  }

  /** Integer division, counted out so that proofs about it stay linear. */
  ghost function Quotient(a: nat, b: nat): nat
    requires b > 0
  {
    if a < b then 0 else 1 + Quotient(a - b, b)
  }

  /** The remainder, counted out likewise. */
  ghost function Remainder(a: nat, b: nat): (r: nat)
    requires b > 0
    ensures r < b
  {
    if a < b then a else Remainder(a - b, b)
  }

  lemma {:induction false} QuotientIsDivision(a: nat, b: nat)
    requires b > 0
    ensures Quotient(a, b) == a / b && Remainder(a, b) == a % b
  {
    var q, r := QuotientRemainder(a, b);
    DivisionUnique(q, r, b, a / b, a % b);
  }

  lemma {:induction false} QuotientRemainder(a: nat, b: nat) returns (q: nat, r: nat)
    requires b > 0
    ensures q == Quotient(a, b) && r == Remainder(a, b) && r < b && a == b * q + r
  {
    if a < b {
      q, r := 0, a;
    } else {
      q, r := QuotientRemainder(a - b, b);
      q := q + 1;
    }
  }

  lemma DivisionUnique(q: nat, r: nat, b: nat, q': nat, r': nat)
    requires r < b && r' < b && b * q + r == b * q' + r'
    ensures q == q'
  {
    assert b * (q - q') == r' - r;
    if q > q' {
      ProductAtLeast(b, q - q');
    } else if q' > q {
      assert b * (q' - q) == r - r';
      ProductAtLeast(b, q' - q);
    }
  }

  lemma ProductAtLeast(b: nat, k: nat)
    requires k > 0
    ensures b * k >= b
  {
    assert b * k == b + b * (k - 1);
  }

  lemma {:induction false} QuotientMonotone(a: nat, b: nat, d: nat)
    requires a <= b && d > 0
    ensures Quotient(a, d) <= Quotient(b, d) <= b
    decreases b
  {
    if b >= d {
      QuotientMonotone(if a < d then 0 else a - d, b - d, d);
    }
  }

  ghost function Times(n: nat, q: nat): nat {
    if n == 0 then 0 else q + Times(n - 1, q)
  }

  lemma {:induction false} TimesIsProduct(n: nat, q: nat)
    ensures Times(n, q) == n * q
  {
    if n > 0 {
      TimesIsProduct(n - 1, q);
    }
  }

  lemma {:induction false} TimesSuccessor(n: nat, q: nat)
    ensures Times(n, q + 1) == n + Times(n, q)
  {
    if n > 0 {
      TimesSuccessor(n - 1, q);
    }
  }

  lemma {:induction false} TimesZero(n: nat)
    ensures Times(n, 0) == 0
  {
    if n > 0 {
      TimesZero(n - 1);
    }
  }

  /** `n` equal shares of `total` do not exceed it. */
  lemma {:induction false} SharesFit(n: nat, total: nat)
    requires n > 0
    ensures Times(n, Quotient(total, n)) <= total
    decreases total
  {
    if total < n {
      TimesZero(n);
    } else {
      SharesFit(n, total - n);
      TimesSuccessor(n, Quotient(total - n, n));
    }
  }

  function Max(a: int, b: int): int {
    if a < b then b else a
  }

  function Min(a: int, b: int): int {
    if a < b then a else b
  }

  ghost predicate StrictlyIncreasing(s: seq<int>) {
    forall i, j | 0 <= i < j < |s| :: s[i] < s[j]
  }

  lemma Associative<T>(a: seq<T>, b: seq<T>, c: seq<T>)
    ensures a + b + c == a + (b + c)
  {}

  lemma Cancel<T>(a: multiset<T>, b: multiset<T>, c: multiset<T>, d: multiset<T>)
    requires a + b == a + c + d
    ensures b == c + d
  {
    assert b == a + b - a && c + d == a + c + d - a;
  }

  lemma RemoveOneMore<T>(m: multiset<T>, taken: seq<T>, x: T)
    ensures m - multiset(taken) - multiset{x} == m - multiset(taken + [x])
  {}

  lemma SplitAt<T>(s: seq<T>, k: nat)
    requires k <= |s|
    ensures s[..k] + s[k..] == s && multiset(s[..k]) + multiset(s[k..]) == multiset(s)
  {
    assert s[..k] + s[k..] == s;
  }

  lemma InitLast<T>(s: seq<T>)
    requires s != []
    ensures s[..|s| - 1] + [s[|s| - 1]] == s
    ensures multiset(s[..|s| - 1]) + multiset{s[|s| - 1]} == multiset(s)
  {
    SplitAt(s, |s| - 1);
    assert s[|s| - 1..] == [s[|s| - 1]];
  }

  lemma Pick<T>(s: set<T>) returns (y: T)
    requires s != {}
    ensures y in s
  {
    y :| y in s;
  }

  lemma SubsetSize<T>(a: set<T>, b: set<T>)
    requires a <= b
    ensures |a| <= |b|
  {
    assert b == a + (b - a);
  }

  /** A listing of a set without repetition is as long as the set is large. */
  lemma {:induction false} DistinctSize<T>(s: seq<T>, elements: set<T>)
    requires forall x :: x in elements <==> x in s
    requires forall i, j | 0 <= i < j < |s| :: s[i] != s[j]
    ensures |s| == |elements|
  {
    if s == [] {
      assert elements == {};
    } else {
      var init, x := s[..|s| - 1], s[|s| - 1];
      assert s == init + [x];
      DistinctSize(init, elements - {x});
    }
  }

  lemma {:induction false} MinExists(s: set<int>) returns (m: int)
    requires s != {}
    ensures m in s && forall x | x in s :: m <= x
    decreases |s|
  {
    var y := Pick(s);
    var rest := s - {y};
    forall x | x in s ensures x == y || x in rest {}
    m := y;
    if rest != {} {
      var z := MinExists(rest);
      m := Min(y, z);
    }
  }

  function MinOf(s: set<int>): (m: int)
    requires s != {}
    ensures m in s && forall x | x in s :: m <= x
  {
    assert exists m :: m in s && forall x | x in s :: m <= x by {
      var k := MinExists(s);
    }
    var m :| m in s && forall x | x in s :: m <= x;
    m
  }

  lemma PutLeastFirst(m: int, rest: seq<int>, s: set<int>)
    requires m in s && (forall x | x in s :: m <= x) && |rest| == |s - {m}|
    requires (forall x :: x in rest <==> x in s - {m}) && StrictlyIncreasing(rest)
    ensures StrictlyIncreasing([m] + rest) && |[m] + rest| == |s|
    ensures forall x :: x in [m] + rest <==> x in s
  {
    forall i | 0 <= i < |rest| ensures m < rest[i] {
      assert rest[i] in rest;
    }
  }

  /** The elements of `s` in ascending order: iteration order of a `BTreeSet`. */
  function SortedSeq(s: set<int>): seq<int>
    decreases |s|
  {
    if s == {} then [] else [MinOf(s)] + SortedSeq(s - {MinOf(s)})
  }

  lemma {:induction false} SortedSeqLists(s: set<int>)
    ensures StrictlyIncreasing(SortedSeq(s)) && |SortedSeq(s)| == |s|
    ensures forall x :: x in SortedSeq(s) <==> x in s
    decreases |s|
  {
    if s != {} {
      var m := MinOf(s);
      SortedSeqLists(s - {m});
      PutLeastFirst(m, SortedSeq(s - {m}), s);
    }
  }

  /** A strictly increasing sequence is determined by its elements. */
  lemma {:induction false} IncreasingUnique(a: seq<int>, b: seq<int>)
    requires StrictlyIncreasing(a) && StrictlyIncreasing(b)
    requires forall x :: x in a <==> x in b
    ensures a == b
  {
    var y := if b == [] then 0 else b[0];
    assert b != [] ==> y in b;
    if a == [] {
    } else {
      var x := a[0];
      assert x in a;
      assert x in b;
      assert y in a;
      assert x == y;
      forall x ensures x in a[1..] <==> x in b[1..] {
        if x in a[1..] { assert x in b; assert x != a[0]; }
        if x in b[1..] { assert x in a; assert x != b[0]; }
      }
      IncreasingUnique(a[1..], b[1..]);
    }
  }
}
