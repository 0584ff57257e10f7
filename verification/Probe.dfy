/** The probe sequence over groups: steps of one, two, three and so on, wrapped to the group count.
    A mask of one less than a power of two is written as a remainder. */
module Probe {

  function Pow2(k: nat): (p: nat)
    ensures p >= 1
  {
    if k == 0 then 1 else 2 * Pow2(k - 1)
  }

  ghost predicate IsPow2(n: nat)
  {
    exists k: nat :: Pow2(k) == n
  }

  /** The j-th triangular number. */
  function Triangle(j: nat): nat
  {
    if j == 0 then 0 else Triangle(j - 1) + j
  }

  /** The group the `j`-th probe of `hash` looks at, out of `groups`. */
  function GroupAt(hash: nat, j: nat, groups: nat): (g: nat)
    requires groups > 0
    ensures g < groups
  {
    (hash + Triangle(j)) % groups
  }

  /** One turn of the probe loop moves from one member of the sequence to the next. */
  lemma NextGroup(hash: nat, j: nat, groups: nat)
    requires groups > 0
    ensures (GroupAt(hash, j, groups) + (j + 1)) % groups == GroupAt(hash, j + 1, groups)
    ensures GroupAt(hash, 0, groups) == hash % groups
  {
    ModPlus(hash + Triangle(j), j + 1, groups);
  }

  lemma ModPlus(a: nat, b: nat, n: nat)
    requires n > 0
    ensures (a % n + b) % n == (a + b) % n
  {
    var q := a / n;
    assert a == n * q + a % n;
    ModShift(a % n + b, q, n);
  }

  lemma {:induction false} ModShift(a: nat, q: nat, n: nat)
    requires n > 0
    ensures (a + n * q) % n == a % n
  {
    if q > 0 {
      ModShift(a, q - 1, n);
      assert a + n * q == (a + n * (q - 1)) + n;
      ModOnce(a + n * (q - 1), n);
    }
  }

  lemma ModOnce(a: nat, n: nat)
    requires n > 0
    ensures (a + n) % n == a % n
  {
    var q, r := a / n, a % n;
    assert a + n == n * (q + 1) + r;
    Remainder(a + n, n, q + 1, r);
  }

  lemma Remainder(a: nat, n: nat, q: nat, r: nat)
    requires n > 0 && r < n && a == n * q + r
    ensures a % n == r && a / n == q
  {
    var p := a / n;
    assert a == n * p + a % n;
    Scale(n, q + 1, p);
    Scale(n, p + 1, q);
    assert n * (q + 1) == n * q + n && n * (p + 1) == n * p + n;
  }

  /** Wrapping at a multiple of the modulus changes no remainder. */
  lemma WrapIsHarmless(n: nat, wrap: nat, size: nat, times: nat)
    requires 0 < size && 0 < wrap == size * times
    ensures (n % wrap) % size == n % size
  {
    var q, r := n / wrap, n % wrap;
    assert n == r + size * (times * q) by {
      assert n == wrap * q + r;
      assert wrap * q == size * (times * q);
    }
    ModShift(r, times * q, size);
  }

  /** Numbers nearer than the modulus have different remainders. */
  lemma RemaindersDiffer(i: nat, j: nat, size: nat)
    requires 0 < size && i < j < i + size
    ensures i % size != j % size
  {
    var q, at, d := i / size, i % size, j - i;
    assert i == size * q + at;
    if at + d < size {
      Remainder(j, size, q, at + d);
    } else {
      assert size * (q + 1) == size * q + size;
      Remainder(j, size, q + 1, at + d - size);
    }
  }

  /** Among any `size` numbers in a row one has a given remainder. */
  lemma RemainderReached(from: nat, size: nat, r: nat) returns (k: nat)
    requires r < size
    ensures k < size && (from + k) % size == r
  {
    var at := from % size;
    k := if r >= at then r - at else r + size - at;
    ModPlus(from, k, size);
    ModOnce(r, size);
    Remainder(r, size, 0, r);
  }

  lemma Scale(n: nat, a: int, b: int)
    ensures a <= b ==> n * a <= n * b
  {
    if a <= b {
      assert n * b == n * a + n * (b - a);
    }
  }

  // ---------------------------------------------------------------------------------------------
  // Over a power of two the sequence visits every group exactly once
  // ---------------------------------------------------------------------------------------------

  /** A product, named so that a proof can hide what it is. */
  ghost function Times(a: int, b: int): int
  {
    a * b
  }

  lemma {:induction false} TwiceTriangle(j: nat)
    ensures 2 * Triangle(j) == Times(j, j + 1)
  {
    if j > 0 {
      TwiceTriangle(j - 1);
    }
  }

  /** A power of two that divides a product with an odd factor divides the other factor. */
  lemma {:induction false} OddCancels(k: nat, a: nat, b: nat, q: nat) returns (c: nat)
    requires a % 2 == 1 && a * b == Pow2(k) * q
    ensures b == Pow2(k) * c
  {
    if k == 0 {
      c := b;
    } else {
      EvenFactor(a, b, Pow2(k - 1) * q);
      var half := b / 2;
      assert 2 * (a * half) == a * b == 2 * (Pow2(k - 1) * q);
      c := OddCancels(k - 1, a, half, q);
    }
  }

  lemma EvenFactor(a: nat, b: nat, m: nat)
    requires a % 2 == 1 && a * b == 2 * m
    ensures b % 2 == 0
  {
    var x := a / 2;
    Regroup(x, b);
    assert b == 2 * (m - x * b);
  }

  lemma Regroup(x: nat, b: nat)
    ensures (2 * x + 1) * b == 2 * (x * b) + b
  {
  }

  lemma ProductOfGap(i: nat, j: nat)
    requires i < j
    ensures Times(j - i, j + i + 1) == Times(j, j + 1) - Times(i, i + 1)
    ensures Times(j - i, j + i + 1) > 0
  {
  }

  lemma PowPositive(k: nat)
    ensures Pow2(k) > 0
  {
  }

  lemma SameGroup(hash: nat, i: nat, j: nat, n: nat) returns (d: int)
    requires n > 0 && GroupAt(hash, i, n) == GroupAt(hash, j, n)
    ensures Triangle(j) - Triangle(i) == Times(n, d)
  {
    hide Triangle;
    var x, y := hash + Triangle(i), hash + Triangle(j);
    d := y / n - x / n;
  }

  /** Two different probes within one round land on different groups. */
  lemma GroupsDiffer(hash: nat, i: nat, j: nat, k: nat)
    requires i < j < Pow2(k)
    ensures GroupAt(hash, i, Pow2(k)) != GroupAt(hash, j, Pow2(k))
  {
    PowPositive(k);
    hide Pow2, Triangle, Times, GroupAt;
    if GroupAt(hash, i, Pow2(k)) == GroupAt(hash, j, Pow2(k)) {
      var d := SameGroup(hash, i, j, Pow2(k));
      TwiceTriangle(i);
      TwiceTriangle(j);
      Doubled(k, d);
      ProductOfGap(i, j);
      PositiveFactor(Pow2(k), d);
      NoLargeFactor(k + 1, j - i, j + i + 1, d);
    }
  }

  lemma Doubled(k: nat, d: int)
    ensures Pow2(k + 1) == 2 * Pow2(k) && 2 * Times(Pow2(k), d) == Times(Pow2(k + 1), d)
  {
  }

  lemma PositiveFactor(n: nat, d: int)
    ensures Times(n, d) > 0 ==> d > 0
  {
    Scale(n, d, 0);
  }

  /** Two positive factors of opposite parity, both under 2^k, do not multiply to a multiple of 2^k. */
  lemma NoLargeFactor(k: nat, a: nat, b: nat, q: nat)
    requires 0 < a < Pow2(k) && 0 < b < Pow2(k) && (a + b) % 2 == 1
    ensures Times(a, b) != Times(Pow2(k), q)
  {
    hide Times, Pow2;
    Commute(a, b);
    if a % 2 == 1 {
      OddIsNoFactor(k, a, b, q);
    } else {
      OddIsNoFactor(k, b, a, q);
    }
  }

  lemma OddIsNoFactor(k: nat, a: nat, b: nat, q: nat)
    requires a % 2 == 1 && 0 < b < Pow2(k)
    ensures Times(a, b) != Times(Pow2(k), q)
  {
    if a * b == Pow2(k) * q {
      var c := OddCancels(k, a, b, q);
      hide Pow2;
      NotBelow(Pow2(k), c, b);
    }
  }

  lemma Commute(a: nat, b: nat)
    ensures Times(a, b) == Times(b, a)
  {
  }

  lemma NotBelow(n: nat, c: nat, b: nat)
    requires b == n * c
    ensures b == 0 || n <= b
  {
    Scale(n, 1, c);
  }

  ghost function Visited(hash: nat, n: nat, groups: nat): set<nat>
    requires groups > 0
  {
    if n == 0 then {} else Visited(hash, n - 1, groups) + {GroupAt(hash, n - 1, groups)}
  }

  lemma {:induction false} VisitedIs(hash: nat, n: nat, groups: nat, g: nat)
    requires groups > 0
    ensures g in Visited(hash, n, groups) <==> exists j: nat :: j < n && GroupAt(hash, j, groups) == g
  {
    if n > 0 {
      VisitedIs(hash, n - 1, groups, g);
    }
  }

  lemma GroupBound(hash: nat, n: nat, groups: nat)
    requires groups > 0
    ensures n > 0 ==> GroupAt(hash, n - 1, groups) < groups
  {
  }

  lemma {:induction false} VisitedSize(hash: nat, n: nat, k: nat)
    requires n <= Pow2(k)
    ensures |Visited(hash, n, Pow2(k))| == n
    ensures forall g :: g in Visited(hash, n, Pow2(k)) ==> g < Pow2(k)
  {
    PowPositive(k);
    GroupBound(hash, n, Pow2(k));
    hide Pow2, GroupAt;
    if n > 0 {
      VisitedSize(hash, n - 1, k);
      var g := GroupAt(hash, n - 1, Pow2(k));
      VisitedIs(hash, n - 1, Pow2(k), g);
      if g in Visited(hash, n - 1, Pow2(k)) {
        var j: nat :| j < n - 1 && GroupAt(hash, j, Pow2(k)) == g;
        GroupsDiffer(hash, j, n - 1, k);
      }
    }
  }

  ghost function Upto(n: nat): (s: set<nat>)
    ensures |s| == n && forall x: nat :: x in s <==> x < n
  {
    if n == 0 then {} else Upto(n - 1) + {n - 1}
  }

  lemma SameSize(a: set<nat>, b: set<nat>)
    requires a <= b && |a| == |b|
    ensures a == b
  {
    assert |b - a| == |b| - |a|;
  }

  /** Within one round every group is looked at, and only once. */
  lemma EveryGroupOnce(hash: nat, groups: nat, g: nat) returns (j: nat)
    requires IsPow2(groups) && g < groups
    ensures j < groups && GroupAt(hash, j, groups) == g
    ensures forall i: nat :: i < groups && GroupAt(hash, i, groups) == g ==> i == j
  {
    var k: nat :| Pow2(k) == groups;
    VisitedSize(hash, groups, k);
    SameSize(Visited(hash, groups, groups), Upto(groups));
    VisitedIs(hash, groups, groups, g);
    j :| j < groups && GroupAt(hash, j, groups) == g;
    forall i: nat | i < groups && GroupAt(hash, i, groups) == g
      ensures i == j
    {
      if i < j {
        GroupsDiffer(hash, i, j, k);
      } else if j < i {
        GroupsDiffer(hash, j, i, k);
      }
    }
  }

  /** The least power of two that is at least `n`, looking from `from` up. */
  function NextPow2(from: nat, n: nat): (p: nat)
    requires from > 0
    ensures p >= n && p >= from && (p == from || p < 2 * n)
    decreases if from < n then n - from else 0
  {
    if from >= n then from else NextPow2(2 * from, n)
  }

  lemma {:induction false} NextPow2IsPow2(from: nat, n: nat)
    requires from > 0 && IsPow2(from)
    ensures IsPow2(NextPow2(from, n))
    decreases if from < n then n - from else 0
  {
    if from < n {
      DoublePow2(from);
      NextPow2IsPow2(2 * from, n);
    }
  }

  lemma DoublePow2(n: nat)
    requires IsPow2(n)
    ensures IsPow2(2 * n)
  {
    var k: nat :| Pow2(k) == n;
    assert Pow2(k + 1) == 2 * n;
  }

  /** One power of two times another is the one their exponents add up to. */
  lemma {:induction false} PowersAdd(i: nat, j: nat)
    ensures Pow2(i) * Pow2(j) == Pow2(i + j)
  {
    if i > 0 {
      PowersAdd(i - 1, j);
      assert Pow2(i) * Pow2(j) == 2 * (Pow2(i - 1) * Pow2(j));
    }
  }

  lemma {:induction false} PowersClimb(i: nat, j: nat)
    requires i < j
    ensures Pow2(i) < Pow2(j)
  {
    if i + 1 < j {
      PowersClimb(i, j - 1);
    }
  }

  /** A power of two divides every one that is no smaller. */
  lemma PowerDivides(n: nat, m: nat) returns (times: nat)
    requires IsPow2(n) && n <= Pow2(m)
    ensures Pow2(m) == n * times
  {
    var k: nat :| Pow2(k) == n;
    if m < k {
      PowersClimb(m, k);
      assert false;
    }
    PowersAdd(k, m - k);
    times := Pow2(m - k);
  }
}
