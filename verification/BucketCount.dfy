/** The number of buckets for a hash table (fslow_QueryOptimalBucketCount.cpp): a number without small prime factors. */
module BucketCount {
  import opened Words

  const CANDIDATES := 100

  predicate NoSmallFactor(c: int) {
    c % 2 != 0 && c % 3 != 0 && c % 5 != 0 && c % 7 != 0 && c % 11 != 0 && c % 13 != 0 && c % 17 != 0
  }

  predicate Divides(d: int, c: int)
    requires d > 0
  {
    c % d == 0
  }

  /** Without these prime factors a number has no divisor at all from 2 to 18. */
  lemma NoSmallDivisor(c: int)
    ensures NoSmallFactor(c) <==> forall d :: 2 <= d <= 18 ==> !Divides(d, c)
  {
    assert Divides(2, c) <==> c % 2 == 0;
    assert Divides(3, c) <==> c % 3 == 0;
    assert Divides(5, c) <==> c % 5 == 0;
    assert Divides(7, c) <==> c % 7 == 0;
    assert Divides(11, c) <==> c % 11 == 0;
    assert Divides(13, c) <==> c % 13 == 0;
    assert Divides(17, c) <==> c % 17 == 0;
    if NoSmallFactor(c) {
      forall d | 2 <= d <= 18
        ensures !Divides(d, c)
      {
        var p := if d % 2 == 0 then 2 else if d % 3 == 0 then 3 else if d % 5 == 0 then 5 else d;
        FactorDivides(p, d / p, c);
      }
    }
  }

  lemma FactorDivides(p: int, q: int, c: int)
    requires p > 0 && q > 0
    ensures p * q > 0 && (Divides(p * q, c) ==> Divides(p, c))
  {
    if Divides(p * q, c) {
      var k := c / (p * q);
      assert c == p * (q * k);
      Remains(p, q * k);
    }
  }

  lemma Remains(p: int, k: int)
    requires p > 0
    ensures p * k % p == 0
  {
    Floor(p * k, p, k, 0);
  }

  function Candidate(countEntries: U32, i: nat): U32 {
    Low32(countEntries + i)
  }

  // ---- counting multiples among odd numbers ----

  predicate Hit(first: int, p: int, k: nat)
    requires p > 0
  {
    (first + 2 * k) % p == 0
  }

  /** How many of the `n` numbers first, first + 2, first + 4, ... are multiples of `p`. */
  function Hits(first: int, p: int, n: nat): nat
    requires p > 0
  {
    if n == 0 then 0 else Hits(first, p, n - 1) + if Hit(first, p, n - 1) then 1 else 0
  }

  function LastHit(first: int, p: int, n: nat): (k: int)
    requires p > 0
    ensures k == -1 || (0 <= k < n && Hit(first, p, k))
    ensures k == -1 <==> Hits(first, p, n) == 0
  {
    if n == 0 then -1 else if Hit(first, p, n - 1) then n - 1 else LastHit(first, p, n - 1)
  }

  lemma HitsAreApart(first: int, p: int, k: nat, l: nat)
    requires p > 0 && p % 2 == 1 && k < l && Hit(first, p, k) && Hit(first, p, l)
    ensures l - k >= p
  {
    var a, b := (first + 2 * k) / p, (first + 2 * l) / p;
    assert first + 2 * k == p * a && first + 2 * l == p * b;
    assert 2 * (l - k) == p * (b - a);
    EvenMultiple(p, p / 2, b - a, l - k);
  }

  /** Twice a number is an odd number's multiple only if it is an even one. */
  lemma EvenMultiple(p: int, h: int, d: int, m: int)
    requires p == 2 * h + 1 && p > 0 && m > 0 && 2 * m == p * d
    ensures m >= p
  {
    assert p * d == 2 * (h * d) + d;
    var e := m - h * d;
    assert d == 2 * e && p * d == 2 * (p * e);
    AtLeastOnce(p, e);
  }

  lemma {:induction false} HitsBounded(first: int, p: int, n: nat)
    requires p > 0 && p % 2 == 1
    ensures Hits(first, p, n) > 0 ==> (Hits(first, p, n) - 1) * p <= LastHit(first, p, n)
  {
    if n > 0 {
      HitsBounded(first, p, n - 1);
      if Hit(first, p, n - 1) && Hits(first, p, n - 1) > 0 {
        HitsAreApart(first, p, LastHit(first, p, n - 1), n - 1);
        var h := Hits(first, p, n - 1);
        assert (h - 1) * p + p == h * p;
      }
    }
  }

  function AllHits(first: int, n: nat): nat {
    Hits(first, 3, n) + Hits(first, 5, n) + Hits(first, 7, n) + Hits(first, 11, n) + Hits(first, 13, n)
    + Hits(first, 17, n)
  }

  lemma SomeHit(first: int, k: nat)
    requires first % 2 == 1 && !NoSmallFactor(first + 2 * k)
    ensures Hit(first, 3, k) || Hit(first, 5, k) || Hit(first, 7, k) || Hit(first, 11, k) || Hit(first, 13, k)
            || Hit(first, 17, k)
  {
    assert first + 2 * k == 2 * (first / 2 + k) + 1;
  }

  /** When all numbers have a small factor, the multiples are at least as many. */
  lemma {:induction false} AllAreHit(first: int, n: nat)
    requires first % 2 == 1 && forall k :: 0 <= k < n ==> !NoSmallFactor(first + 2 * k)
    ensures n <= AllHits(first, n)
  {
    hide NoSmallFactor, Hit;
    if n > 0 {
      AllAreHit(first, n - 1);
      SomeHit(first, n - 1);
    }
  }

  lemma FewHits(first: int, p: int, q: nat)
    requires p > 0 && p % 2 == 1 && 49 < q * p
    ensures Hits(first, p, 50) <= q
  {
    hide Hits, LastHit, Hit;
    HitsBounded(first, p, 50);
    var h := Hits(first, p, 50) - 1;
    SmallerFactor(h, q, p);
  }

  lemma SmallerFactor(h: int, q: int, p: int)
    requires p > 0 && h * p < q * p
    ensures h < q
  {
  }

  /** Of 50 odd numbers in a row at least three have no small factor, for the multiples are at most 47. */
  lemma FewMultiples(first: int)
    ensures AllHits(first, 50) <= 47
  {
    hide Hits;
    FewHits(first, 3, 17);
    FewHits(first, 5, 10);
    FewHits(first, 7, 8);
    FewHits(first, 11, 5);
    FewHits(first, 13, 4);
    FewHits(first, 17, 3);
  }

  lemma SomeCandidateFits(first: int) returns (i: nat)
    ensures i < CANDIDATES && NoSmallFactor(first + i)
  {
    hide NoSmallFactor, AllHits;
    var odd := if first % 2 == 1 then first else first + 1;
    FewMultiples(odd);
    if forall k :: 0 <= k < 50 ==> !NoSmallFactor(odd + 2 * k) {
      AllAreHit(odd, 50);
      assert false;
    }
    var k :| 0 <= k < 50 && NoSmallFactor(odd + 2 * k);
    i := odd + 2 * k - first;
  }

  /** Near the end of the numbers of 32 bits the search goes on from 0, and finds 1 at the latest. */
  lemma SomeCandidateIsFound(countEntries: U32) returns (i: nat)
    ensures i < CANDIDATES && NoSmallFactor(Candidate(countEntries, i))
  {
    if countEntries <= TWO32 - CANDIDATES {
      i := SomeCandidateFits(countEntries);
    } else if countEntries == TWO32 - 99 {
      i := 94;
      assert Candidate(countEntries, i) == 4294967291;
    } else {
      i := TWO32 + 1 - countEntries;
      assert Candidate(countEntries, i) == 1;
    }
  }

  /** The first candidate without small factors; one is found for every count, so the last line is not reached. */
  method QueryOptimalBucketCount(countEntries: U32) returns (count: U32)
    ensures countEntries <= 3 ==> count == 3
    ensures 3 < countEntries <= 19 ==> count % 2 == 1 && countEntries <= count <= countEntries + 1
    ensures 19 < countEntries ==>
              exists i :: 0 <= i < CANDIDATES && count == Candidate(countEntries, i) && NoSmallFactor(count)
                          && forall j :: 0 <= j < i ==> !NoSmallFactor(Candidate(countEntries, j))
    ensures 19 < countEntries <= TWO32 - CANDIDATES ==>
              && (forall d :: 2 <= d <= 18 ==> !Divides(d, count)) && countEntries <= count < countEntries + CANDIDATES
              && forall c :: countEntries <= c < count ==> !NoSmallFactor(c)
  {
    if countEntries <= 3 {
      return 3;
    }
    if countEntries <= 19 {
      return countEntries + 1 - countEntries % 2;
    }
    hide NoSmallFactor, Candidate;
    ghost var found := SomeCandidateIsFound(countEntries);
    var i := 0;
    while i < CANDIDATES
      invariant 0 <= i <= found && forall j :: 0 <= j < i ==> !NoSmallFactor(Candidate(countEntries, j))
    {
      var candidate := Candidate(countEntries, i);
      if NoSmallFactor(candidate) {
        NoSmallDivisor(candidate);
        if countEntries <= TWO32 - CANDIDATES {
          CandidatesInARow(countEntries, i);
        }
        return candidate;
      }
      i := i + 1;
    }
    // The search has ended before: `countEntries | 1` is never given back here.
    assert false;
  }

  lemma CandidatesInARow(countEntries: U32, i: nat)
    requires countEntries <= TWO32 - CANDIDATES && i < CANDIDATES
    ensures Candidate(countEntries, i) == countEntries + i
    ensures (forall j :: 0 <= j < i ==> !NoSmallFactor(Candidate(countEntries, j)))
            ==> forall c :: countEntries <= c < countEntries + i ==> !NoSmallFactor(c)
  {
    hide NoSmallFactor;
    if forall j :: 0 <= j < i ==> !NoSmallFactor(Candidate(countEntries, j)) {
      forall c | countEntries <= c < countEntries + i
        ensures !NoSmallFactor(c)
      {
        assert Candidate(countEntries, c - countEntries) == c;
      }
    }
  }
}
