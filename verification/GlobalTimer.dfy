/**
 Reading a running 64-bit counter through two 32-bit registers: high, low, high
 again, until the two high words agree.  `counter(i)` is the counter's value at the
 instant of the i-th register read; it never goes back and may advance by any
 amount between two reads.
 */
module GlobalTimer {
  import opened Bytes

  ghost predicate InOrder(counter: nat -> nat, i: nat, j: nat) {
    i <= j ==> counter(i) <= counter(j)
  }

  ghost predicate Running(counter: nat -> nat) {
    && (forall i: nat, j: nat :: InOrder(counter, i, j))
    && (forall i: nat :: counter(i) < TWO_TO_64)
  }

  /** The attempt that reads at p, p+1 and p+2 sees the same high word twice. */
  predicate Agrees(counter: nat -> nat, p: nat) {
    High(counter(p)) == High(counter(p + 2))
  }

  /** When the high words agree, no carry can have happened around the low read. */
  lemma AgreeingAttemptIsExact(counter: nat -> nat, p: nat)
    requires Running(counter) && Agrees(counter, p)
    ensures High(counter(p)) * TWO_TO_32 + Low(counter(p + 1)) == counter(p + 1)
  {
    assert InOrder(counter, p, p + 1) && InOrder(counter, p + 1, p + 2);
  }

  /** Returns the counter's value at its last low read; every earlier attempt saw the high word change. */
  method Now(counter: nat -> nat, start: nat) returns (ticks: nat, retries: nat)
    requires Running(counter)
    ensures ticks == counter(start + 3 * retries + 1)
    ensures Agrees(counter, start + 3 * retries)
    ensures forall k: nat :: k < retries ==> !Agrees(counter, start + 3 * k)
  {
    retries := 0;
    var p := start;
    var high := High(counter(p));
    var low := Low(counter(p + 1));
    while High(counter(p + 2)) != high
      invariant p == start + 3 * retries
      invariant high == High(counter(p)) && low == Low(counter(p + 1))
      invariant forall k: nat :: k < retries ==> !Agrees(counter, start + 3 * k)
      decreases TWO_TO_32 - high
    {
      HighWordGrows(counter, p);
      p, retries := p + 3, retries + 1;
      high := High(counter(p));
      low := Low(counter(p + 1));
    }
    AgreeingAttemptIsExact(counter, p);
    ticks := high * TWO_TO_32 + low;
  }

  lemma HighWordGrows(counter: nat -> nat, p: nat)
    requires Running(counter) && !Agrees(counter, p)
    ensures High(counter(p)) < High(counter(p + 3)) < TWO_TO_32
  {
    assert InOrder(counter, p, p + 2) && InOrder(counter, p + 2, p + 3);
  }

  /** Two calls, one after the other, never go back in time. */
  method NowTwice(counter: nat -> nat, start: nat) returns (first: nat, second: nat)
    requires Running(counter)
    ensures first <= second
    ensures exists i, j :: start < i < j && first == counter(i) && second == counter(j)
  {
    var r1, r2;
    first, r1 := Now(counter, start);
    var again := start + 3 * r1 + 3;
    second, r2 := Now(counter, again);
    assert InOrder(counter, start + 3 * r1 + 1, again + 3 * r2 + 1);
  }

  /** Two failed attempts in a row need more than 2^32 ticks. */
  lemma TwoFailuresSpanALap(counter: nat -> nat, p: nat)
    requires Running(counter) && !Agrees(counter, p) && !Agrees(counter, p + 3)
    ensures counter(p + 5) - counter(p) > TWO_TO_32
  {
    assert InOrder(counter, p, p + 2) && InOrder(counter, p + 2, p + 3) && InOrder(counter, p + 3, p + 5);
    assert High(counter(p)) < High(counter(p + 2)) <= High(counter(p + 3)) < High(counter(p + 5));
  }

  /** A caller whose first two attempts take at most 2^32 ticks retries at most once. */
  lemma RetriesAtMostOnce(counter: nat -> nat, start: nat, retries: nat)
    requires Running(counter) && counter(start + 5) <= counter(start) + TWO_TO_32
    requires forall k: nat :: k < retries ==> !Agrees(counter, start + 3 * k)
    ensures retries <= 1
  {
    if retries > 1 {
      assert !Agrees(counter, start + 3 * 0) && !Agrees(counter, start + 3 * 1);
      TwoFailuresSpanALap(counter, start);
      assert false;
    }
  }
}
