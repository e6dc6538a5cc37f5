/**
 * The bin counters of digest/logHistogram.go as values: 32-bit unsigned counters that
 * wrap on overflow, the counts a sequence of bin indices leaves behind, and the
 * element-wise sums a merge of several histograms produces.
 */
module Counters {

  /** Go's uint32 arithmetic is modulo 2^32. */
  const Modulus: int := 0x1_0000_0000

  newtype uint32 = x: int | 0 <= x < 0x1_0000_0000

  /** Go's `a + b` on two uint32 values: the sum, less 2^32 when it does not fit. */
  function WrapAdd(a: uint32, b: uint32): (r: uint32)
    ensures a as int + b as int < Modulus ==> r as int == a as int + b as int
    ensures Modulus <= a as int + b as int ==> r as int == a as int + b as int - Modulus
  {
    ((a as int + b as int) % Modulus) as uint32
  }

  lemma ModAddLeft(a: int, b: int)
    ensures (a % Modulus + b) % Modulus == (a + b) % Modulus
  {
    var q := a / Modulus;
    assert a == q * Modulus + a % Modulus;
  }

  /** Every bin index in `bins` names one of `n` counters. */
  predicate InRange(bins: seq<int>, n: int)
  {
    forall k :: 0 <= k < |bins| ==> 0 <= bins[k] < n
  }

  /** `n` counters, all zero: what `make([]uint32, n)` allocates. */
  function Zeros(n: nat): (r: seq<uint32>)
    ensures |r| == n
  {
    seq(n, _ => 0)
  }

  /** Counter `b` raised by one, modulo 2^32 (Go's `count[b]++`). */
  function Increment(c: seq<uint32>, b: int): seq<uint32>
    requires 0 <= b < |c|
  {
    c[b := WrapAdd(c[b], 1)]
  }

  /** Counter `b` rises by one modulo 2^32; no other counter changes. */
  lemma IncrementAt(c: seq<uint32>, b: int, i: int)
    requires 0 <= b < |c| && 0 <= i < |c|
    ensures |Increment(c, b)| == |c|
    ensures Increment(c, b)[i] as int == if i == b then (c[i] as int + 1) % Modulus else c[i] as int
  {
  }

  /** The counters `c` after incrementing the counter of each of `bins` in turn. */
  function Tally(c: seq<uint32>, bins: seq<int>): (r: seq<uint32>)
    requires InRange(bins, |c|)
    ensures |r| == |c|
    decreases |bins|
  {
    if bins == [] then c
    else Increment(Tally(c, bins[..|bins| - 1]), bins[|bins| - 1])
  }

  /**
   * Each counter ends up raised by the number of times its index occurs in `bins`,
   * modulo 2^32; the order of the increments does not matter.
   */
  lemma {:induction false} TallyCounts(c: seq<uint32>, bins: seq<int>, i: int)
    requires InRange(bins, |c|) && 0 <= i < |c|
    ensures Tally(c, bins)[i] as int == (c[i] as int + multiset(bins)[i]) % Modulus
    decreases |bins|
  {
    if bins != [] {
      var init, last := bins[..|bins| - 1], bins[|bins| - 1];
      assert InRange(init, |c|) by {
        assert forall k :: 0 <= k < |init| ==> init[k] == bins[k];
      }
      var prev := Tally(c, init);
      assert Tally(c, bins) == Increment(prev, last);
      TallyCounts(c, init, i);
      assert multiset(bins) == multiset(init) + multiset{last} by {
        assert bins == init + [last];
      }
      if last == i {
        ModAddLeft(c[i] as int + multiset(init)[i], 1);
      }
    }
  }

  /** Feeding the same bins in any order leaves the same counters. */
  lemma TallyOrderIrrelevant(c: seq<uint32>, a: seq<int>, b: seq<int>)
    requires InRange(a, |c|) && InRange(b, |c|) && multiset(a) == multiset(b)
    ensures Tally(c, a) == Tally(c, b)
  {
    forall i | 0 <= i < |c|
      ensures Tally(c, a)[i] == Tally(c, b)[i]
    {
      TallyCounts(c, a, i);
      TallyCounts(c, b, i);
    }
  }

  /** Element-wise uint32 sum of two counter slices of one length. */
  function AddCounts(a: seq<uint32>, b: seq<uint32>): (r: seq<uint32>)
    requires |a| == |b|
    ensures |r| == |a|
  {
    seq(|a|, i requires 0 <= i < |a| => WrapAdd(a[i], b[i]))
  }

  /** Each counter of the sum is the sum of the two counters, modulo 2^32. */
  lemma AddCountsAt(a: seq<uint32>, b: seq<uint32>, i: int)
    requires |a| == |b| && 0 <= i < |a|
    ensures AddCounts(a, b)[i] as int == (a[i] as int + b[i] as int) % Modulus
  {
  }

  /**
   * The counters merged into a histogram by one argument of a merge: the receiver's own
   * counters when the argument shares them, or a snapshot of another histogram's.
   */
  datatype Operand = Receiver | Counts(counts: seq<uint32>)

  /** Every operand that is not the receiver has `n` counters. */
  predicate Fits(ops: seq<Operand>, n: int)
  {
    forall k :: 0 <= k < |ops| && ops[k].Counts? ==> |ops[k].counts| == n
  }

  /** No operand shares the receiver's counters, and each has `n` of them. */
  predicate Separate(ops: seq<Operand>, n: int)
  {
    forall k :: 0 <= k < |ops| ==> ops[k].Counts? && |ops[k].counts| == n
  }

  /**
   * One pass of the merge's inner loop over `acc`.  Index i is read after the indices
   * below it have been written, so a receiver merged into itself sees its own counter
   * i unchanged and doubles it.
   */
  function MergeStep(acc: seq<uint32>, op: Operand): (r: seq<uint32>)
    requires op.Counts? ==> |op.counts| == |acc|
    ensures |r| == |acc|
  {
    match op
    case Receiver => AddCounts(acc, acc)
    case Counts(c) => AddCounts(acc, c)
  }

  /** Merging the receiver into itself doubles each counter, modulo 2^32. */
  lemma SelfMergeDoubles(acc: seq<uint32>, i: int)
    requires 0 <= i < |acc|
    ensures MergeStep(acc, Receiver)[i] as int == (2 * acc[i] as int) % Modulus
  {
    AddCountsAt(acc, acc, i);
  }

  /** The counters after merging every operand of `ops`, in order, into `acc`. */
  function MergeAll(acc: seq<uint32>, ops: seq<Operand>): (r: seq<uint32>)
    requires Fits(ops, |acc|)
    ensures |r| == |acc|
    decreases |ops|
  {
    if ops == [] then acc
    else MergeStep(MergeAll(acc, ops[..|ops| - 1]), ops[|ops| - 1])
  }

  /**
   * Once the receiver is among the arguments, the order matters: the receiver's
   * counters are read after the earlier arguments have been added to them.
   */
  lemma SelfMergeOrderMatters()
    ensures MergeAll([1], [Receiver, Counts([1])]) == [3]
    ensures MergeAll([1], [Counts([1]), Receiver]) == [4]
  {
    var selfFirst, selfLast := [Receiver, Counts([1])], [Counts([1]), Receiver];
    assert selfFirst[..1] == [Receiver] && selfLast[..1] == [Counts([1])];
    assert MergeAll([1], [Receiver]) == [2] by {
      SelfMergeDoubles([1], 0);
    }
    assert MergeAll([1], [Counts([1])]) == [2] by {
      AddCountsAt([1], [1], 0);
    }
    AddCountsAt([2], [1], 0);
    SelfMergeDoubles([2], 0);
  }

  /** Merging one operand more of the same list: one more MergeStep. */
  lemma MergePrefixStep(acc: seq<uint32>, ops: seq<Operand>, j: int)
    requires 0 <= j < |ops| && Fits(ops[..j], |acc|)
    requires ops[j].Counts? ==> |ops[j].counts| == |acc|
    ensures Fits(ops[..j + 1], |acc|)
    ensures MergeAll(acc, ops[..j + 1]) == MergeStep(MergeAll(acc, ops[..j]), ops[j])
  {
    var init, next := ops[..j], ops[..j + 1];
    assert next[..j] == init && next[j] == ops[j];
    assert Fits(next, |acc|) by {
      forall k | 0 <= k < |next| && next[k].Counts?
        ensures |next[k].counts| == |acc|
      {
        if k < j {
          assert next[k] == init[k];
        }
      }
    }
  }

  /** Every operand has a counter at index i. */
  predicate HasColumn(ops: seq<Operand>, i: int)
  {
    forall k :: 0 <= k < |ops| ==> ops[k].Counts? && 0 <= i < |ops[k].counts|
  }

  /** The sum, over all operands, of their counters at index i (no wrap-around). */
  function SumAt(ops: seq<Operand>, i: int): int
    requires HasColumn(ops, i)
    decreases |ops|
  {
    if ops == [] then 0
    else SumAt(ops[..|ops| - 1], i) + ops[|ops| - 1].counts[i] as int
  }

  /**
   * Merging operands that do not share the receiver's counters raises each counter by
   * the sum of the operands' counters at that index, modulo 2^32.
   */
  lemma {:induction false} MergeAllSums(acc: seq<uint32>, ops: seq<Operand>, i: int)
    requires Separate(ops, |acc|) && 0 <= i < |acc|
    ensures Fits(ops, |acc|) && HasColumn(ops, i)
    ensures MergeAll(acc, ops)[i] as int == (acc[i] as int + SumAt(ops, i)) % Modulus
    decreases |ops|
  {
    if ops != [] {
      var init := ops[..|ops| - 1];
      MergeAllSums(acc, init, i);
      ModAddLeft(acc[i] as int + SumAt(init, i), ops[|ops| - 1].counts[i] as int);
    }
  }

  lemma {:induction false} SumAtConcat(a: seq<Operand>, b: seq<Operand>, i: int)
    requires HasColumn(a, i) && HasColumn(b, i)
    ensures HasColumn(a + b, i) && SumAt(a + b, i) == SumAt(a, i) + SumAt(b, i)
    decreases |b|
  {
    if b != [] {
      var init := b[..|b| - 1];
      assert HasColumn(init, i) by {
        assert forall k :: 0 <= k < |init| ==> init[k] == b[k];
      }
      assert (a + b)[..|a + b| - 1] == a + init;
      SumAtConcat(a, init, i);
    } else {
      assert a + b == a;
    }
  }

  lemma RemoveOne<T>(q: seq<T>, j: int)
    requires 0 <= j < |q|
    ensures multiset(q) == multiset(q[..j] + q[j + 1..]) + multiset{q[j]}
  {
    assert q == q[..j] + [q[j]] + q[j + 1..];
  }

  /** Taking the same element out of two permutations of each other leaves permutations. */
  lemma RemoveMatching<T>(p: seq<T>, q: seq<T>, j: int)
    requires multiset(p) == multiset(q) && 0 < |p| && 0 <= j < |q| && q[j] == p[|p| - 1]
    ensures multiset(p[..|p| - 1]) == multiset(q[..j] + q[j + 1..])
  {
    var init, last := p[..|p| - 1], p[|p| - 1];
    assert p == init + [last];
    RemoveOne(q, j);
    assert multiset(p) == multiset(init) + multiset{last} by {
      assert multiset(p) == multiset(init) + multiset([last]);
      assert multiset([last]) == multiset{last};
    }
    assert multiset(init) == multiset(p) - multiset{last};
    assert multiset(q[..j] + q[j + 1..]) == multiset(q) - multiset{last};
  }

  lemma HasColumnParts(front: seq<Operand>, back: seq<Operand>, i: int)
    requires HasColumn(front + back, i)
    ensures HasColumn(front, i) && HasColumn(back, i)
  {
    assert forall k :: 0 <= k < |front| ==> front[k] == (front + back)[k];
    assert forall k :: 0 <= k < |back| ==> back[k] == (front + back)[|front| + k];
  }

  lemma SumAtRemove(q: seq<Operand>, j: int, i: int)
    requires 0 <= j < |q| && HasColumn(q[..j] + q[j + 1..], i)
    requires q[j].Counts? && 0 <= i < |q[j].counts|
    ensures HasColumn(q, i)
    ensures SumAt(q, i) == SumAt(q[..j] + q[j + 1..], i) + q[j].counts[i] as int
  {
    var front, mid, back := q[..j], [q[j]], q[j + 1..];
    assert q == front + mid + back;
    HasColumnParts(front, back, i);
    assert SumAt(mid, i) == q[j].counts[i] as int by {
      assert mid[..0] == [];
    }
    SumAtConcat(front, back, i);
    SumAtConcat(front, mid, i);
    SumAtConcat(front + mid, back, i);
  }

  /** The column sums do not depend on the order of the operands. */
  lemma {:induction false} SumAtPermutation(p: seq<Operand>, q: seq<Operand>, i: int)
    requires HasColumn(p, i) && multiset(p) == multiset(q)
    ensures HasColumn(q, i) && SumAt(p, i) == SumAt(q, i)
    decreases |p|
  {
    if p == [] {
      assert |q| == |multiset(q)| == 0;
    } else {
      var init, last := p[..|p| - 1], p[|p| - 1];
      assert last in multiset(q) by {
        assert p[|p| - 1] in multiset(p);
      }
      var j :| 0 <= j < |q| && q[j] == last;
      RemoveMatching(p, q, j);
      var rest := q[..j] + q[j + 1..];
      assert HasColumn(init, i);
      SumAtPermutation(init, rest, i);
      SumAtRemove(q, j, i);
    }
  }

  /** Reordering arguments that do not share the receiver's counters keeps them separate. */
  lemma SeparatePermuted(p: seq<Operand>, q: seq<Operand>, n: int)
    requires Separate(p, n) && multiset(p) == multiset(q)
    ensures Separate(q, n)
  {
    forall k | 0 <= k < |q|
      ensures q[k].Counts? && |q[k].counts| == n
    {
      assert q[k] in multiset(p);
    }
  }

  /**
   * A merge of histograms that do not share the receiver's counters gives the same
   * counters whatever the order of its arguments.
   */
  lemma MergeOrderIrrelevant(acc: seq<uint32>, p: seq<Operand>, q: seq<Operand>)
    requires Separate(p, |acc|) && multiset(p) == multiset(q)
    ensures Fits(p, |acc|) && Fits(q, |acc|)
    ensures MergeAll(acc, p) == MergeAll(acc, q)
  {
    SeparatePermuted(p, q, |acc|);
    var left, right := MergeAll(acc, p), MergeAll(acc, q);
    forall i | 0 <= i < |acc|
      ensures left[i] == right[i]
    {
      MergeAllSums(acc, p, i);
      MergeAllSums(acc, q, i);
      SumAtPermutation(p, q, i);
    }
  }

  /** The parts one after another. */
  function Concat<T>(parts: seq<seq<T>>): seq<T>
    decreases |parts|
  {
    if parts == [] then [] else Concat(parts[..|parts| - 1]) + parts[|parts| - 1]
  }

  lemma {:induction false} ConcatInRange(parts: seq<seq<int>>, n: int)
    requires forall k :: 0 <= k < |parts| ==> InRange(parts[k], n)
    ensures InRange(Concat(parts), n)
    decreases |parts|
  {
    if parts != [] {
      ConcatInRange(parts[..|parts| - 1], n);
    }
  }

  /** The counters of fresh histograms, one fed each part of `parts`. */
  function TalliesOf(n: nat, parts: seq<seq<int>>): (r: seq<Operand>)
    requires forall k :: 0 <= k < |parts| ==> InRange(parts[k], n)
    ensures |r| == |parts| && Separate(r, n)
  {
    seq(|parts|, k requires 0 <= k < |parts| => Counts(Tally(Zeros(n), parts[k])))
  }

  lemma WrapAddAssoc(p: uint32, q: uint32, r: uint32)
    ensures WrapAdd(p, WrapAdd(q, r)) == WrapAdd(WrapAdd(p, q), r)
  {
  }

  /** Counters fed `a`, plus fresh counters fed `b`, are the counters fed `a` then `b`. */
  lemma {:induction false} TallyAppend(c: seq<uint32>, a: seq<int>, b: seq<int>)
    requires InRange(a, |c|) && InRange(b, |c|)
    ensures InRange(a + b, |c|)
    ensures AddCounts(Tally(c, a), Tally(Zeros(|c|), b)) == Tally(c, a + b)
    decreases |b|
  {
    assert InRange(a + b, |c|);
    if b == [] {
      assert a + b == a;
      assert Tally(Zeros(|c|), b) == Zeros(|c|);
    } else {
      var init, last := b[..|b| - 1], b[|b| - 1];
      assert (a + b)[..|a + b| - 1] == a + init;
      TallyAppend(c, a, init);
      var p, q := Tally(c, a), Tally(Zeros(|c|), init);
      WrapAddAssoc(p[last], q[last], 1);
    }
  }

  /**
   * Splitting a stream of bin indices into a head and further parts, feeding each part
   * to its own fresh histogram and merging those into the histogram fed the head, gives
   * the counters of one histogram fed the whole stream.
   */
  lemma {:induction false} MergeOfSeparatelyFed(c: seq<uint32>, head: seq<int>, parts: seq<seq<int>>)
    requires InRange(head, |c|)
    requires forall k :: 0 <= k < |parts| ==> InRange(parts[k], |c|)
    ensures InRange(head + Concat(parts), |c|)
    ensures MergeAll(Tally(c, head), TalliesOf(|c|, parts)) == Tally(c, head + Concat(parts))
    decreases |parts|
  {
    ConcatInRange(parts, |c|);
    assert InRange(head + Concat(parts), |c|);
    if parts == [] {
      assert head + Concat(parts) == head;
    } else {
      var init, last := parts[..|parts| - 1], parts[|parts| - 1];
      MergeOfSeparatelyFed(c, head, init);
      assert TalliesOf(|c|, parts)[..|parts| - 1] == TalliesOf(|c|, init);
      ConcatInRange(init, |c|);
      TallyAppend(c, head + Concat(init), last);
      assert head + Concat(parts) == head + Concat(init) + last;
    }
  }
}
