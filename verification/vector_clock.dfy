/** Vector clocks (Fidge/Mattern): one logical counter per process, indexed by
    process id, compared component-wise. */
module VectorClocks {

  /** A vector clock; component k belongs to the process whose id is k. */
  type Clock = seq<nat>

  function Max(a: nat, b: nat): nat {
    if a >= b then a else b
  }

  /** `a` is component-wise at most `b` (both of the same width). */
  predicate LessEq(a: Clock, b: Clock) {
    |a| == |b| && forall k :: 0 <= k < |a| ==> a[k] <= b[k]
  }

  /** Causal precedence: `a` is dominated by `b` and strictly smaller in some component. */
  predicate HappenedBefore(a: Clock, b: Clock) {
    LessEq(a, b) && exists k :: 0 <= k < |a| && a[k] < b[k]
  }

  /** Neither clock dominates the other. */
  predicate Concurrent(a: Clock, b: Clock) {
    |a| == |b| && !LessEq(a, b) && !LessEq(b, a)
  }

  /** The initial clock of every process (`[0] * n_processos`): the bottom of the order. */
  function Zero(n: nat): (r: Clock)
    ensures |r| == n
    ensures forall c: Clock :: |c| == n ==> LessEq(r, c)
  {
    seq(n, _ => 0)
  }

  /** The element-wise maximum taken on receipt of a message. Every component is
      taken from one of the two inputs, and the result dominates both; with
      MergeIsLeastUpperBound this pins the result down as their least upper bound. */
  function Merge(a: Clock, b: Clock): (r: Clock)
    requires |a| == |b|
    ensures LessEq(a, r) && LessEq(b, r)
    ensures forall k :: 0 <= k < |r| ==> r[k] == a[k] || r[k] == b[k]
  {
    seq(|a|, k requires 0 <= k < |a| => Max(a[k], b[k]))
  }

  /** Increment of the owner's own component. */
  function Tick(c: Clock, i: nat): (r: Clock)
    requires i < |c|
    ensures HappenedBefore(c, r)
  {
    c[i := c[i] + 1]
  }

  lemma MergeIsLeastUpperBound(a: Clock, b: Clock, c: Clock)
    requires LessEq(a, c) && LessEq(b, c)
    ensures LessEq(Merge(a, b), c)
  {
  }

  /** Tick adds exactly one at the owner's index and nothing elsewhere. */
  lemma TickChangesOnlyOwn(c: Clock, i: nat)
    requires i < |c|
    ensures |Tick(c, i)| == |c| && Tick(c, i)[i] == c[i] + 1
    ensures forall k :: 0 <= k < |c| && k != i ==> Tick(c, i)[k] == c[k]
  {
  }

  /** Component q after a tick at i. */
  lemma TickAt(c: Clock, i: nat, q: nat)
    requires i < |c| && q < |c|
    ensures Tick(c, i)[q] == if q == i then c[q] + 1 else c[q]
  {
  }

  /** Component q of a receive's new clock: the larger of the two inputs, plus
      one at the receiver's own index j. */
  lemma MergeTickAt(a: Clock, b: Clock, j: nat, q: nat)
    requires |a| == |b| && j < |a| && q < |a|
    ensures Tick(Merge(a, b), j)[q] == if q == j then Max(a[q], b[q]) + 1 else Max(a[q], b[q])
  {
  }

  lemma LessEqTransitive(a: Clock, b: Clock, c: Clock)
    requires LessEq(a, b) && LessEq(b, c)
    ensures LessEq(a, c)
  {
  }

  /** Component-wise order is antisymmetric, so causal precedence is a strict order. */
  lemma LessEqAntisymmetric(a: Clock, b: Clock)
    requires LessEq(a, b) && LessEq(b, a)
    ensures a == b
  {
    assert forall k :: 0 <= k < |a| ==> a[k] == b[k];
  }

  lemma HappenedBeforeTransitive(a: Clock, b: Clock, c: Clock)
    requires HappenedBefore(a, b) && HappenedBefore(b, c)
    ensures HappenedBefore(a, c)
  {
    var k :| 0 <= k < |a| && a[k] < b[k];
    assert a[k] < c[k];
  }

  /** HappenedBefore is irreflexive and asymmetric. */
  lemma HappenedBeforeAsymmetric(a: Clock, b: Clock)
    requires HappenedBefore(a, b)
    ensures a != b && !HappenedBefore(b, a)
  {
    var k :| 0 <= k < |a| && a[k] < b[k];
    assert b[k] > a[k];
  }

  /** Any two clocks of the same width are equal, ordered one way, ordered the
      other way, or concurrent, and exactly one of these holds. */
  lemma Trichotomy(a: Clock, b: Clock)
    requires |a| == |b|
    ensures a == b || HappenedBefore(a, b) || HappenedBefore(b, a) || Concurrent(a, b)
    ensures Concurrent(a, b) ==> a != b && !HappenedBefore(a, b) && !HappenedBefore(b, a)
    ensures HappenedBefore(a, b) ==> a != b && !HappenedBefore(b, a) && !Concurrent(a, b)
  {
    if LessEq(a, b) && a != b {
      if LessEq(b, a) {
        LessEqAntisymmetric(a, b);
      }
      var k :| 0 <= k < |a| && a[k] != b[k];
      assert a[k] < b[k];
      HappenedBeforeAsymmetric(a, b);
    } else if LessEq(b, a) && a != b {
      if LessEq(a, b) {
        LessEqAntisymmetric(a, b);
      }
      var k :| 0 <= k < |a| && a[k] != b[k];
      assert b[k] < a[k];
      HappenedBeforeAsymmetric(b, a);
    }
    if HappenedBefore(a, b) {
      HappenedBeforeAsymmetric(a, b);
    }
  }
}
