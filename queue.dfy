/** The min-priority behaviour both event managers get from a `BinaryHeap`
    whose `Ord` is inverted: `pop` hands back an element of earliest key.
    The heap is modelled by its storage as a sequence; which element of the
    sequence holds which event is not observable, so only the multiset of
    stored elements matters. Among elements with the same key any one may be
    returned. */
module Queue {

  /** `e` is a legitimate answer of `pop` on the contents `m`: it is stored
      and no stored element has an earlier key. */
  ghost predicate IsEarliest<E>(e: E, m: multiset<E>, key: E -> int) {
    e in m && forall x :: x in m ==> key(e) <= key(x)
  }

  /** Index of an element of earliest key (the first such, though callers may
      rely only on its being earliest). */
  method IndexOfEarliest<E>(s: seq<E>, key: E -> int) returns (k: nat)
    requires |s| > 0
    ensures k < |s|
    ensures forall j :: 0 <= j < |s| ==> key(s[k]) <= key(s[j])
  {
    k := 0;
    var i := 1;
    while i < |s|
      invariant 1 <= i <= |s|
      invariant k < i
      invariant forall j :: 0 <= j < i ==> key(s[k]) <= key(s[j])
    {
      if key(s[i]) < key(s[k]) {
        k := i;
      }
      i := i + 1;
    }
  }

  /** The storage left after taking out the element at `k`. */
  function RemoveAt<E>(s: seq<E>, k: nat): (r: seq<E>)
    requires k < |s|
    ensures |r| == |s| - 1
    ensures multiset(r) == multiset(s) - multiset{s[k]}
  {
    assert s == s[..k] + [s[k]] + s[k + 1..];
    s[..k] + s[k + 1..]
  }

  /** A non-empty queue always has an earliest element, so `pop` on it never
      yields `None`. */
  lemma {:induction false} EarliestExists<E>(m: multiset<E>, key: E -> int)
    requires |m| > 0
    ensures exists e :: IsEarliest(e, m, key)
    decreases |m|
  {
    var x :| x in m;
    var rest := m - multiset{x};
    if |rest| == 0 {
      assert m == multiset{x};
      assert IsEarliest(x, m, key);
    } else {
      EarliestExists(rest, key);
      var y :| IsEarliest(y, rest, key);
      assert m == rest + multiset{x};
      if key(x) <= key(y) {
        assert IsEarliest(x, m, key);
      } else {
        assert IsEarliest(y, m, key);
      }
    }
  }

  /** `pops` is what successive calls of `pop` may return, starting from the
      contents `m`, with no insertion in between. */
  ghost predicate IsPopSequence<E>(m: multiset<E>, pops: seq<E>, key: E -> int)
    decreases |pops|
  {
    |pops| == 0 ||
    (IsEarliest(pops[0], m, key) && IsPopSequence(m - multiset{pops[0]}, pops[1..], key))
  }

  /** Successive pops come out in non-decreasing key order, and each stored
      element comes out at most once. */
  lemma {:induction false} PopSequenceSorted<E>(m: multiset<E>, pops: seq<E>, key: E -> int)
    requires IsPopSequence(m, pops, key)
    ensures multiset(pops) <= m
    ensures forall i, j :: 0 <= i < j < |pops| ==> key(pops[i]) <= key(pops[j])
    decreases |pops|
  {
    if |pops| > 0 {
      var rest := m - multiset{pops[0]};
      PopSequenceSorted(rest, pops[1..], key);
      assert pops == [pops[0]] + pops[1..];
      forall i, j | 0 <= i < j < |pops|
        ensures key(pops[i]) <= key(pops[j])
      {
        if i > 0 {
          assert pops[i] == pops[1..][i - 1] && pops[j] == pops[1..][j - 1];
        } else {
          assert pops[j] == pops[1..][j - 1];
          assert pops[j] in multiset(pops[1..]);
        }
      }
    }
  }

  /** Popping an earliest element of what is still stored extends a pop
      sequence by that element. */
  lemma {:induction false} ExtendPopSequence<E>(m: multiset<E>, pops: seq<E>, x: E, key: E -> int)
    requires IsPopSequence(m, pops, key)
    requires IsEarliest(x, m - multiset(pops), key)
    ensures IsPopSequence(m, pops + [x], key)
    decreases |pops|
  {
    if |pops| == 0 {
      assert pops + [x] == [x];
      assert (pops + [x])[1..] == [];
    } else {
      var rest := m - multiset{pops[0]};
      assert pops == [pops[0]] + pops[1..];
      assert rest - multiset(pops[1..]) == m - multiset(pops);
      ExtendPopSequence(rest, pops[1..], x, key);
      assert (pops + [x])[1..] == pops[1..] + [x];
    }
  }

  /** One more `pop` after the pop sequence `pops`: it extends the sequence,
      and what stays stored shrinks by exactly the popped element. */
  lemma PopStep<E>(m: multiset<E>, pops: seq<E>, x: E, key: E -> int)
    requires IsPopSequence(m, pops, key)
    requires IsEarliest(x, m - multiset(pops), key)
    ensures IsPopSequence(m, pops + [x], key)
    ensures m - multiset(pops + [x]) == (m - multiset(pops)) - multiset{x}
    ensures |m - multiset(pops + [x])| < |m - multiset(pops)|
  {
    ExtendPopSequence(m, pops, x, key);
    assert multiset(pops + [x]) == multiset(pops) + multiset{x};
  }

  /** While anything is still stored, a pop sequence can always be extended:
      `pop` on a non-empty queue has a legitimate answer. */
  lemma PopSequenceExtends<E>(m: multiset<E>, pops: seq<E>, key: E -> int)
    requires IsPopSequence(m, pops, key)
    requires |pops| < |m|
    ensures exists x :: IsPopSequence(m, pops + [x], key)
  {
    PopSequenceSorted(m, pops, key);
    var left := m - multiset(pops);
    assert m == left + multiset(pops);
    EarliestExists(left, key);
    var x :| IsEarliest(x, left, key);
    ExtendPopSequence(m, pops, x, key);
  }

  /** A pop sequence after which nothing is left stored returns every
      stored element exactly once, in non-decreasing key order. */
  lemma PopSequenceComplete<E>(m: multiset<E>, pops: seq<E>, key: E -> int)
    requires IsPopSequence(m, pops, key)
    requires m - multiset(pops) == multiset{}
    ensures multiset(pops) == m
    ensures forall i, j :: 0 <= i < j < |pops| ==> key(pops[i]) <= key(pops[j])
  {
    PopSequenceSorted(m, pops, key);
    assert m == multiset(pops) + (m - multiset(pops));
  }

  /** Popping until empty returns every stored element exactly once. */
  lemma {:induction false} DrainReturnsEverything<E>(m: multiset<E>, pops: seq<E>, key: E -> int)
    requires IsPopSequence(m, pops, key)
    requires |pops| == |m|
    ensures multiset(pops) == m
  {
    PopSequenceSorted(m, pops, key);
    SubMultisetOfSameSize(multiset(pops), m);
  }

  lemma {:induction false} SubMultisetOfSameSize<E>(a: multiset<E>, b: multiset<E>)
    requires a <= b && |a| == |b|
    ensures a == b
  {
    var d := b - a;
    assert b == a + d;
    assert |d| == 0;
  }
}
