/** The positioning computation of the `DummyList` component.

    The component receives ten byte-sized fields. It pairs every field with
    the index at which it sits (used for both the `left` and the `top`
    coordinate of the node it renders) and then sorts those triples by field,
    largest first, so that the order in which nodes are emitted depends only
    on the values and never on how they are currently arranged, while each
    node's coordinates still name its value's current index. */
module DummyList {

  /** An unsigned 8-bit integer, the element type of the component's fields. */
  type Byte = x: int | 0 <= x < 256

  /** A field with its positioning: `left` and `top` are the index at which
      the field sits in the input. Each triple becomes one node keyed by
      `field`. */
  datatype Placed = Placed(field: Byte, left: nat, top: nat)

  /** No value occurs twice. */
  predicate Distinct(s: seq<Byte>)
  {
    forall i, j :: 0 <= i < j < |s| ==> s[i] != s[j]
  }

  lemma DistinctAt(s: seq<Byte>, a: nat, b: nat)
    requires Distinct(s) && a < |s| && b < |s| && s[a] == s[b]
    ensures a == b
  {
  }

  /** Reference definition of "the index at which a value sits": its first
      occurrence. */
  function IndexOf(s: seq<Byte>, v: Byte): (r: nat)
    requires v in s
    ensures r < |s| && s[r] == v
    ensures forall k :: 0 <= k < r ==> s[k] != v
  {
    if s[0] == v then 0 else 1 + IndexOf(s[1..], v)
  }

  /** The enumerate/map/collect chain: every field paired with its index,
      once as `left` and once as `top`. */
  function WithPositioning(fields: seq<Byte>): (r: seq<Placed>)
    ensures |r| == |fields| && Keys(r) == fields
    ensures forall k :: 0 <= k < |r| ==> r[k].left == r[k].top == k
  {
    seq(|fields|, k requires 0 <= k < |fields| => Placed(fields[k], k, k))
  }

  /** The keys of the emitted nodes, in emission order. */
  function Keys(placed: seq<Placed>): (r: seq<Byte>)
  {
    seq(|placed|, k requires 0 <= k < |placed| => placed[k].field)
  }

  predicate NonIncreasing(s: seq<Byte>)
  {
    forall k, m :: 0 <= k < m < |s| ==> s[k] >= s[m]
  }

  /** The order the comparator `b.0.cmp(&a.0)` sorts into: largest field first. */
  predicate ByFieldDescending(s: seq<Placed>)
  {
    forall k, m :: 0 <= k < m < |s| ==> s[k].field >= s[m].field
  }

  /** `placed` is what the component emits for `fields`: the positioned
      triples, reordered, largest field first. */
  predicate IsRendering(fields: seq<Byte>, placed: seq<Placed>)
  {
    ByFieldDescending(placed) && multiset(placed) == multiset(WithPositioning(fields))
  }

  /** A triple is built from the input exactly when both of its coordinates
      are an index of the input and the input holds its field there. */
  lemma PositioningMembership(fields: seq<Byte>, t: Placed)
    ensures t in WithPositioning(fields) <==>
              t.left == t.top && t.left < |fields| && fields[t.left] == t.field
  {
    var w := WithPositioning(fields);
    if t.left == t.top && t.left < |fields| && fields[t.left] == t.field {
      assert w[t.left] == t;
    }
  }

  /** With distinct fields, every built triple carries its field's own
      index as both coordinates, and every field has such a triple. */
  lemma PositioningByValue(fields: seq<Byte>, t: Placed)
    requires Distinct(fields)
    ensures t in WithPositioning(fields) <==>
              t.field in fields && t.left == IndexOf(fields, t.field) && t.top == t.left
  {
    PositioningMembership(fields, t);
    if t in WithPositioning(fields) {
      var i := IndexOf(fields, t.field);
      assert fields[i] == fields[t.left];
    }
  }

  /** Reading the keys back off the positioned triples gives the input. */
  lemma KeysOfPositioning(fields: seq<Byte>)
    ensures Keys(WithPositioning(fields)) == fields
  {
  }

  lemma KeysOfConcat(a: seq<Placed>, b: seq<Placed>)
    ensures Keys(a + b) == Keys(a) + Keys(b)
  {
  }

  /** Reordering triples reorders their keys the same way: equal multisets
      of triples have equal multisets of keys. */
  lemma {:induction false} KeysPreserveMultiset(s1: seq<Placed>, s2: seq<Placed>)
    requires multiset(s1) == multiset(s2)
    ensures multiset(Keys(s1)) == multiset(Keys(s2))
    decreases |s1|
  {
    if s1 == [] {
      assert |multiset(s2)| == 0;
      assert s2 == [];
    } else {
      var x := s1[0];
      assert x in multiset(s2);
      var i :| 0 <= i < |s2| && s2[i] == x;
      var rest := s2[..i] + s2[i + 1..];
      assert s2 == s2[..i] + [x] + s2[i + 1..];
      assert s1 == [x] + s1[1..];
      assert multiset(s1) == multiset{x} + multiset(s1[1..]);
      assert multiset(s2) == multiset(s2[..i]) + multiset{x} + multiset(s2[i + 1..]);
      assert multiset(rest) == multiset(s2[..i]) + multiset(s2[i + 1..]);
      assert multiset(s1[1..]) == multiset(s1) - multiset{x};
      assert multiset(rest) == multiset(s2) - multiset{x};
      KeysPreserveMultiset(s1[1..], rest);
      KeysOfConcat([x], s1[1..]);
      KeysOfConcat(s2[..i], s2[i + 1..]);
      KeysOfConcat(s2[..i] + [x], s2[i + 1..]);
      KeysOfConcat(s2[..i], [x]);
    }
  }

  /** A non-increasing sequence is determined by its multiset of values. */
  lemma {:induction false} NonIncreasingUnique(a: seq<Byte>, b: seq<Byte>)
    requires NonIncreasing(a) && NonIncreasing(b)
    requires multiset(a) == multiset(b)
    ensures a == b
    decreases |a|
  {
    if a == [] {
      assert |multiset(b)| == 0;
    } else {
      assert |b| > 0 by { assert |multiset(b)| == |multiset(a)| > 0; }
      assert a[0] in multiset(b);
      assert b[0] in multiset(a);
      assert a[0] == b[0];
      assert a == [a[0]] + a[1..];
      assert b == [b[0]] + b[1..];
      assert multiset(a) == multiset{a[0]} + multiset(a[1..]);
      assert multiset(b) == multiset{b[0]} + multiset(b[1..]);
      assert multiset(a[1..]) == multiset(a) - multiset{a[0]};
      assert multiset(b[1..]) == multiset(b) - multiset{b[0]};
      NonIncreasingUnique(a[1..], b[1..]);
    }
  }

  /** A sequence without repeats holds every value at most once. */
  lemma {:induction false} DistinctCountsAtMostOne(s: seq<Byte>, x: Byte)
    requires Distinct(s)
    ensures multiset(s)[x] <= 1
    decreases |s|
  {
    if s != [] {
      assert s == [s[0]] + s[1..];
      DistinctCountsAtMostOne(s[1..], x);
      if s[0] == x {
        assert x !in s[1..];
      }
    }
  }

  /** Two equal elements at different positions count twice. */
  lemma RepeatCountsTwice(s: seq<Byte>, a: nat, b: nat)
    requires a < b < |s|
    ensures s[a] == s[b] ==> multiset(s)[s[a]] >= 2
  {
    assert s == s[..a] + [s[a]] + s[a + 1..b] + [s[b]] + s[b + 1..];
  }

  /** Rearranging a sequence without repeats gives one without repeats. */
  lemma DistinctPermutation(s: seq<Byte>, t: seq<Byte>)
    requires Distinct(s) && multiset(s) == multiset(t)
    ensures Distinct(t)
  {
    forall a, b | 0 <= a < b < |t|
      ensures t[a] != t[b]
    {
      DistinctCountsAtMostOne(s, t[a]);
      RepeatCountsTwice(t, a, b);
    }
  }

  /** What a rendering emits: as many nodes as fields, keys largest first,
      exactly the input's values as keys, and, when the input has no
      repeated value, strictly decreasing keys (no key emitted twice). */
  lemma RenderingKeys(fields: seq<Byte>, placed: seq<Placed>)
    requires IsRendering(fields, placed)
    ensures |placed| == |fields|
    ensures NonIncreasing(Keys(placed))
    ensures multiset(Keys(placed)) == multiset(fields)
    ensures Distinct(fields) ==> Distinct(Keys(placed))
  {
    assert |multiset(placed)| == |multiset(WithPositioning(fields))|;
    KeysPreserveMultiset(placed, WithPositioning(fields));
    KeysOfPositioning(fields);
    if Distinct(fields) {
      DistinctPermutation(fields, Keys(placed));
    }
  }

  /** Every emitted node sits at its value's current index: `left` equals
      `top`, and the input holds the node's key at that index. */
  lemma RenderingCoordinates(fields: seq<Byte>, placed: seq<Placed>)
    requires IsRendering(fields, placed)
    ensures forall k :: 0 <= k < |placed| ==>
              placed[k].left == placed[k].top && placed[k].left < |fields| &&
              fields[placed[k].left] == placed[k].field
  {
    forall k | 0 <= k < |placed|
      ensures placed[k].left == placed[k].top && placed[k].left < |fields| &&
              fields[placed[k].left] == placed[k].field
    {
      assert placed[k] in multiset(placed);
      PositioningMembership(fields, placed[k]);
    }
  }

  /** The emitted key order is the same for any two inputs that hold the
      same values in any arrangement: only coordinates can differ. */
  lemma EmittedOrderIndependent(f1: seq<Byte>, f2: seq<Byte>, p1: seq<Placed>, p2: seq<Placed>)
    requires multiset(f1) == multiset(f2)
    requires IsRendering(f1, p1) && IsRendering(f2, p2)
    ensures Keys(p1) == Keys(p2)
  {
    RenderingKeys(f1, p1);
    RenderingKeys(f2, p2);
    NonIncreasingUnique(Keys(p1), Keys(p2));
  }

  /** With distinct fields there is only one rendering: re-rendering an
      unchanged input emits the same nodes with the same coordinates. */
  lemma RenderingDeterministic(fields: seq<Byte>, p1: seq<Placed>, p2: seq<Placed>)
    requires Distinct(fields)
    requires IsRendering(fields, p1) && IsRendering(fields, p2)
    ensures p1 == p2
  {
    EmittedOrderIndependent(fields, fields, p1, p2);
    RenderingKeys(fields, p1);
    RenderingKeys(fields, p2);
    RenderingCoordinates(fields, p1);
    RenderingCoordinates(fields, p2);
    forall k | 0 <= k < |p1|
      ensures p1[k] == p2[k]
    {
      assert Keys(p1)[k] == Keys(p2)[k];
      var l1, l2 := p1[k].left, p2[k].left;
      assert fields[l1] == fields[l2];
      DistinctAt(fields, l1, l2);
    }
  }

  /** `sort_by(|a, b| b.0.cmp(&a.0))` in place: afterwards the triples are
      ordered largest field first and are a permutation of what they were.
      The ordering is an insertion sort; the standard library's merge sort is
      only modelled by this contract. */
  method SortByFieldDescending(a: array<Placed>)
    modifies a
    ensures ByFieldDescending(a[..])
    ensures multiset(a[..]) == old(multiset(a[..]))
  {
    var i := 0;
    while i < a.Length
      invariant 0 <= i <= a.Length
      invariant ByFieldDescending(a[..i])
      invariant multiset(a[..]) == old(multiset(a[..]))
    {
      InsertIntoPrefix(a, i);
      i := i + 1;
    }
    assert a[..a.Length] == a[..];
  }

  /** One insertion step: moves `a[i]` left past every smaller field, so that
      the first `i + 1` triples are ordered, leaving the rest alone. */
  method InsertIntoPrefix(a: array<Placed>, i: nat)
    requires i < a.Length
    requires ByFieldDescending(a[..i])
    modifies a
    ensures ByFieldDescending(a[..i + 1])
    ensures a[i + 1..] == old(a[i + 1..])
    ensures multiset(a[..]) == old(multiset(a[..]))
  {
    var j := i;
    while j > 0 && a[j - 1].field < a[j].field
      invariant 0 <= j <= i
      invariant forall k, m :: 0 <= k < m <= i && k != j && m != j ==> a[k].field >= a[m].field
      invariant forall m :: j < m <= i ==> a[j].field > a[m].field
      invariant a[i + 1..] == old(a[i + 1..])
      invariant multiset(a[..]) == old(multiset(a[..]))
    {
      SwapAdjacent(a, j);
      j := j - 1;
    }
  }

  method SwapAdjacent(a: array<Placed>, j: nat)
    requires 0 < j < a.Length
    modifies a
    ensures a[j - 1] == old(a[j]) && a[j] == old(a[j - 1])
    ensures forall k :: 0 <= k < a.Length && k != j - 1 && k != j ==> a[k] == old(a[k])
    ensures multiset(a[..]) == old(multiset(a[..]))
  {
    a[j - 1], a[j] := a[j], a[j - 1];
  }

  /** The body of `dummy_list` up to the emission of nodes: build the
      positioned triples, sort them, and hand them out in emission order. */
  method Render(fields: seq<Byte>) returns (placed: seq<Placed>)
    ensures IsRendering(fields, placed)
    ensures NonIncreasing(Keys(placed)) && multiset(Keys(placed)) == multiset(fields)
    ensures Distinct(fields) ==> Distinct(Keys(placed))
    ensures forall k :: 0 <= k < |placed| ==>
              placed[k].left == placed[k].top && placed[k].left < |fields| &&
              fields[placed[k].left] == placed[k].field
  {
    var positioned := WithPositioning(fields);
    var a := new Placed[|positioned|](k requires 0 <= k < |positioned| => positioned[k]);
    assert a[..] == positioned;
    SortByFieldDescending(a);
    placed := a[..];
    RenderingKeys(fields, placed);
    RenderingCoordinates(fields, placed);
  }
}
