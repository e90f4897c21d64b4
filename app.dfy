/** The state of the `App` component and its two buttons.

    The state is an array of ten fields, initially `[0, 1, ..., 9]`. Each
    button's callback copies the current array, exchanges a fixed pair of
    indices in the copy (2 and 3 for "Swap neighbors", 2 and 5 for "Swap
    further apart") and installs the copy as the new state, which the
    `DummyList` component then renders. */
module App {
  import opened DummyList

  const FieldCount: nat := 10

  /** The state's initial value `[0, 1, ..., 9]`: every field equals its index. */
  function Initial(): (r: seq<Byte>)
    ensures |r| == FieldCount
    ensures forall k :: 0 <= k < |r| ==> r[k] == k
    ensures Distinct(r)
  {
    Ascending(FieldCount)
  }

  /** `s` with the elements at `i` and `j` exchanged, as the slice method
      `swap(i, j)` leaves it: only those two positions change. */
  function Swapped(s: seq<Byte>, i: nat, j: nat): (r: seq<Byte>)
    requires i < |s| && j < |s|
    ensures |r| == |s| && r[i] == s[j] && r[j] == s[i]
    ensures forall k :: 0 <= k < |s| && k != i && k != j ==> r[k] == s[k]
  {
    s[i := s[j]][j := s[i]]
  }

  /** Swapping the same two indices twice restores the original. */
  lemma SwappedInvolution(s: seq<Byte>, i: nat, j: nat)
    requires i < |s| && j < |s|
    ensures Swapped(Swapped(s, i, j), i, j) == s
  {
  }

  /** A swap only reorders: the multiset of values is unchanged. */
  lemma SwappedPermutes(s: seq<Byte>, i: nat, j: nat)
    requires i < |s| && j < |s|
    ensures multiset(Swapped(s, i, j)) == multiset(s)
  {
  }

  /** A swap keeps distinct values distinct. */
  lemma SwappedDistinct(s: seq<Byte>, i: nat, j: nat)
    requires i < |s| && j < |s|
    requires Distinct(s)
    ensures Distinct(Swapped(s, i, j))
  {
  }

  /** The two buttons of the page. */
  datatype Button = SwapNeighbors | SwapFar

  /** The pair of indices each button's callback exchanges. */
  function SwapPair(b: Button): (pair: (nat, nat))
    ensures pair.0 < FieldCount && pair.1 < FieldCount && pair.0 != pair.1
  {
    match b
    case SwapNeighbors => (2, 3)
    case SwapFar => (2, 5)
  }

  /** The state after one click of `b`. */
  function Click(s: seq<Byte>, b: Button): (r: seq<Byte>)
    requires |s| == FieldCount
    ensures |r| == FieldCount
  {
    Swapped(s, SwapPair(b).0, SwapPair(b).1)
  }

  /** The state after clicking the buttons `clicks`, in order, from the
      initial state. */
  function Run(clicks: seq<Button>): (r: seq<Byte>)
    ensures |r| == FieldCount
  {
    if clicks == [] then Initial()
    else Click(Run(clicks[..|clicks| - 1]), clicks[|clicks| - 1])
  }

  /** The values held by the initial state are exactly 0 to 9. */
  lemma InitialValues()
    ensures forall v: Byte :: v in Initial() <==> v < FieldCount
  {
    forall v: Byte | v < FieldCount
      ensures v in Initial()
    {
      assert Initial()[v] == v;
    }
  }

  /** Whatever the buttons clicked, the state holds exactly the values
      0 to 9, each once: they are only ever reordered. */
  lemma {:induction false} RunKeepsValues(clicks: seq<Button>)
    ensures multiset(Run(clicks)) == multiset(Initial())
    ensures Distinct(Run(clicks))
    ensures forall v: Byte :: v in Run(clicks) <==> v < FieldCount
    decreases |clicks|
  {
    if clicks != [] {
      var prefix := clicks[..|clicks| - 1];
      var b := clicks[|clicks| - 1];
      RunKeepsValues(prefix);
      SwappedPermutes(Run(prefix), SwapPair(b).0, SwapPair(b).1);
      SwappedDistinct(Run(prefix), SwapPair(b).0, SwapPair(b).1);
    }
    InitialValues();
    forall v: Byte
      ensures v in Run(clicks) <==> v in Initial()
    {
      assert v in Run(clicks) <==> v in multiset(Run(clicks));
      assert v in Initial() <==> v in multiset(Initial());
    }
  }

  /** Clicking the same button twice in a row restores the previous state. */
  lemma ClickTwiceRestores(clicks: seq<Button>, b: Button)
    ensures Run(clicks + [b, b]) == Run(clicks)
  {
    var once := clicks + [b];
    var twice := clicks + [b, b];
    assert twice[..|twice| - 1] == once;
    assert once[..|once| - 1] == clicks;
    SwappedInvolution(Run(clicks), SwapPair(b).0, SwapPair(b).1);
  }

  /** The two clicks of the demo, neighbours first: swapping indices 2 and 3
      of the initial state, then indices 2 and 5 of the result. */
  lemma DemoStates()
    ensures Run([SwapNeighbors]) == [0, 1, 3, 2, 4, 5, 6, 7, 8, 9]
    ensures Run([SwapNeighbors, SwapFar]) == [0, 1, 5, 2, 4, 3, 6, 7, 8, 9]
  {
  }

  /** A swap of two distinct values re-renders without moving any node in
      the emitted order: the node keyed by the value that was at `i` gets
      `j` as both coordinates, the node keyed by the value that was at `j`
      gets `i`, and every other node is emitted exactly as before. */
  lemma SwapMovesOnlyTwoNodes(g: seq<Byte>, i: nat, j: nat, p: seq<Placed>, q: seq<Placed>)
    requires i < |g| && j < |g| && Distinct(g)
    requires IsRendering(g, p) && IsRendering(Swapped(g, i, j), q)
    ensures |q| == |p| && Keys(q) == Keys(p)
    ensures forall k :: 0 <= k < |q| ==>
              if q[k].field == g[i] then q[k].left == q[k].top == j
              else if q[k].field == g[j] then q[k].left == q[k].top == i
              else q[k] == p[k]
  {
    var f := Swapped(g, i, j);
    SwappedPermutes(g, i, j);
    SwappedDistinct(g, i, j);
    EmittedOrderIndependent(g, f, p, q);
    RenderingKeys(g, p);
    RenderingKeys(f, q);
    RenderingCoordinates(g, p);
    RenderingCoordinates(f, q);
    forall k | 0 <= k < |q|
      ensures if q[k].field == g[i] then q[k].left == q[k].top == j
              else if q[k].field == g[j] then q[k].left == q[k].top == i
              else q[k] == p[k]
    {
      assert Keys(q)[k] == Keys(p)[k];
      var v, l := q[k].field, q[k].left;
      assert f[l] == v;
      if v == g[i] {
        assert f[j] == v;
        assert l == j by { DistinctAt(f, l, j); }
      } else if v == g[j] {
        assert f[i] == v;
        assert l == i by { DistinctAt(f, l, i); }
      } else {
        assert l != i && l != j;
        assert g[l] == v && g[p[k].left] == v;
        assert p[k].left == l by { DistinctAt(g, p[k].left, l); }
      }
    }
  }

  /** The values below `n` in increasing order: the shape of the initial state. */
  function Ascending(n: nat): (r: seq<Byte>)
    requires n <= 256
  {
    seq(n, k requires 0 <= k < n => k)
  }

  /** The values below `n` in decreasing order: the order nodes are emitted in. */
  function Descending(n: nat): (r: seq<Byte>)
    requires n <= 256
  {
    seq(n, k requires 0 <= k < n => n - 1 - k)
  }

  /** Both orders hold the same values. */
  lemma {:induction false} DescendingPermutes(n: nat)
    requires n <= 256
    ensures multiset(Descending(n)) == multiset(Ascending(n))
  {
    if n > 0 {
      DescendingPermutes(n - 1);
      assert Ascending(n) == Ascending(n - 1) + [n - 1];
      assert Descending(n) == [n - 1] + Descending(n - 1);
    }
  }

  /** The first rendering: nodes keyed 9 down to 0, each at its own value. */
  lemma InitialRendering(p: seq<Placed>)
    requires IsRendering(Initial(), p)
    ensures |p| == FieldCount
    ensures forall k :: 0 <= k < |p| ==> p[k] == Placed(9 - k, 9 - k, 9 - k)
  {
    var descending := Descending(FieldCount);
    DescendingPermutes(FieldCount);
    RenderingKeys(Initial(), p);
    RenderingCoordinates(Initial(), p);
    NonIncreasingUnique(Keys(p), descending);
    forall k | 0 <= k < |p|
      ensures p[k] == Placed(9 - k, 9 - k, 9 - k)
    {
      assert Keys(p)[k] == descending[k] == 9 - k;
      assert Initial()[p[k].left] == p[k].left;
    }
  }

  /** "Swap neighbors" from the initial state: the emitted order stays
      9 down to 0; node 3 moves to `left = top = 2`, node 2 to 3, and every
      other node keeps its coordinates. */
  lemma SwapNeighborsRendering(p: seq<Placed>, q: seq<Placed>)
    requires IsRendering(Initial(), p)
    requires IsRendering(Run([SwapNeighbors]), q)
    ensures |q| == FieldCount && Keys(q) == Keys(p)
    ensures forall k :: 0 <= k < |q| ==>
              q[k].field == 9 - k &&
              q[k].left == q[k].top ==
                (if 9 - k == 3 then 2 else if 9 - k == 2 then 3 else 9 - k)
  {
    InitialRendering(p);
    DemoStates();
    assert Run([SwapNeighbors]) == Swapped(Initial(), 2, 3);
    SwapMovesOnlyTwoNodes(Initial(), 2, 3, p, q);
    forall k | 0 <= k < |q|
      ensures q[k].field == 9 - k
    {
      assert Keys(q)[k] == Keys(p)[k];
    }
  }

  /** "Swap further apart" after "Swap neighbors": the emitted order is
      unchanged; node 5 moves to `left = top = 2`, node 3 (which sat at
      index 2) moves to 5, and every other node keeps its coordinates. */
  lemma SwapFarRendering(q: seq<Placed>, r: seq<Placed>)
    requires IsRendering(Run([SwapNeighbors]), q)
    requires IsRendering(Run([SwapNeighbors, SwapFar]), r)
    ensures |r| == |q| && Keys(r) == Keys(q)
    ensures forall k :: 0 <= k < |r| ==>
              if r[k].field == 5 then r[k].left == r[k].top == 2
              else if r[k].field == 3 then r[k].left == r[k].top == 5
              else r[k] == q[k]
  {
    DemoStates();
    var g := Run([SwapNeighbors]);
    assert Run([SwapNeighbors, SwapFar]) == Swapped(g, 2, 5);
    RunKeepsValues([SwapNeighbors]);
    SwapMovesOnlyTwoNodes(g, 2, 5, q, r);
  }

  /** The `use_state` handle of `app`: the current array of fields, replaced
      by a swapped copy on every click. */
  class FieldsState {
    var fields: array<Byte>
    /** The buttons clicked so far, oldest first. */
    ghost var History: seq<Button>

    ghost predicate Valid()
      reads this, fields
    {
      fields.Length == FieldCount && fields[..] == Run(History)
    }

    /** `use_state(|| [0, 1, 2, 3, 4, 5, 6, 7, 8, 9])`. */
    constructor ()
      ensures Valid() && fresh(fields)
      ensures History == [] && fields[..] == Initial()
    {
      var init := Initial();
      var a := new Byte[FieldCount](k requires 0 <= k < FieldCount => init[k]);
      assert a[..] == init;
      fields := a;
      History := [];
    }

    /** The callback of "Swap neighbors". */
    method SwapNeighbors()
      requires Valid()
      modifies this
      ensures Valid() && fresh(fields)
      ensures History == old(History) + [Button.SwapNeighbors]
      ensures fields[..] == Swapped(old(fields[..]), 2, 3)
    {
      Press(Button.SwapNeighbors);
    }

    /** The callback of "Swap further apart". */
    method SwapFar()
      requires Valid()
      modifies this
      ensures Valid() && fresh(fields)
      ensures History == old(History) + [Button.SwapFar]
      ensures fields[..] == Swapped(old(fields[..]), 2, 5)
    {
      Press(Button.SwapFar);
    }

    /** Copy the current array, swap the button's pair of indices in the
        copy, and install the copy as the new state. */
    method Press(b: Button)
      requires Valid()
      modifies this
      ensures Valid() && fresh(fields)
      ensures History == old(History) + [b]
      ensures fields[..] == Click(old(fields[..]), b)
    {
      var (i, j) := SwapPair(b);
      var current := fields;
      var updated := new Byte[FieldCount](k requires 0 <= k < FieldCount reads current => current[k]);
      assert updated[..] == current[..];
      var t := updated[i];
      updated[i] := updated[j];
      updated[j] := t;
      assert updated[..] == Swapped(current[..], i, j);
      fields := updated;
      History := History + [b];
      assert History[..|History| - 1] == old(History);
    }
  }
}
