/** The index heap of batch verification, ordered by scalar value. */
module BatchHeap {
  import opened Limbs

  /** `h` lists each of 0, 1, .. once. */
  ghost predicate IsPermutation(h: seq<nat>) {
    && (forall i :: 0 <= i < |h| ==> h[i] < |h|)
    && (forall i, j :: 0 <= i < j < |h| ==> h[i] != h[j])
  }

  function Swapped<T>(s: seq<T>, a: nat, b: nat): seq<T>
    requires a < |s| && b < |s|
  {
    s[a := s[b]][b := s[a]]
  }

  lemma SwapPermutes(h: seq<nat>, a: nat, b: nat)
    requires IsPermutation(h) && a < |h| && b < |h|
    ensures IsPermutation(Swapped(h, a, b))
  {
  }

  /** Keys in heap order, except possibly between `x` and its parent. */
  ghost predicate OrderedBut(keys: seq<int>, x: int) {
    forall i {:trigger keys[i]} :: 0 < i < |keys| && i != x ==> keys[(i - 1) / 2] >= keys[i]
  }

  /** The children of `x` are below the parent of `x`. */
  ghost predicate Sheltered(keys: seq<int>, x: nat) {
    0 < x ==> forall i :: 0 < i < |keys| && (i - 1) / 2 == x ==> keys[(x - 1) / 2] >= keys[i]
  }

  ghost predicate Ordered(keys: seq<int>) {
    OrderedBut(keys, 0)
  }

  /** One step of sifting up. */
  lemma SiftUp(keys: seq<int>, x: nat)
    requires 0 < x < |keys| && OrderedBut(keys, x) && Sheltered(keys, x)
    requires keys[(x - 1) / 2] <= keys[x]
    ensures OrderedBut(Swapped(keys, (x - 1) / 2, x), (x - 1) / 2)
    ensures Sheltered(Swapped(keys, (x - 1) / 2, x), (x - 1) / 2)
  {
  }

  /** A node smaller than its parent ends the sifting. */
  lemma SiftUpEnds(keys: seq<int>, x: nat)
    requires x < |keys| && OrderedBut(keys, x)
    requires 0 < x ==> keys[(x - 1) / 2] >= keys[x]
    ensures Ordered(keys)
  {
  }

  /** Keys in heap order except around `x`, which may be anything. */
  ghost predicate OrderedAround(keys: seq<int>, x: nat) {
    && (forall i {:trigger keys[i]} :: 0 < i < |keys| && i != x && (i - 1) / 2 != x ==> keys[(i - 1) / 2] >= keys[i])
    && Sheltered(keys, x)
  }

  /** One step of sifting down to the larger child `c`. */
  lemma SiftDown(keys: seq<int>, x: nat, c: nat)
    requires OrderedAround(keys, x) && 2 * x + 2 < |keys|
    requires c == (if keys[2 * x + 1] < keys[2 * x + 2] then 2 * x + 2 else 2 * x + 1)
    ensures OrderedAround(Swapped(keys, x, c), c)
  {
    var after := Swapped(keys, x, c);
    forall i {:trigger after[i]} | 0 < i < |after| && i != c
      ensures (i - 1) / 2 != c ==> after[(i - 1) / 2] >= after[i]
      ensures (i - 1) / 2 == c ==> after[(c - 1) / 2] >= after[i]
    {
      SiftDownAt(keys, x, c, i);
    }
  }

  lemma SiftDownAt(keys: seq<int>, x: nat, c: nat, i: nat)
    requires OrderedAround(keys, x) && 2 * x + 2 < |keys| && 0 < i < |keys| && i != c
    requires c == (if keys[2 * x + 1] < keys[2 * x + 2] then 2 * x + 2 else 2 * x + 1)
    ensures var after := Swapped(keys, x, c);
      && ((i - 1) / 2 != c ==> after[(i - 1) / 2] >= after[i])
      && ((i - 1) / 2 == c ==> after[(c - 1) / 2] >= after[i])
  {
    assert (c - 1) / 2 == x;
    var up := (i - 1) / 2;
    if i == x {
      assert keys[(x - 1) / 2] >= keys[c];
      hide *;
      SwappedAt(keys, x, c, i);
      SwappedAt(keys, x, c, up);
    } else if up == x {
      assert i == 2 * x + 1 || i == 2 * x + 2;
      hide *;
      SwappedAt(keys, x, c, i);
      SwappedAt(keys, x, c, up);
    } else {
      assert keys[up] >= keys[i];
      hide *;
      SwappedAt(keys, x, c, i);
      SwappedAt(keys, x, c, up);
      SwappedAt(keys, x, c, x);
    }
  }

  lemma SwappedAt<T>(s: seq<T>, a: nat, b: nat, i: nat)
    requires a < |s| && b < |s| && i < |s|
    ensures |Swapped(s, a, b)| == |s|
    ensures Swapped(s, a, b)[i] == if i == b then s[a] else if i == a then s[b] else s[i]
  {
  }

  /** At a leaf only the order with the parent is left open. */
  lemma SiftDownEnds(keys: seq<int>, x: nat)
    requires OrderedAround(keys, x) && x < |keys| <= 2 * x + 1
    ensures OrderedBut(keys, x) && Sheltered(keys, x)
  {
  }

  /** The root of an ordered heap is its maximum. */
  lemma {:induction false} RootIsMax(keys: seq<int>, i: nat)
    requires Ordered(keys) && i < |keys|
    ensures keys[0] >= keys[i]
  {
    if i > 0 {
      RootIsMax(keys, (i - 1) / 2);
    }
  }

  /** Below the root the larger of its children is the maximum. */
  lemma {:induction false} ChildIsNext(keys: seq<int>, i: nat)
    requires Ordered(keys) && 0 < i < |keys| && |keys| >= 3
    ensures keys[i] <= keys[1] || keys[i] <= keys[2]
  {
    if i > 2 {
      ChildIsNext(keys, (i - 1) / 2);
    }
  }

  // ---------- the heap over an array of scalars ----------

  ghost predicate Indexes(h: seq<nat>, sc: seq<Scalar>) {
    forall i :: 0 <= i < |h| ==> h[i] < |sc|
  }

  ghost function Keys(h: seq<nat>, sc: seq<Scalar>): (k: seq<int>)
    requires Indexes(h, sc)
    ensures |k| == |h|
  {
    seq(|h|, i requires 0 <= i < |h| => Val(sc[h[i]]))
  }

  lemma SwapKeys(h: seq<nat>, sc: seq<Scalar>, a: nat, b: nat)
    requires Indexes(h, sc) && a < |h| && b < |h|
    ensures Indexes(Swapped(h, a, b), sc)
    ensures Keys(Swapped(h, a, b), sc) == Swapped(Keys(h, sc), a, b)
  {
    hide Val;
  }

  /** `heap_swap` */
  method HeapSwap(heap: array<nat>, a: nat, b: nat)
    requires a < heap.Length && b < heap.Length
    modifies heap
    ensures heap[..] == old(Swapped(heap[..], a, b))
  {
    var temp := heap[a];
    heap[a] := heap[b];
    heap[b] := temp;
  }

  lemma TakeSwapped<T>(s: seq<T>, n: nat, a: nat, b: nat)
    requires n <= |s| && a < n && b < n
    ensures Swapped(s, a, b)[..n] == Swapped(s[..n], a, b)
  {
  }

  /** Comparing all five limbs compares the values. */
  method Less(a: Scalar, b: Scalar, limbsize: nat) returns (r: bool)
    requires limbsize < 5 && Within(a, limbsize) && Within(b, limbsize)
    ensures r <==> Val(a) < Val(b)
  {
    hide Val;
    ValWindow(a, limbsize);
    ValWindow(b, limbsize);
    r := LtBatch(a, b, limbsize);
  }

  method LessEqual(a: Scalar, b: Scalar, limbsize: nat) returns (r: bool)
    requires limbsize < 5 && Within(a, limbsize) && Within(b, limbsize)
    ensures r <==> Val(a) <= Val(b)
  {
    hide Val;
    ValWindow(a, limbsize);
    ValWindow(b, limbsize);
    r := LteBatch(a, b, limbsize);
  }

  /** All scalars the heap holds fit in the limbs that are compared. */
  ghost predicate Window(sc: seq<Scalar>, n: nat, limbsize: nat)
    requires n <= |sc|
  {
    forall i :: 0 <= i < n ==> Within(sc[i], limbsize)
  }

  /** What sifting keeps: a permutation, ordered but for the node that moves. */
  ghost predicate Sifting(h: seq<nat>, sc: seq<Scalar>, node: nat) {
    && IsPermutation(h) && |h| <= |sc| && node < |h| && Indexes(h, sc)
    && OrderedBut(Keys(h, sc), node) && Sheltered(Keys(h, sc), node)
  }

  ghost predicate IsHeap(h: seq<nat>, sc: seq<Scalar>) {
    && IsPermutation(h) && |h| <= |sc| && Indexes(h, sc) && Ordered(Keys(h, sc))
  }

  lemma SiftStep(h: seq<nat>, sc: seq<Scalar>, node: nat)
    requires Sifting(h, sc, node) && node > 0
    requires Keys(h, sc)[(node - 1) / 2] <= Keys(h, sc)[node]
    ensures Sifting(Swapped(h, (node - 1) / 2, node), sc, (node - 1) / 2)
  {
    hide Val, Keys, OrderedBut, Sheltered, IsPermutation;
    SwapKeys(h, sc, (node - 1) / 2, node);
    SwapPermutes(h, (node - 1) / 2, node);
    SiftUp(Keys(h, sc), node);
  }

  lemma SiftEnd(h: seq<nat>, sc: seq<Scalar>, node: nat)
    requires Sifting(h, sc, node)
    requires node > 0 ==> Keys(h, sc)[(node - 1) / 2] >= Keys(h, sc)[node]
    ensures IsHeap(h, sc)
  {
    hide Val, Keys;
    SiftUpEnds(Keys(h, sc), node);
  }

  lemma Inserted(h: seq<nat>, sc: seq<Scalar>)
    requires IsHeap(h, sc) && |h| < |sc|
    ensures Sifting(h + [|h|], sc, |h|)
  {
    hide Val;
    var k, k' := Keys(h, sc), Keys(h + [|h|], sc);
    assert forall i :: 0 <= i < |h| ==> k'[i] == k[i];
  }

  /** `heap_insert_next`: adds the index after the last one and sifts it up. */
  method InsertNext(heap: array<nat>, scalars: array<Scalar>, size: nat)
    requires size < heap.Length == scalars.Length
    requires IsHeap(heap[..size], scalars[..])
    modifies heap
    ensures IsHeap(heap[..size + 1], scalars[..])
  {
    hide Val, Keys, OrderedBut, Sheltered, IsPermutation, Within, IsHeap, Sifting, Swapped;
    ghost var sc := scalars[..];
    var node := size;
    Inserted(heap[..size], sc);
    heap[node] := node;
    assert heap[..size + 1] == old(heap[..size]) + [size];
    while true
      invariant node <= size && Sifting(heap[..size + 1], sc, node)
      decreases node
    {
      SiftingFacts(heap[..size + 1], sc, node);
      if node == 0 {
        break;
      }
      var parent := (node - 1) / 2;
      FullWindow(scalars[heap[parent]]);
      FullWindow(scalars[heap[node]]);
      var lt := Less(scalars[heap[parent]], scalars[heap[node]], 4);
      KeyIs(heap[..size + 1], sc, parent);
      KeyIs(heap[..size + 1], sc, node);
      if !lt {
        break;
      }
      SiftStep(heap[..size + 1], sc, node);
      TakeSwapped(heap[..], size + 1, parent, node);
      HeapSwap(heap, parent, node);
      node := parent;
    }
    SiftEnd(heap[..size + 1], sc, node);
  }

  lemma SiftingFacts(h: seq<nat>, sc: seq<Scalar>, node: nat)
    requires Sifting(h, sc, node)
    ensures Indexes(h, sc) && node < |h|
  {
  }

  lemma KeyIs(h: seq<nat>, sc: seq<Scalar>, i: nat)
    requires Indexes(h, sc) && i < |h|
    ensures Keys(h, sc)[i] == Val(sc[h[i]])
  {
  }

  lemma FullWindow(s: Scalar)
    ensures Within(s, 4)
  {
  }

  // ---------- the root is replaced ----------

  /** What sifting down keeps: ordered but around the node that moves. */
  ghost predicate Sinking(h: seq<nat>, sc: seq<Scalar>, node: nat) {
    && IsPermutation(h) && |h| <= |sc| && node < |h| && Indexes(h, sc)
    && OrderedAround(Keys(h, sc), node)
  }

  lemma SinkStep(h: seq<nat>, sc: seq<Scalar>, x: nat, c: nat)
    requires Sinking(h, sc, x) && 2 * x + 2 < |h|
    requires c == (if Keys(h, sc)[2 * x + 1] < Keys(h, sc)[2 * x + 2] then 2 * x + 2 else 2 * x + 1)
    ensures Sinking(Swapped(h, x, c), sc, c)
  {
    hide Val, Keys, OrderedAround, IsPermutation;
    SwapKeys(h, sc, x, c);
    SwapPermutes(h, x, c);
    SiftDown(Keys(h, sc), x, c);
  }

  lemma SinkEnd(h: seq<nat>, sc: seq<Scalar>, x: nat)
    requires Sinking(h, sc, x) && |h| <= 2 * x + 1
    ensures Sifting(h, sc, x)
  {
    hide Val, Keys, IsPermutation;
    SiftDownEnds(Keys(h, sc), x);
  }

  lemma SinkingFacts(h: seq<nat>, sc: seq<Scalar>, node: nat, n: nat, limbsize: nat)
    requires Sinking(h, sc, node) || Sifting(h, sc, node)
    requires n == |h| <= |sc| && Window(sc, n, limbsize)
    ensures Indexes(h, sc) && node < |h|
    ensures forall i :: 0 <= i < |h| ==> Within(sc[h[i]], limbsize)
  {
    hide OrderedAround, OrderedBut, Sheltered, Within, Val;
  }

  /** `heap_updated_root`, first half: the root sinks to a leaf along the larger children. */
  method SinkRoot(heap: array<nat>, scalars: array<Scalar>, size: nat, limbsize: nat) returns (node: nat)
    requires 3 <= size <= heap.Length == scalars.Length && size % 2 == 1 && limbsize < 5
    requires Sinking(heap[..size], scalars[..], 0) && Window(scalars[..], size, limbsize)
    modifies heap
    ensures node > 0 && Sifting(heap[..size], scalars[..], node)
  {
    hide Val, Keys, OrderedAround, IsPermutation, Within, Sinking, Sifting, Swapped, Window;
    ghost var sc := scalars[..];
    var parent := 0;
    node := 1;
    var childl, childr := 1, 2;
    while childr < size
      invariant childl == 2 * parent + 1 && childr == childl + 1
      invariant parent < size && Sinking(heap[..size], sc, parent)
      invariant parent == 0 || node == parent
      decreases size - parent
    {
      ghost var h := heap[..size];
      SinkingFacts(h, sc, parent, size, limbsize);
      assert heap[childl] == h[childl] && heap[childr] == h[childr];
      KeyIs(h, sc, childl);
      KeyIs(h, sc, childr);
      var lt := Less(scalars[heap[childl]], scalars[heap[childr]], limbsize);
      node := if lt then childr else childl;
      SinkStep(h, sc, parent, node);
      TakeSwapped(heap[..], size, parent, node);
      HeapSwap(heap, parent, node);
      parent := node;
      childl := parent * 2 + 1;
      childr := childl + 1;
    }
    SinkEnd(heap[..size], sc, parent);
  }

  /** `heap_updated_root`, second half: it rises again while it is not smaller than its parent. */
  method RaiseNode(heap: array<nat>, scalars: array<Scalar>, size: nat, limbsize: nat, start: nat)
    requires size <= heap.Length == scalars.Length && limbsize < 5
    requires Sifting(heap[..size], scalars[..], start) && Window(scalars[..], size, limbsize)
    modifies heap
    ensures IsHeap(heap[..size], scalars[..])
  {
    hide Val, Keys, OrderedBut, Sheltered, IsPermutation, Within, IsHeap, Sifting, Sinking, Swapped, Window;
    ghost var sc := scalars[..];
    var node: nat := start;
    while true
      invariant Sifting(heap[..size], sc, node)
      decreases node
    {
      ghost var h := heap[..size];
      SinkingFacts(h, sc, node, size, limbsize);
      if node == 0 {
        break;
      }
      var parent := (node - 1) / 2;
      assert heap[parent] == h[parent] && heap[node] == h[node];
      KeyIs(h, sc, parent);
      KeyIs(h, sc, node);
      var lte := LessEqual(scalars[heap[parent]], scalars[heap[node]], limbsize);
      if !lte {
        break;
      }
      SiftStep(h, sc, node);
      TakeSwapped(heap[..], size, parent, node);
      HeapSwap(heap, parent, node);
      node := parent;
    }
    SiftEnd(heap[..size], sc, node);
  }

  /** `heap_updated_root` restores the heap after any change to the scalar of its root. */
  method UpdatedRoot(heap: array<nat>, scalars: array<Scalar>, size: nat, limbsize: nat)
    requires 3 <= size <= heap.Length == scalars.Length && size % 2 == 1 && limbsize < 5
    requires Sinking(heap[..size], scalars[..], 0) && Window(scalars[..], size, limbsize)
    modifies heap
    ensures IsHeap(heap[..size], scalars[..])
  {
    hide *;
    var node := SinkRoot(heap, scalars, size, limbsize);
    RaiseNode(heap, scalars, size, limbsize, node);
  }

  /** `heap_get_top2`: the largest scalar and the largest of the others. */
  method GetTop2(heap: array<nat>, scalars: array<Scalar>, size: nat, limbsize: nat) returns (max1: nat, max2: nat)
    requires 3 <= size <= heap.Length == scalars.Length && limbsize < 5
    requires IsHeap(heap[..size], scalars[..]) && Window(scalars[..], size, limbsize)
    ensures max1 == heap[0] && max1 < size && max2 < size && max1 != max2
    ensures forall i :: 0 <= i < size ==> Val(scalars[i]) <= Val(scalars[max1])
    ensures forall i :: 0 <= i < size && i != max1 ==> Val(scalars[i]) <= Val(scalars[max2])
  {
    hide Val, Keys, Ordered, Within, IsPermutation;
    ghost var h, sc := heap[..size], scalars[..];
    HeapFacts(h, sc);
    var h0, h1, h2 := heap[0], heap[1], heap[2];
    assert h0 == h[0] && h1 == h[1] && h2 == h[2];
    var lt := Less(scalars[h1], scalars[h2], limbsize);
    max1, max2 := h0, if lt then h2 else h1;
    forall i | 0 <= i < size
      ensures Val(sc[i]) <= Val(sc[max1])
      ensures i != max1 ==> Val(sc[i]) <= Val(sc[max2])
    {
      var at := Find(h, i);
      KeyIs(h, sc, at);
      KeyIs(h, sc, 0); KeyIs(h, sc, 1); KeyIs(h, sc, 2);
      RootIsMax(Keys(h, sc), at);
      if at > 0 {
        ChildIsNext(Keys(h, sc), at);
      }
    }
  }

  lemma HeapFacts(h: seq<nat>, sc: seq<Scalar>)
    requires IsHeap(h, sc)
    ensures forall i :: 0 <= i < |h| ==> h[i] < |h|
    ensures |h| >= 3 ==> h[0] != h[1] && h[0] != h[2] && h[1] != h[2]
  {
    hide Ordered, Val;
  }

  function Upto(n: nat): set<nat> {
    if n == 0 then {} else Upto(n - 1) + {n - 1}
  }

  function Image(h: seq<nat>): set<nat> {
    if h == [] then {} else Image(h[..|h| - 1]) + {h[|h| - 1]}
  }

  lemma {:induction false} UptoIs(n: nat)
    ensures |Upto(n)| == n && forall k: nat :: k in Upto(n) <==> k < n
  {
    if n > 0 {
      UptoIs(n - 1);
      assert Upto(n) == Upto(n - 1) + {n - 1};
      hide Upto;
    }
  }

  ghost predicate Distinct(h: seq<nat>) {
    forall i, j :: 0 <= i < j < |h| ==> h[i] != h[j]
  }

  lemma LastIsNew(h: seq<nat>)
    requires Distinct(h) && h != []
    ensures var p, x := h[..|h| - 1], h[|h| - 1];
      Distinct(p) && x !in p && forall k :: k in h <==> k in p || k == x
  {
    assert h == h[..|h| - 1] + [h[|h| - 1]];
  }

  lemma {:induction false} ImageIs(h: seq<nat>)
    requires Distinct(h)
    ensures |Image(h)| == |h| && forall k: nat :: k in Image(h) <==> k in h
  {
    if h != [] {
      var p, x := h[..|h| - 1], h[|h| - 1];
      assert Image(h) == Image(p) + {x};
      hide *;
      LastIsNew(h);
      ImageIs(p);
    }
  }

  /** Every index is in the heap. */
  lemma {:induction false} Find(h: seq<nat>, x: nat) returns (i: nat)
    requires IsPermutation(h) && x < |h|
    ensures i < |h| && h[i] == x
  {
    hide Upto, Image;
    UptoIs(|h|);
    ImageIs(h);
    if x !in h {
      assert Image(h) <= Upto(|h|) - {x};
      SubsetSize(Image(h), Upto(|h|) - {x});
      assert false;
    }
    i :| 0 <= i < |h| && h[i] == x;
  }

  lemma {:induction false} SubsetSize<T>(a: set<T>, b: set<T>)
    requires a <= b
    ensures |a| <= |b|
  {
    assert b == a + (b - a);
  }
}
