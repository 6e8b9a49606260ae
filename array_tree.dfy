/** ArrayTree: a persistent vector. Elements live in a trie of branching
  * factor 32 whose leaves hold 32 elements each, plus a tail of fewer than
  * 32 elements not yet moved into the trie. Every operation returns a new
  * value and shares the untouched nodes with the old one.
  *
  * The functions follow the code, JavaScript shifts and all; `Flatten`
  * reads a trie back as the sequence it stores, and the lemmas prove `get`,
  * `set`, `replaceTail` and `push` against that sequence. */
module ArrayTree {
  import opened Wrappers
  import opened Errors
  import opened Bits
  import opened ArrayHelper

  const SHIFT_STEP: nat := 5

  /** `Tree` holds child nodes, `Leaf` holds elements. */
  datatype Node<T> = Tree(nodes: seq<Node<T>>) | Leaf(elements: seq<T>)

  datatype ArrayTree<T> = ArrayTree(length: int, depth: nat, tree: Node<T>, tail: seq<T>)

  // ---------------------------------------------------------------------
  // The operations, as written

  /** `lastStepBits & (index >>> (depth * shiftStep))`: the child of a
    * level-`depth` node on the path to `index`. */
  function GetNodeIndex(index: int, depth: int): (r: nat)
    ensures r < 32
  {
    Low5(UnsignedShiftRight(index, (depth * SHIFT_STEP) % 32))
  }

  /** `Tree.get` and `Leaf.get`. */
  function NodeGet<T>(n: Node<T>, index: int, depth: int): Result<T>
  {
    match n
    case Leaf(elements) => ElementAt(elements, Low5(index))
    case Tree(nodes) =>
      var child :- ElementAt(nodes, GetNodeIndex(index, depth));
      NodeGet(child, index, depth - 1)
  }

  /** `Tree.set` and `Leaf.set`: the path to `index` is copied, the rest shared. */
  function NodeSet<T>(n: Node<T>, index: int, value: T, depth: int): Result<Node<T>>
  {
    match n
    case Leaf(elements) =>
      var updated :- Replaced(elements, Low5(index), value);
      Success(Leaf(updated))
    case Tree(nodes) =>
      var nodeIndex := GetNodeIndex(index, depth);
      var subtree :- ElementAt(nodes, nodeIndex);
      var newSubtree :- NodeSet(subtree, index, value, depth - 1);
      var updated :- Replaced(nodes, nodeIndex, newSubtree);
      Success(Tree(updated))
  }

  /** `Tree.insertTail` and `Leaf.insertTail`: hangs the full leaf `tail`
    * on the path to `index`, creating the nodes missing on the way. A
    * `Tree` reached at depth 0 or below only ever calls itself deeper
    * still, so the call stack overflows. */
  function InsertTail<T>(n: Node<T>, tail: seq<T>, index: int, depth: int): Result<Node<T>>
    decreases if depth < 0 then 0 else depth, if n.Leaf? then 1 else 0
  {
    match n
    case Leaf(_) =>
      if depth - 1 <= 0 then Failure(CallStackExceeded)
      else InsertTail(Tree([n]), tail, index, depth - 1)
    case Tree(nodes) =>
      if depth <= 0 then Failure(CallStackExceeded)
      else
        var nodeIndex := GetNodeIndex(index, depth);
        if nodeIndex >= |nodes| then
          if depth == 1 then Success(Tree(Pushed(nodes, Leaf(tail))))
          else
            var subtree :- InsertTail(Tree([]), tail, index, depth - 1);
            Success(Tree(Pushed(nodes, subtree)))
        else
          var node :- ElementAt(nodes, nodeIndex);
          var updatedNode :- InsertTail(node, tail, index, depth - 1);
          var updated :- Replaced(nodes, nodeIndex, updatedNode);
          Success(Tree(updated))
  }

  /** `getIndexOfTheFirstElementInTail`: `(length >>> 5) << 5`. */
  function TailStart(length: int): int
  {
    ShiftLeft(UnsignedShiftRight(length, SHIFT_STEP), SHIFT_STEP)
  }

  /** `get`: `None` (`undefined`) outside `0 .. length - 1`. */
  function Get<T>(a: ArrayTree<T>, index: int): Result<Option<T>>
  {
    if index < 0 || index >= a.length then Success(None)
    else if index >= TailStart(a.length) then
      var v :- ElementAt(a.tail, Low5(index));
      Success(Some(v))
    else
      var v :- NodeGet(a.tree, index, a.depth);
      Success(Some(v))
  }

  /** `set`: outside `0 .. length - 1` the array tree itself comes back. */
  function Set<T>(a: ArrayTree<T>, index: int, value: T): Result<ArrayTree<T>>
  {
    if index < 0 || index >= a.length then Success(a)
    else if index >= TailStart(a.length) then
      var tail :- Replaced(a.tail, Low5(index), value);
      Success(ArrayTree(a.length, a.depth, a.tree, tail))
    else
      var tree :- NodeSet(a.tree, index, value, a.depth);
      Success(ArrayTree(a.length, a.depth, tree, a.tail))
  }

  /** `newArrayTreeLength >>> shiftStep > 1 << (depth * shiftStep)`: the
    * leaves would no longer fit under a root of this depth. */
  predicate Overflows(newLength: int, depth: int)
  {
    UnsignedShiftRight(newLength, SHIFT_STEP) > ShiftLeft(1, (depth * SHIFT_STEP) % 32)
  }

  /** `replaceTail`: a tail of 32 elements moves into the trie as a leaf,
    * under a new root one level deeper when the old root is full. */
  function ReplaceTail<T>(a: ArrayTree<T>, newTail: seq<T>): Result<ArrayTree<T>>
  {
    var newLength := a.length + (|newTail| - |a.tail|);
    if |newTail| > 32 then Failure(TailTooLong)
    else if |newTail| == 32 then
      if Overflows(newLength, a.depth) then MoveTail(a, newTail, Tree([a.tree]), a.depth + 1)
      else MoveTail(a, newTail, a.tree, a.depth)
    else Success(ArrayTree(newLength, a.depth, a.tree, newTail))
  }

  /** The two full-tail branches of `replaceTail`: the tail goes in as a
    * leaf under `root`, which becomes the trie of depth `depth`, and the
    * new tail is empty. */
  function MoveTail<T>(a: ArrayTree<T>, newTail: seq<T>, root: Node<T>, depth: int): Result<ArrayTree<T>>
  {
    var newTree :- InsertTail(root, newTail, a.length, depth);
    Success(ArrayTree(a.length + (|newTail| - |a.tail|), depth, newTree, []))
  }

  /** `push`. */
  function Push<T>(a: ArrayTree<T>, value: T): Result<ArrayTree<T>>
  {
    ReplaceTail(a, a.tail + [value])
  }

  /** An array tree with no elements: a root with no children and an empty
    * tail, which is what the builder produces from nothing. */
  function EmptyArrayTree<T>(): (r: ArrayTree<T>)
    ensures Valid(r) && Elements(r) == []
  {
    ArrayTree(0, 1, Tree([]), [])
  }

  // ---------------------------------------------------------------------
  // The sequence a trie stores

  /** 32 to the power `d`: a node of level `d` spans `Pow32(d + 1)` indices. */
  function Pow32(d: nat): (r: nat)
    ensures r >= 1
  {
    if d == 0 then 1 else 32 * Pow32(d - 1)
  }

  /** Digit `d`, in base 32, of `index`. */
  function Digit(index: nat, d: nat): nat
  {
    (index / Pow32(d)) % 32
  }

  /** The elements under `n`, read as a node of level `d` (leaves are level 0). */
  function Flatten<T>(n: Node<T>, d: nat): seq<T>
    decreases d, 0
  {
    if d == 0 then (if n.Leaf? then n.elements else [])
    else if n.Tree? then FlattenNodes(n.nodes, d - 1)
    else []
  }

  /** The elements under the nodes `ns` of level `d`, in order. */
  function FlattenNodes<T>(ns: seq<Node<T>>, d: nat): seq<T>
    decreases d, |ns|
  {
    if ns == [] then [] else FlattenNodes(ns[..|ns| - 1], d) + Flatten(ns[|ns| - 1], d)
  }

  /** A node of level `d` holding as many elements as it can. */
  ghost predicate Full<T>(n: Node<T>, d: nat)
    decreases d
  {
    if d == 0 then n.Leaf? && |n.elements| == 32
    else n.Tree? && |n.nodes| == 32 && forall i :: 0 <= i < 32 ==> Full(n.nodes[i], d - 1)
  }

  /** A node of level `d` filled from the left: every child but the last is full. */
  ghost predicate Packed<T>(n: Node<T>, d: nat)
    decreases d
  {
    if d == 0 then n.Leaf? && |n.elements| == 32
    else
      n.Tree? && |n.nodes| <= 32
      && (forall i :: 0 <= i < |n.nodes| - 1 ==> Full(n.nodes[i], d - 1))
      && (n.nodes != [] ==> Packed(n.nodes[|n.nodes| - 1], d - 1))
  }

  /** What every array tree the operations build satisfies: the trie holds
    * the first `length - length % 32` elements, the tail the rest, and the
    * length stays below 2^31, where the shifts on it are divisions. */
  ghost predicate Valid<T>(a: ArrayTree<T>)
  {
    1 <= a.depth <= 6 && 0 <= a.length < TWO_31
    && |a.tail| == a.length % 32
    && Packed(a.tree, a.depth)
    && |Flatten(a.tree, a.depth)| == a.length - |a.tail|
  }

  /** The elements of an array tree, in index order. */
  function Elements<T>(a: ArrayTree<T>): seq<T>
  {
    Flatten(a.tree, a.depth) + a.tail
  }

  // ---------------------------------------------------------------------
  // Arithmetic

  lemma {:induction false} Pow2Pow32(d: nat)
    ensures Pow2(SHIFT_STEP * d) == Pow32(d)
  {
    if d > 0 {
      Pow2Pow32(d - 1);
      Pow2Add(5, SHIFT_STEP * (d - 1));
      Pow2Table();
    }
  }

  lemma {:induction false} Pow32Grows(d: nat, e: nat)
    requires d <= e
    ensures Pow32(d) <= Pow32(e)
    decreases e
  {
    if d < e {
      Pow32Grows(d, e - 1);
    }
  }

  /** Below 2^32 and at levels up to 6 the shifts compute the base-32 digit. */
  lemma GetNodeIndexIsDigit(index: nat, d: nat)
    requires index < TWO_32 && d <= 6
    ensures GetNodeIndex(index, d) == Digit(index, d)
  {
    assert (d * SHIFT_STEP) % 32 == SHIFT_STEP * d;
    Pow2Pow32(d);
  }

  /** `k * p <= m * p` when `k <= m`. */
  lemma MulMono(k: nat, m: nat, p: nat)
    requires k <= m
    ensures k * p <= m * p
  {
  }

  /** An offset below `j` spans of `p` lies in one of the first `j` of them. */
  lemma DivBelow(local: nat, j: nat, p: nat)
    requires p >= 1 && local < j * p
    ensures local / p < j
  {
    var k := local / p;
    assert local == k * p + local % p;
    if k >= j {
      MulMono(j, k, p);
    }
  }

  /** Inside the span `32 * p` of a node, the digit `index / p % 32` picks
    * the child, and the index within the child is what is left. */
  lemma SplitSpan(index: nat, p: nat)
    requires p >= 1
    ensures var local := index % (32 * p);
      (index / p) % 32 == local / p && index % p == local % p
  {
    var q := 32 * p;
    var a, local := index / q, index % q;
    var k, s := local / p, local % p;
    DivBelow(local, 32, p);
    assert index == (32 * a + k) * p + s by {
      assert index == a * q + local;
      assert local == k * p + s;
      Regroup(a, k, p, s);
    }
    ModUnique(index, p, 32 * a + k, s);
    ModUnique(32 * a + k, 32, a, k);
  }

  lemma DivMod(a: nat, p: nat)
    requires p >= 1
    ensures a == (a / p) * p + a % p
  {
  }

  /** Regrouping `a` spans of 32 children plus `k` children plus `s`. */
  lemma Regroup(a: int, k: int, p: int, s: int)
    ensures a * (32 * p) + (k * p + s) == (32 * a + k) * p + s
  {
  }

  /** Inside the span of a node of level `d`, the digit of level `d` picks
    * the child, and the index within the child is what is left. */
  lemma DigitSplit(index: nat, d: nat)
    ensures var p := Pow32(d); var local := index % (32 * p);
      Digit(index, d) == local / p && index % p == local % p
  {
    SplitSpan(index, Pow32(d));
  }

  /** `i` lies in child `k` of a node whose children span `p` indices each. */
  lemma InChild(i: int, k: nat, p: nat, s: int)
    requires p >= 1 && 0 <= s < p && i == k * p + s
    ensures i / p == k && i % p == s
  {
    ModUnique(i, p, k, s);
  }

  // ---------------------------------------------------------------------
  // Shapes and lengths

  lemma {:induction false} FlattenNodesAppend<T>(ns: seq<Node<T>>, ms: seq<Node<T>>, d: nat)
    ensures FlattenNodes(ns + ms, d) == FlattenNodes(ns, d) + FlattenNodes(ms, d)
    decreases |ms|
  {
    if ms == [] {
      assert ns + ms == ns;
    } else {
      var init := ms[..|ms| - 1];
      assert (ns + ms)[..|ns + ms| - 1] == ns + init;
      FlattenNodesAppend(ns, init, d);
    }
  }

  lemma FlattenNodesOne<T>(n: Node<T>, d: nat)
    ensures FlattenNodes([n], d) == Flatten(n, d)
  {
    assert [n][..0] == [];
  }

  lemma {:induction false} FullLength<T>(n: Node<T>, d: nat)
    requires Full(n, d)
    ensures |Flatten(n, d)| == Pow32(d + 1)
    decreases d, 0
  {
    if d > 0 {
      FullNodesLength(n.nodes, d - 1, 32);
      assert n.nodes[..32] == n.nodes;
    }
  }

  /** `k` full nodes of level `d` hold `k` times the span of one. */
  lemma {:induction false} FullNodesLength<T>(ns: seq<Node<T>>, d: nat, k: nat)
    requires k <= |ns|
    requires forall i :: 0 <= i < k ==> Full(ns[i], d)
    ensures |FlattenNodes(ns[..k], d)| == k * Pow32(d + 1)
    decreases d, k
  {
    if k > 0 {
      var p := Pow32(d + 1);
      FullNodesLength(ns, d, k - 1);
      var init, last := ns[..k][..k - 1], ns[..k][k - 1];
      assert init == ns[..k - 1] && last == ns[k - 1];
      FullLength(last, d);
      assert |FlattenNodes(ns[..k], d)| == |FlattenNodes(init, d)| + |Flatten(last, d)|;
      assert (k - 1) * p + p == k * p;
    }
  }

  lemma FullIsPacked<T>(n: Node<T>, d: nat)
    requires Full(n, d)
    ensures Packed(n, d)
  {
  }

  /** The count of a node whose first `m` children hold `p` elements each
    * and whose last child holds `c`. */
  lemma CountArith(m: nat, p0: nat, p: nat, c: nat)
    requires m <= 31 && c <= p && p0 >= 1 && p == 32 * p0 && c % 32 == 0
    ensures m * p + c <= 32 * p && (m * p + c) % 32 == 0
    ensures m * p + c == 32 * p ==> m == 31 && c == p
  {
    MulMono(m, 31, p);
    if m < 31 {
      MulMono(m, 30, p);
    }
    ModUnique(m * p + c, 32, m * p0 + c / 32, 0);
  }

  /** A packed node holds a whole number of leaves, at most its span, and
    * exactly the span only when it is full. */
  lemma {:induction false} PackedLength<T>(n: Node<T>, d: nat)
    requires Packed(n, d)
    ensures |Flatten(n, d)| <= Pow32(d + 1) && |Flatten(n, d)| % 32 == 0
    ensures |Flatten(n, d)| == Pow32(d + 1) ==> Full(n, d)
    decreases d
  {
    if d > 0 {
      var ns, p := n.nodes, Pow32(d);
      if ns != [] {
        var m := |ns| - 1;
        var last := ns[m];
        PackedLength(last, d - 1);
        FullNodesLength(ns, d - 1, m);
        assert ns[..m + 1] == ns;
        var c := |Flatten(last, d - 1)|;
        assert |Flatten(n, d)| == m * p + c;
        CountArith(m, Pow32(d - 1), p, c);
        if m * p + c == 32 * p {
          assert Full(last, d - 1);
          assert forall i :: 0 <= i < 32 ==> Full(ns[i], d - 1) by {
            forall i | 0 <= i < 32
              ensures Full(ns[i], d - 1)
            {
              if i < m {
              } else {
                assert ns[i] == last;
              }
            }
          }
        }
      }
    }
  }

  // ---------------------------------------------------------------------
  // get, set and insertTail on a packed node

  /** Splits the elements of `ns` around child `k`. */
  lemma SplitNodes<T>(ns: seq<Node<T>>, d: nat, k: nat)
    requires k < |ns|
    ensures FlattenNodes(ns, d)
         == FlattenNodes(ns[..k], d) + Flatten(ns[k], d) + FlattenNodes(ns[k + 1..], d)
  {
    assert ns == ns[..k] + [ns[k]] + ns[k + 1..];
    FlattenNodesAppend(ns[..k] + [ns[k]], ns[k + 1..], d);
    FlattenNodesAppend(ns[..k], [ns[k]], d);
    FlattenNodesOne(ns[k], d);
  }

  /** Splits the elements of `ns` at child `k`, all of whose left siblings are full. */
  lemma SplitAt<T>(ns: seq<Node<T>>, d: nat, k: nat)
    requires k < |ns|
    requires forall i :: 0 <= i < k ==> Full(ns[i], d)
    ensures FlattenNodes(ns, d)
         == FlattenNodes(ns[..k], d) + Flatten(ns[k], d) + FlattenNodes(ns[k + 1..], d)
    ensures |FlattenNodes(ns[..k], d)| == k * Pow32(d + 1)
  {
    SplitNodes(ns, d, k);
    FullNodesLength(ns, d, k);
  }

  /** A packed node holds at most a full node's worth per child. */
  lemma PackedBound<T>(n: Node<T>, d: nat)
    requires d >= 1 && Packed(n, d)
    ensures |Flatten(n, d)| <= |n.nodes| * Pow32(d)
  {
    var ns, p := n.nodes, Pow32(d);
    if ns != [] {
      var m := |ns| - 1;
      PackedLength(ns[m], d - 1);
      FullNodesLength(ns, d - 1, m);
      assert ns[..m + 1] == ns;
      assert |Flatten(n, d)| == m * p + |Flatten(ns[m], d - 1)|;
      LastPartial(m, p, |Flatten(ns[m], d - 1)|);
    }
  }

  lemma LastPartial(m: nat, p: nat, c: nat)
    requires c <= p
    ensures m * p + c <= (m + 1) * p
  {
  }

  /** The child a valid local index falls in exists, and its left siblings are full. */
  lemma ChildOf<T>(n: Node<T>, d: nat, local: nat, k: nat)
    requires d >= 1 && Packed(n, d) && local < |Flatten(n, d)| && k == local / Pow32(d)
    ensures k < |n.nodes|
    ensures forall i :: 0 <= i < k ==> Full(n.nodes[i], d - 1)
  {
    PackedBound(n, d);
    DivBelow(local, |n.nodes|, Pow32(d));
  }

  lemma IndexMiddle<T>(a: seq<T>, b: seq<T>, c: seq<T>, i: nat, s: nat)
    requires s < |b| && i == |a| + s
    ensures (a + b + c)[i] == b[s]
  {
  }

  /** Where `index` falls in a packed node of level `d >= 1`: child `k`,
    * at offset `s`, with the elements of the node split around that child. */
  lemma Locate<T>(n: Node<T>, index: nat, d: nat) returns (k: nat, s: nat)
    requires 1 <= d <= 6 && Packed(n, d) && index < TWO_32
    requires index % Pow32(d + 1) < |Flatten(n, d)|
    ensures k < |n.nodes| && k == GetNodeIndex(index, d) && s == index % Pow32(d)
    ensures forall i :: 0 <= i < k ==> Full(n.nodes[i], d - 1)
    ensures Packed(n.nodes[k], d - 1) && s < |Flatten(n.nodes[k], d - 1)|
    ensures var before := FlattenNodes(n.nodes[..k], d - 1);
      Flatten(n, d) == before + Flatten(n.nodes[k], d - 1) + FlattenNodes(n.nodes[k + 1..], d - 1)
      && index % Pow32(d + 1) == |before| + s
  {
    var ns, p := n.nodes, Pow32(d);
    assert Pow32(d + 1) == 32 * p;
    var local := index % (32 * p);
    DigitSplit(index, d);
    GetNodeIndexIsDigit(index, d);
    k, s := local / p, index % p;
    DivMod(local, p);
    ChildOf(n, d, local, k);
    SplitAt(ns, d - 1, k);
    if k < |ns| - 1 {
      FullLength(ns[k], d - 1);
      FullIsPacked(ns[k], d - 1);
    } else {
      assert ns[k + 1..] == [];
    }
  }

  /** One level of `get`: it reads on in the child the index falls in. */
  lemma NodeGetStep<T>(n: Node<T>, index: nat, d: nat) returns (child: Node<T>)
    requires 1 <= d <= 6 && Packed(n, d) && index < TWO_32
    requires index % Pow32(d + 1) < |Flatten(n, d)|
    ensures NodeGet(n, index, d) == NodeGet(child, index, d - 1)
    ensures Packed(child, d - 1) && index % Pow32(d) < |Flatten(child, d - 1)|
    ensures Flatten(n, d)[index % Pow32(d + 1)] == Flatten(child, d - 1)[index % Pow32(d)]
  {
    var k, s := Locate(n, index, d);
    child := n.nodes[k];
    IndexMiddle(FlattenNodes(n.nodes[..k], d - 1), Flatten(child, d - 1), FlattenNodes(n.nodes[k + 1..], d - 1), index % Pow32(d + 1), s);
  }

  /** `get` on a packed node of level `d` reads the element at the index's
    * offset within the node. */
  lemma {:induction false} NodeGetSpec<T>(n: Node<T>, index: nat, d: nat)
    requires Packed(n, d) && index < TWO_32 && d <= 6
    requires index % Pow32(d + 1) < |Flatten(n, d)|
    ensures NodeGet(n, index, d) == Success(Flatten(n, d)[index % Pow32(d + 1)])
    decreases d
  {
    if d == 0 {
      assert Low5(index) == index % Pow32(1);
    } else {
      var child := NodeGetStep(n, index, d);
      NodeGetSpec(child, index, d - 1);
    }
  }

  lemma ReplaceMiddle<T>(a: seq<T>, b: seq<T>, c: seq<T>, i: nat, s: nat, value: T)
    requires s < |b| && i == |a| + s
    ensures (a + b + c)[i := value] == a + b[s := value] + c
  {
  }

  /** `set` on a leaf writes the element at the index's low five bits. */
  lemma NodeSetLeaf<T>(n: Node<T>, index: nat, value: T)
    requires Packed(n, 0)
    ensures var r := NodeSet(n, index, value, 0);
      r.Success? && Packed(r.value, 0) && Full(r.value, 0)
      && Flatten(r.value, 0) == Flatten(n, 0)[index % Pow32(1) := value]
  {
    assert Low5(index) == index % Pow32(1);
  }

  /** One level of `set`: the node comes back with child `k` replaced by
    * what `set` made of it. */
  lemma NodeSetUp<T>(n: Node<T>, index: nat, value: T, d: nat, k: nat, updated: Node<T>)
    requires d >= 1 && n.Tree? && k < |n.nodes| && k == GetNodeIndex(index, d)
    requires NodeSet(n.nodes[k], index, value, d - 1) == Success(updated)
    ensures NodeSet(n, index, value, d) == Success(Tree(n.nodes[k := updated]))
  {
  }

  /** Replacing child `k` by a node of the same kind keeps the node packed, or full. */
  lemma ReplaceChildShape<T>(n: Node<T>, d: nat, k: nat, updated: Node<T>)
    requires d >= 1 && Packed(n, d) && k < |n.nodes|
    requires Packed(updated, d - 1) && (Full(n.nodes[k], d - 1) ==> Full(updated, d - 1))
    ensures Packed(Tree(n.nodes[k := updated]), d)
    ensures Full(n, d) ==> Full(Tree(n.nodes[k := updated]), d)
  {
    var ns, ns' := n.nodes, n.nodes[k := updated];
    assert forall i :: 0 <= i < |ns'| && i != k ==> ns'[i] == ns[i];
  }

  /** Replacing child `k` replaces its elements within the node's. */
  lemma ReplaceChildElements<T>(ns: seq<Node<T>>, d: nat, k: nat, updated: Node<T>)
    requires k < |ns|
    ensures FlattenNodes(ns[k := updated], d)
         == FlattenNodes(ns[..k], d) + Flatten(updated, d) + FlattenNodes(ns[k + 1..], d)
  {
    var ns' := ns[k := updated];
    SplitNodes(ns', d, k);
    assert ns'[..k] == ns[..k] && ns'[k + 1..] == ns[k + 1..];
  }

  /** What `set` on a packed node of level `d` achieves: it replaces the
    * element at the index's offset and keeps the node packed, or full. */
  ghost predicate SetReplaces<T>(n: Node<T>, index: nat, value: T, d: nat)
  {
    var r := NodeSet(n, index, value, d);
    index % Pow32(d + 1) < |Flatten(n, d)|
    && r.Success? && Packed(r.value, d)
    && Flatten(r.value, d) == Flatten(n, d)[index % Pow32(d + 1) := value]
    && (Full(n, d) ==> Full(r.value, d))
  }

  lemma FlattenTree<T>(ns: seq<Node<T>>, d: nat)
    requires d >= 1
    ensures Flatten(Tree(ns), d) == FlattenNodes(ns, d - 1)
  {
  }

  lemma FullChild<T>(n: Node<T>, d: nat, k: nat)
    requires d >= 1 && Full(n, d) && k < 32
    ensures k < |n.nodes| && Full(n.nodes[k], d - 1)
  {
  }

  /** The elements after one level of `set`, given where the index falls
    * (as `Locate` finds it) and what `set` made of that child. */
  lemma SetLevelElements<T>(n: Node<T>, i: nat, value: T, d: nat, k: nat, s: nat, updated: Node<T>)
    requires 1 <= d && n.Tree? && k < |n.nodes| && s < |Flatten(n.nodes[k], d - 1)|
    requires var before := FlattenNodes(n.nodes[..k], d - 1);
      Flatten(n, d) == before + Flatten(n.nodes[k], d - 1) + FlattenNodes(n.nodes[k + 1..], d - 1)
      && i == |before| + s
    requires Flatten(updated, d - 1) == Flatten(n.nodes[k], d - 1)[s := value]
    ensures Flatten(Tree(n.nodes[k := updated]), d) == Flatten(n, d)[i := value]
  {
    var ns := n.nodes;
    ReplaceChildElements(ns, d - 1, k, updated);
    FlattenTree(ns[k := updated], d);
    var before, after := FlattenNodes(ns[..k], d - 1), FlattenNodes(ns[k + 1..], d - 1);
    ReplaceMiddle(before, Flatten(ns[k], d - 1), after, i, s, value);
  }

  /** One level of `set`, given where the index falls (as `Locate` finds
    * it) and what `set` made of that child. */
  lemma SetLevel<T>(n: Node<T>, index: nat, value: T, d: nat, k: nat, s: nat, updated: Node<T>)
    requires 1 <= d && Packed(n, d) && k < |n.nodes| && k == GetNodeIndex(index, d)
    requires k < |n.nodes| - 1 ==> Full(n.nodes[k], d - 1)
    requires s < |Flatten(n.nodes[k], d - 1)|
    requires var before := FlattenNodes(n.nodes[..k], d - 1);
      Flatten(n, d) == before + Flatten(n.nodes[k], d - 1) + FlattenNodes(n.nodes[k + 1..], d - 1)
      && index % Pow32(d + 1) == |before| + s
    requires NodeSet(n.nodes[k], index, value, d - 1) == Success(updated)
    requires Packed(updated, d - 1) && Flatten(updated, d - 1) == Flatten(n.nodes[k], d - 1)[s := value]
    requires Full(n.nodes[k], d - 1) ==> Full(updated, d - 1)
    ensures SetReplaces(n, index, value, d)
  {
    NodeSetUp(n, index, value, d, k, updated);
    if Full(n, d) {
      FullChild(n, d, k);
    }
    ReplaceChildShape(n, d, k, updated);
    SetLevelElements(n, index % Pow32(d + 1), value, d, k, s, updated);
  }

  /** One level of `set`: if `set` does its job in the child the index
    * falls in, it does it in the node. */
  lemma NodeSetStep<T>(n: Node<T>, index: nat, value: T, d: nat) returns (child: Node<T>)
    requires 1 <= d <= 6 && Packed(n, d) && index < TWO_32
    requires index % Pow32(d + 1) < |Flatten(n, d)|
    ensures Packed(child, d - 1) && index % Pow32(d) < |Flatten(child, d - 1)|
    ensures SetReplaces(child, index, value, d - 1) ==> SetReplaces(n, index, value, d)
  {
    var k, s := Locate(n, index, d);
    child := n.nodes[k];
    if SetReplaces(child, index, value, d - 1) {
      SetLevel(n, index, value, d, k, s, NodeSet(child, index, value, d - 1).value);
    }
  }

  /** `set` on a packed node of level `d` replaces the element at the
    * index's offset, keeping the node packed, or full if it was. */
  lemma {:induction false} NodeSetSpec<T>(n: Node<T>, index: nat, value: T, d: nat)
    requires Packed(n, d) && index < TWO_32 && d <= 6
    requires index % Pow32(d + 1) < |Flatten(n, d)|
    ensures SetReplaces(n, index, value, d)
    decreases d
  {
    if d == 0 {
      NodeSetLeaf(n, index, value);
    } else {
      var child := NodeSetStep(n, index, value, d);
      NodeSetSpec(child, index, value, d - 1);
    }
  }

  /** What `insertTail` is called with: a packed node with room for one
    * more leaf, and an index whose offset in the node falls in that leaf. */
  ghost predicate InsertsAt<T>(n: Node<T>, tail: seq<T>, index: nat, d: nat)
  {
    1 <= d <= 6 && Packed(n, d) && |tail| == 32 && index < TWO_32
    && |Flatten(n, d)| < Pow32(d + 1)
    && index % Pow32(d + 1) / 32 == |Flatten(n, d)| / 32
  }

  /** What `insertTail` achieves: the node stays packed and the 32 elements
    * of `tail` follow its own. */
  ghost predicate InsertAppends<T>(n: Node<T>, tail: seq<T>, index: nat, d: nat)
  {
    var r := InsertTail(n, tail, index, d);
    r.Success? && Packed(r.value, d) && Flatten(r.value, d) == Flatten(n, d) + tail
  }

  /** Where the free leaf falls: after `m` children of `p` elements and `c`
    * elements of the next one, which has room for it. */
  lemma SlotArith(local: nat, count: nat, m: nat, p: nat, c: nat)
    requires p >= 32 && p % 32 == 0 && c < p && c % 32 == 0
    requires count == m * p + c && local / 32 == count / 32
    ensures local / p == m && local % p / 32 == c / 32
  {
    var t := local - count;
    assert count % 32 == 0 by {
      ModUnique(count, 32, m * (p / 32) + c / 32, 0);
    }
    assert 0 <= t < 32 by {
      DivMod(local, 32);
    }
    assert c + 32 <= p by {
      ModUnique(p, 32, p / 32, 0);
      ModUnique(c, 32, c / 32, 0);
    }
    InChild(local, m, p, c + t);
    ModUnique(c + t, 32, c / 32, t);
  }

  /** The nodes of a packed node whose last child is full are all full. */
  lemma AllFull<T>(n: Node<T>, d: nat)
    requires d >= 1 && Packed(n, d) && n.nodes != []
    requires |Flatten(n.nodes[|n.nodes| - 1], d - 1)| == Pow32(d)
    ensures forall i :: 0 <= i < |n.nodes| ==> Full(n.nodes[i], d - 1)
  {
    PackedLength(n.nodes[|n.nodes| - 1], d - 1);
  }

  /** The elements of a node split before its last child. */
  lemma SplitLast<T>(n: Node<T>, d: nat)
    requires d >= 1 && n.Tree? && n.nodes != []
    ensures var m := |n.nodes| - 1;
      Flatten(n, d) == FlattenNodes(n.nodes[..m], d - 1) + Flatten(n.nodes[m], d - 1)
  {
  }

  /** `insertTail` where the index falls after the last child: a new child,
    * the leaf itself at level 1, is pushed. */
  lemma InsertPushUp<T>(n: Node<T>, tail: seq<T>, index: nat, d: nat, sub: Node<T>)
    requires d >= 1 && n.Tree? && GetNodeIndex(index, d) == |n.nodes|
    requires d == 1 ==> sub == Leaf(tail)
    requires d >= 2 ==> InsertTail(Tree([]), tail, index, d - 1) == Success(sub)
    ensures InsertTail(n, tail, index, d) == Success(Tree(n.nodes + [sub]))
  {
  }

  /** `insertTail` where the index falls in the last child: that child is replaced. */
  lemma InsertIntoUp<T>(n: Node<T>, tail: seq<T>, index: nat, d: nat, updated: Node<T>)
    requires d >= 2 && n.Tree? && n.nodes != [] && GetNodeIndex(index, d) == |n.nodes| - 1
    requires InsertTail(n.nodes[|n.nodes| - 1], tail, index, d - 1) == Success(updated)
    ensures InsertTail(n, tail, index, d) == Success(Tree(n.nodes[|n.nodes| - 1 := updated]))
  {
  }

  /** Pushing a packed child after full ones leaves a packed node whose
    * elements are followed by the child's. */
  lemma PushChild<T>(n: Node<T>, d: nat, sub: Node<T>)
    requires d >= 1 && n.Tree? && |n.nodes| < 32
    requires forall i :: 0 <= i < |n.nodes| ==> Full(n.nodes[i], d - 1)
    requires Packed(sub, d - 1)
    ensures Packed(Tree(n.nodes + [sub]), d)
    ensures Flatten(Tree(n.nodes + [sub]), d) == Flatten(n, d) + Flatten(sub, d - 1)
  {
    var ns := n.nodes + [sub];
    assert ns[..|ns| - 1] == n.nodes;
    FlattenTree(ns, d);
  }

  /** Replacing the last child by a packed one with more elements keeps the
    * node packed. */
  lemma ReplaceLast<T>(n: Node<T>, d: nat, updated: Node<T>, tail: seq<T>)
    requires d >= 1 && Packed(n, d) && n.nodes != []
    requires Packed(updated, d - 1)
    requires Flatten(updated, d - 1) == Flatten(n.nodes[|n.nodes| - 1], d - 1) + tail
    ensures var ns := n.nodes[|n.nodes| - 1 := updated];
      Packed(Tree(ns), d) && Flatten(Tree(ns), d) == Flatten(n, d) + tail
  {
    var m := |n.nodes| - 1;
    var ns := n.nodes[m := updated];
    assert ns[..m] == n.nodes[..m];
    assert forall i :: 0 <= i < m ==> ns[i] == n.nodes[i];
    SplitLast(n, d);
    SplitLast(Tree(ns), d);
  }

  /** The arithmetic of one level of `insertTail`. */
  lemma InsertFacts<T>(n: Node<T>, tail: seq<T>, index: nat, d: nat)
    requires InsertsAt(n, tail, index, d)
    ensures var p := Pow32(d); var local := index % Pow32(d + 1);
      p >= 32 && p % 32 == 0 && n.Tree? && |n.nodes| <= 32
      && GetNodeIndex(index, d) == local / p && index % p == local % p
  {
    var p := Pow32(d);
    assert Pow32(d + 1) == 32 * p;
    DigitSplit(index, d);
    GetNodeIndexIsDigit(index, d);
    Pow32Grows(1, d);
    ModUnique(p, 32, Pow32(d - 1), 0);
  }

  /** A packed node whose last child is full holds whole children only. */
  lemma FullCount<T>(n: Node<T>, d: nat)
    requires d >= 1 && Packed(n, d)
    requires n.nodes == [] || |Flatten(n.nodes[|n.nodes| - 1], d - 1)| == Pow32(d)
    ensures forall i :: 0 <= i < |n.nodes| ==> Full(n.nodes[i], d - 1)
    ensures |Flatten(n, d)| == |n.nodes| * Pow32(d)
  {
    var ns := n.nodes;
    if ns != [] {
      AllFull(n, d);
      FullNodesLength(ns, d - 1, |ns|);
      assert ns[..|ns|] == ns;
    }
  }

  /** When every child is full, the index falls just after the last one. */
  lemma PushSlot<T>(n: Node<T>, tail: seq<T>, index: nat, d: nat)
    requires InsertsAt(n, tail, index, d)
    requires n.nodes == [] || |Flatten(n.nodes[|n.nodes| - 1], d - 1)| == Pow32(d)
    ensures forall i :: 0 <= i < |n.nodes| ==> Full(n.nodes[i], d - 1)
    ensures |n.nodes| < 32 && GetNodeIndex(index, d) == |n.nodes| && index % Pow32(d) / 32 == 0
  {
    InsertFacts(n, tail, index, d);
    FullCount(n, d);
    SlotArith(index % Pow32(d + 1), |Flatten(n, d)|, |n.nodes|, Pow32(d), 0);
  }

  /** The result of `insertTail` when every child is full, given the new child. */
  lemma PushedUp<T>(n: Node<T>, tail: seq<T>, index: nat, d: nat, sub: Node<T>)
    requires InsertsAt(n, tail, index, d)
    requires forall i :: 0 <= i < |n.nodes| ==> Full(n.nodes[i], d - 1)
    requires |n.nodes| < 32 && GetNodeIndex(index, d) == |n.nodes|
    requires d == 1 ==> sub == Leaf(tail)
    requires d >= 2 ==> InsertTail(Tree([]), tail, index, d - 1) == Success(sub)
    requires Packed(sub, d - 1) && Flatten(sub, d - 1) == tail
    ensures InsertAppends(n, tail, index, d)
  {
    InsertPushUp(n, tail, index, d, sub);
    PushChild(n, d, sub);
  }

  /** An empty node below takes the leaf where the index points. */
  lemma EmptyInsertsAt<T>(tail: seq<T>, index: nat, d: nat)
    requires 1 <= d <= 5 && |tail| == 32 && index < TWO_32 && index % Pow32(d + 1) / 32 == 0
    ensures InsertsAt(Tree([]), tail, index, d)
  {
    var empty: Node<T> := Tree([]);
    assert Flatten(empty, d) == [];
  }

  /** `insertTail` when every child is full: the leaf starts a new child. */
  lemma InsertPushCase<T>(n: Node<T>, tail: seq<T>, index: nat, d: nat) returns (child: Node<T>)
    requires InsertsAt(n, tail, index, d)
    requires n.nodes == [] || |Flatten(n.nodes[|n.nodes| - 1], d - 1)| == Pow32(d)
    ensures d >= 2 ==> InsertsAt(child, tail, index, d - 1)
    ensures (d >= 2 ==> InsertAppends(child, tail, index, d - 1)) ==> InsertAppends(n, tail, index, d)
  {
    PushSlot(n, tail, index, d);
    if d == 1 {
      child := Leaf(tail);
      PushedUp(n, tail, index, d, child);
    } else {
      child := Tree([]);
      EmptyInsertsAt(tail, index, d - 1);
      if InsertAppends(child, tail, index, d - 1) {
        var sub := InsertTail(child, tail, index, d - 1).value;
        assert Flatten(child, d - 1) == [];
        PushedUp(n, tail, index, d, sub);
      }
    }
  }

  /** `insertTail` when the last child has room: the leaf goes into it. */
  lemma InsertIntoCase<T>(n: Node<T>, tail: seq<T>, index: nat, d: nat) returns (child: Node<T>)
    requires InsertsAt(n, tail, index, d)
    requires n.nodes != [] && |Flatten(n.nodes[|n.nodes| - 1], d - 1)| != Pow32(d)
    ensures d >= 2 && InsertsAt(child, tail, index, d - 1)
    ensures InsertAppends(child, tail, index, d - 1) ==> InsertAppends(n, tail, index, d)
  {
    InsertFacts(n, tail, index, d);
    var ns, p := n.nodes, Pow32(d);
    var m := |ns| - 1;
    child := ns[m];
    var c := |Flatten(child, d - 1)|;
    PackedLength(child, d - 1);
    FullNodesLength(ns, d - 1, m);
    SplitLast(n, d);
    SlotArith(index % Pow32(d + 1), |Flatten(n, d)|, m, p, c);
    if d == 1 {
      assert false;
    }
    if InsertAppends(child, tail, index, d - 1) {
      var updated := InsertTail(child, tail, index, d - 1).value;
      InsertIntoUp(n, tail, index, d, updated);
      ReplaceLast(n, d, updated, tail);
    }
  }

  /** One level of `insertTail`: it goes on into `child` (a new empty node,
    * or the last child), and if it does its job there it does it here. */
  lemma InsertTailStep<T>(n: Node<T>, tail: seq<T>, index: nat, d: nat) returns (child: Node<T>)
    requires InsertsAt(n, tail, index, d)
    ensures d >= 2 ==> InsertsAt(child, tail, index, d - 1)
    ensures (d >= 2 ==> InsertAppends(child, tail, index, d - 1)) ==> InsertAppends(n, tail, index, d)
  {
    var ns := n.nodes;
    if ns == [] || |Flatten(ns[|ns| - 1], d - 1)| == Pow32(d) {
      child := InsertPushCase(n, tail, index, d);
    } else {
      child := InsertIntoCase(n, tail, index, d);
    }
  }

  /** `insertTail` on a packed node of level `d`, at an index whose offset
    * falls in the first free leaf, appends the 32 elements of `tail`. */
  lemma {:induction false} InsertTailSpec<T>(n: Node<T>, tail: seq<T>, index: nat, d: nat)
    requires InsertsAt(n, tail, index, d)
    ensures InsertAppends(n, tail, index, d)
    decreases d
  {
    var child := InsertTailStep(n, tail, index, d);
    if d >= 2 {
      InsertTailSpec(child, tail, index, d - 1);
    }
  }

  // ---------------------------------------------------------------------
  // The array tree against its sequence

  /** `getIndexOfTheFirstElementInTail` rounds the length down to a whole leaf. */
  lemma TailStartSpec(length: int)
    requires 0 <= length < TWO_31
    ensures TailStart(length) == length - length % 32
  {
    Pow2Table();
    assert length == (length / 32) * 32 + length % 32;
  }

  /** A valid array tree stores `length` elements. */
  lemma ElementsLength<T>(a: ArrayTree<T>)
    requires Valid(a)
    ensures |Elements(a)| == a.length
  {
  }

  /** An index in the tail: `get` and `set` go to the tail, at the index's
    * low five bits. */
  lemma TailIndex<T>(a: ArrayTree<T>, index: int)
    requires Valid(a) && a.length - |a.tail| <= index < a.length
    ensures index >= TailStart(a.length) && Low5(index) == index - (a.length - |a.tail|)
  {
    TailStartSpec(a.length);
    var start := a.length - |a.tail|;
    InChild(index, start / 32, 32, index - start);
  }

  /** An index in the trie: `get` and `set` go to the trie, where the index
    * is its own offset. */
  lemma TrieIndex<T>(a: ArrayTree<T>, index: int)
    requires Valid(a) && 0 <= index < a.length - |a.tail|
    ensures index < TailStart(a.length) && index % Pow32(a.depth + 1) == index
  {
    TailStartSpec(a.length);
    PackedLength(a.tree, a.depth);
    ModUnique(index, Pow32(a.depth + 1), 0, index);
  }

  /** `get` reads element `index` of the sequence, and `undefined` outside it. */
  lemma GetSpec<T>(a: ArrayTree<T>, index: int)
    requires Valid(a)
    ensures Get(a, index) == Success(if 0 <= index < a.length then Some(Elements(a)[index]) else None)
  {
    if 0 <= index < a.length {
      if index >= a.length - |a.tail| {
        TailIndex(a, index);
      } else {
        TrieIndex(a, index);
        NodeGetSpec(a.tree, index, a.depth);
      }
    }
  }

  /** What `set` achieves: the shape is kept and the sequence has element
    * `index` replaced, or is left alone when `index` is outside it. */
  ghost predicate SetWrites<T>(a: ArrayTree<T>, index: int, value: T)
    requires Valid(a)
  {
    var r := Set(a, index, value);
    r.Success? && Valid(r.value)
    && r.value.length == a.length && r.value.depth == a.depth
    && Elements(r.value) == (if 0 <= index < a.length then Elements(a)[index := value] else Elements(a))
    && (index < 0 || index >= a.length ==> r.value == a)
  }

  lemma SetInTail<T>(a: ArrayTree<T>, index: int, value: T)
    requires Valid(a) && a.length - |a.tail| <= index < a.length
    ensures SetWrites(a, index, value)
  {
    TailIndex(a, index);
    var s := index - (a.length - |a.tail|);
    ReplaceMiddle(Flatten(a.tree, a.depth), a.tail, [], index, s, value);
    assert Elements(a) == Flatten(a.tree, a.depth) + a.tail + [];
  }

  lemma SetInTrie<T>(a: ArrayTree<T>, index: int, value: T)
    requires Valid(a) && 0 <= index < a.length - |a.tail|
    ensures SetWrites(a, index, value)
  {
    TrieIndex(a, index);
    NodeSetSpec(a.tree, index, value, a.depth);
    var tree := NodeSet(a.tree, index, value, a.depth).value;
    TrieBranch(a, index, value, tree);
    SetTrieElements(a, index, value, tree);
  }

  /** `set` below the tail start takes the trie branch. */
  lemma TrieBranch<T>(a: ArrayTree<T>, index: int, value: T, tree: Node<T>)
    requires 0 <= index < a.length && index < TailStart(a.length)
    requires NodeSet(a.tree, index, value, a.depth) == Success(tree)
    ensures Set(a, index, value) == Success(ArrayTree(a.length, a.depth, tree, a.tail))
  {
  }

  /** A trie with element `index` replaced gives the sequence with element
    * `index` replaced. */
  lemma SetTrieElements<T>(a: ArrayTree<T>, index: int, value: T, tree: Node<T>)
    requires Valid(a) && 0 <= index < a.length - |a.tail|
    requires Set(a, index, value) == Success(ArrayTree(a.length, a.depth, tree, a.tail))
    requires Packed(tree, a.depth) && Flatten(tree, a.depth) == Flatten(a.tree, a.depth)[index := value]
    ensures SetWrites(a, index, value)
  {
    NewTrie(a, tree);
    ReplaceMiddle([], Flatten(a.tree, a.depth), a.tail, index, index, value);
    assert Elements(a) == [] + Flatten(a.tree, a.depth) + a.tail;
  }

  /** A packed trie of the same size in place of the old one keeps the
    * array tree valid. */
  lemma NewTrie<T>(a: ArrayTree<T>, tree: Node<T>)
    requires Valid(a) && Packed(tree, a.depth) && |Flatten(tree, a.depth)| == |Flatten(a.tree, a.depth)|
    ensures Valid(ArrayTree(a.length, a.depth, tree, a.tail))
  {
  }

  /** `set` replaces element `index` of the sequence and keeps the shape;
    * outside the sequence it returns the array tree unchanged. */
  lemma SetSpec<T>(a: ArrayTree<T>, index: int, value: T)
    requires Valid(a)
    ensures SetWrites(a, index, value)
  {
    if 0 <= index < a.length {
      if index >= a.length - |a.tail| {
        SetInTail(a, index, value);
      } else {
        SetInTrie(a, index, value);
      }
    }
  }

  /** With the lengths below 2^31 the overflow test compares the number of
    * leaves with what a root of this depth can hold. */
  lemma OverflowsSpec(newLength: nat, depth: nat)
    requires newLength < TWO_31 && 1 <= depth <= 6
    ensures Overflows(newLength, depth) <==> newLength / 32 > Pow32(depth)
  {
    ShiftOneLeft(depth);
    Pow2Table();
  }

  /** `1 << (depth * shiftStep)` is the number of leaves a root of this
    * depth holds, for the depths a length below 2^31 reaches. */
  lemma ShiftOneLeft(depth: nat)
    requires 1 <= depth <= 6
    ensures ShiftLeft(1, (depth * SHIFT_STEP) % 32) == Pow32(depth)
  {
    assert (depth * SHIFT_STEP) % 32 == SHIFT_STEP * depth;
    Pow2Pow32(depth);
    Pow2Pow32(6);
    Pow32Grows(depth, 6);
    Pow2Table();
  }

  /** The length of an array tree against a span its trie fits in. */
  lemma TailArith(length: nat, start: nat, span: nat)
    requires start == length - length % 32 && start < span && span % 32 == 0
    ensures start + 32 <= span && length % span == length && length / 32 == start / 32
  {
    ModUnique(span, 32, span / 32, 0);
    ModUnique(start, 32, length / 32, 0);
    ModUnique(length, span, 0, length);
  }

  /** What `replaceTail` achieves with a tail of at most 32 elements. */
  ghost predicate TailReplaced<T>(a: ArrayTree<T>, newTail: seq<T>)
    requires |newTail| <= 32
  {
    var r := ReplaceTail(a, newTail);
    var start := a.length - |a.tail|;
    r.Success? && Valid(r.value)
    && r.value.length == start + |newTail|
    && Elements(r.value) == Flatten(a.tree, a.depth) + newTail
    && (|newTail| < 32 ==> r.value.tree == a.tree && r.value.depth == a.depth && r.value.tail == newTail)
    && (|newTail| == 32 ==>
          r.value.tail == [] && r.value.depth == (if start == Pow32(a.depth + 1) then a.depth + 1 else a.depth))
  }

  /** Once the tail has gone into the trie `t` of depth `d`, the result is
    * valid and holds the old trie's elements followed by the tail. */
  lemma MovedTail<T>(a: ArrayTree<T>, newTail: seq<T>, root: Node<T>, d: nat)
    requires Valid(a) && |newTail| == 32 && a.length - |a.tail| + 32 < TWO_31
    requires d == (if a.length - |a.tail| == Pow32(a.depth + 1) then a.depth + 1 else a.depth)
    requires 1 <= d <= 6 && Flatten(root, d) == Flatten(a.tree, a.depth)
    requires InsertAppends(root, newTail, a.length, d)
    requires ReplaceTail(a, newTail) == MoveTail(a, newTail, root, d)
    ensures TailReplaced(a, newTail)
  {
    NextLeaf(a.length, a.length - |a.tail|);
  }

  /** Which branch `replaceTail` takes with a full tail. */
  lemma FullTailBranch<T>(a: ArrayTree<T>, newTail: seq<T>, grows: bool)
    requires |newTail| == 32 && grows == Overflows(a.length + (32 - |a.tail|), a.depth)
    ensures ReplaceTail(a, newTail)
         == if grows then MoveTail(a, newTail, Tree([a.tree]), a.depth + 1) else MoveTail(a, newTail, a.tree, a.depth)
  {
  }

  /** The length after a full tail moves in is a whole number of leaves. */
  lemma NextLeaf(length: nat, start: nat)
    requires start == length - length % 32
    ensures (start + 32) % 32 == 0
  {
    ModUnique(start + 32, 32, length / 32 + 1, 0);
  }

  /** A full tail moves into a trie that has room for it. */
  lemma ReplaceIntoRoom<T>(a: ArrayTree<T>, newTail: seq<T>)
    requires Valid(a) && |newTail| == 32 && a.length - |a.tail| + 32 < TWO_31
    requires a.length - |a.tail| < Pow32(a.depth + 1)
    ensures TailReplaced(a, newTail)
  {
    var start := a.length - |a.tail|;
    var p := Pow32(a.depth);
    PackedLength(a.tree, a.depth);
    assert Pow32(a.depth + 1) == 32 * p;
    TailArith(a.length, start, Pow32(a.depth + 1));
    OverflowsSpec(start + 32, a.depth);
    assert (start + 32) / 32 == start / 32 + 1;
    assert start / 32 < p;
    InsertTailSpec(a.tree, newTail, a.length, a.depth);
    FullTailBranch(a, newTail, false);
    MovedTail(a, newTail, a.tree, a.depth);
  }

  /** A full trie goes under a new root one level deeper, which has room
    * for the leaf. */
  lemma NewRoot<T>(a: ArrayTree<T>, newTail: seq<T>)
    requires Valid(a) && |newTail| == 32 && a.length - |a.tail| + 32 < TWO_31
    requires a.length - |a.tail| == Pow32(a.depth + 1)
    ensures Overflows(a.length - |a.tail| + 32, a.depth) && a.depth < 6
    ensures Flatten(Tree([a.tree]), a.depth + 1) == Flatten(a.tree, a.depth)
    ensures InsertsAt(Tree([a.tree]), newTail, a.length, a.depth + 1)
  {
    var start := a.length - |a.tail|;
    var p := Pow32(a.depth);
    assert start == 32 * p;
    OverflowsSpec(start + 32, a.depth);
    assert (start + 32) / 32 == p + 1;
    assert a.depth < 6 by {
      assert Pow32(7) == 0x8_0000_0000;
      if a.depth == 6 {
        assert false;
      }
    }
    var d := a.depth + 1;
    var root := Tree([a.tree]);
    FlattenNodesOne(a.tree, a.depth);
    assert Packed(root, d);
    assert Pow32(d + 1) == 32 * start;
    TailArith(a.length, start, Pow32(d + 1));
  }

  /** A full tail moves into a full trie under a new root one level deeper. */
  lemma ReplaceIntoNewRoot<T>(a: ArrayTree<T>, newTail: seq<T>)
    requires Valid(a) && |newTail| == 32 && a.length - |a.tail| + 32 < TWO_31
    requires a.length - |a.tail| == Pow32(a.depth + 1)
    ensures TailReplaced(a, newTail)
  {
    NewRoot(a, newTail);
    var root := Tree([a.tree]);
    InsertTailSpec(root, newTail, a.length, a.depth + 1);
    FullTailBranch(a, newTail, true);
    MovedTail(a, newTail, root, a.depth + 1);
  }

  /** `replaceTail` keeps the trie's elements and puts `newTail` after
    * them. A shorter tail leaves the trie and the depth alone; a tail of 32
    * moves into the trie, and the depth grows by one exactly when the trie
    * was full. A longer tail is rejected. */
  lemma ReplaceTailSpec<T>(a: ArrayTree<T>, newTail: seq<T>)
    requires Valid(a)
    requires a.length - |a.tail| + |newTail| < TWO_31
    ensures |newTail| > 32 <==> ReplaceTail(a, newTail) == Failure(TailTooLong)
    ensures |newTail| <= 32 ==> TailReplaced(a, newTail)
  {
    var start := a.length - |a.tail|;
    if |newTail| == 32 {
      PackedLength(a.tree, a.depth);
      if start == Pow32(a.depth + 1) {
        ReplaceIntoNewRoot(a, newTail);
      } else {
        ReplaceIntoRoom(a, newTail);
      }
    }
  }

  /** `push` appends `value` to the sequence. */
  lemma PushSpec<T>(a: ArrayTree<T>, value: T)
    requires Valid(a) && a.length + 1 < TWO_31
    ensures var r := Push(a, value);
      r.Success? && Valid(r.value) && r.value.length == a.length + 1
      && Elements(r.value) == Elements(a) + [value]
  {
    ReplaceTailSpec(a, a.tail + [value]);
  }

  /** After `push`, `get` finds the new element at the old length and every
    * earlier element where it was. */
  lemma PushThenGet<T>(a: ArrayTree<T>, value: T, index: int)
    requires Valid(a) && a.length + 1 < TWO_31
    ensures Push(a, value).Success? && var b := Push(a, value).value;
      Get(b, index) == (if index == a.length then Success(Some(value)) else if index < a.length then Get(a, index) else Success(None))
  {
    PushSpec(a, value);
    var b := Push(a, value).value;
    GetSpec(a, index);
    GetSpec(b, index);
  }
}
