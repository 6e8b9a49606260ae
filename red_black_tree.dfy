/** The persistent map of RedBlackTree.ts: `RedBlackEmpty`, `RedNode` and
  * `BlackNode`, with the colour of a node a field and the double dispatch
  * of the balancing methods written as one `match` per `balance`.
  *
  * Insertion orders keys by their `toString()` under JavaScript's string
  * `<`; the model takes `toString` as a parameter `toStr`. `get` compares
  * the keys themselves with `===` and `>`; it takes that `>` as a
  * parameter `above`.
  *
  * Two balancing cases are wrong as written: a red right child over an
  * empty left child calls a method `RedBlackEmpty` does not have (a
  * TypeError), and a red left child is rotated with itself as its own left
  * child, which duplicates its key. `BalanceAsWritten` and the members
  * after it model the code as written; `Balance`, the balance of Elm's
  * `Dict` that the class structure follows, is the corrected one the
  * properties are proved about. */
module RedBlackTree {
  import opened Wrappers
  import opened Errors

  datatype Color = Red | Black

  datatype Tree<K, V> =
    | Empty
    | Node(color: Color, key: K, value: V, left: Tree<K, V>, right: Tree<K, V>)

  // ---------------------------------------------------------------
  // JavaScript's `<` on strings
  // ---------------------------------------------------------------

  /** `a < b` on strings: characters compared from the left, a proper
    * prefix before the longer string. */
  predicate StrLess(a: string, b: string)
    decreases |a|
  {
    |b| > 0 && (|a| == 0 || a[0] < b[0] || (a[0] == b[0] && StrLess(a[1..], b[1..])))
  }

  lemma {:induction false} StrLessIrreflexive(a: string)
    ensures !StrLess(a, a)
    decreases |a|
  {
    if |a| > 0 {
      StrLessIrreflexive(a[1..]);
    }
  }

  lemma {:induction false} StrLessTransitive(a: string, b: string, c: string)
    requires StrLess(a, b) && StrLess(b, c)
    ensures StrLess(a, c)
    decreases |a|
  {
    if |a| > 0 && a[0] == b[0] && b[0] == c[0] {
      StrLessTransitive(a[1..], b[1..], c[1..]);
    }
  }

  lemma {:induction false} StrLessTotal(a: string, b: string)
    requires a != b
    ensures StrLess(a, b) || StrLess(b, a)
    decreases |a|
  {
    if |a| > 0 && |b| > 0 && a[0] == b[0] {
      assert a == [a[0]] + a[1..] && b == [b[0]] + b[1..];
      StrLessTotal(a[1..], b[1..]);
    }
  }

  /** Exactly one of `a < b`, `a == b` and `b < a` holds. */
  lemma StrTrichotomy(a: string, b: string)
    ensures StrLess(a, b) ==> a != b && !StrLess(b, a)
    ensures a != b ==> StrLess(a, b) || StrLess(b, a)
  {
    StrLessIrreflexive(a);
    if StrLess(a, b) && StrLess(b, a) {
      StrLessTransitive(a, b, a);
    }
    if a != b {
      StrLessTotal(a, b);
    }
  }

  // ---------------------------------------------------------------
  // Nodes
  // ---------------------------------------------------------------

  /** `colorBlack`: a red node becomes black; a black node is itself. */
  function ColorBlack<K, V>(t: Tree<K, V>): Tree<K, V>
    requires t.Node?
  {
    t.(color := Black)
  }

  predicate IsRed<K, V>(t: Tree<K, V>) {
    t.Node? && t.color == Red
  }

  // ---------------------------------------------------------------
  // Balancing, as written
  // ---------------------------------------------------------------

  /** `balance` as written, for the node `n` after one of its children
    * was replaced. A red right child dispatches to the left child's
    * `balanceLeftWhenRightIsRed`, which `RedBlackEmpty` lacks; any other
    * right child dispatches to `balanceLeftWhenRightIsBlack`, where a red
    * left child calls `balanceLeftLeft` with itself in the place of its
    * own left child. */
  function BalanceAsWritten<K, V>(n: Tree<K, V>): (r: Result<Tree<K, V>>)
    requires n.Node?
    ensures IsRed(n.right) && n.left.Empty? ==> r == Failure(NotAFunction)
    ensures !IsRed(n.right) && IsRed(n.left) ==>
      r.Success? && r.value.Node? && r.value.left.Node? &&
      r.value.key == n.left.key && r.value.left.key == n.left.key
    ensures (IsRed(n.right) && n.left.Node?) || (!IsRed(n.right) && !IsRed(n.left)) ==>
      r == Success(Balance(n))
  {
    if IsRed(n.right) then
      match n.left
      case Empty => Failure(NotAFunction)
      case Node(Red, lk, lv, ll, lr) =>
        Success(Node(Red, n.key, n.value, Node(Black, lk, lv, ll, lr), ColorBlack(n.right)))
      case Node(Black, _, _, _, _) =>
        Success(Node(n.color, n.right.key, n.right.value,
          Node(Red, n.key, n.value, n.left, n.right.left), n.right.right))
    else
      match n.left
      case Node(Red, lk, lv, ll, lr) =>
        Success(Node(Red, lk, lv, Node(Black, lk, lv, ll, lr), Node(Black, n.key, n.value, lr, n.right)))
      case _ => Success(n)
  }

  /** `updateHelp` as written: a new key becomes a red leaf, an existing
    * key keeps its node and gets the updater's value, and every node on
    * the way down is rebalanced. */
  function UpdateHelpAsWritten<K, V>(t: Tree<K, V>, key: K, updater: Option<V> -> V, toStr: K -> string): (r: Result<Tree<K, V>>)
    ensures r.Success? ==> r.value.Node?
    ensures t.Empty? ==> r == Success(Node(Red, key, updater(None), Empty, Empty))
    ensures t.Node? && toStr(key) == toStr(t.key) ==>
      r == Success(Node(t.color, t.key, updater(Some(t.value)), t.left, t.right))
  {
    match t
    case Empty => Success(Node(Red, key, updater(None), Empty, Empty))
    case Node(c, k, v, l, rt) =>
      StrLessIrreflexive(toStr(k));
      if StrLess(toStr(key), toStr(k)) then
        var l' :- UpdateHelpAsWritten(l, key, updater, toStr);
        BalanceAsWritten(Node(c, k, v, l', rt))
      else if StrLess(toStr(k), toStr(key)) then
        var r' :- UpdateHelpAsWritten(rt, key, updater, toStr);
        BalanceAsWritten(Node(c, k, v, l, r'))
      else
        StrLessIrreflexive(toStr(key));
        Success(Node(c, k, updater(Some(v)), l, rt))
  }

  /** `update` as written: the empty tree becomes one black node; a node
    * is updated below and its root coloured black. */
  function UpdateAsWritten<K, V>(t: Tree<K, V>, key: K, updater: Option<V> -> V, toStr: K -> string): (r: Result<Tree<K, V>>)
    ensures r.Success? ==> r.value.Node? && r.value.color == Black
    ensures t.Empty? ==> r == Success(Node(Black, key, updater(None), Empty, Empty))
  {
    match t
    case Empty => Success(Node(Black, key, updater(None), Empty, Empty))
    case Node(_, _, _, _, _) =>
      var h :- UpdateHelpAsWritten(t, key, updater, toStr);
      Success(ColorBlack(h))
  }

  /** `insert` as written: `update` with an updater that ignores the old
    * value. */
  function InsertAsWritten<K, V>(t: Tree<K, V>, key: K, value: V, toStr: K -> string): (r: Result<Tree<K, V>>)
    ensures t.Empty? ==> r == Success(Node(Black, key, value, Empty, Empty))
  {
    UpdateAsWritten(t, key, (_: Option<V>) => value, toStr)
  }

  /** `fromArray` as written: `insert` folded from the left over the
    * entries, starting from the empty tree; an exception ends the fold. */
  function FromArrayAsWritten<K, V>(entries: seq<(K, V)>, toStr: K -> string): (r: Result<Tree<K, V>>)
    ensures entries == [] ==> r == Success(Empty)
    ensures |entries| == 1 ==> r == Success(Node(Black, entries[0].0, entries[0].1, Empty, Empty))
  {
    if entries == [] then Success(Empty)
    else
      var t :- FromArrayAsWritten(entries[..|entries| - 1], toStr);
      InsertAsWritten(t, entries[|entries| - 1].0, entries[|entries| - 1].1, toStr)
  }

  /** String keys, whose `toString()` is themselves. */
  function Same(s: string): string { s }

  /** Inserting "a" and then "b" reaches the missing method: "b" goes to
    * the right of "a" as a red leaf, beside an empty left child. */
  lemma InsertAThenBThrows()
    ensures FromArrayAsWritten([("a", 1), ("b", 2)], Same) == Failure(NotAFunction)
  {
    var one := FromArrayAsWritten([("a", 1)], Same);
    assert [("a", 1), ("b", 2)][..1] == [("a", 1)];
    assert one == Success(Node(Black, "a", 1, Empty, Empty));
    assert StrLess("a", "b");
    StrTrichotomy("a", "b");
  }

  /** Inserting "b" and then "a" gives a tree holding "a" twice. */
  lemma InsertBThenADuplicates()
    ensures FromArrayAsWritten([("b", 1), ("a", 2)], Same) ==
      Success(Node(Black, "a", 2, Node(Black, "a", 2, Empty, Empty), Node(Black, "b", 1, Empty, Empty)))
  {
    var one := FromArrayAsWritten([("b", 1)], Same);
    assert [("b", 1), ("a", 2)][..1] == [("b", 1)];
    assert one == Success(Node(Black, "b", 1, Empty, Empty));
    assert StrLess("a", "b");
  }

  // ---------------------------------------------------------------
  // Balancing, corrected
  // ---------------------------------------------------------------

  /** `balance` with the dispatch the class structure intends: an empty
    * left child under a red right child is handled like a black one, and
    * a red left child hands over to its own left child, which rotates
    * only when it is red too. */
  function Balance<K, V>(n: Tree<K, V>): (r: Tree<K, V>)
    requires n.Node?
    ensures r.Node?
  {
    if IsRed(n.right) then
      if IsRed(n.left) then
        Node(Red, n.key, n.value, ColorBlack(n.left), ColorBlack(n.right))
      else
        Node(n.color, n.right.key, n.right.value,
          Node(Red, n.key, n.value, n.left, n.right.left), n.right.right)
    else if IsRed(n.left) && IsRed(n.left.left) then
      Node(Red, n.left.key, n.left.value, ColorBlack(n.left.left),
        Node(Black, n.key, n.value, n.left.right, n.right))
    else n
  }

  /** `updateHelp` over the corrected `balance`. */
  function UpdateHelp<K, V>(t: Tree<K, V>, key: K, updater: Option<V> -> V, toStr: K -> string): (r: Tree<K, V>)
    ensures r.Node?
    ensures t.Empty? ==> r == Node(Red, key, updater(None), Empty, Empty)
    ensures t.Node? && toStr(key) == toStr(t.key) ==>
      r == Node(t.color, t.key, updater(Some(t.value)), t.left, t.right)
  {
    match t
    case Empty => Node(Red, key, updater(None), Empty, Empty)
    case Node(c, k, v, l, rt) =>
      if StrLess(toStr(key), toStr(k)) then
        StrLessIrreflexive(toStr(key));
        Balance(Node(c, k, v, UpdateHelp(l, key, updater, toStr), rt))
      else if StrLess(toStr(k), toStr(key)) then
        StrLessIrreflexive(toStr(key));
        Balance(Node(c, k, v, l, UpdateHelp(rt, key, updater, toStr)))
      else Node(c, k, updater(Some(v)), l, rt)
  }

  /** `update` over the corrected `updateHelp`. */
  function Update<K, V>(t: Tree<K, V>, key: K, updater: Option<V> -> V, toStr: K -> string): Tree<K, V>
  {
    match t
    case Empty => Node(Black, key, updater(None), Empty, Empty)
    case Node(_, _, _, _, _) => ColorBlack(UpdateHelp(t, key, updater, toStr))
  }

  /** `insert`: `update` with an updater that ignores the old value. */
  function Insert<K, V>(t: Tree<K, V>, key: K, value: V, toStr: K -> string): Tree<K, V>
  {
    Update(t, key, (_: Option<V>) => value, toStr)
  }

  /** `fromArray`: `insert` folded from the left over the entries. */
  function FromArray<K, V>(entries: seq<(K, V)>, toStr: K -> string): Tree<K, V>
  {
    if entries == [] then Empty
    else Insert(FromArray(entries[..|entries| - 1], toStr), entries[|entries| - 1].0, entries[|entries| - 1].1, toStr)
  }

  // ---------------------------------------------------------------
  // Search order and lookup
  // ---------------------------------------------------------------

  /** The `toString()` images of the keys of a tree. */
  function KeySet<K, V>(t: Tree<K, V>, toStr: K -> string): set<string>
  {
    match t
    case Empty => {}
    case Node(_, k, _, l, r) => KeySet(l, toStr) + {toStr(k)} + KeySet(r, toStr)
  }

  /** A search tree under the order insertion uses: every key on the left
    * of a node is smaller than the node's, every key on its right larger. */
  ghost predicate Ordered<K, V>(t: Tree<K, V>, toStr: K -> string)
  {
    match t
    case Empty => true
    case Node(_, k, _, l, r) =>
      Ordered(l, toStr) && Ordered(r, toStr) &&
      (forall s :: s in KeySet(l, toStr) ==> StrLess(s, toStr(k))) &&
      (forall s :: s in KeySet(r, toStr) ==> StrLess(toStr(k), s))
  }

  /** A lookup that descends with the comparison insertion uses: the value
    * stored under the key whose `toString()` is `s`. */
  function Lookup<K, V>(t: Tree<K, V>, s: string, toStr: K -> string): Option<V>
  {
    match t
    case Empty => None
    case Node(_, k, v, l, r) =>
      if s == toStr(k) then Some(v)
      else if StrLess(toStr(k), s) then Lookup(r, s, toStr)
      else Lookup(l, s, toStr)
  }

  /** In a search tree, the lookup finds exactly the keys the tree holds. */
  lemma {:induction false} LookupFindsKeys<K, V>(t: Tree<K, V>, s: string, toStr: K -> string)
    requires Ordered(t, toStr)
    ensures Lookup(t, s, toStr).Some? <==> s in KeySet(t, toStr)
  {
    match t
    case Empty =>
    case Node(_, k, _, l, r) =>
      LookupFindsKeys(l, s, toStr);
      LookupFindsKeys(r, s, toStr);
      StrTrichotomy(s, toStr(k));
      if s in KeySet(l, toStr) {
        assert StrLess(s, toStr(k));
      }
      if s in KeySet(r, toStr) {
        assert StrLess(toStr(k), s);
      }
  }

  /** The corrected balance keeps the keys and the order, and every
    * lookup gives what it gave before. */
  lemma BalanceKeeps<K, V>(n: Tree<K, V>, s: string, toStr: K -> string)
    requires n.Node? && Ordered(n, toStr)
    ensures KeySet(Balance(n), toStr) == KeySet(n, toStr)
    ensures Ordered(Balance(n), toStr)
    ensures Lookup(Balance(n), s, toStr) == Lookup(n, s, toStr)
  {
    var k := toStr(n.key);
    StrTrichotomy(s, k);
    if IsRed(n.right) {
      var rk := toStr(n.right.key);
      assert rk in KeySet(n.right, toStr);
      StrTrichotomy(s, rk);
      if IsRed(n.left) {
        assert Balance(n) == n.(color := Red, left := ColorBlack(n.left), right := ColorBlack(n.right));
      } else {
        var inner := Node(Red, n.key, n.value, n.left, n.right.left);
        forall x | x in KeySet(n.left, toStr)
          ensures StrLess(x, rk)
        {
          StrLessTransitive(x, k, rk);
        }
        assert Ordered(inner, toStr);
        assert KeySet(inner, toStr) == KeySet(n.left, toStr) + {k} + KeySet(n.right.left, toStr);
        if StrLess(k, s) && StrLess(s, rk) {
          StrTrichotomy(s, k);
        }
        if StrLess(s, k) {
          StrLessTransitive(s, k, rk);
        }
      }
    } else if IsRed(n.left) && IsRed(n.left.left) {
      var lk := toStr(n.left.key);
      var ll, lr := n.left.left, n.left.right;
      assert KeySet(n.left, toStr) == KeySet(ll, toStr) + {lk} + KeySet(lr, toStr);
      assert StrLess(lk, k);
      StrTrichotomy(s, lk);
      var outer := Node(Black, n.key, n.value, lr, n.right);
      forall x | x in KeySet(n.right, toStr)
        ensures StrLess(lk, x)
      {
        StrLessTransitive(lk, k, x);
      }
      assert Ordered(outer, toStr);
      assert KeySet(outer, toStr) == KeySet(lr, toStr) + {k} + KeySet(n.right, toStr);
      assert Ordered(n.left, toStr) && Ordered(ll, toStr);
      assert KeySet(ColorBlack(ll), toStr) == KeySet(ll, toStr);
      assert Ordered(ColorBlack(ll), toStr);
      assert Lookup(ColorBlack(ll), s, toStr) == Lookup(ll, s, toStr);
      assert Balance(n) == Node(Red, n.left.key, n.left.value, ColorBlack(ll), outer);
      if StrLess(k, s) {
        StrLessTransitive(lk, k, s);
      }
    }
  }

  /** `updateHelp` on a search tree: the key joins the keys, the order is
    * kept, the updater's value is stored under the key, and every other
    * lookup is unchanged. */
  lemma {:induction false} UpdateHelpSpec<K, V>(t: Tree<K, V>, key: K, updater: Option<V> -> V, toStr: K -> string, s: string)
    requires Ordered(t, toStr)
    ensures var r := UpdateHelp(t, key, updater, toStr);
      Ordered(r, toStr) && KeySet(r, toStr) == KeySet(t, toStr) + {toStr(key)} &&
      Lookup(r, s, toStr) ==
        if s == toStr(key) then Some(updater(Lookup(t, s, toStr))) else Lookup(t, s, toStr)
  {
    match t
    case Empty =>
    case Node(c, k, v, l, rt) =>
      var sk := toStr(key);
      StrTrichotomy(sk, toStr(k));
      StrTrichotomy(s, toStr(k));
      if StrLess(sk, toStr(k)) {
        UpdateHelpSpec(l, key, updater, toStr, s);
        var n := Node(c, k, v, UpdateHelp(l, key, updater, toStr), rt);
        assert Ordered(n, toStr);
        BalanceKeeps(n, s, toStr);
        if s == sk {
          assert Lookup(t, s, toStr) == Lookup(l, s, toStr);
        }
      } else if StrLess(toStr(k), sk) {
        UpdateHelpSpec(rt, key, updater, toStr, s);
        var n := Node(c, k, v, l, UpdateHelp(rt, key, updater, toStr));
        assert Ordered(n, toStr);
        BalanceKeeps(n, s, toStr);
        if s == sk {
          assert Lookup(t, s, toStr) == Lookup(rt, s, toStr);
        }
      }
  }

  /** `update`: the root is black and the tree a search tree again, the
    * key joins the keys, the updater gets the old value (`None` for a new
    * key) and its result is stored, and every other key keeps its value. */
  lemma UpdateSpec<K, V>(t: Tree<K, V>, key: K, updater: Option<V> -> V, toStr: K -> string, s: string)
    requires Ordered(t, toStr)
    ensures var r := Update(t, key, updater, toStr);
      r.Node? && r.color == Black &&
      Ordered(r, toStr) && KeySet(r, toStr) == KeySet(t, toStr) + {toStr(key)} &&
      Lookup(r, s, toStr) ==
        if s == toStr(key) then Some(updater(Lookup(t, s, toStr))) else Lookup(t, s, toStr)
  {
    UpdateHelpSpec(t, key, updater, toStr, s);
  }

  /** `insert`: the value is stored under the key, every other key keeps
    * its value. */
  lemma InsertSpec<K, V>(t: Tree<K, V>, key: K, value: V, toStr: K -> string, s: string)
    requires Ordered(t, toStr)
    ensures var r := Insert(t, key, value, toStr);
      Ordered(r, toStr) && KeySet(r, toStr) == KeySet(t, toStr) + {toStr(key)} &&
      Lookup(r, s, toStr) == if s == toStr(key) then Some(value) else Lookup(t, s, toStr)
  {
    UpdateSpec(t, key, (_: Option<V>) => value, toStr, s);
  }

  /** The value of the last entry whose key's `toString()` is `s`. */
  function LastValue<K, V>(entries: seq<(K, V)>, s: string, toStr: K -> string): Option<V>
  {
    if entries == [] then None
    else if toStr(entries[|entries| - 1].0) == s then Some(entries[|entries| - 1].1)
    else LastValue(entries[..|entries| - 1], s, toStr)
  }

  /** `fromArray` builds a search tree in which every key holds the value
    * of its last entry. */
  lemma {:induction false} FromArraySpec<K, V>(entries: seq<(K, V)>, s: string, toStr: K -> string)
    ensures Ordered(FromArray(entries, toStr), toStr)
    ensures Lookup(FromArray(entries, toStr), s, toStr) == LastValue(entries, s, toStr)
    decreases |entries|
  {
    if entries != [] {
      var front, last := entries[..|entries| - 1], entries[|entries| - 1];
      FromArraySpec(front, s, toStr);
      InsertSpec(FromArray(front, toStr), last.0, last.1, toStr, s);
    }
  }

  // ---------------------------------------------------------------
  // Colours
  // ---------------------------------------------------------------

  /** A left-leaning red-black tree of black height `h`: every path down
    * meets `h` black nodes, no right child is red, and no red node has a
    * red child. */
  ghost predicate Valid<K, V>(t: Tree<K, V>, h: nat)
  {
    match t
    case Empty => h == 0
    case Node(c, _, _, l, r) =>
      !IsRed(r) &&
      if c == Black then h > 0 && Valid(l, h - 1) && Valid(r, h - 1)
      else !IsRed(l) && Valid(l, h) && Valid(r, h)
  }

  /** What `updateHelp` may leave below a black node: a red node whose
    * left child is red too, the one fault the parent's balance repairs. */
  ghost predicate Infrared<K, V>(t: Tree<K, V>, h: nat)
  {
    t.Node? && t.color == Red && Valid(t.left, h) && Valid(t.right, h) && !IsRed(t.right)
  }

  /** The black nodes on the leftmost path. */
  function BlackHeight<K, V>(t: Tree<K, V>): nat
  {
    match t
    case Empty => 0
    case Node(c, _, _, l, _) => BlackHeight(l) + if c == Black then 1 else 0
  }

  /** A red-black tree as `update` leaves it: valid, with a black root. */
  ghost predicate RedBlack<K, V>(t: Tree<K, V>)
  {
    !IsRed(t) && Valid(t, BlackHeight(t))
  }

  lemma {:induction false} ValidHeight<K, V>(t: Tree<K, V>, h: nat)
    requires Valid(t, h)
    ensures h == BlackHeight(t)
  {
    match t
    case Empty =>
    case Node(c, _, _, l, _) =>
      ValidHeight(l, if c == Black then h - 1 else h);
  }

  /** A red node of a valid tree turns black one level higher. */
  lemma BlackenRed<K, V>(t: Tree<K, V>, h: nat)
    requires IsRed(t) && Valid(t, h)
    ensures Valid(ColorBlack(t), h + 1)
  {
  }

  /** The balance after `updateHelp` went left. */
  lemma BalanceLeftValid<K, V>(n: Tree<K, V>, h: nat)
    requires n.Node? && !IsRed(n.right)
    requires n.color == Black ==> h > 0 && Valid(n.right, h - 1) && (Valid(n.left, h - 1) || Infrared(n.left, h - 1))
    requires n.color == Red ==> Valid(n.right, h) && Valid(n.left, h)
    ensures n.color == Black ==> Valid(Balance(n), h)
    ensures n.color == Red ==> Infrared(Balance(n), h)
  {
    if n.color == Black && IsRed(n.left) && IsRed(n.left.left) {
      BlackenRed(n.left.left, h - 1);
    }
  }

  /** The balance after `updateHelp` went right. */
  lemma BalanceRightValid<K, V>(n: Tree<K, V>, h: nat)
    requires n.Node?
    requires n.color == Black ==> h > 0 && Valid(n.left, h - 1) && Valid(n.right, h - 1)
    requires n.color == Red ==> !IsRed(n.left) && Valid(n.left, h) && Valid(n.right, h)
    ensures n.color == Black ==> Valid(Balance(n), h)
    ensures n.color == Red ==> Infrared(Balance(n), h)
  {
    if n.color == Black && IsRed(n.right) && IsRed(n.left) {
      BlackenRed(n.left, h - 1);
      BlackenRed(n.right, h - 1);
    }
  }

  /** `updateHelp` keeps the black height; below a black root the tree
    * stays valid, below a red one it is at worst infrared. */
  lemma {:induction false} UpdateHelpValid<K, V>(t: Tree<K, V>, key: K, updater: Option<V> -> V, toStr: K -> string, h: nat)
    requires Valid(t, h)
    ensures !IsRed(t) ==> Valid(UpdateHelp(t, key, updater, toStr), h)
    ensures IsRed(t) ==> Infrared(UpdateHelp(t, key, updater, toStr), h)
  {
    match t
    case Empty =>
    case Node(c, k, v, l, r) =>
      var h' := if c == Black then h - 1 else h;
      if StrLess(toStr(key), toStr(k)) {
        UpdateHelpValid(l, key, updater, toStr, h');
        BalanceLeftValid(Node(c, k, v, UpdateHelp(l, key, updater, toStr), r), h);
      } else if StrLess(toStr(k), toStr(key)) {
        UpdateHelpValid(r, key, updater, toStr, h');
        BalanceRightValid(Node(c, k, v, l, UpdateHelp(r, key, updater, toStr)), h);
      }
  }

  /** `update` turns a red-black tree into a red-black tree. */
  lemma UpdateKeepsRedBlack<K, V>(t: Tree<K, V>, key: K, updater: Option<V> -> V, toStr: K -> string)
    requires RedBlack(t)
    ensures RedBlack(Update(t, key, updater, toStr))
  {
    if t.Node? {
      var h := BlackHeight(t);
      UpdateHelpValid(t, key, updater, toStr, h);
      var r := UpdateHelp(t, key, updater, toStr);
      if IsRed(r) {
        BlackenRed(r, h);
        ValidHeight(ColorBlack(r), h + 1);
      } else {
        ValidHeight(ColorBlack(r), h);
      }
    }
  }

  /** `fromArray` builds a red-black tree. */
  lemma {:induction false} FromArrayRedBlack<K, V>(entries: seq<(K, V)>, toStr: K -> string)
    ensures RedBlack(FromArray(entries, toStr))
    decreases |entries|
  {
    if entries != [] {
      var front, last := entries[..|entries| - 1], entries[|entries| - 1];
      FromArrayRedBlack(front, toStr);
      UpdateKeepsRedBlack(FromArray(front, toStr), last.0, (_: Option<V>) => last.1, toStr);
    }
  }

  // ---------------------------------------------------------------
  // `get`
  // ---------------------------------------------------------------

  /** What `getValueOrSubtree` hands back: a value, which ends the walk,
    * or the subtree to visit next. */
  datatype Got<K, V> = GotValue(found: Option<V>) | GotSubtree(subtree: Tree<K, V>)

  /** `getValueOrSubtree`: the empty tree ends the walk with nothing; a
    * node ends it with its value when the key is `===` its key, and
    * otherwise goes right when the key is `>` its key and left if not. */
  function GetValueOrSubtree<K(==), V>(t: Tree<K, V>, key: K, above: (K, K) -> bool): Got<K, V>
  {
    match t
    case Empty => GotValue(None)
    case Node(_, k, v, l, r) =>
      if key == k then GotValue(Some(v))
      else if above(key, k) then GotSubtree(r)
      else GotSubtree(l)
  }

  /** The value `get` finds: the walk of `getValueOrSubtree` to its end. */
  function Find<K(==), V>(t: Tree<K, V>, key: K, above: (K, K) -> bool): Option<V>
  {
    match GetValueOrSubtree(t, key, above)
    case GotValue(v) => v
    case GotSubtree(s) => Find(s, key, above)
  }

  function Size<K, V>(t: Tree<K, V>): nat
  {
    match t
    case Empty => 0
    case Node(_, _, _, l, r) => Size(l) + 1 + Size(r)
  }

  /** `get`: the loop over `getValueOrSubtree` until it gives a value. */
  method Get<K(==), V>(t: Tree<K, V>, key: K, above: (K, K) -> bool) returns (value: Option<V>)
    ensures value == Find(t, key, above)
    ensures t.Empty? ==> value.None?
  {
    var subtree: Option<Tree<K, V>> := Some(t);
    value := None;
    while subtree.Some?
      invariant subtree.Some? ==> Find(subtree.value, key, above) == Find(t, key, above)
      invariant subtree.None? ==> value == Find(t, key, above)
      decreases if subtree.Some? then Size(subtree.value) + 1 else 0
    {
      var result := GetValueOrSubtree(subtree.value, key, above);
      match result
      case GotValue(v) =>
        subtree, value := None, v;
      case GotSubtree(s) =>
        subtree, value := Some(s), None;
    }
  }

  /** The raw comparison of `get` and the string order of insertion agree
    * on the keys: `===` is equality of `toString()` and `>` is the string
    * `>`. */
  ghost predicate Agree<K(!new)>(above: (K, K) -> bool, toStr: K -> string)
  {
    (forall a, b :: above(a, b) == StrLess(toStr(b), toStr(a))) &&
    (forall a, b :: a == b <==> toStr(a) == toStr(b))
  }

  /** Where the two comparisons agree, `get` finds what the insertion
    * order stored. */
  lemma {:induction false} FindIsLookup<K(!new), V>(t: Tree<K, V>, key: K, above: (K, K) -> bool, toStr: K -> string)
    requires Agree(above, toStr)
    ensures Find(t, key, above) == Lookup(t, toStr(key), toStr)
  {
    match t
    case Empty =>
    case Node(_, k, _, l, r) =>
      assert key == k <==> toStr(key) == toStr(k);
      assert above(key, k) == StrLess(toStr(k), toStr(key));
      FindIsLookup(l, key, above, toStr);
      FindIsLookup(r, key, above, toStr);
  }

  /** JavaScript's `>` on two strings. */
  function StrAbove(a: string, b: string): bool { StrLess(b, a) }

  /** For string keys `get` finds every entry `fromArray` stored. */
  lemma StringKeysAgree<V>(entries: seq<(string, V)>, key: string)
    ensures Find(FromArray(entries, Same), key, StrAbove) == LastValue(entries, key, Same)
  {
    FindIsLookup(FromArray(entries, Same), key, StrAbove, Same);
    FromArraySpec(entries, key, Same);
  }

  /** Decimal `toString()` of an integer number. */
  function NumberString(n: int): string
  {
    if n < 0 then "-" + Digits(-n) else Digits(n)
  }

  function Digits(n: nat): string
    decreases n
  {
    if n < 10 then [DigitChar(n)] else Digits(n / 10) + [DigitChar(n % 10)]
  }

  function DigitChar(d: nat): char
    requires d < 10
  {
    "0123456789"[d]
  }

  /** JavaScript's `>` on two numbers. */
  function NumberAbove(a: int, b: int): bool { a > b }

  /** As written, number keys 10 then 9 never reach `get`: "9" sorts
    * after "10", so 9 becomes a red right leaf beside an empty left child
    * and `balance` throws. */
  lemma NumberKeysThrowAsWritten()
    ensures FromArrayAsWritten([(10, 'x'), (9, 'y')], NumberString) == Failure(NotAFunction)
  {
    assert NumberString(10) == "10" && NumberString(9) == "9";
    assert StrLess("10", "9");
    StrTrichotomy("10", "9");
    assert [(10, 'x'), (9, 'y')][..1] == [(10, 'x')];
    assert FromArrayAsWritten([(10, 'x')], NumberString) == Success(Node(Black, 10, 'x', Empty, Empty));
  }

  /** As written, number keys 9 then 10 go through the rotation of
    * `balanceLeft` (which also duplicates 10) and leave 9 on the right of
    * 10, where the string order put it: a lookup by strings finds 9, but
    * `get(9)`, comparing numbers, turns left and returns `undefined`. */
  lemma NumberKeysDisagreeAsWritten()
    ensures FromArrayAsWritten([(9, 'y'), (10, 'x')], NumberString) ==
      Success(Node(Black, 10, 'x', Node(Black, 10, 'x', Empty, Empty), Node(Black, 9, 'y', Empty, Empty)))
    ensures Lookup(FromArrayAsWritten([(9, 'y'), (10, 'x')], NumberString).value, "9", NumberString) == Some('y')
    ensures Find(FromArrayAsWritten([(9, 'y'), (10, 'x')], NumberString).value, 9, NumberAbove) == None
  {
    assert NumberString(10) == "10" && NumberString(9) == "9";
    assert StrLess("10", "9");
    StrTrichotomy("10", "9");
    assert [(9, 'y'), (10, 'x')][..1] == [(9, 'y')];
    assert FromArrayAsWritten([(9, 'y')], NumberString) == Success(Node(Black, 9, 'y', Empty, Empty));
  }

  /** For number keys the two orders part: "10" sorts before "9", so with
    * `balance` corrected, after inserting 10 and then 9 the key 10 sits on
    * the left of 9, where `get`, comparing numbers, does not look. */
  lemma NumberKeysDisagree()
    ensures Lookup(FromArray([(10, 'x'), (9, 'y')], NumberString), "10", NumberString) == Some('x')
    ensures Find(FromArray([(10, 'x'), (9, 'y')], NumberString), 10, NumberAbove) == None
  {
    assert NumberString(10) == "10" && NumberString(9) == "9";
    assert StrLess("10", "9");
    StrTrichotomy("10", "9");
    assert [(10, 'x'), (9, 'y')][..1] == [(10, 'x')];
    var one := FromArray([(10, 'x')], NumberString);
    assert one == Node(Black, 10, 'x', Empty, Empty);
    assert FromArray([(10, 'x'), (9, 'y')], NumberString) ==
      Node(Black, 9, 'y', Node(Red, 10, 'x', Empty, Empty), Empty);
  }
}
