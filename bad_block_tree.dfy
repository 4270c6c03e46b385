/**
  One bad-block list of the dust target: the kernel red-black tree of
  `struct badblock` records keyed by block number. Only the search-tree
  shape and its ordering are modelled; recolouring and rebalancing are not.
  `Contents` gives the tree's meaning as a map from block number to the
  entry's write-fail count.
 */
module BadBlockTree {
  import opened KernelTypes

  /** `struct badblock` without its tree links: block number and write-fail count. */
  datatype Entry = Entry(bb: nat, wrFailCnt: u8)

  /** An `rb_root`: `Leaf` is the empty tree (a NULL link). */
  datatype Tree = Leaf | Node(left: Tree, entry: Entry, right: Tree)

  ghost function Contents(t: Tree): map<nat, u8>
  {
    match t
    case Leaf => map[]
    case Node(l, e, r) => (Contents(l) + Contents(r))[e.bb := e.wrFailCnt]
  }

  /** No upper bound, or `k` lies below it. */
  predicate Below(k: int, hi: Option<nat>)
  {
    hi.None? || k < hi.value
  }

  /**
    `t` is a search tree whose keys all lie strictly above `lo` and below
    `hi` (`None`: no upper bound). Each node narrows the bounds of its two
    subtrees to its own key.
   */
  ghost predicate Within(t: Tree, lo: int, hi: Option<nat>)
  {
    match t
    case Leaf => true
    case Node(l, e, r) =>
      && lo < e.bb && Below(e.bb, hi)
      && Within(l, lo, Some(e.bb)) && Within(r, e.bb, hi)
  }

  /** The search-tree ordering the descents in `Search` and `Insert` rely on. */
  ghost predicate Ordered(t: Tree)
  {
    Within(t, -1, None)
  }

  /** Every key of a bounded tree lies within its bounds. */
  lemma {:induction false} KeyWithin(t: Tree, lo: int, hi: Option<nat>, k: nat)
    requires Within(t, lo, hi) && k in Contents(t)
    ensures lo < k && Below(k, hi)
  {
    match t
    case Node(l, e, r) =>
      if k in Contents(l) {
        KeyWithin(l, lo, Some(e.bb), k);
      } else if k in Contents(r) {
        KeyWithin(r, e.bb, hi, k);
      }
  }

  /** A key outside the bounds is not in the tree. */
  lemma {:induction false} Excludes(t: Tree, lo: int, hi: Option<nat>, k: nat)
    requires Within(t, lo, hi) && (k <= lo || !Below(k, hi))
    ensures k !in Contents(t)
  {
    match t
    case Leaf =>
    case Node(l, e, r) =>
      Excludes(l, lo, Some(e.bb), k);
      Excludes(r, e.bb, hi, k);
  }

  /** A tree within some bounds is within any looser ones. */
  lemma {:induction false} Widen(t: Tree, lo: int, hi: Option<nat>, lo': int, hi': Option<nat>)
    requires Within(t, lo, hi) && lo' <= lo
    requires hi'.None? || (hi.Some? && hi.value <= hi'.value)
    ensures Within(t, lo', hi')
  {
    match t
    case Leaf =>
    case Node(l, e, r) =>
      Widen(l, lo, Some(e.bb), lo', Some(e.bb));
      Widen(r, e.bb, hi, e.bb, hi');
  }

  /** Both subtrees of an ordered node are ordered. */
  lemma Children(t: Tree)
    requires Ordered(t) && t.Node?
    ensures Ordered(t.left) && Ordered(t.right)
  {
    Widen(t.left, -1, Some(t.entry.bb), -1, None);
    Widen(t.right, t.entry.bb, None, -1, None);
  }

  /** Number of nodes. */
  function Size(t: Tree): nat
  {
    match t
    case Leaf => 0
    case Node(l, _, r) => Size(l) + 1 + Size(r)
  }

  /** In a bounded tree every node carries a distinct key, so the node count is the number of keys. */
  lemma {:induction false} SizeIsCardinality(t: Tree, lo: int, hi: Option<nat>)
    requires Within(t, lo, hi)
    ensures |Contents(t)| == Size(t)
  {
    match t
    case Leaf =>
    case Node(l, e, r) =>
      SizeIsCardinality(l, lo, Some(e.bb));
      SizeIsCardinality(r, e.bb, hi);
      var L, R := Contents(l), Contents(r);
      assert L.Keys !! R.Keys by {
        forall k | k in L.Keys ensures k !in R.Keys {
          KeyWithin(l, lo, Some(e.bb), k);
          Excludes(r, e.bb, hi, k);
        }
      }
      Excludes(l, lo, Some(e.bb), e.bb);
      Excludes(r, e.bb, hi, e.bb);
      CardJoin(L, R, e.bb, e.wrFailCnt);
  }

  /** Two maps with disjoint keys and a fresh key: the joined map's size adds up. */
  lemma CardJoin(L: map<nat, u8>, R: map<nat, u8>, x: nat, c: u8)
    requires L.Keys !! R.Keys && x !in L && x !in R
    ensures |(L + R)[x := c]| == |L| + |R| + 1
  {
    CardUnion(L, R);
    CardInsert(L + R, x, c);
  }

  lemma CardUnion(L: map<nat, u8>, R: map<nat, u8>)
    requires L.Keys !! R.Keys
    ensures |L + R| == |L| + |R|
  {
    assert (L + R).Keys == L.Keys + R.Keys;
  }

  lemma CardInsert(m: map<nat, u8>, k: nat, v: u8)
    requires k !in m
    ensures |m[k := v]| == |m| + 1
  {
    assert m[k := v].Keys == m.Keys + {k};
  }

  lemma CardRemove(m: map<nat, u8>, k: nat)
    requires k in m
    ensures |m - {k}| == |m| - 1
  {
    assert (m - {k}).Keys == m.Keys - {k};
  }

  lemma EmptyIffLeaf(t: Tree)
    ensures Contents(t) == map[] <==> t == Leaf
  {
    if t.Node? {
      assert t.entry.bb in Contents(t);
    }
  }

  /** Below an ordered node, a key smaller than the node's lies in the left subtree and a larger one in the right. */
  lemma Descend(t: Tree, k: nat)
    requires Ordered(t) && t.Node?
    ensures Ordered(t.left) && Ordered(t.right)
    ensures k < t.entry.bb ==> (k in Contents(t) <==> k in Contents(t.left))
    ensures k < t.entry.bb && k in Contents(t.left) ==> Contents(t)[k] == Contents(t.left)[k]
    ensures t.entry.bb < k ==> (k in Contents(t) <==> k in Contents(t.right))
    ensures t.entry.bb < k && k in Contents(t.right) ==> Contents(t)[k] == Contents(t.right)[k]
  {
    Children(t);
    if k < t.entry.bb {
      Excludes(t.right, t.entry.bb, None, k);
    } else if t.entry.bb < k {
      Excludes(t.left, -1, Some(t.entry.bb), k);
    }
  }

  /**
    `dust_rb_search`: descend from the root, going left when the node's
    block is larger and right when it is smaller. Returns the entry whose
    block equals `blk`, or `None` (NULL) exactly when there is none.
   */
  method Search(root: Tree, blk: nat) returns (found: Option<Entry>)
    requires Ordered(root)
    ensures found.None? <==> blk !in Contents(root)
    ensures found.Some? ==> found.value == Entry(blk, Contents(root)[blk])
  {
    var node := root;
    while node.Node?
      invariant Ordered(node)
      invariant blk in Contents(root) <==> blk in Contents(node)
      invariant blk in Contents(node) ==> Contents(node)[blk] == Contents(root)[blk]
      decreases node
    {
      Descend(node, blk);
      if node.entry.bb > blk {
        node := node.left;
      } else if node.entry.bb < blk {
        node := node.right;
      } else {
        return Some(node.entry);
      }
    }
    return None;
  }

  /**
    The effect of `rb_link_node` followed by `rb_insert_color`: hang a new
    leaf holding `e` where the descent for `e.bb` ends.
   */
  function Link(t: Tree, e: Entry): (r: Tree)
    requires e.bb !in Contents(t)
    ensures Contents(r) == Contents(t)[e.bb := e.wrFailCnt]
  {
    match t
    case Leaf => Node(Leaf, e, Leaf)
    case Node(l, x, rt) =>
      if x.bb > e.bb then
        var l' := Link(l, e);
        UpdateBelow(Contents(l), Contents(rt), e.bb, x.bb, x.wrFailCnt, e.wrFailCnt);
        Node(l', x, rt)
      else
        var rt' := Link(rt, e);
        UpdateAbove(Contents(l), Contents(rt), e.bb, x.bb, x.wrFailCnt, e.wrFailCnt);
        Node(l, x, rt')
  }

  /** Linking a key that lies within a tree's bounds keeps the tree within them. */
  lemma {:induction false} LinkWithin(t: Tree, e: Entry, lo: int, hi: Option<nat>)
    requires Within(t, lo, hi) && lo < e.bb && Below(e.bb, hi) && e.bb !in Contents(t)
    ensures Within(Link(t, e), lo, hi)
  {
    match t
    case Leaf =>
    case Node(l, x, rt) =>
      if x.bb > e.bb {
        LinkWithin(l, e, lo, Some(x.bb));
      } else {
        LinkWithin(rt, e, x.bb, hi);
      }
  }

  /**
    `dust_rb_insert`: descend as `Search` does; a node with the same block
    refuses the insert and leaves the tree as it was, otherwise the new
    entry is linked in and is the only change.
   */
  method Insert(root: Tree, e: Entry) returns (inserted: bool, newRoot: Tree)
    requires Ordered(root)
    ensures Ordered(newRoot)
    ensures inserted <==> e.bb !in Contents(root)
    ensures inserted ==> Contents(newRoot) == Contents(root)[e.bb := e.wrFailCnt]
    ensures !inserted ==> newRoot == root
  {
    var node := root;
    while node.Node?
      invariant Ordered(node)
      invariant e.bb in Contents(root) <==> e.bb in Contents(node)
      decreases node
    {
      Descend(node, e.bb);
      if node.entry.bb > e.bb {
        node := node.left;
      } else if node.entry.bb < e.bb {
        node := node.right;
      } else {
        return false, root;
      }
    }
    LinkWithin(root, e, -1, None);
    inserted, newRoot := true, Link(root, e);
  }

  /**
    `rb_first` followed by `rb_erase` of that node: detach the entry with
    the smallest block.
   */
  function RemoveMin(t: Tree): (r: (Entry, Tree))
    requires t.Node? && Ordered(t)
    ensures r.0.bb in Contents(t) && Contents(t)[r.0.bb] == r.0.wrFailCnt
    ensures Contents(r.1) == Contents(t) - {r.0.bb}
    ensures Size(r.1) + 1 == Size(t)
  {
    match t
    case Node(l, x, rt) =>
      Children(t);
      Excludes(l, -1, Some(x.bb), x.bb);
      if l == Leaf then
        Excludes(rt, x.bb, None, x.bb);
        assert Contents(t) - {x.bb} == Contents(rt);
        (x, rt)
      else
        var (m, l') := RemoveMin(l);
        KeyWithin(l, -1, Some(x.bb), m.bb);
        Excludes(rt, x.bb, None, m.bb);
        MinusLeft(Contents(l), Contents(rt), m.bb, x.bb, x.wrFailCnt);
        (m, Node(l', x, rt))
  }

  /** What `RemoveMin` leaves lies above the key it detached, within the old upper bound. */
  lemma {:induction false} RemoveMinWithin(t: Tree, lo: int, hi: Option<nat>)
    requires t.Node? && Ordered(t) && Within(t, lo, hi)
    ensures lo < RemoveMin(t).0.bb && Below(RemoveMin(t).0.bb, hi)
    ensures Within(RemoveMin(t).1, RemoveMin(t).0.bb, hi)
  {
    match t
    case Node(l, x, rt) =>
      if l != Leaf {
        Children(t);
        var (m, l') := RemoveMin(l);
        RemoveMinWithin(l, lo, Some(x.bb));
      }
  }

  /** The detached entry is the first in order: its block is the smallest in the tree. */
  lemma RemoveMinIsFirst(t: Tree, k: nat)
    requires t.Node? && Ordered(t) && k in Contents(t)
    ensures RemoveMin(t).0.bb <= k
  {
    RemoveMinWithin(t, -1, None);
    var (m, rest) := RemoveMin(t);
    if k != m.bb {
      KeyWithin(rest, m.bb, None, k);
    }
  }

  /** `rb_erase` of the first node keeps the rest of the tree ordered. */
  lemma RemoveMinOrdered(t: Tree)
    requires t.Node? && Ordered(t)
    ensures Ordered(RemoveMin(t).1)
  {
    RemoveMinWithin(t, -1, None);
    Widen(RemoveMin(t).1, RemoveMin(t).0.bb, None, -1, None);
  }

  /** The effect of `rb_erase` on the node holding block `k`: only that key disappears. */
  function Erase(t: Tree, k: nat): (r: Tree)
    requires Ordered(t)
    ensures Contents(r) == Contents(t) - {k}
  {
    match t
    case Leaf => Leaf
    case Node(l, x, rt) =>
      Children(t);
      if k < x.bb then
        var l' := Erase(l, k);
        Excludes(rt, x.bb, None, k);
        MinusLeft(Contents(l), Contents(rt), k, x.bb, x.wrFailCnt);
        Node(l', x, rt)
      else if x.bb < k then
        var rt' := Erase(rt, k);
        Excludes(l, -1, Some(x.bb), k);
        MinusRight(Contents(l), Contents(rt), k, x.bb, x.wrFailCnt);
        Node(l, x, rt')
      else if rt == Leaf then
        Excludes(l, -1, Some(x.bb), k);
        assert Contents(t) - {k} == Contents(l);
        l
      else
        var (m, rt') := RemoveMin(rt);
        Excludes(l, -1, Some(x.bb), x.bb);
        Excludes(rt, x.bb, None, x.bb);
        KeyWithin(rt, x.bb, None, m.bb);
        Excludes(l, -1, Some(x.bb), m.bb);
        ReplaceRoot(Contents(l), Contents(rt), x.bb, x.wrFailCnt, m.bb);
        Node(l, m, rt')
  }

  /** Erasing keeps a tree within its bounds. */
  lemma {:induction false} EraseWithin(t: Tree, k: nat, lo: int, hi: Option<nat>)
    requires Ordered(t) && Within(t, lo, hi)
    ensures Within(Erase(t, k), lo, hi)
  {
    match t
    case Leaf =>
    case Node(l, x, rt) =>
      Children(t);
      if k < x.bb {
        EraseWithin(l, k, lo, Some(x.bb));
      } else if x.bb < k {
        EraseWithin(rt, k, x.bb, hi);
      } else if rt == Leaf {
        Widen(l, lo, Some(x.bb), lo, hi);
      } else {
        var (m, rt') := RemoveMin(rt);
        RemoveMinWithin(rt, x.bb, hi);
        Widen(l, lo, Some(x.bb), lo, Some(m.bb));
      }
  }

  lemma MinusLeft(L: map<nat, u8>, R: map<nat, u8>, k: nat, x: nat, c: u8)
    requires k != x && k !in R
    ensures ((L - {k}) + R)[x := c] == ((L + R)[x := c]) - {k}
  {
    var A, B := ((L - {k}) + R)[x := c], ((L + R)[x := c]) - {k};
    assert A.Keys == B.Keys;
    assert forall j | j in A :: A[j] == B[j];
  }

  lemma MinusRight(L: map<nat, u8>, R: map<nat, u8>, k: nat, x: nat, c: u8)
    requires k != x && k !in L
    ensures (L + (R - {k}))[x := c] == ((L + R)[x := c]) - {k}
  {
    var A, B := (L + (R - {k}))[x := c], ((L + R)[x := c]) - {k};
    assert A.Keys == B.Keys;
    assert forall j | j in A :: A[j] == B[j];
  }

  lemma ReplaceRoot(L: map<nat, u8>, R: map<nat, u8>, x: nat, c: u8, m: nat)
    requires x !in L && x !in R && m in R && m !in L
    ensures (L + (R - {m}))[m := R[m]] == ((L + R)[x := c]) - {x}
  {
    var A, B := (L + (R - {m}))[m := R[m]], ((L + R)[x := c]) - {x};
    assert A.Keys == B.Keys;
    assert forall j | j in A :: A[j] == B[j];
  }

  /** Writing a new write-fail count into the entry for block `k` in place. */
  function SetCount(t: Tree, k: nat, c: u8): (r: Tree)
    requires Ordered(t) && k in Contents(t)
    ensures Contents(r) == Contents(t)[k := c]
  {
    match t
    case Node(l, x, rt) =>
      Descend(t, k);
      if k < x.bb then
        var l' := SetCount(l, k, c);
        Excludes(rt, x.bb, None, k);
        UpdateBelow(Contents(l), Contents(rt), k, x.bb, x.wrFailCnt, c);
        Node(l', x, rt)
      else if x.bb < k then
        var rt' := SetCount(rt, k, c);
        Excludes(l, -1, Some(x.bb), k);
        UpdateAbove(Contents(l), Contents(rt), k, x.bb, x.wrFailCnt, c);
        Node(l, x, rt')
      else
        assert Contents(Node(l, Entry(k, c), rt)) == Contents(t)[k := c];
        Node(l, Entry(k, c), rt)
  }

  /** Rewriting a count keeps the keys, so the tree stays within its bounds. */
  lemma {:induction false} SetCountWithin(t: Tree, k: nat, c: u8, lo: int, hi: Option<nat>)
    requires Ordered(t) && k in Contents(t) && Within(t, lo, hi)
    ensures Within(SetCount(t, k, c), lo, hi)
  {
    match t
    case Node(l, x, rt) =>
      Descend(t, k);
      if k < x.bb {
        SetCountWithin(l, k, c, lo, Some(x.bb));
      } else if x.bb < k {
        SetCountWithin(rt, k, c, x.bb, hi);
      }
  }

  lemma UpdateBelow(L: map<nat, u8>, R: map<nat, u8>, k: nat, x: nat, cx: u8, c: u8)
    requires k != x && k !in R
    ensures (L[k := c] + R)[x := cx] == ((L + R)[x := cx])[k := c]
  {
    var A, B := (L[k := c] + R)[x := cx], ((L + R)[x := cx])[k := c];
    assert A.Keys == B.Keys;
    assert forall j | j in A :: A[j] == B[j];
  }

  lemma UpdateAbove(L: map<nat, u8>, R: map<nat, u8>, k: nat, x: nat, cx: u8, c: u8)
    requires k != x
    ensures (L + R[k := c])[x := cx] == ((L + R)[x := cx])[k := c]
  {
    var A, B := (L + R[k := c])[x := cx], ((L + R)[x := cx])[k := c];
    assert A.Keys == B.Keys;
    assert forall j | j in A :: A[j] == B[j];
  }

  /**
    `__dust_clear_badblocks`: erase the nodes of a detached tree one by one
    from the first, decrementing the 64-bit `count` for each. `nonEmpty` is
    the return value (false exactly when the tree was empty); `bugOn` says
    that `BUG_ON(count != 0)` fires, which happens exactly when `count`
    was not the number of entries (modulo 2^64).
   */
  method ClearAll(tree: Tree, count: u64) returns (nonEmpty: bool, bugOn: bool)
    requires Ordered(tree)
    ensures nonEmpty <==> Contents(tree) != map[]
    ensures bugOn <==> count != |Contents(tree)| % U64_LIMIT
  {
    EmptyIffLeaf(tree);
    if tree == Leaf {
      return false, count != 0;
    }
    var c := FreeAll(tree, count);
    ClearedCount(tree, count);
    nonEmpty, bugOn := true, c != 0;
  }

  /** The loop of `__dust_clear_badblocks`: erase the first node until none is left, decrementing `count` for each. */
  method FreeAll(tree: Tree, count: u64) returns (c: u64)
    requires Ordered(tree)
    ensures c == DecrementedBy(count, Size(tree))
  {
    var nnode := tree;
    c := count;
    ghost var freed: nat := 0;
    while nnode != Leaf
      invariant Ordered(nnode)
      invariant freed + Size(nnode) == Size(tree)
      invariant c == DecrementedBy(count, freed)
      decreases Size(nnode)
    {
      RemoveMinOrdered(nnode);
      var (_, rest) := RemoveMin(nnode);
      nnode := rest;
      c := Dec64(c);
      freed := freed + 1;
    }
  }

  /** Freeing every node of an ordered tree brings `count` to 0 exactly when it was the number of entries. */
  lemma ClearedCount(tree: Tree, count: u64)
    requires Ordered(tree)
    ensures DecrementedBy(count, Size(tree)) == 0 <==> count == |Contents(tree)| % U64_LIMIT
  {
    SizeIsCardinality(tree, -1, None);
    DecrementedToZero(count, Size(tree));
  }

  /** The value of a 64-bit counter that started at `count` after `n` decrements. */
  function DecrementedBy(count: u64, n: nat): u64
  {
    if n == 0 then count else Dec64(DecrementedBy(count, n - 1))
  }

  /** The counter reaches 0 after `n` decrements exactly when it started at `n` modulo 2^64. */
  lemma DecrementedToZero(count: u64, n: nat)
    ensures DecrementedBy(count, n) == 0 <==> count == n % U64_LIMIT
  {
    DecrementedByIsModular(count, n);
    WrapZero(count, n);
  }

  lemma {:induction false} DecrementedByIsModular(count: u64, n: nat)
    ensures DecrementedBy(count, n) == (count - n) % U64_LIMIT
  {
    if n > 0 {
      DecrementedByIsModular(count, n - 1);
      WrapStep(count, n - 1, DecrementedBy(count, n - 1));
    }
  }

  /** One more wrapped decrement of a counter that started at `count` and has been decremented `n` times. */
  lemma WrapStep(count: int, n: int, c: int)
    requires c == (count - n) % U64_LIMIT
    ensures (c - 1) % U64_LIMIT == (count - (n + 1)) % U64_LIMIT
  {
    var q := (count - n) / U64_LIMIT;
    assert count - n == q * U64_LIMIT + c;
    assert count - (n + 1) == q * U64_LIMIT + (c - 1);
  }

  lemma WrapZero(count: u64, n: nat)
    ensures (count - n) % U64_LIMIT == 0 <==> count == n % U64_LIMIT
  {
    var q := n / U64_LIMIT;
    assert n == q * U64_LIMIT + n % U64_LIMIT;
    assert count - n == (count - n % U64_LIMIT) - q * U64_LIMIT;
    assert -U64_LIMIT < count - n % U64_LIMIT < U64_LIMIT;
  }
}
