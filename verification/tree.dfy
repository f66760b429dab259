/** The unbalanced binary search tree behind the set, with its recursive
    operations written as pure functions. The C++ helpers update the nodes
    on their path in place, storing each recursive result back into the
    parent's child slot; here each helper returns the updated subtree
    instead, and the `bool&` flag it sets is returned beside it. */
module BinaryTree {
  import opened CustomTypes

  datatype Tree = Empty | Node(left: Tree, value: CustomType, right: Tree)

  /** Result of the insertion helper: the new subtree and whether a fresh
      node was created in it (the `added` flag). */
  datatype Insertion = Insertion(tree: Tree, added: bool)

  /** Result of the removal helper: the new subtree and whether a node equal
      to the value was reached in it (the `removed` flag). */
  datatype Removal = Removal(tree: Tree, removed: bool)

  /** The values held by the nodes of `t`. */
  ghost function Content(t: Tree): set<CustomType> {
    match t
    case Empty => {}
    case Node(l, x, r) => Content(l) + {x} + Content(r)
  }

  /** The ordering invariant, stated with the tests the set routes by: every
      value of the left subtree is `<` the node's value, every value of the
      right subtree is neither `<` nor `==` to it. */
  ghost predicate BST(t: Tree) {
    match t
    case Empty => true
    case Node(l, x, r) =>
      && BST(l)
      && BST(r)
      && (forall y :: y in Content(l) ==> Less(y, x))
      && (forall y :: y in Content(r) ==> GoesRight(y, x))
  }

  /** Private `size`: the number of nodes. */
  function Size(t: Tree): (n: nat)
    ensures n == 0 <==> t.Empty?
  {
    match t
    case Empty => 0
    case Node(l, _, r) => 1 + Size(l) + Size(r)
  }

  /** The values in the order the private `iterate` visits them: left
      subtree, node, right subtree. */
  function InOrder(t: Tree): (s: seq<CustomType>)
    ensures |s| == Size(t)
    ensures forall y :: y in s <==> y in Content(t)
  {
    match t
    case Empty => []
    case Node(l, x, r) => InOrder(l) + [x] + InOrder(r)
  }

  /** One call of an `iterate` visitor: the visitor's own state at that
      call and the value it was given. */
  datatype Call<S> = Call(state: S, value: CustomType)

  /** An in-order walk: the visitor calls made, first to last, and the state
      the visitor object is left in afterwards. */
  datatype Visit<S> = Visit(calls: seq<Call<S>>, after: S)

  /** The values a run of visitor calls was given, first to last. */
  function Values<S>(calls: seq<Call<S>>): (vs: seq<CustomType>)
    ensures |vs| == |calls|
    decreases |calls|
  {
    if calls == [] then [] else [calls[0].value] + Values(calls[1..])
  }

  /** The values of two runs of calls, one after the other. */
  lemma {:induction false} ValuesAppend<S>(a: seq<Call<S>>, b: seq<Call<S>>)
    ensures Values(a + b) == Values(a) + Values(b)
    decreases |a|
  {
    if a == [] {
      assert a + b == b;
    } else {
      assert (a + b)[1..] == a[1..] + b;
      ValuesAppend(a[1..], b);
    }
  }

  /** The values of a walk over a node: the left subtree's, the node's own,
      then the right subtree's. */
  lemma ValuesAroundNode<S>(a: seq<Call<S>>, c: Call<S>, b: seq<Call<S>>)
    ensures Values(a + [c] + b) == Values(a) + [c.value] + Values(b)
  {
    ValuesAppend(a + [c], b);
    ValuesAppend(a, [c]);
    assert [c][1..] == [];
  }

  /** A run of calls made with one visitor object passed by reference: the
      first call sees the state `before`, each later call sees the state the
      previous call left, and the visitor ends in `after`, the state the last
      call left. */
  ghost predicate Chained<S>(calls: seq<Call<S>>, visit: (S, CustomType) -> S, before: S, after: S)
    decreases |calls|
  {
    if calls == [] then after == before
    else calls[0].state == before && Chained(calls[1..], visit, visit(before, calls[0].value), after)
  }

  /** Two chained runs, the second starting in the state the first ended
      in, form one chained run. */
  lemma {:induction false} ChainedAppend<S>(a: seq<Call<S>>, b: seq<Call<S>>, visit: (S, CustomType) -> S,
                                            before: S, mid: S, after: S)
    requires Chained(a, visit, before, mid) && Chained(b, visit, mid, after)
    ensures Chained(a + b, visit, before, after)
    decreases |a|
  {
    if a == [] {
      assert a + b == b;
    } else {
      assert (a + b)[1..] == a[1..] + b;
      ChainedAppend(a[1..], b, visit, visit(before, a[0].value), mid, after);
    }
  }

  /** Feeding a sequence of values to a visitor, first to last. */
  function Fold<S>(xs: seq<CustomType>, visit: (S, CustomType) -> S, acc: S): S
    decreases |xs|
  {
    if xs == [] then acc else Fold(xs[1..], visit, visit(acc, xs[0]))
  }

  /** Private `iterate` of the `_single` copy: the visitor is passed by
      reference, so one visitor object is called on the left subtree, then
      on the node's value, then on the right subtree, and each call sees the
      state the previous one left. The visitor's side effects are modelled as
      the state `acc` it transforms. */
  function Iterate<S>(t: Tree, visit: (S, CustomType) -> S, acc: S): (r: Visit<S>)
    ensures |r.calls| == Size(t)
    ensures Values(r.calls) == InOrder(t)
    ensures Chained(r.calls, visit, acc, r.after)
  {
    match t
    case Empty => Visit([], acc)
    case Node(l, x, rt) =>
      var left := Iterate(l, visit, acc);
      var mid := visit(left.after, x);
      var right := Iterate(rt, visit, mid);
      var c := Call(left.after, x);
      ValuesAroundNode(left.calls, c, right.calls);
      assert Chained([c], visit, left.after, mid) by {
        assert [c][1..] == [];
      }
      ChainedAppend(left.calls, [c], visit, acc, left.after, mid);
      ChainedAppend(left.calls + [c], right.calls, visit, acc, mid, right.after);
      Visit(left.calls + [c] + right.calls, right.after)
  }

  /** Private `iterate` of the `_multi` copy: the visitor is passed by value,
      so each level works on its own copy. The left subtree gets a copy of
      this level's visitor and its calls are lost to this level; the node's
      value is given to this level's visitor; the right subtree gets a copy
      of the visitor as that call left it. */
  function IterateByCopy<S>(t: Tree, visit: (S, CustomType) -> S, acc: S): (calls: seq<Call<S>>)
    ensures Values(calls) == InOrder(t)
    ensures |calls| == Size(t)
  {
    match t
    case Empty => []
    case Node(l, x, rt) =>
      ValuesAroundNode(IterateByCopy(l, visit, acc), Call(acc, x), IterateByCopy(rt, visit, visit(acc, x)));
      IterateByCopy(l, visit, acc) + [Call(acc, x)] + IterateByCopy(rt, visit, visit(acc, x))
  }

  /** Private `search`: descends by the three-way comparison and reports
      whether a node equal to `v` is reached. */
  function Search(t: Tree, v: CustomType): (found: bool)
    ensures found ==> v in Content(t)
  {
    match t
    case Empty => false
    case Node(l, x, r) =>
      if Less(v, x) then Search(l, v)
      else if GoesRight(v, x) then Search(r, v)
      else true
  }

  /** The value `findMax` reaches by following right children. */
  function Rightmost(t: Tree): (m: CustomType)
    requires t.Node?
    ensures m in Content(t)
    ensures BST(t) ==> forall y :: y in Content(t) && y != m ==> Less(y, m)
  {
    if t.right.Empty? then t.value else Rightmost(t.right)
  }

  /** The value `findMin` reaches by following left children. */
  function Leftmost(t: Tree): (m: CustomType)
    requires t.Node?
    ensures m in Content(t)
    ensures BST(t) ==> forall y :: y in Content(t) && y != m ==> Less(m, y)
  {
    if t.left.Empty? then t.value else Leftmost(t.left)
  }

  /** `findMax`: walks right children while there is one. The caller must
      pass a non-null node. */
  method FindMax(t: Tree) returns (m: CustomType)
    requires t.Node?
    ensures m == Rightmost(t)
    ensures m in Content(t)
    ensures BST(t) ==> forall y :: y in Content(t) && y != m ==> Less(y, m)
  {
    var cur := t;
    while cur.right.Node?
      invariant cur.Node?
      invariant Rightmost(cur) == Rightmost(t)
      decreases cur
    {
      cur := cur.right;
    }
    m := cur.value;
  }

  /** `findMin`: walks left children while there is one. The caller must
      pass a non-null node. */
  method FindMin(t: Tree) returns (m: CustomType)
    requires t.Node?
    ensures m == Leftmost(t)
    ensures m in Content(t)
    ensures BST(t) ==> forall y :: y in Content(t) && y != m ==> Less(m, y)
  {
    var cur := t;
    while cur.left.Node?
      invariant cur.Node?
      invariant Leftmost(cur) == Leftmost(t)
      decreases cur
    {
      cur := cur.left;
    }
    m := cur.value;
  }

  /** The private insertion helper (`add` in one copy, `insert` in the
      other). An empty slot gets a fresh node and sets `added`. Otherwise two
      independent tests are made against the node's value, in this order:
      `v < x` updates the left child slot, and "neither `v < x` nor `v == x`"
      updates the right one. The node's value is not changed in between, so
      at most one test passes; when `v == x` neither does and the node is
      returned as it was. */
  function Add(t: Tree, v: CustomType): (r: Insertion)
    ensures r.tree.Node?
    ensures Content(r.tree) == Content(t) + {v}
    ensures r.added ==> Size(r.tree) == Size(t) + 1
    ensures !r.added ==> r.tree == t && v in Content(t)
  {
    match t
    case Empty => Insertion(Node(Empty, v, Empty), true)
    case Node(l, x, rt) =>
      var left := if Less(v, x) then Add(l, v) else Insertion(l, false);
      var right := if GoesRight(v, x) then Add(rt, v) else Insertion(rt, false);
      Insertion(Node(left.tree, x, right.tree), left.added || right.added)
  }

  /** The private removal helper. It descends by the three-way comparison;
      at the node equal to `v` it sets `removed` and
      - with no children, yields an empty slot;
      - with no left child, yields the right child;
      - with no right child, yields the left child;
      - with two children, overwrites the node's value with the largest value
        `m` of the left subtree, removes `m` from the left subtree, and then
        ALSO removes the node's (new) value `m` from the right subtree, as
        the source does. */
  function Remove(t: Tree, v: CustomType): (r: Removal)
    ensures !r.removed ==> r.tree == t
    ensures r.removed ==> v in Content(t)
    ensures Content(r.tree) <= Content(t)
  {
    match t
    case Empty => Removal(Empty, false)
    case Node(l, x, rt) =>
      if Less(v, x) then
        var a := Remove(l, v);
        Removal(Node(a.tree, x, rt), a.removed)
      else if GoesRight(v, x) then
        var b := Remove(rt, v);
        Removal(Node(l, x, b.tree), b.removed)
      else if l.Empty? && rt.Empty? then
        Removal(Empty, true)
      else if l.Empty? then
        Removal(rt, true)
      else if rt.Empty? then
        Removal(l, true)
      else
        var m := Rightmost(l);
        var a := Remove(l, m);
        var b := Remove(rt, m);
        Removal(Node(a.tree, m, b.tree), true)
  }
}
