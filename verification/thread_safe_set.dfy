/** The public face of `mbu::ThreadSafeSet<CustomType>`: a root slot holding
    the tree, and the operations callers use. Locks, atomics and the
    compare-and-swap retry loops only order concurrent calls; in this
    sequential model each publication is a single assignment. The two copies
    of the class (with and without the writer lock in insert and remove)
    then differ only in `iterate`, which `Iterate` and `IterateByCopy`
    model separately. */
module ThreadSafeSets {
  import opened CustomTypes
  import BinaryTree
  import TreeProofs

  /** A set object: the tree currently published at its root slot. */
  datatype SetState = SetState(root: BinaryTree.Tree)

  /** The fate of a public call built around a `while (true)` loop: it
      either leaves the loop with a value or spins forever. */
  datatype Outcome<R> = Diverges | Returns(value: R)

  /** A mutating call's new state and its boolean answer. */
  datatype Reply = Reply(state: SetState, result: bool)

  /** Objects are told apart by an identity, so that a move between two
      names for the same object can be expressed. */
  type ObjectId = nat

  /** Every state the public operations reach from a new set satisfies the
      ordering invariant (see `RunKeepsInvariant`). */
  ghost predicate Valid(s: SetState) {
    BinaryTree.BST(s.root)
  }

  /** The values the set holds. */
  ghost function Elements(s: SetState): set<CustomType> {
    BinaryTree.Content(s.root)
  }

  /** The constructor: an empty root slot. */
  function New(): (s: SetState)
    ensures Valid(s) && Elements(s) == {}
  {
    SetState(BinaryTree.Empty)
  }

  /** Public `insert`. The loop leaves as soon as the helper's result is
      non-null, which it always is, so the call returns (node allocation is
      assumed to succeed); the answer is the helper's `added` flag. */
  function Insert(s: SetState, v: CustomType): (r: Outcome<Reply>)
    ensures r.Returns?
    ensures Elements(r.value.state) == Elements(s) + {v}
    ensures r.value.result ==> Size(r.value.state) == Size(s) + 1
    ensures !r.value.result ==> r.value.state == s
  {
    var res := BinaryTree.Add(s.root, v);
    if res.tree.Empty? then Diverges
    else Returns(Reply(SetState(res.tree), res.added))
  }

  /** Public `remove`. The loop publishes the helper's result and leaves
      only when that result is non-null. When it is null, the next round
      runs the helper on the null snapshot the loop left behind, gets null
      again, and so spins forever (holding the writer lock in the copy that
      takes one). */
  function Remove(s: SetState, v: CustomType): (r: Outcome<Reply>)
    ensures r.Returns? ==> r.value.state.root.Node?
    ensures r.Returns? ==> Elements(r.value.state) <= Elements(s)
    ensures r.Returns? && r.value.result ==> v in Elements(s)
    ensures r.Returns? && !r.value.result ==> r.value.state == s
  {
    var res := BinaryTree.Remove(s.root, v);
    if res.tree.Empty? then Diverges
    else Returns(Reply(SetState(res.tree), res.removed))
  }

  /** Public `search`, on a snapshot of the root. */
  function Search(s: SetState, v: CustomType): (found: bool)
    ensures found ==> v in Elements(s)
  {
    BinaryTree.Search(s.root, v)
  }

  /** Public `size`, on a snapshot of the root. */
  function Size(s: SetState): (n: nat)
    ensures |BinaryTree.InOrder(s.root)| == n
  {
    BinaryTree.Size(s.root)
  }

  /** Public `empty`: the root snapshot is null. */
  function IsEmpty(s: SetState): (b: bool)
    ensures b <==> Elements(s) == {}
  {
    TreeProofs.EmptyIffNoContent(s.root);
    s.root.Empty?
  }

  /** Public `clear`: publishes a null root. */
  function Clear(s: SetState): (r: SetState)
    ensures Valid(r)
    ensures IsEmpty(r) && Size(r) == 0
    ensures forall v :: !Search(r, v)
  {
    SetState(BinaryTree.Empty)
  }

  /** Public `iterate` of the `_single` copy: walks a snapshot of the root
      with the `std::function` bound to `func`, passed by reference all the
      way down. Each call sees the state the calls on the smaller values
      left, and that object ends in the state the last call left. `acc` and
      `r.after` are the state held inside that object; a lambda argument is
      first copied into a temporary `std::function`. */
  function Iterate<S>(s: SetState, visit: (S, CustomType) -> S, acc: S): (r: BinaryTree.Visit<S>)
    ensures BinaryTree.Values(r.calls) == BinaryTree.InOrder(s.root)
    ensures forall i :: 0 <= i < |r.calls| ==>
      r.calls[i].state == BinaryTree.Fold(BinaryTree.InOrder(s.root)[..i], visit, acc)
    ensures r.after == BinaryTree.Fold(BinaryTree.InOrder(s.root), visit, acc)
  {
    TreeProofs.IterateVisitsInOrder(s.root, visit, acc);
    BinaryTree.Iterate(s.root, visit, acc)
  }

  /** Public `iterate` of the `_multi` copy: the private walk takes the
      visitor by value, so it works on copies. The values still arrive in
      order, once each, but the `std::function` bound to `func` is left as
      it was. */
  function IterateByCopy<S>(s: SetState, visit: (S, CustomType) -> S, acc: S): (r: BinaryTree.Visit<S>)
    ensures BinaryTree.Values(r.calls) == BinaryTree.InOrder(s.root)
    ensures r.after == acc
  {
    BinaryTree.Visit(BinaryTree.IterateByCopy(s.root, visit, acc), acc)
  }

  /** Move construction: the new object takes the source's root and the
      source's root is reset to null. */
  function MoveConstruct(objs: map<ObjectId, SetState>, target: ObjectId, source: ObjectId)
    : (r: map<ObjectId, SetState>)
    requires source in objs && target !in objs
    ensures r.Keys == objs.Keys + {target}
    ensures r[target] == objs[source]
    ensures IsEmpty(r[source])
    ensures forall o :: o in objs && o != source ==> r[o] == objs[o]
  {
    objs[target := objs[source]][source := New()]
  }

  /** Move assignment: stores the source's root into the target, then resets
      the source's root to null. When target and source are the same object
      the second store wins and the object is left empty. */
  function MoveAssign(objs: map<ObjectId, SetState>, target: ObjectId, source: ObjectId)
    : (r: map<ObjectId, SetState>)
    requires target in objs && source in objs
    ensures r.Keys == objs.Keys
    ensures target != source ==> r[target] == objs[source]
    ensures IsEmpty(r[source])
    ensures forall o :: o in objs && o != target && o != source ==> r[o] == objs[o]
  {
    objs[target := objs[source]][source := New()]
  }

  /** On a valid set `insert` keeps the invariant, answers true exactly when
      the value was absent, and the value is found afterwards. */
  lemma InsertCorrect(s: SetState, v: CustomType)
    requires Valid(s)
    ensures Valid(Insert(s, v).value.state)
    ensures Insert(s, v).value.result <==> v !in Elements(s)
    ensures Search(Insert(s, v).value.state, v)
  {
    TreeProofs.AddCorrect(s.root, v);
    TreeProofs.SearchCorrect(BinaryTree.Add(s.root, v).tree, v);
  }

  /** `remove` spins forever exactly when the set is empty or holds `v`
      alone; otherwise it returns, answering whether `v` was present, with
      `v` gone, the invariant kept and the size down by one on success. */
  lemma RemoveCorrect(s: SetState, v: CustomType)
    requires Valid(s)
    ensures Remove(s, v).Diverges? <==> Elements(s) == {} || Elements(s) == {v}
    ensures Remove(s, v).Returns? ==>
      && Valid(Remove(s, v).value.state)
      && Elements(Remove(s, v).value.state) == Elements(s) - {v}
      && (Remove(s, v).value.result <==> v in Elements(s))
      && Size(Remove(s, v).value.state) == Size(s) - (if v in Elements(s) then 1 else 0)
  {
    TreeProofs.RemoveCorrect(s.root, v);
    TreeProofs.RemoveYieldsEmptyIff(s.root, v);
    TreeProofs.RemoveSize(s.root, v);
  }

  /** `search` answers membership exactly and `size` counts the values. */
  lemma ObserversCorrect(s: SetState, v: CustomType)
    requires Valid(s)
    ensures Search(s, v) <==> v in Elements(s)
    ensures Size(s) == |Elements(s)|
    ensures TreeProofs.Ascending(BinaryTree.InOrder(s.root))
  {
    TreeProofs.SearchCorrect(s.root, v);
    TreeProofs.SizeIsCardinality(s.root);
    TreeProofs.InOrderAscending(s.root);
  }

  /** The mutating calls a client can make. */
  datatype Op = InsertOp(v: CustomType) | RemoveOp(v: CustomType) | ClearOp

  /** Runs a client's calls in order, stopping at the first call that never
      returns. */
  function Run(s: SetState, ops: seq<Op>): Outcome<SetState>
    decreases |ops|
  {
    if ops == [] then Returns(s)
    else
      match ops[0]
      case ClearOp => Run(Clear(s), ops[1..])
      case InsertOp(v) =>
        (match Insert(s, v)
         case Diverges => Diverges
         case Returns(reply) => Run(reply.state, ops[1..]))
      case RemoveOp(v) =>
        (match Remove(s, v)
         case Diverges => Diverges
         case Returns(reply) => Run(reply.state, ops[1..]))
  }

  /** The ordering invariant holds of every state the calls reach. */
  lemma {:induction false} RunKeepsInvariant(s: SetState, ops: seq<Op>)
    requires Valid(s)
    ensures Run(s, ops).Returns? ==> Valid(Run(s, ops).value)
    decreases |ops|
  {
    if ops != [] {
      match ops[0]
      case ClearOp =>
        RunKeepsInvariant(Clear(s), ops[1..]);
      case InsertOp(v) =>
        InsertCorrect(s, v);
        RunKeepsInvariant(Insert(s, v).value.state, ops[1..]);
      case RemoveOp(v) =>
        RemoveCorrect(s, v);
        if Remove(s, v).Returns? {
          RunKeepsInvariant(Remove(s, v).value.state, ops[1..]);
        }
    }
  }

  function Leaf(n: Int32): BinaryTree.Tree {
    BinaryTree.Node(BinaryTree.Empty, CustomType(n), BinaryTree.Empty)
  }

  /** The tree that inserting 5, 3, 8, 1, 4 into a new set builds. */
  function ExampleTree(): BinaryTree.Tree {
    BinaryTree.Node(BinaryTree.Node(Leaf(1), CustomType(3), Leaf(4)), CustomType(5), Leaf(8))
  }

  /** Each insert of the example adds a fresh node where the three-way
      comparison leads. */
  lemma WorkedExampleInserts()
    ensures BinaryTree.Add(BinaryTree.Empty, CustomType(5)) == BinaryTree.Insertion(Leaf(5), true)
    ensures BinaryTree.Add(Leaf(5), CustomType(3)) == BinaryTree.Insertion(BinaryTree.Node(Leaf(3), CustomType(5), BinaryTree.Empty), true)
    ensures BinaryTree.Add(BinaryTree.Node(Leaf(3), CustomType(5), BinaryTree.Empty), CustomType(8))
            == BinaryTree.Insertion(BinaryTree.Node(Leaf(3), CustomType(5), Leaf(8)), true)
    ensures BinaryTree.Add(BinaryTree.Node(Leaf(3), CustomType(5), Leaf(8)), CustomType(1))
            == BinaryTree.Insertion(BinaryTree.Node(BinaryTree.Node(Leaf(1), CustomType(3), BinaryTree.Empty), CustomType(5), Leaf(8)), true)
    ensures BinaryTree.Add(BinaryTree.Node(BinaryTree.Node(Leaf(1), CustomType(3), BinaryTree.Empty), CustomType(5), Leaf(8)), CustomType(4))
            == BinaryTree.Insertion(ExampleTree(), true)
  {
    assert BinaryTree.Add(Leaf(3), CustomType(1)) == BinaryTree.Insertion(BinaryTree.Node(Leaf(1), CustomType(3), BinaryTree.Empty), true);
    assert BinaryTree.Add(BinaryTree.Node(Leaf(1), CustomType(3), BinaryTree.Empty), CustomType(4)) == BinaryTree.Insertion(BinaryTree.Node(Leaf(1), CustomType(3), Leaf(4)), true);
  }

  /** The last three inserts of the example, from the set holding 5 and 3. */
  lemma WorkedExampleRunTail()
    ensures Run(SetState(BinaryTree.Node(Leaf(3), CustomType(5), BinaryTree.Empty)),
                [InsertOp(CustomType(8)), InsertOp(CustomType(1)), InsertOp(CustomType(4))])
            == Returns(SetState(ExampleTree()))
  {
    WorkedExampleInserts();
    var t3 := BinaryTree.Node(Leaf(3), CustomType(5), Leaf(8));
    var t4 := BinaryTree.Node(BinaryTree.Node(Leaf(1), CustomType(3), BinaryTree.Empty), CustomType(5), Leaf(8));
    var t5 := ExampleTree();
    var ops := [InsertOp(CustomType(8)), InsertOp(CustomType(1)), InsertOp(CustomType(4))];
    assert ops[1..] == [InsertOp(CustomType(1)), InsertOp(CustomType(4))];
    assert ops[1..][1..] == [InsertOp(CustomType(4))];
    assert Run(SetState(t5), []) == Returns(SetState(t5));
    assert Run(SetState(t4), ops[1..][1..]) == Returns(SetState(t5));
    assert Run(SetState(t3), ops[1..]) == Returns(SetState(t5));
  }

  /** Running the five inserts on a new set reaches the example tree. */
  lemma WorkedExampleRun()
    ensures Run(New(), [InsertOp(CustomType(5)), InsertOp(CustomType(3)), InsertOp(CustomType(8)),
                        InsertOp(CustomType(1)), InsertOp(CustomType(4))])
            == Returns(SetState(ExampleTree()))
  {
    WorkedExampleInserts();
    WorkedExampleRunTail();
    var t1 := Leaf(5);
    var t2 := BinaryTree.Node(Leaf(3), CustomType(5), BinaryTree.Empty);
    var t5 := ExampleTree();
    assert Run(SetState(t1), [InsertOp(CustomType(3)), InsertOp(CustomType(8)), InsertOp(CustomType(1)),
                              InsertOp(CustomType(4))])
           == Returns(SetState(t5));
  }

  /** The example tree's values read 1, 3, 4, 5, 8. */
  lemma WorkedExampleOrder()
    ensures BinaryTree.InOrder(ExampleTree()) == [CustomType(1), CustomType(3), CustomType(4), CustomType(5), CustomType(8)]
  {
  }

  /** A visitor that counts its calls: its state is the number of calls it
      has seen. */
  function Count(n: int, y: CustomType): int {
    n + 1
  }

  /** The counting visitor over the example set, passed by reference
      (`_single`): the calls see the counts 0, 1, 2, 3, 4 and the counter
      inside the `std::function` bound to `func` ends at 5. */
  lemma CountingVisitorByReference()
    ensures Iterate(SetState(ExampleTree()), Count, 0)
            == BinaryTree.Visit([BinaryTree.Call(0, CustomType(1)), BinaryTree.Call(1, CustomType(3)),
                                 BinaryTree.Call(2, CustomType(4)), BinaryTree.Call(3, CustomType(5)),
                                 BinaryTree.Call(4, CustomType(8))], 5)
  {
    assert BinaryTree.Iterate(BinaryTree.Node(Leaf(1), CustomType(3), Leaf(4)), Count, 0)
           == BinaryTree.Visit([BinaryTree.Call(0, CustomType(1)), BinaryTree.Call(1, CustomType(3)),
                                BinaryTree.Call(2, CustomType(4))], 3);
  }

  /** The same visitor passed by value (`_multi`): every level counts on its
      own copy, so the calls see 0, 0, 1, 0, 1 and the counter inside the
      `std::function` bound to `func` stays at 0. */
  lemma CountingVisitorByCopy()
    ensures IterateByCopy(SetState(ExampleTree()), Count, 0)
            == BinaryTree.Visit([BinaryTree.Call(0, CustomType(1)), BinaryTree.Call(0, CustomType(3)),
                                 BinaryTree.Call(1, CustomType(4)), BinaryTree.Call(0, CustomType(5)),
                                 BinaryTree.Call(1, CustomType(8))], 0)
  {
    assert BinaryTree.IterateByCopy(BinaryTree.Node(Leaf(1), CustomType(3), Leaf(4)), Count, 0)
           == [BinaryTree.Call(0, CustomType(1)), BinaryTree.Call(0, CustomType(3)),
               BinaryTree.Call(1, CustomType(4))];
  }

  /** In the example tree 3 has two children: removing it copies its
      predecessor 1 into its node and leaves 4 where it was. */
  lemma WorkedExampleRemove()
    ensures Remove(SetState(ExampleTree()), CustomType(3))
            == Returns(Reply(SetState(BinaryTree.Node(BinaryTree.Node(BinaryTree.Empty, CustomType(1), Leaf(4)), CustomType(5), Leaf(8))), true))
  {
    assert BinaryTree.Remove(Leaf(1), CustomType(1)) == BinaryTree.Removal(BinaryTree.Empty, true);
    assert BinaryTree.Remove(Leaf(4), CustomType(1)) == BinaryTree.Removal(Leaf(4), false);
    assert BinaryTree.Remove(BinaryTree.Node(Leaf(1), CustomType(3), Leaf(4)), CustomType(3))
           == BinaryTree.Removal(BinaryTree.Node(BinaryTree.Empty, CustomType(1), Leaf(4)), true);
  }

  /** After that removal the values read 1, 4, 5, 8, the size is 4, 8 is
      found and 3 is not. */
  lemma WorkedExampleAfterRemove()
    ensures var s := SetState(BinaryTree.Node(BinaryTree.Node(BinaryTree.Empty, CustomType(1), Leaf(4)), CustomType(5), Leaf(8)));
      && BinaryTree.InOrder(s.root) == [CustomType(1), CustomType(4), CustomType(5), CustomType(8)]
      && Size(s) == 4
      && Search(s, CustomType(8))
      && !Search(s, CustomType(3))
  {
  }

  /** Removing the only value of a set never returns. */
  lemma RemoveLastSpins(v: CustomType)
    ensures Insert(New(), v).value.result
    ensures Remove(Insert(New(), v).value.state, v).Diverges?
  {
  }
}
