/** Properties of the tree operations under the ordering invariant `BST`. */
module TreeProofs {
  import opened CustomTypes
  import opened BinaryTree

  /** Strictly ascending by the element type's `<`. */
  ghost predicate Ascending(s: seq<CustomType>) {
    forall i, j :: 0 <= i < j < |s| ==> Less(s[i], s[j])
  }

  /** A tree is empty exactly when it holds no value. */
  lemma EmptyIffNoContent(t: Tree)
    ensures t.Empty? <==> Content(t) == {}
  {
    if t.Node? {
      assert t.value in Content(t);
    }
  }

  /** Under the invariant no value occurs twice, so counting nodes counts
      distinct values. */
  lemma {:induction false} SizeIsCardinality(t: Tree)
    requires BST(t)
    ensures Size(t) == |Content(t)|
  {
    match t
    case Empty =>
    case Node(l, x, r) =>
      SizeIsCardinality(l);
      SizeIsCardinality(r);
      assert x !in Content(l);
      assert x !in Content(r);
      assert Content(l) !! Content(r) by {
        forall y | y in Content(l) ensures y !in Content(r) {
          assert Less(y, x);
        }
      }
      assert |Content(l) + {x}| == |Content(l)| + 1;
  }

  /** The in-order traversal of an ordered tree is strictly ascending. */
  lemma {:induction false} InOrderAscending(t: Tree)
    requires BST(t)
    ensures Ascending(InOrder(t))
  {
    match t
    case Empty =>
    case Node(l, x, r) =>
      InOrderAscending(l);
      InOrderAscending(r);
      var a, b := InOrder(l), InOrder(r);
      var s := a + [x] + b;
      forall i, j | 0 <= i < j < |s| ensures Less(s[i], s[j]) {
        if j < |a| {
          assert s[i] == a[i] && s[j] == a[j];
        } else if i < |a| {
          assert s[i] == a[i] && a[i] in Content(l);
          if j > |a| {
            assert s[j] == b[j - |a| - 1] && b[j - |a| - 1] in Content(r);
          }
        } else if i == |a| {
          assert s[j] == b[j - |a| - 1] && b[j - |a| - 1] in Content(r);
        } else {
          assert s[i] == b[i - |a| - 1] && s[j] == b[j - |a| - 1];
        }
      }
  }

  /** A chained run ends in the state reached by feeding its values to the
      visitor from `before`. */
  lemma {:induction false} ChainedEndsAfterAll<S>(calls: seq<Call<S>>, visit: (S, CustomType) -> S,
                                                  before: S, after: S)
    requires Chained(calls, visit, before, after)
    ensures after == Fold(Values(calls), visit, before)
    decreases |calls|
  {
    if calls != [] {
      ChainedEndsAfterAll(calls[1..], visit, visit(before, calls[0].value), after);
    }
  }

  /** In a chained run the `i`-th call sees the state reached by feeding the
      values of the calls before it to the visitor from `before`. */
  lemma {:induction false} ChainedCallState<S>(calls: seq<Call<S>>, visit: (S, CustomType) -> S,
                                               before: S, after: S, i: nat)
    requires Chained(calls, visit, before, after)
    requires i < |calls|
    ensures calls[i].state == Fold(Values(calls)[..i], visit, before)
    decreases i
  {
    if i > 0 {
      var rest := calls[1..];
      ChainedCallState(rest, visit, visit(before, calls[0].value), after, i - 1);
      assert rest[i - 1] == calls[i];
      var p := Values(calls)[..i];
      assert p[0] == calls[0].value;
      assert p[1..] == Values(rest)[..i - 1];
    }
  }

  /** `iterate` with the visitor passed by reference: every call sees the
      state the calls on the earlier in-order values left, and the visitor
      object ends after all of them. */
  lemma IterateVisitsInOrder<S>(t: Tree, visit: (S, CustomType) -> S, acc: S)
    ensures Iterate(t, visit, acc).after == Fold(InOrder(t), visit, acc)
    ensures forall i :: 0 <= i < |Iterate(t, visit, acc).calls| ==>
      Iterate(t, visit, acc).calls[i].state == Fold(InOrder(t)[..i], visit, acc)
  {
    var r := Iterate(t, visit, acc);
    ChainedEndsAfterAll(r.calls, visit, acc, r.after);
    forall i | 0 <= i < |r.calls|
      ensures r.calls[i].state == Fold(InOrder(t)[..i], visit, acc)
    {
      ChainedCallState(r.calls, visit, acc, r.after, i);
    }
  }

  /** With the visitor passed by value (`_multi`), a visitor that keeps no
      state is called exactly as with one passed by reference. */
  lemma {:induction false} ByCopyAgreesWhenStateless<S>(t: Tree, visit: (S, CustomType) -> S, acc: S)
    requires forall s, y :: visit(s, y) == s
    ensures IterateByCopy(t, visit, acc) == Iterate(t, visit, acc).calls
    ensures Iterate(t, visit, acc).after == acc
  {
    match t
    case Empty =>
    case Node(l, x, r) =>
      ByCopyAgreesWhenStateless(l, visit, acc);
      assert visit(acc, x) == acc;
      ByCopyAgreesWhenStateless(r, visit, acc);
  }

  /** Under the invariant `search` answers membership exactly. */
  lemma {:induction false} SearchCorrect(t: Tree, v: CustomType)
    requires BST(t)
    ensures Search(t, v) <==> v in Content(t)
  {
    match t
    case Empty =>
    case Node(l, x, r) =>
      if Less(v, x) {
        SearchCorrect(l, v);
      } else if GoesRight(v, x) {
        SearchCorrect(r, v);
      }
  }

  /** Insertion keeps the invariant and reports a new node exactly when the
      value was absent. */
  lemma {:induction false} AddCorrect(t: Tree, v: CustomType)
    requires BST(t)
    ensures BST(Add(t, v).tree)
    ensures Add(t, v).added <==> v !in Content(t)
  {
    match t
    case Empty =>
    case Node(l, x, r) =>
      if Less(v, x) {
        AddCorrect(l, v);
      } else if GoesRight(v, x) {
        AddCorrect(r, v);
      }
  }

  /** Inserting a value already present changes nothing and reports false. */
  lemma AddPresentIsNoOp(t: Tree, v: CustomType)
    requires BST(t) && v in Content(t)
    ensures Add(t, v) == Insertion(t, false)
  {
    AddCorrect(t, v);
  }

  /** Removing an absent value changes nothing and reports false. */
  lemma RemoveAbsentIsNoOp(t: Tree, v: CustomType)
    requires v !in Content(t)
    ensures Remove(t, v) == Removal(t, false)
    ensures Size(Remove(t, v).tree) == Size(t)
  {
  }

  /** In the two-children case the extra removal of the copied predecessor
      from the right subtree never finds it, so the right subtree is kept. */
  lemma ExtraRightRemovalIsNoOp(l: Tree, x: CustomType, r: Tree)
    requires BST(Node(l, x, r)) && l.Node?
    ensures Remove(r, Rightmost(l)) == Removal(r, false)
  {
    var m := Rightmost(l);
    assert Less(m, x);
  }

  /** Removal keeps the invariant, takes exactly `v` out of the contents and
      reports success exactly when `v` was present. */
  lemma {:induction false} RemoveCorrect(t: Tree, v: CustomType)
    requires BST(t)
    ensures BST(Remove(t, v).tree)
    ensures Content(Remove(t, v).tree) == Content(t) - {v}
    ensures Remove(t, v).removed <==> v in Content(t)
  {
    match t
    case Empty =>
    case Node(l, x, r) =>
      if Less(v, x) {
        RemoveCorrect(l, v);
      } else if GoesRight(v, x) {
        RemoveCorrect(r, v);
      } else {
        assert v == x;
        assert x !in Content(l) && x !in Content(r);
        if l.Node? && r.Node? {
          var m := Rightmost(l);
          RemoveCorrect(l, m);
          ExtraRightRemovalIsNoOp(l, x, r);
          var a := Remove(l, m).tree;
          assert forall y :: y in Content(r) ==> GoesRight(y, m) by {
            forall y | y in Content(r) ensures GoesRight(y, m) {
              assert Less(m, x);
            }
          }
          assert Content(a) + {m} == Content(l);
        }
      }
  }

  /** The three structural cases at the matching node of an ordered tree: a
      leaf disappears, a single child takes the node's place, and with two
      children the node takes its predecessor's value while the left subtree
      loses that predecessor and the right subtree is untouched. */
  lemma RemoveAtMatch(l: Tree, x: CustomType, r: Tree)
    requires BST(Node(l, x, r))
    ensures l.Empty? && r.Empty? ==> Remove(Node(l, x, r), x).tree == Empty
    ensures l.Empty? ==> Remove(Node(l, x, r), x).tree == r
    ensures r.Empty? ==> Remove(Node(l, x, r), x).tree == l
    ensures l.Node? && r.Node? ==>
      Remove(Node(l, x, r), x).tree == Node(Remove(l, Rightmost(l)).tree, Rightmost(l), r)
    ensures Remove(Node(l, x, r), x).removed
  {
    if l.Node? && r.Node? {
      ExtraRightRemovalIsNoOp(l, x, r);
    }
  }

  /** Size changes by exactly one on a successful removal and not at all
      otherwise. */
  lemma RemoveSize(t: Tree, v: CustomType)
    requires BST(t)
    ensures Remove(t, v).removed ==> Size(Remove(t, v).tree) == Size(t) - 1
    ensures !Remove(t, v).removed ==> Size(Remove(t, v).tree) == Size(t)
  {
    RemoveCorrect(t, v);
    SizeIsCardinality(t);
    SizeIsCardinality(Remove(t, v).tree);
  }

  /** The removal helper yields an empty tree exactly when the tree was empty
      or held `v` alone. */
  lemma RemoveYieldsEmptyIff(t: Tree, v: CustomType)
    requires BST(t)
    ensures Remove(t, v).tree.Empty? <==> Content(t) == {} || Content(t) == {v}
  {
    RemoveCorrect(t, v);
    EmptyIffNoContent(t);
    EmptyIffNoContent(Remove(t, v).tree);
    if Content(t) - {v} == {} && Content(t) != {} {
      assert Content(t) == {v};
    }
  }
}
