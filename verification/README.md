# ThreadSafeSet — a Dafny model of its sequential behaviour

`mbu::ThreadSafeSet<T>` is an ordered set backed by an unbalanced binary
search tree. Its child links are atomic shared pointers. Writers walk down
to the affected node and store each recursive result back into the parent's
child slot with a compare-and-swap. The nodes on that path are updated in
place, not copied. The repository holds two near-identical copies of the
class. The `_multi` copy serialises `insert` and `remove` behind a spin flag.
The `_single` copy takes that flag only in `clear`. The element type used is
`CustomType`, a wrapper around one `int` whose `==` and `<` compare the
wrapped integers.

This project models what one thread observes when it runs the operations one
after another. Each compare-and-swap becomes a single assignment of the
recursive result, and each helper returns its updated subtree as a value.

Once the atomics and locks are gone, the two copies differ only in `iterate`.
Both public `iterate`s take a `const std::function<…>&` named `func`.
- The `_single` copy passes `func` by reference all the way down. The one
  `std::function` object bound to `func` sees every value in turn.
- The `_multi` copy's private `iterate` takes the visitor by value, as a
  `std::function` copy at each level of the recursion. State held inside
  the callable therefore lives in per-level copies, and the object bound to
  `func` is never changed.

A visitor is modelled as a function from its state and a value to its new
state, and a walk records the state each call saw. The state is the state
held inside the `std::function` object. "The caller's visitor" below means
the object bound to `func`. When the caller passes a lambda, that object is
a temporary holding a copy of the lambda, not the lambda itself (see "Left
out").
- `BinaryTree.Iterate` models the `_single` walk and `BinaryTree.IterateByCopy`
  the `_multi` one.
- `ThreadSafeSets.CountingVisitorByReference` and
  `ThreadSafeSets.CountingVisitorByCopy` show the difference with a visitor
  that counts its calls.
- For every other operation one definition serves both copies. The rows
  below cite whichever copy states a property most directly.

- `custom_type.dfy`, module `CustomTypes`: the element type and its `==`/`<`.
  They form a strict total order, which is the precondition the set needs
  from `T`.
- `tree.dfy`, module `BinaryTree`: the tree (`Tree`), its contents
  (`Content`), the ordering invariant (`BST`), and the private recursive
  helpers `Add`, `Remove`, `Search`, `Size`, `Iterate` (by reference),
  `IterateByCopy` (by value), `FindMax` and `FindMin`.
- `tree_proofs.dfy`, module `TreeProofs`: the helpers' properties under the
  invariant.
- `thread_safe_set.dfy`, module `ThreadSafeSets`: the public operations over
  a root slot. Every state the operations reach from a new set satisfies the
  invariant.

Two quirks of the code are reproduced as written, not repaired:

- In the two-children case of removal, the node takes the largest value `m`
  of its left subtree, and `m` is removed from the left subtree. The code
  then also removes `m` from the right subtree.
  `TreeProofs.ExtraRightRemovalIsNoOp` proves that this second removal never
  finds `m` and leaves the right subtree as it was.
- The public `remove` loop leaves only when the recursive result is non-null.
  When that result is empty, the next round runs on the null snapshot the
  round left behind, gets null again, and spins forever. In the `_multi` copy
  it does so while holding the writer lock. `ThreadSafeSets.RemoveCorrect`
  proves that this happens exactly when the set is empty or holds only the
  removed value. `ThreadSafeSets.Remove` models it as the `Diverges`
  outcome. A "returns true iff found" reading of `remove` therefore holds
  only when the call returns.

Move assignment is modelled over a map of objects keyed by identity. This
makes visible that `a = std::move(a)` leaves `a` empty: the source's root is
reset after it has been stored into the target.

## Model

| member | source | states |
|---|---|---|
| CustomTypes.Equal | Hw1/src/1901042697_multi/src/custom_type.cpp:8-10 | `a == b` holds exactly when the two values are identical, i.e. their wrapped integers agree |
| CustomTypes.Less | Hw1/src/1901042697_multi/src/custom_type.cpp:13-15 | `a < b` never holds between two values that compare equal |
| CustomTypes.LessIsStrictOrder | Hw1/src/1901042697_multi/src/custom_type.cpp:13-15 | `<` is irreflexive and transitive |
| CustomTypes.Trichotomy | Hw1/src/1901042697_multi/src/custom_type.cpp:8-15 | exactly one of `a < b`, `a == b`, `b < a` holds; the "neither `<` nor `==`" routing test is exactly `b < a` |
| BinaryTree.Size | Hw1/src/1901042697_multi/include/thread_safe_set.hpp:264-269 | the node count is zero exactly for the empty tree |
| BinaryTree.InOrder | Hw1/src/1901042697_multi/include/thread_safe_set.hpp:272-278 | the visiting order has one entry per node and holds exactly the tree's values |
| BinaryTree.Search | Hw1/src/1901042697_multi/include/thread_safe_set.hpp:247-262 | a true answer means the value is in the tree, whatever its shape |
| BinaryTree.Rightmost | Hw1/src/1901042697_single/include/thread_safe_set.hpp:209-214 | the value at the end of the right spine is in the tree and, under the invariant, greater than every other value |
| BinaryTree.Leftmost | Hw1/src/1901042697_multi/include/thread_safe_set.hpp:231-236 | the value at the end of the left spine is in the tree and, under the invariant, smaller than every other value |
| BinaryTree.FindMax | Hw1/src/1901042697_multi/include/thread_safe_set.hpp:239-244 | the loop over right children, given a non-null node, returns the rightmost value: a member of the subtree and, under the invariant, its maximum |
| BinaryTree.FindMin | Hw1/src/1901042697_single/include/thread_safe_set.hpp:201-206 | the loop over left children, given a non-null node, returns the leftmost value: a member of the subtree and, under the invariant, its minimum |
| BinaryTree.Add | Hw1/src/1901042697_multi/include/thread_safe_set.hpp:143-175 | the result is never null and holds the old values plus `v`; `added` means exactly one node was added; without `added` the tree is returned unchanged and already held `v` |
| BinaryTree.Iterate | Hw1/src/1901042697_single/include/thread_safe_set.hpp:243-249 | the calls receive the in-order values, once each, first to last; one visitor is threaded through them: the first call sees the caller's state, each later call sees the state the previous call left, and the visitor object ends in the state the last call left |
| BinaryTree.IterateByCopy | Hw1/src/1901042697_multi/include/thread_safe_set.hpp:272-278 | with the visitor copied at each level, the calls still receive the in-order values, once each, first to last |
| BinaryTree.Remove | Hw1/src/1901042697_single/include/thread_safe_set.hpp:151-198 | without `removed` the tree is returned unchanged; `removed` implies `v` was in the tree; the result never holds a value the tree did not |
| TreeProofs.SizeIsCardinality | Hw1/src/1901042697_single/include/thread_safe_set.hpp:235-240 | under the invariant the node count equals the number of distinct values |
| TreeProofs.InOrderAscending | Hw1/src/1901042697_single/include/thread_safe_set.hpp:243-249 | under the invariant the in-order traversal is strictly ascending |
| TreeProofs.IterateVisitsInOrder | Hw1/src/1901042697_single/include/thread_safe_set.hpp:243-249 | with the visitor passed by reference, the call on the `i`-th in-order value sees the state reached by feeding the `i` smaller values to the visitor, and the caller's visitor ends in the state reached by feeding it all of them |
| TreeProofs.ByCopyAgreesWhenStateless | Hw1/src/1901042697_multi/include/thread_safe_set.hpp:272-278 | for a visitor that keeps no state, the by-value walk makes exactly the calls of the by-reference walk, and the caller's visitor ends unchanged |
| TreeProofs.SearchCorrect | Hw1/src/1901042697_single/include/thread_safe_set.hpp:217-232 | under the invariant `search` is true exactly when the value is in the tree |
| TreeProofs.AddCorrect | Hw1/src/1901042697_single/include/thread_safe_set.hpp:127-149 | under the invariant insertion keeps the invariant (never a duplicate) and sets `added` exactly when the value was absent |
| TreeProofs.AddPresentIsNoOp | Hw1/src/1901042697_multi/include/thread_safe_set.hpp:159-174 | inserting a value already present leaves the tree unchanged and reports false |
| TreeProofs.RemoveAbsentIsNoOp | Hw1/src/1901042697_single/include/thread_safe_set.hpp:156-167 | removing an absent value leaves the tree and its size unchanged and reports false |
| TreeProofs.ExtraRightRemovalIsNoOp | Hw1/src/1901042697_multi/include/thread_safe_set.hpp:215-224 | under the invariant the extra removal of the copied predecessor from the right subtree returns that subtree unchanged and does not report a removal |
| TreeProofs.RemoveCorrect | Hw1/src/1901042697_multi/include/thread_safe_set.hpp:178-228 | under the invariant removal keeps the invariant, leaves exactly the old values minus `v`, and sets `removed` exactly when `v` was present |
| TreeProofs.RemoveAtMatch | Hw1/src/1901042697_single/include/thread_safe_set.hpp:169-194 | at the matching node a leaf becomes empty, a lone child replaces the node, and with two children the node takes the left maximum, which leaves the left subtree, while the right subtree is kept |
| TreeProofs.RemoveSize | Hw1/src/1901042697_multi/include/thread_safe_set.hpp:197-224 | under the invariant a successful removal shrinks the node count by one and an unsuccessful one keeps it |
| TreeProofs.RemoveYieldsEmptyIff | Hw1/src/1901042697_single/include/thread_safe_set.hpp:156-175 | under the invariant the removal helper yields an empty tree exactly when the tree was empty or held only `v` |
| ThreadSafeSets.New | Hw1/src/1901042697_multi/include/thread_safe_set.hpp:24-27 | a new set is empty and satisfies the invariant |
| ThreadSafeSets.Insert | Hw1/src/1901042697_multi/include/thread_safe_set.hpp:47-68 | `insert` returns whenever its node allocation succeeds; afterwards the set holds the old values plus `v`; true means the size grew by one, false means nothing changed |
| ThreadSafeSets.Remove | Hw1/src/1901042697_multi/include/thread_safe_set.hpp:70-91 | when `remove` returns, the root is non-null and holds no new value; true implies `v` was present; false means nothing changed |
| ThreadSafeSets.Search | Hw1/src/1901042697_multi/include/thread_safe_set.hpp:93-100 | a true answer means the value is in the set |
| ThreadSafeSets.Size | Hw1/src/1901042697_multi/include/thread_safe_set.hpp:102-107 | `size` equals the number of values `iterate` visits |
| ThreadSafeSets.IsEmpty | Hw1/src/1901042697_multi/include/thread_safe_set.hpp:109-114 | `empty` is true exactly when the set holds no value |
| ThreadSafeSets.Clear | Hw1/src/1901042697_multi/include/thread_safe_set.hpp:116-120 | after `clear`, `empty` is true, `size` is 0, no value is found, and the invariant holds |
| ThreadSafeSets.Iterate | Hw1/src/1901042697_single/include/thread_safe_set.hpp:119-123 | the `_single` public `iterate`: the visitor receives the set's values in order, once each; each call sees the state the calls on the smaller values left, and the `std::function` bound to `func` ends after all of them |
| ThreadSafeSets.IterateByCopy | Hw1/src/1901042697_multi/include/thread_safe_set.hpp:122-126 | the `_multi` public `iterate`: the visitor receives the set's values in order, once each, and the `std::function` bound to `func` is left as it was |
| ThreadSafeSets.MoveConstruct | Hw1/src/1901042697_single/include/thread_safe_set.hpp:31-34 | the new object holds the source's tree, the source becomes empty, and every other object is unchanged |
| ThreadSafeSets.MoveAssign | Hw1/src/1901042697_single/include/thread_safe_set.hpp:36-40 | the target holds the source's former tree (unless they are the same object), the source is empty, and every other object is unchanged |
| ThreadSafeSets.InsertCorrect | Hw1/src/1901042697_single/include/thread_safe_set.hpp:46-67 | on a valid set `insert` keeps the invariant, answers true exactly when `v` was absent, and `v` is found afterwards |
| ThreadSafeSets.RemoveCorrect | Hw1/src/1901042697_single/include/thread_safe_set.hpp:69-89 | on a valid set `remove` never returns exactly when the set is empty or holds only `v`; otherwise it keeps the invariant, removes exactly `v`, answers true exactly when `v` was present, and lowers the size by that one value |
| ThreadSafeSets.ObserversCorrect | Hw1/src/1901042697_single/include/thread_safe_set.hpp:91-123 | on a valid set `search` answers membership exactly, `size` counts the values, and the iteration order is strictly ascending |
| ThreadSafeSets.RunKeepsInvariant | Hw1/src/1901042697_multi/include/thread_safe_set.hpp:47-120 | every state a sequence of `insert`, `remove` and `clear` calls reaches from a valid set is valid |
| ThreadSafeSets.WorkedExampleInserts | Hw1/src/1901042697_multi/include/thread_safe_set.hpp:155-170 | inserting 5, 3, 8, 1, 4 one after another each adds a fresh node where the comparisons lead, building 5 at the root, 3 and 8 below it, and 1 and 4 below 3 |
| ThreadSafeSets.WorkedExampleRunTail | Hw1/src/1901042697_multi/include/thread_safe_set.hpp:47-68 | from the set holding 5 and 3, the public `insert` calls for 8, 1 and 4 all return and leave the example tree at the root |
| ThreadSafeSets.WorkedExampleRun | Hw1/src/1901042697_multi/include/thread_safe_set.hpp:47-68 | the five public `insert` calls on a new set all return and leave that tree at the root |
| ThreadSafeSets.WorkedExampleOrder | Hw1/src/1901042697_multi/include/thread_safe_set.hpp:272-278 | `iterate` over that tree visits 1, 3, 4, 5, 8 |
| ThreadSafeSets.CountingVisitorByReference | Hw1/src/1901042697_single/include/thread_safe_set.hpp:243-249 | over the example set, a visitor that counts its calls sees the counts 0, 1, 2, 3, 4, and the counter in the `std::function` bound to `func` ends at 5 |
| ThreadSafeSets.CountingVisitorByCopy | Hw1/src/1901042697_multi/include/thread_safe_set.hpp:272-278 | the same visitor passed by value sees 0, 0, 1, 0, 1, and the counter in the `std::function` bound to `func` stays at 0 |
| ThreadSafeSets.WorkedExampleRemove | Hw1/src/1901042697_multi/include/thread_safe_set.hpp:215-224 | removing 3, which has two children, returns true and copies its predecessor 1 into its node, with 4 kept as the right child |
| ThreadSafeSets.WorkedExampleAfterRemove | Hw1/src/1901042697_multi/include/thread_safe_set.hpp:247-269 | after that removal the values read 1, 4, 5, 8, the size is 4, 8 is found and 3 is not |
| ThreadSafeSets.RemoveLastSpins | Hw1/src/1901042697_single/include/thread_safe_set.hpp:74-86 | inserting one value into a new set succeeds, and removing that value never returns |

## Left out

- Concurrency: atomic loads and stores of `std::atomic<std::shared_ptr<Node>>`, reference-counted reclamation, and what concurrent readers may observe. The model is sequential.
- The `COMPARE_EXCHANGE_WEAK` retry loops: each is one assignment of the recursive result. The macro re-evaluates its `desired` argument, so a spurious failure would re-run the recursive call. This is not modelled.
- The writer spin lock (`ATOMIC_FLAG_LOCK`/`ATOMIC_FLAG_UNLOCK` and its yield after 58 attempts), including the lock `clear` takes. With one thread and no exception it is always free on entry and always released on return. The exceptions are the never-returning `remove` case described above and the throwing `insert` case below.
- The per-node `marked` flag and its `wait_lock`/`unlock`, which nothing calls.
- In-place node updates. The helpers store their results into the live child slots (thread_safe_set.hpp:162, 168 and 218 in the `_multi` copy), and the two-children removal overwrites the live node's value. The model returns new subtrees instead. The difference can be seen by concurrent readers, and also by a visitor that calls back into the set.
- Re-entrant visitors: a visitor that calls `insert`, `remove` or `clear` on the same set during `iterate`. `iterate` reads a node's right child only after the visitor returns, so such a visitor can see its own in-place edits. The model's visitor is a pure state transformer with no access to the set.
- Exceptions. Allocation failure is not modelled: `std::make_shared<Node>` in the insertion helper (thread_safe_set.hpp:157 in `_multi`, :134 in `_single`) may throw `std::bad_alloc`. Visitors that throw are not modelled either; a throwing visitor ends `iterate` early. In `_multi` a throwing `insert` leaves `root` as it was but skips `ATOMIC_FLAG_UNLOCK(flag)` (thread_safe_set.hpp:65), because the lock is a macro, not a scoped guard. The writer flag then stays held, and every later `insert`, `remove` and `clear`, and the destructor, spins forever.
- ThreadSafeSets.Iterate: `after` is the state held inside the `std::function` object bound to `func`, not the state of the caller's own callable. A lambda argument, as in both `main.cpp` files, is converted into a temporary `std::function` holding a copy. So a `mutable` lambda's own captures are left unchanged even in `_single`.
- ThreadSafeSets.IterateByCopy: the per-level copies cover only state held inside the callable. State a visitor reaches through a reference capture, such as a captured counter or the output stream, is shared by all copies, and for it the by-reference order of `ThreadSafeSets.Iterate` holds in `_multi` too. That shared state is not modelled.
- The template parameter `T`: the model fixes `T` to `CustomType`, the type the set is instantiated with. The compile-time checks that `T` has `<` and `==` (requirements.hpp) are replaced by the proved strict total order of `CustomTypes`.
- `CustomType`'s stream output operator, the destructor (it only calls `clear`), and the deleted copy constructor and copy assignment.
- ThreadSafeSets.Size: returns an unbounded `nat`. The C++ `int` count would overflow beyond 2^31 - 1 nodes, and that is not modelled.
- atomic_shared.hpp is not part of this model: it is an unused atomic wrapper whose only point is concurrency.
- The demonstration programs (`main.cpp` in both copies) and `random_generator.hpp`: thread harness, timing, randomness and console output.
