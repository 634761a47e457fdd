# gosortedmap in Dafny

A model of `gosortedmap`, a Go sorted map built on an AVL tree, with proofs
about the model. The model has three parts.

- **`Listing`** (`listing.dfy`) holds the shared vocabulary. Keys are integers,
  and the three-way comparison is the `a - b` comparator the tests install.
  An `Entry` is a key-value pair. A listing is a sequence of entries, and
  `MapOf` gives the map it describes. `StrictlySorted` says the keys of a
  listing strictly increase. `Below`, `Above` and `AtLeast` are the parts of a
  map that a split produces. The file also proves that a sorted listing is
  determined by its map (`SortedListingUnique`).
- **`AvlTree`** (`avl_tree.dfy`) is the tree engine of `sortedmap.go`.
  - A node is a datatype value. It carries the key, the value, the stored
    `height` field and two owned subtrees.
  - Every engine function returns a new subtree root, so the model's functions
    build new trees. `find` and `findMin` are cursor loops and are methods.
  - Each tree has an abstract meaning:
    - `Entries` is the in-order listing.
    - `Contents` is the map the tree holds.
    - `Bst` is search-tree order.
    - `HeightOk` says the stored heights are consistent.
    - `Balanced` says every balance factor lies in [-1, 1].
    - `Valid` is the conjunction of `Bst` and `Avl`.
  - `insert`, `remove`, `split`, `merge` and `removeMin` are proved to keep
    `Valid` and to have the stated effect on `Contents` or `Entries`.
  - The rotations and `balance` are proved to keep the in-order listing,
    search-tree order and consistent heights. A single rotation can break AVL
    balance on its own. `BalanceRestoresAvl` proves that `balance` gives an
    AVL tree when the children are AVL and differ in height by at most two.
  - The remaining properties of the tree functions:
    - The loop `find` is proved equal to a lookup in `Contents`.
    - The loop `findMin` is proved equal to the first entry of the listing.
- **`SortedMaps`** (`sorted_map.dfy`) is the `SortedMap` container. It is a
  class holding the tree root and an entry count, with `Get`, `Set`, `Delete`,
  `Len` and `AsSlice`.
  - Each method is specified against the abstract map `Model()`.
  - `Replay` mirrors the randomised test. It runs any sequence of calls
    against a plain reference map. It proves that every `Get` answer, every
    length and every listing is what the reference map gives. The randomised
    test makes no `Len` call; length calls are included so that the fixed
    tests' call sequences are covered too.
  - `Scenarios` (`scenarios.dfy`) replays four of the fixed unit tests:
    TestDeleteNotExistingElement, TestDeleteExistingElement, TestSetElement
    and TestUpdateElement.

Three places where the code and the tests disagree:

- `Set` in `sortedmap.go` takes no value and only looks the key up. It stores
  nothing. The tests call `Set(key, value)` and expect it to store. The model
  keeps the code as written as `SortedMap.SetAsWritten`. The operation the rest
  of the model uses is `SortedMap.Set`, which inserts (see Findings).
- The file has no `Len` method, but the tests call one. The model gives the
  container a `count` field that `Set` and `Delete` keep equal to the number of
  keys. Both look the key up first, as the source's `Set` already does, to
  know whether the count changes. `Len` returns the count.
- The `in` flag of `split` decides whether the pivot key goes into the upper
  half. `remove` always passes `false`. The model calls the flag `keep`.

## Model

| member | source | states |
|---|---|---|
| Listing.Compare | sortedmap_test.go:14-16 | the comparator's sign is negative, zero or positive exactly when the first key is below, equal to or above the second (the `Comparator` contract at sortedmap.go:29) |
| Listing.SortedListingUnique | sortedmap_test.go:115-128 | two strictly sorted listings of the same map are equal, so "the entries sorted by key" that the tests build is the only listing AsSlice can return |
| AvlTree.HeightIsDepth | sortedmap.go:104-109 | when stored heights are consistent, `height` of a subtree (0 for nil) is its real depth |
| AvlTree.BFactor | sortedmap.go:97-102 | nil has balance factor 0; for a node with consistent heights it is the right subtree's real depth minus the left subtree's |
| AvlTree.FixHeight | sortedmap.go:111-120 | nil is left alone; a node keeps key, value, children and listing, and its height becomes one more than the higher child's, so heights are consistent when the children's are |
| AvlTree.RotateLeft | sortedmap.go:122-128 | the rotated subtree has the same in-order listing, consistent heights when the inputs had them, and keeps search-tree order |
| AvlTree.RotateRight | sortedmap.go:130-136 | the mirror of RotateLeft: same listing, consistent heights, search-tree order kept |
| AvlTree.Balance | sortedmap.go:138-153 | balancing keeps the listing, the map and the key set, keeps search-tree order and leaves consistent heights |
| AvlTree.BalanceRestoresAvl | sortedmap.go:138-153 | for a node whose AVL children differ in height by at most two, the result is AVL and its height is the higher child's plus zero or one; when the children differ by at most one, balance only fixes the height |
| AvlTree.Insert | sortedmap.go:155-167 | on a valid AVL search tree, the result is valid and holds the old map with `k` bound to `v` (added or overwritten), and the height grows by at most one |
| AvlTree.SearchStep | sortedmap.go:255-260 | at a node of a search tree, a smaller key is looked up exactly as in the left subtree, a larger one as in the right, and the node's own key yields its value |
| AvlTree.Find | sortedmap.go:250-263 | the descent returns the value stored under `k`, or `None` (nil, false) exactly when `k` is absent |
| AvlTree.Leftmost | sortedmap.go:178-183 | following left links ends at a node without left child that holds the first entry of the listing, and its key is the least key of a search tree |
| AvlTree.FindMin | sortedmap.go:178-183 | the loop stops at that same leftmost node, which holds the first entry of the listing |
| AvlTree.RemoveMin | sortedmap.go:185-191 | on a valid non-empty tree, the result is valid, lists the old entries without the first, holds the old map without the least key, and is at most one lower |
| AvlTree.Merge | sortedmap.go:193-212 | for valid trees with every key of the first below every key of the second, the result is valid, lists the first tree's entries then the second's, holds both maps, and its height is the higher input's or one more |
| AvlTree.Glue | sortedmap.go:208-211 | when the left tree is as high as the right tree or one lower, rooting the least entry of the right tree over the left tree and the rest of the right tree gives a valid tree listing both in order |
| AvlTree.InOrderSlice | sortedmap.go:214-222 | the result is the given slice followed by the tree's in-order listing |
| AvlTree.BstIffSorted | sortedmap.go:214-222 | the in-order listing has strictly increasing keys exactly when the tree is in search-tree order |
| AvlTree.ContentsAreEntries | sortedmap.go:214-222 | the map described by the in-order listing is the map the tree holds |
| AvlTree.Split | sortedmap.go:232-248 | on a valid tree both halves are valid; the first holds exactly the entries with keys below `k`; the second holds the entries with keys above `k`, plus the entry for `k` itself exactly when `in` is set |
| AvlTree.Remove | sortedmap.go:169-176 | on a valid tree, the result is valid and holds the old map without `k` |
| AvlTree.RemoveAbsentKeepsEntries | sortedmap.go:169-176 | removing an absent key leaves the in-order listing unchanged |
| SortedMaps.SortedMap.constructor | sortedmap.go:57-61 | a new map is valid and empty |
| SortedMaps.SortedMap.Get | sortedmap.go:64-66 | returns the stored value, or `None` exactly when the key is absent |
| SortedMaps.SortedMap.Set | sortedmap.go:69-71 | afterwards the map is the old map with the key bound to the new value, and the container stays valid (count included) |
| SortedMaps.SortedMap.SetAsWritten | sortedmap.go:69-71 | the source's Set leaves tree and count as they were |
| SortedMaps.SortedMap.Delete | sortedmap.go:74-76 | afterwards the map is the old map without the key; deleting an absent key leaves the listing unchanged |
| SortedMaps.SortedMap.Len | sortedmap_test.go:23-25 | returns the number of keys in the map, which is also the number of nodes in the tree |
| SortedMaps.SortedMap.AsSlice | sortedmap.go:86-88 | returns a strictly increasing listing describing exactly the map |
| SortedMaps.Step | sortedmap_test.go:170-201 | one get, set, delete, length or list call changes the map as the reference map changes, and its answer is the reference map's answer |
| SortedMaps.Replay | sortedmap_test.go:161-205 | for any sequence of get, set, delete, length and list calls, every answer agrees with the reference map at that point, and the final listing is sorted and describes the reference map |
| Scenarios.DeleteMissing | sortedmap_test.go:19-26 | an empty map has length 0 before and after deleting a missing key |
| Scenarios.DeleteExisting | sortedmap_test.go:28-38 | after setting and deleting key 22, the length is 0 and Get finds nothing |
| Scenarios.SetThenGet | sortedmap_test.go:40-50 | after one Set the length is 1 and Get returns the value |
| Scenarios.SetThenGetAsWritten | sortedmap.go:69-71 | with the source's Set, the length stays 0 and Get finds nothing |
| Scenarios.UpdateValue | sortedmap_test.go:52-62 | setting a key twice leaves the later value |

## Left out

- AsChan and inOrderChan (sortedmap.go:79-83, 224-230) are left out. They send the same in-order entries as inOrderSlice through a channel from a goroutine, and concurrency is not modelled.
- The `Comparator` argument of NewSortedMap, the `Comparable` interface, makeKeyComparable and comparableWrapper are not modelled. Keys are integers ordered by the tests' comparator.
  - In the source, a wrapper compares its own raw value against the other key's wrapper, not that wrapper's raw value.
  - Split tests the pivot with `!=` on wrapper values. Those values hold a function, and comparing them fails at run time.
  - Neither path is reached, because the source's Set never inserts. With integer keys, `!=` in the model is plain inequality.
- Values are `interface{}` in the source and a type parameter `V` in the model.
- Listing.Compare: `a - b` is computed on unbounded integers. Go's 64-bit subtraction wraps for keys more than 2^63 apart, which would misorder them.
- The logarithmic cost of the operations is not proved. HeightIsDepth ties the stored heights to the real depth, but no bound of depth by size is stated.
- Nodes are updated in place in the source and rebuilt as values in the model. Every node has exactly one parent, so no sharing is lost.
- The random choice of calls in the randomised test (sortedmap_test.go:161-205) becomes an arbitrary call sequence passed to Replay.
- TestGetElement (sortedmap_test.go:64-78) and TestCreateBunchAndDeleteHalf (sortedmap_test.go:80-102) are not replayed as fixed sixteen-key scenarios, because they are too costly to prove call by call. Replay covers their call sequences, with every Get answer and every length following the reference map.
- The listing test over the nine fixed keys (sortedmap_test.go:104-129) is not replayed as literal values. AsSlice and SortedListingUnique give its expected listing for any keys.
- TestComparableInterface (string keys through `Comparable`) is not modelled, since keys are integers.

## Findings

| source | as written | input that shows it | evidently intended | confidence | as-written member | corrected member |
|---|---|---|---|---|---|---|
| sortedmap.go:69-71 | `Set` takes only the key, calls `find` and discards the result, so nothing is ever stored | on a new map, `Set(1)` then `Get(1)` returns (nil, false) and the map stays empty. The tests call a two-argument `Set(key, value)` and a `Len()`, neither of which the source defines, and expect the value back and length 1 | store `v` under the key, replacing an earlier value | not executed | Scenarios.SetThenGetAsWritten | SortedMaps.SortedMap.Set |
