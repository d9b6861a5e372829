# c_hashtable in Dafny

A model of the C library `c_hashtable`. The library is a fixed-size hash table with integer keys and separate chaining. Each bucket is an intrusive doubly-linked list of caller-allocated nodes.

Two modules, one per core file:

- `HashNode` (`hash_node.dfy`) covers `hash_node.c`.
  - `Node` is a class with `key`, `prev` and `next`, so the link primitives `hn_insert_after`, `hn_insert_before` and `hn_remove` update fields in place, as in C.
  - A ghost sequence of nodes describes a chain. `Linked(c)` ties the `prev`/`next` fields to that sequence.
  - The splice lemmas describe each primitive's effect on a whole chain. They work from links recorded before the update (`Prevs`/`Nexts`).
  - `InsertAfterInChain`, `InsertBeforeInChain` and `RemoveFromChain` state that effect about the primitives themselves, at any position of a well-formed chain.
- `HashTable` (`hash_table.dfy`) covers `hash_table.c`.
  - `Table` is a class over the C struct's state: an `array<Node?>` of bucket heads, `numBuckets` and `numItems`.
  - Ghost state mirrors each bucket's chain (`chains`) and its keys (`keys`), plus the footprint `Repr`.
  - `Valid()` is the table invariant:
    - every chain is well linked and starts at its bucket slot;
    - every key lies in the bucket it hashes to;
    - no key appears twice;
    - `numItems` is the number of stored nodes;
    - every node belongs to the footprint.
  - `Lookup(k)` is the abstract key-to-node map, defined by the pure `Find` over the ghost picture.
  - The operations with cursor loops (`ht_get_node`, `ht_remove`, `ht_clear`, the tail search of `ht_add`) are methods with loop invariants.
  - Each operation is proved against `Lookup`, the ghost chains and the count.
  - `calc_hash_code` is the pure function `Hash`. It uses C's truncating `%`, modelled by `CRem`.

The operations are split into smaller methods to keep proofs small:
- `ht_remove` becomes `Remove`: the search, then `Unlink`. `Unlink` is the pointer surgery in `UnlinkNode` (which runs `UnlinkAt` and keeps the other buckets intact), followed by the bookkeeping in `Forget`.
- `ht_add` becomes `Add`: the guard and link reset, then `Put`. `Put` goes to `Replace` when the key is present, otherwise to `Append`.
- `Append` is `AppendNode`, which uses `Tail` and `LinkAfter`, followed by `Remember`.
- `ht_clear` becomes `Clear`: `ClearBucket` per bucket, then `Reset`.

## Model

| member | source | states |
|---|---|---|
| HashNode.Node.constructor | hash_node.c:6-15 | a new node is zero-filled: key 0, no links, so it is both a head and a tail |
| HashNode.Node.IsHead | hash_node.c:30-33 | true exactly when the node's `prev` is null; reads only the node |
| HashNode.Node.IsTail | hash_node.c:35-38 | true exactly when the node's `next` is null; reads only the node |
| HashNode.HeadTailOfChain | hash_node.c:30-38 | in a well-linked chain, hn_is_head holds exactly at the first node and hn_is_tail exactly at the last |
| HashNode.LinkedInjective | hash_node.h:18-19 | two different positions of a well-linked chain hold different nodes (no repeats, no cycles); proved by induction along `prev` links |
| HashNode.LinkedDistinct | hash_node.h:18-19 | all nodes of a well-linked chain are pairwise different |
| HashNode.InsertAfter | hash_node.c:40-52 | with both arguments non-null, the new node sits between `node` and its old successor, and that successor points back at it; with either argument null nothing changes |
| HashNode.InsertBefore | hash_node.c:54-66 | mirror image: the new node sits between `node`'s old predecessor and `node`; with a null argument nothing changes |
| HashNode.Remove | hash_node.c:68-78 | the neighbours of the node point at each other, the node's own links are cleared, and keys are unchanged |
| HashNode.InsertAfterSplices | hash_node.c:40-52 | after hn_insert_after on position i of a well-linked chain, the chain with the new node at position i+1 is well linked |
| HashNode.InsertBeforeSplices | hash_node.c:54-66 | after hn_insert_before on position i, the chain with the new node at position i is well linked |
| HashNode.UnlinkSplices | hash_node.c:68-78 | after a node's neighbours are joined, the chain without that node is well linked |
| HashNode.InsertAfterInChain | hash_node.c:40-52 | hn_insert_after on any position i of a well-linked chain, with a node from outside it, gives the chain with the node at position i+1, well linked; no key changes |
| HashNode.LinkAfterAt | hash_node.c:42-51 | the link updates of hn_insert_after at position i, against the chain's recorded links: only c[i], its successor and the new node change, as the splice lemma requires |
| HashNode.InsertBeforeInChain | hash_node.c:54-66 | hn_insert_before on any position i of a well-linked chain, with a node from outside it, gives the chain with the node at position i, well linked; no key changes |
| HashNode.LinkBeforeAt | hash_node.c:56-65 | the link updates of hn_insert_before at position i: only c[i], its predecessor and the new node change |
| HashNode.RemoveFromChain | hash_node.c:68-78 | hn_remove on any position k of a well-linked chain gives the chain without that node, well linked, and leaves the node unlinked; no key changes |
| HashNode.InsertAfterThenRemove | hash_node.c:40-78 | hn_insert_after followed by hn_remove of the inserted node restores every link and key of the chain and leaves the node unlinked |
| HashTable.CRem | hash_table.c:13 | C's `%`: quotient-remainder identity with truncating division; the remainder has the sign of the dividend |
| HashTable.Hash | hash_table.c:6-15 | the bucket is 0 for a non-positive bucket count, otherwise in [0, numBuckets) |
| HashTable.HashIsResidue | hash_table.c:12-14 | for a positive bucket count, shifting a negative C remainder up by numBuckets gives exactly the mathematical residue `key % numBuckets` |
| HashTable.HashExamples | test_hash_table.c:271-277 | the bucket indices the tests expect, negative keys and non-positive bucket counts included |
| HashTable.IndexOf | hash_table.c:76-80 | the first position holding the key, or the length when there is none |
| HashTable.KeysUnique | hash_table.c:133-135 | in a well-keyed table a key occurs in one place only (replace, not append) |
| HashTable.FindSpec | hash_table.c:67-83 | the map finds a key exactly when it is stored somewhere, and then finds the node stored under it |
| HashTable.FindDelete | hash_table.c:91-120 | deleting the entry of key k removes k from the map and leaves every other key's node unchanged |
| HashTable.FindAppend | hash_table.c:137-151 | appending a node under a new key maps that key to the node and leaves every other key unchanged |
| HashTable.CoherentDelete | hash_table.c:117-118 | after the delete the table is still well formed, holds one entry fewer, and no longer owns the removed node |
| HashTable.CoherentAppend | hash_table.c:151 | after the append the table is still well formed, holds one entry more, and owns the new node |
| HashTable.Table.Lookup | hash_table.c:67-83 | the node found for k holds key k and belongs to the table; a table without buckets finds nothing |
| HashTable.Table.LookupSpec | hash_table.c:67-83 | Lookup(k) is non-null exactly when k is stored, and is then the node stored under k |
| HashTable.Table.CountIsSize | hash_table.h:15 | num_items is the total length of the bucket chains |
| HashTable.Table.NodesUnique | hash_table.c:133-135 | no node sits in two places of the table |
| HashTable.Table.constructor | hash_table.c:17-33 | the new table has `size` empty bucket slots, no items, and an empty map |
| HashTable.Create | hash_table.c:17-33 | a negative size gives no table; otherwise a fresh, valid, empty table with that many buckets |
| HashTable.Table.Clear | hash_table.c:35-53 | every slot is null, the count is 0, the map is empty, and the nodes released are exactly all the table's nodes, bucket by bucket in chain order |
| HashTable.Table.ClearBucket | hash_table.c:42-49 | walking a bucket releases its chain's nodes in order and leaves the slot null; other slots are untouched |
| HashTable.Table.Reset | hash_table.c:52 | once all slots are null, the table is valid with no items and an empty map |
| HashTable.Table.GetNode | hash_table.c:67-83 | returns the node stored under the key (the first match on its bucket's chain), or null; null for a table without buckets |
| HashTable.Table.Contains | hash_table.c:85-89 | true exactly when the table has buckets and the key is stored |
| HashTable.Table.Remove | hash_table.c:91-120 | true exactly when the key was stored; the key is then gone, other keys keep their nodes, the count drops by one, the entry is deleted from its bucket's chain, and the node leaves the table; on false nothing changes |
| HashTable.Table.Unlink | hash_table.c:106-118 | the entry at position j of bucket idx is removed from the chain, its key list and the footprint, and the count drops by one |
| HashTable.Table.UnlinkNode | hash_table.c:106-115 | the bucket becomes the chain without the node: its slot takes the successor when the node was the head; the other buckets stay well formed |
| HashTable.Table.UnlinkAt | hash_table.c:106-115 | the pointer surgery on bucket idx: its chain loses the node and its slot takes the successor when the node was the head; the other slots keep their heads |
| HashTable.Table.Forget | hash_table.c:117-118 | the relinked bucket's ghost picture drops the node, the footprint drops it, the count drops by one, and the table is valid again |
| HashTable.Table.Add | hash_table.c:122-153 | returns true exactly when the table has buckets and a node is given; nothing changes otherwise; on success the node holds the key, is the tail of its bucket and is what the key maps to; other keys are unchanged; a previous node under the key is replaced (removed from its chain and from the table) rather than duplicated; the count grows only when the key was new |
| HashTable.Table.AddThenRemove | hash_table.c:91-153 | adding a new key and then removing it restores the chains, the count, the footprint and the whole map |
| HashTable.Table.RemoveAdded | hash_table.c:91-120 | removing the key just appended as the last entry of its bucket gives back the chains, keys, footprint and count from before the append |
| HashTable.Table.Put | hash_table.c:133-151 | the effect of ht_add after its guard: replace-or-append as in Add |
| HashTable.Table.Replace | hash_table.c:133-151 | with the key present, the old node is deleted from its chain, the new node appended, the count kept, and the old node leaves the table |
| HashTable.Table.Append | hash_table.c:137-151 | with the key absent, the node is appended to its bucket's chain, the key maps to it, other keys are unchanged, and the count grows by one |
| HashTable.Table.Remember | hash_table.c:151 | after the link, the ghost picture and footprint gain the node and the count grows by one; the table is valid again |
| HashTable.Table.AppendNode | hash_table.c:137-149 | the bucket becomes its old chain followed by the node (the node becomes the head of an empty bucket); the other buckets stay well formed |
| HashTable.Table.LinkAfter | hash_table.c:145 | hn_insert_after on the tail of a chain gives that chain followed by the node, keeping both keys |
| HashTable.Table.Tail | hash_table.c:139-143 | following `next` from the head until hn_is_tail stops at the last node of the chain |
| HashTable.Table.BucketFrame | hash_table.c:106-149 | no node of another bucket belongs to bucket idx, and each node of bucket idx sits in one place only |
| HashTable.Destroy | hash_table.c:55-65 | returns null; a given table is first cleared: no items, an empty map, and only the table and its bucket array left in its footprint |

## Left out

- Memory management.
  - `calloc` failing in `hn_create` and `ht_create` is not modelled: allocation of a node or of a non-negative number of buckets always succeeds.
  - `free` in `ht_clear`, `ht_remove` and `ht_destroy` is modelled as the node leaving the table's footprint. `Clear` also reports the released nodes in order.
  - Dafny has no deallocation.
- `hn_destroy` and the node payload (`full_name`, `address`, `city`, `state`, `zip`) are not modelled. They only own strings that the table never reads.
- The `hash_code` field is not modelled. The table never reads or writes it.
- Null table arguments. A Dafny method receiver cannot be null.
  - `Create` and `Destroy` take and return `Table?` and model the null case.
  - The `!ht` guards of `ht_clear`, `ht_get_node`, `ht_contains`, `ht_remove` and `ht_add` are not modelled. All of them return without effect.
- HashTable.Create: a zero size is treated as a valid empty table. The header comment asks for a positive size, but the code passes any size to `calloc`. `calloc(0, …)` may return NULL or a pointer, depending on the platform, and that choice is not modelled.
- HashTable.Destroy: freeing the bucket array and the table struct is not modelled. Only the clear step and the null result are.
- C `int` width is not modelled. Keys, the bucket count and the item count are unbounded integers. The hash uses C's truncating remainder, and no overflow is possible there since `numBuckets > 0`.
- HashTable.Table.Add requires the node not to be in the table already. Re-adding a stored node resets its links before the search, which breaks its chain in C.
- A node still linked into another list is accepted by HashTable.Table.Add. As in C, its own links are reset and its old neighbours keep pointing at it.
- HashNode.InsertAfter requires `newNode` to differ from `node` and from its successor. With such aliasing the C code creates a self-loop. It also requires `node` not to be its own successor: a node already in a self-loop, which the C code turns into a 2-cycle with `newNode`.
- HashNode.InsertBefore requires `newNode` to differ from `node` and from its predecessor, for the same reason. It also requires `node` not to be its own predecessor: a node already in a self-loop.
- HashNode.Remove requires a non-null node that is not its own neighbour. The C code dereferences a null node without a check.
