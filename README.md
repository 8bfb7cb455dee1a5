# UPO-Algorithms-1 in Dafny

This project models the core of the UPO-Algorithms-1 teaching library, a C
library of basic data structures and algorithms, and proves properties of it.
It covers the following parts:

- **Hash tables:** separate chaining with unordered chains, separate chaining
  with ascending chains, and linear probing with tombstones and resizing.
  The string and integer hash functions are included.
- **Binary search tree:** keyed by the address of the key, so by a natural
  number here.
- **Sorts:** insertion sort and top-down merge sort on arrays.
- **Linked stack and linked queue.**
- **Duplicate finder:** the one in `apps/find_dups.c`.
- **Pointer exercises:** generic binary search, byte copy and array printing.
- **Memory utilities:** from `more-exercises/advanced_concepts.c`.

**How C things are represented:**
- An object that the C code changes in place is a Dafny `class`: the tables,
  the tree handle, the stack and the queue. Its methods carry `modifies`
  clauses and state the new abstract contents through `Contents()`.
- A fixed buffer is an `array`. The sorts, the byte utilities, the binary
  search and the linear-probing slot array work on arrays in place.
- A linked list is a `seq`.
- A comparator is a function value. In separate chaining and linear probing
  it is key equality, since only `cmp == 0` is ever tested there. The ordered
  chains also test `cmp < 0` and `cmp > 0`, so they use integer keys with `<`.
- A `NULL` handle is a nullable class reference, or `None` where a value is
  expected. The stack and queue functions and the tree's size and contains
  take such a reference directly. Each hash table has a class whose methods
  assume a live table, beside free methods of the same names that take a
  handle that may be NULL and do what the source does for NULL.
- The text written to a stream is the returned `string`.

**Shared modules:**
- `Common` holds the option, entry and byte types and the hasher
  well-formedness predicate.
- `Text` holds joining with a separator, which the printing routines share.

## Model

| member | source | states |
|---|---|---|
| Hashing.IntDiv | src/hashtable.c:661-668 | the integer hash lies in [0, m); a non-negative key hashes to key mod m, and a negative key is first converted to an unsigned word |
| Hashing.StrFoldAppend | src/hashtable.c:685-705 | hashing a concatenation is hashing the second part starting from the hash of the first: the string hash is a left fold |
| Hashing.HashStr | src/hashtable.c:685-705 | the multiplicative string hash loop returns the fold of the characters and stays below the capacity |
| Hashing.Djb2 | src/hashtable.c:707-710 | djb2 is the fold with seed 5381 and factor 33, and is below the capacity |
| Hashing.Djb2a | src/hashtable.c:712-728 | djb2a returns its seed 5381 unreduced for the empty string, and a value below the capacity otherwise |
| Hashing.Java | src/hashtable.c:730-733 | the Java hash is the fold with seed 0 and factor 31, below the capacity |
| Hashing.Kr2e | src/hashtable.c:735-738 | the K&R 2nd-edition hash is the fold with seed 0 and factor 31, below the capacity |
| Hashing.Sgistl | src/hashtable.c:740-743 | the SGI STL hash is the fold with seed 0 and factor 5, below the capacity |
| Hashing.Stlport | src/hashtable.c:745-748 | the STLport hash is the fold with seed 0 and factor 33, below the capacity |
| Hashing.IntDivHasher | src/hashtable.c:661-668 | the division hash is a valid hasher: every key lands in a slot of any positive capacity |
| Hashing.Kr2eHasher | src/hashtable.c:735-738 | kr2e is a valid hasher for strings |
| SeparateChaining.BucketMapIndex | src/hashtable.c:174-190 | a key bound by a chain occurs in it, its first occurrence holds the bound value, and no earlier node has the key |
| SeparateChaining.BucketMapSet | src/hashtable.c:121-150 | overwriting the value of the first node with a key rebinds exactly that key |
| SeparateChaining.BucketMapRemove | src/hashtable.c:210-239 | unlinking a node from a chain of distinct keys removes exactly its key and keeps the keys distinct |
| SeparateChaining.BucketMapSize | src/hashtable.c:241-257 | a chain of distinct keys binds as many keys as it has nodes |
| SeparateChaining.TableMapAt | src/hashtable.c:174-190 | when no other chain holds a key, the table binds it iff its own chain does, to the same value |
| SeparateChaining.TableSet | src/hashtable.c:121-150 | replacing the key's chain by one that rebinds the key rebinds it in the whole table |
| SeparateChaining.TableRemove | src/hashtable.c:210-239 | replacing the key's chain by one without the key removes it from the whole table |
| SeparateChaining.TableMapSize | src/hashtable.c:241-257 | with every key in its own chain and no key twice in a chain, the number of keys is the total chain length |
| SeparateChaining.FlatKeysAre | src/hashtable.c:578-610 | the concatenated chain keys are exactly the table's keys, one per node |
| SeparateChaining.FindInBucket | src/hashtable.c:121-239 | the chain walk stops at the first node with the key, or at the end exactly when the key is absent |
| SeparateChaining.Table.constructor | src/hashtable.c:32-77 | a new table has m empty chains and no keys |
| SeparateChaining.Table.Put | src/hashtable.c:121-150 | put binds the key to the value and returns the previous value if there was one; a new key is pushed at the head of its chain, a present one is overwritten in its node, and other chains are untouched |
| SeparateChaining.Table.Insert | src/hashtable.c:152-172 | insert adds an absent key at the head of its chain, and leaves the table unchanged when the key is present |
| SeparateChaining.Table.Get | src/hashtable.c:174-190 | get returns the value bound to the key, or nothing |
| SeparateChaining.Table.Contains | src/hashtable.c:192-208 | contains holds iff the key is bound |
| SeparateChaining.Table.Delete | src/hashtable.c:210-239 | delete removes exactly the key, touches only its chain, and changes nothing when the key is absent |
| SeparateChaining.Table.Size | src/hashtable.c:241-257 | size counts the bound keys |
| SeparateChaining.Table.IsEmpty | src/hashtable.c:259-262 | is_empty holds iff no key is bound |
| SeparateChaining.Table.Clear | src/hashtable.c:89-119 | clear empties every chain and keeps the slot array |
| SeparateChaining.Table.Keys | src/hashtable.c:578-610 | the key list holds every bound key exactly once, chain by chain |
| SeparateChaining.Put | src/hashtable.c:121-125 | put on a NULL handle returns NULL; on a table it binds the key and returns the old value |
| SeparateChaining.Insert | src/hashtable.c:152-156 | insert on a NULL handle does nothing; on a table it adds only an absent key |
| SeparateChaining.Get | src/hashtable.c:174-178 | get on a NULL handle returns NULL; on a table the bound value |
| SeparateChaining.Contains | src/hashtable.c:192-196 | contains on a NULL handle is false; on a table it holds iff the key is bound |
| SeparateChaining.Delete | src/hashtable.c:210-214 | delete on a NULL handle does nothing; on a table it removes exactly the key |
| SeparateChaining.Clear | src/hashtable.c:89-91 | clear on a NULL handle does nothing; on a table it unbinds every key |
| SeparateChaining.Size | src/hashtable.c:241-245 | size of a NULL handle is 0; of a table the number of keys |
| SeparateChaining.IsEmpty | src/hashtable.c:259-262 | is_empty holds for a NULL handle and for a table without keys |
| SeparateChaining.Keys | src/hashtable.c:578-582 | keys of a NULL handle is the empty list; of a table every key once |
| LinearProbing.DistProbe | src/hashtable.c:372-495 | helper fact for the probe loops, not a property of its own: the probe sequence from a home slot visits each slot once: the step count of a probed slot is the step that reached it |
| LinearProbing.MapOfAt | src/hashtable.c:444-456 | a full slot's key is bound to its value when keys are distinct |
| LinearProbing.CountFullIsSize | src/hashtable.c:497-508 | the number of full slots is the number of bound keys |
| LinearProbing.KeysOfIsKeys | src/hashtable.c:625-636 | the keys collected slot by slot are exactly the bound keys, each once |
| LinearProbing.EmptyWhenNotFull | src/hashtable.c:372-410 | without tombstones, a table that is not full has an empty slot, so a probe ends |
| LinearProbing.WellFormedWrite | src/hashtable.c:372-495 | writing a tombstone, or a key whose probe path before the slot is clear, keeps every key reachable from its home slot |
| LinearProbing.StopMeansAbsent | src/hashtable.c:444-456 | a probe that reaches an empty slot having passed only other keys and tombstones proves the key absent |
| LinearProbing.WellFormedFirstFree | src/hashtable.c:372-410 | putting a new key in the first free slot of its probe keeps the table well formed with distinct keys |
| LinearProbing.CanInsert | src/hashtable.c:372-410 | without tombstones, either growth fires or an empty slot exists |
| LinearProbing.FindSlot | src/hashtable.c:444-470 | the probe stops at the key's slot exactly when the key is bound, and otherwise at an empty slot |
| LinearProbing.FindForInsert | src/hashtable.c:372-442 | the probe also remembers the first tombstone or empty slot, which is where a new key goes |
| LinearProbing.ProbeForInsert | src/hashtable.c:383-392 | the probe loop of put passes tombstones and other keys, stops at the key or at an empty slot, and when it stops at an empty slot the remembered target is the first free slot of the probe path |
| LinearProbing.PutInArray | src/hashtable.c:372-410 | the slot-level put rebinds the key, returns the old value and keeps the table well formed |
| LinearProbing.Table.constructor | src/hashtable.c:288-335 | a new table has m empty slots and no keys |
| LinearProbing.Table.Size | src/hashtable.c:497-508 | size counts the bound keys |
| LinearProbing.Table.IsEmpty | src/hashtable.c:510-513 | is_empty holds iff no key is bound |
| LinearProbing.Table.Get | src/hashtable.c:444-456 | get returns the value bound to the key, or nothing |
| LinearProbing.Table.Contains | src/hashtable.c:458-470 | contains holds iff the key is bound |
| LinearProbing.Table.Resize | src/hashtable.c:525-572 | resizing re-inserts every pair into a fresh array without tombstones and with the same contents; its capacity is exactly n unless the pairs fill half of n, when the nested puts grow it further |
| LinearProbing.Rehash | src/hashtable.c:546-556 | putting every pair of the old slots into a fresh array of n empty slots yields a well-formed array without tombstones holding the same pairs, at least n slots long and exactly n when at most n / 2 + 1 pairs are moved |
| LinearProbing.RehashPut | src/hashtable.c:372-403 | one put of the rebuild: the new table doubles first when it is at least half full, then the absent key is stored, so the pairs grow by exactly that key |
| LinearProbing.Table.Put | src/hashtable.c:372-410 | put first doubles the capacity when the load factor is at least one half, then binds the key and returns the old value; without growth it writes one slot, the key's own or the first free one on its probe path |
| LinearProbing.Table.Insert | src/hashtable.c:412-442 | insert grows the same way and adds the key only when absent; without growth a present key leaves the slots unchanged and an absent one fills the first free slot on its probe path |
| LinearProbing.Table.Delete | src/hashtable.c:472-495 | delete removes exactly the key, changes nothing when the key is absent, and halves the capacity into a tombstone-free array when the load factor falls to one eighth; otherwise the key's slot, and only it, becomes a tombstone |
| LinearProbing.Table.Clear | src/hashtable.c:347-370 | clear unbinds every key: each full slot becomes empty and the other slots are kept |
| LinearProbing.Table.Keys | src/hashtable.c:625-636 | the key list holds every bound key exactly once, in slot order |
| LinearProbing.Table.Merge | src/hashtable.c:647-655 | merging inserts every pair of the source that the destination lacks: destination bindings win, and a distinct source is unchanged; merging a table into itself keeps its contents; a destination without slots is accepted when the source has no key, since then nothing is hashed |
| LinearProbing.Table.MergeFrom | src/hashtable.c:651-655 | the merge loop over a distinct source, which may have no slots when the source has no key: the result is the source's pairs under the destination's, and the source's slots are unchanged |
| LinearProbing.Table.ReinsertAll | src/hashtable.c:651-655 | the merge loop when source and destination are one table: every slot's key is re-inserted while the capacity may grow under the loop, the loop ends, and the contents are unchanged |
| LinearProbing.Put | src/hashtable.c:372-376 | put on a NULL handle returns NULL; on a table it binds the key and returns the old value |
| LinearProbing.Insert | src/hashtable.c:412-416 | insert on a NULL handle does nothing; on a table it adds only an absent key |
| LinearProbing.Get | src/hashtable.c:444-448 | get on a NULL handle returns NULL; on a table the bound value |
| LinearProbing.Contains | src/hashtable.c:458-462 | contains on a NULL handle is false; on a table it holds iff the key is bound |
| LinearProbing.Delete | src/hashtable.c:472-476 | delete on a NULL handle does nothing; on a table it removes exactly the key |
| LinearProbing.Clear | src/hashtable.c:347-349 | clear on a NULL handle does nothing; on a table it unbinds every key |
| LinearProbing.Size | src/hashtable.c:497-501 | size of a NULL handle is 0; of a table the number of keys |
| LinearProbing.IsEmpty | src/hashtable.c:510-513 | is_empty holds for a NULL handle and for a table without keys |
| LinearProbing.Keys | src/hashtable.c:625-629 | keys of a NULL handle is the empty list; of a table every key once |
| LinearProbing.Merge | src/hashtable.c:647-655 | merge does nothing when either handle is NULL, whatever the destination's capacity; otherwise the destination gains the source's missing pairs |
| OrderedChaining.AscendingUnique | src/hashtable.c:866-945 | helper fact, not a property of its own: an ascending chain has distinct keys |
| OrderedChaining.PutAsWrittenIsUpdate | src/hashtable.c:866-909 | whenever the put as written succeeds, it rebinds exactly the key in the chain |
| OrderedChaining.PutAsWrittenAscending | src/hashtable.c:866-909 | on an ascending chain, the put as written fails exactly when it would splice before the head through a NULL predecessor, and otherwise keeps the chain ascending |
| OrderedChaining.InsertAsWrittenAscending | src/hashtable.c:911-945 | the same for insert, which adds an absent key only |
| OrderedChaining.DeleteFirstAscending | src/hashtable.c:947-977 | deleting the first node with the key keeps the chain ascending and removes exactly that key |
| OrderedChaining.PutAsWrittenFailsOnGreaterKey | src/hashtable.c:866-909 | putting 7 into the chain [5] takes the NULL-predecessor path, while the corrected put yields [5, 7] |
| OrderedChaining.SortedPut | src/hashtable.c:866-909 | the corrected put: the new node goes before the first greater key |
| OrderedChaining.SortedPutCorrect | src/hashtable.c:866-909 | the corrected put keeps the chain ascending and rebinds exactly the key |
| OrderedChaining.StaysInBucket | src/hashtable.c:866-945 | every edit of a chain keeps each of its keys hashing to that chain |
| OrderedChaining.TableMapEmptyIff | src/hashtable.c:979-1010 | the table is empty iff the chains have total length 0 |
| OrderedChaining.Table.constructor | src/hashtable.c:754-793 | a new table has m empty ascending chains |
| OrderedChaining.Table.WalkLess | src/hashtable.c:866-945 | the walk passes the nodes whose key is greater than the argument and stops at the first that is not |
| OrderedChaining.Table.WalkEq | src/hashtable.c:830-864 | the full walk finds the first node with the key exactly when the key is bound |
| OrderedChaining.Table.Put | src/hashtable.c:866-909 | with no slots it does nothing; otherwise it applies the put as written to the key's chain, keeps every chain ascending, and returns the old value |
| OrderedChaining.Table.BucketPut | src/hashtable.c:876-906 | the walk and the three cases of put on one chain give the put as written, rebind exactly the key, return the old value when the walk stops on the key, and keep an ascending chain ascending |
| OrderedChaining.Table.Insert | src/hashtable.c:911-945 | the insert as written, which adds only an absent key and keeps the chains ascending |
| OrderedChaining.Table.BucketInsert | src/hashtable.c:918-944 | the walk and the two cases of insert on one chain give the insert as written, and on an ascending chain add the key only when it is absent |
| OrderedChaining.Table.Get | src/hashtable.c:830-846 | get returns the value bound to the key, or nothing |
| OrderedChaining.Table.Contains | src/hashtable.c:848-864 | contains holds iff the key is bound |
| OrderedChaining.Table.Delete | src/hashtable.c:947-977 | delete unlinks the first node with the key in its chain only, and on ascending chains removes exactly the key |
| OrderedChaining.Table.Size | src/hashtable.c:979-995 | size is the total chain length, which is the number of keys when the chains are ascending |
| OrderedChaining.Table.IsEmpty | src/hashtable.c:1007-1010 | is_empty holds iff no key is bound |
| OrderedChaining.Table.Clear | src/hashtable.c:805-828 | clear empties every chain |
| OrderedChaining.Table.PutSorted | src/hashtable.c:866-909 | the corrected put on the table: ascending chains stay ascending, the key is rebound, the old value is returned, and the size grows only for a new key |
| OrderedChaining.Table.SortedBucketPut | src/hashtable.c:866-909 | the corrected walk on one ascending chain gives the corrected put and returns the value the key was bound to |
| OrderedChaining.Put | src/hashtable.c:866-870 | put on a NULL handle returns NULL; on a table it applies put as written |
| OrderedChaining.Insert | src/hashtable.c:911-915 | insert on a NULL handle does nothing; on a table it adds only an absent key |
| OrderedChaining.Get | src/hashtable.c:830-834 | get on a NULL handle returns NULL; on a table the bound value |
| OrderedChaining.Contains | src/hashtable.c:848-852 | contains on a NULL handle is false; on a table it holds iff the key is bound |
| OrderedChaining.Delete | src/hashtable.c:947-951 | delete on a NULL handle does nothing; on ascending chains it removes exactly the key |
| OrderedChaining.Clear | src/hashtable.c:805-807 | clear on a NULL handle does nothing; on a table it unbinds every key |
| OrderedChaining.Size | src/hashtable.c:979-983 | size of a NULL handle is 0; of a table the total chain length |
| OrderedChaining.IsEmpty | src/hashtable.c:1007-1010 | is_empty holds for a NULL handle and for a table without keys |
| BinarySearchTree.SizeIsCount | src/bst.c:224-240 | the recursive size of a search tree is its number of keys |
| BinarySearchTree.GetImpl | src/bst.c:128-148 | the recursive get on a search tree returns the value bound to the key, or nothing |
| BinarySearchTree.PutImpl | src/bst.c:88-109 | the recursive put adds the key, keeps the search order, and rebinds the key in the map |
| BinarySearchTree.PutImplShape | src/bst.c:88-109 | put on a present key keeps the tree's shape; the size grows only for a new key |
| BinarySearchTree.InsertImpl | src/bst.c:111-126 | the recursive insert keeps the search order and adds an absent key |
| BinarySearchTree.InsertImplPresent | src/bst.c:111-126 | insert of a present key returns the same tree; the size grows only for a new key |
| BinarySearchTree.MaxImpl | src/bst.c:209-217 | the rightmost node holds the largest key and its value |
| BinarySearchTree.DeleteImpl | src/bst.c:193-207 | the recursive delete keeps the search order, removes exactly the key, and returns the tree unchanged when the key is absent |
| BinarySearchTree.Delete2c | src/bst.c:173-180 | deleting a node with a left child replaces it by its predecessor and removes exactly its key |
| BinarySearchTree.Delete1c | src/bst.c:182-191 | deleting a node with at most one child lifts that child and removes exactly its key |
| BinarySearchTree.PredecessorReplaces | src/bst.c:173-180 | moving the predecessor up into the deleted node keeps the search order and the other bindings |
| BinarySearchTree.HeightImplMissesRightChain | src/bst.c:249-254 | the height as written is 1 on the right chain 1, 2, 3, whose height is 2 |
| BinarySearchTree.IntendedHeight | src/bst.c:249-254 | the corrected height, one more than the taller of the two subtrees |
| BinarySearchTree.HeightBounds | src/bst.c:249-259 | a tree of height h has more than h and fewer than 2^(h+1) nodes |
| BinarySearchTree.HeightImplBelow | src/bst.c:249-254 | the height as written never exceeds the corrected height |
| BinarySearchTree.Bst.constructor | src/bst.c:30-43 | a new tree is empty |
| BinarySearchTree.Bst.Clear | src/bst.c:54-78 | clear leaves the empty tree |
| BinarySearchTree.Bst.Put | src/bst.c:88-109 | put rebinds the key in the tree's map and keeps its shape when the key is present |
| BinarySearchTree.Bst.Insert | src/bst.c:111-126 | insert adds an absent key and otherwise leaves the map unchanged |
| BinarySearchTree.Bst.Delete | src/bst.c:193-222 | delete removes exactly the key, and the size drops by one iff the key was present |
| BinarySearchTree.Bst.Get | src/bst.c:128-148 | get returns the value bound to the key, or nothing |
| BinarySearchTree.Bst.Size | src/bst.c:224-240 | size counts the keys |
| BinarySearchTree.Bst.Height | src/bst.c:249-259 | height returns the height as written, which is at most the corrected height |
| BinarySearchTree.Bst.IsEmpty | src/bst.c:269-274 | is_empty holds iff no key is bound |
| BinarySearchTree.Contains | src/bst.c:150-158 | contains holds iff the tree exists and binds the key |
| BinarySearchTree.SizeOf | src/bst.c:233-240 | the size of a NULL tree is 0, otherwise the number of keys |
| BinarySearchTree.ExampleTreeHeight | src/bst.c:249-259 | on a balanced tree of seven keys, both heights are 2 |
| Sorting.FilterAppend | src/sort.c:80-122 | the elements of one key in a concatenation are those of the first part followed by those of the second |
| Sorting.SameFiltersPermutation | src/sort.c:30-122 | equal per-key subsequences imply equal multisets, so a stable reordering is a permutation |
| Sorting.StableSortUnique | src/sort.c:30-122 | two sorted sequences with the same per-key subsequences are equal: the stable sorted order is unique |
| Sorting.MergeSorted | src/sort.c:80-122 | merging two sorted runs gives a sorted run |
| Sorting.MergeStable | src/sort.c:80-122 | merging preserves, for each key, the order of the left run followed by the right run |
| Sorting.MergeStepRight | src/sort.c:80-122 | a step of the merge loop that takes the right run's head (left run exhausted, or right head strictly smaller) extends the merged prefix |
| Sorting.MergeStepLeft | src/sort.c:80-122 | a step of the merge loop that takes the left run's head (right run exhausted, or left head no greater) extends the merged prefix |
| Sorting.InsertionSwap | src/sort.c:30-51 | swapping an element with a strictly greater predecessor keeps the insertion invariant and the per-key order |
| Sorting.InsertionSort | src/sort.c:30-51 | insertion sort leaves the array sorted, stable, and a permutation of the input |
| Sorting.Merge | src/sort.c:80-122 | merge replaces a[lo..hi] by the merge of the runs a[lo..mid] and a[mid+1..hi] and touches nothing else |
| Sorting.MergeBack | src/sort.c:98-120 | the merge loop writes the merge of the two runs held in the auxiliary copy over a[lo..], leaving the rest of the array as it was |
| Sorting.MergeSortDriver | src/sort.c:63-78 | the recursive driver sorts a[lo..hi] stably and touches nothing else |
| Sorting.MergeSort | src/sort.c:53-61 | merge sort leaves the array sorted, stable, and a permutation of the input |
| LinkedStack.Stack.constructor | src/stack.c:27-40 | a new stack is empty |
| LinkedStack.TopOf | src/stack.c:90-97 | the top of a stack is its most recent element, and there is none iff the stack is empty |
| LinkedStack.IsEmpty | src/stack.c:99-105 | a NULL or empty stack is empty |
| LinkedStack.Push | src/stack.c:51-73 | push puts the element on top and keeps the rest |
| LinkedStack.Pop | src/stack.c:75-88 | pop removes the top element, and does nothing on an empty stack |
| LinkedStack.Top | src/stack.c:90-97 | top returns the most recent element, or NULL for a NULL or empty stack |
| LinkedStack.Size | src/stack.c:107-113 | size counts the elements, 0 for NULL |
| LinkedStack.Clear | src/stack.c:115-136 | clear empties the stack |
| LinkedStack.PushAllPopAll | src/stack.c:51-97 | pushing a sequence and popping it all yields it reversed: last in, first out |
| LinkedQueue.Queue.constructor | src/queue.c:32-44 | a new queue is empty |
| LinkedQueue.Enqueue | src/queue.c:75-96 | enqueue appends at the back |
| LinkedQueue.Dequeue | src/queue.c:98-113 | dequeue removes the front element, and does nothing on an empty queue |
| LinkedQueue.Peek | src/queue.c:115-121 | peek returns the front element, and NULL for a NULL queue |
| LinkedQueue.Size | src/queue.c:123-129 | size counts the elements, 0 for NULL |
| LinkedQueue.IsEmpty | src/queue.c:131-139 | an existing queue without elements is empty; a NULL queue is not reported empty |
| LinkedQueue.Clear | src/queue.c:55-73 | clear empties the queue |
| LinkedQueue.EnqueueAllDrain | src/queue.c:75-121 | enqueuing a sequence and draining the queue by peek and dequeue yields it unchanged: first in, first out |
| LinkedQueue.DrainDigits | test/test_queue.c:73-91 | the peek test's queue of 0 to 9 drains in order |
| FindDuplicates.DupsCount | apps/find_dups.c:45-59 | each string is reported once for every occurrence after its first |
| FindDuplicates.IDupsLowered | apps/find_dups.c:61-88 | lowercasing what the case-insensitive search reports gives the exact duplicates of the lowercased strings |
| FindDuplicates.ToLower | apps/find_dups.c:90-99 | capital letters move 32 code points to their small forms, and other characters are kept |
| FindDuplicates.LowerIdempotent | apps/find_dups.c:90-99 | lowercasing twice is lowercasing once |
| FindDuplicates.ToLowerCase | apps/find_dups.c:90-99 | the in-place loop over a fresh copy yields the lowercase form of the string |
| FindDuplicates.FindDups | apps/find_dups.c:45-59 | a NULL array gives the NULL list; otherwise every string equal to an earlier one is listed, in order, as detected by a previous value returned from put |
| FindDuplicates.NoteString | apps/find_dups.c:51-56 | one loop step: the string joins the table, and it is appended to the list exactly when put returns a previous value, so the table and list track the prefix read so far |
| FindDuplicates.FindIDups | apps/find_dups.c:61-88 | without ignore-case it is find_dups; with it, each original string is reported whose lowercase form was seen before |
| FindDuplicates.FindLowerDups | apps/find_dups.c:67-88 | with ignore-case, every original string whose lowercase form equals the lowercase form of an earlier one is listed, in order |
| FindDuplicates.NoteLowered | apps/find_dups.c:74-81 | one ignore-case step: the lowercase copy joins the table, and the original string is appended exactly when its lowercase form was already there |
| FindDuplicates.DupsExample | apps/find_dups.c:158-163 | the duplicates of "Tre", "tigri", "contro", "tre", "tigri" are just "tigri" |
| FindDuplicates.IDupsExample | apps/find_dups.c:170-174 | ignoring case, they are "tre" and "tigri" |
| BinarySearch.Search | intro-exercises/cptrs-ex02-binary_search/binary_search.c:109-132 | on an array partitioned around the key, a found index holds an element equal to the key, and NULL means no element equals it |
| BinarySearch.IntCmp | intro-exercises/cptrs-ex02-binary_search/binary_search.c:134-143 | the int comparator returns 1, -1 or 0 exactly as the key is greater than, less than or equal to the element |
| BinarySearch.StrCmp | intro-exercises/cptrs-ex02-binary_search/binary_search.c:145-156 | the string comparator's sign is -1, 0 or 1, and it is 0 exactly for equal strings |
| BinarySearch.StrCmpAntisymmetric | intro-exercises/cptrs-ex02-binary_search/binary_search.c:145-156 | swapping the strings negates the comparison |
| BinarySearch.StrCmpTransitive | intro-exercises/cptrs-ex02-binary_search/binary_search.c:145-156 | the string order is transitive |
| BinarySearch.StrSortedPartitioned | intro-exercises/cptrs-ex02-binary_search/binary_search.c:109-156 | an ascending string array meets the search's precondition for every key |
| BinarySearch.IntExample | intro-exercises/cptrs-ex02-binary_search/binary_search.c:40-107 | in the driver's int array, 76 is found at index 4 and 77 is absent |
| BinarySearch.StrExample | intro-exercises/cptrs-ex02-binary_search/binary_search.c:40-107 | in the driver's string array, "e01" is found at index 0 and "e07" is absent |
| AnyCopy.Copy | intro-exercises/cptrs-ex01-any_copy/any_copy.c:35-45 | the first n bytes of the destination become the source's, and the rest of the destination is unchanged |
| AnyCopy.HelloExample | intro-exercises/cptrs-ex01-any_copy/any_copy.c:47-91 | copying "Hello, World" with its terminator copies all 13 bytes |
| DumpArray.Decimal | intro-exercises/cptrs-ex03-dump_array/dump_array.c:30-36 | the %d text of a natural number is a non-empty run of digits without a leading zero |
| DumpArray.DumpIntRoundTrip | intro-exercises/cptrs-ex03-dump_array/dump_array.c:30-36 | the text written for an int reads back as that int |
| DumpArray.Dump | intro-exercises/cptrs-ex03-dump_array/dump_array.c:13-28 | the array is written as "[", the element texts separated by ", ", then "]" |
| DumpArray.StringsExample | intro-exercises/cptrs-ex03-dump_array/dump_array.c:46-59 | the driver's string array is written "[e01, e02, e03, e04, e05, e06]" |
| DumpArray.IntsExample | intro-exercises/cptrs-ex03-dump_array/dump_array.c:46-59 | the driver's int array is written "[1, 20, 25, 32, 76, 123]" |
| Text.JoinSnoc | intro-exercises/cptrs-ex03-dump_array/dump_array.c:13-28 | joining one more part appends the separator and the part |
| Text.JoinLength | intro-exercises/cptrs-ex03-dump_array/dump_array.c:13-28 | a join is as long as its parts plus one separator between each pair |
| Text.WrittenAll | intro-exercises/cptrs-ex03-dump_array/dump_array.c:13-28 | writing each part followed by the separator, except after the last, produces the join |
| MemoryUtils.Filled | more-exercises/advanced_concepts.c:162-170 | filling sets the first n bytes to the value and keeps the rest |
| MemoryUtils.MemSet | more-exercises/advanced_concepts.c:162-170 | mem_set's loop fills the first n bytes of the buffer with the value |
| MemoryUtils.FillNulEmpties | more-exercises/advanced_concepts.c:99-128 | filling a string with NUL from its start makes it empty |
| MemoryUtils.FillKeepsStrLen | more-exercises/advanced_concepts.c:99-128 | filling a string's characters with a non-NUL value keeps its length |
| MemoryUtils.MemSetExample | more-exercises/advanced_concepts.c:120-127 | setting the first three bytes of the test buffer to 127 gives 127, 127, 127, 32, 16, 8 |
| MemoryUtils.MemCmp | more-exercises/advanced_concepts.c:172-185 | mem_cmp as written returns the sum of the signs of all n byte pairs |
| MemoryUtils.SignSumAntisymmetric | more-exercises/advanced_concepts.c:172-185 | swapping the buffers negates the result as written |
| MemoryUtils.SignSumBounds | more-exercises/advanced_concepts.c:172-185 | the result as written lies within [-n, n] and is 0 for equal buffers |
| MemoryUtils.SignSumMisordered | more-exercises/advanced_concepts.c:172-185 | on 1,0,0 against 0,1,1 the result as written is -1, while the first differing byte says greater |
| MemoryUtils.FirstDifference | more-exercises/advanced_concepts.c:130-146 | the corrected comparison is -1, 0 or 1, and 0 exactly for equal buffers |
| MemoryUtils.FirstDifferenceAt | more-exercises/advanced_concepts.c:130-146 | the corrected comparison is decided by the first differing byte |
| MemoryUtils.MemCmpFirstDifference | more-exercises/advanced_concepts.c:172-185 | the corrected loop returns the sign at the first differing byte |
| MemoryUtils.CiaoExample | more-exercises/advanced_concepts.c:130-146 | the test's "Ciao" compared with itself gives 0 both as written and corrected |
| MemoryUtils.HexByteRoundTrip | more-exercises/advanced_concepts.c:148-160 | the %X text of a byte reads back as the byte |
| MemoryUtils.HexFprint | more-exercises/advanced_concepts.c:148-160 | hex_fprint writes the n bytes in %X, separated by spaces, then a newline |
| MemoryUtils.HexExample | more-exercises/advanced_concepts.c:80-96 | the unsigned test buffer prints "FF 80 40 20 10" and a newline |
| MemoryUtils.HexNulExample | more-exercises/advanced_concepts.c:62-78 | the string test buffer, terminator included, prints "6F 74 20 55 6E 69 78 0" and a newline |

## Left out

- Memory management is not modelled: destroy functions, `free`, `destroy_data`
  flags and allocation failure. The model is garbage-collected.
- `SeparateChaining.Table.Delete`: requires a present key when data is to be
  destroyed. The source frees the fields of the node it found, which is NULL
  for an absent key.
- The traverse and visitor functions of the tables and the tree are left out.
  They are function-pointer callbacks with side effects on caller state.
- Floating-point hashes (`upo_ht_hash_int_mult`) and floating-point load
  factors are left out. The load-factor tests of linear probing (1/2 to grow,
  1/8 to shrink) are written as integer comparisons.
- `apps/postfix_eval.c` is not part of this model.
- The BST functions that are stubs in the source are not part of this model:
  rank, min, max, floor, ceiling, keys range and similar. So is
  `upo_quick_sort`.
- Stream I/O is represented only by the returned text: `FILE`, `printf`,
  `fprintf`.
- UPO_HT_SEPCHAIN_DEFAULT_CAPACITY is a parameter of
  `FindDuplicates.FindDups` and `FindDuplicates.FindIDups`.
- Duplicate lists are sequences. `create_list` and `destroy_dup_list` are
  sequence append and nothing, and the NULL list is the empty sequence.
- Tables with a comparator are modelled as follows:
  - the separate-chaining and linear-probing comparators are key equality,
    since only `cmp == 0` is ever tested;
  - the ordered chains use integer keys with `<`;
  - the sorts compare through an integer key function.
- Keys are values, so pointer identity and aliasing of stored keys and values
  are not modelled. The BST orders keys by their address, here a natural
  number. Its nodes are immutable tree values held in a class field rather
  than nodes updated in place.
- The element printer of `dump_array` is a function from an element to its
  text. `any_copy` is modelled on bytes only, not on arbitrary element sizes.
- `BinarySearch.StrCmp`: models strcmp by its sign only (-1, 0, 1). C promises
  only the sign, so callers that look at the magnitude are not modelled.
- `BinarySearch.Search`: does not model the `int` overflow of the midpoint or
  of `num_elem - 1`. Indices are unbounded integers.
- `FindDuplicates.ToLower`: models tolower on 7-bit characters only, as in
  the C locale; characters above 127 are kept. The string hashes likewise
  take a character by its code point, so the sign extension of a signed
  `char` above 127 is not modelled.
- `BinarySearchTree.PutImpl` and `InsertImpl`: `upo_bst_node_create`
  (src/bst.c:80-86) leaves the new node's child pointers uninitialised; the
  model gives the new node two empty subtrees, which is what the rest of the
  tree code relies on.
- `MemoryUtils.MemCmp`: does not model overflow of the `int` accumulator,
  which needs more than 2^31 bytes.
- Integer widths: wrap-around of `size_t` and `int` is modelled only where it
  changes results, namely the hash functions and negative integer keys.
  Elsewhere sizes are unbounded.
- `LinearProbing.Table.Get`, `Contains`, `Delete`, `Put` and `Insert`, and
  the free methods of the same names: require that the key is present or
  that an empty slot exists; put and insert also accept a table at least half
  full, since they grow it first. On an array of only keys and tombstones an
  absent key makes the source's probe loop run forever. `Delete` also
  requires more than one slot when the key is present, because the shrink
  would otherwise produce a capacity of 0 and the source's hash would divide
  by zero. All of them also require a capacity above 0 for a table that is
  not NULL, since every hash function of the source asserts `m > 0` and a
  table of capacity 0 aborts on its first hash. Put and insert reach that
  hash too, because their load factor 0/0.0 is NaN and fails the growth
  test.
- `LinearProbing.Table.Merge` and the free `LinearProbing.Merge`: require a
  destination without tombstones when the source is another table, so that
  every insert's probe ends, and a capacity above 0 when the source has a
  key, since that insert hashes. Two distinct
  tables are assumed not to share one slot array, which the source never
  creates.
- `SeparateChaining.Table.Put`, `Insert`, `Get`, `Contains` and `Delete`, and
  the free methods `SeparateChaining.Put`, `Insert`, `Get`, `Contains` and
  `Delete`: require a capacity above 0 for a table that is not NULL.
  `upo_ht_sepchain_create` accepts a capacity of 0, but every hash function
  of the source asserts `m > 0`, so such a table aborts on its first hash.
- `OrderedChaining.Table.Insert`, the free `OrderedChaining.Insert` and the
  corrected `OrderedChaining.Table.PutSorted`: require a capacity above 0, for
  the same reason.
- `OrderedChaining.Table.Put` and `Insert`: require that the key does not
  splice before the head of its chain. There the source dereferences a NULL
  predecessor, which is reported under Findings. `Delete` does not decrement
  the stored size, as in the source, so `Size` is stated as the total chain
  length.
- `LinkedQueue.Peek`: requires a non-empty queue when the handle is not NULL.
  The source dereferences the missing first node otherwise.
- Where the source and its specification differ, the model follows the
  source:
  - the ordered-chain get, contains and delete walk the whole chain rather
    than stopping at the first greater key;
  - `djb2a` returns its seed 5381 unreduced for the empty string, although
    the string hashes are described as reduced modulo the capacity.

## Findings

| source | as written | input that shows it | evidently intended | confidence | as-written member | corrected member |
|---|---|---|---|---|---|---|
| src/hashtable.c:866-909 | put walks while the new key is smaller and splices through `previous`, which is NULL when the walk stops at the head | a chain holding key 5, then put of key 7 | link the new node before the first key it precedes, at the head if need be | not executed; high | OrderedChaining.PutAsWrittenFailsOnGreaterKey | OrderedChaining.SortedPutCorrect |
| src/bst.c:249-254 | the height takes the maximum of the left height with itself | the right chain 1, 2, 3, of height 2, gives 1 | one more than the larger of the left and right heights | not executed; high | BinarySearchTree.HeightImplMissesRightChain | BinarySearchTree.HeightBounds |
| more-exercises/advanced_concepts.c:172-185 | mem_cmp adds up the signs of all n byte pairs | buffers 1,0,0 and 0,1,1 give -1, while memcmp says the first is greater | the sign of the first differing byte pair, as memcmp, which the tests compare against | not executed; medium | MemoryUtils.SignSumMisordered | MemoryUtils.MemCmpFirstDifference |
