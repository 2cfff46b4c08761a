# SimpleLRU in Dafny

A model of `Afina::Backend::SimpleLRU`, the byte-budgeted least-recently-used key-value
store of the Afina server. The store holds three things:

- a doubly linked recency list of nodes, each with a key and a value;
- a `std::map` index from key to node;
- a running total `_cur_size` of `key.size() + value.size()` over the stored entries.

`_cur_size` is kept at or below `_max_size`, which defaults to 1024.

`Put`, `PutIfAbsent`, `Set`, `Delete` and `Get` are built from three helpers:

- `putNewNode` evicts from the tail until the new entry fits, then links it at the head;
- `eraseNode` unlinks one node;
- `delTail` evicts the tail.

The code links new nodes at the head and evicts from the tail, so the head is the most
recently written entry. The comment on the list field says the opposite: it calls the
head the entry unused for longest (src/storage/SimpleLRU.h:72-73). The model follows the
code. `Get` reads a value and does not move its node.

The project has four modules.

- `LruModel` (lru_model.dfy) is the abstract store. It is a sequence of `Entry(key, value)`
  ordered most recent first.
  - `Size` is the byte total and `Inv` is "keys unique, total within budget".
  - `Evict` drops tail entries while over budget. `Insert` evicts and then puts the new
    entry at the head.
  - `Put`, `PutIfAbsent`, `Set` and `Delete` are functions returning the answer and the
    new entries.
  - `Run` applies a sequence of operations.
  - The lemmas state what each operation promises and that no run of operations breaks
    `Inv`.
- `LruArena` (lru_arena.dfy) is the linked list as plain values. Slot `i` of the
  `keys`/`values`/`prev`/`next` sequences is one node, and links are slot numbers with
  `NIL` as the null pointer.
  - The ghost `order` lists the live slots from head to tail.
  - `Arena` is the list invariant: the links follow `order`, head and tail are its ends,
    and the index maps exactly the live keys to their slots.
  - `Unlink`, `Erase` and `Push` prove that unlinking a node and linking a fresh head
    keep `Arena`, and what they do to the entries and the byte total.
- `SimpleLru` (simple_lru.dfy) is the class `SimpleLRU`. It holds the arena as `seq`
  fields, `head`, `tail`, the `index` map, `curSize` and `maxSize`.
  - Its methods update the fields in place. The eviction loop is a `while` loop over
    `EvictOne` (one `DelTail` per turn).
  - Each public method is proved to leave the abstract entries exactly as the matching
    `LruModel` function says and to keep `Valid()`. `Valid()` says the list is well
    formed, `curSize` is the true total, and the total is within budget.
- `LruAsWritten` (lru_as_written.dfy) gives the link, index and byte-total updates
  of the three helpers as the source writes them. Its lemmas show where they go wrong
  (see Findings).

## Model

| member | source | states |
|---|---|---|
| LruModel.Remove | src/storage/SimpleLRU.cpp:36-50 | the entries with the one for k dropped and the rest in order; its properties are RemoveMembers, RemoveAt and RemoveKeepsInv |
| LruModel.Insert | src/storage/SimpleLRU.cpp:15-34 | evict to the budget left by the new entry, then put the new entry at the head; its properties are InsertCorrect |
| LruModel.Put | src/storage/SimpleLRU.cpp:53-62 | refuse an entry that cannot fit, else remove k and insert (k, v); its properties are PutCorrect |
| LruModel.PutIfAbsent | src/storage/SimpleLRU.cpp:65-72 | refuse when k is stored or the entry cannot fit, else insert; its properties are PutIfAbsentCorrect |
| LruModel.Set | src/storage/SimpleLRU.cpp:75-84 | refuse when k is absent or the entry cannot fit, else remove k and insert; its properties are SetCorrect |
| LruModel.Delete | src/storage/SimpleLRU.cpp:87-94 | answer whether k is stored and remove it; its properties are DeleteCorrect |
| LruModel.Evict | src/storage/SimpleLRU.cpp:18-20 | eviction keeps a prefix of the list (only least recent entries go), ends within budget, and stops at the first point the total fits |
| LruModel.EvictStep | src/storage/SimpleLRU.cpp:18-20 | while the total is over budget, dropping the tail is one step of eviction: evicting the shorter list gives the same result |
| LruModel.Lookup | src/storage/SimpleLRU.cpp:97-106 | a lookup finds nothing exactly when no entry carries the key, and what it finds is a stored pair |
| LruModel.SizeWithout | src/storage/SimpleLRU.cpp:47 | dropping one entry lowers the byte total by exactly that entry's key plus value length |
| LruModel.SizeWithoutLast | src/storage/SimpleLRU.cpp:7 | dropping the tail lowers the byte total by exactly the tail's key plus value length |
| LruModel.LookupAt | src/storage/SimpleLRU.cpp:97-106 | with unique keys, looking up the key stored at any position yields that position's value |
| LruModel.RemoveMembers | src/storage/SimpleLRU.cpp:36-50 | removing a key keeps exactly the entries under other keys; the key is no longer stored |
| LruModel.RemoveAbsent | src/storage/SimpleLRU.cpp:87-94 | removing a key that is not stored changes nothing |
| LruModel.RemoveAt | src/storage/SimpleLRU.cpp:36-50 | with unique keys, removing a stored key drops exactly its position and keeps the others in order |
| LruModel.RemoveKeepsInv | src/storage/SimpleLRU.cpp:36-50 | removal keeps keys unique and the total in budget, and frees exactly the removed entry's bytes |
| LruModel.LookupRemove | src/storage/SimpleLRU.cpp:87-94 | after removing k, k looks up as absent and every other key looks up as before |
| LruModel.LookupPrefix | src/storage/SimpleLRU.cpp:18-20 | after eviction each key looks up as before or as absent; no value changes |
| LruModel.InsertCorrect | src/storage/SimpleLRU.cpp:15-34 | inserting an absent key keeps the invariant; the new pair is the head; the rest is a most-recent prefix of the old list, cut no shorter than needed; other keys keep their values or are evicted |
| LruModel.PutCorrect | src/storage/SimpleLRU.cpp:53-62 | Put succeeds exactly when the entry fits the budget alone; then the pair is the head and k maps to v, and other keys keep their values unless evicted; a refused Put changes nothing |
| LruModel.PutIfAbsentCorrect | src/storage/SimpleLRU.cpp:65-72 | PutIfAbsent succeeds exactly when k is absent and the entry fits; then the pair is the head and other keys keep their values unless evicted; on a present key contents, order and size are unchanged |
| LruModel.SetCorrect | src/storage/SimpleLRU.cpp:75-84 | Set succeeds exactly when k is stored and the entry fits; then the new value is the head and other keys keep their values unless evicted; on an absent key nothing changes |
| LruModel.DeleteCorrect | src/storage/SimpleLRU.cpp:87-94 | Delete answers whether k was stored; afterwards k is absent, exactly one position is dropped with the others in order, the total falls by that entry's bytes, and other keys look up as before |
| LruModel.PutIfAbsentTwice | src/storage/SimpleLRU.cpp:65-72 | a second PutIfAbsent on a key the first one stored is refused and keeps the first value |
| LruModel.RunKeepsInv | src/storage/SimpleLRU.h:66-68 | no sequence of operations breaks unique keys or lets the total exceed the budget |
| LruModel.LastWrite | src/storage/SimpleLRU.cpp:53-94 | the value of the last successful Put, PutIfAbsent or Set of k in a run, None after a later Delete of k, else the starting lookup; the property is GetSeesLastWrite |
| LruModel.GetSeesLastWrite | src/storage/SimpleLRU.cpp:97-106 | after any run of operations, Get finds nothing or exactly the value last written under the key with no Delete of it since |
| LruArena.Relink | src/storage/SimpleLRU.cpp:37-43 | patching a neighbour's link changes that one slot, and patches nothing when the neighbour is null |
| LruArena.UnlinkKeepsNext | src/storage/SimpleLRU.cpp:41-43 | after unlinking, the predecessor's next link is the successor and all other next links still follow the list |
| LruArena.UnlinkKeepsPrev | src/storage/SimpleLRU.cpp:37-39 | after unlinking, the successor's prev link is the predecessor and all other prev links still follow the list |
| LruArena.UnlinkKeepsEnds | src/storage/SimpleLRU.cpp:6-13 | unlinking the tail moves the tail to its predecessor, as delTail does; unlinking the head moves the head to its successor, which is the correction of the Findings row for src/storage/SimpleLRU.cpp:36-45 (delTail and eraseNode never move the head) |
| LruArena.UnlinkKeepsIndex | src/storage/SimpleLRU.cpp:45 | dropping the unlinked node's key from the index keeps index and list in step |
| LruArena.Unlink | src/storage/SimpleLRU.cpp:6-13 | unlinking the node at any position keeps the list well linked and indexed; the entries lose exactly that position and the total loses its bytes |
| LruArena.UnlinkRemoves | src/storage/SimpleLRU.cpp:36-50 | dropping the position of a live node is the same as removing its key |
| LruArena.Erase | src/storage/SimpleLRU.cpp:36-50 | unlinking the node indexed under key keeps the list well linked without key in the index; the entries are the old ones with key removed; the total falls by the entry's bytes |
| LruArena.PushKeepsNext | src/storage/SimpleLRU.cpp:26 | the new head links forward to the old head and old nodes keep their next links |
| LruArena.PushKeepsPrev | src/storage/SimpleLRU.cpp:25 | the old head links back to the new node and other nodes keep their prev links |
| LruArena.PushKeepsIndex | src/storage/SimpleLRU.cpp:31 | indexing the new key at the new node keeps index and list in step |
| LruArena.Push | src/storage/SimpleLRU.cpp:22-31 | linking a fresh node at the head keeps the list well linked and indexed; the new entry comes first and adds its bytes |
| LruArena.LiveKeysDistinct | src/storage/SimpleLRU.h:80-85 | since the index holds one node per key, the stored keys are unique |
| SimpleLru.SimpleLRU.Valid | src/storage/SimpleLRU.h:66-85 | the object invariant: list well linked and in step with the index, total exact, total within budget |
| SimpleLru.SimpleLRU.constructor | src/storage/SimpleLRU.h:20 | a new store is empty with total 0 and the given budget, 1024 by default |
| SimpleLru.SimpleLRU.IndexMatchesContents | src/storage/SimpleLRU.h:84-85 | a key is in the index exactly when a stored entry carries it, and then it names a live node |
| SimpleLru.SimpleLRU.ContentsDistinct | src/storage/SimpleLRU.h:82 | the stored keys are unique |
| SimpleLru.SimpleLRU.DelTail | src/storage/SimpleLRU.cpp:6-13 | the entries lose exactly the tail; the total stays exact and the list well formed, also when the last node goes |
| SimpleLru.SimpleLRU.EraseNode | src/storage/SimpleLRU.cpp:36-50 | the entries are the old ones with key removed; head and tail are patched when the node is an end; key leaves the index |
| SimpleLru.SimpleLRU.EvictOne | src/storage/SimpleLRU.cpp:18-19 | one turn of the eviction loop drops exactly the tail entry and leaves the outcome of evicting to the budget unchanged |
| SimpleLru.SimpleLRU.EvictFor | src/storage/SimpleLRU.cpp:16-20 | the loop leaves exactly the eviction of the old entries to the budget minus the new entry's bytes, and the total plus those bytes fits |
| SimpleLru.SimpleLRU.PutNewNode | src/storage/SimpleLRU.cpp:15-34 | the entries become the new pair at the head followed by the evicted old list; the new node is linked after eviction, so it is never evicted |
| SimpleLru.SimpleLRU.Put | src/storage/SimpleLRU.cpp:53-62 | answer and new entries are those of LruModel.Put on the old entries |
| SimpleLru.SimpleLRU.PutIfAbsent | src/storage/SimpleLRU.cpp:65-72 | answer and new entries are those of LruModel.PutIfAbsent on the old entries |
| SimpleLru.SimpleLRU.Set | src/storage/SimpleLRU.cpp:75-84 | answer and new entries are those of LruModel.Set on the old entries |
| SimpleLru.SimpleLRU.Delete | src/storage/SimpleLRU.cpp:87-94 | answer and new entries are those of LruModel.Delete on the old entries |
| SimpleLru.SimpleLRU.Get | src/storage/SimpleLRU.cpp:97-106 | found exactly when an entry carries the key, and the value is the one stored under it; on a miss the caller's string comes back unchanged; nothing in the store changes |
| LruAsWritten.DelTailAsWritten | src/storage/SimpleLRU.cpp:6-13 | the written delTail on links, index and total: None when the new tail is null; its properties are DelTailAsWrittenCases |
| LruAsWritten.DelTailAsWrittenCases | src/storage/SimpleLRU.cpp:6-13 | as written, delTail fails exactly on a one-node list, and on longer lists it unlinks the tail as the corrected delTail does |
| LruAsWritten.EvictAsWritten | src/storage/SimpleLRU.cpp:15-20 | as written, the eviction loop fails for every entry larger than the budget and whenever eviction must remove the last node; otherwise it leaves exactly the evicted list |
| LruAsWritten.EraseAsWritten | src/storage/SimpleLRU.cpp:36-47 | the written eraseNode on links, index and total: neighbours relinked, ends untouched; its properties are EraseAsWrittenCases |
| LruAsWritten.EraseAsWrittenCases | src/storage/SimpleLRU.cpp:36-45 | as written, eraseNode keeps the list well formed for an inner node, but after erasing the head or the tail no list order makes the store well formed |

## Left out

- The destructor (src/storage/SimpleLRU.h:22-32) frees nodes by hand. Dafny has no manual memory management, so there is nothing to model.
- `std::unique_ptr` ownership and raw `prev` pointers become slot numbers in an arena. A slot is never reused once its node is unlinked, so the model does not capture memory use or the freeing of nodes.
- The map's `std::reference_wrapper` keys and `std::less<std::string>` comparator become a Dafny `map<string, nat>`. The index order does not matter to any operation.
- `_cur_size` and `_max_size` are `std::size_t`. The model uses unbounded naturals; every subtraction in the code is of bytes that were counted in, so no wrap-around occurs on the corrected paths.
- `SimpleLru.SimpleLRU.Commit` is a modelling device: each method computes the new links, index and total and writes them back in one step. The source updates fields one statement at a time. Nothing reads the state in between, so the final state is the same.
- `SimpleLru.SimpleLRU.PutNewNode`: the source adds the new bytes to `_cur_size` before the eviction loop. The model tests `curSize + need > maxSize` in the loop and adds the bytes when it links the node, which is the same comparison.
- `SimpleLru.SimpleLRU.DelTail` returns nothing. The source declares a `bool` result but has no return statement. The value is never used.
- `SimpleLru.SimpleLRU.EraseNode` returns nothing. The source always returns true, and `Delete` passes that on, so the model's `Delete` returns true in that branch.
- `eraseNode` reads the erased entry's sizes through the iterator after `_lru_index.erase(it)` (src/storage/SimpleLRU.cpp:45-47). That is undefined behaviour. The model reads the sizes before the key leaves the index.
- The constructor leaves `_lru_tail` uninitialised (src/storage/SimpleLRU.h:20). The model starts with head and tail both `NIL`.
- Keys and values are Dafny strings, one `char` per byte of the `std::string`. The byte total, the refusal point and the eviction points are exact for that reading. A string whose characters take several bytes each is not modelled.
- `LruAsWritten.EvictAsWritten` works on the stored entries, not on the links. It fails where the written `delTail` fails: on one node, as `LruAsWritten.DelTailAsWrittenCases` proves on the links, and on an empty list, whose tail pointer names no node. It does not model which undefined behaviour follows.
- `LruAsWritten.EraseAsWritten` reads the erased entry's bytes from the node. The source reads them through an iterator it has just erased (src/storage/SimpleLRU.cpp:45-47).
- The `Afina::Storage` base interface, logging, and the network server that uses the store are not part of this model. The store is not thread safe (src/storage/SimpleLRU.h:16), and the model is sequential.
- `SimpleLru.SimpleLRU.DelTail`, `EraseNode`, `EvictFor` and `PutNewNode` state the new abstract entries and `Valid()`, not the individual link fields. The links are fixed by the ghost list order through `Arena`.

## Findings

| source | as written | input that shows it | evidently intended | confidence | as-written member | corrected member |
|---|---|---|---|---|---|---|
| src/storage/SimpleLRU.cpp:11-12 | delTail moves the tail to the old tail's prev and then clears that node's next link; on a one-node list the new tail is null and is dereferenced | budget 10 holding only a→bbbb (5 bytes), then Put(c, dddddd) (7 bytes): eviction must drop the only node | removing the last node leaves an empty list, with head and tail null | not executed | LruAsWritten.DelTailAsWrittenCases | SimpleLru.SimpleLRU.DelTail |
| src/storage/SimpleLRU.cpp:15-20 | putNewNode charges the new entry and evicts while over budget with no check that the entry fits alone; once the list is empty, delTail reads through the null tail | budget 4 and Put(ab, cde) (5 bytes): on a non-empty store the last delTail writes through a null tail; on a fresh store delTail reads the uninitialised tail | an entry larger than the whole budget is refused: false, nothing changed | not executed | LruAsWritten.EvictAsWritten | LruModel.PutCorrect |
| src/storage/SimpleLRU.cpp:36-45 | eraseNode relinks the neighbours but never moves `_lru_head` or `_lru_tail`; erasing an end leaves it naming the erased node | Put(a, 1), Put(b, 2), Delete(b): the head still names b's node, whose key is no longer indexed | erasing the head or tail moves that end to the node's neighbour | not executed | LruAsWritten.EraseAsWrittenCases | SimpleLru.SimpleLRU.EraseNode |
