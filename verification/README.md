# Redis core data structures in Dafny

This project models six pieces of the Redis 2.9 server and proves their
contracts in Dafny 4.11.

- **Dictionary** (`dict.c`). A chained hash table with two bucket tables,
  `ht[0]` and `ht[1]`, and a rehash cursor `rehashidx`. Growing installs a
  larger `ht[1]`. Entries then migrate one bucket at a time, piggy-backed on
  adds, finds and deletes. The model is the class `Dict.Dict`. Its two tables
  are sequences of chains, and the ghost function `Contents()` is the union of
  the key/value maps the two tables hold. `Valid()` states the dictionary
  invariant:
  - each table size is 0, a power of two or `LONG_MAX`, with `sizemask = size - 1`;
  - every entry sits in the slot its hash selects;
  - no key is in both tables;
  - `used` counts the chain entries;
  - `rehashidx != -1` exactly when `ht[1]` is allocated;
  - slots of `ht[0]` below `rehashidx` are empty.

  `Dict.DictIterator` is the safe and unsafe iterator. Its ghost `Pending()`
  is the sequence of entries still to be returned.
- **Doubly linked list** (`adlist.c`). `AdList.List` holds real `Node`
  objects with `prev`/`next` pointers, `head`, `tail` and `len`. The ghost
  sequences `Nodes` and `Values` give the list order. `AdList.ListIter` is
  `listIter`.
- **Publish/subscribe registry** (`pubsub.c`). `PubSub.Registry` keeps four
  indexes:
  - each client's channel set;
  - the server's channel → subscriber list;
  - each client's pattern list;
  - the server's list of (client, pattern) pairs.

  `Valid()` states that the two channel indexes agree and that the two
  pattern indexes agree.
- **MULTI/EXEC/WATCH** (`multi.c`). `Multi.Transactions` holds:
  - the client flag words, with `REDIS_MULTI` and `REDIS_DIRTY_CAS` as bits of a `bv32`;
  - the per-client command queues;
  - the per-client watched `(key, db)` lists;
  - the per-key watcher lists;
  - the server's `dirty` counter.

  `Valid()` states that the two watch indexes agree.
- **Slow log** (`slowlog.c`, `slowlog.h`). `SlowLog.Log` is the bounded
  newest-first list of entries, with the next entry id and the two
  configuration values. Arguments and the "more arguments" / "more bytes"
  notes are text values.
- **Event loop bookkeeping** (`ae.c`). `Ae.EventLoop` has:
  - the file-event array of `setsize` slots, with its mask table;
  - `maxfd`;
  - the timer list, newest first;
  - `timeEventNextId`.

Hash functions, match callbacks, the clock and the OS polling backend are
parameters of the operations that use them.

The file `common.dfy` holds shared helpers:
- `Option`;
- `NoDup`;
- `RemoveFirst`, which models deleting the first list node equal to a value
  (`listSearchKey` followed by `listDelNode`).

## Model

| member | source | states |
|---|---|---|
| DictTable.Slot | dict.c_and_dict.h_redis_2.9.5_79642420/dict.c:262 | the bucket index selected by a hash lies within the table (at most `sizemask`) |
| DictTable.MaskIsRemainder | dict.c_and_dict.h_redis_2.9.5_79642420/dict.c:262 | for a power-of-two size, `h & (size - 1)` computed bit by bit equals the slot the model uses, `h % size` |
| DictTable.NextPower | dict.c_and_dict.h_redis_2.9.5_79642420/dict.c:770-780 | the chosen size is at least DICT_HT_INITIAL_SIZE, and it is capped at `LONG_MAX` once the request reaches it |
| DictTable.NextPowerFromIsLeast | dict.c_and_dict.h_redis_2.9.5_79642420/dict.c:776-779 | the doubling loop started at a power of two ends on a power of two that is at least the request and whose half is below it (unless no doubling happened) |
| DictTable.NextPowerIsLeast | dict.c_and_dict.h_redis_2.9.5_79642420/dict.c:770-780 | below `LONG_MAX` the result is the least power of two that is at least both the request and DICT_HT_INITIAL_SIZE |
| DictTable.NextPowerAllowed | dict.c_and_dict.h_redis_2.9.5_79642420/dict.c:770-780 | every size `_dictNextPower` returns is positive and is a power of two or `LONG_MAX`, the sizes the table invariant admits |
| Dict.FindInChain | dict.c_and_dict.h_redis_2.9.5_79642420/dict.c:580-584 | the chain walk returns the position of the entry holding the key, or -1 exactly when no entry of the chain has it |
| Dict.MigrateChain | dict.c_and_dict.h_redis_2.9.5_79642420/dict.c:256-270 | moving a chain entry by entry into the new table adds exactly the chain's mapping to it, adds the chain's length to its count and keeps every entry in its own slot |
| Dict.SkipEmpty | dict.c_and_dict.h_redis_2.9.5_79642420/dict.c:250-251 | the cursor stops at the first non-empty slot at or after its start, and every slot it skipped is empty |
| Dict.Dict.Size | dict.c_and_dict.h_redis_2.9.5_79642420/dict.c:129-135 | `ht[0].used + ht[1].used` is the number of keys in the dictionary |
| Dict.Dict.constructor | dict.c_and_dict.h_redis_2.9.5_79642420/dict.c:138-158 | a new dictionary is valid and empty, with both tables reset, `rehashidx == -1` and no iterators |
| Dict.Dict.IsRehashing | dict.c_and_dict.h_redis_2.9.5_79642420/dict.c:371 | in a valid dictionary, rehashing is in progress exactly when `ht[1]` has slots, so new entries go to `ht[1]` then |
| Dict.Dict.Expand | dict.c_and_dict.h_redis_2.9.5_79642420/dict.c:187-214 | fails with no change when rehashing or when `size < ht[0].used`. Otherwise it allocates a table of `_dictNextPower(size)` empty slots: as `ht[0]` on first use, else as `ht[1]` with `rehashidx = 0`. The mapping is unchanged |
| Dict.Dict.Resize | dict.c_and_dict.h_redis_2.9.5_79642420/dict.c:164-176 | fails when resizing is disabled or a rehash is running. Otherwise it expands to the size fitting `max(used, DICT_HT_INITIAL_SIZE)` and keeps the mapping |
| Dict.Dict.ExpandIfNeeded | dict.c_and_dict.h_redis_2.9.5_79642420/dict.c:732-757 | does nothing while rehashing. An empty table gets the initial size. A table with `used >= size` and either resizing allowed or `used/size > 5` starts a rehash into `_dictNextPower(2*used)`. Otherwise nothing changes |
| Dict.Dict.RehashBucket | dict.c_and_dict.h_redis_2.9.5_79642420/dict.c:245-273 | one step moves a whole non-empty `ht[0]` bucket into `ht[1]`. It keeps the mapping and `ht[0].used + ht[1].used`, lowers `ht[0].used` and advances `rehashidx` |
| Dict.Dict.FinishRehash | dict.c_and_dict.h_redis_2.9.5_79642420/dict.c:234-243 | once `ht[0]` is empty, `ht[1]` becomes `ht[0]`, `ht[1]` is reset and `rehashidx` returns to -1, with the mapping unchanged |
| Dict.Dict.Rehash | dict.c_and_dict.h_redis_2.9.5_79642420/dict.c:226-277 | returns 0 exactly when no rehash is left running (and changes nothing if none was running). Returning 1 means n buckets moved. The mapping and total count are preserved |
| Dict.Dict.RehashMilliseconds | dict.c_and_dict.h_redis_2.9.5_79642420/dict.c:295-304 | counts rehash steps in hundreds and keeps the mapping. If rehashing is still unfinished, at least one batch ran and the clock moved past `ms` |
| Dict.Dict.RehashStep | dict.c_and_dict.h_redis_2.9.5_79642420/dict.c:312-314 | the amortised step changes nothing while a safe iterator is live, and never changes the mapping or total count |
| Dict.Dict.KeyIndex | dict.c_and_dict.h_redis_2.9.5_79642420/dict.c:788-810 | returns -1 exactly when the key is present. Otherwise it returns the key's slot in the table new keys go to: `ht[1]` while rehashing, else `ht[0]` |
| Dict.Dict.AddRaw | dict.c_and_dict.h_redis_2.9.5_79642420/dict.c:354-382 | fails with the mapping unchanged exactly when the key is present. Otherwise it binds the key and returns an entry at the head of its chain, in `ht[1]` while rehashing |
| Dict.Dict.Link | dict.c_and_dict.h_redis_2.9.5_79642420/dict.c:371-376 | prepending a new entry to its slot in the current insertion table binds exactly that key and keeps the invariant |
| Dict.Dict.Add | dict.c_and_dict.h_redis_2.9.5_79642420/dict.c:330-337 | succeeds exactly when the key was absent, and then binds it to `val`; otherwise the mapping is unchanged. During a rehash the new key lands in `ht[1]` |
| Dict.Dict.Lookup | dict.c_and_dict.h_redis_2.9.5_79642420/dict.c:576-587 | with `ht[0]` allocated, the search of both live tables finds an entry exactly when the key is present, holding its value |
| Dict.Dict.Find | dict.c_and_dict.h_redis_2.9.5_79642420/dict.c:563-590 | finds the entry exactly when the key is in the dictionary and does nothing on an unallocated dictionary. It never changes the mapping |
| Dict.Dict.FetchValue | dict.c_and_dict.h_redis_2.9.5_79642420/dict.c:596-601 | returns the key's value if present, else nothing |
| Dict.Dict.SetVal | dict.c_and_dict.h_redis_2.9.5_79642420/dict.c:406-408 | overwriting a found entry's value rebinds exactly that key |
| Dict.Dict.Replace | dict.c_and_dict.h_redis_2.9.5_79642420/dict.c:396-411 | returns 1 exactly when the key was new. Afterwards the key maps to `val` and nothing else changed |
| Dict.Dict.ReplaceRaw | dict.c_and_dict.h_redis_2.9.5_79642420/dict.c:419-423 | returns the entry holding the key. It adds the key with the given value only if absent, and otherwise leaves the mapping alone |
| Dict.Dict.Unlink | dict.c_and_dict.h_redis_2.9.5_79642420/dict.c:460-472 | removing one chain entry deletes exactly its key from the mapping and keeps the invariant |
| Dict.Dict.Delete | dict.c_and_dict.h_redis_2.9.5_79642420/dict.c:436-488 | succeeds exactly when the key was present, and afterwards the key is gone and nothing else changed. An unallocated dictionary is left untouched |
| Dict.Dict.GetRandomKey | dict.c_and_dict.h_redis_2.9.5_79642420/dict.c:692-727 | returns nothing exactly when the dictionary is empty, and otherwise a live key with its value |
| Dict.Dict.Empty | dict.c_and_dict.h_redis_2.9.5_79642420/dict.c:821-826 | clearing both tables leaves a valid empty dictionary with the tables reset, `rehashidx == -1` and no iterators |
| Dict.Dict.EntriesAreContents | dict.c_and_dict.h_redis_2.9.5_79642420/dict.c:637-680 | the iteration order (`ht[0]` slot by slot, then `ht[1]`) lists each key of the mapping exactly once with its value |
| Dict.DictIterator.constructor | dict.c_and_dict.h_redis_2.9.5_79642420/dict.c:614-634 | a new iterator, safe or not, has every entry of the dictionary still pending, in iteration order |
| Dict.DictIterator.Next | dict.c_and_dict.h_redis_2.9.5_79642420/dict.c:637-680 | returns the first pending entry and removes it from the pending sequence, or nothing once none is left. A safe iterator raises `iterators` on its first call |
| Dict.DictIterator.NextSlot | dict.c_and_dict.h_redis_2.9.5_79642420/dict.c:641-665 | moves to the next slot (from `ht[0]` into `ht[1]` while rehashing) and picks up its chain, or reports the end when nothing is left |
| Dict.DictIterator.Release | dict.c_and_dict.h_redis_2.9.5_79642420/dict.c:683-688 | a safe iterator that has started gives back its `iterators` count |
| AdList.Node.constructor | adlist.c_and_adlist.h_redis_2.9.5_c9d3dda2/adlist.c:106-109 | a new node carries the value and is not linked |
| AdList.List.constructor | adlist.c_and_adlist.h_redis_2.9.5_c9d3dda2/adlist.c:50-64 | a new list is valid and empty, with no dup or match method |
| AdList.List.AddNodeHead | adlist.c_and_adlist.h_redis_2.9.5_c9d3dda2/adlist.c:102-126 | the value becomes the first element of a fresh node, the rest of the list is unchanged and the list stays valid (head, tail, len and links) |
| AdList.List.AddNodeTail | adlist.c_and_adlist.h_redis_2.9.5_c9d3dda2/adlist.c:139-162 | the value becomes the last element of a fresh node, the rest of the list is unchanged and the list stays valid |
| AdList.List.Splice | adlist.c_and_adlist.h_redis_2.9.5_c9d3dda2/adlist.c:175-199 | the relinking of `listInsertNode`: the new node points at its two neighbours, they point back, and head/tail move only when it lands at an end |
| AdList.List.SpliceKeepsValid | adlist.c_and_adlist.h_redis_2.9.5_c9d3dda2/adlist.c:175-202 | after that relinking, with `len` raised, the list is valid again with the node at its new position |
| AdList.List.Place | adlist.c_and_adlist.h_redis_2.9.5_c9d3dda2/adlist.c:175-202 | linking a node next to the node at position `i` inserts it in the list order right after (or before) that node |
| AdList.List.InsertNode | adlist.c_and_adlist.h_redis_2.9.5_c9d3dda2/adlist.c:167-205 | the value is inserted immediately after `old_node` (or before it) in a fresh node, the other elements keep their order, and the list stays valid |
| AdList.List.Unlink | adlist.c_and_adlist.h_redis_2.9.5_c9d3dda2/adlist.c:218-228 | the relinking of `listDelNode`: the neighbours of the node point at each other, and head/tail move when it was an end |
| AdList.List.UnlinkKeepsValid | adlist.c_and_adlist.h_redis_2.9.5_c9d3dda2/adlist.c:218-234 | after that relinking, with `len` lowered, the list is valid without the node |
| AdList.List.DelNode | adlist.c_and_adlist.h_redis_2.9.5_c9d3dda2/adlist.c:216-235 | exactly that node and its value leave the list, the rest keeps its order and the list stays valid |
| AdList.List.Rotate | adlist.c_and_adlist.h_redis_2.9.5_c9d3dda2/adlist.c:442-457 | a list of length at most 1 is unchanged; otherwise the last element moves to the front and the rest keeps its order |
| AdList.List.RotateKeepsValid | adlist.c_and_adlist.h_redis_2.9.5_c9d3dda2/adlist.c:448-456 | the four pointer writes of the rotation leave a valid list |
| AdList.List.SearchKey | adlist.c_and_adlist.h_redis_2.9.5_c9d3dda2/adlist.c:389-414 | returns the first node from the head whose value matches the key, or null when none does |
| AdList.FirstMatch | adlist.c_and_adlist.h_redis_2.9.5_c9d3dda2/adlist.c:395-410 | the first matching position (via `match` if set, else equality), with no match before it |
| AdList.List.Index | adlist.c_and_adlist.h_redis_2.9.5_c9d3dda2/adlist.c:423-438 | returns the node at the position the index designates (from the head if non-negative, from the tail if negative), or null when out of range |
| AdList.PositionFromEitherEnd | adlist.c_and_adlist.h_redis_2.9.5_c9d3dda2/adlist.c:423-438 | index `k` and index `k - len` both designate position `k`; `len` and `-len - 1` are out of range |
| AdList.List.CopyValue | adlist.c_and_adlist.h_redis_2.9.5_c9d3dda2/adlist.c:352-362 | a value is copied with `dup` if set (which may fail) and shared otherwise |
| AdList.DupValues | adlist.c_and_adlist.h_redis_2.9.5_c9d3dda2/adlist.c:334-376 | copying all values succeeds exactly when every single copy does, and then yields the copies in order |
| AdList.DupWithoutMethod | adlist.c_and_adlist.h_redis_2.9.5_c9d3dda2/adlist.c:361-362 | without a dup method the copy holds the very same values |
| AdList.List.Dup | adlist.c_and_adlist.h_redis_2.9.5_c9d3dda2/adlist.c:334-376 | returns null when a copy fails; otherwise a fresh valid list of fresh nodes with the copied values in the same order and the same methods. The original is not modified |
| AdList.ListIter.constructor | adlist.c_and_adlist.h_redis_2.9.5_c9d3dda2/adlist.c:248-263 | a new iterator has the whole list pending, head to tail or tail to head by direction |
| AdList.ListIter.Rewind | adlist.c_and_adlist.h_redis_2.9.5_c9d3dda2/adlist.c:272-275 | after rewinding, the nodes pending are the list head to tail |
| AdList.ListIter.RewindTail | adlist.c_and_adlist.h_redis_2.9.5_c9d3dda2/adlist.c:278-281 | after rewinding at the tail, the nodes pending are the list tail to head |
| AdList.ListIter.Next | adlist.c_and_adlist.h_redis_2.9.5_c9d3dda2/adlist.c:310-322 | returns the first pending node and leaves the rest pending, or null when none is left |
| AdList.RestStep | adlist.c_and_adlist.h_redis_2.9.5_c9d3dda2/adlist.c:310-322 | the traversal from a node is that node followed by the traversal from its successor in the chosen direction |
| AdList.DeleteReturnedKeepsRest | adlist.c_and_adlist.h_redis_2.9.5_c9d3dda2/adlist.c:284-285 | deleting the node just returned leaves the rest of the traversal unchanged |
| PubSub.CountMatching | pubsub.c_redis_2.9.7_b62bdf1c/pubsub.c:274-293 | the number of pattern pairs whose pattern matches the channel is at most the number of pairs |
| PubSub.ListenersAreSubscribers | pubsub.c_redis_2.9.7_b62bdf1c/pubsub.c:254-271 | with the indexes in agreement, the length of a channel's server list is the number of clients subscribed to it |
| PubSub.SubscribeKeepsAgreement | pubsub.c_redis_2.9.7_b62bdf1c/pubsub.c:57-78 | adding the channel to the client and the client to the channel's list keeps the two channel indexes in agreement |
| PubSub.UnsubscribeKeepsAgreement | pubsub.c_redis_2.9.7_b62bdf1c/pubsub.c:106-123 | removing both sides, and dropping an emptied server entry, keeps the two channel indexes in agreement |
| PubSub.SubscribePatternKeepsAgreement | pubsub.c_redis_2.9.7_b62bdf1c/pubsub.c:149-163 | appending the pattern to the client and the (client, pattern) pair to the server list keeps the pattern indexes in agreement |
| PubSub.UnsubscribePatternKeepsAgreement | pubsub.c_redis_2.9.7_b62bdf1c/pubsub.c:184-193 | removing the pattern from the client and the first equal pair from the server list keeps the pattern indexes in agreement |
| PubSub.Registry.SubscribeChannel | pubsub.c_redis_2.9.7_b62bdf1c/pubsub.c:49-89 | returns 1 exactly when the client lacked the channel. It then adds the channel to the client and appends the client to the channel's list, creating the list on first use. Otherwise it returns 0 with nothing changed |
| PubSub.Registry.UnsubscribeChannel | pubsub.c_redis_2.9.7_b62bdf1c/pubsub.c:95-139 | returns 1 exactly when the client had the channel. It removes both sides and deletes the server entry once its list is empty; nothing else changes |
| PubSub.Registry.SubscribePattern | pubsub.c_redis_2.9.7_b62bdf1c/pubsub.c:144-173 | returns 1 exactly when the client lacked the pattern, then appends it to the client list and the pair to the server list. Otherwise it returns 0 with nothing changed |
| PubSub.Registry.UnsubscribePattern | pubsub.c_redis_2.9.7_b62bdf1c/pubsub.c:177-208 | returns 1 exactly when the client had the pattern, and removes it from the client list and the matching pair from the server list |
| PubSub.Registry.UnsubscribeAllChannels | pubsub.c_redis_2.9.7_b62bdf1c/pubsub.c:213-225 | returns the number of channels the client had. Afterwards it has none and it is gone from every channel's list; other clients are unchanged |
| PubSub.Registry.UnsubscribeAllPatterns | pubsub.c_redis_2.9.7_b62bdf1c/pubsub.c:230-242 | returns the number of patterns the client had. Afterwards it has none and no server pair names it; the other pairs are kept |
| PubSub.Registry.PublishMessage | pubsub.c_redis_2.9.7_b62bdf1c/pubsub.c:246-297 | the receiver count is the number of channel subscribers plus the number of pattern pairs matching the channel |
| Multi.WithMulti | multi.c_2.9.7_a2db8e48/multi.c:93 | setting REDIS_MULTI leaves every other flag bit unchanged |
| Multi.WithoutTransaction | multi.c_2.9.7_a2db8e48/multi.c:101 | clearing REDIS_MULTI and REDIS_DIRTY_CAS leaves every other flag bit unchanged |
| Multi.WithoutDirtyCas | multi.c_2.9.7_a2db8e48/multi.c:381 | clearing REDIS_DIRTY_CAS leaves every other flag bit unchanged |
| Multi.WithDirtyCas | multi.c_2.9.7_a2db8e48/multi.c:333 | setting REDIS_DIRTY_CAS leaves every other flag bit unchanged |
| Multi.WatchAllContents | multi.c_2.9.7_a2db8e48/multi.c:367-377 | after WATCH the client watches exactly its earlier keys plus the given keys in its db |
| Multi.WatchAllExtends | multi.c_2.9.7_a2db8e48/multi.c:269-273 | watching only appends to the client's list and never creates a duplicate |
| Multi.WatchAllIdempotent | multi.c_2.9.7_a2db8e48/multi.c:245-250 | watching the same keys twice is the same as watching them once |
| Multi.WatchAllUnchanged | multi.c_2.9.7_a2db8e48/multi.c:245-250 | watching keys the client already watches changes nothing |
| Multi.WatchAllSnoc | multi.c_2.9.7_a2db8e48/multi.c:374-375 | WATCH over a key list is watching each key in turn |
| Multi.WatchKeepsAgreement | multi.c_2.9.7_a2db8e48/multi.c:254-273 | adding a new watch to both the key's watcher list and the client's list keeps the two indexes in agreement |
| Multi.UnwatchKeepsAgreement | multi.c_2.9.7_a2db8e48/multi.c:295-308 | removing the client's first watch from both sides (dropping an emptied key entry) keeps the indexes in agreement |
| Multi.Transactions.constructor | multi.c_2.9.7_a2db8e48/multi.c:36-39 | the initial state has no flags, no queued commands and no watches |
| Multi.Transactions.QueueMultiCommand | multi.c_2.9.7_a2db8e48/multi.c:63-82 | the command is appended to the client's queue and everything else is unchanged |
| Multi.Transactions.MultiCommand | multi.c_2.9.7_a2db8e48/multi.c:85-95 | inside MULTI it is an error with flags unchanged; otherwise REDIS_MULTI is set on that client only |
| Multi.Transactions.UnwatchFirst | multi.c_2.9.7_a2db8e48/multi.c:295-308 | one loop step drops the client's first watched key from its list and the client from that key's watchers |
| Multi.Transactions.UnwatchAllKeys | multi.c_2.9.7_a2db8e48/multi.c:280-312 | afterwards the client watches nothing and is gone from every key's watcher list; other clients keep their watches |
| Multi.Transactions.WatchForKey | multi.c_2.9.7_a2db8e48/multi.c:236-274 | a key already watched changes nothing. Otherwise the client is appended to the key's watchers and the key to the client's list |
| Multi.Transactions.WatchCommand | multi.c_2.9.7_a2db8e48/multi.c:367-377 | inside MULTI it is an error with no watch added; otherwise the client watches each key in turn |
| Multi.Transactions.UnwatchCommand | multi.c_2.9.7_a2db8e48/multi.c:379-383 | afterwards the client watches nothing and REDIS_DIRTY_CAS is cleared |
| Multi.Transactions.DiscardTransaction | multi.c_2.9.7_a2db8e48/multi.c:98-103 | the queue is emptied, REDIS_MULTI and REDIS_DIRTY_CAS are cleared and no key stays watched; other clients are untouched |
| Multi.Transactions.DiscardCommand | multi.c_2.9.7_a2db8e48/multi.c:106-115 | DISCARD without MULTI is an error with nothing changed; otherwise it discards the transaction |
| Multi.Transactions.ExecCommand | multi.c_2.9.7_a2db8e48/multi.c:136-206 | EXEC without MULTI is an error with nothing changed. With REDIS_DIRTY_CAS nothing runs. Otherwise the queued commands run in queue order and `dirty` rises by one. Either way the queue is emptied, both flags are cleared and all keys are unwatched |
| Multi.Transactions.TouchWatchedKey | multi.c_2.9.7_a2db8e48/multi.c:318-335 | REDIS_DIRTY_CAS is set on exactly the clients watching that key in that db, and nothing else changes |
| Multi.Transactions.TouchClientOnFlush | multi.c_2.9.7_a2db8e48/multi.c:352-363 | one client is marked exactly when it watches a key that exists in the flushed db (any db for -1) |
| Multi.Transactions.TouchWatchedKeysOnFlush | multi.c_2.9.7_a2db8e48/multi.c:344-365 | REDIS_DIRTY_CAS is set on exactly the clients watching an existing key in the flushed db (any db when `dbid == -1`), and nothing else changes |
| SlowLog.DigitChar | slowlog.c_slowlog.h_redis_2.9.7_b62bdf1c/slowlog.c:37-38 | a digit is written as the character of its value |
| SlowLog.DecimalString | slowlog.c_slowlog.h_redis_2.9.7_b62bdf1c/slowlog.c:37-38 | the printed count is a non-empty string of decimal digits |
| SlowLog.DecimalRoundTrip | slowlog.c_slowlog.h_redis_2.9.7_b62bdf1c/slowlog.c:47-49 | reading the printed count back gives the count |
| SlowLog.TrimArg | slowlog.c_slowlog.h_redis_2.9.7_b62bdf1c/slowlog.c:40-54 | only raw strings longer than SLOWLOG_ENTRY_MAX_STRING change; every other argument is kept as is |
| SlowLog.TrimArgRecoversLength | slowlog.c_slowlog.h_redis_2.9.7_b62bdf1c/slowlog.c:43-49 | a trimmed argument is its first 128 characters followed by "... (M more bytes)", and 128 + M is the original length |
| SlowLog.StoredArgc | slowlog.c_slowlog.h_redis_2.9.7_b62bdf1c/slowlog.c:28 | the stored argument count is `min(argc, SLOWLOG_ENTRY_MAX_ARGC)` |
| SlowLog.StoredArg | slowlog.c_slowlog.h_redis_2.9.7_b62bdf1c/slowlog.c:35-54 | an argument in a kept slot keeps its kind, and non-string objects are stored unchanged; with more than 32 arguments the last slot is the note "... (N more arguments)" with `N = argc - 31` |
| SlowLog.StoredArgs | slowlog.c_slowlog.h_redis_2.9.7_b62bdf1c/slowlog.c:28-56 | the stored arguments are the capped count of slots, each filled by the per-slot rule |
| SlowLog.StoredArgsTruncated | slowlog.c_slowlog.h_redis_2.9.7_b62bdf1c/slowlog.c:28-38 | with more than 32 arguments, 32 are stored: the first 31 trimmed, the last "... (N more arguments)" with `N + 31 == argc` |
| SlowLog.StoredArgsComplete | slowlog.c_slowlog.h_redis_2.9.7_b62bdf1c/slowlog.c:28-54 | with at most 32 arguments every one is stored, trimmed |
| SlowLog.GetSelection | slowlog.c_slowlog.h_redis_2.9.7_b62bdf1c/slowlog.c:131-156 | the reply is a prefix of the log, newest first, of length `count` when `0 <= count <= len`, and the whole log otherwise |
| SlowLog.Log.constructor | slowlog.c_slowlog.h_redis_2.9.7_b62bdf1c/slowlog.c:85-89 | a new log is empty with entry id 0 |
| SlowLog.Log.CreateEntry | slowlog.c_slowlog.h_redis_2.9.7_b62bdf1c/slowlog.c:23-63 | the entry holds the stored arguments, the duration, the time and the current id, which is then incremented |
| SlowLog.Log.PushEntryIfNeeded | slowlog.c_slowlog.h_redis_2.9.7_b62bdf1c/slowlog.c:96-106 | disabled (negative threshold) means nothing changes. Otherwise a new entry is pushed at the head exactly when `duration >= threshold`, and the oldest entries are dropped until at most `max_len` remain. Ids stay strictly decreasing from the head |
| SlowLog.Log.Reset | slowlog.c_slowlog.h_redis_2.9.7_b62bdf1c/slowlog.c:110-113 | the log is empty and the id counter is kept |
| SlowLog.Log.Get | slowlog.c_slowlog.h_redis_2.9.7_b62bdf1c/slowlog.c:141-155 | the entries sent are the GET selection of the log |
| SlowLog.Log.Command | slowlog.c_slowlog.h_redis_2.9.7_b62bdf1c/slowlog.c:118-161 | RESET empties the log; LEN replies with its length; GET replies with the selection for the given count (10 by default) or a not-an-integer error. Anything else is the unknown-subcommand error |
| Ae.CDiv | ae.c_ae.h_ae_epoll.c_redis_2.9.7_03f412dd/ae.c:187 | C's `/` truncates toward zero: for `a >= 0` the quotient is the floor of `a/b`, for `a < 0` the ceiling, rounding toward zero in both cases |
| Ae.CMod | ae.c_ae.h_ae_epoll.c_redis_2.9.7_03f412dd/ae.c:187-188 | C's truncating `/` and `%` satisfy `q*b + r == a`, with the remainder taking the sign of `a` |
| Ae.AddMillisecondsToNow | ae.c_ae.h_ae_epoll.c_redis_2.9.7_03f412dd/ae.c:179-200 | the deadline, read as milliseconds, is now plus `milliseconds`. With `now_ms` in [0,1000) and `milliseconds >= 0`, `when_ms` is in [0,1000) |
| Ae.HighestSet | ae.c_ae.h_ae_epoll.c_redis_2.9.7_03f412dd/ae.c:153-155 | the downward scan stops below its start, at -1 at the lowest |
| Ae.HighestSetIsHighest | ae.c_ae.h_ae_epoll.c_redis_2.9.7_03f412dd/ae.c:153-155 | the scan result is an fd with a non-empty mask (or -1), and every fd between it and the start has an empty mask |
| Ae.Register | ae.c_ae.h_ae_epoll.c_redis_2.9.7_03f412dd/ae.c:122-128 | the mask gains the new bits; the read and write handlers are set exactly for the bits given; the client data is replaced |
| Ae.EventLoop.constructor | ae.c_ae.h_ae_epoll.c_redis_2.9.7_03f412dd/ae.c:63-95 | a fresh loop has `setsize` slots, all with mask AE_NONE, `maxfd == -1`, no timers and timer id 0 |
| Ae.EventLoop.CreateFileEvent | ae.c_ae.h_ae_epoll.c_redis_2.9.7_03f412dd/ae.c:111-135 | an fd beyond `setsize` or a failed backend add gives AE_ERR with nothing changed. Otherwise the mask is ORed in and `maxfd` becomes `max(maxfd, fd)`. Other fds are untouched |
| Ae.EventLoop.DeleteFileEvent | ae.c_ae.h_ae_epoll.c_redis_2.9.7_03f412dd/ae.c:138-158 | only the given bits are cleared, and nothing happens for an unused fd. When `fd == maxfd` and its mask empties, `maxfd` becomes the highest fd still in use (or -1), so an exact `maxfd` stays exact |
| Ae.EventLoop.GetFileEvents | ae.c_ae.h_ae_epoll.c_redis_2.9.7_03f412dd/ae.c:161-166 | returns the fd's mask, AE_NONE when out of range or above `maxfd` |
| Ae.EventLoop.CreateTimeEvent | ae.c_ae.h_ae_epoll.c_redis_2.9.7_03f412dd/ae.c:203-226 | returns the old `timeEventNextId`, which no timer carries yet. It increments the counter and pushes the timer at the head with its deadline |
| Ae.EventLoop.DeleteTimeEvent | ae.c_ae.h_ae_epoll.c_redis_2.9.7_03f412dd/ae.c:229-251 | AE_OK exactly when a timer has the id; it is then removed and the rest keep their order. Otherwise AE_ERR with the list unchanged |
| Ae.RemoveKeepsDecreasing | ae.c_ae.h_ae_epoll.c_redis_2.9.7_03f412dd/ae.c:237-241 | removing a timer keeps ids strictly decreasing from the head, so the removed id occurs nowhere else |
| Ae.EventLoop.SearchNearestTimer | ae.c_ae.h_ae_epoll.c_redis_2.9.7_03f412dd/ae.c:265-279 | nothing for an empty list. Otherwise a timer whose `(when_sec, when_ms)` is lexicographically minimal, the first such from the head |

## Left out

- Memory management is not modelled: zmalloc/zfree, reference counts, the
  free callbacks of dicts and lists, `listRelease`, `dictRelease`,
  `slowlogFreeEntry`, `freeClientMultiState`, `freePubsubPattern`,
  `aeDeleteEventLoop`. Allocation never fails.
- The concrete hash functions of dict.c:79-124 are not modelled; the hash is
  an arbitrary total function `K -> nat` fixed per dictionary. Key comparison
  is Dafny equality, and the type's dup/free callbacks are left out.
- DictTable.Slot: the bucket index `hash & sizemask` is written as
  `hash % size`. `DictTable.MaskIsRemainder` proves the two agree for every
  power-of-two size. For a `LONG_MAX`-sized table they differ
  (`hash & (LONG_MAX - 1)` against `hash % LONG_MAX`), and the model uses the
  remainder there too.
- Dict.Dict: the bucket arrays are sequences of chains, reassigned whole, and a
  `dictEntry *` is an `EntryRef(table, slot, position)`. Sharing of entry
  objects between callers is not modelled.
- Dict.Dict.AddRaw takes the value, since entries are values; `dictAddRaw`
  followed by `dictSetVal` is one call.
- Dict.Dict.GetRandomKey: `random()` is replaced by a nondeterministic choice of a
  non-empty slot and of a position in its chain. Only "empty iff nothing returned,
  otherwise a live entry" is proved, nothing about the distribution.
- Dict.Dict.RehashMilliseconds takes the clock `timeInMilliseconds` as a
  function parameter; `timeInMilliseconds` itself is not modelled.
- `dictPrintStats`, `dictEnableResize`/`dictDisableResize` (the global switch
  is a parameter) and the `#if 0` example types are not modelled.
- `_dictNextPower`'s `LONG_MAX` branch is modelled as written: a request of
  `LONG_MAX` or more yields a `LONG_MAX`-sized table, which is not a power of
  two. The size invariant therefore reads "0, a power of two, or `LONG_MAX`".
- AdList: `listGetIterator`'s heap allocation and `listReleaseIterator` are
  folded into the `ListIter` constructor. The list's `free` method is not
  modelled.
- PubSub: the SUBSCRIBE/UNSUBSCRIBE/PSUBSCRIBE/PUNSUBSCRIBE/PUBLISH command
  wrappers, all replies and notifications, and the delivery of messages to
  clients are not modelled. `stringmatchlen` is a parameter `matches`.
- PubSub.Registry.constructor: creating clients and the server's empty
  tables happens outside pubsub.c; the registry simply starts empty.
- PubSub.Registry.UnsubscribeAllPatterns states which pattern pairs remain,
  not their order in the server list.
- Multi: command execution inside EXEC (`call`) is not modelled. The run is
  the sequence of queued commands returned in the reply, so EXEC's effects on
  the database are not captured. The propagation of MULTI/EXEC to replicas and
  the AOF (`execCommandReplicateMulti`) is left out. The client's database and
  the keys that exist in a flushed database are parameters.
- Multi: the per-key watcher lists are a single map keyed by `(key, db)`
  instead of one dict per database.
- SlowLog: `time(NULL)` is a parameter, and `getLongFromObjectOrReply` is the
  parameter `parseLong`. `strcasecmp` is modelled by ASCII lower-casing. The
  reply encoding is not modelled.
- SlowLog.GetSelection: for a negative count the code returns the whole log,
  because `count--` never reaches zero; the model follows the code, not a
  `min(count, len)` reading.
- Ae: ae_epoll.c is not part of this model. The backend's add result is a
  parameter, and its delete call is left out. `aeProcessEvents`,
  `processTimeEvents`, `aeWait`, `aeMain`, `aeStop`, `aeGetApiName` and
  `aeSetBeforeSleepProc` (polling, blocking and callback dispatch) are not
  modelled. `aeGetTime` is replaced by the `nowSec`/`nowMs` parameters.
- Ae.EventLoop.CreateFileEvent and DeleteFileEvent take fds as natural
  numbers; negative fds are not modelled.
- Ae.EventLoop.CreateTimeEvent stores no time or finalizer procedure, and
  DeleteTimeEvent does not call the finalizer. File handlers and client data
  are opaque handles.
- Header constants not in these sources are the values of the Redis headers of
  the same era: DICT_HT_INITIAL_SIZE = 4, REDIS_MULTI = 8,
  REDIS_DIRTY_CAS = 32, AE_OK = 0, AE_ERR = -1, AE_NONE = 0,
  AE_READABLE = 1, AE_WRITABLE = 2.
