# godis storage core, modelled in Dafny

This project models the storage engine of godis, a small in-memory key-value
server with Redis-like commands. The model covers:

- the command semantics of `processCommand` over the `dict` and `expire` maps;
- lazy expiry in `getKey` and the periodic sweep `pruneExpiredKeys`;
- the integer set (`intset.go`): a slice of int16, int32 or int64 that widens on demand;
- the quick list (`quick_list.go`): a chain of ziplist buffers that each pack up to five
  varint-framed byte strings;
- the plain doubly linked list (`list.go`);
- the raw region descriptor and its typed view (`value.go`);
- the tagged string encoding written into a region (`value_string.go`);
- FNV-1a 64 (`fnv.go`);
- the volatile-random eviction pass (`eviction.go`).

Each Go file is modelled in its own form.

- **Objects whose methods update fields are classes.** These are `QuickList`, `LinkedList`,
  `Server` and the part of the server that eviction reads. Their methods carry `modifies` clauses.
  Their postconditions tie the new state to a value-level function, e.g.
  `KeySpace.Set`, `Intset.IntsetDel` or `Eviction.Evicted`.
- **Loops are methods with invariants.** These are the ziplist re-pack, GetAll, `intsetContains`,
  `intsetRemove`, `migrateIntset`, Sum64, the sweep and the eviction pass.
- **Pure code is functions, with lemmas about it.**

Go's fixed-width arithmetic is written out:

- int64 addition wraps (`GoTypes.Wrap64`);
- `T(value)` truncates to 16 or 32 bits (`Intset.Truncate`);
- `time.Duration(ms) * time.Millisecond` wraps as an int64 count of nanoseconds (`KeySpace.Deadline`).

Panics are the `Panic` case of `GoTypes.Result`, except in the methods `StringSetString` and `StringSetInt`. Those return a `panicked` flag, because memory they wrote before the panic stays written. Nil is `None`.
Go's map iteration order is unspecified, so the model picks keys with `:|`. Every
proof therefore holds for any order.

The model follows the code as written:

- `del` removes the key from `dict` only. A deadline it had stays in `expire`.
- `set` does not clear a deadline.
- An integer set never narrows. `sdel` keeps the element width, so `sadd 70000` then `sdel 70000` leaves an empty set of 4-byte elements (`Intset.IntsetDel` keeps `enc`).
- `expire` with 0 ms sets the deadline to the current time. The key is then
  purged on its next lookup; the TTL is not cleared.
- Only `get` and `expire` go through `getKey` and so purge an expired key. The other
  commands read `dict` directly and see expired keys as present.
- `incr` on a key that does not hold an int64 writes its message to the
  server's standard output, not to the client. The model's reply is `Silent`.
- `StringGetInt` and `StringIncr` do not check the encoding tag.
- `intsetRemove` looks for `T(value)` without checking that the value fits the element type.
  `sdel 65537` on the int16 set {1} therefore removes 1 (`Intset.IntsetDelWideValue`).
- `intsetRemove` runs past the end of the slice, and panics, when the value is absent.
  `sdel` of a non-member panics accordingly.
- `pruneExpiredKeys` stops its scan before the 20th key, so it examines at most 19 keys per pass.
- No shown code calls `tryEvict`.
- A pass selects victims only while the estimate is at or above the
  threshold. It may run out of entries before the estimate falls below it.

## Model

The value-level functions of `KeySpace` are the reference that the `Server.Server` rows cite:
- `GetKey` models `getKey` (server.go:82-93);
- `Set`, `Del`, `Incr`, `Push`, `Pop`, `Sadd`, `Sdel` and `Expire` model the cases of `processCommand` (server.go:97-318);
- `Deadline` models the deadline arithmetic of `expire` (server.go:314);
- `MemberValue` models the member packing of `sadd`/`sdel` (server.go:243-248);
- `Apply` dispatches a parsed command to them.

Their properties are stated by the `KeySpace` lemmas below.

| member | source | states |
|---|---|---|
| GoTypes.Wrap64 | server.go:191 | int64 `+` wraps: the result lies in int64 range, is congruent to the exact sum modulo 2^64, and equals it when that is in range |
| GoTypes.Zeros | server.go:245-246 | `make([]byte, n)` holds n zero bytes |
| Varint.PutUvarintLength | quick_list.go:86-87 | a uvarint written at byte i of a 10-byte buffer takes 1 to 10-i bytes |
| Varint.UvarintFromPut | quick_list.go:92-93 | the decoder, part way through a varint, reads back the value and the total byte count |
| Varint.UvarintPutUvarint | quick_list.go:86-87 | round trip: `binary.Uvarint` of the bytes `binary.PutUvarint` wrote, followed by anything, gives back the uint64 and the varint's length, which is 1 to 10 |
| Strconv.ParseIntFormatInt | server.go:104-105 | round trip: every int64 written in decimal parses back to itself |
| Intset.IntsetValueEncoding | intset.go:154-162 | the chosen element type holds the value, and no narrower one does |
| Intset.Truncate | intset.go:129-131 | the conversion `T(value)`: in the element type's range, congruent to the value modulo 2^16 or 2^32, and the value itself when it fits |
| Intset.DistinctCardinality | intset.go:97-108 | a duplicate-free slice has as many elements as members |
| Intset.CreateIntset | intset.go:15-27 | a one-element set of the value's narrowest type, holding exactly the value |
| Intset.SizeOfIntset | intset.go:97-108 | for a duplicate-free set, the number of members |
| Intset.EncodingOfIntset | intset.go:110-121 | 2, 4 or 8, at least the width any element needs |
| Intset.IntsetHasValue | intset.go:81-95 | on a well-typed set, true exactly when the value is an element (a value too wide for the type is absent) |
| Intset.IntsetAdd | intset.go:29-66 | members become old members plus the value; well-typedness and duplicate-freedom are kept; the type widens exactly when the value does not fit; a present value leaves the set unchanged, an absent one is appended |
| Intset.IndexOf | intset.go:143-149 | the scan's stopping index: the first position holding the target, or the length when there is none |
| Intset.SwapRemoveMultiset | intset.go:150-151 | overwriting position idx with the last element and cutting the slice removes exactly one occurrence of the element at idx |
| Intset.IntsetDel | intset.go:68-79 | one occurrence of `T(value)` is removed; the type is kept; positions that change receive the last element |
| Intset.IntsetDelMembers | intset.go:142-152 | on a well-typed duplicate-free set, deleting a member removes exactly that member and keeps the set duplicate-free |
| Intset.IntsetDelTruncated | intset.go:142-152 | on a duplicate-free set holding `T(value)`, the deletion removes exactly the member `T(value)` and keeps the set duplicate-free |
| Intset.IntsetDelWideValue | intset.go:145 | at int16, `T(65537) == 1`, so deleting 65537 (not a member) from {1} empties the set |
| Intset.IntsetTestAdd | intset_test.go:12-21 | adding 1, 2, 3 to an empty int16 set gives [1, 2, 3] of size 3, and adding 2 again changes nothing |
| Intset.IntsetTestDelWiden | intset_test.go:22-36 | deleting 2 leaves the int16 set [1, 3], and adding 65537 widens it to int32 with size 3 |
| Intset.MigrateIntset | intset.go:123-127 | every element of the narrow slice is copied to the same position of the wide one; the rest of the wide slice is untouched |
| Intset.IntsetContains | intset.go:133-140 | true exactly when `T(value)` is an element |
| Intset.FindIndex | intset.go:143-149 | the loop stops at `IndexOf` of the target |
| Intset.IntsetRemove | intset.go:142-152 | panics exactly when `T(value)` is absent, leaving the array untouched; otherwise the array changes only at the found index, which receives the last element, and the first n-1 cells are `IntsetDel` of the set |
| QuickList.SlotStartProduct | quick_list.go:99 | slot i starts at byte `i * len` |
| QuickList.SlotDecode | quick_list.go:109-112 | `binary.Uvarint` on a slot returns the stored length and the header size, and the payload follows the header within the slot |
| QuickList.CopyFrom | quick_list.go:111-112 | `make` then `copy` gives `size` bytes, the source's prefix when it is long enough |
| QuickList.PutUvarintInto | quick_list.go:100 | the varint is written at the offset; bytes before it are kept |
| QuickList.CopyInto | quick_list.go:101 | the source is copied at the offset when it fits; bytes before it are kept |
| QuickList.PutFrame | quick_list.go:93-94 | the varint of the size, then the payload, form the element's frame at the offset; bytes before it are kept |
| QuickList.ReadSlot | quick_list.go:18-22 | reading slot i gives back the element stored there |
| QuickList.SlotPayload | quick_list.go:91-92 | the re-pack decode gives the element's length and a source whose prefix is the element |
| QuickList.RepackSlot | quick_list.go:90-95 | one re-pack step copies element i into slot i of the wider buffer, keeping slots 0..i-1 |
| QuickList.WriteSlot | quick_list.go:99-102 | the new element's frame goes into the next free slot, keeping the earlier ones |
| QuickList.EmptyZiplistHolds | quick_list.go:35 | a new ziplist holds no elements |
| QuickList.Repack | quick_list.go:88-98 | the wider buffer at the new stride holds the same elements in the same order |
| QuickList.PushTail | quick_list.go:81-103 | panics exactly when the node already has five elements; otherwise the node holds the old elements plus the value, and the stride grows to the new frame's size only when that frame does not fit |
| QuickList.PopTail | quick_list.go:105-115 | panics exactly on an empty node; otherwise returns the last element and the node holds the rest, with its buffer and stride unchanged |
| QuickList.Values | quick_list.go:17-23 | decoding every slot of a node yields its elements in order |
| QuickList.PushNodes | quick_list.go:31-46 | the list's elements gain the value at the end; a node is added exactly when there is none or the tail node is full |
| QuickList.PopNodes | quick_list.go:51-64 | returns the last element and leaves the others; the tail node is dropped exactly when it held one element |
| QuickList.QuickList.constructor | quick_list.go:9-13 | a new list is empty with no nodes |
| QuickList.QuickList.Size | quick_list.go:28 | the running count is the number of elements |
| QuickList.QuickList.Push | quick_list.go:30-48 | contents become old contents plus the value; the node count grows exactly when the tail node was full or absent |
| QuickList.QuickList.Pop | quick_list.go:50-67 | nil and no change on an empty list; otherwise the last element, removed from the contents; a tail node left empty is unlinked |
| QuickList.QuickList.GetAll | quick_list.go:15-26 | returns the contents in push order |
| QuickList.PushSixGetAll | quick_list_test.go:8-28 | pushing "1", "22", "3", "4", "5", "6" and calling GetAll returns the six items in order |
| List.LinkedListElem.constructor | list.go:15-19 | a new element holds the value, links back to the old tail and has no successor |
| List.LinkedList.constructor | list.go:3-6 | a new list is empty |
| List.LinkedList.Push | list.go:14-29 | the value is appended; the new length is returned; the prev/next chain stays consistent |
| List.LinkedList.Pop | list.go:31-47 | nil and -1 with no change on an empty list; otherwise the tail's value and the decremented length, with the predecessor as the new tail |
| List.PushThenPop | list.go:14-47 | on a list built from any values, a push then a pop returns the pushed value and the old length, and restores the contents |
| List.PopEmpty | list.go:32-34 | popping a new list gives nil and -1 |
| Value.SizeOf | value.go:32 | an element is 1, 2, 4 or 8 bytes |
| Value.Slice | value.go:30-42 | panics exactly when the length or the capacity is below one element; otherwise a view at the region's address with as many whole elements as fit in the length and in the capacity |
| Value.SliceBytes | value.go:30-42 | a byte view has as many elements as the region has bytes |
| Value.SliceOneInt64 | value.go:30-42 | a region of 8 to 15 bytes gives a one-element int64 view |
| ValueString.PayloadAfterTag | value_string.go:17-19 | for a region that holds its tag byte, the payload lies in memory, starts right after the tag, ends where the region ends, and its bytes are the region's bytes after the tag |
| ValueString.Write | value_string.go:21 | the copied bytes land at the offset and memory elsewhere is unchanged |
| ValueString.WriteBytes | value_string.go:21 | the byte-by-byte copy into the memory array leaves it equal to `Write` |
| ValueString.DecodeEncodeInt64 | value_string.go:36-43 | round trip: the int64 stored in eight bytes is the int64 read back |
| ValueString.StringEncoding | value_string.go:10-13 | panics exactly when the region's length or capacity is below one byte; otherwise it is the byte at the region's address, the tag |
| ValueString.StringGetBytes | value_string.go:24-29 | panics exactly when the length or capacity is below two bytes; otherwise the bytes from just after the tag to the end of the region's length |
| ValueString.StringGetInt | value_string.go:39-44 | panics exactly when the length or capacity is below nine bytes |
| ValueString.CopyCount | value_string.go:21 | `copy` moves the whole value or fills the payload, whichever is shorter |
| ValueString.StringSetString | value_string.go:15-22 | panics exactly when the length or capacity is below two bytes; a region with one byte still receives the tag; otherwise the tag and as much of the value as fits are written and nothing else changes |
| ValueString.StringSetInt | value_string.go:31-37 | panics exactly when the length or capacity is below nine bytes; a shorter non-empty region still receives the tag; otherwise the tag and the eight bytes of the int64 are written |
| ValueString.StringIncr | value_string.go:46-53 | panics exactly when the length or capacity is below nine bytes, changing nothing; otherwise returns the wrapped sum of the stored int64 and delta and stores it in place |
| ValueString.GetBytesAfterSetString | value_string.go:15-29 | after StringSetString the tag says string, and StringGetBytes returns the value, truncated to the payload size or padded with whatever followed |
| ValueString.GetIntAfterSetInt | value_string.go:31-44 | after StringSetInt the tag says integer and StringGetInt returns the int64 |
| ValueString.GetIntAfterIncr | value_string.go:39-53 | after StringIncr, StringGetInt returns the sum StringIncr returned, and the tag is unchanged |
| Fnv.Xor | fnv.go:11 | xoring a byte into a uint64 changes only its low byte |
| Fnv.FoldFromConcat | fnv.go:10-13 | hashing two pieces in turn is hashing the whole |
| Fnv.HashConcat | fnv.go:8-15 | Sum64 of a+b continues from Sum64 of a over the bytes of b |
| Fnv.HashSnoc | fnv.go:10-13 | one more byte is one more xor-multiply step |
| Fnv.HashEmpty | fnv.go:4-9 | the empty key hashes to the offset basis |
| Fnv.HashOfA | fnv.go:3-15 | the key "a" hashes to 0xaf63dc4c8601ec8c |
| Fnv.Sum64 | fnv.go:8-15 | the loop computes the FNV-1a fold of the key |
| KeySpace.GetKeyLive | server.go:82-93 | a value is returned exactly when the key is present and its deadline has not been reached; an expired key leaves both maps; other keys are untouched |
| KeySpace.GetKeyIdempotent | server.go:82-93 | a second lookup at the same time changes nothing more |
| KeySpace.SetFormattedInteger | server.go:101-109 | `set` of a decimal int64 stores that int64 |
| KeySpace.SetThenGet | server.go:101-117 | `get` after `set` finds the stored value unless a deadline the key kept has passed |
| KeySpace.DelThenGet | server.go:166-173 | `del` replies 1 exactly when the key was stored; the key leaves `dict` but its deadline stays; a following `get` finds nothing |
| KeySpace.IncrAdds | server.go:174-192 | `incr` changes state only for a parsable delta on a stored int64, and then stores the wrapped sum |
| KeySpace.IncrByFormatted | server.go:174-192 | `incr` by a decimal int64 stores the wrapped sum |
| KeySpace.PushThenPop | server.go:193-223 | `pop` after `push` returns the pushed value and the old size; it restores the key space, or leaves an empty list for a key that was absent |
| KeySpace.PushAppends | server.go:193-205 | `push` appends the value and replies with the new size |
| KeySpace.ExpireDoesNotRearm | server.go:303-313 | `expire` on an expired key purges it and replies "key not found" |
| KeySpace.DeadlineExact | server.go:314 | a TTL whose nanoseconds fit in int64 gives the deadline now + ms |
| KeySpace.DeadlineWraps | server.go:314 | a TTL of 9223372036855 ms overflows the Duration and yields a deadline in the past |
| KeySpace.ExpireThenGet | server.go:303-314 | after `expire` with ms ≥ 0 on a live key, `get` finds it before now + ms and not from then on |
| KeySpace.BigEndianZeros | server.go:245-247 | left padding with zeros keeps the big-endian value |
| KeySpace.BigEndianAllZeros | server.go:245-247 | zero bytes have value 0 |
| KeySpace.MemberValueOfBytes | server.go:243-248 | a non-numeric member of up to 8 bytes stands for its big-endian value read as int64 |
| KeySpace.MemberLeadingZero | server.go:243-248 | the zero padding hides leading zero bytes: the members "a" and "\x00a" are both the set element 97 |
| KeySpace.SaddThenSdel | server.go:237-288 | `sadd` of a new member then `sdel` of it restores the set's members |
| KeySpace.ParseCommand | server.go:98-102 | a known command panics exactly when it has too few words; an unknown name is "invalid command" |
| KeySpace.ApplyPreservesValid | server.go:237-288 | every command keeps every stored set well typed and free of duplicates |
| KeySpace.SaddKeepsValid | server.go:237-263 | `sadd` keeps every stored set well typed and free of duplicates |
| KeySpace.SdelKeepsValid | server.go:264-288 | `sdel` keeps every stored set well typed and free of duplicates, also when it removes `T(value)` for a value too wide for the set |
| KeySpace.SetRepliesCount | server.go:237-302 | the size that `sadd`, `sdel` or `slen` replies is the number of distinct members of the key's set after the command |
| Server.CollectExpired | server.go:320-331 | the pass examines min(size, 19) distinct keys and collects exactly the expired ones among them, without repeats |
| Server.Server.constructor | server.go:20-31 | both maps start empty |
| Server.Server.GetKey | server.go:82-93 | the in-place lookup returns and leaves what `KeySpace.GetKey` says |
| Server.Server.ProcessCommand | server.go:97-318 | panics exactly when the command's value-level meaning does, changing nothing; otherwise the reply and the new maps are `KeySpace.Apply`'s, and stored sets stay well typed |
| Server.Server.SetKey | server.go:101-109 | the maps become `KeySpace.Set` of the old ones |
| Server.Server.DelKey | server.go:166-173 | reply and maps as `KeySpace.Del` |
| Server.Server.IncrKey | server.go:174-192 | reply and maps as `KeySpace.Incr` |
| Server.Server.PushKey | server.go:193-205 | reply and maps as `KeySpace.Push`; an absent key first gets an empty list |
| Server.Server.PopKey | server.go:206-223 | reply and maps as `KeySpace.Pop` |
| Server.Server.SaddKey | server.go:237-263 | reply, maps and panic as `KeySpace.Sadd` |
| Server.Server.SdelKey | server.go:264-288 | reply, maps and panic as `KeySpace.Sdel` |
| Server.Server.ExpireKey | server.go:303-314 | reply and maps as `KeySpace.Expire` |
| Server.Server.DeleteKeys | server.go:332-335 | each collected key leaves both maps, and the dict shrinks by their number |
| Server.Server.PruneExpiredKeys | server.go:320-339 | the first pass examines min(size, 19) keys of `dict` and deletes exactly the expired ones among them; the sweep stops there when that pass deleted fewer than five; everything the sweep deletes had its deadline reached and leaves both maps; nothing else changes |
| Eviction.Evicted | eviction.go:45-51 | a key remains in a shard exactly when it was there and is not a victim |
| Eviction.Take | eviction.go:37-40 | selecting one more entry keeps the victims inside their shards, listed once each, with the estimate reduced by its capacity |
| Eviction.SelectInShard | eviction.go:36-41 | the inner loop over one shard keeps the selection's invariants, and selects every entry of the shard unless the estimate has fallen below the threshold |
| Eviction.SelectKey | eviction.go:36-40 | one turn of the inner loop: the entry is taken, and its capacity subtracted, while the estimate is at or above the threshold, and skipped otherwise; the selection's invariants are kept |
| Eviction.SelectVictims | eviction.go:30-42 | each victim comes from the shard it is filed under; the final estimate is the usage minus the victims' capacities; each was selected while the estimate was at or above 0.9 × max; the pass ends with every entry selected or the estimate below the threshold |
| Eviction.LastVictimNeeded | eviction.go:36-41 | without the last victim the estimate would still be at or above the threshold, so no victim is selected after the threshold is crossed |
| Eviction.EstimateBound | eviction.go:30-41 | with non-negative capacities the final estimate never exceeds the starting usage |
| Eviction.EvictedRestores | eviction.go:45-51 | each evicted shard together with its victims is the original shard: nothing but victims is lost |
| Eviction.ShardedServer.constructor | eviction.go:16-17 | the options and shards are as given |
| Eviction.ShardedServer.DeleteFromShard | eviction.go:47-50 | deleting a victim set from one shard removes exactly those keys from that shard |
| Eviction.ShardedServer.DeleteVictims | eviction.go:45-51 | every shard loses exactly its victims; a victim already gone is a no-op |
| Eviction.ShardedServer.TryEvict | eviction.go:16-53 | no policy but volatile-random, a non-positive maximum, or usage below 0.9 × max leave the shards unchanged; otherwise the shards lose exactly the victims of a selection pass with the properties of `SelectVictims` |

## Left out

- `malloc.go` (mmap/munmap and their error panics) is not part of this model. A region is
  a descriptor over a memory array given to the methods, and the process-wide usage counter is a parameter of `TryEvict`.
- Networking and scheduling in `server.go` are not modelled. This covers `NewServer`'s listener,
  `Serve`, `eventLoop` (socket reads and word splitting), `mainLoop` (goroutines, the channel and the 15-second ticker), and every `fmt` print,
  including the rendering of `get` replies. `time.Now()` is the parameter `now`, in Unix
  milliseconds, and one sweep reads it once for all its recursive passes. `expire` also uses one `now`
  both for the lookup in `getKey` and for the new deadline, where the code reads the clock twice (server.go:87 and :314).
- The sub-millisecond part of `time.Now()` is not modelled. `Deadline` assumes the current time is a whole millisecond.
- A list stored under a key is modelled in the key space by its contents (`ListValue`).
  The `QuickList` class models the list itself. Aliasing between the two is not modelled.
- A ziplist node, updated in place through its pointer in Go, is a value that the
  quick-list methods replace. No ziplist is shared, so no aliasing is lost. The quick list's
  `prev`/`next` chain of nodes is a sequence.
- The `Value` struct's LFU fields `last`/`count`, `typ` and `padding` are not modelled: nothing reads them.
- Host endianness and unaligned access are not modelled. The int64 payload of a string region is little-endian here.
- A `StringSetString` or `StringSetInt` that panics after writing the tag is modelled with the tag written.
- Go's `nil` and empty slices are not distinguished except where the code does so (`Pop`'s nil result).
- The floating-point threshold `float64(size) >= float64(max)*0.9` is exact integer arithmetic
  (`10 * size >= 9 * max`). Rounding of very large values is not modelled.
- Per-shard locking and the choice of a key's shard are not modelled. Eviction works on the
  shards as a sequence of maps from key to region descriptor, and `delKey` is removal from the shard's map.
- Server.Server.PruneExpiredKeys: one `now` serves the whole sweep, while the code calls `time.Now()` again for every key it examines. The contract describes the first pass in full; of the later passes it states only that they delete expired keys and run only after a pass that deleted at least five.
- `MaxIntSetItems` is declared but unused in the code, and is not modelled.
- Strconv.ParseInt is specified by its definition and the round trip with FormatInt. Error
  values other than "not an int64" are not distinguished.
- The non-numeric member packing of `sadd`/`sdel` is modelled for members up to 8 bytes. A
  longer member panics, as `make` with a negative size does.
