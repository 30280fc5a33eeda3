# memcached 1.4: hashing, object pool, hash table, binary packets and number parsing

This project models parts of memcached 1.4 in Dafny and proves what they promise.

* `Bits`, `Words`, `Octets`, `Sequences`: C integers, and sequences as stacks and chains. Bytes, `uint32_t` and `uint64_t`
  values are natural numbers with explicit bounds; addition, subtraction, multiplication and left shifts are written out
  modulo the width; `^`, `&`, `|` are defined bit by bit. Memory is little-endian unless a definition takes the byte order
  as an argument, and packet structures are padded to a multiple of eight bytes, as on a 64-bit build.
* `Murmur`: MurmurHash3 x86_32. The code's loop equals a fold over the key's words; every step is undone explicitly, so any
  one aligned block decides the hash bijectively. `MurmurExample` and `JenkinsExample` work out the hash of one key each,
  with the help of `XorDigits`.
* `JenkinsSpec`, `JenkinsPaths`: the Jenkins hash. All read strategies, chosen by address, alignment and build, compute one
  function of the key's bytes; `mix` and `final` are permutations. Memory is a byte at every address, and each load
  function's precondition says which addresses it may touch, so reading outside the key, except in the aligned word that
  holds its last bytes, cannot be expressed.
* `PoolModel`, `PoolRuns`, `PoolTheorems`, `Cache`: the object pool of `cache.c`, as a class over an array and as a
  step system in which any number of threads interleave. A locked region is one step, and stamping the redzones is
  another, after the unlock. What `malloc`, `realloc`, the constructor and the clients do is part of each step's label, so
  every failure is covered. A history of events gives two independent references: an ideal stack, and a life cycle for
  each buffer.
* `AssocModel`, `Assoc`, `AssocRuns`: the server's hash table of `assoc.c` with its incremental expansion. Buckets are arrays of
  pointers, chains run through `h_next`, and `find`, `insert` and `delete` stay exact at every point between two bucket
  moves. The comments of `memcached-1.4/assoc.c` are in a legacy encoding, so the table below cites the declarations in
  `assoc.h` and names the lines of the bodies in `assoc.c`.
* `Packets`, `Encoders`, `Transport`, `Pipeline`: binary protocol requests filled into a buffer in place, sent and
  received over a socket that transfers arbitrary pieces, and the pipelined random commands of the hickup test.
* `Numbers`: `safe_strtoull` and `safe_strtoll` against the grammar of section 7.20.1.4 of ISO/IEC 9899:1999, in the C
  locale with 64-bit `long long`.

Where the code and its comments differ, the model follows the code. `safe_strtoull` looks for a minus sign only when the
value is at least 2^63, and then anywhere in the string: `MinusSignVerdict` and `LaterDashVerdict` state exactly what is
accepted. `storage_command` stores flags and expiration unconverted (`StorageFlagsNotConverted`). In the debug build a
`cache_free` that cannot grow the pool hands the destructor the base of the block and not the object
(`DestructorGetsBase`; `DestructorArgumentVerdict` and `DestructorArgumentPerRun` say exactly when), unlike the constructor
(`ConstructorGetsObject`). `cache_create` compares the result of `pthread_mutex_init` with -1 only (`Create`).
`touch_command` checks room for its structure and not for the key (`TouchCommand`). `cache.h` says the constructor's result is not checked; `cache_alloc` does check it.

`dafny verify dfyconfig.toml` checks the whole project.

## Model

| member | source | states |
|---|---|---|
| Words.Rotl32 | memcached-1.4/murmur3_hash.c:33-36 | for every shift of 1 to 31 places, or-ing the two shifted copies moves the bits round: those that fall off the top re-enter at the bottom |
| Words.RotateBack | memcached-1.4/murmur3_hash.c:33-36 | rotating by r and then by 32 - r is the identity, for every word and every r |
| Murmur.Fmix | memcached-1.4/murmur3_hash.c:56-65 | the step-by-step finalizer computes the function that FmixBijective is about |
| Murmur.FmixBijective | memcached-1.4/murmur3_hash.c:56-65 | the finalizer is a permutation of the 32-bit words, with its inverse given explicitly in both directions |
| Murmur.ScrambleBijective | memcached-1.4/murmur3_hash.c:88-92 | multiplying, rotating and multiplying a block is a permutation of the words |
| Murmur.AbsorbBijectiveInState | memcached-1.4/murmur3_hash.c:86-97 | with the block fixed, one round is a bijection from the state before to the state after |
| Murmur.AbsorbBijectiveInBlock | memcached-1.4/murmur3_hash.c:86-97 | with the state fixed, one round is a bijection from blocks to states |
| Murmur.FoldBijective | memcached-1.4/murmur3_hash.c:86-97 | for any number of blocks, any one of them can be solved for to reach any state, and that solution is unique |
| Murmur.Body | memcached-1.4/murmur3_hash.c:84-97 | the loop from -nblocks up to 0 is the left fold over the little-endian words in forward order; it terminates with measure -i and reads each byte before the tail exactly once |
| Murmur.MurmurHash3 | memcached-1.4/murmur3_hash.c:71-123 | the whole function computes the hash that AppendBlock, AppendTail and KnownHash describe, and reads each of the `length` bytes exactly once and nothing else |
| Murmur.BlockToHashBijective | memcached-1.4/murmur3_hash.c:71-123 | for a key of any length with all other bytes fixed, the map from one aligned 4-byte block to the hash is a bijection on 32-bit words |
| Murmur.OneGroupNeverCollides | memcached-1.4/murmur3_hash.c:71-123 | equal-length keys that differ only inside one aligned group of four bytes, or only in the last 1 to 3 bytes, have different hashes |
| Murmur.TwoBlocksCollide | memcached-1.4/murmur3_hash.c:71-123 | the bound is sharp: for every key of at least 8 bytes and every other first block there is a second block that restores the hash |
| Murmur.HashOfEmpty | memcached-1.4/murmur3_hash.c:106-122 | the empty key hashes to 0 |
| Murmur.AppendBlock | memcached-1.4/murmur3_hash.c:84-97 | streaming law: with the finalizer and the length undone, four more bytes after whole blocks put b0 + 2^8 b1 + 2^16 b2 + 2^24 b3 through one round on top of the state so far |
| Murmur.AppendTail | memcached-1.4/murmur3_hash.c:104-113 | one, two or three more bytes after whole blocks are scrambled as b0 + 2^8 b1 + 2^16 b2, missing ones zero, and xored in; with AppendBlock and HashOfEmpty this determines the hash of every key |
| MurmurExample.KnownHash | memcached-1.4/murmur3_hash.c:71-123 | the key "hello, memc", two blocks and three bytes, hashes to 0xa3f828ea: this fixes the multipliers, rotations and constants |
| Words.Rot | memcached-1.4/jenkins_hash.c:33-33 | the xor of the two shifted copies is the same rotation |
| JenkinsPaths.Mix | memcached-1.4/jenkins_hash.c:79-87 | the eighteen assignments of `mix` compute the permutation of MixBijective |
| JenkinsPaths.Final | memcached-1.4/jenkins_hash.c:114-123 | the fourteen assignments of `final` compute the permutation of FinalBijective |
| JenkinsSpec.MixBijective | memcached-1.4/jenkins_hash.c:37-87 | `mix` is reversible, as its comment claims: an explicit inverse on both sides for every triple |
| JenkinsSpec.FinalBijective | memcached-1.4/jenkins_hash.c:114-123 | `final` is a permutation of the triples as well |
| JenkinsSpec.HashOfEmpty | memcached-1.4/jenkins_hash.c:180-180 | the empty key hashes to 0xdeadbeef in both byte orders |
| JenkinsSpec.ShortKey | memcached-1.4/jenkins_hash.c:134-181 | for every key of up to 12 bytes, what enters `final` is 0xdeadbeef plus the length plus the three zero-padded words of the key, modulo 2^32, in either byte order |
| JenkinsSpec.LengthMatters | memcached-1.4/jenkins_hash.c:134-134 | zero bytes appended within a partial last block add nothing to the state, yet the key always reaches another triple, because the length takes part |
| JenkinsExample.KnownHash | memcached-1.4/jenkins_hash.c:126-297 | "hello, memcached", which takes one `mix`, a partial block and `final`, hashes to 0x26791684: this fixes all thirteen rotations |
| JenkinsExample.KnownHashBig | memcached-1.4/jenkins_hash.c:306-428 | on a big-endian machine the key with its groups of four reversed has that hash |
| JenkinsPaths.WordLoop | memcached-1.4/jenkins_hash.c:143-152 | for both byte orders: after the aligned 32-bit loop, adding the zero-padded rest to the state gives the fold of the whole key; 1 to 12 bytes are left unless the key was empty |
| JenkinsPaths.HalfLoop | memcached-1.4/jenkins_hash.c:209-218 | the same for 16-bit reads |
| JenkinsPaths.ByteLoop | memcached-1.4/jenkins_hash.c:255-273 | the same for byte reads, little-endian here and big-endian at lines 386-404 |
| JenkinsPaths.MaskedWord | memcached-1.4/jenkins_hash.c:164-181 | each mask of either version keeps exactly the key bytes of a word that runs past the key and clears the rest |
| JenkinsPaths.MaskedTail | memcached-1.4/jenkins_hash.c:164-181 | all cases 12 to 1 add the zero-padded last block, whatever follows the key in memory; every word read starts with a key byte (big-endian at lines 342-359) |
| JenkinsPaths.ValgrindTail | memcached-1.4/jenkins_hash.c:183-203 | the fall-through switch adds the same block and reads no byte past the key (big-endian at lines 361-381) |
| JenkinsPaths.HalfTail | memcached-1.4/jenkins_hash.c:220-250 | the 16-bit switch adds the same block within the key |
| JenkinsPaths.ByteTail | memcached-1.4/jenkins_hash.c:275-292 | the bytewise switch adds the same block within the key (big-endian at lines 406-423) |
| JenkinsPaths.JenkinsLittle | memcached-1.4/jenkins_hash.c:126-297 | for every memory, address, length and build, the little-endian function returns one and the same hash of the key's bytes, the one that ShortKey, LengthMatters and KnownHash describe; 0xdeadbeef with no mixing for the empty key |
| JenkinsPaths.JenkinsBig | memcached-1.4/jenkins_hash.c:306-428 | the big-endian word, VALGRIND and byte paths agree for every key |
| JenkinsSpec.OneBlockSeparates | memcached-1.4/jenkins_hash.c:126-297 | equal-length keys that differ inside exactly one 12-byte block, the last partial one included, reach different (a, b, c) triples |
| JenkinsSpec.OnlyTheReturnLoses | memcached-1.4/jenkins_hash.c:295-296 | after any front of whole blocks, a last block exists for every final triple; so different keys with different triples and the same hash exist for every front |
| JenkinsSpec.BigIsReversedLittle | memcached-1.4/jenkins_hash.c:299-428 | for every length divisible by 4 the big-endian hash is the little-endian hash of the key with each group of four bytes reversed |
| CacheCode.Cache.constructor | memcached-1.4/cache.c:33-45 | a created cache is the initial state of the pool and satisfies the invariant |
| CacheCode.Cache.Create | memcached-1.4/cache.c:19-46 | NULL is returned if and only if an allocation fails or `pthread_mutex_init` returns exactly -1, which is what the code compares with: a positive error number, as POSIX prescribes, passes for success |
| CacheCode.Cache.Alloc | memcached-1.4/cache.c:71-104 | the code performs exactly the pool's steps for its situation, locked region then stamping; the pointer returned is 8 bytes into the block in the debug build and its base otherwise, its block is then held by the caller and was held by nobody; NULL only if the pool was empty and malloc or the constructor failed |
| CacheCode.Cache.StampRedzones | memcached-1.4/cache.c:92-101 | writing the pattern before and after the object is the stamping step |
| CacheCode.Cache.Free | memcached-1.4/cache.c:106-147 | the code performs exactly the pool's freeing step, redzone checks included, and keeps the invariant |
| CacheCode.Cache.Keep | memcached-1.4/cache.c:128-145 | below the checks: push, grow and push, or destruct and release |
| CacheCode.Cache.Grow | memcached-1.4/cache.c:132-136 | a successful `realloc` doubles the capacity and keeps the pooled buffers |
| CacheCode.Cache.Destroy | memcached-1.4/cache.c:57-69 | every pooled buffer is destructed, by the very pointer its client had, and freed, last pooled first; if nothing is held, no block is left |
| PoolModel.Stamped | memcached-1.4/cache.c:92-101 | stamping makes both redzones intact and alters no object byte |
| PoolRuns.StepInv | memcached-1.4/cache.c:71-147 | every step of every thread keeps the invariant: one place per live buffer, capacity, agreement with the ideal stack and with each buffer's life cycle |
| PoolRuns.RunInv | memcached-1.4/cache.c:57-147 | the invariant holds after every interleaving of any length |
| PoolTheorems.ExactlyOnePlace | memcached-1.4/cache.c:71-147 | after every run each live buffer is once in `ptr[0..freecurr)` or held by one thread, and a dead one is nowhere |
| PoolTheorems.AllocationsNeverCoincide | memcached-1.4/cache.c:71-104 | the buffer handed out next is held by no thread, so two outstanding allocations never coincide |
| PoolTheorems.PoolIsIdealStack | memcached-1.4/cache.c:75-145 | the pool is the ideal stack replayed from the history: reuse takes the last buffer returned, malloc happens only when it is empty, a failed growth drops only the incoming buffer; freecurr is at most freetotal, which is 64 times 2 to the number of growths |
| PoolTheorems.LastFreedFirstReused | memcached-1.4/cache.c:71-145 | an allocation right after an accepted free gives that buffer out again and leaves pool and memory as before the free |
| PoolTheorems.EveryBufferLivesProperly | memcached-1.4/cache.c:57-147 | whatever is handed out was successfully constructed exactly once since it was malloced; what is released was destructed exactly once just before, or failed construction |
| PoolTheorems.Conservation | memcached-1.4/cache.c:57-147 | with both callbacks set, constructed equals destructed plus pooled plus held after every run |
| PoolTheorems.NothingLeaks | memcached-1.4/cache.c:57-69 | once the pool is drained and nothing is held, no block is allocated |
| PoolTheorems.RunGuarded | memcached-1.4/cache.c:92-127 | over any run whose clients write only their objects, both redzones of every held buffer stay intact and no error is raised |
| PoolTheorems.ChecksAlwaysPass | memcached-1.4/cache.c:106-127 | in such runs no `cache_free` is refused |
| PoolTheorems.RefusedFrees | memcached-1.4/cache.c:109-127 | whatever the clients wrote: a buffer enters the pool if and only if both redzones are intact and there is room; otherwise `cache_error` is 1 (trailing, checked first) or -1 (leading) and nothing else changes |
| PoolTheorems.EveryRedzoneByte | memcached-1.4/cache.c:92-127 | altering any one byte of an intact buffer makes its free fail with -1 if the byte is among the 8 before the object, with 1 if among the 8 behind it, and not at all inside the object |
| PoolTheorems.RedzonePattern | memcached-1.4/cache.c:13-13 | the guard bytes are 0xdeadbeefcafebabe in little-endian memory |
| PoolTheorems.QuietStep | memcached-1.4/cache.c:71-147 | no step of any thread alters the object bytes of a buffer that is pooled or not yet stamped |
| PoolTheorems.NextHolderSees | memcached-1.4/cache.c:71-145 | from the `cache_free` that pools a buffer, however others interleave, to the step that makes it some thread's again: in both builds the new holder sees the object bytes as they were when it was freed |
| PoolTheorems.HandoverStep | memcached-1.4/cache.c:71-104 | that step is the owner's stamping of the redzones in the debug build and the locked region that pops the buffer in the NDEBUG build, and no other |
| PoolTheorems.FirstHolderSees | memcached-1.4/cache.c:78-101 | the first holder sees the content the constructor left |
| PoolTheorems.ConstructorGetsObject | memcached-1.4/cache.c:78-88 | in every run the constructor, failing or not, is given the pointer the client will have: 8 bytes into the block in the debug build, its base otherwise |
| PoolTheorems.DestructorGetsObject | memcached-1.4/cache.c:57-69 | without redzones or without a destructor, whatever is destructed in any run is destructed with the pointer the client had |
| PoolTheorems.DroppedBufferArgument | memcached-1.4/cache.c:138-143 | on a failed growth only the incoming buffer goes, and the destructor's argument is the client's pointer if and only if redzones are compiled out |
| PoolTheorems.DestructorGetsBase | memcached-1.4/cache.c:57-145 | in the debug build with a destructor, clients that behave reach it: a run of 65 allocations and 65 frees, the last unable to grow the pool, passes the base of a block to the destructor |
| PoolTheorems.DestructorArgumentVerdict | memcached-1.4/cache.c:57-145 | the destructor receives the client's pointer in every run if and only if the build has no redzones or there is no destructor |
| PoolTheorems.DestructorArgumentPerRun | memcached-1.4/cache.c:57-145 | in each single run, every destructed buffer was passed by its client's pointer if and only if it is not the case that, in a debug build with a destructor, some free that passed its checks met a full pool that could not grow |
| AssocCode.HashTable.constructor | memcached-1.4/assoc.h:2-2 | (body: assoc.c, lines 67 to 83) the initial table is valid and empty |
| AssocCode.HashTable.Head | memcached-1.4/assoc.h:3-3 | (body: assoc.c, lines 93 to 100) the choice between the tables gives the chain of the slot the hash maps to |
| AssocCode.HashTable.Find | memcached-1.4/assoc.h:3-3 | (body: assoc.c, lines 89 to 116) at any point of an expansion: returns the linked item with that key, and NULL only if there is none |
| AssocCode.HashTable.HashItemBefore | memcached-1.4/assoc.h:5-5 | (body: assoc.c, lines 123 to 142) returns the item with the key and its predecessor in the chain, or reports that the key is missing from the table |
| AssocCode.HashTable.WriteKey | memcached-1.4/assoc.h:4-4 | (as assoc.c, lines 180 to 195, relies on) the memory of an unlinked item may be given any key without disturbing the table, so addresses are reused under other keys |
| AssocCode.HashTable.Insert | memcached-1.4/assoc.h:4-4 | (body: assoc.c, lines 180 to 204) exactly the new item is added, in whichever table its chain is; outside an expansion growth is requested when twice the items exceed three times the buckets |
| AssocCode.HashTable.Delete | memcached-1.4/assoc.h:5-5 | (body: assoc.c, lines 206 to 231) exactly the item with that key is removed, from either table; if there is none, nothing changes |
| AssocCode.HashTable.Expand | memcached-1.4/assoc.h:7-7 | (body: assoc.c, lines 146 to 168) starting an expansion loses no item, and a failed `calloc` leaves the table, and the pending request, as they were |
| AssocCode.HashTable.MoveItems | memcached-1.4/assoc.h:6-6 | (body: assoc.c, lines 260 to 266) following the saved `h_next` pointers moves every item of the bucket to its new chain, leaving all other chains linked |
| AssocCode.HashTable.MoveBucket | memcached-1.4/assoc.h:6-6 | (body: assoc.c, lines 257 to 280) one bucket move keeps the set of items and the validity of both tables, and ends the expansion after the last bucket |
| AssocCode.HashTable.Maintain | memcached-1.4/assoc.h:7-7 | (body: assoc.c, lines 254 to 284) a round moves up to `bulk` buckets; the expansion is over exactly when all 2^(hashpower-1) of them have moved |
| AssocCode.HashTable.Park | memcached-1.4/assoc.h:7-7 | (body: assoc.c, lines 305 to 312) before it waits, outside an expansion, the maintenance thread clears `started_expanding` and touches nothing else |
| AssocRuns.Run | memcached-1.4/assoc.h:2-7 | (body: assoc.c, lines 89 to 333) for every interleaving of lookups, insertions of unlinked items under new keys, deletions of any keys, expansions and bucket moves, every lookup is answered as by a plain map from keys to items, and the final table represents the final map |
| AssocRuns.AnswerAtEnd | memcached-1.4/assoc.h:3-3 | (body: assoc.c, lines 89 to 116) a lookup adds one answer at the end, taken from the map as all earlier operations left it |
| AssocRuns.LastChangeDecides | memcached-1.4/assoc.h:2-7 | (body: assoc.c, lines 89 to 333) whatever else happens, a key maps to the item last inserted under it and to none once deleted |
| AssocRuns.Perform | memcached-1.4/assoc.h:2-7 | (body: assoc.c, lines 89 to 333) each operation does to the table what it does to the map, and maintenance does nothing to it |
| AssocModel.Unlinked | memcached-1.4/assoc.h:5-5 | (body: assoc.c, lines 223 to 225) redirecting the pointer before an item yields the chain without that item |
| AssocModel.PlacedExpand | memcached-1.4/assoc.h:7-7 | (body: assoc.c, lines 146 to 158) when the table doubles, every item is where lookups will now look, without moving |
| AssocModel.MoveOne | memcached-1.4/assoc.h:6-6 | (body: assoc.c, lines 260 to 266) moving the front item of the bucket keeps every chain linked and every other item in place |
| AssocModel.SlotAdvances | memcached-1.4/assoc.h:3-3 | (body: assoc.c, lines 93 to 100) advancing `expand_bucket` changes the lookup slot of exactly the hash values of the moved bucket |
| AssocModel.MovingEnds | memcached-1.4/assoc.h:6-6 | (body: assoc.c, lines 268 to 273) once its chain has been walked, every item is in the slot that lookups use after `expand_bucket++` |
| Octets.Swap64 | memcached-1.4/util.c:120-135 | `mc_swap64` reverses the eight bytes of every 64-bit value |
| Octets.SwapTwice | memcached-1.4/util.c:137-143 | `ntohll` undoes `htonll`, and likewise for every width |
| Octets.SwapReversesMemory | memcached-1.4/util.c:137-143 | storing a converted integer puts its bytes in network order |
| Octets.ByteInPlace | memcached-1.4/util.c:120-143 | in host order byte i of a stored integer is its base-256 digit i, in network order the digits run the other way |
| Packets.RoundTrip | memcached-1.4/protocol_binary.h:151-164 | a request is recovered from its encoding if and only if keylen < 2^16, extlen < 2^8 and bodylen < 2^32 |
| Packets.WalkRecovers | memcached-1.4/testapp.c:775-930 | walking any concatenation of fitting packets by their header lengths recovers every opcode, extras, key and value in order |
| Packets.HeaderFields | memcached-1.4/protocol_binary.h:151-164 | byte 0 is 0x80, byte 1 the opcode, bytes 2 to 3, 4 and 8 to 11 the lengths, bytes 12 to 15 ef be ad de, all others zero, and the body is extras, key and value in this order |
| Packets.Layout | memcached-1.4/protocol_binary.h:151-164 | for a fitting request the header's lengths read back as those of extras, key and whole body, which stand at the offsets they give |
| Encoders.FillHeader | memcached-1.4/testapp.c:820-826 | clearing the structure and storing the fields leaves exactly the 24 header bytes, lengths in network order and truncated to their fields |
| Encoders.ExtCommand | memcached-1.4/testapp.c:808-843 | returns 24 + bodylen; the buffer holds exactly the encoded request, NULL fields left as they were, and nothing beyond changes |
| Encoders.RawCommand | memcached-1.4/testapp.c:845-854 | the same without extras |
| Encoders.StorageCommand | memcached-1.4/testapp.c:775-806 | the same with flags and expiration in host order |
| Encoders.FlushCommand | memcached-1.4/testapp.c:856-875 | the same with an optional expiration in network order; the padded structure of 32 bytes is cleared, so beyond the packet the bytes up to 32 are zero and no others change; demands more than 32 bytes as the assertion does |
| Encoders.TouchCommand | memcached-1.4/testapp.c:878-902 | the same with the expiration in network order, 32 bytes cleared and the assertion's more than 32 bytes demanded; the copy of the key runs past the buffer if and only if 28 + keylen > bufsz |
| Encoders.ArithmeticCommand | memcached-1.4/testapp.c:904-930 | the same with delta, initial value and expiration in network order at offsets 24, 32 and 40; 48 bytes are cleared, so those between the packet and offset 48 are zero; demands more than 48 + keylen bytes as the assertion does |
| Encoders.ArithmeticNumbersRecovered | memcached-1.4/testapp.c:922-924 | `ntohll` of the loaded fields gives back delta and initial for all 64-bit values |
| Encoders.StorageFlagsNotConverted | memcached-1.4/testapp.c:795-796 | in every encoded packet, a network-order reader of the four bytes at offset 24 (or 28) gets the flags (or the expiration) if and only if their bytes are the same in both directions |
| Encoders.StorageFlagsExample | memcached-1.4/testapp.c:795-796 | flags 1 are read as 0x1000000 |
| Transport.SafeSend | memcached-1.4/testapp.c:672-712 | whatever `write` accepts, the wire carries a prefix of the data, all of it on success; it succeeds unless a write fails or the progressing writes are fewer than the bytes; with hickups no call is given more than 1024 bytes, without them the first is given all |
| Transport.Socket.Read | memcached-1.4/testapp.c:720-720 | the modelled `read` returns a prefix of the pending bytes, empty only at the end of the stream |
| Transport.SafeRecv | memcached-1.4/testapp.c:714-736 | on success exactly the next `len` bytes are in place and nothing else in the buffer changed; under any fragmentation and interruption it succeeds if the bytes are there, and reports the closed peer if not |
| Transport.ConvertInPlace | memcached-1.4/testapp.c:744-746 | load, convert and store reverses the bytes of the field |
| Transport.SafeRecvPacket | memcached-1.4/testapp.c:738-773 | exactly one packet leaves the stream, delimited by its bodylen, with keylen, status and bodylen in host order; while bytes flow, the outcome is decided by the stream: a cut header or body is a close or an abort, an announced body that does not fit is an overrun, all else is received |
| Transport.ResponseFields | memcached-1.4/protocol_binary.h:170-183 | where magic 0x81, opcode, keylen, extlen, data type, status, bodylen, opaque, cas and body of a response stand, in network order on the wire and in host order as received |
| Transport.ReceiveAll | memcached-1.4/testapp.c:1715-1729 | for every fragmentation of a stream of well-formed responses that fit the buffer, the loop receives exactly those responses in order and then sees the close |
| Pipeline.ChosenIsHarmless | memcached-1.4/testapp.c:1746-1825 | for every opcode and key, the request fits its header and is no QUIT, QUITQ or SASL command |
| Pipeline.BuildCommand | memcached-1.4/testapp.c:1746-1825 | each case calls the encoder that produces the chosen request, whose bytes the next six rows give for all 256 opcodes |
| Pipeline.StoringBytes | memcached-1.4/testapp.c:1747-1756 | SET, ADD, REPLACE and quiet forms: extlen 8, flags and expiration 0, the key, and 0xfeedfacedeadbeef in host order |
| Pipeline.ConcatenatingBytes | memcached-1.4/testapp.c:1757-1763 | APPEND, PREPEND and quiet forms: no extras, the key and the same value |
| Pipeline.KeyedBytes | memcached-1.4/testapp.c:1773-1798 | DELETE and GET in all forms: the key and nothing else |
| Pipeline.CountingBytes | memcached-1.4/testapp.c:1778-1784 | INCREMENT, DECREMENT and quiet forms: delta 1, initial value 0 and expiration 0 in network order, then the key |
| Pipeline.TouchingBytes | memcached-1.4/testapp.c:1800-1807 | TOUCH and the GAT family: expiration 10 in network order, then the key |
| Pipeline.BareBytes | memcached-1.4/testapp.c:1764-1825 | every other opcode: a bare header with the opcode itself, except that QUIT and QUITQ become 0xf7 and the SASL opcodes 0xf0, 0xf1 and 0xf2 |
| Pipeline.DrawnKey | memcached-1.4/testapp.c:1744-1744 | the key is a front of the given one, of length 1 to 250, congruent to one more than the random number modulo 250 |
| Pipeline.BuildChunk | memcached-1.4/testapp.c:1736-1833 | for every sequence of random numbers the loop terminates, stays within the buffer and leaves whole packets only: those of the first passes, in order, until the flag drops, no header fits or the next request does not fit, and no fewer |
| Pipeline.ChunkDetermined | memcached-1.4/testapp.c:1736-1833 | that description admits one list of requests only for each buffer size, flag and sequence of random numbers |
| Pipeline.PipelineChunk | memcached-1.4/testapp.c:1731-1837 | what reaches the wire is a prefix of the chunk; once sent it is all of it and parses into exactly the drawn requests, none of them forbidden; it is sent if no write fails and enough of them progress |
| Numbers.SafeStrtoull | memcached-1.4/util.c:15-38 | accepts exactly the strings with a decimal number in range, ended by white space or the end, unless the value is at least 2^63 and a minus sign occurs anywhere; failure leaves 0 |
| Numbers.SafeStrtoll | memcached-1.4/util.c:40-55 | accepts exactly the strings whose number is a 64-bit signed integer; failure leaves 0 |
| Numbers.UnsignedVerdict | memcached-1.4/util.c:20-36 | the scan and the checks agree with the grammar on which strings denote a number and which number |
| Numbers.ScanComplete | memcached-1.4/util.c:20-20 | every decomposition into white space, sign, digits and rest is the one the library's scan finds |
| Numbers.OneCharacter | memcached-1.4/util.c:15-55 | a single character is accepted by either function if and only if it is a digit, and gives that digit |
| Numbers.AppendDigit | memcached-1.4/util.c:20-20 | one more digit gives ten times the number plus the digit, if and only if that is below 2^64 (signed: 2^63); digits out of range stay out of range |
| Numbers.ZeroAndSigns | memcached-1.4/util.c:20-45 | a leading zero or plus sign changes nothing, and in the signed form a minus sign negates |
| Numbers.SpaceInFront | memcached-1.4/util.c:20-45 | any of the six white-space characters in front of any string changes nothing |
| Numbers.NextCharacter | memcached-1.4/util.c:26-52 | after the digits, a further character is accepted if and only if it is white space, whatever follows it, save for a dash when the unsigned value is at least 2^63 |
| Numbers.UnsignedRoundTrip | memcached-1.4/util.c:15-38 | the decimal print of n is read back as n if and only if n < 2^64, and as nothing else |
| Numbers.MinusSignVerdict | memcached-1.4/util.c:26-33 | with a minus sign, magnitude 0 and magnitudes strictly between 2^63 and 2^64 are accepted, the latter wrapped around; magnitudes 1 to 2^63 are rejected |
| Numbers.LaterDashVerdict | memcached-1.4/util.c:30-30 | whatever follows the number after white space, a dash anywhere in it makes the string unacceptable if and only if the value is at least 2^63 |
| Numbers.SignedRoundTrip | memcached-1.4/util.c:40-55 | every 64-bit signed integer survives printing and parsing, and no other integer is accepted |

## Left out

- The connection state machine and command processing (`memcached.c`), the LRU and reference counts (`items.c`), the slab allocator and its rebalancer (`slabs.c`) and the worker threads (`thread.c`).
- The locks of `assoc.c` (`item_lock_global`, `cache_lock`, the switch between lock types): each table operation and each bucket move is one atomic action of the model. Statistics and the condition variable are left out too.
- `hash_items`, `freetotal` and `freecurr` are unbounded: the model assumes these C integers do not overflow.
- AssocCode.HashTable.Delete: the assertion reached when the key is missing, which stops the program unless it is compiled out, is left out.
- AssocCode.HashTable.WriteKey: the key of an item is written only while the item is unlinked; how `items.c` allocates items is not part of this model.
- Murmur.MurmurHash3: requires a length below 2^31, because `nblocks` and `nblocks*4` are C ints.
- JenkinsPaths.JenkinsLittle: addresses do not wrap around, and `length` may be any natural number, of which the code uses the low 32 bits.
- PoolTheorems.NextHolderSees: clients touch only buffers they hold; writes to a buffer after freeing it are not modelled.
- CacheCode.Cache.Alloc: the two stores that stamp the redzones are one step of the pool, since only the allocating thread can reach the buffer between them.
- CacheCode.Cache.Free: requires that the caller holds the buffer; `raise(SIGABRT)` is taken to be ignored, as the redzone test arranges.
- Encoders.TouchCommand: reports a key that does not fit as an overrun and stops before the copy, where the code would write past the buffer; every encoder requires what the code's assertion checks and no more.
- Transport.SafeRecvPacket: a body longer than the buffer is reported as `Overrun`, where the code would write past the buffer.
- Transport.SafeSend: what `write`, `read`, `rand` and the thread flag do is a parameter; delays and debug output are left out.
- `safe_strtoul` and `safe_strtol`, which repeat the wider forms and narrow the result; `vperror`; the MSVC variants of the Murmur macros; range-operation packets.
- `daemon.c`, `sasl_defs.c`, `solaris_priv.c`, `timedrun.c`, `hash.c`, `stats.c`: process plumbing, callbacks into other libraries, a two-way selector and counters.
