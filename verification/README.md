# Verified models of C programs

This project models the C programs that the repository is about and proves properties of the models in Dafny. Six groups
of modules stand side by side; they share only a few helpers.

**Lock-free protocols.** `HashTable` and `HashTableRuns` model the compare-and-swap hash table as threads that take one
atomic access at a time, over a table of any size. `RaMachine` and `KvNodeRa` model the versioned node under
release/acquire, with views and messages as the machine defines them, and `KvNode` the same node under sequential
consistency. `Mailbox` models the one-writer, N-reader mailbox for any N, and `MailboxCode` ties the C functions to its
steps. The statements are about every interleaving and every run.

**Limb arithmetic of TweetNaCl.** `Limbs` gives limbs their value, `Bits` gives the C bit operators their meaning on
signed numbers, and `Compare` is the comparison of byte strings. `Poly1305` and `Poly1305Mac` cover the one-time
authenticator, `Field25519`, `Field25519Mul` and `Field25519Pack` the field of 2^255 - 19 in 16 signed limbs, `X25519`
the ladder, `X25519Curve` the curve behind its formulas, `ModL` reduction modulo the group order. Limbs are mathematical
integers; that they stay in range is proved wherever the C type could overflow: 32-bit limbs in Poly1305 (`U32` is the
wrap-around), 64-bit limbs in the field (`I64`). In `ModL` no quantity passes 2^35 by the bounds of `RowLimb`. The table
L is unsigned in C, so products with it are taken modulo 2^64 and, in this range, come back unchanged. A left shift of a
negative limb is a multiplication, a right shift rounds down.

**SHA-256 and what is built on it.** `Fips180` is the standard on whole messages; `Sha256` is the incremental code.
`Fips180Constants` derives its constants from the primes. `HmacSha256`, `Hkdf` and `HmacDrbg` follow the contexts of the
C code; `Sp800_90A` is the generator of the standard on values, `DrbgMacs` what it computes in terms of HMAC alone, and
`DrbgRuns` compares whole runs. The key of an HMAC context, and K of the generator, exist only as ghost fields: the code
recovers their effect from the saved hash states, and the contracts say so. Words are 32-bit vectors; the two length
counters are numbers below 2^32 that wrap around explicitly. What the entropy source, `malloc` and the callers' buffers
hold are parameters.

**AES-256.** `Gf256` is arithmetic of bytes, `Fips197` the reference cipher in rows and columns after
`aes/spec_AES256_HL.v` (its S-box is the algebraic one of the standard, and decryption is the equivalent inverse cipher
of the standard), `AesTables` the generation of the tables, `AesWords`, `Aes` and `AesContext` the code on words.
`Streams` and `Sp800_38A` define the modes as steps on a carried state over any block cipher, and `AesModes` is their
code on buffers that may coincide.

**The allocator.** `MallocSizes` is the size arithmetic for any word size, `MallocHeap` the invariant of the whole heap
and what keeps it, `MallocCarve` the cutting of big blocks, `MallocCode` the code. Memory is a map with one number per
accessible word; addresses count words, sizes count bytes. Reading or writing a word outside a mapping is impossible in
the model, so memory safety is part of what is proved. `mmap0` answers as the operating system chooses, within its
specification. As in the repository's own specification, a request whose padded length would wrap around is the caller's
error: lengths are computed modulo the number of values of `size_t`, `Malloc` requires that the padded length is below
it, and `LargeRequestWraps` says that this is exactly the condition for the mapping to be long enough.

**The search tree.** `Bst` says what insert, lookup and delete by rotation mean on trees and on maps; `BstHeap` is the
code that walks by the place where a pointer is stored (a box, or a field of a node), over memory as a map from
addresses to nodes.

Where code and comments disagree the code is followed. Two points matter. The hash table treats key 0 as a free slot:
`SafeWithoutZero` gives the exact condition on the keys for linearizability, and `ZeroKeyBreaks` a run that shows it.
The comment in `mbedtls_hmac_drbg_seed` says that V is all zero when it keys the HMAC. That holds for the first seed
that gets its memory; a later one is keyed by whatever V then is. `StandardSetUp`, `FirstSeed` and `FailedSeed` say when
the code starts as the standard prescribes, and `RetriedSeed` is a run in which it does not. `prediction_resistance` and
the intervals of the generator are integers without overflow.

Reference definitions are themselves held to something else: to laws that name no constant of theirs, and in
`Fips180Example`, `Poly1305Example` and `Fips197Example` to the examples of the standards, proved step by step.

Some functions of the C code are split: a method whose comment names a part or a loop of a C function is that part.

## Model

| member | source | states |
|---|---|---|
| HashTable.Apply | atomics/hashtable_atomic.c:22-80 | a call, one atomic load, compare-and-swap or store of set_item, get_item or add_item, or a return; the table keeps its size, and the threads are the same |
| HashTable.AccessKeeps | atomics/hashtable_atomic.c:18-80 | every atomic access keeps the table sound: keys are unique, free slots hold no value, and the probe path of each key from its hash to its slot has no free cell |
| HashTable.AccessRefines | atomics/hashtable_atomic.c:18-80 | every access either leaves the abstract map alone or is the one instant at which the running operation takes effect on it, with the result it will return |
| HashTable.RunInv | atomics/hashtable_atomic.c:18-80 | every run of any number of threads, over a table of any size, keeps table, program points and linearization in step |
| HashTable.Linearizable | atomics/hashtable_atomic.c:57-61 | for non-zero keys, every run is linearizable to a map in which 0 is absence: some order of the operations explains every answer and respects what returned before what was called |
| HashTableRuns.TableSound | atomics/hashtable_atomic.c:18-80 | in every state of every run the table is sound |
| HashTableRuns.KeysStay | atomics/hashtable_atomic.c:28-36 | a key cell changes once in a run, from 0 to a key |
| HashTableRuns.ValuesChangeBySet | atomics/hashtable_atomic.c:38-52 | in every run, a value cell that is not 0 changes only by the store of a set_item, and then to what that stores; add_item never overwrites |
| HashTableRuns.AnswersFromStores | atomics/hashtable_atomic.c:62-80 | in a legal sequential order get_item answers the value last stored under its key, and add_item 1 exactly when that is 0 |
| HashTableRuns.HashIsProduct | atomics/hashtable_atomic.c:8-16 | the hash is the int congruent to the product of the key modulo 2^32 |
| HashTableRuns.NoneWaits | atomics/hashtable_atomic.c:18-80 | no thread ever waits for another |
| HashTableRuns.AddsCounted | atomics/hashtable_atomic.c:62-80 | after a run of adds only, as many adds returned 1 as there are distinct keys, and as many slots have their value cell set |
| HashTableRuns.ZeroKeyBreaks | atomics/hashtable_atomic.c:28-36 | with key 0 the table is not linearizable: a two-call run on one thread with an answer no order explains, for every table size and every key that shares key 0's slot |
| HashTableRuns.SafeWithoutZero | atomics/hashtable_atomic.c:28-36 | for a set of keys, one of them not 0 and starting at key 0's slot: every run on keys of the set is linearizable if and only if 0 is not in it |
| HashTableRuns.ZeroKeyBreaksHere | atomics/hashtable_atomic.c:6-19 | such a key exists at the source's table size |
| HashTableRuns.StartIsMask | atomics/hashtable_atomic.c:18-25 | for a table of 2^k slots the first slot is the hash masked with 2^k - 1, for every int key |
| HashTableRuns.NextIsMask | atomics/hashtable_atomic.c:23-25 | idx++ and the mask go round the table |
| RaMachine.Join | atomics/RA_machine.v:20-23 | the join of two views is above both, and at every place it is one of the two |
| RaMachine.JoinIsLeast | atomics/RA_machine.v:20-23 | and it is below every view that is above both |
| KvNodeRa.AccessesAreSteps | atomics/RA_machine.v:35-48 | the node's acquire loads and release stores are steps of the release/acquire machine |
| KvNodeRa.ReadsAnyMessage | atomics/RA_machine.v:35-48 | an acquire load may read any message that the reader's view does not rule out, however old |
| KvNodeRa.CopyOne | atomics/kvnode_atomic_ra.c:16-19 | copying one more cell: it is of the snapshot's write, or the reader's view has moved past the start of a later write |
| KvNodeRa.CheckCertifies | atomics/kvnode_atomic_ra.c:20-21 | reading the version again and finding the snapshot certifies all eight copied cells |
| KvNodeRa.ReaderStepInv | atomics/kvnode_atomic_ra.c:11-23 | every step of a reader keeps the invariant of the whole system |
| KvNodeRa.WriterStepInv | atomics/kvnode_atomic_ra.c:26-36 | every step of the writer keeps the invariant of the whole system |
| KvNodeRa.RunInv | atomics/kvnode_atomic_ra.c:11-36 | the invariant holds in every state of every run, for any number of readers |
| KvNodeRa.ReadsOneWrite | atomics/kvnode_atomic_ra.c:11-36 | a read that returns has copied exactly the eight values of one write, the one whose version is its snapshot, and no older one than the same reader got before |
| KvNodeRa.MakeNode | atomics/kvnode_atomic_ra.c:38-49 | the nine plain writes of make_node leave the node that a run starts from |
| KvNode.ReadsOneWrite | atomics/kvnode_atomic.c:5-30 | the same under sequential consistency |
| KvNode.CheckedAtOnce | atomics/kvnode_atomic.c:14-15 | and there the cells are the copy at the very instant of the second look at the version |
| KvNode.RunInv | atomics/kvnode_atomic.c:5-30 | the invariant of the sequentially consistent system, over every run |
| Mailbox.FirstFree | mailbox/mailbox.c:99-117 | start_write takes the first buffer that is neither last given nor last taken by any reader, if there is one |
| Mailbox.AlwaysFree | mailbox/mailbox.c:111-118 | with N + 2 buffers for N readers there always is one, so exit(1) is not reached |
| Mailbox.StepInv | mailbox/mailbox.c:67-134 | every atomic exchange and every step of reader or writer keeps the invariant |
| Mailbox.RunInv | mailbox/mailbox.c:67-134 | the invariant over every interleaving, for any N |
| Mailbox.NoneWaits | mailbox/mailbox.c:67-134 | nobody waits: each reader and the writer can make a step in every state the invariant allows |
| Mailbox.NoConflict | mailbox/mailbox.c:67-134 | the buffer being filled is none that a reader reads, would read again, or could take, and the writer has not exited |
| Mailbox.StampStep | mailbox/mailbox.c:67-80 | a take moves a reader to the buffer given last, whose write is no older; no other step changes what the reader holds |
| Mailbox.ReadsAreMonotone | mailbox/mailbox.c:136-160 | the write numbers a reader sees never decrease over a run |
| Mailbox.HeldUnchanged | mailbox/mailbox.c:67-80 | until its next successful take, a reader's buffer and its content stay as they are |
| Mailbox.ReadsLastFinished | mailbox/mailbox.c:99-134 | a take outside finish_write gets the buffer of the last finished write; inside, the one being given or the one before, by whether the loop has reached the reader |
| MailboxCode.Channels.constructor | mailbox/mailbox.c:40-65 | initialize_channels, initialize_reader and initialize_writer give the initial state of the step system |
| MailboxCode.Channels.Exchange | mailbox/mailbox.c:73-73 | the atomic exchange on a reader's cell |
| MailboxCode.Channels.StartRead | mailbox/mailbox.c:67-80 | start_read is the take step |
| MailboxCode.Channels.FinishRead | mailbox/mailbox.c:82-86 | finish_read is the release step |
| MailboxCode.Channels.StartWrite | mailbox/mailbox.c:99-119 | the loops over available find a buffer exactly when one is free, the first one, and that is the start-write step |
| MailboxCode.Channels.FinishWrite | mailbox/mailbox.c:121-134 | the loop of exchanges is the sequence of give steps, one per reader, and the end-write step |
| Poly1305.AccumulateIsPowerSum | tweetnacl20140427/tweetnacl.c:199-224 | the accumulator of RFC 8439 section 2.5 is the sum of the 1-suffixed blocks times descending powers of r, modulo 2^130 - 5 |
| Poly1305.Add1305 | tweetnacl20140427/tweetnacl.c:171-179 | 17 byte limbs are added with carries; the number is the sum, limb by limb reduced, with no 32-bit overflow |
| Poly1305.MulR | tweetnacl20140427/tweetnacl.c:205-209 | the inner double loop computes the product by r modulo 2^130 - 5 in unreduced limbs, none of which reaches 2^32 |
| Poly1305.CarryPass | tweetnacl20140427/tweetnacl.c:210-215 | one carry pass keeps the number and reduces the limbs below the top one |
| Poly1305.Squeeze | tweetnacl20140427/tweetnacl.c:210-223 | both passes and the fold by 5: the same residue in byte limbs, below 2(2^130 - 5) |
| Poly1305Mac.AndBytes | tweetnacl20140427/tweetnacl.c:190-197 | masking bytes one by one masks the number |
| Poly1305Mac.LoadR | tweetnacl20140427/tweetnacl.c:189-197 | r is loaded and clamped as RFC 8439 prescribes: bytes 3, 7, 11 and 15 lose their high four bits, bytes 4, 8 and 12 their low two, and all others are kept |
| Poly1305Mac.LoadBlock | tweetnacl20140427/tweetnacl.c:200-203 | a block of up to 16 bytes is loaded with its 1 suffix |
| Poly1305Mac.Block | tweetnacl20140427/tweetnacl.c:199-224 | one turn of the loop is one step of the accumulator, and keeps it below 2(2^130 - 5) |
| Poly1305Mac.Freeze | tweetnacl20140427/tweetnacl.c:226-229 | adding -p and selecting by the sign mask gives the canonical residue |
| Poly1305Mac.AddSecret | tweetnacl20140427/tweetnacl.c:231-233 | the second half of the key is added modulo 2^128 |
| Poly1305Mac.Onetimeauth | tweetnacl20140427/tweetnacl.c:185-236 | for every message and 32-byte key, the 16 bytes are the Poly1305 tag of RFC 8439 section 2.5 |
| Poly1305Mac.BlocksInOrder | tweetnacl20140427/tweetnacl.c:199-203 | the blocks of a message are its pieces of sixteen bytes in order, each with 2^(8 length) added |
| Poly1305Mac.TagIsPolynomial | tweetnacl20140427/tweetnacl.c:185-236 | the tag in one formula, from the bytes of the key: blocks times descending powers of the clamped half modulo 2^130 - 5, plus the other half modulo 2^128 |
| Poly1305Example.TagOfExample | tweetnacl20140427/tweetnacl.c:185-236 | the tag of the example in RFC 8439 section 2.5.2 |
| Compare.Vn | tweetnacl20140427/tweetnacl.c:54-59 | 0 for equal byte strings and -1 for others, without a branch on the bytes |
| Poly1305Mac.OnetimeauthVerify | tweetnacl20140427/tweetnacl.c:238-243 | 0 for the tag of the message and -1 for every other 16 bytes |
| Field25519.Car | tweetnacl20140427/tweetnacl.c:273-283 | one carry pass over 16 signed limbs, as an explicit function of the limbs; no 64-bit overflow within the stated range |
| Field25519.CarriedVal | tweetnacl20140427/tweetnacl.c:273-283 | a carry pass keeps the number modulo 2^255 - 19 |
| Field25519.FirstPass | tweetnacl20140427/tweetnacl.c:273-283 | what a first carry pass does to limbs of up to 44 bits |
| Field25519.SecondPass | tweetnacl20140427/tweetnacl.c:273-283 | a second pass brings limbs into reduced range |
| Field25519.ThirdPass | tweetnacl20140427/tweetnacl.c:273-303 | a third pass makes every limb a 16-bit digit |
| Field25519.Sel | tweetnacl20140427/tweetnacl.c:285-293 | swaps two elements exactly when the bit is 1, by masking |
| Field25519.A | tweetnacl20140427/tweetnacl.c:342-346 | addition limb by limb of any limbs whose sums are 64-bit words, and so of the numbers; the limb range the callers rely on when both are reduced |
| Field25519.Z | tweetnacl20140427/tweetnacl.c:348-352 | the same for subtraction |
| Field25519Mul.Product | tweetnacl20140427/tweetnacl.c:354-358 | the 31 limb sums are the product of the numbers; no product or sum overflows 64 bits |
| Field25519Mul.FoldVal | tweetnacl20140427/tweetnacl.c:359-360 | folding the upper limbs 38 times keeps the residue |
| Field25519Mul.M | tweetnacl20140427/tweetnacl.c:354-363 | the product modulo 2^255 - 19 in reduced limbs, the result possibly in place of an argument |
| Field25519Mul.S | tweetnacl20140427/tweetnacl.c:365-368 | the square |
| Field25519Mul.InversePower | tweetnacl20140427/tweetnacl.c:370-380 | squaring 254 times and multiplying except at 2 and 4 gives the exponent 2^255 - 21 |
| Field25519Mul.Inv | tweetnacl20140427/tweetnacl.c:370-380 | the element to the power 2^255 - 21 |
| Field25519Pack.SubP | tweetnacl20140427/tweetnacl.c:303-312 | one conditional subtraction of p, with its borrow bit |
| Field25519Pack.Pack | tweetnacl20140427/tweetnacl.c:295-318 | the 32 bytes of the one number in [0, p) congruent to the element |
| Field25519Pack.Unpack | tweetnacl20140427/tweetnacl.c:335-340 | the element of the bytes, top bit ignored |
| Field25519Pack.PackUnpack | tweetnacl20140427/tweetnacl.c:295-340 | an element packed and unpacked again is the canonical one congruent to it |
| Field25519Pack.UnpackPack | tweetnacl20140427/tweetnacl.c:295-340 | 32 bytes unpacked and packed again are the same bytes if and only if their number is below p |
| Field25519Pack.Neq25519 | tweetnacl20140427/tweetnacl.c:320-326 | packing both and comparing gives 0 if and only if the elements are congruent, and otherwise -1 |
| X25519.LaddersAgree | tweetnacl20140427/tweetnacl.c:408-432 | the ladder that swaps before and after each round is the ladder of RFC 7748 with its put-off swap |
| X25519.DecodedScalar | tweetnacl20140427/tweetnacl.c:399-401 | clamping gives a multiple of 8 with bit 254 set and nothing above it, and keeps every other bit |
| X25519.BitOfByte | tweetnacl20140427/tweetnacl.c:409-409 | bit i & 7 of byte i >> 3 is bit i of the scalar |
| X25519.Round | tweetnacl20140427/tweetnacl.c:412-429 | one turn of the loop between two swaps, on limb arrays, is one application of the ladder formulas, the limb ranges being kept |
| X25519.Formulas | tweetnacl20140427/tweetnacl.c:412-429 | the eighteen field operations of a turn are the ladder formulas of RFC 7748 section 5 modulo 2^255 - 19, every limb staying in range |
| X25519.Ladder | tweetnacl20140427/tweetnacl.c:403-432 | all 255 turns: the state is the RFC ladder's, and no limb leaves its range |
| X25519.Scalarmult | tweetnacl20140427/tweetnacl.c:394-443 | for every scalar and u-coordinate, the X25519 function of RFC 7748 section 5 |
| X25519Curve.RoundOnCurve | tweetnacl20140427/tweetnacl.c:412-429 | a round of the ladder doubles one point and adds the two: its four results as polynomials, with the coefficient 486662 of the curve |
| X25519Curve.TangentDoubles | tweetnacl20140427/tweetnacl.c:412-429 | the doubling formula is the group law, modulo any number: it gives the coordinate of the third point of the tangent at any point of the curve |
| X25519Curve.ChordSums | tweetnacl20140427/tweetnacl.c:412-429 | so is the addition formula: from two points of the curve and the coordinate of their difference it gives that of their sum |
| X25519Curve.OnlyRatios | tweetnacl20140427/tweetnacl.c:412-429 | both depend on the ratios X : Z only |
| X25519Curve.LadderIsMultiples | tweetnacl20140427/tweetnacl.c:408-432 | after the bits 254 .. t of a scalar, the ladder holds the coordinates of the multiples of the point by the number of those bits and by one more |
| X25519Curve.DecodedRange | tweetnacl20140427/tweetnacl.c:399-401 | a clamped scalar lies in [2^254, 2^255) |
| X25519Curve.ScalarMultiple | tweetnacl20140427/tweetnacl.c:394-443 | the X25519 function of every scalar is the coordinate of the multiple by the clamped scalar, divided by the power 2^255 - 21 |
| ModL.RowLimb | tweetnacl20140427/tweetnacl.c:682-686 | one limb of a row: the limb left is in -128 .. 127 and the carry shrinks along the row to almost nothing, on input limbs and on limbs already reduced |
| ModL.Row | tweetnacl20140427/tweetnacl.c:680-689 | one turn of the outer loop removes a top limb and keeps the residue modulo L |
| ModL.SubtractGuess | tweetnacl20140427/tweetnacl.c:691-695 | subtracting the guessed multiple of L, with its borrow |
| ModL.AddBack | tweetnacl20140427/tweetnacl.c:696-696 | adding L back if the guess was one too high |
| ModL.WriteOut | tweetnacl20140427/tweetnacl.c:697-700 | the final carries and bytes |
| ModL.Reduction | tweetnacl20140427/tweetnacl.c:677-701 | for 64 limbs of up to 2^21 in size, the 32 bytes of the one number in [0, L) congruent to them |
| ModL.Reduce | tweetnacl20140427/tweetnacl.c:703-709 | a 64-byte hash becomes its residue modulo L, the rest zero |
| ModL.Answer | tweetnacl20140427/tweetnacl.c:735-738 | the second half of a signature is r + h d modulo L |
| ModL.GroupOrder | tweetnacl20140427/tweetnacl.c:675-675 | L is 2^252 + 27742317777372353535851937790883648493 |
| Fips180.ScheduleWord | sha/sha.c:106-130 | the message schedule satisfies the equations of FIPS 180-4 section 6.2.2 |
| Fips180.Padding | sha/sha.c:202-222 | the padded message is the message, 0x80, zeros and eight bytes of length, in as few whole blocks as will hold it |
| Fips180Constants.PrimesInOrder | sha/sha.c:66-82 | the numbers behind the constants are the primes from 2 on, in ascending order without a gap |
| Fips180Constants.CubeRoots | sha/sha.c:66-82 | each of the 64 constants is the first 32 bits of the fractional part of the cube root of its prime (FIPS 180-4 section 4.2.2) |
| Fips180Constants.SquareRoots | sha/sha.c:143-149 | each of the eight initial words is that of the square root (section 5.3.3) |
| Fips180Example.DigestOfAbc | sha/sha.c:233-238 | the digest of the three bytes abc |
| Sha256.RingWord | sha/sha.c:118-124 | the word computed from the ring X of 16 is the next word of the 64-word schedule |
| Sha256.RingStep | sha/sha.c:118-124 | putting it in cell i & 15 keeps the ring the last 16 words |
| Sha256.RoundIs | sha/sha.c:106-130 | the assignments that end a round, with rotations to the left, are the round of the standard with rotations to the right |
| Sha256.NextInRing | sha/sha.c:118-124 | the first half of a turn of the second loop |
| Sha256.Context.BlockDataOrder | sha/sha.c:96-141 | the hash value after one block, as FIPS 180-4 section 6.2.2 defines it |
| Sha256.Context.Init | sha/sha.c:143-151 | the context stands for the empty message |
| Sha256.LengthAdds | sha/sha.c:153-161 | Nh and Nl together are the length in bits modulo 2^64, across every carry, for a length of any size |
| Sha256.Context.AddLength | sha/sha.c:153-161 | the method does that |
| Sha256.Context.Update | sha/sha.c:163-200 | the context then stands for the longer message, however the pieces fall on blocks |
| Sha256.Context.WholeBlocks | sha/sha.c:188-192 | the loop over whole blocks |
| Sha256.Context.CompletePending | sha/sha.c:173-180 | completing a block that was begun |
| Sha256.PadTail | sha/sha.c:202-222 | the last one or two blocks of the padded message of FIPS 180-4 section 5.1.1 |
| Sha256.Context.StartPadding | sha/sha.c:207-215 | the end mark, with a block of its own if there is no room for the length |
| Sha256.Context.Final | sha/sha.c:202-231 | the FIPS 180-4 digest of everything absorbed, the length field modulo 2^64 |
| Sha256.Sha256 | sha/sha.c:233-238 | the digest of one buffer |
| Sha256.DigestOfParts | sha/sha.c:163-231 | for any split of a message over calls of SHA256_Update, the digest of the whole message |
| HmacSha256.ShortKeys | sha/hmac.c:109-112 | trailing zeros of a key that fits a block make no difference, so no salt and a salt of zeros are one |
| HmacSha256.LongKeys | sha/hmac.c:101-107 | a key longer than a block and its digest are the same key |
| HmacSha256.PadBytes | sha/hmac.c:117-136 | the pads are the key, filled with zeros, combined with 0x36 and with 0x5c; they differ by 0x6a in every byte |
| HmacSha256.MacOfShortKey | sha/hmac.c:96-180 | RFC 2104 for a key of at most a block, on the bytes of the two pads |
| HmacSha256.HmacContext.BlockKey | sha/hmac.c:96-114 | the key brought to the length of a block |
| HmacSha256.HmacContext.SaveKey | sha/hmac.c:117-142 | the two saved hashes stand for the padded key |
| HmacSha256.HmacContext.Init | sha/hmac.c:70-146 | a new key, or with NULL the last one, and nothing absorbed yet |
| HmacSha256.HmacContext.Update | sha/hmac.c:150-153 | absorbs more text under the same key |
| HmacSha256.HmacContext.Final | sha/hmac.c:155-180 | the HMAC of RFC 2104 section 2 of the text; the key survives in the saved hashes |
| HmacSha256.Hmac | sha/hmac.c:187-206 | HMAC in one call |
| Hkdf.Extract | sha/hkdf.c:33-49 | HMAC under the salt; always succeeds |
| Hkdf.Block | sha/hkdf.c:79-98 | one turn of the loop gives the next T of RFC 5869, from a context re-started without its key |
| Hkdf.BlockCount | sha/hkdf.c:66-70 | the length test, computed with wrap-around, rejects exactly the lengths above 255 * 32 |
| Hkdf.Expand | sha/hkdf.c:51-116 | the first bytes of T(1) | T(2) | ... of RFC 5869 section 2.3 for every length up to 255 * 32, and nothing written above that or beyond the length |
| Hkdf.ShorterIsPrefix | sha/hkdf.c:100-106 | a shorter key is a prefix of a longer one from the same secret |
| Hkdf.ExpandedBlock | sha/hkdf.c:75-110 | the first 32 bytes are the code of info and 1, each later block that of the block before, info and its number (RFC 5869 section 2.3) |
| Hkdf.Hkdf | sha/hkdf.c:118-136 | extract, then expand; 0 exactly when the length is too large |
| Sp800_90A.ShorterRequest | hmacdrbg/hmac_drbg.c:370-381 | a shorter request from the same state yields a prefix of a longer one |
| HmacDrbg.Drbg.constructor | hmacdrbg/hmac_drbg.c:125-132 | the freshly initialised context |
| HmacDrbg.Drbg.UpdateRound | hmacdrbg/hmac_drbg.c:152-167 | one turn of the loop is one half of HMAC_DRBG_Update, the key being taken from the saved hashes alone |
| HmacDrbg.Drbg.Update | hmacdrbg/hmac_drbg.c:137-168 | HMAC_DRBG_Update of SP 800-90A section 10.1.2.2 on the implicit K and on V |
| HmacDrbg.Drbg.Reseed | hmacdrbg/hmac_drbg.c:198-238 | sections 9.2 and 10.1.2.4, with the length and entropy errors; an error changes nothing |
| HmacDrbg.Drbg.Seed | hmacdrbg/hmac_drbg.c:243-294 | section 10.1.2.3 keyed by whatever V was; what is left behind when memory or entropy fails, on a new context or one that has been seeded |
| HmacDrbg.Drbg.SeedBuf | hmacdrbg/hmac_drbg.c:173-193 | the simplified initialisation is one update from the set-up state |
| HmacDrbg.Drbg.Fetch | hmacdrbg/hmac_drbg.c:370-381 | the output loop yields the first bytes of the chain of codes, and leaves V at its end |
| HmacDrbg.Drbg.RandomWithAdd | hmacdrbg/hmac_drbg.c:325-393 | sections 9.3 and 10.1.2.5: limits, reseeding when due or under prediction resistance, additional input used once, output and new state |
| HmacDrbg.Drbg.Random | hmacdrbg/hmac_drbg.c:398-416 | the same without additional input |
| DrbgMacs.UpdateMacs | hmacdrbg/hmac_drbg.c:137-168 | HMAC_DRBG_Update in two codes without data and in four with it |
| DrbgMacs.ReseedMacs | hmacdrbg/hmac_drbg.c:230-234 | reseeding is four codes over the entropy and the additional input, and the counter is 1 |
| DrbgMacs.InstantiateMacs | hmacdrbg/hmac_drbg.c:257-290 | so is instantiation, from a key of zeros and a V of ones |
| DrbgMacs.PlainRequest | hmacdrbg/hmac_drbg.c:366-388 | a request of whole blocks without additional input: the first block is the code of V, each next one that of the block before, and K and V come from the last block by two codes |
| DrbgMacs.RequestWithInput | hmacdrbg/hmac_drbg.c:366-388 | with additional input: four codes before, the blocks, and four codes after |
| DrbgMacs.PartRequest | hmacdrbg/hmac_drbg.c:370-388 | a request that ends inside a block gets the first bytes of a longer one and leaves the same state |
| DrbgMacs.RandomReturns | hmacdrbg/hmac_drbg.c:345-364 | what a call answers, for every length, input, setting and entropy; a call that fails changes and returns nothing |
| DrbgMacs.PlainCall | hmacdrbg/hmac_drbg.c:325-393 | the codes of PlainRequest, for the call that need not reseed |
| DrbgMacs.CallWithInput | hmacdrbg/hmac_drbg.c:325-393 | the codes of RequestWithInput, for the call that need not reseed |
| DrbgMacs.ReseedingCall | hmacdrbg/hmac_drbg.c:325-393 | for the call that reseeds first: its input goes into the reseeding and not into the request |
| DrbgMacs.ReseedReturns | hmacdrbg/hmac_drbg.c:198-238 | what reseeding answers, and the four codes of the new state |
| DrbgMacs.SeedReturns | hmacdrbg/hmac_drbg.c:243-294 | what seeding answers, and the four codes of the new state, from the V it finds |
| DrbgRuns.FreshSeed | hmacdrbg/hmac_drbg.c:243-294 | seeding a context whose V is still zero is Instantiate of the standard, although no key is ever given |
| DrbgRuns.StandardSetUp | hmacdrbg/hmac_drbg.c:258-264 | a seed function starts from the key and V that section 10.1.2.3 prescribes if and only if V was all zero |
| DrbgRuns.FirstSeed | hmacdrbg/hmac_drbg.c:243-294 | in every run from init, the first seed that gets its memory is Instantiate, or fails |
| DrbgRuns.FailedSeed | hmacdrbg/hmac_drbg.c:258-290 | a seed that fails after getting memory leaves V all ones and K the old V, so the next one does not start as prescribed |
| DrbgRuns.RetriedSeed | hmacdrbg/hmac_drbg.c:258-264 | the run of two calls that shows it: a seed tried again after the entropy source failed starts from a key of all ones |
| DrbgRuns.NoMemory | hmacdrbg/hmac_drbg.c:253-254 | a seed function that gets no memory says so and does nothing |
| DrbgRuns.Run | hmacdrbg/hmac_drbg.c:173-393 | every run of seed, seed_buf, reseed, random and settings calls, memory and entropy failing at will, replies and ends as the functions of the standard do, a seed being keyed by the V it finds |
| DrbgRuns.RunFromNew | hmacdrbg/hmac_drbg.c:125-393 | so does every run from init on, whatever its seeds come to |
| DrbgRuns.FailureChangesNothing | hmacdrbg/hmac_drbg.c:198-238 | a call that fails, other than a seed that got its memory, leaves K, V, the counter and the settings as they were |
| DrbgRuns.RunCounter | hmacdrbg/hmac_drbg.c:352-388 | the reseed counter never passes the interval by more than one, in any run |
| DrbgRuns.ResistanceReseeds | hmacdrbg/hmac_drbg.c:352-363 | under prediction resistance every served request has reseeded with fresh entropy and its additional input |
| Gf256.PowAdd | aes/mbedtls/library/aes.c:405-410 | multiplying powers of x + 1 adds exponents |
| Gf256.Generates | aes/mbedtls/library/aes.c:405-410 | every byte but zero is one power of x + 1 below 255, so the log table has no gaps |
| Gf256.MultAssoc | aes/spec_AES256_HL.v:37-53 | multiplication of bytes as polynomials is associative |
| Gf256.MultLinear | aes/spec_AES256_HL.v:37-53 | and linear |
| Gf256.Doubling | aes/mbedtls/library/aes.c:373-373 | products by 2 and 3 in shifts, with the polynomial x^8 + x^4 + x^3 + x + 1 |
| Gf256.MultByBits | aes/spec_AES256_HL.v:37-53 | any product is the sum of the doublings that the bits of one factor select |
| Gf256.InverseUnique | aes/mbedtls/library/aes.c:427-431 | inverses are unique and mutual |
| AesTables.PowerTables | aes/mbedtls/library/aes.c:405-410 | the first loop of aes_gen_tables: powers, and logarithms of every byte but zero |
| AesTables.MulByLog | aes/mbedtls/library/aes.c:378-388 | the macro MUL multiplies, zero operands included |
| AesTables.Tables.GenConstants | aes/mbedtls/library/aes.c:415-419 | the ten round constants: 1, and then each the product by 2 of the one before |
| AesTables.Tables.GenBoxes | aes/mbedtls/library/aes.c:424-440 | FSb is the affine transformation of the inverse (FIPS 197 section 5.1.1), RSb its inverse, at every byte |
| AesTables.Tables.GenMixers | aes/mbedtls/library/aes.c:445-481 | every entry of the eight mixing tables is the substituted byte times a column of its matrix, turned by 0 to 3 rows |
| AesTables.Tables.GenTables | aes/mbedtls/library/aes.c:392-482 | aes_gen_tables makes all tables correct |
| Fips197.SubByteTwoWays | aes/mbedtls/library/aes.c:424-440 | the two S-boxes are inverse to each other |
| Fips197.RconDoubles | aes/mbedtls/library/aes.c:415-419 | the constants of the key expansion are 1 and its doublings, in the first byte |
| Fips197.MixColumnIs | aes/spec_AES256_HL.v:85-121 | MixColumns with doubling as its only product |
| Fips197Example.CipherOfExample | aes/mbedtls/library/aes.c:705-850 | the ciphertext of the example in FIPS 197 appendix C.3, through all sixty key words and fourteen rounds |
| Fips197.InvMixLinear | aes/mbedtls/library/aes.c:665-687 | InvMixColumns is linear |
| Fips197.InvMixMix | aes/spec_AES256_HL.v:85-121 | the inverse matrix times the matrix is the identity |
| Fips197.RoundBack | aes/mbedtls/library/aes.c:705-765 | one round of the equivalent inverse cipher undoes one round of the cipher |
| Fips197.DecryptEncrypt | aes/mbedtls/library/aes.c:705-975 | for any round keys and any block, the equivalent inverse cipher of FIPS 197 section 5.3.5 undoes the cipher |
| AesWords.XorPack | aes/mbedtls/library/aes.c:781-784 | exclusive or of little-endian words is addition of columns |
| AesWords.UnpackPack | aes/mbedtls/library/aes.c:68-86 | GET_UINT32_LE and the byte selections undo each other |
| AesContext.NextWords | aes/spec_AES256_HL.v:163-196 | the three kinds of words of the key expansion (FIPS 197 figure 11) |
| AesContext.Context.ExpandHalf | aes/mbedtls/library/aes.c:551-575 | the first four words of a turn |
| AesContext.Context.ExpandOther | aes/mbedtls/library/aes.c:583-605 | the other four |
| AesContext.Context.SetKeyEnc | aes/mbedtls/library/aes.c:503-611 | for every 256-bit key, the schedule of FIPS 197 section 5.2, the tables being made first if need be |
| AesContext.MixColumnOf | aes/mbedtls/library/aes.c:675-685 | RT and FSb looked up one after the other mix a key word inversely |
| AesContext.Context.SetKeyDec | aes/mbedtls/library/aes.c:618-702 | the round keys in reverse order, all but the first and last mixed inversely |
| Aes.FColumn | aes/mbedtls/library/aes.c:705-734 | one column of AES_FROUND is MixColumns of the substituted bytes plus the key word |
| Aes.RColumn | aes/mbedtls/library/aes.c:736-765 | one column of AES_RROUND, inversely |
| Aes.FRound | aes/mbedtls/library/aes.c:705-734 | AES_FROUND on four words is a round of the standard on the transposed state |
| Aes.RRound | aes/mbedtls/library/aes.c:736-765 | AES_RROUND is a round of the equivalent inverse cipher |
| AesContext.FirstRoundIs | aes/mbedtls/library/aes.c:781-784 | loading a block in little-endian words and adding the first key is AddRoundKey on its state in rows |
| AesContext.Context.Encrypt | aes/mbedtls/library/aes.c:771-870 | with a schedule in place, the Cipher of FIPS 197 section 5.1 |
| AesContext.Context.Decrypt | aes/mbedtls/library/aes.c:876-975 | with a schedule in place, the equivalent inverse cipher |
| AesContext.DecryptUndoesEncrypt | aes/mbedtls/library/aes.c:503-975 | for every key and block, decryption under the decryption schedule gives the block back |
| AesContext.RoundTrip | aes/mbedtls/library/aes.c:503-975 | the same for the four functions called one after the other on one buffer |
| AesPair.PairIsProper | aes/mbedtls/library/aes.c:981-1009 | AES-256 under a key is a block cipher as the modes below require |
| Streams.RunSplit | aes/mbedtls/library/aes.c:1015-1190 | two calls in a row with the state carried over are one call, for every byte- or block-wise mode |
| Streams.RunBack | aes/mbedtls/library/aes.c:1015-1190 | a mode whose step undoes another's undoes whole runs of it and ends in the same state |
| Sp800_38A.CbcRoundTrip | aes/mbedtls/library/aes.c:1015-1074 | CBC decryption undoes CBC encryption and carries the same iv on |
| Sp800_38A.CbcEquations | aes/mbedtls/library/aes.c:1059-1070 | the equations of SP 800-38A section 6.2 |
| Sp800_38A.CbcSplit | aes/mbedtls/library/aes.c:1015-1074 | CBC in two calls |
| Sp800_38A.Cfb128RoundTrip | aes/mbedtls/library/aes.c:1081-1122 | CFB128 decryption undoes encryption for every length and starting offset |
| Sp800_38A.Cfb8RoundTrip | aes/mbedtls/library/aes.c:1127-1154 | CFB8 decryption undoes encryption |
| Sp800_38A.Cfb128Equations | aes/mbedtls/library/aes.c:1081-1122 | the equations of SP 800-38A section 6.3 for 128-bit segments, from any register and offset |
| Sp800_38A.Cfb8Equations | aes/mbedtls/library/aes.c:1127-1154 | the same for 8-bit segments |
| Sp800_38A.IncrementIs | aes/mbedtls/library/aes.c:1177-1179 | the loop's carry is addition of one to a big-endian number modulo 2^128 |
| Sp800_38A.FirstByteLeads | aes/mbedtls/library/aes.c:1177-1179 | the counter is a number with its first byte most significant |
| Sp800_38A.CtrRoundTrip | aes/mbedtls/library/aes.c:1161-1190 | CTR is its own inverse from any counter, stream block and offset |
| Sp800_38A.CtrEquations | aes/mbedtls/library/aes.c:1161-1190 | the equations of SP 800-38A section 6.5 from any counter, stream block and offset: at position j of the key stream a byte is combined with byte j mod 16 of the block in use at the start, or of an encrypted counter whose value is the 128-bit number of the start plus the counters used since, modulo 2^128 |
| AesModes.CryptCbc | aes/mbedtls/library/aes.c:1015-1074 | mbedtls_aes_crypt_cbc, also in place; lengths that are no multiple of 16 change nothing |
| AesModes.CryptCfb128 | aes/mbedtls/library/aes.c:1081-1122 | mbedtls_aes_crypt_cfb128, also in place |
| AesModes.CryptCfb8 | aes/mbedtls/library/aes.c:1127-1154 | mbedtls_aes_crypt_cfb8, also in place |
| AesModes.StepCounter | aes/mbedtls/library/aes.c:1177-1179 | the counter loop, on the bytes |
| AesModes.CryptCtr | aes/mbedtls/library/aes.c:1161-1190 | mbedtls_aes_crypt_ctr, also in place |
| MallocSizes.SizeFits | progs/memmgr/malloc.c:8-20 | the bin chosen for a size is the smallest whose chunks hold it, for any word size |
| MallocSizes.BinBack | progs/memmgr/malloc.c:8-20 | size2bin undoes bin2size |
| MallocSizes.ChunkCount | progs/memmgr/malloc.c:33-34 | how many chunks of a bin a big block yields, at least one, and they fit |
| MallocHeap.FreeListShape | progs/memmgr/malloc.c:22-27 | every chunk of a bin's list is aligned, free, has its bin's size in the header, is there once, and is linked to the next |
| MallocHeap.Apart | progs/memmgr/malloc.c:8-27 | no word of a block or its header belongs to another block |
| MallocHeap.PopSound | progs/memmgr/malloc.c:97-111 | taking the head of a list keeps the whole heap sound and every block in use as it was |
| MallocHeap.PushSound | progs/memmgr/malloc.c:124-129 | so does putting a block back at the head of its own bin's list |
| MallocHeap.LargeSound | progs/memmgr/malloc.c:113-121 | so does a block with a mapping of its own |
| MallocHeap.UnmapSound | progs/memmgr/malloc.c:131-133 | so does giving back exactly that mapping |
| MallocHeap.OwnerWrite | progs/memmgr/malloc.c:22-27 | so does anything a program writes into its own blocks |
| MallocCarve.CarveSound | progs/memmgr/malloc.c:33-59 | so does cutting a big block into chunks, in front of what the list held |
| MallocCode.Allocator.constructor | progs/memmgr/malloc.c:27-27 | all lists empty |
| MallocCode.Allocator.ListFromBlock | progs/memmgr/malloc.c:33-49 | exactly (BIGBLOCK-WASTE)/(s+WORD) chunks, headers and links in bounds and in order, then tl; nothing else in memory changes |
| MallocCode.Allocator.PreFill | progs/memmgr/malloc.c:56-59 | the block's chunks come before the list of the bin for n |
| MallocCode.Allocator.TryPreFill | progs/memmgr/malloc.c:65-84 | the number returned is the number of chunks added, in whole big blocks and fewer than one block above what was asked for; less than asked for only if the mapping asked for next was refused, or int ran out |
| MallocCode.Allocator.FillBin | progs/memmgr/malloc.c:86-94 | a threaded list from a new mapping, or null and nothing changed |
| MallocCode.Allocator.MallocSmall | progs/memmgr/malloc.c:97-111 | see malloc; never null when the list is not empty |
| MallocCode.Allocator.MallocLarge | progs/memmgr/malloc.c:113-121 | see malloc; the length asked for is computed in size_t |
| MallocCode.Allocator.Malloc | progs/memmgr/malloc.c:145-150 | null with nothing changed, or a new aligned block of at least nbytes bytes that was not in use; blocks in use keep their contents |
| MallocCode.Allocator.FreeSmall | progs/memmgr/malloc.c:124-129 | the block returns to the head of its own bin's list |
| MallocCode.Allocator.FreeLarge | progs/memmgr/malloc.c:131-133 | the exact mapping of the block is given back |
| MallocCode.Allocator.Free | progs/memmgr/malloc.c:135-143 | null is ignored; otherwise one block goes out of use, by its kind, and blocks in use keep their contents |
| MallocCode.Allocator.StoreInto | progs/memmgr/malloc.c:22-27 | a program's own write keeps the heap sound |
| MallocCode.HeaderTells | progs/memmgr/malloc.c:136-141 | the header before a block tells which kind it is |
| MallocCode.LargeRequestWraps | progs/memmgr/malloc.c:113-118 | the length asked of mmap0, computed in size_t, is what the block needs if and only if nbytes+WASTE+WORD does not wrap around; otherwise it is shorter than the request |
| Bst.InsertIsUpdate | progs/bst.c:33-54 | insert is map update and keeps search order |
| Bst.LookupIsGet | progs/bst.c:101-116 | lookup is map application, null for keys that are not there |
| Bst.PushedInorder | progs/bst.c:56-79 | sinking the root by left rotations and cutting it off keeps all other keys in order |
| Bst.DeleteIsRemoval | progs/bst.c:81-99 | delete removes exactly one key from the map and keeps search order |
| BstHeap.StoreHeld | progs/bst.c:33-54 | storing through the place where a subtree hangs changes the whole tree there and nowhere else |
| BstHeap.TurnWhole | progs/bst.c:56-62 | turn_left under any place of a tree rotates that subtree, on the same nodes |
| BstHeap.TurnPath | progs/bst.c:64-79 | after a turn, sinking continues one place down with the same end result |
| BstHeap.DeleteFreesOne | progs/bst.c:64-99 | in a search tree delete frees one node if the key is there and none otherwise |
| BstHeap.Memory.TreeboxNew | progs/bst.c:10-14 | an empty tree |
| BstHeap.Memory.Insert | progs/bst.c:33-54 | the loop over places ends with the tree with the key put in; the rest of memory is kept |
| BstHeap.Memory.Lookup | progs/bst.c:101-116 | the loop finds what the tree holds |
| BstHeap.Memory.TurnLeft | progs/bst.c:56-62 | the three stores of turn_left |
| BstHeap.Memory.PushdownLeft | progs/bst.c:64-79 | terminates, takes out one node, keeps the rest of memory |
| BstHeap.Memory.Delete | progs/bst.c:81-99 | the tree without the key; frees only nodes that left the tree; keeps the rest of memory |
| BstHeap.Memory.TreeFree | progs/bst.c:16-25 | frees exactly the nodes of the tree |
| BstHeap.Memory.TreeboxFree | progs/bst.c:27-31 | and the box |

## Left out

- HashTable.Linearizable: says nothing about termination; a probe of a full table does not end, in the model as in the code.
- KvNodeRa.ReadsOneWrite: version numbers are unbounded, so a reader that sleeps through 2^31 writes is not modelled.
- KvNodeRa.MakeNode: speaks of the nine stores; allocation is left out.
- Mailbox.NoConflict: a buffer's content is the number of the write that filled it, not the data.
- X25519Curve.ScalarMultiple: the multiples are those of the doubling and addition formulas; that the points of the curve form a group, and that 2^255 - 19 is prime, are left out.
- ModL.Answer: the hashes and the point encoding around it in crypto_sign are left out.
- Sha256.Context.Final: beyond 2^61 - 1 bytes the standard defines no digest; the statement then takes the length field modulo 2^64.
- HmacSha256.HmacContext.Init: a negative key length cannot be expressed; HMAC_cleanup and HMAC2 are left out.
- Hkdf.Extract: a NULL salt is left out, since HMAC_Init would take it as a request to use the last key.
- HmacDrbg.Drbg.Seed: the memory of the HMAC context that a second seed replaces is never freed in C; the model only replaces it.
- HmacDrbg.Drbg.RandomWithAdd: the counter is unbounded, so an interval near INT_MAX is not modelled.
- HmacDrbg.Drbg.Reseed: the sum of entropy_len and len does not wrap around, as it would after set_entropy_len with a value near the largest size_t.
- AesContext.Context.SetKeyEnc: 256-bit keys only, the size the code's fixed number of rounds is for; hardware paths and ROM tables are left out.
- AesContext.Context.Encrypt: the pointer rk always points to the start of buf; clearing a context is left out.
- MallocCode.Allocator.Malloc: requires, as its specification does, that the padded length does not wrap around; page rounding in mmap is left out.
- MallocCode.Allocator.PreFill: the big block is one obtained from mmap0.
- BstHeap.Memory.Insert: the address a new node gets is a parameter; mallocN does not fail.
- Failures of threads, spawn and main drivers, printing and self-tests.
- The 64-bit duplicates, the earlier and defective variants of the protocols, queues, piles and small demos.
- Ed25519 point arithmetic, Salsa20, SHA-512 and the remaining TweetNaCl functions.
- The inverse half of aes/spec_AES256_HL.v, which applies a row transformation to column keys.
