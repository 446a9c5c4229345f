# A verified model of the datalogger's network stack and command parser

The project models the logic under the datalogger: the FNET memory pool, netbufs, checksums, IPv4
fragmentation and reassembly, the interrupt dispatcher, IPv4 and IPv6 address texts, the ARP cache, sockets,
and the parser of `SET` assignments.  What the C code updates in place is updated in place here; each
operation is proved against what it means, and the meanings carry the theorems.

| files | component |
|---|---|
| `Words.dfy`, `Wrappers.dfy` | bytes and machine words; optional values |
| `FreeBlocks.dfy`, `BlockRing.dfy`, `MemPool.dfy` | best-fit allocator: free sets, the ring in the headers, the pool |
| `NetbufMem.dfy`, `NetbufPull.dfy`, `NetbufCut.dfy`, `Netbuf.dfy` | netbufs on reference-counted buffers that chains share |
| `NetbufRuns.dfy`, `NetbufQueue.dfy`, `NetbufFragments.dfy` | several netbuf operations together; queues of chains; fragmenting and joining in shared buffers |
| `Checksum.dfy` | Internet checksum over buffers and chains |
| `IpFragments.dfy`, `Reassembly.dfy`, `ReassemblyRuns.dfy`, `ReassemblyTime.dfy`, `ReassemblyMixed.dfy` | IPv4 fragmentation and reassembly: one datagram, whole runs, datagrams mixed |
| `Isr.dfy` | lock depth, pended flags, nested handlers |
| `Inet4.dfy`, `Inet6.dfy` | address printers and parsers |
| `Arp.dfy` | address cache that holds packets back |
| `SocketPorts.dfy`, `SocketBuffers.dfy`, `IpQueue.dfy` | ephemeral ports, socket lookup, stream and datagram buffers, the IP input queue |
| `ParseAssignment.dfy` | the table machine for assignments |

Representation.  The pool's arena is an array of unit headers and pointers are unit indices.  Netbufs live in
a memory of records by address, from which freed addresses are gone, so that a use after free or a second
free cannot be written; a chain is the list its `next` links make, and its meaning is a byte sequence.  Every
operation's contract has a frame: netbufs outside its own chain keep their fields, their buffers and their
bytes, which is what a chain that shares buffers needs.  Which allocations of a call are served is a parameter.  Clocks,
interrupts, link addresses and the processor's byte order are parameters.  The IPv6 texts and the size of a
stored socket address are those of a build with `FNET_CFG_IP6` on; the repository's configuration has it off.

`dafny verify dfyconfig.toml` checks the whole project.

## Where the code does something else than its documentation

- `fnet_isr_unlock` decrements the depth also when it is 0, where its comment says that it returns; and it
  makes one pass over the table, where its comment says that it goes on until nothing is pended.
  `Isr.Dispatcher.DoUnlock` states from the flags before which entries stay pended, `Isr.StillPended` shows
  one, and `Isr.UnlockClears` says when none does.
- `fnet_mempool_malloc_max` counts the header unit, so the largest request that succeeds is one unit less,
  `MemPools.MemPool.MallocMax`.
- An exact fit of the only free block is handed out and changes nothing, so that the next request gets it as
  well, and freeing it is a search without end: `MemPools.MemPool.Malloc`, `ExactFitAgain`, `FreeNeverEnds`,
  with `HandsOutTwice` as an instance.
- Freeing a block that ends where the only free block begins leaves no valid ring, `MemPools.MemPool.Free`;
  `MemPools.LosesItsRing` reaches that.
- A copy that fails after its second netbuf leaves counters too high, `Netbufs.Netbufs.Copy` says which, and
  `NetbufRuns.CopyLeaks` is an instance; so does fragmenting, `NetbufFragments.MakeFragments`.
- The 32-bit sum wraps for buffers above 131074 bytes, `Checksum.WrapIff` and `TooLong`.
- The more-fragments flag is kept in the low bit of the type of service, so a datagram that has that bit
  set never completes, `ReassemblyRuns.Reassemble` and `SendOdd`.
- `parse_assignment` can leave a name after a failure, accepts a sign without digits, does not ask that
  quotes match, and reads an integer on past the end, because it sets a pointer to null where it means to
  write a terminator.  `ParseAssignment.OwnIff` and `ReadsBack` say exactly when that changes the number;
  `NamedOnFailure`, `SignWithoutDigits`, `QuotesDiffer` and `ReadsPastEnd` are instances.

## Model

| member | source | states |
|---|---|---|
| FreeBlocks.Canonical | Sources/fnet_stack/stack/fnet_mempool.c:182-202 | the free list is canonical: two address-ordered lists with gaps that cover the same units are the same list, so the free list is the maximal runs of free units |
| FreeBlocks.CarveTiled | Sources/fnet_stack/stack/fnet_mempool.c:246-260 | taking units from the top of a free block, or all of it, keeps the arena tiled by free and allocated blocks, with no overlap, gap or touching free blocks |
| FreeBlocks.InsertTiled | Sources/fnet_stack/stack/fnet_mempool.c:182-202 | giving an allocated block back, merged with the neighbours it touches, keeps the tiling and adds exactly its units to the free ones |
| FreeBlocks.AllFree | Sources/fnet_stack/stack/fnet_mempool.c:163-207 | when nothing is allocated the free list is the one initial block |
| FreeBlocks.TotalIsUnits | Sources/fnet_stack/stack/fnet_mempool.c:353-380 | the sizes of the free blocks add up to the number of free units |
| FreeBlocks.TurnAll | Sources/fnet_stack/stack/fnet_mempool.c:353-380 | sizes collected once round the ring from any block are those of all blocks |
| BlockRing.LinkedUnlink | Sources/fnet_stack/stack/fnet_mempool.c:246-252 | unlinking a block through its predecessor leaves the ring of the others, for any ring of at least two blocks |
| BlockRing.LinkedInsert | Sources/fnet_stack/stack/fnet_mempool.c:187-201 | linking a header between two neighbours, across the wrap as well, gives the ring with that block |
| BlockRing.LinkedReplace | Sources/fnet_stack/stack/fnet_mempool.c:182-190 | a freed block takes the place, size and link of the block above it on the ring |
| BlockRing.LinkedAbsorb | Sources/fnet_stack/stack/fnet_mempool.c:192-200 | the block below absorbs its successor on the ring |
| MemPools.UnitsRoundUp | Sources/fnet_stack/stack/fnet_mempool.c:218-220 | where the rounding-up addition does not wrap in 32 bits, a request takes exactly the fewest units that hold its bytes, and the header unit |
| MemPools.ServesUpTo | Sources/fnet_stack/stack/fnet_mempool.c:218-242 | a block serves exactly the requests whose bytes and a header unit are at most its size in bytes |
| MemPools.PayloadFits | Sources/fnet_stack/stack/fnet_mempool.c:218-220 | a served request has room for its bytes if and only if the rounding-up addition did not wrap |
| MemPools.BestFitAbove | Sources/fnet_stack/stack/fnet_mempool.c:163-202 | freeing the units that a request just took is never the case in which free breaks the ring, unless the request took the only free block whole |
| MemPools.FreeOutcome | Sources/fnet_stack/stack/fnet_mempool.c:163-207 | what free makes of headers, free list and allocated blocks for every allocated block, and the exact case - the block ends where the only free block begins - in which no valid ring remains; with the base block on the ring that case does not arise |
| MemPools.FreedBroken | Sources/fnet_stack/stack/fnet_mempool.c:182-188 | in that case the headers mean no list of disjoint free blocks at all |
| MemPools.UnitsConserved | Sources/fnet_stack/stack/fnet_mempool.c:163-264 | free and allocated units always add up to the arena |
| MemPools.LargestFits | Sources/fnet_stack/stack/fnet_mempool.c:388-420 | a block of maximal size bounds exactly the requests that can be served, in units and in bytes |
| MemPools.MemPool.constructor | Sources/fnet_stack/stack/fnet_mempool.c:83-96 | an initialised pool is one free block that spans the arena |
| MemPools.Init | Sources/fnet_stack/stack/fnet_mempool.c:73-100 | the area is taken exactly when it is usable, its unit and arena lie inside it, less than one unit is wasted at the end, and an area taken with no room for one unit has no arena |
| MemPools.MemPool.FindBest | Sources/fnet_stack/stack/fnet_mempool.c:227-242 | the ring walk finds a block exactly when one is large enough, it is the first smallest such block after the free pointer, and its ring predecessor is returned with it; the walk ends from every start |
| MemPools.MemPool.Malloc | Sources/fnet_stack/stack/fnet_mempool.c:216-296 | null exactly when no free block holds the rounded-up units and header; otherwise the top of the first smallest sufficient block on the ring after the free pointer, disjoint from everything allocated, and the pool stays valid; the exact failing case is an exact fit of the only free block, which is handed out while headers, free pointer and free list stay as they were; the base block stays on the ring unless it is handed out as that |
| MemPools.MemPool.FindSpot | Sources/fnet_stack/stack/fnet_mempool.c:163-177 | the ring search ends, where the stopping condition holds, and finds the free block after which the freed one belongs, across the wrap |
| MemPools.MemPool.Free | Sources/fnet_stack/stack/fnet_mempool.c:120-207 | the freed block's units and no others become free, merged on both sides; exactly when the freed block ends where the only free block begins no ring of disjoint blocks remains; a base block on the ring stays there and rules this out |
| MemPools.MemPool.FreeMemStatus | Sources/fnet_stack/stack/fnet_mempool.c:353-380 | the number of free units times the unit size, for every ring and every start |
| MemPools.MemPool.MallocMax | Sources/fnet_stack/stack/fnet_mempool.c:388-420 | a number of bytes can be served, where the rounding does not wrap, if and only if with one unit more it is at most the result; a number of units if and only if its size is at most the result |
| MemPools.MallocThenFree | Sources/fnet_stack/stack/fnet_mempool.c:120-264 | freeing what was just allocated restores the free list and the allocated blocks exactly, in every case but that exact fit |
| MemPools.FreeAll | Sources/fnet_stack/stack/fnet_mempool.c:120-207 | freeing all outstanding blocks in any order restores the single initial block |
| MemPools.Run | Sources/fnet_stack/stack/fnet_mempool.c:120-296 | after any run of requests and releases, freeing what is held restores the single initial block, unless a request was handed the base of the arena, which takes requests for as many units as the arena has |
| MemPools.ExactFitAgain | Sources/fnet_stack/stack/fnet_mempool.c:246-260 | a request for exactly the only free block, in every pool, is served with that block, and the next one with the same block again |
| MemPools.FreeNeverEnds | Sources/fnet_stack/stack/fnet_mempool.c:163-177 | giving that block back is a search that never ends: after every number of steps it is at the block itself, where it does not stop |
| MemPools.HandsOutTwice | Sources/fnet_stack/stack/fnet_mempool.c:246-260 | a pool in which that happens |
| MemPools.LosesItsRing | Sources/fnet_stack/stack/fnet_mempool.c:163-207 | a run of requests and releases after which the headers mean no list of disjoint free blocks, although the last free block was never taken |
| NetbufMem.FrameList | Sources/fnet_stack/stack/fnet_netbuf.c:131-258 | a chain none of whose netbufs an operation touches is the same chain with the same bytes afterwards |
| NetbufMem.DropOk | Sources/fnet_stack/stack/fnet_netbuf.c:361-383 | giving up one reference keeps every counter equal to the number of live netbufs on its buffer, frees the buffer with the last one only, and disturbs no other netbuf |
| NetbufMem.DropSafe | Sources/fnet_stack/stack/fnet_netbuf.c:361-383 | giving up one reference never frees a buffer that a netbuf is on, also when counters are too high, and a counter that is too high stays so |
| NetbufMem.ShareOk | Sources/fnet_stack/stack/fnet_netbuf.c:196-200 | a new netbuf on a shared buffer raises its counter and shows part of the bytes, and every other netbuf keeps its bytes |
| NetbufMem.RehomeOk | Sources/fnet_stack/stack/fnet_netbuf.c:444-465 | moving a netbuf to a new buffer keeps counters exact on both buffers and every other netbuf's bytes |
| NetbufMem.WriteOk | Sources/fnet_stack/stack/fnet_netbuf.c:640-647 | writing a buffer with counter 1 changes the bytes of its only netbuf and of no other |
| NetbufMem.Forgotten | Sources/fnet_stack/stack/fnet_netbuf.c:220-232 | copied netbufs given back without their references leave too high a counter on just the buffers they were on |
| Netbufs.Netbufs.New | Sources/fnet_stack/stack/fnet_netbuf.c:72-123 | a fresh netbuf of the length asked for on a buffer of its own with counter 1, or nothing changed: exactly for a negative length or when one of the two allocations fails |
| Netbufs.Netbufs.FromBuf | Sources/fnet_stack/stack/fnet_netbuf.c:267-277 | a fresh netbuf that shows the given bytes, or nothing changed, under the same condition |
| Netbufs.Netbufs.Free | Sources/fnet_stack/stack/fnet_netbuf.c:361-383 | one netbuf less, its successor returned, the buffer gone exactly with its last reference; counters that are right stay right, and one that is too high stays too high |
| Netbufs.Netbufs.FreeChain | Sources/fnet_stack/stack/fnet_netbuf.c:391-409 | exactly the chain's netbufs go, counters stay right where they were right, and all other netbufs keep their buffers and bytes |
| Netbufs.Netbufs.Locate | Sources/fnet_stack/stack/fnet_netbuf.c:184-194 | the netbuf that holds byte `offset` of a chain and the place in it, for every split into netbufs |
| Netbufs.Netbufs.ToBuf | Sources/fnet_stack/stack/fnet_netbuf.c:286-353 | copies out exactly bytes `offset` to `offset + len` of the chain, and nothing when they are not all there |
| Netbufs.Netbufs.Copy | Sources/fnet_stack/stack/fnet_netbuf.c:131-259 | succeeds if and only if the slice is there and the pool has room for one netbuf for each netbuf it reaches into; then a new chain that shows the slice, each netbuf on the buffer of the original's netbuf in the same place, with no buffer made or written and exact counters; on failure the netbufs are as before, the counters too high are just those of the buffers that the second and later new netbufs were on, and so all are exact if and only if there was no room for a second one |
| NetbufMem.HoldsOne | Sources/fnet_stack/stack/fnet_netbuf.c:184-194 | a byte of a chain is held by one netbuf, so that where a copy begins is determined |
| Netbufs.Netbufs.TrimFront | Sources/fnet_stack/stack/fnet_netbuf.c:532-552 | drops exactly the first `len` bytes and the netbufs that held only them; a trim inside the first netbuf only moves its window |
| Netbufs.Netbufs.TrimBack | Sources/fnet_stack/stack/fnet_netbuf.c:553-578 | keeps exactly the first bytes and frees the netbufs past them |
| Netbufs.Netbufs.Trim | Sources/fnet_stack/stack/fnet_netbuf.c:512-583 | drops a prefix or a suffix, does nothing when the chain is shorter, and leaves every other chain's bytes even on shared buffers |
| Netbufs.Netbufs.Concat | Sources/fnet_stack/stack/fnet_netbuf.c:701-722 | the bytes of the second chain after those of the first, with an exact total; no window changes |
| Netbufs.Netbufs.Pullup | Sources/fnet_stack/stack/fnet_netbuf.c:417-502 | the same bytes with the first `len` of them in one netbuf; null and nothing changed if and only if they are not there, or not in one netbuf already and the one allocation fails; nothing changes when they are in one netbuf already |
| Netbufs.Netbufs.CutCenter | Sources/fnet_stack/stack/fnet_netbuf.c:591-692 | removes exactly bytes `offset` to `offset + len` and leaves every other chain's bytes; nothing is done if and only if the cut is empty, goes past the end, or lies inside a netbuf on a shared buffer and memory runs out |
| Netbufs.Netbufs.CutInside | Sources/fnet_stack/stack/fnet_netbuf.c:635-671 | a cut inside one netbuf: made in place, with the same netbufs, if and only if its counter is 1; otherwise one new netbuf follows it, or nothing changes when memory runs out |
| Netbufs.Netbufs.CutTail | Sources/fnet_stack/stack/fnet_netbuf.c:673-691 | a cut that ends past the netbuf it begins in |
| NetbufCut.CutInPlace | Sources/fnet_stack/stack/fnet_netbuf.c:640-647 | moving the end of a window over its middle in an unshared buffer removes just those bytes and touches no other netbuf |
| NetbufCut.SharedCut | Sources/fnet_stack/stack/fnet_netbuf.c:648-668 | the split of a shared netbuf shows the bytes before and after the cut, with all other netbufs as they were |
| NetbufRuns.CopyThenCut | Sources/fnet_stack/stack/fnet_netbuf.c:131-692 | after a copy each of its netbufs is on a buffer of the original's and alone on none, so a cut never moves bytes in place and is refused exactly when it lies inside a netbuf and memory runs out; it removes the bytes from the copy and leaves the original's |
| NetbufRuns.CopyShares | Sources/fnet_stack/stack/fnet_netbuf.c:196-200 | the netbufs of a copy are on buffers of the original's, so none of them is alone on its buffer |
| NetbufRuns.CopyThenFree | Sources/fnet_stack/stack/fnet_netbuf.c:131-409 | a copy and its original freed in either order leave an empty memory: every buffer is freed, and once |
| NetbufRuns.CopyLeaks | Sources/fnet_stack/stack/fnet_netbuf.c:220-232 | a copy of three netbufs with room for two, after which a counter is too high |
| NetbufQueue.LinkLast | Sources/fnet_stack/stack/fnet_netbuf.c:742-745 | linking a chain behind the last one gives the queue with that chain, and no bytes change |
| NetbufQueue.CutQueue | Sources/fnet_stack/stack/fnet_netbuf.c:774-783 | freeing a chain of a queue and linking its neighbours gives the queue of the others, with their bytes |
| NetbufQueue.AddChain | Sources/fnet_stack/stack/fnet_netbuf.c:731-749 | the chain comes last in the queue, and every netbuf but for one queue link is as it was |
| NetbufQueue.DelChain | Sources/fnet_stack/stack/fnet_netbuf.c:758-785 | exactly the given chain is freed, wherever it is in the queue, and the others stay in order with their bytes |
| NetbufFragments.MakeFragment | Sources/fnet_stack/stack/fnet_ip.c:320-352 | a chain of a header on a new buffer and netbufs on the datagram's buffers, in order, that show the slice wanted; no other buffer is made, counters are exact and every other netbuf is as it was; null exactly when the pool refuses an allocation, with no netbuf left over and the counters that are too high told exactly |
| NetbufFragments.MakeFragments | Sources/fnet_stack/stack/fnet_ip.c:290-360 | for every answer of the pool: a chain for each piece the payload is cut into, in order, behind a header, all but the first sharing the datagram's buffers, with exact counters; or, if and only if a piece is not served, everything freed, and counters right unless the first refused piece had room for its header and two netbufs |
| NetbufFragments.Discard | Sources/fnet_stack/stack/fnet_ip.c:362-377 | the datagram and the fragments made so far are freed, whatever counters are too high, and nothing else changes |
| NetbufFragments.LeakyIff | Sources/fnet_stack/stack/fnet_ip.c:338-347 | counters are wrong after a refused fragment exactly if its header and the first two netbufs of its copy were served |
| NetbufFragments.Arrive | Sources/fnet_stack/stack/fnet_ip.c:622-652 | the fragment's bytes without the header in one netbuf, the header kept in the buffer in front of it; freed exactly when memory is needed and refused |
| NetbufFragments.JoinFragments | Sources/fnet_stack/stack/fnet_ip.c:625-758 | chains of fragments, gathered, stripped of their headers and hung on each other, show the first one's header and the payloads in order; every netbuf not in the joined chain is freed, with exact counters |
| NetbufFragments.PutBack | Sources/fnet_stack/stack/fnet_ip.c:762-765 | the joined chain's window grown to the front shows the header again |
| NetbufFragments.FragmentThenJoin | Sources/fnet_stack/stack/fnet_ip.c:290-758 | on netbuf memory, a datagram fragmented on shared buffers and joined shows the datagram's bytes, header included, and of its netbufs and its fragments' only those of the joined chain are alive; it is null exactly when the pool refuses a fragment |
| NetbufFragments.FragmentJoinFree | Sources/fnet_stack/stack/fnet_ip.c:290-758 | when the joined chain is freed as well, a memory that held only the datagram has no netbufs, and no buffers exactly unless fragmenting failed after a second netbuf of a copy |
| NetbufFragments.CutWhole | Sources/fnet_stack/stack/fnet_ip.c:316-341 | the pieces that a payload is cut into make up the payload |
| Checksum.Low | Sources/fnet_stack/stack/fnet_checksum.c:66-110 | the loop over 32, 8 and 2 bytes and the masked last byte add the plain sum of 16-bit words, the last byte padded with zero, in 32-bit arithmetic and either byte order; the byte read beyond the end does not matter |
| Checksum.ChainSum | Sources/fnet_stack/stack/fnet_checksum.c:117-172 | the sum over a chain, odd-length and one-byte netbufs included, is that of its flattened first `len` bytes |
| Checksum.FoldIsResidue | Sources/fnet_stack/stack/fnet_checksum.c:184-188 | two folding steps give the residue modulo 65535, with zero only for a zero sum, for every 32-bit sum |
| Checksum.Example | Sources/fnet_stack/stack/fnet_checksum.c:68-188 | the definition gives the sum of the example in section 3 of RFC 1071 |
| Checksum.ChecksumNb | Sources/fnet_stack/stack/fnet_checksum.c:180-190 | the Internet checksum of the flattened bytes, section 2 of RFC 1071, if and only if the 32-bit sum wraps well, as it does up to 131074 bytes |
| Checksum.ChecksumBuf | Sources/fnet_stack/stack/fnet_checksum.c:199-207 | the same for a buffer |
| Checksum.WrapIff | Sources/fnet_stack/stack/fnet_checksum.c:103-152 | a sum taken in 32 bits has the right residue if and only if it wraps a multiple of 65535 times and not to zero |
| Checksum.TooLong | Sources/fnet_stack/stack/fnet_checksum.c:103-152 | a buffer of 131076 bytes whose checksum comes out wrong, so the bound is exact |
| Checksum.PseudoBuf | Sources/fnet_stack/stack/fnet_checksum.c:216-227 | the checksum of the flattened bytes: both addresses, the protocol, the length as two bytes in network order, and the payload, on processors of either byte order |
| Checksum.PseudoStart | Sources/fnet_stack/stack/fnet_checksum.c:236-246 | the folded sum of chain, protocol and length, uncomplemented |
| Checksum.PseudoEnd | Sources/fnet_stack/stack/fnet_checksum.c:255-268 | the complemented fold of the started sum and both addresses |
| Checksum.StartThenEnd | Sources/fnet_stack/stack/fnet_checksum.c:236-268 | starting over a chain and ending with the addresses gives the checksum of the flattened bytes, the length among them as two bytes in network order |
| Checksum.PseudoFlat | Sources/fnet_stack/stack/fnet_checksum.c:216-227 | the pseudo-header sum is the word sum of the flattened bytes, for either byte order |
| Checksum.PseudoNb | Sources/fnet_stack/stack/fnet_udp.c:325-338 | the checksum of a datagram as its protocol computes it, started over the chain and ended with the addresses, is that of addresses, a zero byte, the protocol's number, the length in network order and the bytes, on processors of either byte order |
| Checksum.VerifyIff | Sources/fnet_stack/stack/fnet_checksum.c:180-190 | a word stored in the zero field at an even offset makes the check 0 if and only if it is the checksum, or the other zero when that is 0 |
| Checksum.ChangeNoticed | Sources/fnet_stack/stack/fnet_checksum.c:180-190 | changing one aligned word changes the checksum except between the two zeros beside other non-zero data |
| Checksum.SumSwapped | Sources/fnet_stack/stack/fnet_checksum.c:103-152 | the word sum in the other byte order is 256 times the sum, modulo 65535 |
| Checksum.ByteOrderIndependent | Sources/fnet_stack/stack/fnet_checksum.c:103-152 | the checksum's bytes in memory are the same on processors of either byte order, for every buffer, odd lengths included, item (B) of section 2 of RFC 1071 |
| IpFragments.Output | Sources/fnet_stack/stack/fnet_ip.c:214-397 | refused exactly when too long for the interface, or too long for the link with fragmentation forbidden or no room for 8 bytes, or when the header finds no memory; sent whole when it fits; otherwise fragments that fit the MTU, tile the payload in order, say so, and carry the pieces of the largest multiple of 8 that fits, or none, if and only if one allocation fails |
| IpFragments.FlagsAndOffset | Sources/fnet_stack/stack/fnet_ip.c:669-682 | of the field's reserved bit, two flags and thirteen offset bits, the more-fragments flag and eight times the offset are read, whatever the other bits |
| Reassembly.HungOk | Sources/fnet_stack/stack/fnet_ip.c:635-731 | a fragment held keeps one list a datagram, each ring sorted and alive |
| Reassembly.ArrivedAccounts | Sources/fnet_stack/stack/fnet_ip.c:635-777 | the chain of a fragment is held or goes up with the others of its datagram, and every other chain stays where it was |
| Reassembly.AgedAccounts | Sources/fnet_stack/stack/fnet_ip.c:793-818 | a tick frees exactly the chains of the lists that die |
| Reassembly.Reassembler.IsComplete | Sources/fnet_stack/stack/fnet_ip.c:733-747 | complete if and only if each fragment begins where those before it end and the last has no more-fragments flag |
| Reassembly.Reassembler.Join | Sources/fnet_stack/stack/fnet_ip.c:749-772 | the joined payload and chains of a ring in order, with the header of its first fragment |
| Reassembly.Reassembler.FindList | Sources/fnet_stack/stack/fnet_ip.c:635-641 | the first list with the fragment's identification, protocol and addresses, or none |
| Reassembly.Reassembler.Input | Sources/fnet_stack/stack/fnet_ip.c:613-783 | the new lists and what is handed up for every arrival outside those held and every allocation outcome; a datagram goes up if and only if its ring is complete; every chain taken so far is held, freed or handed up, as often as it was taken |
| Reassembly.Reassembler.FreeList | Sources/fnet_stack/stack/fnet_ip.c:857-877 | frees the chains of one list, each once, and takes the list out |
| Reassembly.Reassembler.Timer | Sources/fnet_stack/stack/fnet_ip.c:793-818 | every list loses a tick and exactly those with none left are freed, with their chains |
| Reassembly.Reassembler.Drain | Sources/fnet_stack/stack/fnet_ip.c:828-842 | all lists are freed, and then every chain taken has been freed or handed up |
| ReassemblyRuns.OffsetsAscend | Sources/fnet_stack/stack/fnet_ip.c:318-375 | later fragments begin where earlier ones have ended |
| ReassemblyRuns.PrefixPayload | Sources/fnet_stack/stack/fnet_ip.c:749-760 | the first fragments held show the payload up to where the next begins |
| ReassemblyRuns.CompleteIffAll | Sources/fnet_stack/stack/fnet_ip.c:733-747 | a ring with some fragments of a datagram is complete if and only if all are there and the low bit of the type of service is clear |
| ReassemblyRuns.WholeOfAll | Sources/fnet_stack/stack/fnet_ip.c:749-772 | the complete ring is handed up with the datagram's addresses, protocol, identification, payload and length |
| ReassemblyRuns.Reassemble | Sources/fnet_stack/stack/fnet_ip.c:613-783 | fragments delivered once each in any order in which each comes below or above those before: every delivery but the last returns nothing and the last gives exactly the datagram, its chains handed up once; with the low bit of the type of service set no delivery returns anything and all fragments stay held |
| ReassemblyRuns.SendAndReassemble | Sources/fnet_stack/stack/fnet_ip.c:277-783 | fragmenting for any MTU with room for 8 bytes and reassembling, from the first fragment or from the last, gives the datagram back, and its chains and no others go up |
| ReassemblyRuns.SendOdd | Sources/fnet_stack/stack/fnet_ip.c:277-783 | with the low bit of the type of service set, nothing goes up and all fragments stay held in order |
| ReassemblyTime.GoneInTime | Sources/fnet_stack/stack/fnet_ip.c:793-818 | over every run of arrivals and ticks, a chain is not held any more after 20 ticks |
| ReassemblyTime.RepeatBreaks | Sources/fnet_stack/stack/fnet_ip.c:679-731 | a repeat of the last fragment held leaves neighbours that do not meet |
| ReassemblyTime.BrokenWaits | Sources/fnet_stack/stack/fnet_ip.c:733-747 | over every run, a datagram with neighbours that overlap or leave a gap is never handed up, and waits to die of age |
| ReassemblyTime.UpTiles | Sources/fnet_stack/stack/fnet_ip.c:733-772 | in what is handed up each fragment's bytes lie at its offset, from 0 to the end without gap |
| ReassemblyMixed.Mixed | Sources/fnet_stack/stack/fnet_ip.c:613-818 | among any other packets and fewer ticks than a list lives, the fragments of a datagram, each once and below or above those before, hand up exactly the datagram with the last one and nothing before, and its list is gone |
| ReassemblyMixed.InTurn | Sources/fnet_stack/stack/fnet_ip.c:635-777 | what a fragment's arrival makes of its own datagram's list, and what it hands up, depends on that list alone |
| ReassemblyMixed.OtherArrives | Sources/fnet_stack/stack/fnet_ip.c:635-777 | a packet's arrival leaves the list of every other datagram |
| ReassemblyMixed.TickAges | Sources/fnet_stack/stack/fnet_ip.c:793-818 | a tick makes every datagram's list one tick older or takes it |
| ReassemblyMixed.TurnAllowed | Sources/fnet_stack/stack/fnet_ip.c:664-676 | a fragment in its turn lies below or above those held |
| ReassemblyMixed.Play | Sources/fnet_stack/stack/fnet_ip.c:613-818 | the reassembler, given the events of a run, hands up what the run does |
| Isr.NoneLost | Sources/fnet_stack/stack/fnet_isr.c:88-123 | every raise is followed by a start of its handler, or a start is still owed |
| Isr.StartsBounded | Sources/fnet_stack/stack/fnet_isr.c:262-369 | no handler starts more often than its entry was raised, counted in the log |
| Isr.PassStep | Sources/fnet_stack/stack/fnet_isr.c:270-289 | one handler of the pass: the flags it leaves are those told before the pass from the table, the flags and what handlers do |
| Isr.Dispatcher.DoLock | Sources/fnet_stack/stack/fnet_isr.c:250-253 | the depth rises by one in 32 bits |
| Isr.Dispatcher.DoUnlock | Sources/fnet_stack/stack/fnet_isr.c:262-294 | the depth falls by one in 32 bits; at depth 1, told from the table, the flags and what handlers do before the call: a handler starts if and only if it is pended or one above it in the table that starts raises it, and an entry is pended afterwards if and only if a handler at or past its place that starts raises it; at other depths nothing starts |
| Isr.ForwardClears | Sources/fnet_stack/stack/fnet_isr.c:262-294 | nothing will stay pended when handlers raise only entries further down the table |
| Isr.UnlockClears | Sources/fnet_stack/stack/fnet_isr.c:262-294 | with such handlers the last unlock does leave nothing pended |
| Isr.Dispatcher.DoRaise | Sources/fnet_stack/stack/fnet_isr.c:336-369 | told from before the call: an event not in the table changes nothing but what the pass at the end serves; at depth above 0 the event is pended and nothing starts; at depth 0 its handler starts at once, then the pass of the unlock starts exactly the handlers, and leaves pended exactly the entries, that follow from the table, the flags and what handlers do; the depth is restored, the flags agree with the log, and the recursion ends |
| Isr.Dispatcher.Handle | Sources/fnet_stack/stack/fnet_isr.c:88-123 | an interrupt let through starts its handler at depth 0, and is pended at any other, and one not let through changes nothing; the whole history is the one told before the call |
| Isr.Dispatcher.Start | Sources/fnet_stack/stack/fnet_isr.c:275-286 | a handler starts at depth 0 or 1 only, its flag cleared just before, and what it does is done, no more and no less: at depth 1 all it raises is pended |
| Isr.Dispatcher.Run | Sources/fnet_stack/stack/fnet_isr.c:262-369 | whatever a handler nests, locks, raises or is interrupted by, which may differ from start to start, its end finds the depth of its start and flags that agree with the log; the whole history is the one told before |
| Isr.Perform | Sources/fnet_stack/stack/fnet_isr.c:88-369 | over every program of locks, unlocks, raises and interrupts, and for handlers that may do something else at every start, each raise is followed by a start of its handler or the entry is pended, and the whole history is the one told before from the table, the flags and what handlers do |
| Isr.StillPended | Sources/fnet_stack/stack/fnet_isr.c:262-294 | a table for which an event stays pended with the lock free |
| Inet4.ScanSound | Sources/fnet_stack/stack/fnet_inet.c:182-235 | a parser state is reached only by the text it stands for |
| Inet4.ScanComplete | Sources/fnet_stack/stack/fnet_inet.c:182-235 | the text of every state leads to it |
| Inet4.Print | Sources/fnet_stack/stack/fnet_inet.c:355-373 | prints dotted decimals, null exactly when the buffer is too short; 16 bytes always do |
| Inet4.Parse | Sources/fnet_stack/stack/fnet_inet.c:182-235 | accepts exactly the strings that addresses print as, with the address printed |
| Inet4.PrintedInjective | Sources/fnet_stack/stack/fnet_inet.c:355-373 | different addresses print differently |
| Inet6.ScanSound | Sources/fnet_stack/stack/fnet_inet.c:257-315 | the parser's state after any prefix stands for exactly that prefix |
| Inet6.ScanComplete | Sources/fnet_stack/stack/fnet_inet.c:257-315 | the text of every state leads to it |
| Inet6.ReadsIff | Sources/fnet_stack/stack/fnet_inet.c:244-345 | a string reads as an address - eight groups, or fewer with one gap - if and only if its scan ends in the parts of that address |
| Inet6.HexChars | Sources/fnet_stack/stack/fnet_inet.c:246-279 | the characters taken as digits are those of the two digit strings |
| Inet6.ReadsUnique | Sources/fnet_stack/stack/fnet_inet.c:244-345 | a string reads as one address at most, in one way |
| Inet6.CloseGap | Sources/fnet_stack/stack/fnet_inet.c:320-336 | the bytes after the gap move to the end and zeros take their place, although source and target overlap |
| Inet6.Parse | Sources/fnet_stack/stack/fnet_inet.c:244-345 | accepts exactly the strings that read as an address, and returns it |
| Inet6.LongestRun | Sources/fnet_stack/stack/fnet_inet.c:399-436 | finds the first longest run of at least two zero words, or none |
| Inet6.TextMore | Sources/fnet_stack/stack/fnet_inet.c:439-455 | one more word, or one more of the run, printed: the text so far stays that of the words so far |
| Inet6.RoundTrip | Sources/fnet_stack/stack/fnet_inet.c:382-461 | what is printed reads as the address and fits into 40 bytes |
| Inet6.Print | Sources/fnet_stack/stack/fnet_inet.c:382-461 | the text reads as the address, `::` stands for the first longest run of at least two zero words and nothing else, and 40 bytes always do |
| Inet6.PrintThenParse | Sources/fnet_stack/stack/fnet_inet.c:244-461 | printing and parsing gives every address back |
| Arp.IndexPut | Sources/fnet_stack/stack/fnet_arp.c:155-219 | after an entry is replaced each used address is found at the new entry, or where it was, or not at all |
| Arp.HeldPut | Sources/fnet_stack/stack/fnet_arp.c:202-212 | replacing an entry exchanges the packet it holds and no other |
| Arp.LaterAge | Sources/fnet_stack/stack/fnet_arp.c:189-204 | an entry made `d` ticks ago is of age `d`, also where the counter has wrapped |
| Arp.ArpTable.FindOldest | Sources/fnet_stack/stack/fnet_arp.c:189-204 | the first of the entries made the most ticks ago, on a counter that wraps |
| Arp.ArpTable.AddEntry | Sources/fnet_stack/stack/fnet_arp.c:155-219 | the address's entry is updated, or the first unused or else the first of the oldest replaced, in elapsed ticks, and its held packet freed; no other entry changes; one entry an address |
| Arp.ArpTable.UpdateEntry | Sources/fnet_stack/stack/fnet_arp.c:227-248 | an entry is updated exactly when the address has one |
| Arp.ArpTable.Lookup | Sources/fnet_stack/stack/fnet_arp.c:256-278 | what is found of a used address is what was learned of it last, and nothing is found exactly when it is not in the table or unknown |
| Arp.ArpTable.Resolve | Sources/fnet_stack/stack/fnet_arp.c:287-322 | the packet is held in the address's one entry, the one held before is freed, and a request goes out if and only if none was held or the last went out more than 1000 ms ago, in elapsed ticks of 100 ms |
| Arp.ArpTable.Announce | Sources/fnet_stack/stack/fnet_arp.c:371-386 | what is learned and what held packet is sent, once, to the address announced |
| Arp.ArpTable.Input | Sources/fnet_stack/stack/fnet_arp.c:329-405 | announcements heard are learned and answered as stated, and every packet is held, freed or sent, as often as it was taken |
| Arp.ArpTable.Timer | Sources/fnet_stack/stack/fnet_arp.c:130-148 | exactly the used entries made more than 20 minutes ago, in elapsed ticks of 100 ms, are cleared, and what they hold is freed |
| Arp.ArpTable.Drain | Sources/fnet_stack/stack/fnet_arp.c:462-481 | nothing is held any more, addresses stay, and every packet taken has been freed or sent |
| SocketPorts.Conflict | Sources/fnet_stack/stack/fnet_socket.c:228-245 | true if and only if some socket of the list has the local port, the local address or any as a wildcard, and the foreign end or any as a wildcard |
| SocketPorts.TriedAll | Sources/fnet_stack/stack/fnet_socket.c:329-337 | every ephemeral port is tried within one turn of the range, from any last port |
| SocketPorts.Ports.UniquePort | Sources/fnet_stack/stack/fnet_socket.c:323-344 | the search ends whenever a port is free and returns the first free one in turn, in 1025 to 5000 |
| SocketPorts.SomeFree | Sources/fnet_stack/stack/fnet_socket.c:323-344 | with fewer than 3976 sockets a port is free |
| SocketPorts.NoneFree | Sources/fnet_stack/stack/fnet_socket.c:323-344 | with 3976 sockets there may be none, so the bound is exact |
| SocketPorts.Lookup | Sources/fnet_stack/stack/fnet_socket.c:253-312 | a socket of the packet's protocol and local port whose local address is the packet's or unspecified on either side, and whose foreign end, address and port, is the packet's or unspecified on either side; the first of those with the fewest pairs of addresses of which exactly one is unspecified; none exactly when there is no such socket |
| SocketBuffers.StreamBuffer.Append | Sources/fnet_stack/stack/fnet_socket.c:1506-1522 | refused exactly when the count, in 32 bits, would pass its bound, so that the bound is kept by chains short enough not to wrap; otherwise the bytes come after those already there |
| SocketBuffers.StreamBuffer.Read | Sources/fnet_stack/stack/fnet_socket.c:1574-1595 | the first bytes in arrival order, removed or not, the netbufs that held only removed bytes freed, and all of them when all bytes are read; over every run the bytes read and those still there are the bytes appended |
| SocketBuffers.VolumeJoin | Sources/fnet_stack/stack/fnet_socket.c:1531-1566 | payload counts add up over a queue |
| SocketBuffers.SameRecords | Sources/fnet_stack/stack/fnet_socket.c:1531-1641 | changes elsewhere in memory leave the datagrams of a queue |
| SocketBuffers.DatagramBuffer.Append | Sources/fnet_stack/stack/fnet_socket.c:1531-1566 | the datagram comes last with its address, or nothing changes, exactly when its address finds no memory or the count, in 32 bits, would pass its bound |
| SocketBuffers.DatagramBuffer.Read | Sources/fnet_stack/stack/fnet_socket.c:1604-1641 | the first datagram's address and bytes, an error exactly when the length cuts its payload short, and exactly its netbufs freed when it is removed; over every run the datagrams removed and those still there are the ones appended, in order |
| IpQueues.IpQueue.Append | Sources/fnet_stack/stack/fnet_ip.c:1484-1513 | the packet comes last with its interface, or nothing changes, under the same condition |
| IpQueues.IpQueue.Read | Sources/fnet_stack/stack/fnet_ip.c:1520-1545 | the first packet and its interface, its chain handed over with its netbufs as they were and the interface's netbuf freed; over every run the packets read and those still there are the ones appended, in order |
| ParseAssignment.FindSingle | Sources/CommandParser/parse_assignment.c:126-144 | the binary search finds a single key exactly when a scan of the state's keys would |
| ParseAssignment.FindRange | Sources/CommandParser/parse_assignment.c:149-167 | the binary search over pairs finds a range exactly when a scan would |
| ParseAssignment.NoChoice | Sources/CommandParser/parse_assignment.c:17-79 | a character with no key leads to the error state, for all states |
| ParseAssignment.Transition | Sources/CommandParser/parse_assignment.c:118-169 | the transition taken is the one the character's class determines |
| ParseAssignment.RunActions | Sources/CommandParser/parse_assignment.c:175-226 | the action list of a transition has the effect stated for it |
| ParseAssignment.MeansIff | Sources/CommandParser/parse_assignment.c:110-235 | a string means something if and only if some prefix is letters, blanks, an equals sign, blanks, and a sign, a digit or a quoted non-empty text |
| ParseAssignment.Go | Sources/CommandParser/parse_assignment.c:110-235 | a transition keeps what each state knows of the string |
| ParseAssignment.Parse | Sources/CommandParser/parse_assignment.c:85-256 | succeeds if and only if some prefix is an assignment; name, kind and value are its parts, the integer being what is read at the value's place in memory as it was, which is the assignment's own number if and only if OwnNumber holds; memory changes by the terminators only |
| ParseAssignment.OwnIff | Sources/CommandParser/parse_assignment.c:246-252 | the number read at a place is the one before an end if and only if its digits stop by the end, or all are zeros, or those before the end reach the 32-bit limit already |
| ParseAssignment.ReadsBack | Sources/CommandParser/parse_assignment.c:246-252 | a printed number is read as that number if and only if no digit follows it, or it is the largest or smallest of 32 bits; a zero if and only if the octal or hexadecimal digits read on are zeros |
| ParseAssignment.ParsePrinted | Sources/CommandParser/parse_assignment.c:85-256 | a printed letters-only name and 32-bit number parse back to both, the number if and only if what follows it in memory is harmless in that sense |
| ParseAssignment.SpelledReads | Sources/CommandParser/parse_assignment.c:246-252 | a number with or without a sign, behind `0x`, `0X`, `0` or nothing, with digits of either case that spell it in base 16, 8 or 10 and that end, is read as that number, cut to 32 bits |
| ParseAssignment.ParseSpelled | Sources/CommandParser/parse_assignment.c:85-256 | an assignment of such a number parses back to name and number: always when no digit of the base follows in memory, otherwise exactly when what follows makes no difference |
| ParseAssignment.ParseBased | Sources/CommandParser/parse_assignment.c:85-256 | every 32-bit number printed in hexadecimal digits of either case behind `0x`, or in octal ones behind `0`, parses back when no digit of the base follows |
| ParseAssignment.ReadsPastEnd | Sources/CommandParser/parse_assignment.c:246-252 | a digit past the end of the assignment is read into the integer |
| ParseAssignment.NamedOnFailure | Sources/CommandParser/parse_assignment.c:240-256 | a failure can report a name |
| ParseAssignment.SignWithoutDigits | Sources/CommandParser/parse_assignment.c:246-252 | a sign alone is accepted as a number and read as 0 |
| ParseAssignment.QuotesDiffer | Sources/CommandParser/parse_assignment.c:17-79 | a text that begins with one quote and ends with the other is accepted |

## Left out

- MemPools.MemPool.Free: pointers that malloc did not return are not modelled.
- MemPools.Init: in an area taken with no room for one unit, the header of size 0 that the code writes is not modelled, because it may lie past the area; `fnet_mempool_release` does nothing.
- Netbufs.Netbufs.ToBuf: lengths below -1, and all bytes from an offset past the end, are excluded, because the loop then runs off the chain.
- Netbufs.Netbufs.Copy: the same, and an empty copy from exactly the end.
- Netbufs.Netbufs.CutCenter: offsets and lengths below zero are not modelled.
- Checksum.ChainSum: a chain with an empty netbuf in the middle of a word is excluded, because the code reads past that netbuf.
- IpFragments.Output: options in the header, routing and the checksum of the header are not modelled; a packet's payload is the byte sequence of its chain, and what the netbufs do is in `NetbufFragments`.
- NetbufFragments.MakeFragments: the bytes of each header are given, and the queue links between the fragments are a sequence.
- NetbufFragments.JoinFragments: every fragment finds memory (`Arrive` has the other case), and the fields rewritten in the restored header are those of `Reassembly.Whole`.
- Reassembly.Reassembler.Join: byte sequences and the names of chains are joined; `NetbufFragments.JoinFragments` has the netbufs.
- Reassembly.Reassembler.Input: fragments that arrive between those held are excluded, because the trimming code reads the `prev` link of a fragment that has none yet; fragments without payload, and the overlay of the fragment record on the IP header, are not modelled.
- ReassemblyRuns.Reassemble: the time to live and the checksum of the reassembled header are not modelled.
- Isr.Dispatcher.Handle: interrupts that arrive while a handler runs unlocked nest by hardware priority, which keeps the recursion finite; interrupts arrive between actions, and top halves are part of the raise.
- Inet6.Parse: the zone after '%' is not parsed.
- Arp.ArpTable.Input: the fields of the ARP header are one flag, and trimming of the packet and the contents of replies and requests are not modelled.
- SocketPorts.Ports.UniquePort: the endless search when no port is free is excluded by its precondition, which says just that.
- ParseAssignment.Parse: `strtol` is a function with the digits of base 8, 10 and 16; memory ends where the sequence ends.
- The lock around allocation and the retries that ask protocols to free memory (`fnet_prot_drain`), and the `drain` argument.
- Netbuf flags, and garbage in uninitialised links: new netbufs start with null links.
- Data buffers are byte sequences in the memory, with overlapping moves as one step.
- The first-fit allocator that is compiled out, and `fnet_mempool_check`.
- IpQueues.IpQueue.Append: the pointer to the interface, which the code stores as the data pointer of its netbuf, is that netbuf's bytes.
- Registration and release of interrupt handlers, and the newer unlock that is compiled out.
- Multicast membership counters, socket options, descriptors, connection states, TCP, UDP, ICMP, IGMP, MLD, DHCP, drivers and the application loop: they would mostly add easy members.
- Uniqueness of local addresses after `bind`: the conflict test there never succeeds.
