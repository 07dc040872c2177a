# Verified models of the algorithmic core

This project models, in Dafny, the self-contained algorithms of the repository and proves what they are for:
the two ordered trees, the Montgomery arithmetic of RSA verification, the slab allocator with its node pool and size
classes, the four ciphers and codecs that have to undo each other, the session table, the byte queue between two
threads, and the hash map.  `dafny verify dfyconfig.toml` checks all of it.

| files | component |
|---|---|
| `RbShape`, `RbHeap`, `RbDelete`, `RbTree` | red-black trees of `utils/tree.h` |
| `SplayShape`, `SplayTree` | top-down splay trees of `utils/tree.h` |
| `Arith`, `Montgomery`, `Rsa`, `RsaReduced`, `RsaLimit` | `utils/rsa.c` |
| `SlabLayout`, `SlabUnits`, `SlabQueues`, `SlabCache` | slab caches of `common/xmalloc/imembase.c` |
| `NodeList`, `NodePool` | vectors and the node pool of `common/xmalloc/imembase.c` |
| `SizeClasses` | size classes of `common/xmalloc/imembase.c` |
| `AesField`, `AesRound`, `Aes` | `utils/aes.c` |
| `Words`, `Tea`, `TeaMessage` | `utils/tea.c` |
| `Words`, `DesBits`, `DesRound`, `Des`, `DesKeys`, `DesCipher`, `DesStandard` | `utils/d3des.c` |
| `Base64` | `utils/baes64.c` |
| `Sessions` | `service/service_session.c` |
| `RollBuffer` | `common/rollbuf_pool.c` |
| `HashIndex`, `HashMap` | `utils/hashmap.c` |
| `Basics`, `Octets` | what several components share: options, sequences without repetition, bytes and exclusive or |

## How the models are built

- Linked structures (both trees, the hash chains) are heap objects whose methods assign links as the macros and functions
  do.  A ghost value says which shape the objects form; lemmas about snapshots of the links carry each assignment over to
  that value, and the properties are proved of the value.
- Slabs and units have integer addresses; the first word of each unit is memory that the code reads and writes.
  The page supplier, the set of off-slab headers and the allocator behind the node pool are any that return aligned,
  unused places or fail; a caller that says there is `memory` is told that they do not fail.
- The comparison function of the trees is the order of integer keys.
- The `const` arrays of `rsa.c`, `tea.c` and `baes64.c` are passed as sequences, so a call that aliases input and output
  is not described (AES does allow the same array for both).
- AES words are four bytes and its tables are given by the definitions in the comment at the head of `aes.c`, over any S
  and Si that are inverse to each other.  DES takes any contents of its S-boxes, each
  entry turned left by one bit.
- `Standard` states the steps of FIPS 46-3 on its own terms, over the two permuted choices of the key as `d3des.c` tables
  them; the bits of each key byte are counted from the other end, as the code does (`KeptIs`).
- Every call on the byte queue is recorded with what it asked for and what it came back with; the records are part of the
  state that the steps change and of nothing else.
- Characters of hash keys are the bytes 1 to 255; `char` is signed, so from 128 on they reach `hashfunc` as negative
  numbers, which `tolower` leaves alone, and the hash is computed modulo 2^32.
- The bytes that `qq_encrypt` draws from `rand()` are parameters; `unsigned long` is 32 bits wide.
- Invariants that would otherwise be unfolded in every proof are stated under a quantifier with an explicit trigger
  (`UnitsOk`, `Placed`, `Sending` and others), and the facts are drawn where the inner predicate is named.

Two promises hold only under a condition, and the code is modelled as it is:

- `modpow3` subtracts n once at its end.  Of a given modulus that is enough for every input, and gives the cube modulo n,
  exactly if 2n >= R, that is if n fills its words (`AlwaysReducedIff`); it is also enough for every input below n
  (`ModPow3`).  Otherwise the largest multiple of n below R is left unreduced with R^2 modulo n in its top form, and
  `OneSubtractionCanBeTooFew` gives, for every key length, a key with R^2 reduced for which n + 1 is left where the cube
  modulo n is 1.  `RSA_verify` accepts exactly what `modpow3` turns into the padded digest (`Verify`), so under such keys
  it can refuse a signature whose cube modulo n is the digest (`RightSignatureCanBeRefused`).
- `ikmem_append` never compares with the first entry, so the lookup table is sorted, and the search right, exactly if no
  class is larger than the first (`SortedIff`, `SearchRightIff`).  `ikmem_init` appends the largest possible class first.

Other places where the code does less than its text suggests: `hashmap_remove` counts in a `short` (`ReportedRight`
says when the count is right); `hashfunc` shifts a carried bit to value 8 rather than to the top, so hashes of plain
ASCII keys never exceed 525 (`HashSmall`), while other keys can hash to 2^31 and above, which in exactly the tables of
more than 2^31 buckets gives a negative `int` that the operations pass on as an error (`RefusedIff`);
`rollbuf_pool_push` checks for room without the lock, which is sound for one producer and not for two
(`BelowCapacityIff`); in `qq_decrypt` the wrong pointer in the trailer loop has no effect, because the trailer always
ends the last block (`CheckTail`).

## Model

| member | source | states |
|---|---|---|
| `RbTree.Tree.Find` | utils/tree.h:632-648 | returns a node with the key, or null only if no node of the tree has it |
| `RbTree.Tree.Insert` | utils/tree.h:601-630 | keeps search order, equal black heights, no red node under a red one, a black root and all parent links; the node set grows by exactly the element, or an equal key is returned and the tree is unchanged |
| `RbTree.Tree.InsertColor` | utils/tree.h:414-456 | from a tree whose only fault is a red node under a red parent, makes a red-black tree with a black root and the same in-order sequence |
| `RbTree.Tree.InsertStepLeft` | utils/tree.h:421-436 | one turn of the loop on the left side: the fault moves two levels up or is gone, the order is kept |
| `RbTree.Tree.InsertStepRight` | utils/tree.h:437-453 | the same on the right side |
| `RbTree.Tree.Remove` | utils/tree.h:534-599 | keeps all of the above and takes exactly the given node out of the node set |
| `RbTree.Tree.RemoveColor` | utils/tree.h:458-532 | from a tree with one black too few on every path through one place, makes a red-black tree with a black root and the same in-order sequence |
| `RbTree.Tree.RemoveStepLeft` | utils/tree.h:464-495 | one turn of the loop on the left side: the missing black moves one level up or is made good |
| `RbTree.Tree.RemoveStepRight` | utils/tree.h:496-528 | the same on the right side |
| `RbTree.Tree.RemoveInner` | utils/tree.h:543-582 | a node with two children is replaced by its successor, which takes over links and colour |
| `RbTree.Tree.RemoveOuter` | utils/tree.h:583-595 | a node with at most one child is bypassed |
| `RbTree.Tree.RotateLeft` | utils/tree.h:347-365 | turns the subtree, wherever it hangs, and keeps every parent link |
| `RbTree.Tree.RotateRight` | utils/tree.h:367-385 | the same the other way round |
| `RbTree.Tree.HeightBounded` | utils/tree.h:52-60 | every reachable tree of n nodes and height h has 2^ceil(h/2) <= n + 1 |
| `RbShape.HeightWithinBlackHeight` | utils/tree.h:52-60 | height is at most twice the black height (one more under a red root), and 2^blackheight <= n + 1 |
| `RbShape.PushDownRepairs` | utils/tree.h:423-428 | recolouring with a red uncle moves the fault to the grandparent and keeps black heights |
| `RbShape.LiftRepairs` | utils/tree.h:435-436 | rotation about the grandparent ends the fault |
| `RbDelete.RedSiblingRepairs` | utils/tree.h:466-470 | turning a red sibling up keeps the deficiency where it is, below a red parent |
| `RbDelete.ReddenRepairs` | utils/tree.h:471-477 | reddening a sibling with black children moves the deficiency to the parent |
| `RbDelete.NearChildRepairs` | utils/tree.h:479-487 | turning the near child up gives the sibling a red far child |
| `RbDelete.FarChildRepairs` | utils/tree.h:488-494 | turning the sibling up ends the deficiency |
| `SplayTree.Head.Splay` | utils/tree.h:212-245 | terminates, keeps the in-order sequence, and leaves at the root the sought key if present, else a node with no stored key strictly between it and the sought one |
| `SplayTree.Head.RoundLeft` | utils/tree.h:222-231 | one round on the left: the parts taken off are above the key, the order of the whole is kept, and the search ends or goes on with fewer nodes |
| `SplayTree.Head.RoundRight` | utils/tree.h:232-241 | one round on the right, likewise |
| `SplayTree.Head.Assemble` | utils/tree.h:113-118 | the two accumulated trees and the rest become one linked tree, also when an accumulator is still the dummy node |
| `SplayTree.Head.RotateRight` | utils/tree.h:89-93 | the rotation at the root of the searched part leaves the accumulated parts as they are |
| `SplayTree.Head.LinkLeft` | utils/tree.h:101-105 | the root and its right subtree join the right accumulator at its open end |
| `SplayTree.Head.Find` | utils/tree.h:130-140 | returns the node with the key, now the root, or null only if there is none |
| `SplayTree.Head.Insert` | utils/tree.h:167-189 | set insertion: exactly the element is added, as the root, or the equal node, the element itself if it is linked, returned with the nodes and their order unchanged |
| `SplayTree.Head.Remove` | utils/tree.h:191-210 | set deletion of the node with the key of `elm` |
| `SplayTree.Head.JoinParts` | utils/tree.h:202-206 | splaying the left part again leaves its root without a right child, which takes the right part |
| `SplayTree.LargestOnTop` | utils/tree.h:202-206 | splaying for a key above all others brings up a root with no right child |
| `SplayShape.AssembleOrder` | utils/tree.h:113-118 | the assembled tree has the in-order sequence of left part, rest and right part |
| `Montgomery.MontStepKeeps` | utils/rsa.c:55-77 | a step keeps the accumulator below R and below b + n, and 2^32 times it is congruent to c + a b |
| `Montgomery.MontMulKeeps` | utils/rsa.c:80-91 | after any number of words, R c is congruent to the product, and c is below R and below b + n |
| `Montgomery.MontMulUp` | utils/rsa.c:55-91 | while no step overflows, the product is reached by adding multiples of n only, exactly and not just modulo n |
| `Rsa.SubM` | utils/rsa.c:33-41 | subtracts the modulus modulo R |
| `Rsa.GeM` | utils/rsa.c:44-52 | compares with the modulus |
| `Rsa.Position` | utils/rsa.c:64-68 | both 64-bit accumulators stay below 2^64 in every turn |
| `Rsa.CarryLoop` | utils/rsa.c:64-68 | after each turn the words stored and the two carries make up the sum so far |
| `Rsa.MulAddWords` | utils/rsa.c:59-72 | the carry loop divides c + a b + q n by 2^32 exactly, the overflow included |
| `Rsa.MontMulAdd` | utils/rsa.c:55-77 | the words hold one Montgomery step |
| `Rsa.MulMod` | utils/rsa.c:80-91 | the words hold the Montgomery product, for any positive number of words |
| `Rsa.CubeModN` | utils/rsa.c:114-116 | the three products together are congruent to the cube |
| `Rsa.ModPow3` | utils/rsa.c:96-131 | the three Montgomery products, the last brought down once; always a number congruent to the cube, and the cube modulo n whenever the input is below n or 2n >= R |
| `RsaReduced.AlwaysReducedIff` | utils/rsa.c:96-131 | one subtraction leaves a number below n, and the cube modulo n, for every input and every form of R^2 exactly if 2n >= R |
| `RsaReduced.LeftHigh` | utils/rsa.c:96-131 | for every modulus with 2n < R, a key and an input, a multiple of n, that is left at n or above |
| `RsaReduced.HighStaysHigh` | utils/rsa.c:96-131 | under a modulus of at most R/7 with R^2 in its top form, every input from R - n on is left at n or above |
| `RsaReduced.RightSignatureCanBeRefused` | utils/rsa.c:163-198 | for every digest that ends in the word 1, a key and a signature whose cube modulo n is the padded digest and which is refused |
| `Montgomery.MontMulAtLeast` | utils/rsa.c:55-91 | a product of a and b is at least a times any bound below b and below R - n, over R |
| `RsaLimit.OneSubtractionCanBeTooFew` | utils/rsa.c:96-131 | for every key length there are a key and an input not below n for which the number left is n + 1, though the cube modulo n is 1 |
| `Rsa.Verify` | utils/rsa.c:163-198 | accepts exactly the 256-byte signatures under 64-word keys of which modpow3 makes the padded digest; their cube is congruent to it, and is it modulo n if the digest is below n; for a signature below n, or 2n >= R, exactly those whose cube modulo n is the digest |
| `Rsa.PaddingIs` | utils/rsa.c:133-158 | the padded digest is 00 01, ff up to one 00, and a sequence whose nested lengths end with the block: the identifier of SHA-1, a null, and the digest |
| `SlabLayout.Calculate` | common/xmalloc/imembase.c:792-832 | at least one unit per slab, and no subtraction below zero |
| `SlabLayout.OffSlabIff` | common/xmalloc/imembase.c:802-810 | the header is kept elsewhere exactly for units of an eighth of the page or more that are no larger than the header, or of which a header on the slab would take the place of one |
| `SlabLayout.MagazineSizes` | common/xmalloc/imembase.c:812-818 | larger units get smaller magazines, and a batch is half of a magazine |
| `SlabLayout.EnoughUnits` | common/xmalloc/imembase.c:792-832 | for every reachable colour at least `num` units fit and at most one more, exactly `num` off-slab, inside the page and behind the header |
| `SlabLayout.LimitTight` | common/xmalloc/imembase.c:792-832 | the colour limit is what the planned units and the header leave of the page, up to the size of a unit |
| `SlabLayout.ColorsStayOk` | common/xmalloc/imembase.c:920-923 | colours stay multiples of eight below the limit, or zero |
| `SlabLayout.ColorsCycle` | common/xmalloc/imembase.c:920-923 | slabs made one after the other go through all colours, the multiples of eight below the limit, in turn |
| `SlabCache.InitChain` | common/xmalloc/imembase.c:445-473 | chains exactly the units that fit, in order of address, aligned and without overlap |
| `SlabCache.Cache.constructor` | common/xmalloc/imembase.c:834-885 | an empty cache satisfies the invariant |
| `SlabCache.Cache.SlabCreate` | common/xmalloc/imembase.c:887-932 | a slab of at least `num` free units on a page that overlaps no other, made whenever the suppliers have memory; page counters and colour follow; on failure nothing changes |
| `SlabCache.Cache.TakeUnit` | common/xmalloc/imembase.c:477-487 | the first unit of the chain leaves it and names its slab; nothing else moves |
| `SlabCache.Cache.GiveUnit` | common/xmalloc/imembase.c:491-506 | a unit off the chain becomes its head; the asserted range and use count hold |
| `SlabCache.Cache.DrainOne` | common/xmalloc/imembase.c:954-971 | the last free slab goes; units with callers or in the magazine stay, and so do their slabs |
| `SlabCache.Cache.Drain` | common/xmalloc/imembase.c:944-977 | gives back the stated number of free slabs from the end of the queue and keeps every count |
| `SlabCache.Cache.ListAlloc` | common/xmalloc/imembase.c:1002-1051 | the first unit of the first partial slab, else of the first free one, else of a new one, which is made only then, and whenever the suppliers have memory; queues, counters and page counts are right again |
| `SlabCache.Cache.ListFree` | common/xmalloc/imembase.c:1053-1112 | a loose unit is back on its chain, its slab in the right queue; draining loses no unit in use and, while there are many free units, at most half of the free slabs stay |
| `SlabCache.Cache.FillBatch` | common/xmalloc/imembase.c:1118-1138 | adds units to the magazine above those present, up to the batch count unless no slab has a free unit and no memory is given; the high-water mark follows |
| `SlabCache.Cache.Alloc` | common/xmalloc/imembase.c:1141-1170 | hands out an object no caller holds, the top of the magazine if there is one, and adds exactly it to those held; never null while the suppliers have memory, and otherwise only when magazine, partial and free queues were empty; the invariant holds after every step |
| `SlabCache.Cache.Free` | common/xmalloc/imembase.c:1172-1232 | accepts exactly the objects callers hold; the object goes on top of the magazine, or to its slab together with the magazine's part above the batch count, after which half of the free slabs go if there are many free units; a second free, or one of a unit never handed out, changes nothing |
| `SlabCache.Cache.AllocThenFree` | common/xmalloc/imembase.c:1141-1232 | an object just handed out, which there is whenever the suppliers have memory, is accepted back, and callers hold what they held before |
| `SlabCache.Cache.HeldOwned` | common/xmalloc/imembase.c:1172-1191 | every object in a caller's hands is a unit that can be given back |
| `SlabCache.Cache.Shrink` | common/xmalloc/imembase.c:1235-1255 | empties the magazine and gives back every idle slab; objects held stay |
| `SlabCache.Cache.OnePlaceEach` | common/xmalloc/imembase.c:1141-1255 | in every reachable state each unit is held, in the magazine or on its slab's chain, never two of these, and held objects overlap no unit |
| `SlabUnits.TakeOk` | common/xmalloc/imembase.c:477-487 | taking from a chain keeps every unit in exactly one place |
| `SlabUnits.GiveOk` | common/xmalloc/imembase.c:491-506 | giving to a chain does too, and the slab had a unit in use |
| `SlabUnits.DropOk` | common/xmalloc/imembase.c:944-977 | a slab whose use count is zero has only free units, so dropping it loses none in use |
| `SlabUnits.UnmarkedUnlessHeld` | common/xmalloc/imembase.c:1185-1191 | the check mark tells units held from all others |
| `NodePool.Vector.Resize` | common/xmalloc/imembase.c:96-145 | keeps the words that fit across reallocation to a power of two; on failure nothing changes |
| `NodePool.Pool.New` | common/xmalloc/imembase.c:357-384 | hands out a node not in use, and always one while the allocator has memory; both lists stay linked both ways and share out all indices; blocks of old nodes stay in place |
| `NodePool.Pool.Del` | common/xmalloc/imembase.c:386-410 | a used node becomes the first open one, the order of the others stays |
| `NodePool.Pool.NewThenDel` | common/xmalloc/imembase.c:357-410 | a node handed out, which there is whenever the allocator has memory, and given back leaves the same nodes in use and is the first open one |
| `NodePool.Pool.ClosedUsed` | common/xmalloc/imembase.c:368-392 | a node in use has mode 1, so it can be given back |
| `NodePool.Pool.Grow` | common/xmalloc/imembase.c:315-354 | doubles the pool, from eight nodes, within the growth limit, whenever the allocator has memory; the new nodes are open and their blocks overlap no other; on failure lists, counts and links are as before |
| `NodePool.Pool.AddNodes` | common/xmalloc/imembase.c:340-351 | each turn links one node in front of the open list and keeps the blocks apart |
| `NodeList.MoveOk` | common/xmalloc/imembase.c:368-378 | moving the first open node keeps two well-formed lists that share all indices, with the mode to match |
| `NodeList.FreeOk` | common/xmalloc/imembase.c:394-407 | unlinking from anywhere and pushing in front does too |
| `NodeList.Shares` | common/xmalloc/imembase.c:266-410 | the lengths of the two lists add up to the number of nodes |
| `SizeClasses.Classes.Append` | common/xmalloc/imembase.c:1424-1434 | the classes are those before and the new one, descending from the second on, and the first stays first; a sorted table stays sorted exactly if the new class is not above the first |
| `SizeClasses.SortedIff` | common/xmalloc/imembase.c:1427-1434 | the table is descending exactly if the first class is the largest |
| `SizeClasses.Classes.ChooseSize` | common/xmalloc/imembase.c:1513-1523 | the last entry that fits, none from the page size on or above the first entry |
| `SizeClasses.SearchRightIff` | common/xmalloc/imembase.c:1513-1523 | the search gives the smallest class that fits, for every size below the page size, exactly if the first class is the largest |
| `SizeClasses.Classes.FillTables` | common/xmalloc/imembase.c:1580-1594 | the two tables hold the search result for every size they cover, and null at zero |
| `SizeClasses.Classes.ClassFor` | common/xmalloc/imembase.c:1702-1717 | the choice by tables, then by search, then by the water mark |
| `SizeClasses.SelectedHolds` | common/xmalloc/imembase.c:1702-1717 | for every water mark: above it no class is chosen; otherwise the class chosen holds the request, one is chosen whenever one fits, and it is the smallest exactly if none lies between the request and its rounded size while a class beyond exists |
| `Aes.AesKey.SetEncryptKey` | utils/aes.c:737-833 | the key expansion of section 5.2 of FIPS 197 for 128, 192 and 256 bits; other sizes are refused and nothing changes |
| `Aes.AesKey.SetDecryptKey` | utils/aes.c:838-884 | the same schedule backwards with the inner round keys unmixed |
| `Aes.AesKey.Encrypt` | utils/aes.c:891-1077 | the rolled double-round loop computes the rounds one after the other |
| `Aes.AesKey.Decrypt` | utils/aes.c:1082-1267 | the same for decryption |
| `Aes.DecryptUndoesEncrypt` | utils/aes.c:838-1267 | decryption under the decryption schedule undoes encryption, for every block, key and all three key sizes |
| `AesRound.InvMixUndoesMix` | utils/aes.c:52-64 | the column transforms behind the two sets of tables are inverse |
| `AesRound.RoundUndone` | utils/aes.c:891-1267 | a decryption round under the unmixed key undoes an encryption round |
| `AesRound.KeyWordIsInvMix` | utils/aes.c:859-882 | the table form used on the round keys is the inverse column transform |
| `Tea.Encipher` | utils/tea.c:80-103 | sixteen rounds of the block cipher |
| `Tea.Decipher` | utils/tea.c:106-131 | the sixteen rounds backwards, from the constant 0xE3779B90 |
| `Tea.MixIs` | utils/tea.c:97-101 | what a half round mixes in, as arithmetic modulo 2^32 on the half, the sum and two words of the key |
| `Tea.FinalSum` | utils/tea.c:119-120 | that constant is the sum after sixteen rounds |
| `Tea.DecipherInverts` | utils/tea.c:80-131 | deciphering undoes enciphering for every block and key |
| `TeaMessage.EncryptBlock` | utils/tea.c:139-159 | one more block of the chain |
| `TeaMessage.Encrypt` | utils/tea.c:161-210 | the ciphertext of the padded message, 8 ceil((n + 10) / 8) bytes long |
| `TeaMessage.PlainCipher` | utils/tea.c:139-230 | chaining both ways is undone for any invertible block cipher and any text |
| `TeaMessage.CheckTail` | utils/tea.c:295-304 | reports exactly whether the last seven bytes are zero; they always end the last block |
| `TeaMessage.Decrypt` | utils/tea.c:232-306 | for every input, when it succeeds, what it writes and the length it stores |
| `TeaMessage.DecryptUndoesEncrypt` | utils/tea.c:161-306 | every message, the empty one included, comes back, for every key and all random bytes, into every buffer that can hold it |
| `DesBits.FinalUndoesInitial` | utils/d3des.c:327-393 | the last swaps undo the first ones with the halves exchanged |
| `DesBits.InitialIsPermuted` | utils/d3des.c:327-345 | the exchanges before the rounds are the initial permutation of FIPS 46-3, with both halves turned left by one bit |
| `Des.RoundsUndone` | utils/d3des.c:347-372 | sixteen rounds under reversed keys undo sixteen rounds, whatever the round function |
| `DesRound.ChosenIsEntries` | utils/d3des.c:348-358 | each S-box is entered with its row of the expanded half, exclusive or with its six bits of the round key |
| `DesRound.OneBox` | utils/d3des.c:348-358 | with all other boxes empty, the round gives the entry of one box at its row of the expanded half and its bits of the key |
| `Des.DesFunc` | utils/d3des.c:322-394 | the loop of eight double rounds is the sixteen rounds, with halves in place |
| `DesCipher.Register.DesKey` | utils/d3des.c:67-122 | the register holds the round keys in order, or in the opposite order for decryption |
| `DesKeys.RoundKeyIs` | utils/d3des.c:67-122 | the words of a round key hold, for each box, the six bits of the key schedule of FIPS 46-3: halves turned step by step, then the second permuted choice |
| `DesKeys.KeptIs` | utils/d3des.c:73-77 | the bits kept of the key are counted from the least significant end of each byte, the other way round than in the standard |
| `DesCipher.Register.Run` | utils/d3des.c:142-176 | a block goes through the cipher with the keys in the register |
| `DesCipher.DecryptUndoesEncrypt` | utils/d3des.c:67-394 | decryption undoes encryption and the other way round, for every key, block and S-box contents |
| `DesCipher.EncryptThenDecrypt` | utils/d3des.c:67-176 | setting up the register to encrypt, running, setting it up to decrypt and running again gives the block back |
| `DesStandard.FollowsStandard` | utils/d3des.c:67-394 | the cipher is that of FIPS 46-3, for every key, block and S-box contents: initial permutation, sixteen rounds, and what comes out permutes to the exchanged halves |
| `DesStandard.Complementation` | utils/d3des.c:67-394 | the complemented block under the complemented key enciphers to the complement |
| `Base64.Encode` | utils/baes64.c:35-88 | the groups with line feeds after every 72 characters and at the end, and every write inside the allocation |
| `Base64.EncodedFits` | utils/baes64.c:43-45 | text and terminator never exceed the computed allocation, for any length |
| `Base64.Decode` | utils/baes64.c:101-152 | for every input, the bytes of the meaningful characters in fours, less what the padding of the last group takes away; none if they do not come in fours |
| `Base64.DecodeUndoesEncode` | utils/baes64.c:35-152 | decoding what was encoded gives it back, line feeds and padding included, the empty string too |
| `Sessions.Table.Add` | service/service_session.c:153-209 | pushes out the sessions that conflict with the login and appends the new one |
| `Sessions.LoginLeaves` | service/service_session.c:165-198 | exactly these stay, in their order: for a user's login those of another connection whose admin or user differs, for an admin's login those of another connection and another user |
| `Sessions.Table.Del` | service/service_session.c:214-233 | marks the first session of the connection, and says whether there was one |
| `Sessions.Table.Heartbeat` | service/service_req_platform.c:43-62 | sets the flag of the first session of the connection |
| `Sessions.Table.Sweep` | service/service_session.c:41-92 | clears flags up to the first silent or marked session and removes that one alone, or up to the entry before which the stop sign is seen |
| `Sessions.RunDistinct` | service/service_session.c:153-209 | in every run connections and pairs of admin and user stay pairwise distinct |
| `Sessions.Expires` | service/service_session.c:41-92 | a logged-out or silent session is gone after more sweeps than its respite, under any interleaving with other events |
| `Sessions.GoneWithin` | service/service_session.c:41-92 | at position i, it does not outlast i + 2 sweeps |
| `Sessions.LogoutEnds` | service/service_session.c:41-92 | a session at position i that logs out is gone after i + 1 sweeps, whatever happens in between |
| `Sessions.StaysOnline` | service/service_session.c:41-92 | a session that sends a heartbeat between sweeps, and is neither marked nor pushed out, is never removed |
| `RollBuffer.StepKeeps` | common/rollbuf_pool.c:63-209 | every step of one producer, the consumer, finish and stop keeps the invariant |
| `RollBuffer.OneProducerConserves` | common/rollbuf_pool.c:63-209 | in every interleaving the bytes returned and then those in the buffer are the bytes accepted, in order, and the buffer stays below its capacity |
| `RollBuffer.CallsServed` | common/rollbuf_pool.c:63-209 | in every interleaving every get that came back brought exactly the bytes it asked for, or after the finish what was left, or after a stop nothing; together they are the bytes of the pushes that said they took theirs, in order |
| `RollBuffer.DrainTakesAll` | common/rollbuf_pool.c:136-156 | a get that comes back with what was left after the finish has given out all that was accepted, and the buffer is empty |
| `RollBuffer.GetAlone` | common/rollbuf_pool.c:103-191 | a get that nothing interrupts: nothing if stopped, the first bytes asked for if there are as many, with the rest staying, all there are after the finish, and waiting otherwise |
| `RollBuffer.PushAlone` | common/rollbuf_pool.c:63-101 | a push that nothing interrupts: refused if stopped, taken whole behind what is there if there is room, refused after six looks otherwise |
| `RollBuffer.TwoProducersOverrun` | common/rollbuf_pool.c:81-97 | with two producers a run fills the buffer beyond its capacity |
| `RollBuffer.BelowCapacityIff` | common/rollbuf_pool.c:81-97 | for a pool of two bytes or more, the buffer stays below capacity in every run exactly if there is at most one producer |
| `HashIndex.HashFunc` | utils/hashmap.c:83-103 | the bucket of a key as a signed int, for all characters |
| `HashIndex.HashFolds` | utils/hashmap.c:83-103 | keys equal up to case have the same hash |
| `HashIndex.SameIff` | utils/hashmap.c:400-425 | keys match exactly if they are equally long and at each place equal or the two cases of one of the 26 letters |
| `HashIndex.HashSmall` | utils/hashmap.c:93-102 | hashes of keys of plain ASCII characters never exceed 525 |
| `HashIndex.RefusedIff` | utils/hashmap.c:83-103 | some key has a negative bucket exactly in tables of more than 2^31 buckets |
| `HashIndex.NotRefused` | utils/hashmap.c:83-103 | the bucket is not negative for keys of plain ASCII characters, nor for any key in a table of at most 2^31 buckets |
| `HashIndex.FirstIs` | utils/hashmap.c:448-457 | the first match matches, and none before it does |
| `HashIndex.OthersAre` | utils/hashmap.c:470-519 | exactly the entries without a match are left, in their order, and the count is that of the others |
| `HashMap.Table.Insert` | utils/hashmap.c:203-269 | a new entry at the end of the chain of its bucket, linked both ways; empty data and a negative bucket are reported and change nothing |
| `HashMap.Table.InsertThenSearch` | utils/hashmap.c:203-460 | an entry just inserted is counted, and found if there was none, under any spelling of its key in other cases |
| `HashMap.Table.Find` | utils/hashmap.c:319-351 | the place of the first match among all entries; the end exactly if there is none |
| `HashMap.Table.ReturnEntry` | utils/hashmap.c:359-391 | the entry at a place |
| `HashMap.Table.Search` | utils/hashmap.c:400-425 | the count in one bucket is the count over the whole table; a negative bucket comes back as an unsigned number |
| `HashMap.Table.EntryByKey` | utils/hashmap.c:435-460 | the first match in one bucket is the first match over the whole table, with the length of its data; a negative bucket comes back as an unsigned number |
| `HashMap.Table.FindThenReturn` | utils/hashmap.c:319-460 | going through the iterator and going by the key give the same entry |
| `HashMap.Table.Remove` | utils/hashmap.c:470-519 | exactly the matching entries go, the others keep their order, and the count is returned as a short; a negative bucket comes back as an unsigned number |
| `HashMap.Table.BucketAgrees` | utils/hashmap.c:319-519 | only the bucket of a key can hold it, so counting, finding and removing there agree with the whole table |
| `HashMap.ReportedRight` | utils/hashmap.c:470-519 | the returned count is right exactly below 32768 |

## Left out

- Rsa.ModPow3: for one given form of R^2 and an input not below n under a modulus with 2n < R, whether the result is reduced depends on the value of the last Montgomery product, and is not described further.
- SlabCache.Cache.Free: is described for pointers to units of live slabs; the check mark of any other address would be read from memory the cache does not own.
- NodePool.Pool.Grow: an allocator failure in the middle of resizing the link arrays, after which the source keeps pointers to freed blocks, is not described; the columns are resized together or not at all.
- HashIndex.HashFunc: is described for non-empty keys; for the empty key the source reads past the terminator.
- Calls on the session table and the trees are atomic; the source takes no lock there.
- Mutexes of the allocator, allocator hooks, statistics, the large-block list, the choice of a page supplier for a class and the pool of off-slab descriptors.
- `iv_insert` and `iv_erase`, and `imslab_set_delete`.
- `SPLAY_MINMAX`, `SPLAY_NEXT`, `RB_NFIND`, `RB_NEXT`, `RB_PREV`, `RB_MINMAX` and `RB_AUGMENT`: traversal helpers next to the operations modelled here.
- `AES_cbc_encrypt` and the fully unrolled AES code, which is not compiled.
- Double- and triple-length DES keys.
- Reference counts of sessions: a release completes at once.
- The callbacks of the byte queue, and unlocking a mutex that is not held when a push finds the stop signal.
- Byte-level integer overflow of lengths near the limits of `int` and `size_t`.
- Remote calls, databases, sockets, timers, user interface and logging.
