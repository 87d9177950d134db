# A verified model of a one-pass RISC-V assembler and its containers

The repository is an assembler that reads RISC-V source once and writes an ELF file. Its label table is a hash map from
the bundled container header `cc.h`; its mnemonics are recognised by a compiled trie. This project models the three
parts in which the difficulty lies and proves what they promise.

`Options` holds the one datatype that all parts share.

**The hash map** (`Metadata`, `Probe`, `Chains`, `Tables`, `MapMeaning`, `Allocator`, `HashMap`, `Crowding`). Open
addressing in which the keys of one home bucket form a chain through 16-bit metadata: hash fragment, home flag,
quadratic displacement of the next member. The class `CCMap` has the arrays of the source and changes them in place. Its
invariant `Tables.Inv` says that the flag marks home buckets, chains start at home, displacements increase strictly and
end in 0x7FF, fragments match and every binding is in one bucket; `MapMeaning` restates this of memory alone. Every
operation is proved to do to the ghost map `contents` what a plain map does, for any hash function and any load limit,
and to fail exactly when it must. A key cannot be placed if the search from its home, or from the home of the key it
would evict, finds no empty bucket (`Tables.Blocked`); that takes as many keys as a search looks at buckets. A failed
eviction leaves a damaged map, which can still be searched and iterated over, and from which a rehash recovers. Memory
comes from an allocator that may refuse any request and that logs them all. `Insert` asks only if the key does not fit,
doubles the request each time, and fails only if its last request was refused. It gives a table up only for the load
limit, or because the bindings can get stuck in it: some of them stand so that the key of another cannot be placed
(`HashMap.Stuck`). Some bucket count is never granted; no termination is claimed without that.

**The ordered map** (`RedBlackTree`, `RedBlackMemory`, `RedBlackInsert`, `RedBlackErase`, `RedBlackClone`,
`RedBlackHeight`, `SortedItems`, `OrderedMap`). A red-black tree with parent links. Memory is an arena from addresses to
node headers; address 0 is the sentinel and never a key of the arena, so nothing is ever written to it. The proofs speak
of a position in the tree as a context `Path` with a subtree plugged into it; `Here` ties both to the links in memory.
The loops are those of the source: descent, two fix-ups, stackless iteration, stackless clear and clone.

**The assembler** has three pieces.
The trie compiler (`TrieBuilder`, `BuilderNodes`, `FlatTrie`, `TrieLayout`, `TrieCompiler`) turns a word list into a
pointer trie and then into ranked arrays, which the loop of `parse_line` walks.
The encoder (`Encoder`) is proved invertible, both ways, against the formats of sections 2.2 and 2.3 of The RISC-V
Instruction Set Manual, Volume I (Unprivileged ISA), with the format read from the opcode field.
The emitter (`Offsets`, `Labels`, `Programs`, `Sections`, `Runs`, `Backpatch`, `Emitter`) buffers two sections, keeps the
label table and patches waiting words. It is proved against an assembler of two passes: `Layout` places every line, then
`Image` encodes it. A run is a list of parsed lines. `Runs.Verdict` says of the program text alone how each line ends. A
refused definition and a flushed word end the run; where a line fills the buffer the source goes on, but its section is
too short from then on, and the model follows it no further. When all lines are accepted, the output is the one-pass image, and that is the two-pass image if and only if no
use that is left without its label's address has an offset with bits in the word; with even offsets in reach, if and only
if each such use stands at its label.

Where the code does not do what a caller may expect, the exact condition is proved:

* A label that is used before its definition never gets a value in the table (`emitter.c:76-112` patches the waiters but
  does not store the address), so a use after the definition stays unpatched: `Labels.ResolvedExactly` for the operand,
  `Programs.OutputIsTwoPassExactly` and `Programs.OutputInReachExactly` for the output. `Programs.SecondUseIsWrong` is a
  program of four lines whose output is wrong.
* For the same reason a second definition goes unnoticed: `Labels.KnownWhenDefinedFirst`, and as a program
  `Runs.SecondDefinitionIsAccepted`.
* An offset that is odd or out of reach is truncated without notice: `Labels.LandsExactly`. `Runs.FarBranchIsTruncated` is an
  accepted program whose branch leads elsewhere.
* `emitter_buffer` loses the bytes that fill the buffer up: `Sections.LostExactly` says when and how many.
  `Runs.LastWordIsLost` is a program of 1024 operations the last of which is not put out.
* A word that is a prefix of an earlier one is dropped by the trie builder: `TrieBuilder.AdmissibleExactly`, and
  `TrieBuilder.PrefixIsLost` for "addi" before "add".
* The trie reader ignores the top bit of a character: `TrieCompiler.ReaderAgreesExactly`, and
  `TrieCompiler.HighByteIsAccepted` for a token that is not a word.
* An eviction fails exactly when the home of the evicted key is crowded (`HashMap.CCMap.Evict`, `HashMap.CCMap.InsertRaw`),
  and then no recorded chains make the map valid (`MapMeaning.FailedEvictionDamages`). `Crowding.EvictionCanFail` is a valid
  map of 4096 buckets, less than half of them occupied, in which this happens.

The documentation in `cc.h:561-565` promises that `erase_itr` returns the next element; `HashMap.CCMap.EraseItr` proves
it in the form that iteration needs, as the set of keys still to come.

Ghost parameters carry the place in a tree or the state of a chain into a method. `hide` keeps definitions out of proofs
that do not need them.

## Model

| member | source | states |
|---|---|---|
| Metadata.MasksSelectFields | cc.h:2880-2895 | the three masks of a metadatum select its three fields and only the empty metadatum is zero |
| Metadata.MaskedAssignments | cc.h:3108-3109 | each masked assignment changes one field and leaves the other two alone |
| Probe.MaskIsModulo | cc.h:3041 | reducing by the capacity mask is reduction modulo a power of two |
| Probe.QuadraticStep | cc.h:3036-3048 | the running sum of displacements is the closed form of cc_quadratic |
| Probe.BucketStep | cc.h:3036-3048 | each bucket of the sequence is one step further than the last, a step that grows by one each time |
| Probe.ProbeIsInjective | cc.h:2897-2903 | modulo 2^k the first 2^k triangular numbers are pairwise different |
| Probe.ProbeIsComplete | cc.h:2897-2903 | the first 2^k displacements from any home visit all 2^k buckets |
| Chains.LinkKeepsChains | cc.h:3127-3132 | linking an empty bucket in displacement order keeps every chain, and adds exactly that bucket to its own |
| Chains.UnlinkKeepsChains | cc.h:3107-3109 | taking one link out keeps every chain without that bucket |
| Chains.HeadKeepsChains | cc.h:3187 | starting a chain over an empty or an unlinked home bucket keeps every chain |
| Chains.DropSoleKeepsChains | cc.h:3661-3674 | emptying a bucket that is its whole chain keeps every other chain |
| Chains.WalkReaches | cc.h:3096-3105 | a walk from the start of a chain does not pass a member without meeting it |
| Tables.LinkNew | cc.h:3237-3250 | writing a new pair into an empty bucket and linking it binds exactly one more key |
| Tables.LinkMoved | cc.h:3118-3132 | moving the unlinked key and linking it again restores all chains; one stale bucket remains |
| Tables.Unlink | cc.h:3107-3109 | disconnecting leaves all bindings and all chains but one link |
| Tables.StartChain | cc.h:3183-3189 | writing the head of a chain over an empty or stale bucket binds exactly one more key |
| Tables.RemoveSole | cc.h:3661-3674 | case 1 of erasing removes exactly one binding |
| Tables.RemoveUnlinked | cc.h:3700-3705 | case 2 of erasing removes exactly one binding |
| Tables.ReplaceByUnlinked | cc.h:3721-3735 | case 3 of erasing removes exactly one binding and keeps the moved one |
| Tables.Overwrite | cc.h:3204-3217 | replacing the element of a bound key keeps everything else |
| Tables.BoundKeyHasChain | cc.h:3501-3502 | a home bucket without flag means that no key of that home is bound |
| Tables.WalkToKey | cc.h:3506-3520 | a lookup that follows the home chain cannot miss a bound key |
| Tables.CrowdedIsFull | cc.h:3029-3050 | with at most 1024 buckets a search fails only if every bucket is occupied |
| Tables.CrowdedTakesKeys | cc.h:3029-3050 | a search fails only if as many keys are bound as it looks at buckets: all of them, or 2047 |
| Tables.BlockedTakesKeys | cc.h:3165-3235 | so a key that cannot be placed means as many bound keys |
| Tables.SmallTableIsNotCrowded | cc.h:3029-3050 | with at most 1024 buckets and one of them empty no search fails |
| MapMeaning.BucketsHoldTheMap | cc.h:2842-2860 | a pair is bound if and only if an occupied bucket holds it, and no key is in two buckets |
| MapMeaning.SizeIsOccupancy | cc.h:2908-2923 | the number of bindings is the number of occupied buckets |
| MapMeaning.FlagAndFragment | cc.h:2847-2856 | the flag is set exactly in the key's home bucket, the fragment is the key's, and the home is occupied and flagged |
| MapMeaning.FragmentIsTop | cc.h:2890-2895 | the fragment is the four most significant of the 64 bits of the hash code |
| MapMeaning.HomeIsMasked | cc.h:3166 | the home bucket is the hash code under the capacity mask |
| MapMeaning.ChainIsExactlyTheHome | cc.h:2847-2852 | the buckets linked from a home bucket are exactly those whose keys have that home |
| MapMeaning.ChainIncreases | cc.h:2847-2856 | in memory, each chain member stands at its displacement from home and links to one further out; the last link is 0x7FF |
| MapMeaning.FailedEvictionDamages | cc.h:3107-3115 | after a failed eviction the key is in no chain, and no recorded chains make the map valid |
| Crowding.EvictionCanFail | cc.h:3107-3115 | a valid map, less than half full, in which an eviction must fail |
| HashMap.CCMap.FindFirstEmpty | cc.h:3029-3050 | the first displacement with an empty bucket, or none below the displacement limit has one |
| HashMap.CCMap.FindInsertLocation | cc.h:3056-3072 | the chain member between whose displacement and link the new displacement falls |
| HashMap.CCMap.FindPrevious | cc.h:3093-3105 | the chain member that links to the bucket |
| HashMap.CCMap.Disconnect | cc.h:3107-3109 | the key is in no chain and still in its bucket |
| HashMap.CCMap.MoveTo | cc.h:3117-3132 | the unlinked key is in its chain again, elsewhere |
| HashMap.CCMap.Evict | cc.h:3085-3135 | fails if and only if the home of the evicted key is crowded; otherwise all chains are whole and the bucket is stale |
| HashMap.CCMap.FindInChain | cc.h:3194-3225 | the bucket of a key of this home if and only if it is bound |
| HashMap.CCMap.Get | cc.h:3486-3521 | finds the key's pair if and only if the key is bound (and not the one that a failed eviction unlinked) |
| HashMap.CCMap.InsertHead | cc.h:3172-3192 | the key starts its chain unless the eviction it needs must fail |
| HashMap.CCMap.InsertInChain | cc.h:3228-3252 | the key joins its chain unless its home is crowded, and then nothing changes |
| HashMap.CCMap.InsertRaw | cc.h:3149-3253 | fails if and only if the key is new and the load limit is reached or it cannot be placed; otherwise binds the key if it is new or replace is set, leaves a bound key alone if not, and keeps the full invariant; only a failed eviction changes anything on failure |
| HashMap.CCMap.Replace | cc.h:3204-3217 | updates the element of a bound key |
| HashMap.CCMap.Reinsert | cc.h:3262-3311 | adds a key that is not bound, unless it cannot be placed |
| HashMap.CCMap.Placeholder | cc.h:2925-2929 | the placeholder is a valid empty map |
| HashMap.CCMap.WithBuckets | cc.h:3342-3353 | a new table is a valid empty map with its stopper in place |
| HashMap.CCMap.CopyInto | cc.h:3355-3371 | the copy has the same bindings, or the next key in bucket order cannot be placed beside those before it |
| Allocator.Allocator.Ask | cc.h:3342-3344 | every request is logged with its outcome |
| HashMap.CCMap.MakeRehash | cc.h:3324-3380 | from a possibly damaged map a fully valid one with the same bindings at the last granted capacity, or the last request was refused; in each table given up the bindings got stuck |
| HashMap.BlockedIsStuck | cc.h:3228-3235 | a map that cannot place a new key is a table in which bindings get stuck |
| HashMap.CopyingIsStuck | cc.h:3355-3376 | so is a table in which copying stops |
| HashMap.StuckTakesKeys | cc.h:3334-3335 | bindings get stuck only if there are more of them than a search looks at buckets |
| HashMap.CCMap.Grow | cc.h:3466-3481 | one step of growing: requests go on doubling |
| HashMap.CCMap.Insert | cc.h:3430-3484 | unless a request is refused, binds the key if it is new or replace is set and leaves a bound key alone if not; asks for nothing if and only if the key fits, and first for 8 buckets or twice as many; gives a table up only for the load limit or because bindings get stuck in it, and succeeds if the first is granted and neither happens; after a failure the map is valid or damaged by one failed eviction |
| HashMap.CCMap.EraseSole | cc.h:3661-3674 | case 1 |
| HashMap.CCMap.EraseLast | cc.h:3690-3709 | case 2 |
| HashMap.CCMap.FindLast | cc.h:3714-3721 | the last two members of a chain |
| HashMap.CCMap.EraseInner | cc.h:3711-3745 | case 3: only the chain's last key moves, to the erased bucket |
| HashMap.CCMap.EraseRaw | cc.h:3647-3747 | removes exactly one key, home bucket known or not; tells which keys an iteration has still to visit |
| HashMap.CCMap.Erase | cc.h:3775-3812 | removes the key if and only if it is bound, and says whether it was |
| HashMap.FirstNonzero | cc.h:3549-3550 | index of the first non-empty metadatum of four |
| HashMap.CCMap.LeapForward | cc.h:3541-3555 | in a damaged map too, reads four at a time within bounds and finds the first occupied bucket, or the end |
| HashMap.SkipEmpty | cc.h:3541-3555 | skipping empty buckets skips no key |
| HashMap.CCMap.First | cc.h:3591-3603 | in a damaged map too, all keys are still to come |
| HashMap.CCMap.Next | cc.h:3626-3635 | in a damaged map too, the keys still to come are those beyond the bucket |
| HashMap.CCMap.EraseItr | cc.h:3753-3770 | the keys still to come are those that were strictly beyond the erased bucket |
| HashMap.CCMap.EraseWhile | cc.h:561-565 | an erase-as-you-go loop visits every key exactly once and keeps exactly the keys not chosen |
| SortedItems.RemovedFromMap | cc.h:4724-4726 | removing one item of a sorted sequence keeps order and removes one binding |
| SortedItems.RemovedByTakingNext | cc.h:4691-4694 | detaching the successor and putting it into the erased place removes just the erased item |
| SortedItems.UniqueSplit | cc.h:4747-4750 | an item of a sorted sequence has one position |
| RedBlackTree.RotationKeepsItems | cc.h:4394-4418 | rotation keeps the in-order sequence |
| RedBlackTree.RefsAreItems | cc.h:4183-4189 | the nodes of a tree are those of its in-order sequence |
| RedBlackHeight.RedBlackIsShallow | cc.h:4166-4170 | a red-black tree of n items is at most 2 log2(n + 1) nodes high |
| RedBlackMemory.RotatedRep | cc.h:4401-4417 | the pointer assignments of a rotation make memory represent the rotated tree and nothing else |
| RedBlackMemory.DetachedRep | cc.h:4677-4684 | the pointer assignments of detaching make memory represent the tree with the only child in the node's place |
| RedBlackMemory.SupplantedRep | cc.h:4695-4712 | the pointer assignments make memory represent the tree with the detached node in the other's place |
| RedBlackMemory.Attached | cc.h:4530-4541 | linking a new node at an empty place represents the grown tree |
| RedBlackMemory.CutDown | cc.h:4783-4792 | following and cutting a link keeps what is left to clear |
| RedBlackMemory.ReleaseUp | cc.h:4793-4804 | releasing a node without children leaves the rest to clear, without dangling links |
| RedBlackInsert.PaintFamilySound | cc.h:4431-4437 | recolouring moves the only red-red pair two levels up |
| RedBlackInsert.RotateInnerSound | cc.h:4440-4444 | the inner grandchild case becomes the outer one |
| RedBlackInsert.RotateOuterSound | cc.h:4446-4448 | one rotation and two colours remove the red-red pair and keep black heights |
| RedBlackErase.RedSiblingSound | cc.h:4619-4625 | with a red sibling the missing black stays where it is and the sibling becomes black |
| RedBlackErase.PaintSiblingSound | cc.h:4627-4632 | the missing black moves one level up |
| RedBlackErase.NearNephewSound | cc.h:4635-4641 | a red near nephew becomes a red far nephew |
| RedBlackErase.FarNephewSound | cc.h:4643-4647 | a red far nephew pays for the missing black |
| RedBlackErase.DetachSound | cc.h:4677-4689 | detaching a red node keeps the rules; detaching a black one lacks one black at one place |
| RedBlackClone.CopiedChild | cc.h:4906-4918 | the part copied so far stays isomorphic to the part visited |
| RedBlackClone.CopiedTree | cc.h:4879-4892 | when no child is left the subtree is an isomorphic copy |
| OrderedMap.COMap.Rotate | cc.h:4395-4418 | represents the rotated tree in the same context |
| OrderedMap.COMap.ClimbOnce | cc.h:4426-4450 | one round keeps contents and gets nearer the root |
| OrderedMap.COMap.PostInsertFixup | cc.h:4421-4453 | from one possible red-red pair a red-black tree with the same contents |
| OrderedMap.COMap.Search | cc.h:4489-4519 | ends at the key's node, or at the empty place where the key belongs |
| OrderedMap.COMap.Get | cc.h:4550-4570 | the key's node if and only if the key is bound |
| OrderedMap.COMap.Insert | cc.h:4461-4547 | adds or replaces one binding and keeps all rules; other nodes keep address, key, element and order; without replace nothing changes for a bound key |
| OrderedMap.COMap.FillOnce | cc.h:4614-4649 | one round keeps contents and does decreasing work |
| OrderedMap.COMap.PostEraseFixup | cc.h:4608-4653 | from one missing black, possibly at the sentinel, a red-black tree with the same contents |
| OrderedMap.COMap.FindDetached | cc.h:4666-4675 | the node itself or its in-order successor, which lacks a child |
| OrderedMap.COMap.Remove | cc.h:4677-4689 | detaches a node and restores the rules |
| OrderedMap.COMap.TakePlace | cc.h:4695-4712 | the detached successor takes the erased node's place, colour and links |
| OrderedMap.COMap.EraseRaw | cc.h:4656-4722 | a valid tree without exactly that node; every other node keeps its address, key and element |
| OrderedMap.COMap.Erase | cc.h:4727-4745 | removes the key if and only if it is bound |
| OrderedMap.COMap.FirstOrLast | cc.h:4289-4303 | the first or last position, or the outside one of an empty map |
| OrderedMap.COMap.Iterate | cc.h:4323-4353 | exactly one position on in key order, from the outside positions as well |
| OrderedMap.COMap.ThereAndBack | cc.h:4323-4373 | a step and a step back return to the same position |
| OrderedMap.COMap.EraseItr | cc.h:4751-4765 | the successor's position, in the sequence without the erased item |
| OrderedMap.COMap.Walk | cc.h:7481-7486 | iteration visits all nodes once in key order |
| OrderedMap.COMap.BoundedFirstOrLast | cc.h:4577-4602 | the first position not below a key, or the last not above it |
| OrderedMap.COMap.Release | cc.h:4777-4807 | releases every node exactly once without a stack |
| OrderedMap.COMap.Clear | cc.h:4768-4814 | an empty valid map |
| RedBlackClone.StartedHasFewer | cc.h:4879-4892 | while a child is left to copy, fewer nodes have been copied than there are |
| OrderedMap.COMap.CopyRest | cc.h:4877-4919 | copies every node into new memory if and only if the allocations it needs succeed |
| OrderedMap.COMap.InitClone | cc.h:4835-4923 | a disjoint tree equal in shape, colours, keys and elements; null if and only if the map is not empty and one of the allocations for header and nodes fails |
| OrderedMap.CopyIsValid | cc.h:4835-4923 | an isomorphic copy of a valid tree is valid and stands for the same map |
| TrieBuilder.InsertPath | instruction_trie/main.c:45-68 | inserting a word adds exactly its prefixes to the paths |
| TrieBuilder.InsertLookup | instruction_trie/main.c:45-68 | inserting a word binds it unless it is a path already, and binds nothing else |
| TrieBuilder.BuildIsDictionary | instruction_trie/main.c:226-283 | the pointer trie of any list is its list of words that are not prefixes of earlier ones |
| TrieBuilder.AdmissibleDictionary | instruction_trie/main.c:226-283 | an admissible list gives every word its value and no other word one |
| TrieBuilder.AdmissibleExactly | instruction_trie/main.c:45-68 | without repetitions, every word keeps its value if and only if no word is a prefix of an earlier one |
| TrieBuilder.ShadowedIsDropped | instruction_trie/main.c:46-53 | a word that is a prefix of an earlier one is not found |
| TrieBuilder.PrefixIsLost | instruction_trie/main.c:46-53 | "addi" before "add": the second is lost |
| BuilderNodes.BuilderNode.Insert | instruction_trie/main.c:45-68 | the nodes in memory become those of the trie with the word inserted |
| BuilderNodes.BuildTrie | instruction_trie/main.c:226-283 | the nodes in memory are the pointer trie of the list |
| FlatTrie.TrieNextIsRank | trie.c:3-17 | the shift-and-popcount expression is the rank of the character in the 128-character set, or -1 |
| FlatTrie.RankIsInjective | trie.c:10-16 | rank numbers the set characters differently, below their number |
| FlatTrie.RankIsOnto | trie.c:10-16 | every number below the size of the set is a rank |
| TrieLayout.BitsCount | instruction_trie/main.c:112-123 | the set bits of a node are as many as its links or word ends |
| TrieLayout.SlotsDiffer | instruction_trie/main.c:138-165 | different entries have different slots |
| TrieLayout.Within | instruction_trie/main.c:92-103 | the regions of subtries nest and do not overlap the node's own slots |
| TrieLayout.FlatFrame | instruction_trie/main.c:138-165 | writes outside a subtrie's region leave it in place |
| TrieLayout.EverySlotIsUsed | instruction_trie/main.c:92-166 | no slot within the computed size is left over |
| TrieLayout.OwnSlotsDiffer | instruction_trie/main.c:138-165 | links and values of a node's entries are all in different slots |
| TrieLayout.EverySlotIsWrittenOnce | instruction_trie/main.c:92-166 | the layout has each slot within the computed size once, and no other |
| TrieLayout.LogsNext | instruction_trie/main.c:138-165 | what one more entry and the trie below it add to the log of slots |
| TrieCompiler.SetKey | instruction_trie/main.c:9-13 | sets one bit of the 128 |
| TrieCompiler.IdentifierExactly | parser.c:15-22 | identifier characters are the letters, the digits and the underscore, written out |
| TrieCompiler.DigitGoesOn | parser.c:368-377 | a label line "add1:" does not begin with the word "add" |
| TrieCompiler.Compiler.GbufSize | instruction_trie/main.c:92-103 | adds the number of nodes and of slots below the node |
| TrieCompiler.Compiler.MarkBits | instruction_trie/main.c:106-123 | the bit sets are those of the entries, with their counts |
| TrieCompiler.Compiler.Put | instruction_trie/main.c:151 | an assignment to the array, logged |
| TrieCompiler.Compiler.GbufFill | instruction_trie/main.c:105-166 | lays the trie out, ends at the sizes gbuf_size computed, touches nothing else, and writes the slots as often as the layout has them |
| TrieCompiler.Compiler.Scatter | instruction_trie/main.c:138-165 | every entry's slots hold its value and its link |
| TrieCompiler.Compiler.Compile | instruction_trie/main.c:226-292 | arrays of exactly the computed sizes hold the trie of the list; each slot was written exactly once |
| TrieCompiler.Compiler.Walk | parser.c:368-377 | over any identifier the walk returns what the pointer trie says of it |
| TrieCompiler.WalkStep | parser.c:547-556 | one step over the arrays is one step of the lookup |
| TrieCompiler.BuildIsWellFormed | instruction_trie/main.c:45-68 | the builder makes no node with a character twice |
| TrieCompiler.Compiler.Recognise | parser.c:368-377 | list compiled, arrays walked over the token, which ends at the first character that is none of the 63: an ASCII token has a value if and only if it is a word of the admissible list, and then the word's; about any token, when the reader is right |
| TrieCompiler.FlatTrieIsDictionary | instruction_trie/main.c:226-283 | in the pointer trie of an admissible list, an ASCII token has a value if and only if it is a word, and then the word's |
| TrieCompiler.ReaderAgreesExactly | trie.h:6-11 | dropping the top bits agrees with the list on a token if and only if it is ASCII or does not become a word |
| TrieCompiler.HighByteIsAccepted | trie.h:6-11 | a token of other characters that is taken for "add" |
| Encoder.RFields | parser.c:435-443 | the fields of an R-type word are the operands |
| Encoder.IFields | parser.c:444-479 | the fields of an I-type word are the operands |
| Encoder.ShiftFields | parser.c:464-477 | the fields of an immediate shift are the operands |
| Encoder.SFields | parser.c:480-488 | the fields of an S-type word are the operands |
| Encoder.BFields | parser.c:339-341 | the scattered immediate of a B-type word is the offset; the other fields are untouched |
| Encoder.UFields | parser.c:510-519 | the fields of a U-type word are the operands |
| Encoder.JFields | parser.c:343-345 | the scattered immediate of a J-type word is the offset; the other fields are untouched |
| Encoder.NamesOp | ops.c:57-171 | opcode and function fields of the tables name one operation |
| Encoder.FormatFollowsOpcode | ops.c:5-106 | the format of an operation is the one that its opcode field has in the manual |
| Encoder.UpperIsValid | parser.c:510-519 | the immediates of LUI and AUIPC are exactly those of 20 bits |
| Encoder.RoundTrip | parser.c:433-544 | decoding the word of any valid operation gives it back with its sign-extended immediate |
| Encoder.EncodeIsInjective | parser.c:433-544 | two valid operations share a word only if they are equal |
| Encoder.WordRoundTrip | parser.c:433-544 | encoding what any word decodes to gives the word back |
| Encoder.DecodedIsValid | parser.c:433-544 | every word that decodes is the word of a valid operation, but for ecall and ebreak with registers |
| Encoder.KnownWords | parser.c:433-544 | the words of ten operations of all formats |
| Encoder.OffsetPlaces | parser.c:339-345 | where each part of a scattered offset goes |
| Encoder.BytesAreLittleEndian | parser.c:544 | the bytes of a word, the first with weight 1, add up to the word |
| Encoder.FirstByteIsOpcode | parser.c:544 | the first byte of every operation carries its opcode |
| Encoder.KnownBytes | parser.c:544 | addi x1, x0, 5 is 93 00 50 00 |
| Encoder.ProgramRoundTrip | parser.c:544 | every finite list of operations comes back from its image |
| Encoder.OffsetRoundTrip | parser.c:339-345 | a branch or jump with any offset comes back with the truncated offset |
| Encoder.TruncatedExactly | parser.c:339-345 | an offset survives if and only if it is even and in reach |
| Encoder.SameWordExactly | parser.c:339-345 | leaving the offset out makes no difference if and only if none of its bits has a place in the word |
| Offsets.ToU32Successor | parser.c:506-508 | the conversion to uint32_t is arithmetic modulo 2^32 |
| Offsets.ToU32Adds | parser.c:506-508 | it takes sums to sums |
| Offsets.OffsetFits | emitter.c:94-104 | a 32-bit offset fits the immediate field with its sign if and only if it is in reach |
| Offsets.ToU32OfZero | emitter.c:94-104 | of the 32-bit offsets only 0 looks like none |
| Offsets.OffsetIsEven | parser.c:339-345 | even offsets have an even image, so the missing bit 0 is no loss |
| Labels.PendingExactly | emitter.c:124-132 | the waiters of a label are exactly the uses that have no address yet, each once |
| Labels.KnownWhenDefinedFirst | emitter.c:72-75 | the table holds an address if and only if the label's first mention is a definition |
| Labels.KnownExactly | emitter.c:76-112 | with one definition, the table holds its address from there on unless a use came first |
| Labels.ResolvedExactly | emitter.c:76-112 | a use has its label's address if and only if it precedes the definition or no use does |
| Labels.OnePassIsTwoPass | emitter.c:65-135 | every operand has the address of a two-pass assembler if and only if no label is used on both sides of its definition |
| Labels.OutputExactly | emitter.c:65-135 | the output is that of a two-pass assembler if and only if the uses left without an address can do without |
| Programs.LayoutIsLaidOut | parser.c:354-567 | the first pass puts every line where its section's location counter stands |
| Programs.OnePassSuffices | emitter.c:65-135 | the condition on operands, of the program text |
| Programs.OutputIsTwoPassExactly | emitter.c:65-135 | the condition on the output, of the program text |
| Programs.OutputInReachExactly | emitter.c:65-135 | with even offsets in reach: if and only if each use left without an address stands at its label |
| Programs.SecondUseIsWrong | emitter.c:76-112 | a four-line program whose output is wrong, whatever the jump |
| Runs.ShortVerdict | parser.c:354-567 | while the sections fit their buffers only a noticed second definition ends a run |
| Runs.ShortProgramIsAccepted | parser.c:354-567 | if moreover no label is defined twice, every line is accepted |
| Runs.SecondDefinitionIsAccepted | emitter.c:72-75 | use, define, define: accepted |
| Runs.LastWordIsLost | emitter.c:37-44 | 1024 operations: the last one fills the buffer and nothing of it is put out |
| Runs.FarBranchIsTruncated | parser.c:504-508 | a label, 4100 bytes, a branch back: accepted, and its word leads elsewhere |
| Labels.WindowsMakeImage | emitter.c:42-47 | an output with every line in its place is the two-pass image |
| Labels.UseDecodes | parser.c:497-508 | a branch or jump reads back as itself with what is left of its offset |
| Labels.LandsExactly | parser.c:497-508 | the signed number that is left leads to the label if and only if the offset is even and in reach |
| Labels.HarmlessExactly | parser.c:504-505 | of such offsets only 0 can be left out |
| Sections.LostExactly | emitter.c:37-44 | nothing is lost if and only if the buffer does not fill up; otherwise how much survives |
| Sections.Section.ClearBuffer | emitter.c:24-29 | what has been put out stays the same |
| Sections.Section.Spill | emitter.c:38-43 | one round of the loop: what was buffered is written, the bytes that filled the buffer are not |
| Sections.Section.Buffer | emitter.c:31-48 | appends the data less the bytes that the spill loop loses |
| Labels.Zeros | emitter.c:50-63 | so many bytes, all 0 |
| Sections.Section.Advance | emitter.c:50-63 | appends bytes that are all 0, flushing or not |
| Sections.Section.Patch | emitter.c:87-110 | rewrites one buffered word and nothing else |
| Backpatch.TableAfterUse | emitter.c:117-135 | the table stays right after a use |
| Backpatch.TableAfterDefine | emitter.c:65-113 | the table stays right after a definition |
| Backpatch.OutputAfterAppend | emitter.c:31-48 | the output stays right when a line is put out |
| Backpatch.ServeOne | emitter.c:77-111 | one round of the loop puts one address in and leaves every other line alone |
| Backpatch.PatchedWord | emitter.c:92-110 | patching a waiting word gives the word encoded with the address known |
| Emitter.Emitter.constructor | emitter.h:47-57 | an emitter without lines |
| Emitter.Emitter.Select | parser.c:404-409 | switches the section and puts nothing out |
| Emitter.Emitter.Reserve | parser.c:415-422 | puts out so many bytes, all 0, and nothing in the other section |
| Emitter.Emitter.EmitData | parser.c:308-337 | puts out the data, less what the buffer loses, and padding of 0 bytes |
| Emitter.Emitter.Build | parser.c:433-544 | the word assembled field by field is the encoding |
| Emitter.Emitter.EmitOperation | parser.c:433-544 | puts out the operation's word, less what the buffer loses |
| Emitter.Emitter.LabelGetOrAddWaiter | emitter.c:117-135 | the label's value, or a waiter added at the current place |
| Emitter.Emitter.EmitUse | parser.c:497-508 | puts out the word with the offset in it if the label is known, and waiting if not; less what the buffer loses |
| Emitter.Emitter.Serve | emitter.c:77-111 | patches one waiter's word if and only if it is still buffered |
| Emitter.Emitter.ServeAll | emitter.c:77-111 | patches all waiting words if and only if none has been flushed |
| Emitter.Emitter.LabelAdd | emitter.c:65-113 | exactly when a definition is refused, when the assembler gives up, and the new state otherwise |
| Emitter.Emitter.Line | parser.c:354-567 | exactly how each line ends; an accepted line keeps the invariant and stands where it was met; what a line that fills the buffer puts out |
| Emitter.Emitter.NextLine | parser.c:354-567 | the next line stands where the first pass puts it and ends as the program text says |
| Emitter.Emitter.Run | parser.c:354-567 | goes exactly as far and ends as the program text says; when accepted the sections hold the one-pass image, and the two-pass image if and only if no use goes without an offset it needs; after a line that fills the buffer its section is shorter than the two-pass image |
| Emitter.Emitter.EveryUseDecodes | parser.c:497-536 | in every state, each use whose label has an address reads back, and leads there if and only if the offset is even and in reach |

## Left out

- Emitter.Emitter.Run: it stops at a line that fills the buffer, where the source goes on; what later lines do with waiters that point at the wrong place is not modelled.
- Emitter.Emitter.EmitData: the data of a directive is put out by one call; the calls per element or character come to the same while the buffer does not fill up.
- Emitter.Emitter.LabelAdd: the panic for a flushed word ends the run; nothing is said about the state after it.
- HashMap.CCMap.Insert: above some bucket count every request is refused; without that the source may double for ever. Keys and elements hold no references to objects.
- HashMap.CCMap.InsertRaw: inserting into, and erasing from, a map that a failed insertion has damaged are not modelled; looking up, iterating and rehashing are.
- HashMap.CCMap.Get: key comparison is equality; an equivalence coarser than equality is not modelled.
- OrderedMap.COMap.Insert: the comparison is a total order whose zero is equality, and the placeholder header with its size of SIZE_MAX is an ordinary empty map.
- OrderedMap.COMap.InitClone: the allocations of header and nodes are one sequence of outcomes; freeing the header after a failure is not modelled.
- BuilderNodes.BuilderNode.Insert: the returned count, which nothing reads, and allocation failures; a new node is filled before it is linked, not after.
- Encoder.RoundTrip: operands are values that parse_line accepts; branch and jump offsets are even and in reach.
- Nodes of the ordered map are entries of an arena, one map for headers and one for keys and elements, not separate objects.
- Words are little-endian bytes (Encoder.BytesAreLittleEndian); on a big-endian machine the source would write others.
- Sizes, positions and addresses are unbounded; 64-bit wrap-around is not modelled, nor negative label values.
- Destructor calls, free of tables and element layout of the containers.
- cc_map_reserve, shrink, clear, init_clone, cleanup and reverse iteration; vectors, lists, strings, sets.
- The hash functions, and load factors as floating-point numbers: any hash and any limit per capacity will do.
- The emitter's label table is a plain map, as HashMap justifies; failed allocations there end the program.
- That the repository's own word list is admissible, a finite case check.
- Reading text: numbers, registers, strings, escapes, comments; error messages; the padding counts, which do not align.
- Swap files and ELF output: what has been flushed is a ghost sequence.
