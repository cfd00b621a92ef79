# Verified model of the ICS-23 proof verifier

ICS-23 proofs let a light client check that a key is, or is not, in a Merkle tree whose root hash it
trusts. A proof carries a leaf op and a path of inner ops; the verifier folds them into a root and holds
every op to a `ProofSpec`. This project models the Rust verifier, its public API and batch compression, the
generated Go protobuf codec, and the Go verifier, and proves what they are for: accepted proofs are true of
the tree, true statements have accepted proofs, compression and unknown fields are invisible, encodings
round-trip, and the Go verifier accepts no more than the Rust one.

Verify everything with `dafny verify dfyconfig.toml`.

## How the theorems are stated

- **Trees.** `Tree` has leaves, inner nodes with any number of children, and placeholders (`Empty`). Its root
  uses the same preimage layouts as the verifier. A `Store` is a hash provider with a proof spec that meets the
  conditions of `StoreConfig.Sound`; the IAVL, Tendermint and SMT specs do.
- **Hashes.** A hash is any function with the right output length; nothing is assumed injective. Conclusions
  read "or the hash is broken": two different preimages *in a stated set*, drawn from the tree and the proofs
  at hand, have one digest, or one of them hashes to the placeholder. `PlaceholderHit` can only happen where the
  spec's placeholder fills a child slot.
- **Readable leaves.** The theorems about what a proof means ask that its leaf preimages have one reading
  (`Readable`). Every IAVL and SMT proof meets that. A Tendermint leaf meets it when it carries the spec's own
  prefix, and that is exactly what decides: `Limits.OpensIffSpecPrefix`.
- **Not vacuous.** `Examples.PremisesHold` gives trees, proofs and a hash on which the premises are met.
- **Loops and state.** Where the source loops or updates in place there is a method, proved equal to a function,
  and the theorems are about the function. Byte slices are values, except the buffers the marshallers fill.
- **Panics.** Rust's `unwrap` and Go's index panics are outcomes of their own.

## Modules

| module | models |
|---|---|
| Bytes, Varints | machine words, byte order, the varint writers and readers of both languages |
| Ics23, Specs, Ops | the messages, the built-in specs and the IAVL prefix rules, `rust/src/ops.rs` |
| Verify | `rust/src/verify.rs` |
| LeafReading, Tree, Soundness, Binding | what accepted proofs mean |
| Completeness, Packing | which proofs are accepted |
| Layouts | the built-in specs byte by byte and number by number |
| Examples, Limits | where the premises are met, and inputs on which the code breaks a promise |
| Wire, Codec, Marshal, Unmarshal, RoundTrip | `go/proofs.pb.go` |
| Compress, Api, Guarantees | `rust/src/compress.rs`, `rust/src/api.rs` and its guarantees |
| GoVerify, GoBinding | `go/proof.go`, `go/ops.go`, how they compare with the Rust verifier, and when they panic |

## Where code and promise part

- `ensure_leaf` lets a proof lengthen the leaf prefix. Under the Tendermint spec, with no hash broken, a key that
  is not in the tree can be proved present (`Limits.AbsentKeyProvedPresent`), and the one key of a tree can be
  proved absent (`Limits.PresentKeyProvedAbsent`). An accepted proof is a walk in the tree exactly when it carries the
  spec's own prefix (`Limits.OpensIffSpecPrefix`).
- The pop loop of `ensure_left_neighbor` unwraps an empty vector when two accepted boundaries walk one path, and
  only then (`Binding.PanicIffSamePath`). In Rust readable leaves rule that out
  (`Binding.NonExistenceNeverPanics`); a lengthened Tendermint prefix does not (`Limits.RustPanics`).
- Go panics there too (`Limits.GoPanics`), and has a panic of its own: `isLeftStep` panics on an op that fits no
  slot, where Rust returns an error. Readable leaves do not rule that one out (`Limits.GoPanicsAlone`,
  `Limits.GoPanicsUnbroken`). `GoBinding.GoPanicIff` says exactly when Go panics; against the root of a real tree
  it does not (`GoBinding.GoNeverPanicsOnTrees`).
- `max_depth` is documented as the maximum number of inner nodes. Rust checks it only when `min_depth` is set
  (`Completeness.DepthDecides`, `Limits.DeeperThanMaxDepth`); Go always does, and takes 0 for 128. The model
  follows the code of each.
- Rust's right-hand placeholder test expects exactly one child of suffix. Go's expects as many as there are
  branches. They differ beyond two children (`GoVerify.RightTestsDiffer`), and there Rust refuses some honest
  neighbours (`Packing.EveryGapSeenIffPacked`, `Limits.HonestNeighborRefused`).
- Table positions are narrowed to 32 bits, so compression is lossless up to 2^31 different ops and no further
  (`Compress.CompressionRoundTrip`, `Limits.BatchLost`); beyond that a verdict can change (`Limits.VerdictLost`).

## Model

| member | source | states |
|---|---|---|
| `Soundness.NonMembershipSound` | rust/src/verify.rs:34-79 | Against the root of any well-formed tree strictly ordered by comparison key, with any number of children per node and placeholders allowed, an accepted non-existence proof with readable leaves means that no leaf has that comparison key, or two preimages taken from the tree and the proof collide, or one of them hashes to the placeholder |
| `Soundness.MembershipSound` | rust/src/verify.rs:18-32 | An accepted existence proof with a readable leaf is, op by op, a real root-to-leaf walk that ends at a leaf with exactly that key and value, or the hash is broken on the images of the tree and the proof |
| `Soundness.NeighborsAreAdjacent` | rust/src/verify.rs:247-291 | Two walks in one tree that the neighbour check passes open leaves at consecutive positions of the in-order leaf list, placeholder subtrees not counting |
| `Soundness.Aligned` | rust/src/verify.rs:187-215 | An accepted op whose preimage is an honest node's is that node's op for exactly one child: the child hash fills a slot, `order_from_padding` names that slot, and no other branch matches |
| `Soundness.PathOpens` | rust/src/verify.rs:90-115 | The hash fold, read from the root end, descends real nodes of the tree and stops at the leaf |
| `Soundness.RightMostIsLast` | rust/src/verify.rs:235-245 | A walk that passes `ensure_right_most` opens the last leaf of its tree |
| `Soundness.LeftMostIsFirst` | rust/src/verify.rs:223-232 | A walk that passes `ensure_left_most` opens the first leaf of its tree |
| `Soundness.PlaceholderSlotsEmpty` | rust/src/verify.rs:321-367 | Sibling slots that all hold the placeholder belong to subtrees without leaves, or the hash is broken |
| `Soundness.RightMostStepSound` | rust/src/verify.rs:347-367 | A step let through as rightmost has no leaf in any branch to its right |
| `Soundness.LeftMostStepSound` | rust/src/verify.rs:321-343 | A step let through as leftmost has no leaf in any branch to its left |
| `Soundness.SlotArithmetic` | rust/src/verify.rs:187-215 | From lengths alone: prefix window, suffix a multiple of the child size and `max_prefix < min_prefix + child_size` put the child on one slot boundary of an honest node |
| `Soundness.OrderScan` | rust/src/verify.rs:282-291 | The scan returns the one branch whose padding the op matches, because distinct branches demand distinct suffix lengths |
| `Soundness.GapIsEmpty` | rust/src/verify.rs:58-79 | In a strictly ordered list a key strictly between two consecutive entries, or beyond an end, is absent |
| `Bytes.LessIff` | rust/src/verify.rs:56-67 | Keys are compared as unsigned byte strings: one is before another if and only if at their first difference it ends or has the smaller byte |
| `Layouts.KeyOrder` | rust/src/verify.rs:41-54 | IAVL and Tendermint keys are ordered as byte strings, SMT keys by their SHA-256 hashes |
| `Binding.SlotsFixProof` | rust/src/verify.rs:90-142 | No tree assumed: of two accepted proofs with readable leaves and one root, if the slots of the first, read from the root, begin those of the second, the two proofs are equal in leaf op, ops, key and value; so no accepted path is a proper upper part of another, or two images of the proofs collide |
| `Binding.PanicIffSamePath` | rust/src/verify.rs:247-270 | `verify_non_existence` unwraps an empty vector if and only if both boundaries are there, hold, bracket the key and walk one path, whatever the root and the leaf prefixes, or two images of the proof itself collide |
| `Binding.NonExistenceNeverPanics` | rust/src/verify.rs:247-270 | So with readable leaves, as every IAVL and SMT proof has, the pop loop never unwraps an empty vector, or two images of the proof collide |
| `Limits.RustPanics` | rust/src/verify.rs:247-270 | A Tendermint tree of one leaf, under any hash, and a proof whose two accepted boundaries walk one path: the call panics though no hash is broken |
| `Limits.GoPanics` | go/proof.go:333-343 | The same proof panics in Go |
| `GoBinding.GoPanicIff` | go/proof.go:333-382 | On each built-in spec Go panics if and only if two boundaries hold around the key, meet Go's demands, and walk one path or, below their common steps, have a next op that fits no slot; or two images of the proof itself collide |
| `GoBinding.GoNeverPanicsOnTrees` | go/proof.go:213-278 | Against the root of a well-formed tree no proof with readable leaves makes Go panic, or the hash is broken on the images of tree and proof |
| `Limits.GoPanicsAlone` | go/proof.go:370-378 | Under the SMT spec, for any hash and any key between two others, accepted boundaries whose ops fit no slot: Rust refuses, Go panics |
| `Limits.GoPanicsUnbroken` | go/proof.go:370-378 | An instance of it in which no two images of the proof collide |
| `Binding.Exclusive` | rust/src/verify.rs:18-79 | A key with both an accepted existence proof and an accepted non-existence proof, leaves readable, against one ordered tree exhibits a broken hash |
| `Binding.OneValue` | rust/src/verify.rs:18-32 | A key with two accepted existence proofs, leaves readable, has one value, or the hash is broken |
| `LeafReading.LeafUniquelyReadable` | rust/src/ops.rs:17-38 | Two accepted leaf ops with one preimage are the same op on the same hashed key and hashed value: for the IAVL spec, for fixed-size key and value, and for a delimited key under the spec's own prefix |
| `LeafReading.SameKeyIffSamePrefix` | rust/src/verify.rs:144-170 | `ensure_leaf` checks only how a prefix starts: with a delimited key and a fixed-size value, one preimage names one hashed key if and only if the two prefixes are equal |
| `LeafReading.TendermintPrefixMatters` | rust/src/verify.rs:144-170 | Two leaf ops the Tendermint spec accepts, on different keys, with one preimage |
| `Limits.AbsentKeyProvedPresent` | rust/src/verify.rs:144-170 | A Tendermint tree of one leaf, under any hash: a lengthened leaf prefix gives an accepted existence proof of a key that is not in the tree, and no hash is broken |
| `Limits.PresentKeyProvedAbsent` | rust/src/verify.rs:144-170 | In the same tree it gives an accepted non-existence proof of the one key that is there |
| `Limits.OpensIffSpecPrefix` | rust/src/verify.rs:144-170 | An accepted Tendermint proof is a walk in the tree if and only if its leaf carries the spec's own prefix, or the hash is broken |
| `Ops.FieldReadable` | rust/src/ops.rs:55-96 | A length-encoded field followed by anything splits in one way only, for varint lengths at any size, 32-bit lengths below 2^32, 64-bit lengths below 2^64 and the exact-length ops |
| `Ops.HeaderPrefixFree` | rust/src/ops.rs:55-96 | Length headers are prefix-free below the limit of their width |
| `Ops.HeaderBytes` | rust/src/ops.rs:65-84 | A fixed-width length header is the length in four or eight bytes, most significant byte first for the big-endian ops and last for the little-endian ones |
| `Ops.VarProtoHeaderReads` | rust/src/ops.rs:60-64 | A VAR_PROTO header reads back as exactly the length, whatever follows |
| `Ops.LengthNumbers` | rust/src/ops.rs:55-89 | By the numbers of the enumeration: which length ops refuse which data, and which write no header |
| `Ops.FixedLengthNumbers` | rust/src/ops.rs:65-84 | Ops 3 to 6 write the length in 4, 4, 8, 8 bytes, big-endian and little-endian in turn |
| `Ops.HashNumbers` | rust/src/ops.rs:40-53 | Each hash number calls its own function, 5 is RIPEMD-160 of SHA-256, and every other number leaves the data alone |
| `Layouts.PrefixedLeaf` | rust/src/ops.rs:17-38 | An IAVL or Tendermint leaf hashes prefix, key behind its varint length, the byte 32, SHA-256 of the value |
| `Layouts.HashedLeaf` | rust/src/ops.rs:17-38 | An SMT leaf hashes prefix, SHA-256 of the key, SHA-256 of the value |
| `Layouts.EmptyLeaf` | rust/src/ops.rs:30-38 | A leaf op on an empty key or value fails |
| `Layouts.InnerStep` | rust/src/ops.rs:8-14 | An inner op hashes the child between prefix and suffix, and fails on an empty child |
| `Layouts.NodeOfTwo` | rust/src/api.rs:198-380 | The root of a node of two children: IAVL writes the length 32 before each child hash, Tendermint and SMT nothing; its leaves are those of the left child, then those of the right |
| `Layouts.IavlWindow` | rust/src/verify.rs:179-220 | The inner ops the IAVL spec lets through, in numbers: 4 to 45 bytes of prefix not beginning with 0, whole children of 33 bytes behind |
| `Layouts.PlainWindow` | rust/src/verify.rs:179-220 | Those of Tendermint and SMT: 1 to 33 bytes of prefix not beginning with 0, whole children of 32 bytes behind |
| `Layouts.LeafWindow` | rust/src/verify.rs:144-170 | The leaf ops the built-in specs let through, in numbers |
| `Layouts.Placeholders` | rust/src/api.rs:357-380 | The SMT placeholder is 32 zero bytes, and IAVL and Tendermint trees have none |
| `Verify.HasPrefixIff` | rust/src/verify.rs:172-177 | Data starts with a prefix if and only if something completes it |
| `Verify.SpecOnlyRefuses` | rust/src/verify.rs:84-115 | With a spec the root is the one computed without it, or refused |
| `Specs.IavlPrefixFree` | rust/src/api.rs:290-303 | IAVL leaf prefixes form a prefix code: two that start one string are equal |
| `Specs.HeaderAppend` | rust/src/api.rs:232-248 | Bytes behind an IAVL header do not change how the header reads |
| `Specs.IavlPrefixReads` | rust/src/api.rs:232-248 | A header of height, size and version is accepted if and only if it is high enough and size and version are not negative, and the bytes behind it are counted |
| `Specs.IavlSpecNumbers` | rust/src/api.rs:250-288 | A spec counts as IAVL's if and only if both halves are there with IAVL's numbers and two children, whatever its leaf prefix, placeholder, depths and comparison |
| `Specs.ReadIavlPrefix` | rust/src/api.rs:232-248 | The cursor-consuming parse returns the number of bytes behind a valid header of at least the wanted height, and fails otherwise |
| `Completeness.NonMembershipComplete` | rust/src/verify.rs:223-270 | In a packed ordered tree with a leaf, whose subtrees hold a leaf unless they are placeholders, the neighbour proof read off for any absent key is accepted, at both ends and past placeholders |
| `Completeness.MembershipComplete` | rust/src/verify.rs:117-142 | The proof read off any leaf of a provable tree is accepted, IAVL heights and remainders included, for any number of children |
| `Completeness.DepthDecides` | rust/src/verify.rs:122-133 | The proof read off a leaf is accepted if and only if `min_depth` is 0 or the depth lies in the window; `max_depth` alone bounds nothing |
| `Limits.DeeperThanMaxDepth` | rust/src/verify.rs:122-133 | A spec with `max_depth` 1 accepts an honest proof of two inner nodes |
| `Completeness.HonestImages` | rust/src/verify.rs:90-115 | A proof read off a tree hashes nothing the tree does not, so the images of tree and honest proof are the tree's |
| `Completeness.AlwaysPacked` | rust/src/verify.rs:347-367 | Every well-formed tree of at most two children a node, or without placeholders, is packed |
| `Completeness.StepsAccepted` | rust/src/verify.rs:134-138 | Every op read off a tree passes the step checks at its layer, because an IAVL node height is at least its layer |
| `Completeness.NodeOpIavl` | rust/src/api.rs:305-330 | The prefix of an honest IAVL node's op leaves exactly 1 byte behind the header for the left child and 34 for the right |
| `Completeness.NodeOpAccepted` | rust/src/verify.rs:179-220 | An honest node's op for any child passes `ensure_inner` |
| `Completeness.ConsecutiveAreNeighbors` | rust/src/verify.rs:247-270 | The paths to consecutive leaves of a packed tree pass the neighbour check |
| `Completeness.PathFolds` | rust/src/verify.rs:90-115 | Folding the ops read off the tree over the leaf hash gives the root |
| `Packing.EveryGapSeenIffPacked` | rust/src/verify.rs:321-367 | For any number of children: the first, last and all consecutive leaf paths pass their checks if and only if no placeholder follows a subtree except as the last child; beyond two children the one-child suffix rule refuses honest neighbours |
| `Limits.HonestNeighborRefused` | rust/src/verify.rs:347-367 | A ternary tree of one leaf and two placeholders where the honest neighbour proof of an absent key is refused |
| `Packing.RightMostIsNarrow` | rust/src/verify.rs:355-357 | A step let through as rightmost has at most one branch to its right |
| `Verify.CalculateExistenceRootForSpec` | rust/src/verify.rs:90-115 | The loop that folds `hash` through the path computes the recursive fold the theorems speak of, early failures included |
| `Verify.CheckAgainstSpec` | rust/src/verify.rs:117-142 | The loop accepts exactly the proofs whose leaf, depth and every step at its layer fit the spec |
| `Verify.EnsureLeftNeighbor` | rust/src/verify.rs:247-270 | The pop loop computes the recursive comparison of the two paths, panic included |
| `Verify.EnsureLeftMost` | rust/src/verify.rs:223-232 | True exactly when every step has leftmost padding or only placeholders to its left |
| `Verify.EnsureRightMost` | rust/src/verify.rs:235-245 | True exactly when every step has rightmost padding or only placeholders to its right |
| `Verify.FindOrder` | rust/src/verify.rs:282-291 | The early-exit scan returns the first branch whose padding the op has |
| `Verify.ScanSlots` | rust/src/verify.rs:336-367 | True exactly when every slot equals the placeholder |
| `Guarantees.ApiSound` | rust/src/api.rs:16-117 | For a single, batch or compressed proof with readable leaves, all items of an accepted batch membership call are leaves and all keys of an accepted batch non-membership call are absent, or the hash is broken on the images of tree and proof |
| `Guarantees.BuiltInReadable` | rust/src/api.rs:198-380 | Every IAVL and SMT proof has readable leaves, and so has every Tendermint proof whose leaves carry the spec's own prefix |
| `Guarantees.ApiExclusive` | rust/src/api.rs:16-70 | No key is both an accepted member and an accepted non-member by proofs with readable leaves (Tendermint: the spec's own leaf prefix) of whatever kind, or the hash is broken on the images of tree and proofs |
| `Guarantees.ApiOneValue` | rust/src/api.rs:16-42 | No key has two accepted values by proofs with readable leaves (Tendermint: the spec's own leaf prefix), batches and compressed batches included, or the hash is broken |
| `Guarantees.ApiPanicIffSamePath` | rust/src/api.rs:46-70 | A non-membership call panics if and only if the entry it finds has two accepted boundaries around the key on one path, or two images of the proof collide; any proof, any leaf prefix |
| `Guarantees.ApiNeverPanics` | rust/src/api.rs:46-70 | So a non-membership call on a proof with readable leaves (Tendermint: the spec's own leaf prefix) does not panic, or two images of the proof collide |
| `Guarantees.ApiBatchNeverPanics` | rust/src/api.rs:97-117 | Nor does a batch non-membership call |
| `Guarantees.ApiComplete` | rust/src/api.rs:73-117 | One batch read off the tree proves any selection of its leaves and any list of absent keys, compressed or not: whatever entry the scans find is acceptable |
| `Examples.PremisesHold` | rust/src/api.rs:198-380 | The premises of the theorems are met: under any hash a Tendermint and an IAVL tree, under one hash also an SMT tree with a placeholder, are provable, packed and ordered, with all honest proofs accepted; and on the Tendermint and SMT trees that hash is not broken |
| `Guarantees.FindsExist` | rust/src/api.rs:119-137 | In any batch whose entries for one key agree, the scan finds the proof of that key, past every other entry |
| `Guarantees.FindsBracket` | rust/src/api.rs:162-189 | In any batch, if some entry brackets the key, the scan finds an entry that brackets it |
| `Api.CompressionInvisible` | rust/src/api.rs:16-117 | All four calls answer on the compressed proof as on the proof itself, for every batch of at most 2^31 different ops |
| `Limits.VerdictLost` | rust/src/compress.rs:91-93 | Beyond 2^31 ops they need not: a batch that proves a key of a tree, and compressed does not |
| `Api.BatchIsConjunction` | rust/src/api.rs:73-117 | Each batch call is the conjunction of the single calls on the proof as it came |
| `Api.MembershipIff` | rust/src/api.rs:28-42 | A membership call is accepted if and only if the single existence proof is, or in a batch the first existence entry with the key; nothing else answers it |
| `Api.NonMembershipIs` | rust/src/api.rs:58-70 | A non-membership call ends as the single non-existence proof does, or in a batch the first non-existence entry that brackets the key; without one it is refused |
| `Api.FirstRefusalDecides` | rust/src/api.rs:114-117 | A batch non-membership call that does not pass ends as the first single call that does not |
| `Api.ScanForExist` | rust/src/api.rs:119-137 | The early-return loop finds the first existence entry with the key |
| `Api.ScanForNonexist` | rust/src/api.rs:162-189 | The early-return loop finds the first non-existence entry that brackets the key |
| `Compress.CompressionRoundTrip` | rust/src/compress.rs:32-158 | Decompressing a compressed batch gives it back if and only if it has at most 2^31 different inner ops |
| `Compress.PathRoundTrip` | rust/src/compress.rs:142-158 | With a table of at most 2^31 ops every index written is in range and every path comes back |
| `Compress.FarOpLosesPath` | rust/src/compress.rs:91-93 | An op at position 2^31 is written as a negative index and its path does not come back |
| `Limits.BatchLost` | rust/src/compress.rs:91-93 | One entry whose path has 2^31 + 1 different ops: the batch does not come back |
| `Compress.Interner.Intern` | rust/src/compress.rs:88-97 | Returns the index of the op; the op is appended when new and the table is otherwise unchanged; the registry still maps the encoding of every op in the table, and nothing else, to its index |
| `Compress.Interner.CompressExist` | rust/src/compress.rs:80-105 | The new table is the old one with the path's new ops appended in order, and the path becomes their indices in it |
| `Compress.Interner.CompressEntry` | rust/src/compress.rs:40-68 | The same for an entry, left boundary before right |
| `Compress.CompressBatch` | rust/src/compress.rs:32-78 | Every entry is compressed against the one final table of the whole batch |
| `Compress.TableGrows` | rust/src/compress.rs:88-97 | The table only grows, keeps its ops in place, has no duplicates, and holds exactly the old ops and the new |
| `Compress.TableSize` | rust/src/compress.rs:88-97 | The table has one entry for each different op of the batch |
| `Compress.RegistryHit` | rust/src/compress.rs:89-90 | A registered encoding belongs to an op in the table and carries its index, because the encoding is injective |
| `Compress.RegistryMiss` | rust/src/compress.rs:90-94 | An unregistered encoding belongs to a new op, and registering it keeps the invariant |
| `Compress.EntryStable` | rust/src/compress.rs:80-105 | Growing the table does not change entries already compressed |
| `Compress.TableOfOneMore` | rust/src/compress.rs:40-68 | One more entry adds to the table its path, or the path of its left boundary and then that of its right one, or nothing |
| `Compress.LeftComesFirst` | rust/src/compress.rs:47-56 | The ops of a left boundary stand in the table before those of the right one |
| `Compress.FirstAppearance` | rust/src/compress.rs:88-97 | Ops stand in the table in the order of their first appearance |
| `Compress.OthersUntouched` | rust/src/compress.rs:16-30 | Only batches are compressed and only compressed batches decompressed, entry by entry |
| `Codec.ExistenceRoundTrip` | go/proofs.pb.go:2450-2637 | An ExistenceProof of any content whose encoding fits a Go int, read into a fresh message, is the same proof: nested leaf, ops in order |
| `Codec.CompressedRoundTrip` | go/proofs.pb.go:4139-4368 | The same for CompressedExistenceProof and its packed indices, negative ones included |
| `Codec.ExistenceFieldsSet` | go/proofs.pb.go:2481-2615 | On any ExistenceProof a key or value field replaces, a leaf field merges into the leaf there, a path field appends its op |
| `Codec.CompressedFieldsSet` | go/proofs.pb.go:4170-4271 | On any CompressedExistenceProof a key or value field replaces and a leaf field merges |
| `Codec.UnpackedIndex` | go/proofs.pb.go:4273-4289 | An index on its own behind tag 0x20 reads back as itself, whatever surrounds it |
| `Codec.IndicesInOrder` | go/proofs.pb.go:4272-4347 | Indices packed, on their own or mixed, in any number of fields with unknown ones between: the path read is the old one and all of them in order |
| `Codec.LooseIndices` | go/proofs.pb.go:4273-4289 | Any stream of indices on their own parses, to exactly those indices behind the path already there |
| `RoundTrip.ThroughTheWire` | go/proofs.pb.go:1246-1254 | Marshalled into a buffer and read into a fresh message, an existence proof comes back whole |
| `RoundTrip.CompressedThroughTheWire` | go/proofs.pb.go:1943-1951 | So does a compressed one |
| `Codec.InnerRoundTrip` | go/proofs.pb.go:3144-3280 | The same for InnerOp |
| `Codec.InnerMerges` | go/proofs.pb.go:3144-3280 | Unmarshalled over an op that holds fields already, those written replace theirs and the others stay |
| `Codec.InnerFieldsSet` | go/proofs.pb.go:3170-3258 | Fields that are there, zero and empty ones too, each set their own field, and of two the last one counts |
| `Codec.LeafRoundTrip` | go/proofs.pb.go:2984-3143 | The same for LeafOp |
| `Codec.LeafMerges` | go/proofs.pb.go:2984-3143 | The same merge for LeafOp |
| `Codec.LeafFieldsSet` | go/proofs.pb.go:3010-3122 | The same for the five fields of LeafOp |
| `Codec.InnerToleratesUnknown` | go/proofs.pb.go:3144-3280 | Unknown fields of any kind anywhere between the fields of an InnerOp do not change what is read |
| `Codec.InnerEncodingInjective` | rust/src/compress.rs:89-90 | Different ops have different encodings, at any length |
| `Codec.InnerLayout` | go/proofs.pb.go:1544-1569 | InnerOp byte for byte: tags 0x08, 0x12, 0x1a, zero and empty fields left out |
| `Codec.LeafLayout` | go/proofs.pb.go:1494-1527 | LeafOp byte for byte: tags 0x08, 0x10, 0x18, 0x20, 0x2a |
| `Codec.ExistenceLayout` | go/proofs.pb.go:1261-1307 | ExistenceProof byte for byte: tags 0x0a, 0x12, 0x1a, and 0x22 before every op, empty ones included |
| `Codec.CompressedLayout` | go/proofs.pb.go:1958-2009 | CompressedExistenceProof byte for byte: one packed field under tag 0x22 |
| `Wire.SkipOne` | go/proofs.pb.go:4525-4602 | Skipping consumes exactly one well-formed field, groups nested to any depth included, whatever surrounds it; inside open groups it goes on |
| `Wire.UnknownSkipped` | go/proofs.pb.go:3260-3273 | A field whose number a message does not have is skipped whole |
| `Wire.StreamParses` | go/proofs.pb.go:3144-3280 | The read loop on any mix of known and well-formed unknown fields applies exactly the known ones, in order |
| `Wire.NoiseIsInvisible` | go/proofs.pb.go:3260-3273 | For every message: streams with the same known fields parse alike |
| `Wire.ItemReads` | go/proofs.pb.go:3170-3261 | A written field reads back as itself, whatever surrounds it |
| `Wire.TagNumberOf` | go/proofs.pb.go:2470-2471 | A tag's field number is its bits from the third on, cut to 32 and read as signed, and its wire type the three below |
| `Wire.BadTagStops` | go/proofs.pb.go:2472-2477 | A tag with wire type 4 or without a positive number ends the parse with an error |
| `Wire.WrongWireStops` | go/proofs.pb.go:3173-3175 | So does a known field of a wire type other than its own |
| `Wire.BadLengthStops` | go/proofs.pb.go:2497-2506 | And a length that is negative as a Go int or more than what is left |
| `Wire.SkipRefuses` | go/proofs.pb.go:4584-4592 | Skipping refuses wire types 6 and 7 and the end of a group that none began |
| `Wire.WireNumbers` | go/proofs.pb.go:4545-4592 | Wire type 1 holds eight bytes and 5 four; 3 opens a group and 4 closes one |
| `Wire.PackedOverrun` | go/proofs.pb.go:4327-4346 | A last packed integer that runs past its payload is read whole, and reading goes on behind it |
| `Wire.PackedRoundTrip` | go/proofs.pb.go:4327-4346 | Packed 32-bit integers read back exactly, negative ones included |
| `Marshal.MarshalExistenceProof` | go/proofs.pb.go:1246-1254 | The buffer of `Size()` bytes is filled exactly with the encoding, the cursor ending at zero |
| `Marshal.MarshalExistence` | go/proofs.pb.go:1261-1307 | The bytes just before the end become the encoding and nothing else changes |
| `Marshal.MarshalPath` | go/proofs.pb.go:1266-1280 | The backward loop writes the ops in order |
| `Marshal.MarshalInner` | go/proofs.pb.go:1544-1569 | The same as for ExistenceProof, for InnerOp |
| `Marshal.MarshalLeaf` | go/proofs.pb.go:1494-1527 | The same for LeafOp |
| `Marshal.MarshalCompressedProof` | go/proofs.pb.go:1943-1951 | The same as for an ExistenceProof |
| `Marshal.MarshalCompressed` | go/proofs.pb.go:1958-2009 | The bytes just before the end become the encoding and nothing else changes |
| `Marshal.PackScratch` | go/proofs.pb.go:1963-1977 | The forward writes into ten bytes per element never overflow and leave the packed integers |
| `Marshal.ExistenceSize` | go/proofs.pb.go:2076-2101 | `Size()` is the exact length of the encoding |
| `Marshal.CompressedSize` | go/proofs.pb.go:2395-2421 | The same for CompressedExistenceProof |
| `Marshal.LeafSize` | go/proofs.pb.go:2184-2207 | The same for LeafOp |
| `Marshal.InnerSize` | go/proofs.pb.go:2209-2227 | The same for InnerOp |
| `Unmarshal.SkipProofs` | go/proofs.pb.go:4525-4602 | The loop over an index and a group depth, overflow checks of Go's int included, terminates and returns the length of exactly the field the specification skips, or fails with it |
| `Unmarshal.ReadField` | go/proofs.pb.go:2453-2480 | One turn of a generated loop reads the field the specification reads |
| `Unmarshal.ReadLength` | go/proofs.pb.go:2485-2512 | A length and its payload window, every overflow check included |
| `Unmarshal.ReadPacked` | go/proofs.pb.go:4327-4346 | The packed loop reads the integers the specification reads |
| `Unmarshal.InnerOpMessage.Unmarshal` | go/proofs.pb.go:3144-3280 | Succeeds exactly when the bytes parse over the fields held before, and then holds the parsed message |
| `Unmarshal.LeafOpMessage.Unmarshal` | go/proofs.pb.go:2984-3143 | The same for LeafOp |
| `Unmarshal.ExistenceProofMessage.Unmarshal` | go/proofs.pb.go:2450-2637 | The same for ExistenceProof: a leaf field merges into the leaf there, every path field appends a fresh op |
| `Unmarshal.CompressedExistenceProofMessage.Unmarshal` | go/proofs.pb.go:4139-4368 | The same for CompressedExistenceProof, packed and unpacked indices alike |
| `Varints.SovIsSize` | go/proofs.pb.go:2444-2446 | `sovProofs(v)` is exactly the number of bytes written for v |
| `Varints.EncodeVarintProofs` | go/proofs.pb.go:2065-2075 | Writes the varint so that it ends just before the offset, returns its start, and touches nothing else |
| `Varints.EncodeVarintProto` | go/proof.go:67-76 | Appends the same bytes as the in-place writer for every length |
| `Varints.ReadVarint` | go/proofs.pb.go:2456-2471 | The shift-and-or loop of at most ten bytes returns the varint's value in the word, or fails exactly when no varint ends in time |
| `Varints.VarintFits` | go/proofs.pb.go:1963-1970 | A 64-bit value needs at most ten bytes |
| `Varints.VarintBytes` | go/proofs.pb.go:2065-2075 | Byte i is the i-th group of seven bits, low group first, with the top bit set on all but the last, and there is no empty last group |
| `Varints.TenBytesAtMost` | go/proofs.pb.go:2456-2460 | Ten continuation bytes are refused |
| `Varints.ScanIntTooWide` | rust/src/api.rs:224 | A signed varint with a bit above the 64th is refused |
| `Varints.VarintPrefixFree` | rust/src/ops.rs:91-96 | A varint followed by anything splits in one way only |
| `Varints.ScanIntRoundTrip` | rust/src/api.rs:223-230 | `read_varint` returns every signed 64-bit x from its zigzag varint and leaves the tail |
| `Varints.ScanIntRange` | rust/src/api.rs:225 | The halved value always fits a signed 64-bit integer, so the conversion never fails |
| `Varints.Reader.ReadInt` | rust/src/api.rs:223-230 | Advances the cursor past exactly one signed varint |
| `GoVerify.GoExistenceIsStricter` | go/proof.go:96-198 | On each built-in spec Go accepts exactly the existence proofs Rust accepts that also meet Go's own demands: depth at most 128 (SMT: 256), IAVL leaf height 0 and size 1, Tendermint inner prefixes; a suffix that is set but empty is told from a nil one |
| `GoVerify.GoNonExistenceIsStricter` | go/proof.go:213-366 | The same for non-existence proofs and their boundaries; so Go acceptance implies Rust acceptance |
| `GoVerify.RightTestsDiffer` | go/proof.go:445-471 | The right-hand placeholder tests of Go and Rust differ exactly on ops with two or more branches to the right, all placeholders: Go accepts those, Rust does not |
| `GoVerify.TernaryTestsDiffer` | rust/src/verify.rs:355-357 | An op of a ternary spec on which they differ |
| `GoVerify.SameLeftTest` | go/proof.go:414-441 | The left-hand placeholder tests agree for any number of children |
| `GoVerify.SameOrder` | go/proof.go:475-502 | With identity child order both languages put an op in the same slot |
| `GoVerify.SameNeighbors` | go/proof.go:333-366 | With two children the neighbour loops accept the same pairs of paths |
| `GoVerify.FoldsAgree` | go/proof.go:126-150 | The forward fold of Go computes the fold of Rust on every path whose hashes Go supports, and fails on any other |
| `GoVerify.InnerChecksAgree` | go/ops.go:178-233 | Go's inner op check is Rust's plus the Tendermint prefix rule, suffixes set but empty included |
| `GoVerify.LeafChecksAgree` | go/ops.go:143-175 | Go's leaf op check is Rust's plus the IAVL height and size rule |
| `GoVerify.LeavesHashAlike` | go/ops.go:108-129 | Go hashes any leaf as Rust does when it knows the op's hash and length numbers, and fails otherwise |
| `GoVerify.KeysCompareAlike` | go/proof.go:203-209 | Go compares keys as Rust does, with an empty key where it cannot hash |
| `GoVerify.DoLengthOp` | go/ops.go:295-336 | The switch, its varint loop included, writes what the specification writes, and fails on unknown numbers |
| `GoVerify.DepthsCompared` | go/proof.go:176-189 | For bounds that are not negative: Go asks for the minimum and for the maximum, or 128 without one; Rust agrees when both are set, accepts every depth without a minimum, and none with a minimum alone |
| `GoVerify.SpecsCompareAlike` | go/proof.go:505-543 | Against a built-in spec both languages compare specs alike |
| `GoVerify.TendermintRule` | go/ops.go:88-105 | Of the inner ops the Tendermint spec accepts, Go's rule keeps those that begin with 1 and have that prefix alone when a suffix is set |
| `GoVerify.InnerChecksAgreeOn` | go/ops.go:178-233 | On the spec of any sound store Go's inner op check is Rust's, and the Tendermint rule where that spec applies |
| `GoVerify.ValidateIavlOps` | go/ops.go:27-85 | The reader-advancing check accepts exactly three bounded varints with the remainder of their layer |
| `GoVerify.Calculate` | go/proof.go:126-150 | The loop that reassigns `res` computes the fold, early errors included |
| `GoVerify.CheckAgainstSpec` | go/proof.go:168-198 | The loop accepts exactly the proofs whose leaf, depth and every op at its layer fit |
| `GoVerify.IsLeftNeighbor` | go/proof.go:333-366 | The reslicing loop computes the recursive comparison, panics included |
| `GoVerify.ScanBranches` | go/proof.go:428-441 | True exactly when every branch's slot holds the placeholder |

## Left out

- The hash functions themselves: any functions with the right output lengths; `rust/src/host_functions.rs` is not modelled.
- `prost` and `bytes`, and Go's `encoding/binary` varint reader: not part of this model beyond their documented behaviour (varints of at most ten bytes and 64 bits; the encoder leaves out zero and empty fields).
- Codecs of ProofSpec, InnerSpec, NonExistenceProof, CommitmentProof and the batch messages: the same generated code as the four messages modelled.
- Child orders other than the identity, and specs without children: the source reads them in two inconsistent ways (`rust/src/verify.rs:306-308`, `go/proof.go:475-486`); the theorems ask for the identity order.
- Overflow of 32-bit sums and products of spec fields: the theorems ask for specs whose lengths stay below 2^31.
- Specs whose leaf and inner hash differ, whose child slot is not the hash with its length byte, or whose leaf prefix is longer than the shortest inner prefix: `StoreConfig.Sound` excludes them.
- Nil against empty byte slices: told apart where Go's verifier does, for the suffix of an inner op; elsewhere a nil and an empty slice read alike. A slice of spec-dependent bounds that would panic in Go counts as a refusal.
- Error texts and `anyhow` values: a check accepts, refuses or panics.
- Decompressing tables that compression did not produce: an index out of range silently empties the path; all indices produced are proved in range.
- The vectors `rust/src/ops.rs` and Go's `Apply` build with `extend` and `append`: concatenations of values.
- Bitwise `|=` and shifts: the seven-bit groups of a varint occupy disjoint bits, so they are sums and products in the word.
- `Unmarshal` on failure: the fields a failed call leaves behind are not described.
- The Go API over batches and `Calculate` without a spec: thin wrappers of what is modelled.
- Serde, reflection, getters, fuzzing, code generation and test vectors.
- Verify.EnsureLeftNeighbor: paths are values, so the two `to_vec` copies of the source are not visible.
- Completeness.NonMembershipComplete: asks for packed trees and for subtrees that hold a leaf unless they are placeholders; for other trees the code refuses honest neighbours, as Packing.EveryGapSeenIffPacked shows.
