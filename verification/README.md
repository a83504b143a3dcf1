# Verified model of a Merkle Patricia trie

This project models, in Dafny 4.11, a Merkle Patricia trie together with the two layers it
rests on: the Recursive Length Prefix codec below it and the node database behind it. Each
layer has a simple specification, and the code reaches it in a more complicated way. The proofs
connect the two.

- **RLP** (`Rlp`, `RlpHeads`, `RlpRaw`, `RlpEncode`, `RlpDecode`). The specification is the
  obvious recursive encoding `Enc` of Appendix B of the Ethereum Yellow Paper. The encoder keeps
  string data and list headers apart, back-patches sizes and interleaves at the end. One decoder
  slices, the other is a stream with a mutable stack of limits. Both accept exactly the
  encodings, and say of everything else what is wrong with it.
- **Keys and nodes** (`HexKeys`, `Nodes`, `NodeCodec`, `NodeSyntax`, `NodeEncode`): hex-prefix keys
  (Appendix C), the Merkle encoding (Appendix D), the node parser and printer, the raw form in
  the cache.
- **The trie** (`TrieOps`, `TreeFacts`, `History`, `TreePaths`, `Refine`, `Locality`, `Capture`,
  `Reads`, `Tracking`, `Failures`, `Hashing`, `Committing`, `Committers`, `Tries`). The specification is a map from keys
  to non-empty values.
  Between it and the code stands the *loaded canonical tree*, of which there is one for each
  map. A partly loaded node with cached hashes and dirty flags *stands for* such a tree
  (`World.Rep`): its cached hashes are right, what it claims to be clean is in the store, and
  below a hashed node everything is hashed. Every operation on the lazy trie does what it does
  on the tree.
- **The database** (`MemoryDb`, `FlushList`, `Flushing`, `RefCounts`, `Updating`, `TrieDatabase`,
  `DatabaseRuns`): dirty cache, flush list, reference counts, two-phase flush, and what whole runs
  of operations keep.
- **Both together** (`Reopening`, `Sessions`): series of calls on a trie, and the theorem that
  committing and reopening a trie loses nothing.

## Reading the model

- **Keccak** is a parameter `k: seq<byte> -> Hash`, about which nothing is assumed. Freedom from
  collisions is a hypothesis (`Reopening.Apart`) about the finitely many nodes of one tree and
  the store, and only commit-and-reopen needs it. History independence, the map refinement and
  the hasher do not.
- **Acyclicity** of the stored node graph is a ghost height `rank` of hashes, which every
  inserted node has to respect.
- **Stores.** A `World` is a hash function, a store and the claim that the store is `complete`.
  In an incomplete one operations may fail for want of a node, and then change nothing; they
  never give a wrong answer.
- **Streams.** `Stream.Kind` checks an element's size against a list limit read before the
  element's own header was charged. So a list may overrun the list around it by the length of its
  header, and the outer limit then wraps below zero: `RlpDecode.LimitWraps` and
  `RlpDecode.Overruns` give an input, and `Stream.List` says exactly when. The limits are
  therefore modelled modulo 2^64. `Stream.Accepts` is the exact condition under which a value is
  decoded; whole inputs are accepted exactly when they are canonical encodings
  (`RlpDecode.DecodeBytes`).
- **Reference counts.** A database is *sound* (`DatabaseRuns.Sound`) when every reference from the
  cache or the metaroot leads to a node that is cached or on disk, and every count is the number
  of references. For every operation there is the exact condition under which a sound database
  stays sound (`Suits`): an insertion, that nothing refers to the new node yet, that what it refers
  to is there, and that no count overflows; a dereference, that the parent holds an explicit
  reference to the child, or there is nothing to lose. The source lowers the count in any case.
- **Nodes that come back.** The one guard that callers of `Update` can miss is the first: a node
  that was flushed while a cached node refers to it, and is inserted again, comes back with a
  count of zero (`DatabaseRuns.Comeback`, which ends with a `dereference` taking a referenced node
  out of the cache). This does no harm: soundness is also proved with the counts of nodes on disk
  left out, and then needs no such guard (`DatabaseRuns.ComebackSuits`). So in every run in which
  children are there before their parents, references are dropped only by those who hold them,
  and no count overflows, no reference ever leads nowhere.
- **The tracer.** It is exact after every call, but for deletions that get *stuck*
  (`Failures.Stuck`): the key's leaf is one of two children of a branch, and the other is neither
  loaded nor in the store. `delete` reports the leaf gone, fails to load its sibling, and leaves
  the leaf there. `Tries.Trie.Update` says that the tracer stays exact exactly when the call is
  not such a deletion, and `Sessions.LosesTrack` gives one. Every blob that the tracer keeps is
  the encoding of the node that was at its path when tracking began.
  Over a whole run it forgets nothing either: a node that was stored then has had its blob kept,
  or is still where it was, not loaded (`Tracking.Known`), so a commit deletes every one that is
  gone.
- **What an update touches.** An update that leaves the map as it is gives back the node that it
  was given, and keeps a clean root clean; one that does not makes dirty only nodes on the path to
  its key or one step beside it (`HexKeys.Near`). Lookups only load, hashing only hashes, and a
  commit hands over dirty nodes only. So a trie that is opened, used without changing the map and
  committed hands over nothing (`Sessions.OpenAndCommit`).
- **Missing nodes.** A call that fails names a node of the tree by its path and its hash, one that
  is neither loaded nor in the database (`Failures.Lacks`): for lookups and insertions on the path
  to the key, for deletions possibly one step beside it.
- **Embedded nodes.** The comment at trie/trie_node_dec.go:113-114 wants an embedded node to be
  smaller than a hash; the test below it admits 32 bytes, and so does the model
  (`NodeSyntax.RefsAllowed`). The trie never writes one of that size (`Nodes.Embedded`).
- **Empty tries.** `Commit` of an empty trie returns before it resets the tracer, and hands over
  no node set, so the deletions that emptied the trie are reported by no commit.
- `Contents` and `Output` of an `EncBuffer`, `tree` and `contents` of a `Trie`, `list` and
  `stored` of a `TrieDB` are ghost: they say what the fields mean.

## Model

| member | source | states |
|---|---|---|
| RlpHeads.IntSize | rlp/encode.go:468-474 | the loop on the shifted word counts the bytes that `putint` writes |
| RlpHeads.PutInt | rlp/encode.go:410-464 | writes the minimal big-endian bytes of the number at an offset, and nothing else |
| RlpHeads.HeadSize | rlp/encode.go:116-121 | is the length of the header of either tag |
| RlpHeads.PutHead | rlp/encode.go:125-133 | writes the canonical header for the size, short or long form, and nothing else |
| Rlp.EncodedAs | rlp/encbuffer.go:131-208 | the forms of Appendix B, by size: a lone byte, a short header, a long header with the numeral of the size |
| RlpRaw.ReadSizeExact | rlp/raw.go:161-189 | a size field is accepted exactly when it is the minimal numeral, of this width, of a size of 56 and more |
| RlpRaw.SplitExact | rlp/raw.go:47-55 | splits off a value exactly when the buffer starts with a canonical frame, and then that frame's kind and content |
| RlpRaw.SplitRefuses | rlp/raw.go:120-189 | why an input is refused: it ends within a header, or within the content that a canonical header announces, or what it starts with is not canonical |
| RlpRaw.SplitItem | rlp/raw.go:120-159 | an item's encoding is split off whole, whatever follows |
| RlpRaw.EncUnique | rlp/raw.go:47-66 | no item's encoding starts another's, so an input has at most one parse |
| RlpRaw.SplitUint64Exact | rlp/raw.go:70-92 | accepts exactly the encodings of the 64-bit numbers, with whatever follows, and inverts them |
| RlpRaw.SplitUint64Refuses | rlp/raw.go:70-92 | the error for everything else: malformed, a list, too long, or with a leading zero |
| RlpRaw.AppendUint64 | rlp/raw.go:193-261 | appends the number's encoding, the same bytes as the encoder's |
| RlpRaw.ListSize | rlp/raw.go:33-35 | the encoded length of every list with that much content, modulo 2^64: right exactly for contents below 2^64 - 9, and less than the content from there on |
| RlpRaw.CountValues | rlp/raw.go:108-118 | counts the values of a buffer, or finds the first malformed one |
| RlpRaw.CountItems | rlp/raw.go:108-118 | on the encodings of a sequence of items the count is their number |
| RlpRaw.CountRefuses | rlp/raw.go:108-118 | the first value that cannot be split off is the error |
| RlpEncode.EncBuffer.Size | rlp/encbuffer.go:51-53 | is the exact length of what is encoded, at every nesting depth |
| RlpEncode.EncBuffer.Write | rlp/encbuffer.go:104-107 | appends to the innermost open list |
| RlpEncode.EncBuffer.WriteBytes | rlp/encbuffer.go:131-139 | appends the recursive encoding of the string |
| RlpEncode.EncBuffer.WriteUint64 | rlp/encbuffer.go:118-129 | appends the recursive encoding of the number |
| RlpEncode.EncBuffer.WriteBigInt | rlp/encbuffer.go:149-170 | appends the recursive encoding of any natural number, laid out word by word |
| RlpEncode.EncBuffer.EncodeStringHeader | rlp/encbuffer.go:198-208 | appends the canonical string header |
| RlpEncode.EncBuffer.List | rlp/encbuffer.go:174-177 | opens an empty innermost level |
| RlpEncode.EncBuffer.ListEnd | rlp/encbuffer.go:179-187 | closes it: its content, headed by its exact size, joins the enclosing level |
| RlpEncode.EncBuffer.CopyTo | rlp/encbuffer.go:62-77 | interleaves strings and headers into the encoding |
| RlpEncode.EncBuffer.MakeBytes | rlp/encbuffer.go:56-60 | returns the encoding |
| RlpEncode.EncBuffer.AppendToBytes | rlp/encbuffer.go:351-356 | returns the encoding after what was there |
| RlpEncode.EncBuffer.WriteTo | rlp/encbuffer.go:79-101 | the writes put together are the same encoding |
| RlpEncode.LevelsClose | rlp/encbuffer.go:179-187 | closing a list on the flat data is closing it on the nested levels |
| RlpEncode.SizedClose | rlp/encbuffer.go:179-187 | the header-size total and the back-patched list sizes are right at every depth |
| RlpEncode.AheadIsLay | rlp/encbuffer.go:62-77 | laying out from the front and from the back give the same bytes |
| RlpEncode.EncodeToBytes | rlp/encode.go:76-86 | the deferred-header encoder computes the recursive encoding of any item |
| RlpEncode.EncReader.Next | rlp/encbuffer.go:242-273 | the next piece is the start of what is unread |
| RlpEncode.EncReader.Read | rlp/encbuffer.go:217-237 | fills the caller's buffer from the unread bytes, and reports the end exactly when none are left |
| RlpEncode.ReadChunks | rlp/encbuffer.go:217-273 | for every sequence of buffer sizes the reads put together are the encoding |
| RlpDecode.Stream.WillRead | rlp/decode.go:1096-1113 | charges the list and input limits, exactly when both leave room; otherwise the error of the first that does not |
| RlpDecode.Stream.ReadByte | rlp/decode.go:1083-1094 | reads one byte exactly when limits and input allow it, and says which does not |
| RlpDecode.Stream.ReadFull | rlp/decode.go:1061-1081 | reads so many bytes exactly when limits and input allow it, and says which does not |
| RlpDecode.Stream.ReadUint | rlp/decode.go:1034-1059 | reads a big-endian number, exactly when it is there without a leading zero |
| RlpDecode.Stream.ReadKind | rlp/decode.go:974-1032 | recognises exactly the canonical headers that the limits leave room for; outside of any list, the end of the input, or of its limit, is `EOF`, and nothing else is |
| RlpDecode.Stream.Kind | rlp/decode.go:947-972 | answers exactly the value ahead that passes its size checks, end-of-list exactly at the end, `EOF` exactly at the end of the input outside of any list, and exactly one error otherwise |
| RlpDecode.FailsBecause | rlp/decode.go:947-1032 | what each error says: a limit that header or content exceed, a header cut short, or one that is not canonical |
| RlpDecode.Stream.List | rlp/decode.go:771-792 | enters a list exactly when `Kind` finds one that passes its checks, with `ErrExpectedList` exactly for another value; the enclosing limit wraps exactly when header and content exceed it |
| RlpDecode.Stream.ListEnd | rlp/decode.go:794-805 | leaves a list exactly when its limit is used up, and says whether there is no list or something left of it |
| RlpDecode.Stream.Bytes | rlp/decode.go:610-632 | returns a string exactly when its encoding is ahead, passes the checks of `Kind`, and the limits leave room for all of it; consumes exactly that; otherwise exactly one error, `ErrExpectedString` exactly for a list |
| RlpDecode.Stream.Uint | rlp/decode.go:717-748 | the same for a number of at most that many bits; `errUintOverflow` exactly for longer strings |
| RlpDecode.Stream.DecodeBigInt | rlp/decode.go:823-864 | the same for a natural number of any size |
| RlpDecode.DecodeInterface | rlp/decode.go:492-514 | returns an item exactly when its encoding is ahead and passes the checks of `Kind`, and, for a string, the limits leave room for all of it; a list may overrun the list around it; otherwise exactly one error, that of the header, of the string, or of the first element that cannot be decoded |
| RlpDecode.DecodeListSlice | rlp/decode.go:272-285 | returns items exactly when the encoding of their list is ahead and passes the checks of `Kind` |
| RlpDecode.DecodeSliceElems | rlp/decode.go:287-314 | decodes elements to the end of the list, consuming exactly their encodings |
| RlpDecode.DecodeBytes | rlp/decode.go:90-104 | succeeds with an item exactly when the input is the recursive encoding of that item, at any nesting; for every other input exactly one error: `EOF` exactly for the empty one, `ErrMoreThanOneValue` exactly when an encoding is a proper prefix of it, and otherwise the one for which it is refused |
| RlpDecode.TakenNotRefused | rlp/decode.go:287-314 | what can be decoded is not refused, at any nesting |
| RlpDecode.RefusesOnce | rlp/decode.go:287-314 | what is refused is refused for one reason |
| RlpDecode.LimitWraps | rlp/decode.go:783-785 | an input on which entering a list wraps the outer limit |
| RlpDecode.Overruns | rlp/decode.go:783-785 | on that input the inner list, which does not fit, is decoded all the same |
| HexKeys.KeyBytesToHex | trie/trie_encoding.go:34-43 | the nibbles of a key and the terminator |
| HexKeys.KeyToHexPrefixFree | trie/trie_encoding.go:34-43 | different keys have different nibbles, and neither starts the other |
| HexKeys.DecodeNibbles | trie/trie_encoding.go:45-49 | packs nibbles in place into the tail of a buffer |
| HexKeys.HexToCompact | trie/trie_encoding.go:3-18 | fills a new buffer with the hex-prefix form |
| HexKeys.CompactNibbles | trie/trie_encoding.go:3-18 | the flag nibble, the padding and the nibbles of a compact key |
| HexKeys.CompactRoundTrip | trie/trie_encoding.go:3-32 | `compactToHex` inverts `hexToCompact` on all nibbles with or without terminator, and `hexToCompact` makes compact keys |
| HexKeys.HexRoundTrip | trie/trie_encoding.go:3-32 | `hexToCompact` inverts `compactToHex` on all compact keys |
| HexKeys.CommonPrefix | trie/trie_encoding.go:52-64 | the length up to which two keys agree |
| Nodes.BlobSize | trie/trie_node_enc.go:7-13 | no node's encoding outgrows a 64-bit size |
| Nodes.Embedded | trie/trie_node_hasher.go:128-158 | a reference to a node is the node itself exactly when that takes less than 32 bytes, and its hash otherwise |
| Nodes.CollapsedAs | trie/trie_node_enc.go:15-44 | the items of Appendix D that leaves, extensions and branches are written as |
| NodeCodec.DecodeBlob | trie/trie_node_dec.go:43-129 | a stored canonical node, with embedded nodes to any depth and whatever follows, decodes to itself with its keys restored |
| NodeCodec.DecodeChildren | trie/trie_node_dec.go:85-102 | the loop over sixteen references and the value |
| NodeSyntax.DecodesExactly | trie/trie_node_dec.go:43-129 | the parser accepts exactly the inputs that start with the encoding of an item that spells a node, and returns that node |
| NodeSyntax.RefsAllowed | trie/trie_node_dec.go:106-129 | a reference is nothing, a hash of 32 bytes, or a node of at most 32 bytes |
| NodeEncode.EncodeNode | trie/trie_node_enc.go:15-44 | appends the node's recursive encoding to the buffer |
| NodeEncode.EncodeRaw | trie/trie_node_enc.go:46-67 | appends the raw node's recursive encoding to the buffer |
| NodeEncode.NodeToBytes | trie/trie_node_enc.go:7-13 | returns the recursive encoding of a raw node |
| NodeEncode.SimplifyKeepsItem | trie/trie_node_convert.go:7-29 | discarding flags keeps the encoding |
| NodeEncode.ExpandLoads | trie/trie_types.go:82-114 | expanding the raw form of a stored node loads the node |
| NodeEncode.ReadPathsAgree | trie/trie_types.go:61-114 | expanding the cached raw form equals decoding the bytes it is written as |
| TrieOps.ScanChildren | trie/trie.go:368-378 | finds the only child, or that there is none or are several |
| TreeFacts.InsertCanon | trie/trie.go:222-300 | insertion keeps the tree canonical, and unchanged when it reports so |
| TreeFacts.InsertLookup | trie/trie.go:222-300 | insertion updates the map at one key and nowhere else, and reports dirty exactly when the map changed |
| TreeFacts.DeleteCanon | trie/trie.go:306-430 | deletion keeps the tree canonical, through reductions and merges |
| TreeFacts.DeleteLookup | trie/trie.go:306-430 | deletion removes one key and no other, and reports dirty exactly when the map changed |
| History.CanonUnique | trie/trie.go:222-430 | canonical trees that hold the same are equal |
| History.UpdateHolds | trie/trie.go:204-220 | an update of the tree is the update of the map it holds |
| History.HistoryIndependence | trie/trie.go:204-430 | updates and deletions in whatever order that leave the same map leave the same tree and root hash |
| History.HoldsSized | trie/trie.go:204-220 | keys and values that fit into slices make nodes that do |
| TreePaths.InsertEvents | trie/trie.go:230-282 | insertion reports exactly the paths at which nodes appear, each once |
| TreePaths.DeleteEvents | trie/trie.go:307-403 | deletion reports exactly the paths at which nodes disappear, each once |
| TreePaths.InsertTracks | trie/trie.go:222-300 | these reports, applied in order, lead from the old set of paths to the new one |
| TreePaths.DeleteTracks | trie/trie.go:306-430 | the same for deletion |
| Refine.World.ResolveRep | trie/trie.go:133-140 | loading a node by its hash gives a node for the same tree, fully hashed |
| Refine.World.GetRefines | trie/trie.go:86-120 | searching a partly loaded trie finds what the tree holds, and keeps the tree |
| Refine.World.InsertRefines | trie/trie.go:222-300 | insertion into a partly loaded trie does what it does on the tree, with the same reports, or fails only for a missing node |
| Refine.World.ReduceRefines | trie/trie.go:358-405 | so does the reduction, which may have to load the last sibling |
| Refine.World.DeleteRefines | trie/trie.go:306-430 | so does deletion |
| Locality.ResolvedClean | trie/trie_node_dec.go:66-102 | a node just loaded is clean, with everything embedded in it |
| Locality.GetLoads | trie/trie.go:86-120 | a lookup only loads nodes on the path to its key, and keeps all keys and flags |
| Locality.GetAgain | trie/trie.go:86-120 | a lookup keeps what it has loaded: repeated, it loads nothing |
| Locality.InsertKeeps | trie/trie.go:222-300 | insertion keeps every node off the path to its key, makes nothing dirty but near the key, and gives back the node it was given when the value is there already |
| Locality.DeleteKeeps | trie/trie.go:306-430 | deletion keeps every node off the path to its key, or reports it gone; makes nothing dirty but near the key; and gives back the node it was given when the key is not there |
| Capture.NetExact | trie/trie_capture.go:30-55 | the two sets stay the exact difference of the paths then and now, through resurrections |
| Capture.NetOfWrites | trie/trie_capture.go:20-26 | reads make no difference to them |
| Capture.GetReads | trie/trie.go:86-120 | a search calls no hook but `onRead` |
| Reads.GetOriginal | trie/trie.go:86-140 | every blob that a search reports read is the encoding of the node that was at its path when tracking began, and so is every node still to be loaded |
| Reads.InsertOriginal | trie/trie.go:222-300 | the same for insertion, through splits |
| Reads.DeleteOriginal | trie/trie.go:306-430 | the same for deletion, through reductions and merges, the last sibling included |
| Reads.OriginsReport | trie/trie_capture.go:20-26 | so every blob the tracer keeps is the encoding of the node that was there when tracking began |
| Tracking.GetKnown | trie/trie.go:86-140 | over a lookup, every node that was stored when tracking began has its blob kept, or is still where it was, not loaded |
| Tracking.InsertKnown | trie/trie.go:222-300 | the same for insertion |
| Tracking.DeleteKnown | trie/trie.go:306-430 | the same for deletion |
| Failures.DeleteStuck | trie/trie.go:306-430 | a failed deletion has reported something exactly when it is stuck, and then just the leaf; the missing node is off the key's own path |
| Failures.InsertFails | trie/trie.go:222-300 | a failed insertion has reported nothing |
| Failures.GetLacks | trie/trie.go:86-140 | a lookup that fails names, by path and hash, a node of the tree on the path to its key that is neither loaded nor in the store |
| Failures.InsertLacks | trie/trie.go:222-300 | the same for insertion |
| Failures.DeleteLacks | trie/trie.go:306-430 | the same for deletion; the node is on the path to the key or one step beside it |
| Failures.StuckNode | trie/trie.go:310-316 | the leaf that a stuck deletion reports gone is still in the tree |
| Failures.Spoils | trie/trie_capture.go:45-55 | such a report spoils an exact tracer |
| Capture.TrieCapture.OnInsert | trie/trie_capture.go:30-40 | takes back a deletion or adds an insertion |
| Capture.TrieCapture.OnDelete | trie/trie_capture.go:45-55 | takes back an insertion or adds a deletion |
| Capture.TrieCapture.OnRead | trie/trie_capture.go:20-26 | keeps the blob last read at a path |
| Capture.TrieCapture.DeleteList | trie/trie_capture.go:71-81 | lists the deleted paths, each once |
| Hashing.Hasher.NodeToHash | trie/trie_node_hasher.go:128-158 | hashes a node exactly when it takes 32 bytes and more, or is forced; the hash is that of its encoding, and otherwise it stays as it is |
| Hashing.Hasher.HashShortChildren | trie/trie_node_hasher.go:78-91 | the collapsed node encodes as the tree does; the cached one is hashed below |
| Hashing.Hasher.HashFullChildren | trie/trie_node_hasher.go:93-122 | the same for a branch, child after child |
| Hashing.Hasher.Hash | trie/trie_node_hasher.go:42-73 | reusing cached hashes gives the hash of the whole tree from scratch; the cached node is the same node with every hash in place |
| Committing.EmitDescribes | trie/trie_committer.go:51-171 | every entry has the path, the hash and the raw form of a node of the tree that is stored by itself |
| Committing.EntryHashes | trie/trie_committer.go:124-157 | hasher and committer agree: every entry's hash is that of its own bytes |
| Committing.EmitDistinct | trie/trie_committer.go:51-121 | no path is emitted twice |
| Committing.EmitChildrenFirst | trie/trie_committer.go:51-121 | every node that an entry refers to is in the store or in an earlier entry |
| Committing.EmitCovers | trie/trie_committer.go:51-121 | every node of the tree that is stored by itself is in the store or among the entries |
| Locality.EmitDirty | trie/trie_committer.go:51-92 | a commit hands over dirty nodes only |
| Committers.Committer.CommitNode | trie/trie_committer.go:51-92 | marks these entries in this order, and returns what the hasher collapses the node to |
| Committers.Committer.CommitChildren | trie/trie_committer.go:95-122 | the same for the children of a branch, with the value left in place |
| Committers.Committer.NodeCommit | trie/trie_committer.go:124-171 | marks a node that carries its hash; one that does not stays in its parent |
| Committers.Committer.Commit | trie/trie_committer.go:28-48 | the root hash, the marked entries, and the deletions of nodes read before |
| Committers.MarkedEntries | trie/trie_nodeset.go:61-67 | a new node set holds exactly the entries marked in it, in order |
| Committers.MarkedLeaves | trie/trie_committer.go:147-157 | the leaves collected are exactly the values of the marked leaf nodes, with their hashes |
| Committers.DeletesApart | trie/trie_committer.go:37-46 | a commit never both updates and deletes a path |
| Committers.NodeSet.MarkUpdated | trie/trie_nodeset.go:61-67 | adds one path to the order and its node to the map |
| Committers.NodeSet.MarkDeleted | trie/trie_nodeset.go:70-72 | adds one deleted path |
| MemoryDb.AppliedAt | accdb/memorydb/memorydb.go:131-143 | after a batch every key has the value of the last write to it, and others keep theirs |
| MemoryDb.MemBatch.Submit | accdb/memorydb/memorydb.go:131-143 | the store after all the batch's writes in order |
| MemoryDb.MemBatch.Put | accdb/memorydb/memorydb.go:112-116 | queues a write; the size is the volume queued |
| MemoryDb.MemDB.Get | accdb/memorydb/memorydb.go:50-61 | the value, or not found |
| FlushList.UnlinkKeepsList | trie/trie_db_cleaner.go:27-37 | unlinking takes exactly one node out of the list, at either end or in the middle, although the oldest node's back link may be stale |
| FlushList.AppendKeepsList | trie/trie_db.go:145-152 | a new node goes to the end, also when the list had drained and its end is stale |
| FlushList.WalkVisitsAll | trie/trie_db.go:129-153 | following the links from the oldest visits every cached node once and stops at the newest |
| Flushing.ProgressKeepsView | trie/trie_db.go:270-275 | at every point of a flush readers see the same nodes |
| Flushing.LandedClosed | trie/trie_db.go:311-322 | every submitted batch leaves the disk closed under references |
| Flushing.PutDone | trie/trie_db.go:286-308 | a node is queued after everything it refers to is queued or written |
| Flushing.UnderDone | trie/trie_db.go:286-308 | whatever is dealt with, so is everything below it, shared subtrees included |
| Flushing.DiskHasAllReachable | trie/trie_db.go:270-284 | following references from a node on a closed disk never leaves it |
| RefCounts.InsertedIs | trie/trie_db.go:129-153 | inserting adds one node at the end and changes only counts and links of others |
| RefCounts.InsertConserved | trie/trie_db.go:129-153 | inserting keeps all counts right exactly when no cached node refers to the new one and no count overflows |
| RefCounts.InsertRight | trie/trie_db.go:129-153 | an insertion keeps a sound database sound exactly under its guard |
| RefCounts.UnknownUnreferenced | trie/trie_db.go:138-142 | in a sound database nothing refers to a node that is neither cached nor on disk |
| RefCounts.ReferenceRight | trie/trie_db.go:204-218 | an explicit reference keeps a sound database sound exactly when it is not new or nothing overflows |
| RefCounts.ForgetStep | trie/trie_db.go:222-229 | a forgotten reference is pending until the child's count is lowered |
| RefCounts.DropStep | trie/trie_db.go:236-242 | a count that is right and owed a reference is not zero yet; lowered, it is right again |
| RefCounts.LeaveStep | trie/trie_db.go:243-261 | when a count that is right is zero nothing refers to the node, and its own references become pending |
| RefCounts.ReferencedStay | trie/trie_db.go:220-262 | a cascade never takes away a node that is still referred to, if its count is right |
| RefCounts.TrimmedClosed | trie/trie_db.go:220-262 | so every reference still leads to a node that is cached or on disk |
| RefCounts.DereferenceRight | trie/trie_db.go:220-262 | a dereference keeps a sound database sound exactly when the parent holds a reference to the child, or there is nothing to lose |
| RefCounts.UncacheConserved | trie/trie_db_cleaner.go:18-41 | a node whose children have left may leave, and the counts stay right |
| Updating.InsertAllAdopts | trie/trie_db.go:177-186 | after a series of insertions every hash is there, with the first entry's node if it is new, and what was cached stays |
| Updating.InsertAllCounts | trie/trie_db.go:177-186 | a count is right afterwards exactly when nothing referred to the node before it was there and nothing overflows |
| Updating.LinkAllLinks | trie/trie_db.go:188-200 | every account leaf is linked to its storage trie if that is cached and not empty, and nothing else is linked |
| Updating.UpdateRight | trie/trie_db.go:157-202 | a whole update keeps a sound database sound exactly when its entries fit and no count overflows |
| Updating.FreshFit | trie/trie_db.go:162-186 | entries that come children first fit, unless one of them comes back from disk |
| TrieDatabase.TrieDB.constructor | trie/trie_db.go:27-35 | an empty cache with the metaroot over the disk, sound when the disk is closed |
| TrieDatabase.TrieDB.NodeBlob | trie/trie_db.go:88-108 | the cached node's bytes or those on disk, never the metaroot's |
| TrieDatabase.TrieDB.Node | trie/trie_db.go:65-84 | both read paths give the decoding of the node's bytes |
| TrieDatabase.TrieDB.Insert | trie/trie_db.go:129-153 | the new state, in which the list is intact; sound exactly under the guard |
| TrieDatabase.TrieDB.Update | trie/trie_db.go:157-202 | the sets' nodes are inserted in order, the account set's last, and its leaves linked up to the first that cannot be decoded; cached nodes stay what they were; sound exactly when the entries fit and no count overflows |
| TrieDatabase.TrieDB.Reference | trie/trie_db.go:204-218 | the new state, in which the list is intact; sound exactly under the guard |
| TrieDatabase.TrieDB.Dereference | trie/trie_db.go:220-262 | the parent forgets one reference and the child's count is lowered; a node whose last reference goes leaves, with what only it needed; a sound database stays sound exactly when the parent holds a reference to the child, or there is nothing to lose |
| TrieDatabase.TrieDB.DereferenceIn | trie/trie_db.go:220-262 | the same within a cascade: flush list intact, counts that are right stay right, and no node with a right count leaves while it is referred to |
| TrieDatabase.TrieDB.CommitNode | trie/trie_db.go:286-309 | exactly what is below the node is dealt with, with submits at any point; a closed disk stays closed; the batch stays below its ideal size |
| TrieDatabase.TrieDB.Submit | trie/trie_db.go:311-322 | the batch is on disk before its nodes leave the cache |
| TrieDatabase.TrieDB.Commit | trie/trie_db.go:270-284 | readers see the same nodes; exactly what is below the node left the cache, all of it is on disk, and a sound database stays sound |
| TrieDatabase.Cleaner.Put | trie/trie_db_cleaner.go:18-41 | one node leaves list and cache; the others keep theirs |
| TrieDatabase.Cleaner.Write | accdb/memorydb/memorydb.go:153-167 | at every step of the replay what left the cache is on disk |
| TrieDatabase.MergedNodeSet.Merge | trie/trie_nodeset.go:88-95 | one set for each owner, an error for a second |
| DatabaseRuns.Perform | trie/trie_db.go:129-322 | over any series of insertions, updates, references, dereferences and commits the database is sound throughout exactly when it is at the start and every operation suits |
| DatabaseRuns.SoundReaches | trie/trie_db.go:88-108 | in a sound database following references never leaves what readers can see |
| DatabaseRuns.CountZero | trie/trie_db.go:243-261 | when all counts are right, one is zero exactly when nothing needs the node |
| DatabaseRuns.ComebackSuits | trie/trie_db.go:236-242 | with the counts of nodes on disk left out, a node that comes back needs no guard |
| DatabaseRuns.Comeback | trie/trie_db.go:236-242 | from an empty database: a flushed node comes back with a count of zero, and a dereference takes it away although a cached node refers to it; it is on disk |
| Reopening.AdoptedView | trie/trie_db.go:157-186 | without collisions readers see all entries of a commit and all they saw before |
| Reopening.AdoptedHolds | trie/trie.go:157-183 | without collisions the whole tree is in the database after the update |
| Reopening.ChildrenFirstBefore | trie/trie_db.go:162-186 | children-first entries refer only to what is there before them |
| Reopening.MarkedLeavesOk | trie/trie_committer.go:147-157 | the leaves that a commit collects can be linked |
| Reopening.BlobFixesRaw | trie/trie_types.go:48-78 | nodes with the same encoding have the same raw form |
| Reopening.DiskHasTree | trie/trie_db.go:270-284 | when the root is on a closed disk, so is the whole tree |
| Reopening.FlushedHolds | trie/trie_db.go:270-322 | after a flush the disk alone is a complete store for the tree |
| Tries.Trie.ResolveAndTrack | trie/trie.go:133-140 | loads a node and reports it read, or finds it missing |
| Tries.Trie.GetNode | trie/trie.go:86-120 | the recursive search over the database, hooks and failures included, is the specified one (`Locality.GetLoads`, `Failures.GetLacks`) |
| Tries.Trie.InsertNode | trie/trie.go:222-300 | so is the recursive insertion (`Locality.InsertKeeps`, `Failures.InsertLacks`) |
| Tries.Trie.DeleteNode | trie/trie.go:306-430 | so is the recursive deletion (`Locality.DeleteKeeps`, `Failures.DeleteLacks`) |
| Tries.Trie.ReduceNode | trie/trie.go:358-405 | so is the reduction |
| Tries.Trie.New | trie/trie.go:49-61 | loads the root, or fails for it exactly when it is not in the database; nothing is dirty |
| Tries.Trie.TryGet | trie/trie.go:78-84 | the value in the map, or the path and hash of a missing node on the way; the same lookup again loads nothing; resolving changes neither map, tracked paths nor dirty flags, and what is read is original |
| Tries.Trie.Update | trie/trie.go:204-220 | changes the map at one key, or nothing on failure, which names the missing node; an update that leaves the map as it is makes nothing dirty, others only nodes near the key; the tracer stays exact exactly when the call is not a deletion that is stuck, and forgets nothing |
| Tries.Trie.Hash | trie/trie.go:144-148 | the Merkle root of the map's one tree, whatever was cached; map and dirty flags stay the same |
| Tries.Trie.Commit | trie/trie.go:157-183 | nothing exactly when the root is clean; otherwise root hash and a node set of dirty nodes, whose entries are distinct, children first, and with the store cover the tree; its deletions are the tracked ones and the nodes now too small, every stored node that is gone among them, never a path that is also updated, each with the encoding of the original node |
| Sessions.Replay | trie/trie.go:78-220 | any interleaving of updates, lookups and hashing on any trie, however much of it is loaded: the calls that do not fail take effect in order, tree and root hash are those of the map, only nodes near keys that changed become dirty, and over a complete database none fails and the tracer is exact |
| Sessions.ReplayFromEmpty | trie/trie.go:78-220 | from an empty trie tree and root hash are those of the updates alone, however often nodes were looked up or hashed on the way |
| Sessions.OpenAndCommit | trie/trie.go:49-183 | a trie that is opened, used and committed hands over nodes near the keys that changed, and no node set at all if none did |
| Sessions.LosesTrack | trie/trie.go:386-389 | two updates, a node missing, and a deletion that leaves an inexact tracer |
| Sessions.CommitTo | trie/trie_db.go:157-202 | after commit and update the whole tree is in the database, what was there still is, account leaves are linked to their storage tries, and a sound database stays sound unless a node comes back from disk or a count overflows |
| Sessions.CommitAndReopen | trie/trie.go:49-183 | after commit, with or without leaves, update and, or not, the flush, a trie opened at the root holds the same map |
| Sessions.FlushAndRestart | trie/trie_db.go:270-284 | after the flush a new database on the same disk, with an empty cache, opens the same map, and is sound |

## Left out

- TrieDatabase.TrieDB.Update: `types.StateAccount` is decoded by reflection; the account's
  storage root is a parameter, a partial function of the leaf.
- TrieDatabase.TrieDB.Dereference: the call from outside and the calls within a cascade
  (`DereferenceIn`), lowering a count (`DropCount`) and taking a node out (`Remove`) are methods of
  their own, and the unlinking that the source writes twice is written once (`Detach`).
- TrieDatabase.TrieDB.Update: when a set lacks the node of a path, the cache is left with the
  entries before it; the model says that the cache is in order, not which entries those are.
- Updating.UpdateRight: assumes that no node has the hash zero, which is the metaroot's.
- DatabaseRuns.Perform: the updates of a run are of complete sets with leaves that can be decoded.
- TrieDatabase.Cleaner.Write: the replay of a batch is written for the one writer it is given;
  that writer's `Delete`, which only panics, is not there.
- Reopening.Apart: freedom from collisions is assumed for one tree and the store, never proved.
- Trie.Get and Trie.Update of the source drop the errors that `TryGet` and `tryUpdate` return;
  the model returns them.
- Aliasing: the cached nodes of a database are values in a map, written back on change, and trie
  nodes are values. Sharing of pointers and of key slices between nodes is not modelled.
- Lengths: keys, also in nibbles, and values are shorter than 2^63, encodings shorter than 2^64.
- Allocation: a stream without a limit may be told of a huge string and allocate for it.
- `rawNode`: nothing in the source creates one, so cached nodes here are the other raw forms.
- Parallel hashing, which is never switched on, mutexes and pools: operations are atomic steps.
- Scratch buffers kept between calls (`sizebuf`): the model allocates one for each call.
- Reflection and type dispatch of the RLP package: items are strings and lists.
- Arrays, structs, pointers, booleans and raw values as decoding targets, `Stream.Raw` and
  `Stream.ReadBytes`.
- Readers and writers that fail, and `bufio`: input and output are byte sequences.
- `rlpgen`, the list iterator, error texts and contexts, printing of nodes.
- Malformed blobs in a store, on which `mustDecodeNode` panics: stores hold nodes of tries.
- `copy` and `insertList` of the tracer, `Nodes` of the database, closed databases.
- Keccak itself.
