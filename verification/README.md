# Verified models of a collection of C programs

The repository is a set of small C programs that share the header `pg/pg.h`. This project models the parts that
compute something hard and proves what they promise, for all inputs:

- **SHA-1** (`Fips180`, `Sha1`, `Sha1Example`). The block function with its 16-word circular schedule, renamed registers and rewritten
  Ch and Maj is proved equal to the 80-word, five-variable loop of section 6.1.2 of FIPS 180-4. The streaming interface
  is an object that absorbs chunks; any cutting of a message gives the same digest, and the padding is the one of
  section 5.1.1 exactly when every chunk is shorter than 2^32 bytes. What is taken over from the standard is tied to it:
  the words of a block are its bytes, the constants are the roots they should be, and the digest of "abc" is the
  published one, with all its intermediate values.
- **Bencode** (`BencodeSpec`, `Bencode`, `BencodeTheorems`, `BencodeKeys`, `BencodeNumbers`, `BencodeFailures`). The parser
  object appends to three parallel arrays and patches them. It accepts exactly the encodings of well-formed trees, leaves
  the pre-order flattening of the tree, and the flat arrays print the document back. Integers and length prefixes are
  described by the decimal numerals of the numbers they stand for. Where the dictionary key check departs from section "bencoding" of BEP 3, the
  departure is stated.
- **Torrent arithmetic** (`Metainfo`, `PieceNumbering`). The wrapping 32-bit arithmetic of the computed fields, the block
  numbering and the block lengths is exact for torrents of any size; the offset at which a piece is hashed is exact only
  below 4 GiB. For every piece length it is said exactly when blocks are numbered by a bijection.
- **Peer protocol** (`Ring`, `PeerWire`, `PeerFrames`, `PeerReceive`, `BitArray`, `PeerBitfield`, `Picker`, `Swarm`,
  `SwarmRuns`, `SwarmHistory`). The receive ring refines a double-ended sequence; the incremental parser delivers the same
  messages however the stream is cut, and they are read off the bytes as BEP 3 lays them out; the picker shared by any
  number of peers asks for every block at most once in every interleaving, and only of peers that have unchoked us.
- **Sudoku** (`SudokuUnits`, `Constraints`, `BruteForce`). The backtracking solver finds the lexicographically least
  completion whenever there is one. The brute-force solver's product of primes decides a unit by unique factorisation,
  and its odometer tests every assignment once.
- **Allocation trace** (`HashTable`, `AllocTrace`). The open-addressing table refines a finite map while it does not
  grow, every probe ends even afterwards, and frees and allocations are linked to each other as they should be.
- **Rope** (`Rope`). The chain invariant over all runs, the visited-cell counter, and the agreement of two update rules.
- **Pool** (`Pool`). The intrusive free list stays a list, and free and live chunks partition the buffer.
- **DWARF** (`Leb128`, `LineTable`, `LineProgram`, `LineAssembler`). Reading inverts the encoding of section 7.6 of DWARF 4
  exactly for the numbers that fit the shifts, the line table is sorted, and the lookup returns the entry that covers an
  address. An assembler that follows section 6.2.5.1 turns rows into a program, and it is said exactly when the reader
  gives the rows back.

Code that works in place is written as classes and methods over arrays and sequences; each is proved against functions
on values, about which the lemmas speak. A failed assertion, an undefined shift or a loop that never ends is an outcome
(`AssertionFailed`, `Fault`, `NeverReturns`), not a precondition. `MachineInts` holds the fixed-width integers and
`Arithmetic` facts about products and quotients.

Where the code does not do what its purpose asks for, the condition under which it does is proved for all inputs:

- the bitfield size is right exactly when the number of pieces is not 1 modulo 8 (`PeerWire.BitfieldSizeRight`);
- a handshake cut after 4 to 67 bytes makes the parser fail (`PeerReceive.HandshakeCut`);
- a whole block fits the file, as `peer_put_block` asserts, for all blocks exactly when the length is a multiple of 2^14
  (`Swarm.ShortBlockIff`), and a download can still be finished exactly when it is finished already, or no request was
  lost, no piece failed, no misread piece keeps failing its checksum and a peer is connected
  (`SwarmRuns.FinishableIff`);
- a piece is hashed from its own bytes exactly when it starts below 2^32 (`Metainfo.ChecksumOffsetIff`);
- what the program keeps survives a piece message exactly when its block is downloading, whoever was asked for it
  (`SwarmRuns.AnswerKeepsInvIff`), and an accepted piece message answers the request for its block exactly when it begins
  at a multiple of the block length (`PeerWire.AcceptedPieceIff`);
- the receive ring takes every read exactly when frames have at most 16993 bytes (`PeerWire.FrameBoundIff`,
  `PeerWire.LongFrameOverflows`, `PeerReceive.Receive`);
- the parser never returns exactly when the items of a container run into a NUL byte at a value position, and its
  length assertion fails exactly when they run into a prefix that is 0 modulo 2^64 (`BencodeFailures.HangsExactly`,
  `BencodeFailures.TrapsExactly`);
- a dictionary passes the key check exactly when it is empty or a walk over the rows of its first pair passes, a condition
  on the first pair and the number of pairs alone: no key after the first is ever looked at, and a
  dictionary with later keys that are no strings is accepted exactly when that walk passes
  (`BencodeKeys.FirstPairDecides`, `BencodeKeys.BadKeysAcceptedIff`). With two pairs or more, when the first value has no
  children the walk looks at the first key only, when it has one child the walk fails, and when it has n children, n at
  least 2, it goes on at row n inside the first value (`BencodeTheorems.OnlyFirstKeyChecked`,
  `BencodeTheorems.OneChildRejected`, `BencodeKeys.NextLookIsInside`);
- with pieces of at least one block, the blocks are numbered by a bijection that division inverts exactly when what the
  pieces have beyond whole blocks fits into the slack of the last block and the last piece is no longer than the whole
  blocks of a piece (`PieceNumbering.NumberingIff`);
- a key of hash 0 is lost (`HashTable.ZeroHashIsLost`, `HashTable.ZeroHashKey`), and a key is found again after the table
  grows exactly when no empty slot lies on its new probe path (`HashTable.FoundAfterGrowth`);
- freeing a chunk twice makes the free list endless (`Pool.PushIsSound`), and `pg_pool_free_all` is sound only on an empty
  free list (`Pool.FreeAllIsSound`);
- the line table holds the rows a program was assembled from exactly when each row has a line and differs from the row
  before it in line or file, and either instructions are one byte long or no DW_LNS_advance_pc is needed, because the
  reader does not scale its operand (`LineAssembler.RowsComeBackIff`);
- the old pointer of a `realloc` is recorded exactly when it is the new one too (`AllocTrace.EventRecords`);
- an integer is accepted exactly when it is the numeral of a natural number, or a minus sign and digits other than a
  single zero, so `i-05e` is (`BencodeNumbers.IntOkIff`);
- LEB128 reading is right exactly below 2^32, or from -2^27 up to 2^31 when signed (`Leb128.UnsignedReadBack`,
  `Leb128.SignedReadBack`).

## Model

| member | source | states |
|---|---|---|
| `Fips180.FoldAppend` | torrent/sha1.h:266-272 | compressing two runs of whole blocks one after the other is compressing their concatenation |
| `Fips180.PaddingShape` | torrent/sha1.h:290-317 | the padded message is a whole number of blocks, starts with the message and ends with the length field |
| `Fips180.PaddingLeast` | torrent/sha1.h:293-308 | no shorter run of zeros aligns the length field |
| `Fips180.BlockBytes` | torrent/sha1.h:61-90 | a block is the bytes of its words, the most significant byte first |
| `Fips180.ConstantsAreRoots` | torrent/sha1.h:112-193 | the four constants are the integer parts of 2^30 times the square roots of 2, 3, 5 and 10 |
| `Sha1Example.LastVars` | torrent/sha1.h:68-220 | the 80 iterations on the block of "abc" reach the published working variables, through every published word and row |
| `Sha1Example.AbcDigest` | torrent/sha1.h:337-358 | the digest of "abc" is the published one |
| `Sha1.RoundFunctionRewritten` | torrent/sha1.h:111-193 | the rewritten Ch and Maj and the constants of the four macros are those of FIPS 180-4 in the right steps |
| `Sha1.NextWord` | torrent/sha1.h:94-97 | four slots of the 16-word ring give word t of the 80-word schedule |
| `Sha1.WindowSlides` | torrent/sha1.h:94-97 | overwriting slot t mod 16 keeps the last sixteen schedule words in the ring |
| `Sha1.R` | torrent/sha1.h:94-97 | the macro returns schedule word t and moves the window by one |
| `Sha1.P` | torrent/sha1.h:99-103 | two register updates in place are one step of the five-variable loop, up to renaming |
| `Sha1.Steps0` | torrent/sha1.h:111-129 | steps 0 to 15 reach the standard's working variables after 16 iterations |
| `Sha1.Steps16` | torrent/sha1.h:130-133 | steps 16 to 19 reach the working variables after 20 iterations |
| `Sha1.Steps20` | torrent/sha1.h:138-160 | steps 20 to 39 reach the working variables after 40 iterations |
| `Sha1.Steps40` | torrent/sha1.h:165-187 | steps 40 to 59 reach the working variables after 60 iterations |
| `Sha1.Steps60` | torrent/sha1.h:192-214 | steps 60 to 79 reach the working variables after 80 iterations |
| `Sha1.Context.Process` | torrent/sha1.h:68-229 | the unrolled block function is the compression function of section 6.1.2 |
| `Sha1.Context.constructor` | torrent/sha1.h:47-59 | a new context has absorbed the empty message |
| `Sha1.CounterAdvances` | torrent/sha1.h:249-253 | the carry test makes the two counter words one 64-bit counter of the lengths truncated to 32 bits |
| `Sha1.Context.Update` | torrent/sha1.h:236-278 | after an update the context has absorbed the message followed by the chunk |
| `Sha1.LengthField` | torrent/sha1.h:313-317 | the two shifted words are the bit length modulo 2^64, big-endian |
| `Sha1.Context.PutLength` | torrent/sha1.h:313-317 | the last eight bytes of the buffer become the bit length, the others stay |
| `Sha1.Context.Finish` | torrent/sha1.h:284-332 | the digest is the hash of the absorbed message padded with the counted bit length |
| `Sha1.CountedIsLength` | torrent/sha1.h:249-253 | the counter holds the message length exactly when every chunk is under 2^32 bytes |
| `Sha1.FieldIsRight` | torrent/sha1.h:313-317 | the padding is that of section 5.1.1 if and only if every chunk is under 2^32 bytes |
| `Sha1.Sha1InChunks` | torrent/sha1.h:236-332 | any cutting of a message into chunks gives the digest FIPS 180-4 defines for the whole |
| `Sha1.Sha1` | torrent/sha1.h:337-358 | one call gives the digest FIPS 180-4 defines |
| `BencodeSpec.Sound` | torrent/bencode.h:83-259 | what is accepted is a well-formed tree whose encoding is exactly the bytes consumed |
| `BencodeSpec.Complete` | torrent/bencode.h:83-259 | the encoding of every well-formed tree is accepted, wherever it stands and whatever follows |
| `BencodeSpec.FlattenFits` | torrent/bencode.h:239-242 | a container row is followed by at least as many rows as it has children, so the key walk stays inside |
| `BencodeSpec.KeyScanAnywhere` | torrent/bencode.h:232-243 | the key check does not depend on where the dictionary starts |
| `Bencode.ReadPrefix` | torrent/bencode.h:154-160 | the digit loop reads the prefix modulo 2^64 and reports whether all bytes are digits |
| `Bencode.Parser.ParseInteger` | torrent/bencode.h:91-132 | one integer row is added and the parent counts it, or the reported error occurs |
| `Bencode.Parser.ParseString` | torrent/bencode.h:133-173 | one string row is added and the parent counts it, or the reported error or assertion occurs |
| `Bencode.Parser.ParseArray` | torrent/bencode.h:174-199 | the rows of the array and its children follow the old rows, the count patched, the parent restored |
| `Bencode.Parser.ParseDictionary` | torrent/bencode.h:200-251 | the same for a dictionary, whose span runs from its `d` to its `e` |
| `Bencode.Parser.ParseChildren` | torrent/bencode.h:187-195 | the loop of a container parses its items in order and counts each once |
| `Bencode.DictionaryRow` | torrent/bencode.h:204-208 | an accepted dictionary's own row spans exactly its bytes |
| `Bencode.ScanKeys` | torrent/bencode.h:232-243 | the loop that looks at keys computes the key walk on the rows of the dictionary |
| `Bencode.Parser.CheckKeys` | torrent/bencode.h:232-243 | the loop's answer depends on the items alone |
| `Bencode.Parser.Zeroed` | torrent/bencode.h:44-50 | a zeroed parser with reserved slots is a valid start, its parent being 0 |
| `Bencode.Parser.Parse` | torrent/bencode.h:83-259 | the parser object ends with the old rows, the parent's count raised, and the pre-order flattening of the tree; every error, assertion and endless loop is told; a zeroed parser gives the same table as one without a parent |
| `Bencode.Parser.DumpValue` | torrent/bencode.h:267-334 | the walk ends, returns the size of the subtree and visits each of its rows once, in order |
| `Bencode.ParseAndDump` | torrent/bencode_dump.c:32-40 | a zeroed parser parses a document and the walk from its root visits every row once |
| `Bencode.RowIsRoot` | torrent/bencode.h:267-334 | every row of an accepted document is the root of a subtree, so the walk may start at any row |
| `BencodeTheorems.AcceptsExactly` | torrent/bencode.h:83-259 | the parser accepts if and only if the encoding of a well-formed tree stands at the position |
| `BencodeTheorems.PrefixFree` | torrent/bencode.h:83-259 | no two well-formed documents start with the same bytes |
| `BencodeTheorems.NoNulNeverHangs` | torrent/bencode.h:188-192 | without a NUL byte in the input no container loops for ever; the assertion on a string length may still fail |
| `BencodeFailures.ItemsFailExactly` | torrent/bencode.h:187-195 | the items of a container loop for ever, or fail the length assertion, if and only if whole values lead up to a NUL byte, or to a prefix that is 0 modulo 2^64, possibly inside nested containers |
| `BencodeFailures.HangsExactly` | torrent/bencode.h:252-253 | the parser never returns if and only if it opens a container whose items run into a NUL byte at a value position |
| `BencodeFailures.TrapsExactly` | torrent/bencode.h:154-161 | the assertion on the string length fails if and only if the value is, or its items run into, a string whose prefix is 0 modulo 2^64 |
| `BencodeFailures.NulWitnesses` | torrent/bencode.h:188-192 | a list holding a NUL byte is never left, a NUL byte inside a string is accepted |
| `BencodeFailures.ZeroPrefixWitness` | torrent/bencode.h:154-161 | a text without a NUL byte whose prefix 2^64 fails the assertion |
| `BencodeFailures.OverflowWitness` | torrent/bencode.h:154-168 | the prefix 2^64 + 1 is accepted for one byte, and the flat table prints other bytes than were read |
| `BencodeTheorems.PrintsBack` | torrent/bencode.h:126-129 | the three flat arrays alone print a document, and it is the bytes consumed if and only if all length prefixes fit 64 bits |
| `BencodeTheorems.CanonicalIff` | torrent/bencode.h:154-160 | a document equals its canonical form if and only if its length prefixes fit 64 bits |
| `BencodeTheorems.OnlyFirstKeyChecked` | torrent/bencode.h:232-243 | when the first value has no children, a dictionary passes the check if and only if its first key is a string |
| `BencodeTheorems.OneChildRejected` | torrent/bencode.h:239-242 | a first value with exactly one child makes every longer dictionary fail |
| `BencodeTheorems.KeyCheckDiffers` | torrent/bencode.h:232-243 | concrete dictionaries where the check rejects string keys and accepts others |
| `BencodeKeys.FirstPairDecides` | torrent/bencode.h:232-243 | a dictionary passes the check if and only if the walk over the rows of its first pair passes; no other key is ever looked at |
| `BencodeKeys.SameFirstPair` | torrent/bencode.h:232-243 | dictionaries of one size with the same first pair fare the same, whatever their other keys are |
| `BencodeKeys.LaterKeysAreFree` | torrent/bencode.h:232-243 | replacing anything after the first pair does not change the verdict |
| `BencodeKeys.BadKeysAcceptedIff` | torrent/bencode.h:232-243 | a dictionary with a key that is no string is accepted if and only if the walk over its first pair passes and some later key is no string |
| `BencodeKeys.PassIff` | torrent/bencode.h:227-243 | a dictionary passes if and only if it is empty or the walk over its first pair passes |
| `BencodeKeys.NextLookIsInside` | torrent/bencode.h:239-242 | after a first value of n children, n at least 2, the next row looked at is row n, inside that value; two pairs pass if and only if it is a string |
| `BencodeKeys.TwoChildren` | torrent/bencode.h:239-242 | a first value of two children, list or dictionary, lets two pairs pass if and only if its first child is a string |
| `BencodeKeys.WellFormedIff` | torrent/bencode.h:232-243 | a value of the format is one the parser can produce if and only if each of its dictionaries passes its walk |
| `BencodeKeys.RoundTripIff` | torrent/bencode.h:83-259 | a value of the format is encoded and read back, leaving the rest of the input, if and only if all its dictionaries pass the key check |
| `BencodeNumbers.IntOkIff` | torrent/bencode.h:107-124 | the bytes of an integer are accepted if and only if they are the decimal numeral of a natural number, or a minus sign and a nonempty run of digits other than `0` |
| `BencodeNumbers.PrefixOkIff` | torrent/bencode.h:133-160 | a length prefix is well formed if and only if it is the numeral of a positive number |
| `BencodeNumbers.IntegersExactly` | torrent/bencode.h:91-132 | what the parser answers to any bytes between `i` and the first `e`, wherever they stand |
| `BencodeNumbers.EveryInteger` | torrent/bencode.h:91-132 | every integer in its usual notation is accepted at any position, and its text reads back as that integer |
| `BencodeNumbers.StringsExactly` | torrent/bencode.h:133-173 | what the parser answers to any prefix before the first colon, in terms of the number it stands for |
| `BencodeNumbers.RefusedStart` | torrent/bencode.h:91-257 | where no value can start, and an integer without an end |
| `BencodeNumbers.RefusedDictionary` | torrent/bencode.h:221-243 | a dictionary that misses a value or fails the key check is an InvalidDict |
| `BencodeTheorems.RoundTrip` | torrent/bencode.h:83-259 | encoding a standard value and parsing it gives the value back and leaves the rest of the input |
| `Metainfo.ComputeIsExact` | torrent/bencode.h:484-494 | the computed fields have their exact values although products and differences wrap |
| `Metainfo.NumberIsExact` | torrent/bencode.h:550-559 | a block of a piece has an exact number below the total, so the assertion holds |
| `Metainfo.FromPieceAndBack` | torrent/bencode.h:532-559 | numbering a block of a piece and going back gives the piece, the byte offset and the block |
| `Metainfo.FromBlockAndBack` | torrent/bencode.h:532-559 | every block number comes from exactly one piece and position |
| `Metainfo.BlockLengthIsExact` | torrent/bencode.h:510-522 | a block's length is 2^14, cut at the end of the torrent, past 4 GiB too |
| `Metainfo.LengthsAddUp` | torrent/bencode.h:502-530 | block lengths add up to their piece, piece lengths to the torrent |
| `Metainfo.ChecksumOffsetIff` | torrent/peer.h:593-596 | a piece is hashed from its own bytes if and only if it starts below 2^32 |
| `Metainfo.ChecksumOffsetWraps` | torrent/peer.h:593-596 | the last piece of a torrent of 4 GiB and one block is hashed from the start of the file |
| `PieceNumbering.FieldsAreExact` | torrent/bencode.h:484-494 | for every positive piece length the wrapping fields have their exact values |
| `PieceNumbering.NoBlockLostIff` | torrent/bencode.h:486-493 | the pieces have as many blocks as the torrent if and only if what the pieces have beyond whole blocks fits into the slack of the last block |
| `PieceNumbering.BijectionIff` | torrent/bencode.h:532-559 | numbering and division are inverse bijections if and only if no block is lost and the last piece has no more blocks than the others |
| `PieceNumbering.NumberingIff` | torrent/bencode.h:484-559 | the same for every torrent, as a condition on its length and piece length |
| `PieceNumbering.OddPieceLengths` | torrent/bencode.h:486-493 | each of the two conditions fails on a concrete torrent, and the numbering is then no bijection |
| `Ring.RingBuffer.constructor` | pg/pg.h:975-983 | a new ring is empty |
| `Ring.RingBuffer.Get` | pg/pg.h:997-1010 | index i reads the ith element |
| `Ring.RingBuffer.Back` | pg/pg.h:1021-1031 | the last element |
| `Ring.RingBuffer.PushBack` | pg/pg.h:1033-1041 | one element is appended |
| `Ring.RingBuffer.PushFront` | pg/pg.h:1043-1051 | one element is prepended, also when the unsigned index wraps |
| `Ring.RingBuffer.PopBack` | pg/pg.h:1053-1059 | the last element is taken off and returned |
| `Ring.RingBuffer.PopFront` | pg/pg.h:1061-1070 | the first element is taken off and returned |
| `Ring.RingBuffer.ConsumeFront` | pg/pg.h:1072-1077 | the first n elements are dropped |
| `Ring.RingBuffer.ConsumeBack` | pg/pg.h:1079-1083 | the last n elements are dropped |
| `Ring.RingBuffer.Clear` | pg/pg.h:1085-1088 | the ring is empty |
| `Ring.RingBuffer.PushBackV` | pg/pg.h:1094-1112 | the two copies append the bytes in order |
| `Ring.RingBuffer.PushEach` | pg/pg.h:1033-1041 | pushing the bytes one at a time has the same effect as the vector push |
| `PeerWire.ReverseTwice` | torrent/peer.h:472-475 | reversing the bits of a byte twice is the identity |
| `PeerFrames.NetworkOrder` | torrent/peer.h:345-366 | numbers are read and written with the most significant byte first |
| `PeerFrames.ControlFrames` | torrent/peer.h:409-434 | the bytes of the messages without a payload |
| `PeerFrames.HaveFrame` | torrent/peer.h:435-452 | the bytes of HAVE, and which indices are refused |
| `PeerFrames.RequestFrames` | torrent/peer.h:480-556 | REQUEST and CANCEL carry piece, offset and length, in this order |
| `PeerFrames.PieceFrame` | torrent/peer.h:499-535 | PIECE carries piece, offset and data |
| `PeerFrames.RefusedFrames` | torrent/peer.h:377-560 | which frames are refused by their length and tag, and how |
| `PeerFrames.HeaderNamesProtocol` | torrent/peer.h:322-323 | the handshake starts with the length of the protocol's name, and the name |
| `PeerBitfield.ReversedBit` | torrent/peer.h:472-475 | bit k of a byte delivered is bit 7 - k of the byte received |
| `PeerBitfield.BitfieldNamesPieces` | torrent/peer.h:453-479 | after an accepted BITFIELD frame the peer has piece i if and only if bit i of the payload on the wire is set, the high bit of each byte first; pieces past the payload are as before |
| `PeerWire.BitfieldSizeRight` | torrent/peer.h:454-457 | the expected bitfield size is one bit per piece if and only if the piece count is not 1 modulo 8 |
| `PeerWire.Stable` | torrent/peer.h:367-558 | a decision of the parser does not change when more bytes arrive |
| `PeerWire.FrameParses` | torrent/peer.h:367-558 | a whole frame yields its message and is consumed exactly, whatever follows |
| `PeerWire.PrefixNeedsMore` | torrent/peer.h:373-390 | a proper prefix of a frame asks for more |
| `PeerWire.DrainAppend` | torrent/peer.h:886-917 | draining, receiving more and draining again is draining everything at once |
| `PeerWire.CutsDoNotMatter` | torrent/peer.h:863-918 | the messages and the failure do not depend on how the stream is cut into reads |
| `PeerWire.DrainsFrames` | torrent/peer.h:886-917 | a stream of frames and part of another is drained to exactly its messages and that part |
| `PeerWire.DrainsPrefix` | torrent/peer.h:886-917 | draining any prefix of a stream of frames gives its whole messages and keeps the part of the next frame |
| `PeerWire.RestIsPartial` | torrent/peer.h:886-890 | what stays in the ring is less than the frame it announces |
| `PeerWire.ReadFits` | torrent/peer.h:1133-1152 | with frames of at most 16993 bytes, a read always fits the 34000-byte ring |
| `PeerWire.FrameBoundIff` | torrent/peer.h:1133-1152 | a full read fits behind every part of a frame if and only if the frame has at most 16993 bytes |
| `PeerWire.LongFrameOverflows` | pg/pg.h:1094-1096 | every longer frame can be cut so that the second read overflows the ring and the assertion fails |
| `PeerWire.BitfieldTooLongIff` | torrent/peer.h:453-460 | the bitfield of a torrent is such a frame if and only if there are more than 135905 pieces |
| `PeerWire.AnswerIsAccepted` | torrent/peer.h:1024-1043 | the answer to every request passes all checks and is stored under the block asked for, with its byte count |
| `PeerWire.AcceptedPieceIff` | torrent/peer.h:499-534 | every accepted piece message is stored under a block with its index and size, whose request has its begin if and only if that is a multiple of the block length |
| `PeerWire.UnalignedIsAccepted` | torrent/peer.h:515-524 | a block of data that begins inside a block is accepted and stored as that block |
| `PeerWire.PositionInPiece` | torrent/peer.h:514-523 | the assertion on the block position holds for every piece message that reaches it |
| `PeerReceive.ReadU32` | torrent/peer.h:345-354 | four bytes are taken off the ring and read big-endian |
| `PeerReceive.PeekU32` | torrent/peer.h:356-365 | the same number without taking the bytes |
| `PeerReceive.ParseMessage` | torrent/peer.h:373-558 | on the ring, the parser computes the parse of its bytes: nothing consumed when it needs more, exactly one frame when it got one |
| `PeerReceive.OnRead` | torrent/peer.h:863-918 | a read appends its bytes and delivers the messages of the drained stream |
| `PeerReceive.Receive` | torrent/peer.h:863-918 | over a whole connection, however a stream of frames of at most 16993 bytes is cut into reads: the ring never overflows, nothing fails, and exactly the whole messages are delivered in order |
| `PeerReceive.HandshakeCut` | torrent/peer.h:313-375 | a valid handshake cut short fails if and only if at least 4 of its 68 bytes have arrived |
| `BitArray.Bits.constructor` | pg/pg.h:1121-1128 | a new bit array is the empty set |
| `BitArray.Bits.SetAll` | pg/pg.h:1216-1218 | all indices up to the largest are members |
| `BitArray.Bits.Get` | pg/pg.h:1154-1160 | membership, for every index inside the buffer |
| `BitArray.Bits.Set` | pg/pg.h:1146-1152 | exactly one index is added; an index past the largest one changes no member |
| `BitArray.Bits.Unset` | pg/pg.h:1172-1178 | exactly one index is removed |
| `BitArray.Bits.SetV` | pg/pg.h:1130-1135 | the bits of the given bytes replace the first members, the others stay |
| `BitArray.Bits.CountSet` | pg/pg.h:1180-1187 | the number of members, spare bits not counted |
| `Picker.BlockPicker.constructor` | torrent/peer.h:154-175 | every block is wanted, none downloading or downloaded |
| `Picker.BlockPicker.PickBlock` | torrent/peer.h:177-210 | the least wanted block of a piece the peer has, if any |
| `Picker.BlockPicker.MarkDownloading` | torrent/peer.h:239-244 | one block moves from the wanted to the downloading set |
| `Picker.BlockPicker.MarkDownloaded` | torrent/peer.h:265-270 | one block moves from the downloading to the downloaded set |
| `Picker.BlockPicker.HaveAllBlocksForPiece` | torrent/peer.h:212-237 | true if and only if all blocks of the piece are downloaded |
| `Picker.PieceBlocksInterval` | torrent/peer.h:216-221 | the blocks of a piece are the interval the code scans |
| `Picker.PicksAreWanted` | torrent/peer.h:818-841 | the blocks asked for are distinct, wanted, and of pieces the peer has |
| `Picker.PicksExhaust` | torrent/peer.h:823-832 | a peer that stops below its limit has no wanted block left |
| `Picker.PicksAreLeast` | torrent/peer.h:177-210 | the picks come in increasing order, and a wanted block of the peer's pieces is left out only behind a full number of smaller picks |
| `Picker.Peer.OnChoke` | torrent/peer.h:729-732 | the peer counts as choking us, and requests stop |
| `Picker.Peer.OnUnchoke` | torrent/peer.h:733-736 | the peer no longer chokes us, and more is requested |
| `Picker.Peer.OnHave` | torrent/peer.h:743-749 | every HAVE the parser lets through is safe; an index equal to the number of pieces adds no piece |
| `Picker.Peer.OnBitfield` | torrent/peer.h:750-759 | the pieces are those of the payload, and the old ones past its end |
| `Picker.Peer.RequestMoreBlocks` | torrent/peer.h:805-844 | the blocks sent are the picks up to five in flight, none when choked; sets and counter follow |
| `Picker.Peer.PutBlock` | torrent/peer.h:638-720 | sets and the three counters after a block is written, for both outcomes of the checksum; nothing changes when the write fails or is short |
| `Swarm.RunKeepsInv` | torrent/peer.h:805-918 | in every interleaving of any number of peers, whoever answers for a downloading block, the three sets partition the blocks, no block is asked for twice, in-flight counts are at most five and add up with the lost requests to the downloading set, and the counters are the totals |
| `Swarm.StepKeepsInv` | torrent/peer.h:722-800 | each event keeps that invariant |
| `Swarm.AssertionsHold` | torrent/peer.h:640-702 | with the invariant, every assertion of `peer_put_block` holds for every downloading block |
| `Swarm.ShortBlockIff` | torrent/peer.h:646-647 | the assertion that a whole block fits the file holds for all blocks if and only if the length is a multiple of 2^14 |
| `Swarm.FinishedTotals` | torrent/peer.h:668-702 | when nothing is wanted, awaited or failed, the counters are the torrent's length, blocks and pieces |
| `Swarm.NeverAgain` | torrent/peer.h:834-838 | no single event asks for a block that is awaited, lost or downloaded |
| `Swarm.AcceptedViews` | torrent/peer.h:435-479 | every HAVE and BITFIELD the parser accepts meets what the handler needs |
| `Swarm.OnChoke` | torrent/peer.h:729-732 | the peer object follows the state machine on a CHOKE |
| `Swarm.OnUnchoke` | torrent/peer.h:733-736 | the peer object follows the state machine on an UNCHOKE |
| `Swarm.OnHave` | torrent/peer.h:743-749 | the peer object follows the state machine on a HAVE |
| `Swarm.OnBitfield` | torrent/peer.h:750-759 | the peer object follows the state machine on a BITFIELD |
| `SwarmRuns.RunGrows` | torrent/peer.h:722-844 | over every continuation the invariant is kept, and nothing lost, failed or asked for is taken back |
| `SwarmRuns.NeverAskedAgain` | torrent/peer.h:834-838 | a block that has been asked for is not asked for again in any continuation |
| `SwarmRuns.NeverFinishes` | torrent/peer.h:1198-1206 | with a lost request or a failed piece no continuation reaches the full counters |
| `SwarmRuns.CanFinish` | torrent/peer.h:805-861 | with nothing lost or failed and a connected peer that has every piece, some list of events in which every checksum passes reaches them |
| `SwarmRuns.MisreadIff` | torrent/peer.h:593-596 | a piece is hashed from other bytes than its own if and only if it starts at or beyond 2^32 |
| `SwarmRuns.FinishableIff` | torrent/peer.h:588-861 | in every run in which some set of misread pieces never passes its checksum: the download can still be finished if and only if it is finished, or nothing was lost, nothing failed, that set is empty and a peer is connected |
| `SwarmRuns.FinishableBelow4GiB` | torrent/peer.h:588-861 | when the last piece starts below 2^32 nothing is misread, and the same holds for every run |
| `SwarmRuns.AnswerKeepsInvIff` | torrent/peer.h:515-792 | the sets, counts and counters the program keeps survive a piece message if and only if its block is downloading, whoever was asked for it; neither parser nor handler checks this |
| `SwarmRuns.UnaskedUpsetsSum` | torrent/peer.h:764-767 | after a block nobody awaits the requests in flight no longer add up to the downloading set |
| `SwarmRuns.AnswerIsFairIff` | torrent/peer.h:764-767 | the number in flight at each peer stays the number of downloading blocks asked of it if and only if the answer comes from the peer that was asked |
| `SwarmRuns.RunIsFair` | torrent/peer.h:805-861 | in every run in which peers answer only what they were asked, each peer has in flight exactly the blocks asked of it and not yet answered |
| `SwarmHistory.StepDecides` | torrent/peer.h:722-861 | what one event makes true or false of choking, announced pieces, awaited and downloaded blocks, whom a block was asked of, and complete pieces |
| `SwarmHistory.HistoryDecides` | torrent/peer.h:722-861 | over every run each of these holds if and only if the latest event about it said so |
| `SwarmHistory.ChokedIff` | torrent/peer.h:729-736 | over every run a peer does not choke us if and only if an UNCHOKE happened with no CHOKE behind it |
| `SwarmHistory.AskedOnlyUnchoked` | torrent/peer.h:805-816 | over every run blocks are asked of a peer only behind such an UNCHOKE, and only blocks of pieces it has announced and not taken back |
| `SwarmHistory.LogGrowsUnchoked` | torrent/peer.h:805-844 | whenever a request goes out, it is to an idle peer that has unchoked us |
| `SwarmHistory.AskedExactly` | torrent/peer.h:818-841 | an unchoked peer is asked for the smallest wanted blocks of its pieces, in order, until five are in flight or none is left |
| `Swarm.OnIdle` | torrent/peer.h:846-861 | the peer object follows the state machine when idle |
| `Swarm.OnPiece` | torrent/peer.h:760-792 | the peer object follows the state machine on a piece message for any downloading block, and no assertion fails |
| `SudokuUnits.CompleteIsSolved` | sudoku-solver/constraints.c:124-138 | all 27 units complete is the same as solved |
| `Constraints.ComputeRowValidity` | sudoku-solver/constraints.c:19-46 | invalid, incomplete or valid, as the row repeats a digit, has a hole, or holds each digit once |
| `Constraints.ComputeColumnValidity` | sudoku-solver/constraints.c:85-111 | the same for a column |
| `Constraints.ComputeBlockValidity` | sudoku-solver/constraints.c:48-83 | the same for a block |
| `Constraints.ComputeGridValidity` | sudoku-solver/constraints.c:124-138 | the collected bits equal VALID if and only if the grid is solved |
| `Constraints.GridSolve` | sudoku-solver/constraints.c:140-199 | it stops with the least completion, or returns only if there is none; its assertion fails only on an inconsistent grid |
| `Constraints.FirstPass` | sudoku-solver/constraints.c:249-295 | the completions are unchanged and the table misses no value of any completion; the assertion fails only when there is no completion |
| `Constraints.Solve` | sudoku-solver/constraints.c:249-300 | for every grid of digits: solved if and only if a completion exists, and with the lexicographically least one |
| `Constraints.LeastIsUnique` | sudoku-solver/constraints.c:171-198 | the least completion is unique |
| `BruteForce.ProductDecides` | sudoku-solver/brute_force.c:22-47 | the product of nine values is that of the first nine primes if and only if each digit occurs once |
| `BruteForce.ChecksAgree` | sudoku-solver/brute_force.c:26-101 | the product check agrees with the counting check of the other solver |
| `BruteForce.IsRowValid` | sudoku-solver/brute_force.c:26-47 | true if and only if the row holds each digit once, without overflow |
| `BruteForce.IsColumnValid` | sudoku-solver/brute_force.c:80-101 | the same for a column |
| `BruteForce.IsBlockValid` | sudoku-solver/brute_force.c:49-78 | the same for a block |
| `BruteForce.IsGridValid` | sudoku-solver/brute_force.c:114-130 | true if and only if the grid is solved |
| `BruteForce.IncrementSolutionVector` | sudoku-solver/brute_force.c:150-175 | the recursion in place turns the odometer once and leaves the rest of the array alone |
| `BruteForce.NextAddsOne` | sudoku-solver/brute_force.c:150-175 | an increment adds one modulo 9^k to the base-9 reading and keeps the zero cells |
| `BruteForce.NthReading` | sudoku-solver/brute_force.c:250-251 | after r increments the reading has advanced by r modulo 9^k |
| `BruteForce.EachAssignmentOnce` | sudoku-solver/brute_force.c:250-251 | every assignment of 1 to 9 comes up exactly once in 9^k rounds |
| `BruteForce.MergeGrids` | sudoku-solver/brute_force.c:177-186 | non-zero cells of the vector replace those of the grid |
| `BruteForce.Search` | sudoku-solver/brute_force.c:244-263 | the loop stops at the first round whose grid is solved |
| `BruteForce.GivensStay` | sudoku-solver/brute_force.c:250-252 | no round alters a given |
| `BruteForce.StopsExactly` | sudoku-solver/brute_force.c:250-263 | the loop stops if and only if a completion exists, and then within 9^k rounds |
| `BruteForce.RoundOf` | sudoku-solver/brute_force.c:250-263 | every completion is tested in one round within 9^k |
| `HashTable.StopIsUnique` | dtrace-alloc-postprocess/main.c:68-83 | a probe ends at one slot only |
| `HashTable.StopsRight` | dtrace-alloc-postprocess/main.c:68-83 | that slot is taken if and only if the key is in the map, and holds its value |
| `HashTable.StoreHolds` | dtrace-alloc-postprocess/main.c:113-124 | storing at that slot adds or updates the key in the map and keeps every other key reachable |
| `HashTable.ZeroHashIsLost` | dtrace-alloc-postprocess/main.c:118-121 | a key of hash 0 is written to a slot that stays empty, the map is unchanged |
| `HashTable.ZeroHashKey` | pg/pg.h:553-560 | such a key exists |
| `HashTable.LoadLeavesRoom` | dtrace-alloc-postprocess/main.c:97-100 | the load limit leaves an empty slot after an insertion if and only if there are at least four slots |
| `HashTable.FullNeverStops` | dtrace-alloc-postprocess/main.c:71-83 | in a full table a probe ends if and only if the table holds the key |
| `HashTable.FoundAfterGrowth` | dtrace-alloc-postprocess/main.c:100-112 | an old key is found after growth if and only if no slot on its new path is empty |
| `HashTable.GrowthLosesKey` | dtrace-alloc-postprocess/main.c:100-112 | a key whose new home lies in the cleared part is lost |
| `HashTable.GrowthLosesOne` | dtrace-alloc-postprocess/main.c:100-112 | the key 1 in a table of four slots is such a key |
| `HashTable.Table.constructor` | dtrace-alloc-postprocess/main.c:51-56 | a new table is the empty map |
| `HashTable.Table.Find` | dtrace-alloc-postprocess/main.c:58-86 | every probe ends; while the table has not grown, it finds exactly the keys of the map |
| `HashTable.Table.Grow` | dtrace-alloc-postprocess/main.c:100-112 | all entries keep their slots and the new slots are empty |
| `HashTable.Table.Store` | dtrace-alloc-postprocess/main.c:113-126 | one entry is written where its probe stops and nothing else changes; the map is updated unless the hash is 0 |
| `HashTable.Table.Upsert` | dtrace-alloc-postprocess/main.c:88-127 | the same, after growth when the load limit is reached, and then the entry is written by the new homes |
| `AllocTrace.FreeIsLinked` | dtrace-alloc-postprocess/main.c:193-212 | a free is linked to the latest earlier allocation of its pointer, has its size, and its recovered pointer is the freed one; unlinked only if there is none or the hash is 0 |
| `AllocTrace.AllocIsLinked` | dtrace-alloc-postprocess/main.c:207-211 | an allocation points to the last free that releases it, which points back and has the same size |
| `AllocTrace.EventRecords` | dtrace-alloc-postprocess/main.c:266-335 | an event has the kind, size and pointer of its frame; the old pointer of a realloc is recorded if and only if it is the new one or was not given |
| `AllocTrace.StopsAt` | dtrace-alloc-postprocess/main.c:308-331 | recording stops in front of the first frame of unknown kind or that frees NULL |
| `AllocTrace.Recorder.OnFrame` | dtrace-alloc-postprocess/main.c:312-335 | recording one frame keeps the events equal to those the trace determines, while the table has not grown |
| `AllocTrace.Recorder.LinkFree` | dtrace-alloc-postprocess/main.c:193-212 | the free and its allocation are linked to each other, no other event changes, and no assertion fails |
| `AllocTrace.ParseInput` | dtrace-alloc-postprocess/main.c:214-353 | with room for all allocations every recorded event is the one the trace determines; recording stops exactly at the first fatal frame |
| `Rope.StepIsNearest` | aoc2022/9_2.c:335-358 | a knot that moves goes to the one neighbouring cell nearest to the knot in front |
| `Rope.StepAssertions` | aoc2022/9_2.c:355-356 | both assertions after a move hold if and only if the knot was at most two cells behind |
| `Rope.KnotFollows` | aoc2022/9_2.c:381-386 | in one drag every knot moves at most one cell and ends next to the knot in front |
| `Rope.ChainAfter` | aoc2022/9_2.c:370-386 | over every run neighbouring knots stay within distance 1 and no knot is ever more than two cells behind |
| `Rope.RopeStaysIn` | aoc2022/9_2.c:388-395 | every knot stays in any box that holds the head's path |
| `Rope.HeadCountsSteps` | aoc2022/9_2.c:360-380 | over every run the head is as far right and down as steps R exceed L and steps D exceed U |
| `Rope.StepsCountMoves` | aoc2022/9_2.c:360-374 | a list of moves takes as many steps in each direction as their distances add up to |
| `Rope.Follow` | aoc2022/9_2.c:381-386 | the loop over the array drags every knot after the one before it |
| `Rope.Visit` | aoc2022/9_2.c:388-395 | the counter grows exactly when the cell is new |
| `Rope.StepOnce` | aoc2022/9_2.c:370-396 | one step keeps the rope, the marked cells and the counter in line with the steps so far |
| `Rope.MakeMove` | aoc2022/9_2.c:374-396 | the loop over the steps of one move keeps the same, and leaves early exactly when the head leaves the grid |
| `Rope.Simulate` | aoc2022/9_2.c:360-398 | for any rope length and moves: the assertions hold if and only if the head stays in the grid, and then the counter is the number of distinct tail cells |
| `Rope.JumpIsStep` | aoc2022/9_1.c:339-341 | jumping to the head's previous cell is the step rule for two knots, up to mirroring y |
| `Rope.RulesAgree` | aoc2022/9_1.c:326-352 | over every run the two programs' ropes are mirror images and visit equally many cells |
| `Rope.JumpOnce` | aoc2022/9_1.c:330-351 | one step of the two-knot program; its assertions on the tail never fail |
| `Rope.SimulateTwo` | aoc2022/9_1.c:322-354 | it counts what the other program counts for a rope of two knots |
| `Pool.ListIsDistinct` | pg/pg.h:120-131 | a free list that ends visits no chunk twice |
| `Pool.ListsAgree` | pg/pg.h:120-131 | the links determine the chunks of the list and their order |
| `Pool.PushIsSound` | pg/pg.h:152-161 | giving back a chunk keeps a list if and only if the chunk is not on it already |
| `Pool.FreeAllIsSound` | pg/pg.h:133-140 | pushing all chunks gives a list if and only if the free list was empty, and then it holds every chunk |
| `Pool.EmptyIffAllLive` | pg/pg.h:142-145 | the free list is empty if and only if all chunks are live |
| `Pool.Pool.constructor` | pg/pg.h:163-178 | in a new pool every chunk is free |
| `Pool.Pool.FreeAll` | pg/pg.h:133-140 | the loop over the buffer, with the condition above |
| `Pool.Pool.Alloc` | pg/pg.h:142-150 | NULL if and only if every chunk is live; otherwise a chunk that was not live, cleared, no other chunk touched |
| `Pool.Pool.Free` | pg/pg.h:152-161 | exactly the given chunk stops being live, the other live chunks keep their contents |
| `Pool.Pool.Write` | pg/pg.h:142-161 | what the owner of a live chunk writes into it does not reach the links of the free list |
| `Leb128.UnsignedRoundTrip` | crash-reporter/macho.h:25-38 | decoding inverts encoding in unbounded arithmetic |
| `Leb128.SignedRoundTrip` | crash-reporter/macho.h:41-59 | the same for signed numbers |
| `Leb128.Figures` | crash-reporter/macho.h:25-59 | the examples of figures 22 and 23 of DWARF 4 |
| `Leb128.UnsignedReadBack` | crash-reporter/macho.h:25-38 | reading gives the encoded number and the offset after it if and only if it is below 2^32 |
| `Leb128.SignedReadBack` | crash-reporter/macho.h:41-59 | reading gives the encoded number if and only if it lies from -2^27 up to 2^31 |
| `Leb128.ReadLeb128Unsigned` | crash-reporter/macho.h:25-38 | on every input: the value modulo 2^32 of at most five bytes, or a fault |
| `Leb128.ReadLeb128Signed` | crash-reporter/macho.h:41-59 | on every input: the signed value of at most five bytes, sign extended, or a fault |
| `LineTable.ExecKeepsSorted` | crash-reporter/macho.h:1277-1296 | an operation that only advances keeps the table strictly increasing |
| `LineTable.TableIsSorted` | crash-reporter/macho.h:1388-1483 | sequences in address order, each with its address set once at the start, give strictly increasing addresses |
| `LineTable.ReadExtended` | crash-reporter/macho.h:967-1006 | an extended operation is decoded, executed and skipped to its end |
| `LineTable.ReadAndExec` | crash-reporter/macho.h:1390-1482 | one turn of the loop decodes one operation and executes it |
| `LineTable.RunProgram` | crash-reporter/macho.h:1388-1483 | the recorded table is that of the decoded operations; the loop fails exactly when decoding does |
| `LineTable.FindLine` | crash-reporter/macho.h:1502-1517 | in a sorted table the line of the entry whose interval contains the address, nothing from the last entry on; the assertion fails exactly at the first disordered pair reached |
| `LineTable.CoverIsUnique` | crash-reporter/macho.h:1502-1517 | at most one entry covers an address |
| `LineTable.CoverExists` | crash-reporter/macho.h:1502-1517 | every address from the first entry up to the last is covered |
| `LineProgram.OpReadBack` | crash-reporter/macho.h:1390-1482 | decoding an operation inverts its encoding |
| `LineProgram.SkippedOps` | crash-reporter/macho.h:1405-1463 | the operations that do not show in the table are skipped, with or without an operand |
| `LineProgram.UnknownExtended` | crash-reporter/macho.h:967-1006 | an extended operation of another kind is skipped to its announced end |
| `LineProgram.LastOpRefused` | crash-reporter/macho.h:1390-1392 | an operation whose last byte is the last of the data is refused |
| `LineProgram.OpsReadBack` | crash-reporter/macho.h:1390-1483 | a whole program decodes to the operations it was made of |
| `LineProgram.FindInProgram` | crash-reporter/macho.h:1388-1517 | from the bytes of an ordered program to the lookup: an address gets the line of the one entry that covers it |
| `LineAssembler.SpecialRuns` | crash-reporter/macho.h:1464-1481 | a special opcode made by the formula of section 6.2.5.1 records a row that much further in address and line |
| `LineAssembler.RowOpRuns` | crash-reporter/macho.h:1410-1481 | one special opcode, alone or behind DW_LNS_const_add_pc or DW_LNS_advance_pc, and the address it arrives at |
| `LineAssembler.NextRow` | crash-reporter/macho.h:1410-1481 | a further row of a sequence is recorded as it was meant, or at another address if its advance is not scaled |
| `LineAssembler.FirstRow` | crash-reporter/macho.h:1417-1481 | the first row of a sequence is recorded once, also when DW_LNS_advance_line records it early |
| `LineAssembler.RowsComeBackIff` | crash-reporter/macho.h:1388-1483 | the table is exactly the rows the program was assembled from if and only if each has a line and differs from the one before in line or file, and every advance is scaled |
| `LineAssembler.RepeatedLine` | crash-reporter/macho.h:1277-1296 | three rows, two on one line, that do not come back |
| `LineAssembler.FarRow` | crash-reporter/macho.h:1410-1416 | two distinct rows 4096 bytes apart, with four-byte instructions, that do not come back |
| `LineAssembler.FindAssembled` | crash-reporter/macho.h:1388-1517 | from the bytes an assembler writes to the lookup: an address gets the line of the row that covers it |

## Left out

- Input and output, sockets, the event loop, timers, `fork`/`exec`, logging and formatted printing: disk contents, checksum outcomes and received bytes are parameters.
- `picker_checksum_all`: it inverts the test on its file read, so resuming does not work as intended.
- The key scan of `bc_parser_init_metainfo` and `tracker_parse_peer_addresses`: heuristic scans over neighbouring flat entries; only the computed fields are modelled.
- `pg_memmem`, `pg_span_starts_with`, `pg_span_ends_with`, `pg_span_contains` and `pg_bitarray_resize`: they do not meet their obvious specification.
- Choking, interest and keep-alive bookkeeping beyond the fields that decide requests, and the sending of messages other than requests: only easy members.
- HTML and SVG output, chart scaling, the Mach-O loader, DWARF name tables, stack walking and the other programs and puzzles: plumbing, foreign calls or easy members.
- SHA-1 keeps its unrolled steps, factored into five methods of at most twenty steps; zeroising the local buffers and the return codes are not modelled.
- Bencode.Parser.Parse: a zeroed parser bumps the first slot before any row is there, so at least one slot must be reserved; the arrays left behind after an error are not described.
- Bencode.Parser.DumpValue: the output is the list of rows visited, not the JSON text.
- BencodeTheorems.RoundTrip: restricted to dictionaries of at most one pair or with a childless first value, because of the key check; `BencodeKeys.RoundTripIff` is the statement for all values of the format with non-empty strings.
- Metainfo.ComputeIsExact: `ceil` on doubles is exact integer ceiling; the piece length is a positive multiple of 2^14 and there are fewer than 2^32 blocks. Other piece lengths are the subject of `PieceNumbering.NumberingIff`.
- Ring.RingBuffer.constructor: capacities below 2^63, so that the unsigned index of a prepend is exact.
- PeerWire.DrainsFrames: streams of messages that a peer of this torrent may send, after the handshake.
- PeerReceive.OnRead: the messages are collected; handling them is modelled in `Swarm`.
- PeerReceive.Receive: starts after the handshake; frames have at most 16993 bytes, reads at most one read buffer.
- Swarm.OnPiece: for writes that succeed; after a failed or short write the block stays in flight for ever.
- Swarm.RunKeepsInv: torrents have no short last block, and answers are for downloading blocks; `SwarmRuns.AnswerKeepsInvIff` says what other answers do. To whom each block was asked is recorded for the proofs only.
- SwarmRuns.FinishableIff: checksum outcomes are inputs; which misread pieces happen to pass is a hypothesis, because the file contents are not modelled.
- PieceNumbering.NumberingIff: one checksum per piece, which the source does not check.
- BitArray.Bits.SetV: at most as many bytes as the buffer has; the assertion of the source compares them with the number of bits.
- Leb128.ReadLeb128Signed: the shift of `~0`, a negative `int`, is taken as two's complement, as compilers do, although ISO C left it undefined before C23.
- BruteForce.Search: the endless loop is cut off after a number of rounds given as a parameter.
- HashTable.Table.Find: what a lookup answers after growth is stated slot by slot only.
- HashTable.Table.constructor: at least four slots; with fewer the table fills up and a probe may never end.
- HashTable.Hash: the exclusive-or with a key byte is written on the low byte of the word, the only one it touches.
- AllocTrace.ParseInput: frames are already split and parsed, with negative or malformed arguments read as a fatal frame; time stamps and stack traces are not modelled, and after growth only the absence of assertion failures is stated.
- Pool.Pool.Free: the chunk is live, as the source demands of its callers; what freeing a free chunk does is `Pool.PushIsSound`.
- Pool.Pool.constructor: the rounding of the chunk size and the bounds of the pointer are not modelled; chunks are numbered and only their first word is kept.
- LineTable.RunProgram: the header, directory and file tables before the program are not parsed; the column, `is_stmt` and discriminator fields are not kept.
- LineAssembler.RowsComeBackIff: rows are appended by special opcodes; DW_LNS_copy, which appends one in DWARF 4, does nothing in this reader (crash-reporter/macho.h:1408-1410). Headers have an opcode base of at least 13 and a special opcode for every line increment in range and for none.
- SwarmHistory.AskedExactly: the idle handler may run at any time; when it is started and stopped is only told by the action each handler returns.
- LineTable.FindLine: the search for the function before it is not modelled.
