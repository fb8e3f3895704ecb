# leanSpec in Dafny

A model of the wire formats, Merkle trees, caches and gossip handlers of leanSpec, the Python
specification of a lean Ethereum consensus client, with proofs of what they are for: that what is encoded
is decoded back, that accepted bytes are canonical, that fast forms equal simple ones, that stream readers
do not depend on read boundaries, and that caches and protocol state keep their invariants over every run.

Code that only computes is modelled by functions. Code that loops or updates fields is modelled by methods
and classes, each proved equal to a function on values; the laws are then lemmas about that function.
`dafny verify dfyconfig.toml` checks everything.

The parts, bottom up:

- **Bytes, bits, varints.** `Bytes`, `Bits`, `Varint`.
- **SSZ.** `SszTypes` holds the type universe (uints, booleans, byte vectors and lists, bitvectors, bitlists,
  vectors, lists, containers, nested at will). `SszCodec` is the wire format, with a cursor and a byte budget
  for every nested reader. `SszRoundTrip`, `SszSize`, `SszFixed`,
  `SszLayout` and `SszCanonical` prove the laws. `ByteStreams`, `SszRows`,
  `SszWriter` and `SszReader` are the stream-based serialize and deserialize.
- **Merkle trees.** `Merkle`, `HashTreeRoot`, `RootShape`. The two-to-one hash is a parameter.
- **Snappy.** `SnappyTags`, `SnappyDecompress`, `SnappyCompress`, `SnappyLaws`, `SnappyRuns`, `Crc32c`,
  `CrcPolynomial`, `SnappyFraming`, `SnappyChunks`, `ByteWords`, `CrcDetection`.
- **Requests.** `NetworkConfig`, `ReqResp`: the codec and the streaming reader.
- **RLP.** `Rlp`.
- **Sync.** `CacheModel` and `BlockCache` (the cache as a value and as the class that refines it),
  `CacheOrphans`, `Listings`, `HeadSync`, `HeadOrder`.
- **Gossipsub.** `MessageCache`, `GossipModel` (handler steps and runs), `GossipBehavior` (the objects),
  `GossipServing`, `Protobuf`, `GossipRpc`, `RpcUnknown`, `RpcFraming`.
- **XMSS.** `XmssEncoding`.
- **Examples.** `WireExamples`: encodings that the repository gives byte for byte.

Where code and prose of the repository differ, the model follows the code:

- `head_sync.py` says that a cached block which fails to process is dropped; the code leaves it in the cache.
  `HeadSync.RefusedExactly` says exactly which blocks stay, `HeadSync.RefusedStaysCached` is such a case, and
  `HeadSync.HandedOnceInAll` says that no drain hands the block over again.
- A list of variable-size SSZ elements whose first offset is zero is not refused: one element is read from the
  whole budget, past the end of it. `SszCanonical.ZeroOffsetAcceptedInStream` gives the bytes,
  `SszCanonical.OverrunExactly` proves that this is the one way a read ends behind its budget, and
  `SszCanonical.Canonical` that the top-level byte count refuses every such input.
- The RLP decoder accepts a small byte written with a length prefix, a second encoding of the same item
  (`Rlp.SecondEncodingAccepted`). `Rlp.Canonical` says exactly which inputs re-encode to themselves.
- `_read_request` returns the raw bytes when the stream closes before a length prefix decodes.
  `ReqResp.RawBytesReturned` is such a stream, and `ReqResp.ReaderSound` gives the exact condition on the bytes
  that arrive.
- A string of 2^64 bytes or more would be written by the RLP encoder with a prefix that marks a list. No Python byte
  string is that long, so this bounds the law rather than the code; `Rlp.RoundTrip` says exactly which items come back.
- The gossipsub receive loop takes an over-long length prefix for an incomplete one and waits.
  `RpcFraming.StuckBehindAFrame` is such a stream, and `RpcFraming.StreamStallsExactly` says exactly when a stream
  can no longer advance.
- The varint decoder accepts padded encodings (`Varint.PaddedAccepted`); `Varint.Reencodes` says exactly which inputs
  re-encode to themselves.
- A four-byte Snappy copy offset is cut to 32 bits. `SnappyTags.WideOffsetCut` is a copy it changes, and
  `SnappyTags.CopyTagRoundTrip` says exactly when an offset survives.
- An RPC with an empty control, or a PRUNE with a negative backoff, does not come back as it was
  (`GossipRpc.ComesBackChanged`). `GossipRpc.RoundTripExact` says exactly when an RPC does.

## Model

| member | source | states |
|---|---|---|
| Bits.BitvectorRoundTrip | src/lean_spec/spec/ssz/bitfields.py:118-188 | Every bitvector is decoded back from its packed bytes. |
| Bits.BitvectorCanonical | src/lean_spec/spec/ssz/bitfields.py:134-188 | Accepted bytes re-encode to themselves, so set padding bits are refused. |
| Bits.PaddingIsBound | src/lean_spec/spec/ssz/bitfields.py:134-188 | The check of the last byte decides exactly whether the value fits in the declared number of bits. |
| Bits.BitlistRoundTrip | src/lean_spec/spec/ssz/bitfields.py:308-444 | Every bitlist within its limit is decoded back, found by its delimiter bit. |
| Bits.BitlistCanonical | src/lean_spec/spec/ssz/bitfields.py:349-444 | Accepted bytes re-encode to themselves and hold at most the limit of bits. |
| SszRoundTrip.FixedWidth | src/lean_spec/spec/ssz/collections.py:372-381 | A value of a fixed-size type always serializes, to exactly get_byte_length bytes. |
| SszRoundTrip.LeafRoundTrip | src/lean_spec/spec/ssz/uint.py:80-99 | Uints, booleans, byte arrays and bitfields are decoded back from their leaf encodings. |
| SszRoundTrip.RoundTripAt | src/lean_spec/spec/ssz/container.py:49-116 | Wherever an encoding lies in a stream, reading it with its own length as budget gives the value and stops right behind it. |
| SszRoundTrip.RoundTrip | src/lean_spec/spec/ssz/ssz_base.py:72-109 | decode_bytes of an encoding gives the value back, for every type. |
| SszSize.SizeLaw | src/lean_spec/spec/ssz/container.py:49-68 | A value whose encoding is under 2^32 bytes serializes, and the encoding has exactly the size counted from type and value. |
| SszSize.RoundTripBySize | src/lean_spec/spec/ssz/ssz_base.py:72-109 | Every value whose encoding is under 2^32 bytes is encoded and decoded back. |
| SszFixed.FixedExactly | src/lean_spec/spec/ssz/ssz_base.py:19-28 | A type counts as fixed-size exactly when all its values have one size, for types whose limits leave room for two lengths. |
| SszFixed.FixedBySerialization | src/lean_spec/spec/ssz/collections.py:9-10 | The same of the bytes written, for types whose values all serialize. |
| SszLayout.Layout | src/lean_spec/spec/ssz/collections.py:12-40 | In every encoded vector, list and container, a fixed-size field lies in its slot, and the slot of a variable-size one holds the position at which it lies: behind all slots and all payloads before it. |
| SszCanonical.Consumes | src/lean_spec/spec/ssz/collections.py:394-445 | A fixed-size read consumes its width, and a variable-size read never less than its budget. |
| SszCanonical.ZeroOffsetConsumes | src/lean_spec/spec/ssz/collections.py:559-625 | A list read through a zero first offset runs past its budget. |
| SszCanonical.RowExact | src/lean_spec/spec/ssz/container.py:72-116 | A row of fields whose payloads take no more than their spans re-serializes to the leading part and the payloads that were read. |
| SszCanonical.Exact | src/lean_spec/spec/ssz/collections.py:559-625 | A read that takes exactly its budget yields a well-typed value whose encoding is the bytes it read. |
| SszCanonical.OverrunExactly | src/lean_spec/spec/ssz/collections.py:559-625 | Anywhere in a stream, a read of a variable-size type ends right behind its budget exactly when no zero first offset was taken, in it or in a nested read; otherwise later. |
| SszCanonical.Canonical | src/lean_spec/spec/ssz/ssz_base.py:84-109 | Every byte string that decode_bytes accepts is the one encoding of the value it returns, and no zero first offset was taken in reading it. |
| SszCanonical.DecodeInjective | src/lean_spec/spec/ssz/ssz_base.py:84-109 | No two byte strings decode to the same value. |
| SszCanonical.ZeroOffsetAcceptedInStream | src/lean_spec/spec/ssz/collections.py:602-625 | Bytes that deserialize accepts with a zero first offset, and decode_bytes refuses. |
| ByteStreams.ByteStream.Read | src/lean_spec/spec/ssz/ssz_base.py:100-109 | A read returns the bytes at the cursor, fewer at the end of the data, and moves the cursor behind them. |
| SszWriter.WriteFixed | src/lean_spec/spec/ssz/collections.py:384-390 | Fixed-size elements back to back are the row encoding, and the sum returned is the number of bytes written. |
| SszWriter.WritePayload | src/lean_spec/spec/ssz/collections.py:212-239 | Offset table, then buffered bodies: the row encoding; the final offset returned is the number of bytes written; fails exactly when an offset is not a Uint32. |
| SszWriter.WriteContainer | src/lean_spec/spec/ssz/container.py:49-68 | Leading part to the stream and tail after it: the row encoding, with the number of bytes written. |
| SszWriter.SerializeTo | src/lean_spec/spec/ssz/ssz_base.py:45-55 | For every type, the encoding is appended to the stream and its length returned, or both fail. |
| SszWriter.EncodeBytes | src/lean_spec/spec/ssz/ssz_base.py:72-81 | The bytes collected in a stream are the encoding. |
| SszReader.FixedRow | src/lean_spec/spec/ssz/collections.py:407-418 | Reading n fixed-size elements one by one equals reading a row of n fields. |
| SszReader.VariableRow | src/lean_spec/spec/ssz/collections.py:420-445 | Reading an offset table and then each span equals reading a row of n fields. |
| SszReader.SpansMonotone | src/lean_spec/spec/ssz/collections.py:55-88 | Spans can be read only when no offset falls below the one before it, so checking first changes no outcome. |
| SszReader.ValidateOffsets | src/lean_spec/spec/ssz/collections.py:55-88 | True exactly when the bounds never fall and the last stays within the budget. |
| SszReader.ReadVector | src/lean_spec/spec/ssz/collections.py:394-445 | Same value and cursor as deserialize on values, and fails on the same inputs. |
| SszReader.ReadList | src/lean_spec/spec/ssz/collections.py:559-625 | Same value and cursor as deserialize on values, for empty, fixed-size and variable-size lists. |
| SszReader.ReadLeading | src/lean_spec/spec/ssz/container.py:74-89 | Phase 1 reads fixed fields and notes offsets in order; the byte count is the width of the leading part. |
| SszReader.ReadPayloads | src/lean_spec/spec/ssz/container.py:104-116 | Phase 2 reads every payload from its offset to the next, the budget closing the last span. |
| SszReader.ReadContainer | src/lean_spec/spec/ssz/container.py:72-116 | Both phases and the check of the first offset give what the row reader gives. |
| SszReader.DeserializeFrom | src/lean_spec/spec/ssz/ssz_base.py:59-70 | For every type, same value and cursor as deserialize on values, or both fail. |
| SszReader.DecodeAll | src/lean_spec/spec/ssz/ssz_base.py:84-109 | Accepts exactly what decode_bytes accepts, leftover bytes refused, with the same value. |
| Merkle.NextPow2Smallest | src/lean_spec/spec/crypto/merkleization.py:28-36 | The result is a power of two at least x, and no smaller power of two is. |
| Merkle.ZeroHashes | src/lean_spec/spec/crypto/merkleization.py:38-53 | Entry d of the table is the root of a perfect tree of 2^d zero leaves, for d up to 64. |
| Merkle.ZeroTreeRoot | src/lean_spec/spec/crypto/merkleization.py:56-75 | The table lookup is the root of the all-zero tree of that width. |
| Merkle.PerfectRootByLayers | src/lean_spec/spec/crypto/merkleization.py:78-136 | Hashing one layer up does not change the root of a perfect tree. |
| Merkle.PadUp | src/lean_spec/spec/crypto/merkleization.py:78-136 | Padding with zero subtrees commutes with going up a layer. |
| Merkle.NextLevelLoop | src/lean_spec/spec/crypto/merkleization.py:122-130 | A layer's pairs are hashed in order, a missing right sibling replaced by the filler. |
| Merkle.ClimbLoop | src/lean_spec/spec/crypto/merkleization.py:116-136 | The layer loop ends with one node, the root of the perfect tree over the chunks and zero leaves. |
| Merkle.MerkleizeLoop | src/lean_spec/spec/crypto/merkleization.py:78-136 | The sparse computation equals the dense tree of width next_pow2(limit), and fails exactly when the chunks exceed the limit. |
| HashTreeRoot.BitsInjective | src/lean_spec/spec/crypto/merkleization.py:179-197 | Equally many bits packed to equal chunks are equal bits. |
| HashTreeRoot.DenseBinding | src/lean_spec/spec/crypto/merkleization.py:78-136 | Equally many leaves with one root are equal, or the two trees hash different pairs to one value. |
| HashTreeRoot.Binding | src/lean_spec/spec/crypto/merkleization.py:139-286 | Two values of one type with equal roots are equal, or a pair hashed for one collides with a different pair hashed for the other. |
| RootShape.RoomExact | src/lean_spec/spec/crypto/merkleization.py:225-286 | The tree has room for the leaves of every value of the type, and for no more: some value fills it. |
| RootShape.MixedExactly | src/lean_spec/spec/crypto/merkleization.py:139-286 | The length mixed in is the value's, and one is mixed in exactly where a type has values of several lengths or the limit is zero. |
| RootShape.PackedAt | src/lean_spec/spec/crypto/merkleization.py:161-176 | Byte i of the data is byte i mod 32 of chunk i / 32, and the rest of the last chunk is zero. |
| RootShape.PackedLeaves | src/lean_spec/spec/crypto/merkleization.py:211-276 | For scalars, byte strings, bitvectors, and vectors and lists of uints or booleans, the leaves are the chunks of the serialized value. |
| RootShape.BitlistLeaves | src/lean_spec/spec/crypto/merkleization.py:242-248 | A bitlist has the leaves of the bitvector of its bits, without the delimiter. |
| RootShape.RootLeaves | src/lean_spec/spec/crypto/merkleization.py:251-286 | All other vectors, lists and containers have one leaf per element or field, in order: its root. |
| RootShape.ShortByteList | src/lean_spec/spec/crypto/merkleization.py:226-232 | A byte list with a limit of one chunk hashes to that chunk paired with its length. |
| RootShape.PairContainer | src/lean_spec/spec/crypto/merkleization.py:282-286 | A container of two fields hashes to the pair of their roots, in order. |
| Varint.EncodeVarint | src/lean_spec/node/networking/varint.py:117-170 | The shifting loop writes seven bits a byte, low group first, and refuses what does not fit. |
| Varint.DecodeVarint | src/lean_spec/node/networking/varint.py:173-234 | The accumulating loop gives value and byte count, or truncated, or too long. |
| Varint.EncodeAccepts | src/lean_spec/node/networking/varint.py:144-149 | Exactly the values below 128^max_bytes are accepted. |
| Varint.RoundTrip | src/lean_spec/node/networking/varint.py:117-234 | An encoded value is read back with its exact byte count, whatever follows. |
| Varint.PrefixTruncated | src/lean_spec/node/networking/varint.py:173-234 | A proper prefix of an encoding is reported as truncated, never as another value. |
| Varint.DecodeStable | src/lean_spec/node/networking/varint.py:173-234 | A decode does not depend on the bytes behind what it consumes. |
| Varint.Reencodes | src/lean_spec/node/networking/varint.py:173-234 | A decoded value re-encodes in no more bytes, and to the bytes read exactly when the last of several is not zero. |
| Varint.PaddedAccepted | src/lean_spec/node/networking/varint.py:173-234 | Two bytes that decode to a value whose encoding is one byte. |
| Varint.TooLongExactly | src/lean_spec/node/networking/varint.py:173-234 | Rejected as too long exactly when the first max_bytes bytes all carry the continuation bit. |
| WireExamples.VarintOf300 | src/lean_spec/node/networking/varint.py:40-69 | The documented example: 300 is written AC 02 and read back from them. |
| SnappyTags.LiteralTagRoundTrip | src/lean_spec/node/snappy/encoding.py:81-149 | Every literal length that has a tag is read back, with the tag's length. |
| SnappyTags.CopyTagRoundTrip | src/lean_spec/node/snappy/encoding.py:301-395 | Every copy that has a tag is read back exactly when its offset is below 2^32. |
| SnappyTags.WideOffsetCut | src/lean_spec/node/snappy/encoding.py:378-395 | A copy with offset 2^32 + 1 whose tag reads back as offset 1. |
| SnappyTags.LiteralTagShortest | src/lean_spec/node/snappy/encoding.py:81-149 | No tag that decodes to a literal is shorter than the one encoded for its length. |
| SnappyTags.CopyTagShortest | src/lean_spec/node/snappy/encoding.py:301-395 | No tag that decodes to a copy with a positive offset is shorter than the one encoded for it. |
| WireExamples.TagExamples | src/lean_spec/node/snappy/encoding.py:67-280 | The documented examples: two literal tags and two copy tags, byte for byte. |
| SnappyDecompress.ExecuteCopy | src/lean_spec/node/snappy/decompress.py:196-273 | Byte by byte, so that a copy may overlap its own output; refuses bad offsets and overruns. |
| SnappyDecompress.DecompressBytes | src/lean_spec/node/snappy/decompress.py:83-193 | The element loop computes decompression as defined on values, including every error. |
| SnappyCompress.ExtendMatch | src/lean_spec/node/snappy/compress.py:381-431 | The match agrees on every byte and is maximal: 64 bytes, the end of the data, or a differing byte. |
| SnappyCompress.TableBits | src/lean_spec/node/snappy/compress.py:259-280 | The smallest table size in range with a slot for every four bytes of the block, or the largest size. |
| SnappyCompress.CompressBlockLoop | src/lean_spec/node/snappy/compress.py:151-256 | The loop with a mutable hash table computes block compression as defined on values. |
| SnappyCompress.CompressBytes | src/lean_spec/node/snappy/compress.py:78-124 | Length prefix and 64 KiB blocks, as defined on values. |
| SnappyLaws.ScanDecodes | src/lean_spec/node/snappy/compress.py:151-256 | Whatever the hash table holds, decompressing what the matcher emits gives the block. |
| SnappyLaws.CompressAccepts | src/lean_spec/node/snappy/compress.py:78-124 | Exactly the inputs shorter than 2^35 bytes are accepted. |
| SnappyLaws.RoundTrip | src/lean_spec/node/snappy/compress.py:78-256 | decompress(compress(data)) is data, for every accepted input. |
| SnappyLaws.TrailingIgnored | src/lean_spec/node/snappy/decompress.py:83-193 | Bytes behind a complete stream, whose declared length has been reached, change nothing. |
| SnappyLaws.ScanSize | src/lean_spec/node/snappy/compress.py:151-256 | The overhead of literal tags is paid for by the copies between them. |
| SnappyLaws.SizeBound | src/lean_spec/node/snappy/compress.py:127-148 | Output stays within max_compressed_length, and within the tighter 6 + n + n/30. |
| SnappyRuns.RunsCompress | src/lean_spec/node/snappy/compress.py:151-256 | A run of n equal bytes compresses to at most n/15 + 29 bytes: repeats are found, and matches extended. |
| SnappyRuns.FillEnters | src/lean_spec/node/snappy/compress.py:232-245 | Every second position inside a match is entered into the table: its slot holds it or a later position. |
| SnappyRuns.ShortBlock | src/lean_spec/node/snappy/compress.py:151-256 | A block of at most 16 bytes is one literal, whatever it holds. |
| SnappyRuns.RunOf17 | src/lean_spec/node/snappy/compress.py:151-256 | A run of 17 bytes is its first byte and a copy of 16 from one byte back, byte for byte. |
| SnappyRuns.HashOfOne | src/lean_spec/node/snappy/compress.py:283-338 | Four bytes that read as one hash, at full width, to the multiplier 0x1E35A7BD. |
| Crc32c.Crc32cTable | src/lean_spec/node/snappy/framing.py:140-167 | Every entry is its index put through eight bit steps. |
| Crc32c.TableStep | src/lean_spec/node/snappy/framing.py:174-201 | One table lookup advances the register as eight bit steps do. |
| Crc32c.Crc32cLoop | src/lean_spec/node/snappy/framing.py:174-201 | The table-driven CRC equals the bit-at-a-time Castagnoli CRC on every byte string. |
| Crc32c.MaskBijection | src/lean_spec/node/snappy/framing.py:204-227 | Masking, with its untruncated shift, is a bijection on 32-bit values, given with its inverse. |
| CrcPolynomial.PolyIsGenerator | src/lean_spec/node/snappy/framing.py:132-165 | The constant in the loop is the Castagnoli polynomial 0x1EDC6F41, written by its exponents, bit-reversed. |
| CrcPolynomial.CrcIsRemainder | src/lean_spec/node/snappy/framing.py:174-201 | The CRC of any byte string is the remainder, on long division by that polynomial, of the message bits times x^32 with the first 32 inverted, itself inverted. |
| CrcPolynomial.CheckValue | src/lean_spec/node/snappy/framing.py:174-201 | The CRC of the nine digits 1 to 9 is 0xE3069283. |
| SnappyFraming.FrameCompressBytes | src/lean_spec/node/snappy/framing.py:230-301 | The chunk loop writes the stream as defined on values. |
| SnappyFraming.FrameDecompressBytes | src/lean_spec/node/snappy/framing.py:304-468 | The chunk loop reads a stream as defined on values, with the same inputs refused. |
| SnappyFraming.RoundTrip | src/lean_spec/node/snappy/framing.py:230-468 | frame_decompress(frame_compress(x)) is x, for every x. |
| SnappyFraming.Concatenation | src/lean_spec/node/snappy/framing.py:304-468 | Two accepted streams in a row give their outputs in a row. |
| SnappyFraming.PrefixIsShort | src/lean_spec/node/snappy/framing.py:304-468 | No proper prefix of a stream decompresses to as many bytes as the stream. |
| SnappyChunks.ReservedChunk | src/lean_spec/node/snappy/framing.py:304-468 | After any accepted stream, a chunk of type 0x80-0xFE changes nothing, whatever follows it, and one of type 0x02-0x7F gets the stream refused; an identifier chunk is skipped with the magic bytes and refused with others. |
| SnappyChunks.ChunkWithinLimit | src/lean_spec/node/snappy/framing.py:304-468 | No accepted chunk yields more than 65536 bytes. |
| SnappyChunks.ChunksCut | src/lean_spec/node/snappy/framing.py:256-299 | Data is cut after every 65536 bytes, and a chunk is stored compressed exactly when that is shorter. |
| SnappyChunks.FrameOfZero | src/lean_spec/node/snappy/framing.py:204-301 | The stream of a single zero byte, byte for byte. |
| CrcDetection.BurstDetected | src/lean_spec/node/snappy/framing.py:174-201 | Messages that differ only within four consecutive bytes have different CRCs. |
| CrcDetection.CorruptChunkRefused | src/lean_spec/node/snappy/framing.py:304-468 | A chunk, compressed or not, whose payload differs within four bytes from the one its checksum was taken of is refused. |
| CrcDetection.CorruptStreamRefused | src/lean_spec/node/snappy/framing.py:304-468 | A stream with an uncompressed chunk so changed is refused, whatever precedes and follows the chunk. |
| ReqResp.CodecRoundTrip | src/lean_spec/node/networking/reqresp/codec.py:95-331 | Requests, and responses of every code, are decoded back up to the payload limit. |
| ReqResp.AnyCode | src/lean_spec/node/networking/reqresp/codec.py:289-331 | A framed payload behind any code byte: the four codes, 4-127 read as server error, 128-255 as invalid request. |
| ReqResp.WithinLimit | src/lean_spec/node/networking/reqresp/codec.py:95-205 | Exactly payloads up to 10 MiB are encoded, and no longer one is ever decoded. |
| ReqResp.OverlongRefused | src/lean_spec/node/networking/reqresp/handler.py:428-507 | A length prefix of more than ten bytes is refused, and a body above declared + declared/6 + 1024 bytes is given up. |
| ReqResp.ReadRequestLoop | src/lean_spec/node/networking/reqresp/handler.py:428-507 | The two reading loops give the result, and leave the chunks unread, that the definition on values does. |
| ReqResp.StreamingRead | src/lean_spec/node/networking/reqresp/handler.py:428-507 | However an encoded request is cut into chunks, the reader returns the payload, after the last chunk and not before. |
| ReqResp.ReaderSound | src/lean_spec/node/networking/reqresp/handler.py:428-507 | On any chunks, the result is empty or what decode_request makes of the bytes read, exactly when nothing arrives or a length prefix decodes before the stream closes; otherwise it is all the bytes that arrived. |
| ReqResp.RawBytesReturned | src/lean_spec/node/networking/reqresp/handler.py:450-455 | A one-byte stream that comes back raw and decodes to no request. |
| Rlp.PrefixAccepts | src/lean_spec/node/networking/enr/rlp.py:110-157 | The prefix is a byte exactly for list payloads under 2^64 bytes and strings under 2^576. |
| Rlp.DecodeItemLoop | src/lean_spec/node/networking/enr/rlp.py:218-289 | The cursor loop over list items decodes as defined on values, with the same inputs refused. |
| Rlp.RoundTrip | src/lean_spec/node/networking/enr/rlp.py:64-182 | Of the items that have an encoding, at any nesting, exactly the lists and the strings under 2^64 bytes are decoded back. |
| Rlp.Canonical | src/lean_spec/node/networking/enr/rlp.py:160-383 | Re-encoding an accepted input is never longer, and gives the same bytes exactly when no byte below 0x80 was written with prefix 0x81. |
| Rlp.SecondEncodingAccepted | src/lean_spec/node/networking/enr/rlp.py:218-289 | Two bytes that decode to an item whose encoding is one byte. |
| WireExamples.RlpList | tests/node/networking/enr/test_rlp.py:183-188 | A nested list, byte for byte. |
| WireExamples.RlpLongString | tests/node/networking/enr/test_rlp.py:144-154 | Every string of 1024 bytes has the prefix B9 04 00. |
| CacheModel.RunKeeps | src/lean_spec/node/sync/block_cache.py:63-145 | After any run the cache is within MAX_CACHED_BLOCKS, holds no block twice, and only cached blocks are orphans. |
| CacheModel.EvictionOrphansChildren | src/lean_spec/node/sync/block_cache.py:63-114 | Adding at the limit evicts the oldest block, and its cached children are exactly the new orphans. |
| CacheOrphans.OrphanExactly | src/lean_spec/node/sync/block_cache.py:63-145 | After any run, a block is an orphan exactly when some operation marked it, or evicted its parent, and it has been cached ever since. |
| CacheModel.StrictFifo | src/lean_spec/node/sync/block_cache.py:63-145 | After any run, with each block stamped by the operation that last inserted it, evicted blocks in order of eviction followed by cached ones rise strictly, also for blocks removed and added again. |
| CacheModel.RunFifo | src/lean_spec/node/sync/block_cache.py:63-136 | Nothing is lost: apart from removed roots, evicted blocks followed by cached ones are all the inserted ones in order. |
| CacheModel.FifoQueue | src/lean_spec/node/sync/block_cache.py:63-114 | Without removals the cache is a first-in-first-out queue, even under re-adds. |
| CacheModel.NewestKept | src/lean_spec/node/sync/block_cache.py:63-114 | Without removals the cache holds exactly the newest 1024 inserted blocks, or all of them when there are fewer. |
| BlockCache.BlockCache.Add | src/lean_spec/node/sync/block_cache.py:63-114 | Takes the step of the model, keeps the parent index exact, and returns the existing entry on a re-add. |
| BlockCache.BlockCache.Remove | src/lean_spec/node/sync/block_cache.py:116-136 | Takes the step of the model in the dict, the orphan set and the parent index, with no empty entry left. |
| BlockCache.BlockCache.MarkOrphan | src/lean_spec/node/sync/block_cache.py:138-145 | Marks cached blocks only. |
| BlockCache.BlockCache.GetChildren | src/lean_spec/node/sync/block_cache.py:147-152 | Exactly the cached children of a parent, each once, sorted by slot. |
| HeadSync.Drain | src/lean_spec/node/sync/head_sync.py:97-118 | The worklist ends and leaves store and cache as the log of blocks handed over says. |
| HeadOrder.SiblingsBySlot | src/lean_spec/node/sync/head_sync.py:97-118 | Blocks of one parent are handed over by rising slot. |
| HeadOrder.ParentsInTurn | src/lean_spec/node/sync/head_sync.py:97-118 | Of two accepted blocks, all children of the one handed over first come before any child of the other. |
| HeadOrder.NewBlockFirst | src/lean_spec/node/sync/head_sync.py:97-118 | The children of the new block come before all others. |
| HeadSync.HeadSync.OnGossipBlock | src/lean_spec/node/sync/head_sync.py:33-118 | Each of the four outcomes of a gossip block: skipped, cached as an orphan, refused, or stored and drained. |
| HeadSync.HandedWithParent | src/lean_spec/node/sync/head_sync.py:97-118 | A cached block is handed to process_block at most once, and only with its parent in the store. |
| HeadSync.DrainGains | src/lean_spec/node/sync/head_sync.py:97-118 | The store gains exactly the accepted blocks, which leave the cache; exactly the cached children of stored blocks were handed over. |
| HeadSync.AcceptedReachable | src/lean_spec/node/sync/head_sync.py:97-118 | The accepted blocks are the least set reachable from the new block through successful ones. |
| HeadSync.HandedWhenParentLands | src/lean_spec/node/sync/head_sync.py:33-118 | A cached block is handed over by the very call that newly stores its parent. |
| HeadSync.HandedOnceInAll | src/lean_spec/node/sync/head_sync.py:33-118 | Over any sequence of gossip blocks, whatever else happens to the cache, no block is handed over twice by all drains together. |
| HeadSync.RefusedExactly | src/lean_spec/node/sync/head_sync.py:102-117 | A block that a drain handed over is still cached at its end exactly when process_block refused it at its turn. |
| HeadSync.RefusedStaysCached | src/lean_spec/node/sync/head_sync.py:106-115 | An input on which every drain hands over one child, keeps it cached and leaves the store unchanged. |
| HeadSync.RefusedReached | src/lean_spec/node/sync/head_sync.py:106-115 | The outcome of the drain on that input. |
| MessageCache.RunKeeps | src/lean_spec/node/networking/gossipsub/mcache.py:137-235 | After any run the windows are pairwise disjoint and their union is exactly the id index. |
| MessageCache.Lifetime | src/lean_spec/node/networking/gossipsub/mcache.py:137-235 | A message is retrievable through length - 1 shifts and gone after the next, and advertised exactly while fewer than mcache_gossip shifts have passed. |
| MessageCache.Retrievable | src/lean_spec/node/networking/gossipsub/mcache.py:137-235 | In any run from an empty cache, a message is retrievable exactly while fewer than mcache_length shifts have passed since it was put. |
| MessageCache.MessageCache.Put | src/lean_spec/node/networking/gossipsub/mcache.py:137-158 | A new id enters the newest window and the index; a known one changes nothing. |
| MessageCache.MessageCache.Get | src/lean_spec/node/networking/gossipsub/mcache.py:160-173 | A message is found exactly when some window still holds its id. |
| MessageCache.MessageCache.GetGossipIds | src/lean_spec/node/networking/gossipsub/mcache.py:187-210 | The ids of the topic in the newest windows, each once. |
| MessageCache.MessageCache.Shift | src/lean_spec/node/networking/gossipsub/mcache.py:212-235 | Every window ages by one, the oldest falls off with its messages, and their number is returned. |
| GossipModel.DeliveriesSpaced | src/lean_spec/node/networking/gossipsub/behavior.py:600-668 | In any interleaving of handlers and heartbeats, two deliveries or publications of one id are more than the seen TTL apart. |
| GossipModel.SeenExactly | src/lean_spec/node/networking/gossipsub/mcache.py:272-320 | After any run, an id is in the seen cache with time t exactly when a step accepted it at t and no later heartbeat started after t + TTL. |
| GossipModel.SuppressedExactly | src/lean_spec/node/networking/gossipsub/behavior.py:600-668 | An acceptable message is suppressed exactly when the run accepted its id at some time t and no later heartbeat started after t + TTL; otherwise it is delivered. |
| GossipModel.ServeExact | src/lean_spec/node/networking/gossipsub/behavior.py:766-800 | A cached id is sent as often as it is asked for, up to what is left of its budget; an id that is not cached, never. |
| GossipModel.RetransmissionBound | src/lean_spec/node/networking/gossipsub/behavior.py:766-871 | After any run, between heartbeat resets, a connected peer is sent one id at most GOSSIP_RETRANSMISSION times. |
| GossipServing.AcceptedIsCached | src/lean_spec/node/networking/gossipsub/behavior.py:600-668 | In any run from an empty node, an accepted message is cached with its topic and raw data while fewer than mcache_length heartbeats have followed, and, unless accepted again, no longer. |
| GossipServing.AskedIsServed | src/lean_spec/node/networking/gossipsub/behavior.py:766-800 | An IWANT for an id, from a connected peer with budget left, is answered exactly when the id is cached. |
| GossipServing.AcceptedIsServed | src/lean_spec/node/networking/gossipsub/behavior.py:600-800 | A connected peer with budget left that asks for an accepted message gets it within mcache_length heartbeats, and, unless it is accepted again, not after them. |
| GossipServing.SentIsDelivered | src/lean_spec/node/networking/gossipsub/behavior.py:600-668 | A payload sent compressed is delivered decompressed, under the id of the valid domain, exactly when its topic is not empty and subscribed, it is within 10 MiB and its id is unseen; otherwise nothing changes. |
| GossipServing.RawIsDelivered | src/lean_spec/node/networking/gossipsub/behavior.py:600-668 | Data that does not decompress is delivered as it is, under the id of the invalid domain, on the same conditions. |
| GossipServing.PublishedIsRemembered | src/lean_spec/node/networking/gossipsub/behavior.py:477-508 | A message is published, under the id of its domain, exactly when the id is unseen; otherwise nothing changes. |
| GossipServing.FullBudget | src/lean_spec/node/networking/gossipsub/behavior.py:766-871 | After connecting, or after a heartbeat, a peer gets a cached message as often as the first 5000 ids of its request name it, at most three times. |
| GossipServing.DisconnectedGetsNothing | src/lean_spec/node/networking/gossipsub/behavior.py:766-800 | After a peer has disconnected, nothing is sent to it in any run in which it does not connect again. |
| GossipBehavior.SeenCache.Add | src/lean_spec/node/networking/gossipsub/mcache.py:272-287 | The first timestamp of an id stays. |
| GossipBehavior.SeenCache.Expire | src/lean_spec/node/networking/gossipsub/mcache.py:301-320 | Exactly the entries older than the TTL go, and their number is returned. |
| GossipBehavior.Behavior.HandleMessage | src/lean_spec/node/networking/gossipsub/behavior.py:600-668 | Takes the receive step of the model on both caches and delivers the decompressed data. |
| GossipBehavior.Behavior.PublishMessage | src/lean_spec/node/networking/gossipsub/behavior.py:477-508 | Takes the publish step of the model on both caches. |
| GossipBehavior.ServeLoop | src/lean_spec/node/networking/gossipsub/behavior.py:779-796 | The loop over requested ids serves and charges as the model does, each reply being the cached message of its id. |
| GossipBehavior.Behavior.HandleIWant | src/lean_spec/node/networking/gossipsub/behavior.py:766-800 | Takes the IWANT step of the model and replies with cached messages only. |
| GossipBehavior.Behavior.AgeCaches | src/lean_spec/node/networking/gossipsub/behavior.py:862-871 | Takes the heartbeat step of the model: message cache shifted, seen cache expired, all budgets cleared. |
| Protobuf.ReadField | src/lean_spec/node/networking/gossipsub/rpc.py:66-98 | Reads or skips one field by wire type, with bounds checked on length-delimited fields only. |
| Protobuf.DecodeLoop | src/lean_spec/node/networking/gossipsub/rpc.py:533-555 | The decode loop, for any field handler, equals splitting into fields and handling them in order. |
| Protobuf.AppendRepeated | src/lean_spec/node/networking/gossipsub/rpc.py:509-530 | The encode loop appends one length-delimited field per element, or fails when a length does not fit its varint. |
| Protobuf.DecodeRepeated | src/lean_spec/node/networking/gossipsub/rpc.py:101-123 | An encoded repeated field takes any decoder through one step per element, whatever follows. |
| GossipRpc.SubRoundTrip | src/lean_spec/node/networking/gossipsub/rpc.py:136-164 | A subscription option is decoded back. |
| GossipRpc.MessageRoundTrip | src/lean_spec/node/networking/gossipsub/rpc.py:189-235 | A message with any of its six fields empty is decoded back. |
| GossipRpc.PruneRoundTrip | src/lean_spec/node/networking/gossipsub/rpc.py:358-387 | A PRUNE is decoded back, a backoff that is not positive as zero. |
| GossipRpc.ControlRoundTrip | src/lean_spec/node/networking/gossipsub/rpc.py:442-484 | A control message with lists of all five kinds is decoded back. |
| GossipRpc.RoundTrip | src/lean_spec/node/networking/gossipsub/rpc.py:509-555 | An encoded RPC is decoded back, an empty control as absent. |
| GossipRpc.RoundTripExact | src/lean_spec/node/networking/gossipsub/rpc.py:509-555 | It comes back unchanged exactly when its control is absent, or not empty and without a negative backoff. |
| GossipRpc.ComesBackChanged | src/lean_spec/node/networking/gossipsub/rpc.py:509-555 | An RPC with an empty control and one with a negative backoff, and what they come back as. |
| RpcUnknown.FixedSkipped | src/lean_spec/node/networking/gossipsub/rpc.py:579-599 | A fixed32 or fixed64 field with any number, inserted between fields, changes the result of none of the eight decoders. |
| RpcUnknown.UnknownNumSkipped | src/lean_spec/node/networking/gossipsub/rpc.py:533-555 | Neither does a varint field with a number that the decoder does not know. |
| RpcUnknown.UnknownSkipped | src/lean_spec/node/networking/gossipsub/rpc.py:533-555 | Nor a length-delimited field with a number that the decoder does not know, for each of the eight decoders. |
| RpcUnknown.MalformedRefused | src/lean_spec/node/networking/gossipsub/rpc.py:533-555 | An RPC with a subscription, message or control that does not decode is refused, whatever surrounds it. |
| RpcUnknown.UnknownWireRefused | src/lean_spec/node/networking/gossipsub/rpc.py:579-599 | An RPC with a field of wire type 3, 4, 6 or 7 is refused. |
| RpcUnknown.MalformedControlRefused | src/lean_spec/node/networking/gossipsub/rpc.py:461-484 | So is a control with a member of any of the five kinds that does not decode. |
| RpcUnknown.FixedAround | src/lean_spec/node/networking/gossipsub/rpc.py:509-555 | An encoded RPC with a fixed-width field in front or behind is decoded back. |
| WireExamples.MessageExample | src/lean_spec/node/networking/gossipsub/rpc.py:189-208 | The six fields of a message are numbered 1 to 6 in order, each with its length. |
| WireExamples.ControlExample | src/lean_spec/node/networking/gossipsub/rpc.py:442-460 | IHAVE, IWANT, GRAFT, PRUNE and IDONTWANT are fields 1 to 5, with the numbers of their own fields. |
| WireExamples.RpcExample | src/lean_spec/node/networking/gossipsub/rpc.py:509-530 | Subscriptions, messages and control are fields 1 to 3 of an RPC. |
| RpcFraming.DrainBuffer | src/lean_spec/node/networking/gossipsub/behavior.py:1006-1034 | The inner loop takes complete frames, skips those that do not decode, and stops at a partial or oversized one. |
| RpcFraming.ReceiveLoop | src/lean_spec/node/networking/gossipsub/behavior.py:991-1042 | The outer loop hands over the RPCs of the frames that its reads complete, until the stream closes or is refused. |
| RpcFraming.ChunkIndependence | src/lean_spec/node/networking/gossipsub/behavior.py:991-1034 | Frames, and refusal, depend on the bytes received and not on how they were split. |
| RpcFraming.StallsExactly | src/lean_spec/node/networking/gossipsub/behavior.py:1006-1024 | Some further bytes complete a frame, or get the stream refused, exactly when the buffer does not start with ten continuation bytes. |
| RpcFraming.StreamStallsExactly | src/lean_spec/node/networking/gossipsub/behavior.py:991-1034 | After any reads, the stream can still yield a frame or be refused exactly when the bytes left over do not start with ten continuation bytes. |
| RpcFraming.OverlongPrefixWaits | src/lean_spec/node/networking/gossipsub/behavior.py:1006-1012 | Behind an over-long length prefix, after any frames and whatever follows, no frame is added, the stream is not refused, and the buffer keeps every byte. |
| RpcFraming.StuckBehindAFrame | src/lean_spec/node/networking/gossipsub/behavior.py:1006-1012 | A read with one frame and ten continuation bytes, from which the frame is taken and the rest kept. |
| RpcFraming.SentArrives | src/lean_spec/node/networking/gossipsub/behavior.py:949-1042 | However it is split, a stream of sent RPCs is decoded in order up to the first above the size limit, and refused exactly when there is one. |
| XmssEncoding.AbortingDecode | src/lean_spec/spec/crypto/xmss/encoding.py:82-111 | The two loops compute the decode as defined on values. |
| XmssEncoding.OnlyTopRejected | src/lean_spec/spec/crypto/xmss/encoding.py:82-111 | A vector of field elements is rejected exactly when P - 1 is among them. |
| XmssEncoding.ElementDigits | src/lean_spec/spec/crypto/xmss/encoding.py:32-46 | The digits of an accepted element, least significant first, number the group of Q consecutive integers that holds it. |
| XmssEncoding.ElementEquidistribution | src/lean_spec/spec/crypto/xmss/constants.py:62-71 | With Q * BASE^Z = P - 1, exactly Q field elements decode to each vector of Z digits. |
| XmssEncoding.CodewordEquidistribution | src/lean_spec/spec/crypto/xmss/encoding.py:82-111 | Every codeword has the same number of vectors that decode to it, Q^m * BASE^(m*Z - DIMENSION). |
| XmssEncoding.EncodedCodeword | src/lean_spec/spec/crypto/xmss/encoding.py:147-182 | A codeword that is accepted has DIMENSION digits below BASE and the target sum. |
| XmssEncoding.LayerEquidistribution | src/lean_spec/spec/crypto/xmss/encoding.py:147-182 | A codeword with the target sum is encoded by exactly Q^m * BASE^(m*Z - DIMENSION) vectors, one with another sum by none. |
| XmssEncoding.LayerExamples | src/lean_spec/spec/crypto/xmss/encoding.py:15-18 | The documented examples: with target sum 6, the digits 5, 0, 1, 0 are accepted and 2, 2, 2, 2 are not. |
| XmssEncoding.Incomparable | src/lean_spec/spec/crypto/xmss/encoding.py:147-182 | Of two different accepted codewords, each has a digit above the other's. |

## Left out

- Fork choice, state transition and block containers: `process_block` is an arbitrary partial step that adds the block's root to the store.
- SHA-256, Poseidon, secp256k1, keccak and the aggregation prover: the Merkle hash and the message-id hash are parameters, and XMSS decoding starts from the hash output.
- The XMSS key, tree and signature interface, and the rejection-sampling loop of the signer.
- Pydantic coercion and validation of inputs, JSON and hex forms, operator overloads, the field-element type Fp and the fixed-size override on XMSS signatures.
- QUIC, asyncio, HTTP, the CLI, logging and metrics: a stream is a sequence of chunks, the clock a non-decreasing reading passed in, and a handler a step that is not interrupted.
- SQLite storage, checkpoint sync, backfill sync, peer scoring, mesh sampling, GRAFT, PRUNE, IHAVE and IDONTWANT handling: I/O, random choice or short branches.
- Kinds and texts of errors: SSZ, Snappy and RLP failures are each one error value; which inputs fail is modelled exactly.
- UTF-8: topics are byte strings, so a topic that is not UTF-8 is not refused.
- 32-byte roots and 20-byte message ids are numbers in the caches, compared only for equality.
- Messages forwarded to mesh peers, and the sending of replies: handlers return what would be sent.
- SszTypes.WellFormed: vectors of length zero with variable-size elements and lists of zero-width elements are excluded, on which the source raises IndexError or ZeroDivisionError.
- Merkle.MerkleizeLoop: limits above 2^64 are excluded, because the table of zero roots ends at depth 64.
- HashTreeRoot.Binding: lists with a limit of 2^256 or more are excluded, because their length does not fit the 32 bytes mixed in.
- HashTreeRoot.ChunkLimit: the source divides in floating point before rounding up; for limits from 2^53 + 1 on, its chunk limit can differ from the exact quotient modelled here.
- ReqResp.ReadRequestLoop: the second decompression attempt when the stream closes is not repeated, because it sees the same bytes as the first.
- BlockCache.BlockCache.GetChildren: children with equal slots may come in any order.
- HeadSync.HeadSync.OnGossipBlock: the backfill request for a missing parent is not modelled.
- HeadSync.DrainGains: requires that no cached block is stored already; HeadSync.HandedWithParent and HeadSync.HandedOnceInAll do not.
- GossipRpc.RoundTrip: requires that lengths and backoffs fit a ten-byte varint, without which encoding raises.
- Protobuf.DecodeLoop: one loop stands for the eight decoders, which walk their fields alike and differ in what they do with each.
