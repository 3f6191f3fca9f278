# Segment wire codec, modelled in Dafny

This project models the wire codec of the path-segment exchange in
`segment/encoding.go`. The encoder turns a list of path segments into one
message. That message is a 20-byte header (header length, segment count,
source and destination ISD-AS), followed by one record per segment sent.
A record is a flags byte (segment type and accepted bit), an entry count,
an options length, and then either the interfaces of a literal segment or
the 16-bit indices of a composition's children.

Both sides number segments over one index space: the old segments the peers
already share come first, then the segments this message introduces. A
composition refers to its children by index. The decoder rebuilds the
segments record by record. It returns the new segments and the accepted ones.

Modules, in dependency order:

- `Bytes`: fixed-width integers and their big-endian encoding, the model of
  `encoding/binary`. It has round trips in both directions and an in-place
  writer on an array.
- `Segments`: the segment datatype and `RecursiveSubsegments`, with its
  post-order property.
- `Interfaces`: `EncodeInterfaces` over an array, `DecodeInterfaces`, and
  their round trip.
- `Record`: the flag constants and `EncodeSegment`, with the layout of the
  record it writes.
- `Encoder`: `EncodeSegments` as a method in the source's own steps. It is
  proved equal to a specification function folded over the inputs.
- `Numbering`: the index-space invariant the encoder keeps. Every table entry
  names the position in `oldsegs ++ sent` that holds the segment.
- `Decoder`: `DecodeSegments` as a method over an array of slots. It is
  proved equal to a specification function, with the shape of its results.
- `RoundTrip`: decoding an encoded message gives back what was sent.
- `Intended`, `StrictDecoder`, `RecordCount`: corrected forms of the three
  places where the code departs from what it evidently means, each beside
  a lemma showing the code as written (see Findings).

Conventions of the model:

- Go's `nil` segment is the constructor `Nil`. Only the decoder produces it,
  for a reference to a slot that is not yet filled.
- A Go panic is an explicit outcome: `EncodePanicked`, or the decoder's
  `Panicked`.
- The decoder's error return is `Rejected(src, dst)`.
- `uint8(...)` and `uint16(...)` truncations are written out as `Uint8` and
  `Uint16`, which reduce modulo 2^8 and 2^16.
- A missing map key reads as 0, as Go's map index does.

## Model

| member | source | states |
|---|---|---|
| Bytes.ReadU16OfU16BE | segment/encoding.go:148 | a uint16 written big-endian at any offset reads back as the same value |
| Bytes.ReadU64OfU64BE | segment/encoding.go:83-84 | a uint64 written big-endian at any offset reads back as the same value |
| Bytes.FromBEOfBE | segment/encoding.go:173-174 | the value of the big-endian bytes of v is v, for every v that fits |
| Bytes.BEOfFromBE | segment/encoding.go:68-69 | rewriting the value of a byte string gives the same bytes |
| Bytes.PutBE | segment/encoding.go:83-84 | writing a value into a buffer puts its big-endian bytes at the position and leaves every other byte as it was |
| Segments.RecursiveSubsegments | segment/encoding.go:158-169 | the flattening of a composition lists every one of its children; what else it lists, and in which order, is stated by the five rows below |
| Segments.RecursiveSubsegmentsBelow | segment/encoding.go:158-169 | a segment is listed exactly when it lies strictly inside s: a child of s, or inside one of its children |
| Segments.RecursiveSubsegmentsPostOrder | segment/encoding.go:158-169 | each listed composition comes after all of its own children; every child of the segment is listed; Nil-freedom and narrowness carry over to the list |
| Segments.SubsegmentsPostOrder | segment/encoding.go:161-166 | the children loop lists each child after its own subsegments, in post order, and lists every child |
| Segments.RecursiveSubsegmentsLength | segment/encoding.go:160-166 | a composition lists one entry per child plus that child's own subsegments |
| Segments.RecursiveSubsegmentsSmaller | segment/encoding.go:158-169 | every listed subsegment is strictly smaller than the segment, so a segment is never its own subsegment |
| Interfaces.EncodeInterfaces | segment/encoding.go:171-176 | the buffer holds the interfaces' bytes, 16 per interface, from the offset on; the bytes around them are unchanged |
| Interfaces.DecodeInterfaces | segment/encoding.go:65-76 | interface i is the ID and IA read big-endian at 16*i and 16*i+8 |
| Interfaces.IfacesRoundTrip | segment/encoding.go:65-76 | decoding the encoding of n interfaces, whatever follows them, gives the same interfaces |
| Interfaces.IfacesBytesOfIfacesOf | segment/encoding.go:171-176 | encoding the n decoded interfaces reproduces the first 16*n bytes |
| Record.FlagsSeparate | segment/encoding.go:12-20 | or-ing the accepted flag with a type and masking recovers each one independently |
| Record.EncodeSegment | segment/encoding.go:127-156 | returns the record bytes of the segment; their layout is stated by the next four rows |
| Record.EncodeRefs | segment/encoding.go:147-149 | after the loop, the bytes from offset 4 on are the children's indices, two bytes each, and the four header bytes are as they were |
| Record.RecordHeader | segment/encoding.go:152-154 | the type and accepted masks of byte 0 give the segment's type and the accepted argument; byte 1 is the entry count mod 256; the options length is 0; the payload follows |
| Record.LiteralLayout | segment/encoding.go:138-142 | a literal's record is 4 + 16n bytes and its payload decodes to the literal's interfaces |
| Record.CompositionLayout | segment/encoding.go:143-149 | a composition's record is 4 + 2n bytes and reference i reads as the table index of child i mod 65536 |
| Record.RefsBytesAt | segment/encoding.go:148 | bytes 2i and 2i+1 of the references are the uint16 of child i's index |
| Encoder.EncodeSegments | segment/encoding.go:79-125 | the method's output is the encoding function's, which the Numbering and RoundTrip rows characterise |
| Encoder.SeedTable | segment/encoding.go:86-90 | returns the seeded index table (see Numbering.SeedIndexNumbers) |
| Encoder.EncodeTopLevel | segment/encoding.go:93-120 | one pass of the top-level loop: reports a panic exactly when the specification does; otherwise gives its next state |
| Encoder.EncodeSubsegments | segment/encoding.go:95-105 | the subsegment loop ends in the state the specification gives |
| Encoder.AnnounceSegment | segment/encoding.go:108-113 | a fresh segment gets the next index and its record is appended |
| Encoder.ReannounceSegment | segment/encoding.go:114-119 | an already indexed segment costs an index and appends one accepted wrapper record |
| Encoder.EncodeAllExtends | segment/encoding.go:93-120 | the loop only appends: the bytes and the sent list of any earlier state are prefixes |
| Encoder.EncodeAllStaysPanicked | segment/encoding.go:93-120 | once a prefix of the inputs panics, the whole call panics |
| Numbering.SeedIndexNumbers | segment/encoding.go:86-90 | every seeded entry is a position of oldsegs holding that segment; every old segment is present, at its last occurrence |
| Numbering.StartNumbered | segment/encoding.go:86-91 | the initial state keeps the index invariant, with the counter at len(oldsegs) and nothing sent |
| Numbering.SubDedup | segment/encoding.go:96-105 | a subsegment already in the table changes nothing; a new one takes the current index, advances the counter by one and appends one unaccepted record |
| Numbering.SubsNumbered | segment/encoding.go:95-105 | after the loop every subsegment is indexed; the invariant holds; no entry is lost; only the subsegments are added |
| Numbering.TopNumbered | segment/encoding.go:106-119 | an input panics exactly when it is already indexed and is not an old segment; otherwise the invariant holds and the last record is the input, or its wrapper when it was indexed |
| Numbering.AllNumbered | segment/encoding.go:93-120 | the whole loop keeps the index invariant and never loses an entry |
| Numbering.FinalCounts | segment/encoding.go:90-123 | the final counter equals len(oldsegs) plus the number of records sent, and the header written first is still in place |
| Numbering.HeaderLayout | segment/encoding.go:79-125 | the message starts with 0, header length 20, numsegs = uint16(len(oldsegs) + records sent), then the source and destination IAs |
| Decoder.Resolve | segment/encoding.go:45-53 | an index resolves exactly when it is below len(oldsegs) + len(newsegs), and then to that slot of oldsegs ++ newsegs |
| Decoder.ResolveRefs | segment/encoding.go:43-54 | k references resolve exactly when they lie within the record and each is in range; reference j resolves to the slot it names |
| Decoder.DecodeRefs | segment/encoding.go:42-54 | the reference loop over the slot array gives the resolution the specification defines |
| Decoder.DecodeOne | segment/encoding.go:31-57 | a record shorter than 4 bytes is truncated; otherwise the method's result is the record's segment, and the rest starts after the record |
| Decoder.DecodeRecord | segment/encoding.go:30-61 | one record fills only slot i, consumes exactly its own length, records its accepted bit, and appends the segment to the accepted list exactly when that bit is set |
| Decoder.DecodeSegments | segment/encoding.go:22-63 | the method's result is the decoding function's, characterised by the next rows |
| Decoder.DecodeShape | segment/encoding.go:22-63 | a buffer shorter than the header panics; a rejection carries the header's IAs; a decoded message has numsegs slots, the header's IAs, and accepted segments that are a selection of the slots in order |
| Decoder.DecodeStepsAccepted | segment/encoding.go:58-60 | the accepted list is the decoded slots filtered by their accepted bits, in record order |
| Decoder.SelfReferenceDecodes | segment/encoding.go:46-52 | a composition whose only child is its own index decodes, to a composition with a nil child |
| RoundTrip.DecodeOfEncode | segment/encoding.go:22-125 | without old segments, decoding an encoding gives back the sent segments, with the inputs as the accepted ones and the same IAs; with old segments the decoder panics; every sent segment is Nil-free |
| Intended.RepeatedInputPanics | segment/encoding.go:114-119 | the same input twice, when it is not an old segment, makes the encoder index oldsegs out of range |
| Intended.IntendedTopAgrees | segment/encoding.go:107-119 | wherever the code does not panic on an input, the corrected step gives the same state |
| Intended.IntendedTopNumbered | segment/encoding.go:107-119 | the corrected step keeps the index invariant and never fails; its last record is the input, or a wrapper around it when it was already indexed |
| Intended.IntendedAllAgrees | segment/encoding.go:93-120 | wherever the code's loop succeeds, the corrected loop ends in the same state |
| Intended.IntendedAllNumbered | segment/encoding.go:93-120 | the corrected loop keeps the index invariant for all inputs |
| Intended.IntendedSpecAgrees | segment/encoding.go:79-125 | wherever the code encodes, the corrected encoder gives the same bytes and sent segments |
| Intended.IntendedExtends | segment/encoding.go:93-120 | the corrected loop only appends to the bytes and the sent list |
| Intended.IntendedRepeat | segment/encoding.go:114-119 | a second copy of an input adds exactly one accepted wrapper record around it |
| Intended.IntendedDecodeOfEncode | segment/encoding.go:22-125 | without old segments, the corrected encoding decodes to its sent segments and IAs, with each accepted segment the input or its wrapper |
| StrictDecoder.StrictRefines | segment/encoding.go:46-52 | whatever the strict decoder accepts, the code decodes the same way, and it contains no nil segment |
| StrictDecoder.StrictAcceptsNilFree | segment/encoding.go:46-52 | whenever the code decodes a message without a nil segment, the strict decoder gives the same result |
| StrictDecoder.StrictSelfReferenceRejected | segment/encoding.go:46-52 | the self-referencing composition is rejected with the error the code names |
| StrictDecoder.StrictDecodeOfEncode | segment/encoding.go:43-54 | without old segments, the strict decoder gives back what the encoder sent, with the inputs as the accepted ones |
| StrictDecoder.StrictDecodeOfIntended | segment/encoding.go:43-54 | without old segments, the strict decoder gives back what the corrected encoder sent and its IAs, with each accepted segment the input or its wrapper |
| RecordCount.OldSegmentMakesDecodePanic | segment/encoding.go:122-123 | with one old segment and no inputs, the header claims one record, none follows, and the decoder panics |
| RecordCount.CountedDiffersOnlyInCount | segment/encoding.go:122-123 | the corrected encoder fails exactly when the code does; it sends the same segments and writes the same bytes apart from the count, which is the number of records; without old segments the two are equal |
| RecordCount.CountedDecodeOfEncode | segment/encoding.go:22-125 | for any old segments, decoding the corrected encoding gives back the sent segments and IAs, with one accepted segment per input: the input, or its wrapper when it is an old segment |

## Left out

- `Segment.Fingerprint`, `FromInterfaces`, `FromSegments` and the
  `snet`/`addr`/`common` types are not part of this model. The segment value
  itself is the table key, so fingerprints are taken to be injective.
  `FromSegments(s)` is taken as the one-child composition `Composition([s])`,
  and `FromInterfaces` as `Literal`.
- ISD-AS values and interface IDs are opaque 64-bit numbers. Their conversion
  to and from `addr.IA` is left out.
- Go panics (index out of range, slice bounds) are outcomes of the model
  rather than crashes. They are not distinguished by cause.
- Encoder inputs and old segments are required to be Nil-free, because
  `Fingerprint` on a nil segment fails in Go.
- RoundTrip.DecodeOfEncode: requires every node to have fewer than 256
  entries, because a record's count is one byte and Go truncates it. It also
  requires fewer than 65536 indices, because references are 16-bit and Go
  truncates them. Beyond those bounds the encoding is lossy.
- Interfaces.DecodeInterfaces: requires 16*seglen bytes. The decoder only
  calls it after checking the record's length, so Go's short-buffer panic is
  modelled in the decoder instead.
- Encoder.ReannounceSegment: advances the counter after the range check on
  oldsegs rather than before; no result differs, since a failed check ends
  the call.
- The options bytes of a record are never written. The encoder's optlen is
  always 0; the decoder skips optlen bytes as the code does.
- The decoder follows the check at segment/encoding.go:46-52 rather than
  its own error text at line 51 ("subsegment id is greater/equal to segment
  id"): forward references and self references resolve to a nil slot.
  StrictDecoder models the rule that message states.

## Findings

| source | as written | input that shows it | evidently intended | confidence | as-written member | corrected member |
|---|---|---|---|---|---|---|
| segment/encoding.go:117-118 | the seen-before branch wraps `oldsegs[idx]`, and idx may come from a segment sent earlier in this call | newsegs `[a, a]` with oldsegs `[]`: the second copy indexes oldsegs at 0 and panics | wrap the indexed input itself, which is the segment at idx in oldsegs ++ sent | high, not executed | Intended.RepeatedInputPanics | Intended.IntendedDecodeOfEncode |
| segment/encoding.go:46-52 | a reference is bounded by len(oldsegs) + len(newsegs), all slots, filled or not | one composition record whose only child is index 0, with oldsegs `[]`: it decodes to a composition with a nil child | reject any index not below len(oldsegs) + i for record i, as the error text says | high, not executed | Decoder.SelfReferenceDecodes | StrictDecoder.StrictSelfReferenceRejected |
| segment/encoding.go:122-123 | numsegs is the final counter, which includes len(oldsegs), and the decoder reads that many records | newsegs `[]` with oldsegs `[x]`: the header says 1, no record follows, the decoder panics | the header counts the records that follow | medium, not executed | RecordCount.OldSegmentMakesDecodePanic | RecordCount.CountedDecodeOfEncode |
