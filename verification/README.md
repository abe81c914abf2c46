# Encodings and shared storage, verified

This project models two parts of a RAN controller code base and proves what they promise.

**The ASN.1 runtime of the HelloWorld service model** (`ric-app-hw/defs_hwe2sm`), from the bit
streams up:

- `Bits`, `BitOutput`, `BitInput`, `BitStreams` - the writer that works through a 32-octet scratch
  area, the reader that normalises, undoes and refills, and the two together.
- `BerTag`, `BerLength`, `BerForms`, `BerSkip`, `BerCheckTags`, `BerChain`, `BerHeaders` - identifier and length
  octets, skipping of nested values, and checking a chain of tags (sections 8.1 and 10.1 of X.690), with exactly
  which inputs pass.
- `OctetString`, `OctetStringResume`, `OctetStringSplits`, `OctetStringTree`, `OctetStringExact`,
  `OctetStringDecoder` - the resumable decoder of OCTET STRING and BIT STRING: a step function, its behaviour under
  any split of the input, its result on every tree of segments, exactly which inputs it accepts, and the class with
  in-place fields that refines it.
- `Integer`, `Numerals`, `XerInteger`, `XerSpelling` - two's-complement forms, range decisions, the range-checked
  scanners, the XML text form, and which texts stand for what.
- `PerSupport`, `PerLengths`, `IntegerUper`, `IntegerLayout`, `IntegerAper`, `AperLayout` - PER primitives with
  fragmentation, INTEGER in both alignments of PER, and its place on the wire bit for bit in both directions.
- `Uper`, `UperRoundTrip`, `UperReencode`, `UperVersions`, `UperOrder`, `UperLayout`, `UperReads`, `UperCodec` -
  unaligned PER over trees of SEQUENCE, CHOICE, ENUMERATED and INTEGER with their extensions: what is written and
  read as functions; round trips, versions of a type and the order of values; exactly which bits are written and
  which are accepted; and the codecs over the bit streams.
- `BitString`, `BitStringUper`, `BitStringLayout`, `XerString`, `XerText`, `XerReferences`, `Sinks` - BIT STRING up
  to trailing zero bits, its PER form, the XML forms of strings, and the sinks encoders write to.

**The SDL client** (`ric-plt-sdlgo`): `SdlArguments`, the flattening of what `Set` is given, `SdlGlob`,
the backend's patterns, `SdlStore`, namespaces spread over backends that act like one map, and `SdlLock`, the
resource lock as interleaved steps of any number of clients.

`dafny verify dfyconfig.toml` checks everything.

## Conventions

An octet is an integer below 256, a bit stream a sequence of booleans. C's shifts are products and
quotients by powers of two, its masks remainders, and an `|` of operands that share no bit a sum. `long` and
`intmax_t` have 64 bits; where a word wraps around, the model says so (`Wrap`, `Signed`, `ShiftIn`), and where
a signed word would overflow the outcome is named (`Numerals.Overflow`). Memory is to be had unless a parameter
says otherwise; the stack-depth check does not fire. A callback's answers, the backend's replies, tokens and
the passing of time are parameters. Redis commands are atomic.

Type descriptors are taken to be consistent, as the ASN.1 compiler makes them (`Uper.WellFormed`): the table of
optional members lists them in order, order tables are inverse to each other, ranges fit their bit widths, and
there are at most 64 extension values, alternatives or additions, which is as many as the normally small number
and length codecs can carry (`PerSupport.SmallRoundTrip`, `PerSupport.SmallLengthRoundTrip`,
`UperRoundTrip.EnumExtensionExact`, `UperReencode.IndexExact`, `UperRoundTrip.AdditionsExact`). Where a table of
a CHOICE that is not consistent would be read out of bounds, the model answers `Failed`. An optional member
without a DEFAULT is a pointer. In aligned PER the subtraction and addition of a lower bound are taken to wrap
around, as 64-bit words do.

## What the code does differently from what one would expect

- `asn_get_undo` after a read that went through a refill silently does nothing (`BitStreams.GetThenUndo`,
  `BitStreams.UndoExample`).
- A constructed string under an implicit tag must repeat that tag on its segments
  (`OctetStringTree.SegmentTagExample`, and exactly when in `OctetStringTree.AcceptedExactly`).
- A constructed string under two tags or more is refused unless the second repeats the first
  (`OctetStringTree.ConstructedUnderTags`).
- A decoder interrupted between two headers of a chain of tags forgets the frame of the outer one
  (`OctetStringResume.FrameForgotten`, and for which types that shows in `OctetStringSplits.SplitsExactly`).
- The reader of a normally small number takes the form of a conforming sender only up to two octets
  (`PerSupport.ConformingSmall`).
- Normally small numbers from 64 on and lengths from 65 on are written in a form the reader takes for something
  else (`PerSupport.SmallRoundTrip`, `PerSupport.SmallLengthRoundTrip`).
- The reader of an open type looks at its padding but accepts it whether or not it is zero
  (`UperRoundTrip.PaddingExample`, and exactly what it accepts in `UperRoundTrip.OpenExactly`).
- Aligned PER puts no end mark after a last full fragment (`IntegerAper.UnendedRoundTrip`).
- A DEFAULT among extension additions is filled in by the decoder and then sent by the encoder
  (`UperReencode.AdditionAppears`), so that equal values may have two encodings (`UperReencode.AdditionExample`,
  and exactly when in `UperRoundTrip.Canonical`).
- `SEQUENCE_compare` counts an absent member as its DEFAULT only when the other value is equal to it, and is no
  order on values that leave members out (`UperOrder.DefaultCircle`, `UperOrder.DefaultExample`); a CHOICE without
  a value is below itself (`UperOrder.UnsetChoice`).
- A decimal character reference may hold the letters of hexadecimal digits (`XerReferences.DecimalDigitsReference`),
  and a reference to character 0 aborts the program (`XerReferences.HexadecimalReference`).
- Aligned PER refuses padding that is not zero in one of its forms only, and lets an offset beyond the range wrap
  around (`AperLayout.AperReadExactly`).
- `asn_strtoimax_lim` overflows on some negative numerals instead of refusing them (`Numerals.StrtoimaxBeyond`,
  `Numerals.OverflowExample`).
- `asn_ulong2INTEGER` is wrong from 2^63 on (`Integer.Ulong2Integer`).
- `RefreshResource` with less than a millisecond deletes the lock and reports success (`SdlLock.RefreshLives`,
  `SdlLock.RefreshExample`).
- An attempt to lock whose answer is lost leaves a lock nobody can release (`SdlLock.LostLockStays`).
- `GetAll` cuts keys that contain their own namespace's prefix (`SdlStore.KeyWhole`, `SdlStore.CutExample`), and
  panics when a glob character in the namespace finds a key without that prefix (`SdlStore.PanicsExactly`,
  `SdlStore.PanicExample`).
- Namespaces with "}," or glob characters can read or empty others (`SdlStore.ClashExample`,
  `SdlStore.GlobExample`, and exactly when in `SdlStore.SeparateExactly` and `SdlStore.SeparateByPattern`).
- `Set` with a map where a value belongs writes outside the namespace (`SdlStore.MapAsValueExample`).

## Model

| member | source | states |
|---|---|---|
| BitOutput.BitWriter.PutFewBits | ric-app-hw/defs_hwe2sm/asn_bit_data.c:191-277 | appends exactly the low `obits` bits to everything written so far, wherever the 32-octet scratch area is flushed; fails only for a bad width or a refusing sink, and then appends nothing |
| BitOutput.BitWriter.PutManyBits | ric-app-hw/defs_hwe2sm/asn_bit_data.c:283-310 | appends exactly the first `count` bits of the source octets |
| BitOutput.BitWriter.AlignedFlush | ric-app-hw/defs_hwe2sm/asn_bit_data.c:313-332 | the sink holds all bits ever put, filled up with zero bits to an octet |
| BitOutput.StoredField | ric-app-hw/defs_hwe2sm/asn_bit_data.c:229-266 | the shifted store of a field into one to four octets leaves the bits before it alone and puts the field right behind them |
| BitInput.BitReader.GetFewBits | ric-app-hw/defs_hwe2sm/asn_bit_data.c:62-142 | the next `n` bits of the whole stream as a number, or -1, whatever chunks the stream is refilled from; says exactly when the bits came from one chunk |
| BitInput.BitReader.GetAcross | ric-app-hw/defs_hwe2sm/asn_bit_data.c:72-89 | a read across refills gives what reading the concatenated chunks would; terminates by the chunks left, empty ones included |
| BitInput.BitReader.ExtractWide | ric-app-hw/defs_hwe2sm/asn_bit_data.c:116-125 | a field that reaches a fifth octet, read in two parts on a copy, is the same field |
| BitInput.BitReader.GetManyBits | ric-app-hw/defs_hwe2sm/asn_bit_data.c:147-186 | the next `count` bits as octets, aligned left or right, the rest of the destination untouched; fails exactly when there are fewer |
| BitInput.BitReader.Undo | ric-app-hw/defs_hwe2sm/asn_bit_data.c:49-57 | puts the last `n` bits back in front of the stream, or does nothing when fewer lie behind the position |
| BitStreams.PutAll | ric-app-hw/defs_hwe2sm/asn_bit_data.c:191-332 | any run of puts ended by a flush delivers the concatenated bits, zero-padded |
| BitStreams.GetAll | ric-app-hw/defs_hwe2sm/asn_bit_data.c:62-186 | reading a stream back with the widths it was written with gives the same items and leaves what followed |
| BitStreams.NormalFewUnique | ric-app-hw/defs_hwe2sm/asn_bit_data.c:62-142 | a number of the width it was put with comes back unchanged |
| BitStreams.GetThenUndo | ric-app-hw/defs_hwe2sm/asn_bit_data.c:49-89 | undo after a read restores the stream exactly when the read did not cross a refill |
| BitStreams.UndoExample | ric-app-hw/defs_hwe2sm/asn_bit_data.c:49-89 | two bits in two chunks that undo does not bring back |
| BerTag.BerFetchTag | ric-app-hw/defs_hwe2sm/ber_tlv_tag.c:9-58 | the accumulator loop finds what the recursive definition of identifier octets says, with its 30-bit overflow bound |
| BerTag.BerTagSerialize | ric-app-hw/defs_hwe2sm/ber_tlv_tag.c:103-143 | the octets of the tag when they fit, the size needed in any case, nothing else touched |
| BerTag.TagRoundTrip | ric-app-hw/defs_hwe2sm/ber_tlv_tag.c:9-143 | every 32-bit tag comes back from its octets, whatever follows |
| BerTag.TagPrefix | ric-app-hw/defs_hwe2sm/ber_tlv_tag.c:9-58 | every strict prefix of an accepted tag wants more; the outcome depends only on the octets consumed |
| BerTag.TagAppend | ric-app-hw/defs_hwe2sm/ber_tlv_tag.c:9-58 | appended octets change no outcome but a demand for more |
| BerForms.LongTagExact | ric-app-hw/defs_hwe2sm/ber_tlv_tag.c:9-58 | identifier octets by their bits: with any number of continued octets accepted exactly when the seven-bit groups make a number below 2^30, and read as that number and the class |
| BerForms.UnfinishedTag | ric-app-hw/defs_hwe2sm/ber_tlv_tag.c:23-57 | while every octet continues, more is wanted, unless the groups there are already make 2^23 or more |
| BerForms.TagSpelled | ric-app-hw/defs_hwe2sm/ber_tlv_tag.c:103-143 | the octets put for a tag: one for a number below 31, otherwise groups of seven bits, no more of them than it takes (section 8.1.2.4 of X.690) |
| BerForms.FormBit | ric-app-hw/defs_hwe2sm/ber_tlv_tag.h:25-25 | one bit of the first octet tells a constructed value from a primitive one |
| BerForms.TagBound | ric-app-hw/defs_hwe2sm/ber_tlv_tag.c:9-58 | no accepted tag needs more than 32 bits, and its class is that of the first octet |
| BerLength.BerFetchLength | ric-app-hw/defs_hwe2sm/ber_tlv_length.c:9-65 | the loop finds what the definition of length octets says, with its 62-bit bound and the indefinite form |
| BerLength.DerLengthSerialize | ric-app-hw/defs_hwe2sm/ber_tlv_length.c:131-167 | the length octets when they fit, the size needed in any case |
| BerLength.LengthRoundTrip | ric-app-hw/defs_hwe2sm/ber_tlv_length.c:9-167 | every length up to RSSIZE_MAX comes back from its octets, whatever follows |
| BerLength.LengthPrefix | ric-app-hw/defs_hwe2sm/ber_tlv_length.c:9-65 | every strict prefix of accepted length octets wants more |
| BerLength.LengthAppend | ric-app-hw/defs_hwe2sm/ber_tlv_length.c:9-65 | appended octets change no outcome but a demand for more |
| BerLength.LengthMinimal | ric-app-hw/defs_hwe2sm/ber_tlv_length.c:131-167 | no accepted definite form of a length is shorter than the serialised one (section 10.1 of X.690) |
| BerForms.LongLengthExact | ric-app-hw/defs_hwe2sm/ber_tlv_length.c:9-65 | the long form by its octets: the number they make, zeros in front allowed, accepted exactly below 2^62; 255 as the first octet never |
| BerForms.ShortLengthExact | ric-app-hw/defs_hwe2sm/ber_tlv_length.c:9-65 | the other first octets: the length itself; 128 is the indefinite form of a constructed value and length 0 of a primitive one |
| BerSkip.BerSkipLength | ric-app-hw/defs_hwe2sm/ber_tlv_length.c:67-129 | the mutually nested loop and recursion compute the recursive skip, on arbitrary input |
| BerSkip.OnePass | ric-app-hw/defs_hwe2sm/ber_tlv_length.c:67-129 | on any input the recursion and its loop come to what one pass over the headers with a count of open indefinite lengths does: where the value ends, that more is wanted, or that a header is malformed |
| BerSkip.SkipCoversTree | ric-app-hw/defs_hwe2sm/ber_tlv_length.c:67-129 | exactly the length and contents octets of every nested value, definite and indefinite, children that read as end-of-contents excluded |
| BerSkip.SkipAppend | ric-app-hw/defs_hwe2sm/ber_tlv_length.c:67-129 | a result other than "want more" is unchanged by appended octets |
| BerCheckTags.BerCheckTags | ric-app-hw/defs_hwe2sm/ber_decoder.c:64-283 | the loop over a chain of tags computes the recursive check |
| BerCheckTags.FrameKept | ric-app-hw/defs_hwe2sm/ber_decoder.c:226-271 | within the frame an outer definite header sets up, octets consumed plus the frame left always add up to the outermost value |
| BerCheckTags.ReadsWithinFrame | ric-app-hw/defs_hwe2sm/ber_decoder.c:226-271 | no header read passes that frame: the octets behind the outermost value make no difference to the check, for every input |
| BerCheckTags.AcceptedFrame | ric-app-hw/defs_hwe2sm/ber_decoder.c:64-283 | an accepted definite chain of any depth: header octets consumed plus the inner length returned are the outermost value's size |
| BerCheckTags.AcceptsChain | ric-app-hw/defs_hwe2sm/ber_decoder.c:64-283 | every properly nested chain of definite headers that spells the type's tags is accepted, up to its contents |
| BerCheckTags.AcceptsIndefinite | ric-app-hw/defs_hwe2sm/ber_decoder.c:64-283 | so is every chain of indefinite headers, and the end-of-contents octets still owed are reported |
| BerHeaders.CheckExact | ric-app-hw/defs_hwe2sm/ber_decoder.c:64-283 | on any input, in every tag mode and from every saved step: accepted exactly when headers stand at its start whose tags are the type's at their places, save the outermost in a mode other than 0, all but the last constructed, the last of the form asked for, and each holding just the next |
| BerHeaders.CheckReports | ric-app-hw/defs_hwe2sm/ber_decoder.c:64-283 | what is then reported: the octets of the headers, and the form and length of the last, or how many end-of-contents octets are owed |
| BerHeaders.TagsRead | ric-app-hw/defs_hwe2sm/ber_decoder.c:144-165 | every header of an accepted input, in every tag mode, has the tag at its place in the type, and only the outermost may be any |
| BerHeaders.InnerTagExample | ric-app-hw/defs_hwe2sm/ber_decoder.c:144-165 | an explicitly tagged OCTET STRING is accepted where an INTEGER under the same tag is refused |
| BerChain.ChainExact | ric-app-hw/defs_hwe2sm/ber_decoder.c:64-283 | over all values: the check accepts a value exactly when each layer carries the next tag, holds the next layer and nothing beside it, and lengths are all definite or all indefinite |
| BerChain.FoundInside | ric-app-hw/defs_hwe2sm/ber_decoder.c:64-283 | and then it stops right in front of the contents of the innermost value, with its form and length |
| OctetStringDecoder.Decoder.Append | ric-app-hw/defs_hwe2sm/OCTET_STRING.c:94-133 | the growing buffer holds the old contents and the new octets, or fails beyond 2^30 |
| OctetStringDecoder.Decoder.AddStackEl | ric-app-hw/defs_hwe2sm/OCTET_STRING.c:144-173 | a frame is pushed onto the reusable stack |
| OctetStringDecoder.Decoder.DecodeBer | ric-app-hw/defs_hwe2sm/OCTET_STRING.c:183-533 | one call of the phase machine over fields updated in place does what the step function says, from every sound state |
| OctetStringDecoder.DecodePieces | ric-app-hw/defs_hwe2sm/OCTET_STRING.c:183-533 | a caller that re-presents unconsumed octets gets, for every type and input and every split that does not fall between two headers of the chain of tags, the outcome of one call on the whole |
| OctetString.StepAdvances | ric-app-hw/defs_hwe2sm/OCTET_STRING.c:183-533 | every step of the machine consumes input, pops a frame or moves to a later phase, so every run ends |
| OctetStringResume.Resume | ric-app-hw/defs_hwe2sm/OCTET_STRING.c:183-533 | for every type, state and input: a decision stands under appended octets, and a demand for more can be met by continuing, unless the call stopped between two headers of the chain of tags |
| OctetStringResume.FeedAnySplit | ric-app-hw/defs_hwe2sm/OCTET_STRING.c:183-533 | every such split of every input has the outcome of presenting it at once |
| OctetStringResume.PlainNeverInChain | ric-app-hw/defs_hwe2sm/OCTET_STRING.c:183-533 | with one tag that is every split |
| OctetStringResume.PastChain | ric-app-hw/defs_hwe2sm/OCTET_STRING.c:212-226 | with several it is every split whose first piece holds the headers of the chain |
| OctetStringResume.FrameForgotten | ric-app-hw/defs_hwe2sm/OCTET_STRING.c:212-226 | stopping between two headers does make a difference: an input that is refused in one call and accepted in two |
| OctetStringSplits.SplitsExactly | ric-app-hw/defs_hwe2sm/OCTET_STRING.c:212-226 | for every type: every split of every input has the outcome of presenting it at once exactly when the type has one header to match |
| OctetStringTree.TreeDecodes | ric-app-hw/defs_hwe2sm/OCTET_STRING.c:183-533 | under any number of tags: every tree of segments decodes to the concatenation of its leaves, consuming exactly its encoding; for BIT STRING with the last segment's unused bits cleared, refused when there are more than seven |
| OctetStringTree.DecodesInAnyPieces | ric-app-hw/defs_hwe2sm/OCTET_STRING.c:183-533 | the same for every way of cutting the input into pieces that does not fall between two headers of the chain |
| OctetStringTree.AcceptedExactly | ric-app-hw/defs_hwe2sm/OCTET_STRING.c:228-375 | a value is accepted exactly when its layers spell the type's tags, every segment at every depth carries the tag expected there (the first of all the type's tags in the outermost header, the second below, and so on), and the unused bits make sense |
| OctetStringTree.PlainExactly | ric-app-hw/defs_hwe2sm/OCTET_STRING.c:228-375 | the same for a type with one tag, spelled out |
| OctetStringTree.ConstructedUnderTags | ric-app-hw/defs_hwe2sm/OCTET_STRING.c:228-375 | under two tags or more a constructed string is accepted only if the second tag repeats the first of all the type's tags, for the decoder starts again at the outermost header |
| OctetStringTree.SegmentTagExample | ric-app-hw/defs_hwe2sm/OCTET_STRING.c:340-375 | `[5] IMPLICIT OCTET STRING`: a segment tagged as section 8.7.3.2 of X.690 prescribes is refused, one that repeats the implicit tag is accepted |
| OctetStringExact.SucceedsExactly | ric-app-hw/defs_hwe2sm/OCTET_STRING.c:183-533 | on any input: the decoder succeeds exactly when the input begins with a well-formed value whose tags are where they are wanted and whose unused bits make sense |
| OctetStringExact.Yields | ric-app-hw/defs_hwe2sm/OCTET_STRING.c:183-533 | what it then yields: the payload of the one value the input begins with, the unused bits of the last octet clear and its others kept, and just that value's octets consumed |
| OctetStringExact.OneValue | ric-app-hw/defs_hwe2sm/ber_tlv_length.c:67-129 | no input begins with two different values, however nested |
| Integer.Imax2Integer | ric-app-hw/defs_hwe2sm/INTEGER.c:1247-1300 | a shortest two's-complement form of the word's value |
| Integer.MinimalUnique | ric-app-hw/defs_hwe2sm/INTEGER.c:1274-1290 | a value has one form without superfluous octets |
| Integer.MinimalShortest | ric-app-hw/defs_hwe2sm/INTEGER.c:1274-1290 | no other form of the value is shorter (section 8.3.2 of X.690) |
| Integer.Integer2Imax | ric-app-hw/defs_hwe2sm/INTEGER.c:1117-1186 | succeeds exactly when the value fits a signed 64-bit word, on buffers of any size, and yields it |
| Integer.Integer2Umax | ric-app-hw/defs_hwe2sm/INTEGER.c:1188-1219 | succeeds exactly when the octets read without a sign fit an unsigned word |
| Integer.Umax2Integer | ric-app-hw/defs_hwe2sm/INTEGER.c:1221-1245 | the shortest form of every unsigned word |
| Integer.Ulong2Integer | ric-app-hw/defs_hwe2sm/INTEGER.c:1337-1340 | keeps the value exactly below 2^63; above, the value comes out 2^64 too small |
| Integer.EncodeDer | ric-app-hw/defs_hwe2sm/INTEGER.c:62-122 | canonicalisation keeps the value and leaves no superfluous octet |
| Integer.EncodeNativeDer | ric-app-hw/defs_hwe2sm/NativeInteger.c:153-184 | the byte-filling loop and canonicalisation give the shortest form of the native value |
| Integer.NativeAgrees | ric-app-hw/defs_hwe2sm/NativeInteger.c:153-184 | both representations have the same DER contents octet for octet exactly when they stand for the same value |
| Numerals.StrtoimaxLim | ric-app-hw/defs_hwe2sm/INTEGER.c:1430-1489 | the signed scanner by its results: value, extra data, range error, and where the signed word overflows |
| Numerals.StrtoimaxExact | ric-app-hw/defs_hwe2sm/INTEGER.c:1430-1489 | every numeral within range is read exactly |
| Numerals.StrtoimaxBeyond | ric-app-hw/defs_hwe2sm/INTEGER.c:1459-1478 | out of range it refuses, except that it overflows exactly for negative numerals with a proper prefix from 9223372036854775800 to 9223372036854775808 |
| Numerals.OverflowExample | ric-app-hw/defs_hwe2sm/INTEGER.c:1459-1478 | -92233720368547758080 overflows |
| Numerals.StrtoumaxLim | ric-app-hw/defs_hwe2sm/INTEGER.c:1497-1549 | the unsigned scanner by its results |
| Numerals.StrtoumaxExact | ric-app-hw/defs_hwe2sm/INTEGER.c:1497-1549 | a numeral is accepted exactly when it fits an unsigned word |
| Numerals.SignedReads | ric-app-hw/defs_hwe2sm/INTEGER.c:1430-1489 | the signed scanner on any text: the number and where its digits end, the digit that takes it out of range, the overflow, or that there are no digits |
| Numerals.UnsignedReads | ric-app-hw/defs_hwe2sm/INTEGER.c:1497-1549 | the unsigned scanner on any text |
| Numerals.FitsOrPasses | ric-app-hw/defs_hwe2sm/INTEGER.c:1459-1478 | one of the two is always so: the digits make a number within the limit, or one of them takes it beyond |
| XerInteger.ScanBody | ric-app-hw/defs_hwe2sm/INTEGER.c:325-500 | the scanner, a machine of ten states, finds what the grammar of numerals and hexadecimal pairs says, for every text; it rewinds at most once and stays within its preallocated buffer |
| XerInteger.TracksKept | ric-app-hw/defs_hwe2sm/INTEGER.c:362-489 | each character keeps the scanner's state in agreement with the meaning of the whole text |
| XerInteger.XerBodyDecode | ric-app-hw/defs_hwe2sm/INTEGER.c:325-558 | the INTEGER a text stands for, and its failures |
| XerInteger.Dump | ric-app-hw/defs_hwe2sm/INTEGER.c:131-203 | the decimal or hexadecimal text, through a scratch area of 32 characters |
| XerInteger.DumpRoundTrip | ric-app-hw/defs_hwe2sm/INTEGER.c:131-558 | scanning the dump of any buffer gives the same number: shortest octets when it fits 64 bits, the very same octets otherwise |
| XerSpelling.DecimalRead | ric-app-hw/defs_hwe2sm/INTEGER.c:325-558 | every number that fits is read from its decimal numeral with tabs, line ends, carriage returns and spaces around it in any number |
| XerSpelling.PlusRead | ric-app-hw/defs_hwe2sm/INTEGER.c:325-558 | so is a number that is not negative with a plus sign |
| XerSpelling.HexadecimalRead | ric-app-hw/defs_hwe2sm/INTEGER.c:325-558 | pairs of hexadecimal digits in either case, with spaces of any kind between and around them, are read as the octets they spell; a single pair without letters is a decimal numeral |
| XerSpelling.ForeignRefused | ric-app-hw/defs_hwe2sm/INTEGER.c:362-489 | a character that is no digit, sign, hexadecimal digit or such a space makes the text an error, wherever it stands |
| XerSpelling.ParseExactly | ric-app-hw/defs_hwe2sm/INTEGER.c:325-558 | any text: nothing but spaces is no body, a numeral or pairs with spaces around it stand for a number, and everything else is an error |
| XerSpelling.NumeralParsed | ric-app-hw/defs_hwe2sm/INTEGER.c:502-530 | a numeral, zeros in front and all, gives its value, the limit of the decoder, or the overflow of the scanner |
| XerSpelling.PrintedShort | ric-app-hw/defs_hwe2sm/INTEGER.c:131-203 | a number is printed with a minus sign or none, and its digits, without a zero in front |
| XerSpelling.DumpSpelled | ric-app-hw/defs_hwe2sm/INTEGER.c:131-203 | a number beyond a word is printed in pairs that spell its octets, letters in upper case |
| PerSupport.PutConstrained | ric-app-hw/defs_hwe2sm/per_support.c:150-161 | a bit field of any width, split high part first |
| PerSupport.GetConstrained | ric-app-hw/defs_hwe2sm/per_support.c:124-146 | the same field read 31 bits at a time |
| PerSupport.Rebase | ric-app-hw/defs_hwe2sm/per_support.c:218-269 | v - lb exactly for values in range, without leaving the machine words |
| PerSupport.Unrebase | ric-app-hw/defs_hwe2sm/per_support.c:271-295 | u + lb exactly for offsets in range, without signed overflow |
| PerSupport.SmallRoundTrip | ric-app-hw/defs_hwe2sm/per_support.c:74-120 | normally small numbers come back exactly below 64: from 64 on writer and reader disagree |
| PerSupport.SmallLengthRoundTrip | ric-app-hw/defs_hwe2sm/per_support.c:52-216 | normally small lengths come back exactly up to 64 |
| PerSupport.ConformingSmall | ric-app-hw/defs_hwe2sm/per_support.c:74-94 | a conforming sender's form of a number from 64 on is understood while it takes one or two octets, and taken for the end of the stream beyond |
| PerSupport.ConformingSmallLength | ric-app-hw/defs_hwe2sm/per_support.c:52-68 | a conforming sender's form of a length below 16384 is understood |
| PerSupport.OctetsRoundTrip | ric-app-hw/defs_hwe2sm/per_support.c:13-44 | octets of any number come back from their fragments, the end mark included |
| PerLengths.Layout | ric-app-hw/defs_hwe2sm/per_support.c:167-192 | octets of any number as they go on the wire: one octet of length below 128, two below 16384, and from there on fragments of one to four times 16384 behind an octet that says so, an empty one at the end if need be (section 11.9 of X.691) |
| PerLengths.LengthExact | ric-app-hw/defs_hwe2sm/per_support.c:13-44 | on any stream: exactly which octets are taken for which length, two octets for a small one included |
| PerLengths.OctetsExact | ric-app-hw/defs_hwe2sm/INTEGER.c:672-690 | on any stream: the collecting loop yields octets exactly when fragments that carry them stand in front of the rest |
| IntegerUper.PutLength | ric-app-hw/defs_hwe2sm/per_support.c:167-192 | one length determinant, how much it covers, and whether an end mark is due |
| IntegerUper.PutOctetString | ric-app-hw/defs_hwe2sm/INTEGER.c:806-815 | the fragmenting loop |
| IntegerUper.FetchOctetString | ric-app-hw/defs_hwe2sm/INTEGER.c:672-690 | the loop that collects fragments, on every stream |
| IntegerUper.EncodeInteger | ric-app-hw/defs_hwe2sm/INTEGER.c:707-818 | what is written for an INTEGER of any size under a range, an extensible range or none; with a record of constraints but no range, only values of 64 bits |
| IntegerUper.DecodeInteger | ric-app-hw/defs_hwe2sm/INTEGER.c:590-705 | what is read, and every failure |
| IntegerUper.IntegerRoundTrip | ric-app-hw/defs_hwe2sm/INTEGER.c:590-818 | the value comes back: the shortest octets inside the range, the very same octets otherwise |
| IntegerLayout.IntegerExactly | ric-app-hw/defs_hwe2sm/INTEGER.c:707-818 | bit for bit which octets are written how: the offset in its field, or the octets behind their length, with the extension bit, and which are refused |
| IntegerLayout.IntegerReadExactly | ric-app-hw/defs_hwe2sm/INTEGER.c:590-705 | on any stream: exactly which bits are taken for which octets, a number in the range behind a set extension bit included |
| IntegerUper.EncodeNative | ric-app-hw/defs_hwe2sm/NativeInteger.c:296-320 | the native encoder writes what the octet form would |
| IntegerUper.DecodeNative | ric-app-hw/defs_hwe2sm/NativeInteger.c:259-294 | the native decoder reads the octet form and converts it |
| UperRoundTrip.RoundTrip | ric-app-hw/defs_hwe2sm/constr_SEQUENCE.c:1076-1485 | over every well-formed tree of SEQUENCE, CHOICE, ENUMERATED and INTEGER, extension additions and extension alternatives included: decoding an encoding followed by any bits yields the value with absent members at their DEFAULT, and leaves exactly those bits |
| UperLayout.SpelledExactly | ric-app-hw/defs_hwe2sm/constr_SEQUENCE.c:1355-1485 | over every tree of types: a value is encoded as given bits exactly when they are what X.691 lays down: extension bit, one bit for each optional member of the root, the members that are sent, and the count, bitmap and open types of the additions; the place of a CHOICE alternative in the canonical order; fields as wide as their ranges |
| UperLayout.NumberExactly | ric-app-hw/defs_hwe2sm/NativeInteger.c:297-320 | the same for INTEGER |
| UperLayout.EnumExactly | ric-app-hw/defs_hwe2sm/NativeEnumerated.c:160-229 | the same for ENUMERATED: the place of the value in the root, or its number in the extension |
| UperLayout.IndexExactly | ric-app-hw/defs_hwe2sm/constr_CHOICE.c:920-1011 | the same for the index of a CHOICE |
| UperReads.ReadsExactly | ric-app-hw/defs_hwe2sm/constr_SEQUENCE.c:1076-1301 | on any stream and over any tree of types: the decoder yields a value and leaves the rest exactly when the bits in front of it are one of the forms laid down for that value, also those no encoder writes: lengths and numbers that are not the shortest, padding that is not zero, a number of the root behind a set extension bit, unknown additions |
| UperVersions.AcrossVersions | ric-app-hw/defs_hwe2sm/constr_SEQUENCE.c:1197-1296 | between any two versions of a type, whose SEQUENCEs at any depth may differ in how many extension additions they have: the receiver gets the value with the additions it does not know gone and those the sender did not know absent or their DEFAULT, and leaves exactly what followed |
| UperVersions.NewerSender | ric-app-hw/defs_hwe2sm/constr_SEQUENCE.c:1250-1268 | a SEQUENCE from a sender that knows more additions: the members known here come back, and what follows the encoding is left untouched |
| UperVersions.OlderSender | ric-app-hw/defs_hwe2sm/constr_SEQUENCE.c:1216-1296 | one from a sender that knows fewer: the members it knows come back and the others are as if they had not been sent |
| UperVersions.UnsentAddition | ric-app-hw/defs_hwe2sm/constr_SEQUENCE.c:1270-1296 | an addition that sender does not know comes back null, or as its DEFAULT when it is listed |
| UperVersions.SecondOfTwo | ric-app-hw/defs_hwe2sm/constr_SEQUENCE.c:1250-1268 | the second of two unknown additions by itself is passed over whole |
| UperRoundTrip.OpenRoundTrip | ric-app-hw/defs_hwe2sm/per_opentype.c:28-138 | whatever can be encoded comes back from an open type field: padding, the octet that stands for an encoding without bits, and fragments included |
| UperRoundTrip.OpenExactly | ric-app-hw/defs_hwe2sm/per_opentype.c:66-138 | what an open type field of any octets is taken for: accepted exactly when its contents decode and less than an octet, or a single zero octet, is left over |
| UperRoundTrip.PaddingExample | ric-app-hw/defs_hwe2sm/per_opentype.c:117-135 | a field whose padding is not zero and is accepted all the same |
| UperRoundTrip.FillEqual | ric-app-hw/defs_hwe2sm/constr_SEQUENCE.c:1919-1960 | what comes back compares equal to what was sent |
| UperRoundTrip.Canonical | ric-app-hw/defs_hwe2sm/constr_SEQUENCE.c:1355-1485 | two values have one encoding exactly when they compare equal and the same extension additions are there |
| UperRoundTrip.CanonicalOf | ric-app-hw/defs_hwe2sm/constr_SEQUENCE.c:1355-1485 | without a DEFAULT among extension additions, exactly when they compare equal |
| UperRoundTrip.Transitive | ric-app-hw/defs_hwe2sm/constr_SEQUENCE.c:1919-1960 | comparing equal is transitive, absent and DEFAULT included |
| UperOrder.NumberOrder | ric-app-hw/defs_hwe2sm/NativeInteger.c:444-475 | INTEGER and ENUMERATED compare as their numbers do |
| UperOrder.ChoiceOrder | ric-app-hw/defs_hwe2sm/constr_CHOICE.c:1358-1380 | alternatives compare by their number first |
| UperOrder.UnsetChoice | ric-app-hw/defs_hwe2sm/constr_CHOICE.c:1358-1380 | a CHOICE without a value is below everything, even itself; everything set is above it |
| UperOrder.FirstDifference | ric-app-hw/defs_hwe2sm/constr_SEQUENCE.c:1919-1960 | the first member in which two SEQUENCE values differ decides; absent is below present |
| UperOrder.NoDifference | ric-app-hw/defs_hwe2sm/constr_SEQUENCE.c:1919-1960 | they compare equal exactly when no member differs |
| UperOrder.Antisymmetric | ric-app-hw/defs_hwe2sm/constr_SEQUENCE.c:1919-1960 | on values in which every CHOICE holds an alternative, swapping the operands negates the result |
| UperOrder.Ordered | ric-app-hw/defs_hwe2sm/constr_SEQUENCE.c:1919-1960 | on such values with no member of a DEFAULT left out, the comparison is transitive, so an order |
| UperOrder.DefaultCircle | ric-app-hw/defs_hwe2sm/constr_SEQUENCE.c:1936-1950 | with a member left out it need not be: the value without it equals the one with its DEFAULT and yet is below one that is below that, exactly when the member's value is below the DEFAULT |
| UperOrder.DefaultExample | ric-app-hw/defs_hwe2sm/constr_SEQUENCE.c:1936-1950 | three values of an INTEGER DEFAULT 5 that go round in a circle |
| UperRoundTrip.BitmapIsMarks | ric-app-hw/defs_hwe2sm/constr_SEQUENCE.c:1388-1420 | the bitmap written in the order of the table of optional members is what the decoder uses up member by member |
| UperRoundTrip.MoreInput | ric-app-hw/defs_hwe2sm/constr_SEQUENCE.c:1076-1301 | every outcome but a demand for more stands when more bits follow |
| UperRoundTrip.CutShort | ric-app-hw/defs_hwe2sm/constr_SEQUENCE.c:1076-1301 | every strict prefix of an encoding wants more |
| UperReencode.Reencodes | ric-app-hw/defs_hwe2sm/constr_SEQUENCE.c:1076-1485 | every decoded value, from whatever stream, can be encoded |
| UperReencode.DecodeEncodeDecode | ric-app-hw/defs_hwe2sm/constr_SEQUENCE.c:1076-1485 | decoding, encoding and decoding again gives an equal value |
| UperReencode.AdditionAppears | ric-app-hw/defs_hwe2sm/constr_SEQUENCE.c:1270-1296 | a decoded SEQUENCE has extension additions exactly when it was sent some or one of them has a DEFAULT to be filled in |
| UperReencode.AdditionExample | ric-app-hw/defs_hwe2sm/constr_SEQUENCE.c:1270-1347 | a type and two values that compare equal and have two encodings: what was sent without additions comes back with one and is sent on with it |
| UperReencode.IndexExact | ric-app-hw/defs_hwe2sm/constr_CHOICE.c:833-1011 | of the extension alternatives of a CHOICE exactly the first 64 come back |
| UperRoundTrip.AdditionsExact | ric-app-hw/defs_hwe2sm/constr_SEQUENCE.c:1076-1485 | a SEQUENCE whose last extension addition is there and has no DEFAULT comes back exactly when there are at most 64 additions |
| UperRoundTrip.LastAdditionLost | ric-app-hw/defs_hwe2sm/constr_SEQUENCE.c:1197-1248 | beyond that the last addition comes back null, or as its DEFAULT, if the SEQUENCE is accepted at all |
| UperCodec.EncodeSequence | ric-app-hw/defs_hwe2sm/constr_SEQUENCE.c:1355-1485 | extension bit, presence bitmap, members and extension additions as specified, or the failure |
| UperCodec.HandleExtensions | ric-app-hw/defs_hwe2sm/constr_SEQUENCE.c:1303-1347 | the number of extension additions when any is present, else 0 |
| UperCodec.PutExtensions | ric-app-hw/defs_hwe2sm/constr_SEQUENCE.c:1342-1350 | every addition that is present as an open type field, in order, or the failure |
| UperCodec.EncodeOpen | ric-app-hw/defs_hwe2sm/per_opentype.c:28-64 | an encoding into a buffer of its own, put as octets in fragments |
| UperCodec.EncodeToBuffer | ric-app-hw/defs_hwe2sm/per_encoder.c:113-142 | the octets of an encoding, one zero octet when it has no bits, or none when there is no encoding |
| UperCodec.DecodeOpen | ric-app-hw/defs_hwe2sm/per_opentype.c:66-138 | decodes the collected octets on a reader of their own; a failure there is final, and so are eight bits or more left over, unless a single zero octet |
| UperCodec.SkipOpen | ric-app-hw/defs_hwe2sm/per_opentype.c:265-303 | an unknown field is passed over whole |
| UperCodec.PutNsLength | ric-app-hw/defs_hwe2sm/per_support.c:201-216 | what is written for the length of a bitmap of additions |
| UperCodec.FetchNsLength | ric-app-hw/defs_hwe2sm/per_support.c:52-68 | what is read for one |
| UperCodec.DecodeSequence | ric-app-hw/defs_hwe2sm/constr_SEQUENCE.c:1076-1301 | reads the bitmap as a stream of its own and decodes members and additions as specified, on every stream |
| UperCodec.DecodeAdditions | ric-app-hw/defs_hwe2sm/constr_SEQUENCE.c:1216-1268 | the additions the bitmap marks, known ones decoded and later ones passed over, on every stream |
| UperCodec.FillAdditions | ric-app-hw/defs_hwe2sm/constr_SEQUENCE.c:1270-1296 | members among the additions get their DEFAULT, others stay null |
| UperCodec.CompareSequence | ric-app-hw/defs_hwe2sm/constr_SEQUENCE.c:1919-1960 | the comparing loop, and so the comparison of the two values as a whole |
| UperCodec.EncodeChoice | ric-app-hw/defs_hwe2sm/constr_CHOICE.c:920-1011 | canonical index and alternative, in the root or as an open type beyond it, or the failure |
| UperCodec.DecodeChoice | ric-app-hw/defs_hwe2sm/constr_CHOICE.c:833-917 | the alternative the index selects, in the root or beyond it, on every stream |
| UperRoundTrip.IndexBack | ric-app-hw/defs_hwe2sm/constr_CHOICE.c:833-1011 | the canonical permutation is undone |
| UperCodec.EncodeEnum | ric-app-hw/defs_hwe2sm/NativeEnumerated.c:160-229 | table index or normally small extension index, or the failure |
| UperCodec.DecodeEnum | ric-app-hw/defs_hwe2sm/NativeEnumerated.c:92-147 | the value at the index, on every stream |
| UperRoundTrip.EnumBack | ric-app-hw/defs_hwe2sm/NativeEnumerated.c:92-229 | root and extension values come back |
| UperRoundTrip.EnumExtensionExact | ric-app-hw/defs_hwe2sm/NativeEnumerated.c:92-229 | of the extension values exactly the first 64 come back |
| UperCodec.PutSmallNumber | ric-app-hw/defs_hwe2sm/per_support.c:100-120 | what is written for a normally small number |
| UperCodec.FetchSmallNumber | ric-app-hw/defs_hwe2sm/per_support.c:74-94 | what is read for one |
| UperCodec.Transfer | ric-app-hw/defs_hwe2sm/constr_SEQUENCE.c:1076-1485 | encoder, flush, reader and decoder together return a value that compares equal |
| IntegerAper.AperRoundTrip | ric-app-hw/defs_hwe2sm/INTEGER.c:862-1095 | at every bit position, for every value in every 64-bit range: the value comes back across all four forms and nothing else is consumed |
| IntegerAper.CountFits | ric-app-hw/defs_hwe2sm/INTEGER.c:1065-1080 | the octet count always fits the bits set aside for it |
| IntegerAper.AperWhole | ric-app-hw/defs_hwe2sm/INTEGER.c:935-1113 | outside the root or without a range, octets come back exactly when their number is not a multiple of 16384 |
| IntegerAper.UnendedRoundTrip | ric-app-hw/defs_hwe2sm/per_support.c:400-425 | without an end mark after a full fragment, octets come back exactly when their number is not a multiple of 16384 |
| AperLayout.AperExactly | ric-app-hw/defs_hwe2sm/INTEGER.c:971-1113 | at every bit position, bit for bit: the field as wide as the range below 8 bits, one octet, two octets, or the fewest octets behind their number, each on an octet boundary behind clear bits; or octets behind their length; and what is refused |
| AperLayout.AperReadExactly | ric-app-hw/defs_hwe2sm/INTEGER.c:820-969 | on any stream: exactly which bits are taken for which octets: padding that is not clear is refused only behind a count, and an offset beyond the range is added in a word of 64 bits |
| AperLayout.UnendedLayout | ric-app-hw/defs_hwe2sm/per_support.c:400-425 | the fragments, and nothing behind a last full one |
| IntegerAper.EncodeAper | ric-app-hw/defs_hwe2sm/INTEGER.c:971-1113 | what is written at the writer's position, for every range |
| IntegerAper.AsrOctet | ric-app-hw/defs_hwe2sm/INTEGER.c:1078-1096 | an offset of 2^63 or more becomes a negative word, and the octets shifted out of it are still its own |
| IntegerAper.DecodeAper | ric-app-hw/defs_hwe2sm/INTEGER.c:820-969 | what is read at the reader's position on such a stream, and every failure |
| IntegerAper.PutAlign | ric-app-hw/defs_hwe2sm/per_support.c:390-398 | zero bits up to the next octet |
| IntegerAper.GetAlign | ric-app-hw/defs_hwe2sm/per_support.c:297-305 | the bits up to the next octet, on one buffer that ends anywhere or on a stream refilled in whole octets |
| BitString.Compactify | ric-app-hw/defs_hwe2sm/BIT_STRING.c:219-255 | the loop and the three masks compute the compact form |
| BitString.CompactTrims | ric-app-hw/defs_hwe2sm/BIT_STRING.c:219-255 | exactly the trailing zero bits are gone |
| BitString.CompactCanonical | ric-app-hw/defs_hwe2sm/BIT_STRING.c:219-255 | equal exactly for strings that differ only in trailing zero bits (section 22.7 of X.680) |
| BitString.AndNegative | ric-app-hw/defs_hwe2sm/BIT_STRING.c:238-238 | `v & -v` leaves just the lowest bit that is set |
| BitString.Compare | ric-app-hw/defs_hwe2sm/BIT_STRING.c:261-305 | memcmp, sizes and unused bits give the lexicographic order of the compact octets |
| BitString.OrderIsFraction | ric-app-hw/defs_hwe2sm/BIT_STRING.c:261-305 | the comparison orders strings as the binary fractions whose digits they are |
| BitString.OrderTransitive | ric-app-hw/defs_hwe2sm/BIT_STRING.c:261-305 | the comparison is transitive |
| BitString.OrderAntisymmetric | ric-app-hw/defs_hwe2sm/BIT_STRING.c:261-305 | swapping the operands negates the result |
| BitString.OrderZero | ric-app-hw/defs_hwe2sm/BIT_STRING.c:261-305 | 0 exactly when the strings differ only in trailing zero bits |
| BitStringUper.EncodeBitString | ric-app-hw/defs_hwe2sm/BIT_STRING.c:426-544 | length field, bits and zero trailer, or fragments, or the failure |
| BitStringUper.DecodeBitString | ric-app-hw/defs_hwe2sm/BIT_STRING.c:322-423 | what is read, on every stream |
| BitStringUper.BitStringRoundTrip | ric-app-hw/defs_hwe2sm/BIT_STRING.c:321-544 | the string comes back up to trailing zero bits; a fixed-size string bit for bit; any number of fragments |
| BitStringLayout.BitsExactly | ric-app-hw/defs_hwe2sm/BIT_STRING.c:426-544 | bit for bit what is written: the string without its clear end, filled up to the least size behind a field that says the size, or in fragments, with the extension bit |
| BitStringLayout.BitsLayout | ric-app-hw/defs_hwe2sm/BIT_STRING.c:519-541 | the fragments, whose lengths count bits |
| BitStringLayout.BitsReadExactly | ric-app-hw/defs_hwe2sm/BIT_STRING.c:322-423 | on any stream: exactly which bits are taken for which string |
| BitStringUper.TransferBits | ric-app-hw/defs_hwe2sm/BIT_STRING.c:321-544 | encoder, flush, reader and decoder together do that |
| Sinks.FixedSink.Consume | ric-app-hw/defs_hwe2sm/asn_application.c:61-77 | all output is counted; the buffer holds all of it exactly while it fits and is not written otherwise |
| Sinks.GrowingSink.Consume | ric-app-hw/defs_hwe2sm/asn_application.c:83-114 | the buffer holds all output with room for a terminator, or only counts once memory is refused |
| Sinks.CollectAll | ric-app-hw/defs_hwe2sm/asn_application.c:189-221 | any run of chunks is held whole and terminated |
| Sinks.CollectInto | ric-app-hw/defs_hwe2sm/asn_application.c:160-187 | the full size is reported, and the output is in the buffer when it fits |
| XerString.ConvertHexadecimal | ric-app-hw/defs_hwe2sm/OCTET_STRING.c:800-872 | the octets appended and the characters taken, within the size estimate |
| XerString.FeedHexAnySplit | ric-app-hw/defs_hwe2sm/OCTET_STRING.c:800-872 | any split of a valid text, the unconsumed end re-presented, gives the octets of the whole |
| XerString.EncodeHex | ric-app-hw/defs_hwe2sm/OCTET_STRING.c:600-657 | the digits of the octets in canonical form, or between blanks |
| XerString.HexRoundTrip | ric-app-hw/defs_hwe2sm/OCTET_STRING.c:600-872 | however the digits are laid out and split, the octets come back |
| XerSpelling.HexStringRead | ric-app-hw/defs_hwe2sm/OCTET_STRING.c:800-872 | hexadecimal digits of either case, blanks wherever they are, in any pieces: the octets they spell, a last odd digit filled up with zero bits |
| XerSpelling.HexStringRefused | ric-app-hw/defs_hwe2sm/OCTET_STRING.c:800-872 | any other character is refused |
| XerSpelling.HexDigitsSpelled | ric-app-hw/defs_hwe2sm/OCTET_STRING.c:600-657 | the encoder's digits spell the octets, in upper case |
| XerString.ConvertBinary | ric-app-hw/defs_hwe2sm/OCTET_STRING.c:877-934 | appends the bits of a text from whatever bit position the last one ended at |
| XerString.EncodeBinary | ric-app-hw/defs_hwe2sm/BIT_STRING.c:95-151 | the zeros and ones of the string |
| XerString.FeedBinaryAnySplit | ric-app-hw/defs_hwe2sm/OCTET_STRING.c:877-934 | any split of a text gives the bits of the whole, or is refused exactly when the whole is no valid text |
| XerString.FeedBinary | ric-app-hw/defs_hwe2sm/OCTET_STRING.c:877-934 | the converter fed piece by piece does that |
| XerString.BinaryRoundTrip | ric-app-hw/defs_hwe2sm/BIT_STRING.c:95-151 | a bit string comes back from its text |
| XerSpelling.BitStringRead | ric-app-hw/defs_hwe2sm/OCTET_STRING.c:877-934 | zeros and ones with blanks between them: just those bits |
| XerSpelling.BitStringRefused | ric-app-hw/defs_hwe2sm/OCTET_STRING.c:877-934 | any other character is refused |
| XerSpelling.BitTextSpelled | ric-app-hw/defs_hwe2sm/BIT_STRING.c:95-151 | the encoder writes one digit for each bit in turn |
| XerText.EncodeText | ric-app-hw/defs_hwe2sm/OCTET_STRING.c:659-795 | the escaped text, control characters included |
| XerText.EscapedApart | ric-app-hw/defs_hwe2sm/OCTET_STRING.c:753-795 | characters are escaped one by one |
| XerText.EscapedAlone | ric-app-hw/defs_hwe2sm/OCTET_STRING.c:661-711 | three of them by name, others from the space on, tabs and line ends as themselves |
| XerText.ConvertEntrefs | ric-app-hw/defs_hwe2sm/OCTET_STRING.c:940-1118 | what is converted and how much is taken: named references, numeric ones as UTF-8, a stop at an incomplete one, an abort at character 0; never more octets than characters |
| XerText.TextRoundTrip | ric-app-hw/defs_hwe2sm/OCTET_STRING.c:752-1118 | text without control characters comes back from its escaped form, all of which is taken |
| XerText.TransferText | ric-app-hw/defs_hwe2sm/OCTET_STRING.c:752-1118 | encoder and converter together do that |
| XerText.DecimalReference | ric-app-hw/defs_hwe2sm/OCTET_STRING.c:940-1118 | the decimal reference of every character from 1 to 0x10FFFF becomes its UTF-8 octets |
| XerReferences.Utf8Exact | ric-app-hw/defs_hwe2sm/OCTET_STRING.c:1034-1060 | the octets written for a code point are the only ones that stand for it in the shortest form (section 3 of RFC 3629) |
| XerReferences.HexadecimalReference | ric-app-hw/defs_hwe2sm/OCTET_STRING.c:940-1118 | a hexadecimal reference in either case and with any zeros in front becomes the octets of its code point, is left as text beyond 0x10FFFF, and aborts for character 0 |
| XerReferences.DecimalDigitsReference | ric-app-hw/defs_hwe2sm/OCTET_STRING.c:940-1118 | so does a decimal one with any zeros in front; the letters of hexadecimal digits count as ten to fifteen in it |
| XerReferences.NamedExactly | ric-app-hw/defs_hwe2sm/OCTET_STRING.c:1061-1110 | an ampersand without a number: just three names are expanded; with any other semicolon within five characters it stands for itself, and without one more text is waited for |
| XerReferences.NumericUnended | ric-app-hw/defs_hwe2sm/OCTET_STRING.c:940-1030 | digits without a semicolon: at the end of the text more is waited for while the number can be a code point, otherwise the ampersand stands for itself |
| XerText.HandleControlChars | ric-app-hw/defs_hwe2sm/OCTET_STRING.c:713-750 | the tag of every control character is taken for just that character, and any other tag is refused |
| SdlStore.ShardsActAsOne | ric-plt-sdlgo/syncstorage.go:64-474 | for any number of backends and any hash, every run of commands on separate namespaces gives the replies of one flat map |
| SdlStore.SeparateExactly | ric-plt-sdlgo/syncstorage.go:64-474 | for every set of namespaces: all runs on a fresh store answer as one flat map exactly when no two namespaces on a backend share a key and each one's pattern finds all its own keys and none of another |
| SdlStore.SeparateByPattern | ric-plt-sdlgo/syncstorage.go:635-637 | which is to say, without a look at keys: each one's pattern matches its own prefix and may be continued, and of two on a backend neither clashes with the other nor has a pattern that can match what starts with its prefix |
| SdlGlob.CanMatchExactly | ric-plt-sdlgo/syncstorage.go:465-474 | a pattern matches some continuation of a text exactly when a recursion over both says so, unclosed classes included |
| SdlGlob.MustMatchExactly | ric-plt-sdlgo/syncstorage.go:465-474 | a pattern matches every continuation of a text exactly when it matches the text and what follows its last star matches any characters |
| SdlGlob.AnyRun | ric-plt-sdlgo/syncstorage.go:465-474 | a star stands for any run of characters |
| SdlGlob.ClassOne | ric-plt-sdlgo/syncstorage.go:465-474 | a class stands for one character that a member of it holds, a character or a range either way round; behind a caret, for one that none holds |
| SdlGlob.EscapedOne | ric-plt-sdlgo/syncstorage.go:465-474 | a character behind a backslash stands for itself |
| SdlGlob.AnyOne | ric-plt-sdlgo/syncstorage.go:465-474 | a question mark stands for one character |
| SdlGlob.ItselfOne | ric-plt-sdlgo/syncstorage.go:465-474 | any other character stands for itself |
| SdlStore.SeparateLiteral | ric-plt-sdlgo/syncstorage.go:635-637 | for namespaces without glob characters that is: no two on a backend clash by "}," |
| SdlStore.GoodSeparate | ric-plt-sdlgo/syncstorage.go:635-637 | namespaces with neither "}," nor glob characters are separate under every hash and number of backends |
| SdlStore.ClashExample | ric-plt-sdlgo/syncstorage.go:635-637 | two namespaces and a Set and a Get that show a clash |
| SdlStore.GlobExample | ric-plt-sdlgo/syncstorage.go:465-474 | two namespaces and a Set, a RemoveAll and a Get that show a pattern emptying another namespace |
| SdlStore.Run | ric-plt-sdlgo/syncstorage.go:267-474 | the client's methods on a fresh store answer as one empty map would |
| SdlStore.KeysClash | ric-plt-sdlgo/syncstorage.go:635-637 | two namespaces share a stored key exactly when they are equal or one continues the other with "}," |
| SdlStore.FoundByPattern | ric-plt-sdlgo/syncstorage.go:422-474 | the pattern of a namespace without glob characters finds exactly its keys |
| SdlStore.BackendOther | ric-plt-sdlgo/syncstorage.go:267-474 | a command leaves every other namespace on the same backend alone |
| SdlStore.StoredWhere | ric-plt-sdlgo/syncstorage.go:635-637 | a command changes nothing but what is stored on the instance its namespace's hash chooses under "{namespace},key", and that as it says |
| SdlStore.RemovedWhere | ric-plt-sdlgo/syncstorage.go:465-474 | RemoveAll takes exactly what the pattern "{namespace},*" finds on that instance |
| SdlStore.GetReads | ric-plt-sdlgo/syncstorage.go:284-304 | a Get answers exactly the keys it was asked for, with what is stored under them there or nil |
| SdlStore.SyncStorage.Set | ric-plt-sdlgo/syncstorage.go:267-277 | the flattened arguments are written on the namespace's backend, or nothing is when they cannot be flattened or there is nothing to write, which the backend refuses |
| SdlStore.SetMeans | ric-plt-sdlgo/syncstorage.go:139-277 | arguments that spell pairs, as single values, lists or maps, are written as those pairs under the namespace, the later over the earlier; arguments that spell none are an error, no arguments are not |
| SdlStore.MapAsValueExample | ric-plt-sdlgo/syncstorage.go:145-150 | a map where a value belongs: its key is stored as the value, and its value becomes a key outside the namespace |
| SdlArguments.FlattenInTurn | ric-plt-sdlgo/syncstorage.go:139-207 | flattening gives keys and values in turn exactly when no map that is not empty stands where a value belongs |
| SdlArguments.FlattenMeans | ric-plt-sdlgo/syncstorage.go:139-207 | and then it gives the pairs the arguments spell, each key with the namespace's prefix, or fails exactly when they spell none |
| SdlArguments.SetNamespaceToKeys | ric-plt-sdlgo/syncstorage.go:139-207 | the loop computes the recursive flattening, with its errors and its panic on a key that is no string |
| SdlStore.SyncStorage.Get | ric-plt-sdlgo/syncstorage.go:284-304 | each key with its value or nil |
| SdlStore.SyncStorage.SetIf | ric-plt-sdlgo/syncstorage.go:323-325 | replaces exactly when the old data match |
| SdlStore.SyncStorage.SetIfNotExists | ric-plt-sdlgo/syncstorage.go:348-350 | sets exactly when absent |
| SdlStore.SyncStorage.Remove | ric-plt-sdlgo/syncstorage.go:380-391 | the keys are gone, nothing else |
| SdlStore.SyncStorage.RemoveIf | ric-plt-sdlgo/syncstorage.go:412-418 | removes exactly when the data match |
| SdlStore.SyncStorage.RemoveAll | ric-plt-sdlgo/syncstorage.go:465-474 | what the pattern finds is gone, nothing else |
| SdlStore.SyncStorage.GetAll | ric-plt-sdlgo/syncstorage.go:422-433 | the keys the pattern finds, in the order the backend reports them, each cut out between the first two occurrences of the prefix, or the panic when one does not contain it |
| SdlStore.AllKeys | ric-plt-sdlgo/syncstorage.go:422-433 | for a namespace without glob characters: exactly its keys, each up to the next occurrence of the prefix, and no panic; two that are cut to the same text appear twice |
| SdlStore.PanicsExactly | ric-plt-sdlgo/syncstorage.go:422-433 | it panics exactly when the pattern finds a key in which the prefix does not occur |
| SdlStore.PanicExample | ric-plt-sdlgo/syncstorage.go:422-433 | a namespace and a key of another for which it does |
| SdlStore.PieceExactly | ric-plt-sdlgo/syncstorage.go:429-431 | the piece of a key that comes back is what stands between the first place of the prefix and the next, or the end |
| SdlStore.KeyWhole | ric-plt-sdlgo/syncstorage.go:429-431 | a key comes back whole exactly when it does not contain its namespace's prefix |
| SdlStore.CutExample | ric-plt-sdlgo/syncstorage.go:429-431 | a key that comes back cut |
| SdlLock.Exclusive | ric-plt-sdlgo/syncstorage.go:563-612 | after every interleaving of any clients' steps at most one lock object is live for a key |
| SdlLock.StaleForEver | ric-plt-sdlgo/syncstorage.go:563-612 | a lock object that lost its lock never has it again |
| SdlLock.HandOver | ric-plt-sdlgo/syncstorage.go:563-612 | a lock passes on only after its holder gave it up or its time ran out |
| SdlLock.HolderKeeps | ric-plt-sdlgo/syncstorage.go:563-612 | over every run a holder stays live until a step of its own or of time that may end its lock |
| SdlLock.UntilDeadline | ric-plt-sdlgo/syncstorage.go:563-612 | over every run of other clients' steps and time short of the deadline, the lock stays exactly as it is |
| SdlLock.OnlyOwnerOrTime | ric-plt-sdlgo/syncstorage.go:594-612 | no step of another client ends or alters a live lock |
| SdlLock.StaleHarmless | ric-plt-sdlgo/syncstorage.go:594-612 | release and refresh of a lock object that is not live fail and change nothing |
| SdlLock.WrongNamespaceHarmless | ric-plt-sdlgo/syncstorage.go:594-612 | so do release and refresh under a wrong namespace |
| SdlLock.RefreshLives | ric-plt-sdlgo/internal/sdlgoredis/sdlgoredis.go:929-941 | a refresh succeeds exactly for a live lock object, and keeps it alive exactly for one millisecond or more: a shorter one deletes the lock and reports success |
| SdlLock.RefreshExample | ric-plt-sdlgo/internal/sdlgoredis/sdlgoredis.go:929-941 | a lock that is refreshed for 999999 nanoseconds with success and is gone |
| SdlLock.AttemptsBounded | ric-plt-sdlgo/sdl.go:348-353 | a call makes at most max(retries, 0) + 1 attempts, after every run |
| SdlLock.LockResource | ric-plt-sdlgo/syncstorage.go:563-589 | the lock is obtained exactly when one of the first max(retries, 0) + 1 answers is "taken" and all before it are "busy", an error ends the call at once, and no more is asked than it takes to know |
| SdlLock.RunKeeps | ric-plt-sdlgo/syncstorage.go:563-612 | the invariant of tokens, places and deadlines holds after every run |
| SdlLock.LastsExactly | ric-plt-sdlgo/syncstorage.go:563-612 | while its holder takes no step, a lock is live exactly until its deadline |
| SdlLock.TakenForItsLife | ric-plt-sdlgo/syncstorage.go:563-589 | a lock taken with a life L, however long the call waited, is stored under the namespace and the resource and live exactly until L after it was taken |
| SdlLock.RefreshedFor | ric-plt-sdlgo/syncstorage.go:608-612 | a refresh makes it live exactly until that many milliseconds after the refresh |
| SdlLock.ReleaseFrees | ric-plt-sdlgo/syncstorage.go:594-604 | a release of a live lock frees the resource and nothing else |
| SdlLock.BusyAttempt | ric-plt-sdlgo/syncstorage.go:570-588 | an attempt on a resource that is locked takes nothing, and the call goes on exactly while attempts are left |
| SdlLock.OrphanLasts | ric-plt-sdlgo/syncstorage.go:571-574 | a lock without a lock object is there exactly until its deadline, whatever anybody does |
| SdlLock.LostLockStays | ric-plt-sdlgo/syncstorage.go:571-574 | an attempt the backend carried out and the client saw fail leaves such a lock: for its whole life, or for ever |

## Left out

- ENUMERATED and CHOICE descriptors without a root range (`range_bits` below 0), an extensible INTEGER without one, semi-constrained and unsigned INTEGER in PER.
- Members of a SEQUENCE that are open types selected by another member (`OPEN_TYPE_uper_get`).
- Aligned PER for SEQUENCE, CHOICE, ENUMERATED and strings; UPER for OCTET STRING and character strings.
- OctetStringResume.Resume: calls that stop between two headers of a chain of tags, for which it does not hold (`OctetStringResume.FrameForgotten`, `OctetStringSplits.SplitsExactly`); input below 2^30 octets, the source's limit.
- OctetStringResume.FeedAnySplit: the same.
- OctetStringDecoder.DecodePieces: the same.
- OctetStringTree.DecodesInAnyPieces: the same.
- OctetStringTree.TreeDecodes: encodings below 2^30 octets, the source's limit; ANY values.
- OctetStringTree.AcceptedExactly: the same.
- BerCheckTags.AcceptsIndefinite: chains of more than one kind of length are covered by `BerChain.ChainExact`, which says that they are refused.
- `ber_check_tags` for untagged types (no tags at all).
- Named values in XML text (`INTEGER_map_enum2value`), and unsigned INTEGER in XML.
- XerText.TextRoundTrip: control characters, which become empty elements; the XML tokenizer that hands those to `OCTET_STRING__handle_control_chars` (`XerText.HandleControlChars`) is not part of this model.
- UperVersions.AcrossVersions: versions that differ in the alternatives of a CHOICE or the values of an ENUMERATED; a member with a DEFAULT is the same in both versions.
- OctetStringExact.SucceedsExactly: input below 2^30 octets, the source's limit.
- OctetStringExact.Yields: the same.
- The layout in which `BIT_STRING_encode_xer` breaks non-canonical text into indented lines.
- BER and XER for SEQUENCE and CHOICE, `der_write_tags`, constraints checking, printing, random fill, memory release.
- `INTEGER_compare` and the order of INTEGER values.
- Notifications, groups and `ListKeys` in the SDL client.
- SdlStore.ShardsActAsOne: errors of the backend, and RemoveAll as two separate commands.
- IntegerAper.GetAlign: a stream refilled in chunks that end inside an octet, where the source aligns to the chunk and not to the stream.
- IntegerAper.DecodeAper: the same.
- SdlArguments.SetNamespaceToKeys: a map is taken in the one order of its iteration that is given.
- SdlLock.Exclusive: other commands that write to the key of a lock, and random tokens that repeat.
