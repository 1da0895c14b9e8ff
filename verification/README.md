# A verified model of the s2n-tls buffer, PEM, keyed-hash and counter cores

The project models the parts of s2n-tls in which a mistake is hard to see by reading one function, and proves
what they promise over every input and every run of calls.

**Stuffers.** A stuffer is a byte buffer with a read, a write and a high-water cursor, which may grow, and which
is *tainted* once a raw pointer into it has been handed out. `StufferSpec` gives each operation as a function on
values (`Buf`); the class `Stuffers.Stuffer` is the code over an array, each method proved to compute that
function. Memory is had from an allocator given as a function of the request, so that every outcome of an
allocation is covered. `StufferRuns` has the laws over runs: conservation of bytes, stability of pointers,
completeness of wiping. `Vectors` shows that length reservations, however nested, write exactly the wire form.

**PEM.** `Text`, `Base64` and `Pem` are the reader with its rewinds, its 64-character chunks and its speculative
attempts; `PemSpec` says what a text means. `PemChunks` compares chunked with whole decoding, and `PemRoundTrip` says
what every rendering of a certificate list is read as, and exactly which are read back as that list. `PemKeys` says
the same of private keys under their labels. `Certificate` builds the linked chain and sends it.

**Keyed hashes.** The hash functions are parameters (`HashFn`): any functions with digests of the right size.
`Hash` is the streaming state with a count of compression rounds, `Hmac` the four-state keyed hash over it,
`HmacRuns` its laws over runs, `Hkdf` and `HkdfLabel` the key derivation of RFC 5869 and of section 7.1 of
RFC 8446.

**Counters.** `Counters` is the carry loop, `Sequence` the record numbers and additional data, `DrbgSpec` the
CTR_DRBG of section 10.2.1 of NIST SP 800-90A with a number for V, `Drbg` the generator that works in place. The
block cipher and the sources of entropy are parameters.

**Small ones.** `Scram` is the SCRAM mode of the script, `SessionCache` the 256-entry session cache of the
command-line tools.

`dafny verify dfyconfig.toml` checks everything.

## What the code does differently from what one would expect

These are properties that fail as first stated. Each has a lemma with the exact condition.

- Joining an END line to the next BEGIN line without a newline works unless their dashes run to exactly 65, and a
  separator that begins with `BEGIN ` directly behind the dashes of an END line is taken for the next block:
  `PemRoundTrip.RoundTrip` has the condition, `PemRoundTrip.SixtyFiveDashes` and `PemRoundTrip.SeparatorBegins` the
  smallest such texts. Such a text is refused but for one kind, of which `PemRoundTrip.MisreadHappens` is one. The
  same joints decide whether an EC key behind its curve parameters is read: `PemKeys.KeyBehindParameters`.
- Decoding 64 characters at a time accepts padding at the end of a chunk inside the body, which decoding the whole
  body refuses: `PemChunks.ChunkedAndWhole`, `PemChunks.PaddingInside`.
- The search for two dashes reports success also when it does not find them, and the rewind after it may cross the
  place where it began: `Text.ReadUntilWithout` and `PemSpec.DelimiterExists` have the conditions,
  `Text.SuccessWithoutFinding` and `PemSpec.DelimiterStepsBack` an input each.
- After a digest in two compression rounds the inner hash may be ready again, holding zeros instead of the key. A
  further digest without a reset then succeeds and is not an HMAC: `HmacRuns.DigestInRun`,
  `HmacRuns.SecondDigestDiffers`.
- A context of more than 255 bytes may still fit the label buffer; its length byte is then cut, and what is written
  is not the structure of the standard: `HkdfLabel.WritesStructure`. It is still injective.

## Model

| member | source | states |
|---|---|---|
| `StufferRuns.Run` | stuffer/s2n_stuffer.c:25-40 | in every state that any run of operations reaches, with any outcomes of allocation, read <= write <= high-water mark <= size, and growable implies allocated |
| `StufferRuns.QueueConserves` | stuffer/s2n_stuffer.c:253-455 | over any run of writes (bytes, integers, vectored, formatted, base64 with its padding given back), reads, growth and shifts, what was waiting followed by what was written is what was read followed by what is waiting |
| `StufferRuns.ReadsArePrefixOfWrites` | stuffer/s2n_stuffer.c:253-378 | from an empty stuffer the bytes read in any such run are a prefix of the bytes written |
| `StufferRuns.QueueStep` | stuffer/s2n_stuffer.c:253-455 | one such call adds its payload at the back or takes bytes from the front, and a refused one does neither |
| `StufferRuns.RefusedWriteChangesNothing` | stuffer/s2n_stuffer.c:298-378 | a refused write leaves memory, cursors and flags as they were; the two that fail after they have taken effect, a vectored write that comes to an oversized buffer and a format whose passes disagree, are told apart |
| `StufferRuns.TaintPinsMemory` | stuffer/s2n_stuffer.c:129-175 | while tainted, no operation but wipe, init, alloc and free replaces or resizes the memory or clears the taint |
| `StufferRuns.PointersStayGood` | stuffer/s2n_stuffer.c:129-315 | over any run of such operations a pointer handed out still addresses the same block of the same size |
| `StufferRuns.RawCallsTaint` | stuffer/s2n_stuffer.c:244-315 | every successful raw read or write taints, and the bytes it lends are below the high-water mark |
| `StufferRuns.RunKeepsSound` | stuffer/s2n_stuffer.c:129-306 | in every legal run each offset stored to since the last wipe, by the stuffer or through a lent pointer, is below the high-water mark |
| `StufferRuns.WipeIsComplete` | stuffer/s2n_stuffer.c:220-233 | from a zeroed stuffer, after any legal run, failed calls included, a wipe leaves the wipe pattern at every offset of the present memory ever stored to |
| `StufferRuns.EraseLeavesZeros` | stuffer/s2n_stuffer.c:286-296 | the bytes that an erasing read returns are zero in the memory afterwards, which is otherwise as it was |
| `StufferRuns.StepStoresOnly` | stuffer/s2n_stuffer.c:177-378 | each operation changes bytes only at the offsets it is said to store to |
| `StufferSpec.GatherIsSlice` | stuffer/s2n_stuffer.c:348-378 | a vectored write takes exactly the slice from `offs` to `offs + size` of the buffers laid end to end, as far as they go; where it comes to a buffer of which 2^32 bytes or more are left, the beginning of that |
| `StufferSpec.WriteFits` | stuffer/s2n_stuffer.c:324-346 | a write that fits is never refused, stays in the same memory and appends exactly its bytes |
| `Stuffers.Stuffer.Over` | stuffer/s2n_stuffer.c:63-76 | a stuffer over a blob is empty, neither growable nor tainted |
| `Stuffers.Stuffer.Allocated` | stuffer/s2n_stuffer.c:86-107 | a new stuffer is empty and growable only if its memory was had |
| `Stuffers.Stuffer.Realloc` | utils/s2n_mem.c:195-235 | growing keeps the old bytes, moves to a fresh block only when the block is too small, and changes nothing when refused |
| `Stuffers.Stuffer.Resize` | stuffer/s2n_stuffer.c:129-163 | refused when tainted or not growable; shrinking wipes what it gives up and pulls all cursors in |
| `Stuffers.Stuffer.ResizeIfEmpty` | stuffer/s2n_stuffer.c:165-175 | only a stuffer without memory is given any |
| `Stuffers.Stuffer.ReserveSpace` | stuffer/s2n_stuffer.c:393-409 | on success there is room for `n` bytes, and contents and cursors are as before |
| `Stuffers.Stuffer.Rewrite` | stuffer/s2n_stuffer.c:177-184 | cursors return to the beginning, memory and high-water mark stay |
| `Stuffers.Stuffer.RewindRead` | stuffer/s2n_stuffer.c:186-193 | moves the read cursor back by exactly `n` or refuses and moves nothing |
| `Stuffers.Stuffer.Reread` | stuffer/s2n_stuffer.c:195-200 | everything written becomes unread again |
| `Stuffers.Stuffer.WipeN` | stuffer/s2n_stuffer.c:202-213 | takes back at most what was written, overwrites it and keeps the read cursor within bounds |
| `Stuffers.Stuffer.Wipe` | stuffer/s2n_stuffer.c:220-233 | overwrites up to the high-water mark, empties and ends the taint |
| `Stuffers.Stuffer.SkipRead` | stuffer/s2n_stuffer.c:235-242 | succeeds exactly when that many bytes are unread |
| `Stuffers.Stuffer.RawRead` | stuffer/s2n_stuffer.c:244-251 | taints whenever it lends a pointer |
| `Stuffers.Stuffer.ReadBytes` | stuffer/s2n_stuffer.c:273-284 | returns the first unread bytes |
| `Stuffers.Stuffer.EraseAndRead` | stuffer/s2n_stuffer.c:286-296 | returns the first unread bytes and zeroes them in the buffer |
| `Stuffers.Stuffer.SkipWrite` | stuffer/s2n_stuffer.c:298-306 | makes room and raises the high-water mark with the write cursor |
| `Stuffers.Stuffer.RawWrite` | stuffer/s2n_stuffer.c:308-315 | taints whenever it lends a pointer |
| `Stuffers.Stuffer.WriteBytes` | stuffer/s2n_stuffer.c:324-346 | appends the bytes, wherever the memory then is, or changes nothing |
| `Stuffers.Stuffer.WritevBytes` | stuffer/s2n_stuffer.c:348-378 | the skip-and-take loop over the buffers stores the gathered slice; at an oversized buffer it fails with the room made and what it had taken in place |
| `Stuffers.Stuffer.CopyImpl` | stuffer/s2n_stuffer.c:380-391 | on success moves bytes from one queue to the other; when the destination refuses, it is unchanged |
| `Stuffers.Stuffer.CopyTo` | stuffer/s2n_stuffer.c:411-423 | a failed copy restores the read cursor of the source, so that neither queue changes |
| `Stuffers.Stuffer.Shift` | stuffer/s2n_stuffer.c:439-455 | moves the unread bytes to the front within the same memory |
| `Stuffers.Stuffer.Printf` | stuffer/s2n_stuffer_text.c:230-276 | appends the text; the terminating zero is stored, wiped and given back, and the taint is as before; a text that is not as long as measured is wiped and given back whole |
| `Stuffers.Stuffer.WriteNetworkOrder` | stuffer/s2n_stuffer_network_order.c:22-39 | the shift loop stores the big-endian form |
| `Stuffers.Stuffer.WriteUint24` | stuffer/s2n_stuffer_network_order.c:112-116 | numbers of 2^24 and more are refused |
| `Stuffers.Stuffer.Reserve` | stuffer/s2n_stuffer_network_order.c:41-54 | holds the place with the wipe pattern |
| `Stuffers.Stuffer.WriteReservation` | stuffer/s2n_stuffer_network_order.c:167-199 | fills exactly the reserved bytes and restores the write cursor; a number that does not fit leaves everything |
| `Stuffers.Stuffer.WriteVectorSize` | stuffer/s2n_stuffer_network_order.c:201-215 | writes the number of bytes appended since the reservation |
| `Vectors.CloseVector` | stuffer/s2n_stuffer_network_order.c:181-215 | closing succeeds exactly when the count fits its width, and then the reservation and what follows have become length and contents |
| `Vectors.EmitWritesWireForm` | stuffer/s2n_stuffer_network_order.c:41-215 | vectors nested to any depth, through any reallocation, come out as their wire form (section 3.4 of RFC 8446); given room, or memory to grow, they are refused exactly when they have none |
| `Text.SkipToChar` | stuffer/s2n_stuffer_text.c:109-120 | stops at the first occurrence or at the end |
| `Text.SkipWhitespace` | stuffer/s2n_stuffer_text.c:44-62 | stops at the first character that is not white |
| `Text.SkipExpectedChar` | stuffer/s2n_stuffer_text.c:123-143 | succeeds exactly when the run of that character, cut at `max`, has at least `min` |
| `Text.ReadExpectedStr` | stuffer/s2n_stuffer_text.c:64-79 | moves past the string exactly when it stands at the cursor |
| `Text.PeekCheckForStr` | stuffer/s2n_stuffer_text.c:34-42 | answers the same without moving |
| `Text.SkipReadUntil` | stuffer/s2n_stuffer_text.c:82-106 | the scan with its rewinds computes the cursor that `ReadUntil` describes |
| `Text.ReadUntilFinds` | stuffer/s2n_stuffer_text.c:82-106 | when the target occurs, the cursor stops right behind its first occurrence |
| `Text.ReadUntilMeans` | stuffer/s2n_stuffer_text.c:82-106 | success means either that, or that the target does not occur and fewer characters than it has are left |
| `Text.ReadUntilWithout` | stuffer/s2n_stuffer_text.c:82-106 | on a text without the target the call still reports success if and only if too little text is left at the start, or the last place where the target could stand has its first character; where the cursor then is |
| `Text.SuccessWithoutFinding` | stuffer/s2n_stuffer_text.c:82-106 | looking for two dashes in a dash and a letter succeeds |
| `Base64.IsBase64Char` | stuffer/s2n_stuffer_base64.c:23-35 | the chain of exclusive ors accepts exactly the alphabet and the padding character |
| `Base64.DecodeEncode` | stuffer/s2n_stuffer_base64.c:41-121 | decoding inverts encoding (section 4 of RFC 4648) |
| `Base64.CharOfIsTable` | stuffer/s2n_stuffer_base64.c:53-81 | each of the 64 values has the character of its place in the alphabet of section 4 of RFC 4648, written out |
| `Base64.QuadValue` | stuffer/s2n_stuffer_base64.c:53-81 | four characters decode to the number that their places in the alphabet form, as three bytes, and with one or two padding characters to the first two or the first byte of it |
| `Base64.GroupAt` | stuffer/s2n_stuffer_base64.c:53-81 | in a decoded text the bytes of group k stand at 3k, and only the last group may give fewer than three |
| `Base64.DecodeOnto` | stuffer/s2n_stuffer_base64.c:53-81 | what the library decodes less the bytes that stand for padding is appended; a refused text disturbs nothing that was there |
| `Base64.ReadBase64` | stuffer/s2n_stuffer_base64.c:41-84 | the whole groups that are unread are decoded onto the output, or refused because malformed or for want of room |
| `Base64.EncodeOnto` | stuffer/s2n_stuffer_base64.c:96-118 | the characters are appended and the library's terminating zero is taken back |
| `Base64.WriteBase64` | stuffer/s2n_stuffer_base64.c:86-121 | all unread bytes are consumed and their encoding appended; refused exactly for want of room |
| `Pem.ReadDelimiterChars` | stuffer/s2n_stuffer_pem.c:37-55 | computes the position that `Delimiter` describes: behind at most 64 of the dashes found |
| `PemSpec.DelimiterExists` | stuffer/s2n_stuffer_pem.c:37-55 | dashes are found if and only if two stand together from the cursor on, or the cursor is at the second of a pair that only one more character follows, which the rewind crosses back to |
| `PemSpec.DelimiterStepsBack` | stuffer/s2n_stuffer_pem.c:47-48 | three dashes and a letter, read on from the third dash: found |
| `Pem.FinishLine` | stuffer/s2n_stuffer_pem.c:68-80 | the dashes of a line, the step back before a joined BEGIN line, and white space |
| `Pem.ReadEncapsulationLine` | stuffer/s2n_stuffer_pem.c:57-81 | succeeds exactly when the line the specification describes is there, and stops where it ends |
| `Pem.ReadContents` | stuffer/s2n_stuffer_pem.c:93-130 | the chunked loop appends exactly the decoded body and stops at the dash; if it fails on a good body there was no room |
| `Pem.ReadBody` | stuffer/s2n_stuffer_pem.c:99-124 | at the dash the decoded chunks and the characters still waiting make up the body; it terminates on every text |
| `Pem.ReadChar` | stuffer/s2n_stuffer_pem.c:108-123 | a character leads on towards the decoded body, or the body has no decoding, or there was no room |
| `Pem.DataFromPem` | stuffer/s2n_stuffer_pem.c:132-145 | success is a block with this keyword, whose body is what the output has gained; failure with room means there is none |
| `Pem.SkipParameters` | stuffer/s2n_stuffer_pem.c:158-169 | starts over, passes a block of EC parameters if there is one and wipes the output |
| `Pem.EcOrPkcs8Key` | stuffer/s2n_stuffer_pem.c:171-185 | although the output is only rewound between the last two attempts, nothing of the first survives in the second |
| `Pem.PrivateKeyFromPem` | stuffer/s2n_stuffer_pem.c:147-185 | on success the unread output is exactly the body of the one block whose label chose the type; from any start, with room, it succeeds exactly when the text holds a key there, which `PemKeys` says of every text that is a key written out |
| `Pem.Pkcs8ExcludesEc` | stuffer/s2n_stuffer_pem.c:166-182 | a text whose first line opens a PKCS#8 key opens neither EC block, so that those attempts write nothing |
| `Pem.HasCertificate` | stuffer/s2n_stuffer_pem.c:193-198 | looks ahead on a copy: the stuffer does not move |
| `PemSpec.BlockSize` | stuffer/s2n_stuffer_pem.c:47-77 | every block read moves on by more than the bytes it yields, despite the two rewinds |
| `PemRoundTrip.RoundTrip` | crypto/s2n_certificate.c:43-74 | certificates written out with any preamble, separators and ending that hold no two dashes in a row, any further characters in the bodies and any joined lines are read back as exactly those certificates if and only if every joint is good; otherwise they are refused, unless 65 dashes stand before a body that is just the keyword |
| `PemRoundTrip.RenderingReads` | crypto/s2n_certificate.c:43-74 | what every such text is read as, good joints or not |
| `PemRoundTrip.ReadsMeans` | crypto/s2n_certificate.c:43-74 | that this is the list itself if and only if all joints are good |
| `PemRoundTrip.SixtyFiveDashes` | stuffer/s2n_stuffer_pem.c:69-77 | two one-byte certificates joined by 33 and `d1` dashes: refused for 65 in all, read for 64 and 66 |
| `PemRoundTrip.SeparatorBegins` | stuffer/s2n_stuffer_pem.c:72-77 | a separator that begins with `BEGIN ` right behind the dashes is refused, while the whole keyword on a line of its own is read over |
| `PemRoundTrip.MisreadHappens` | stuffer/s2n_stuffer_pem.c:47-77 | after 65 dashes a block whose body is the keyword is read as a certificate made of its last line |
| `PemChunks.ChunkedAndWhole` | stuffer/s2n_stuffer_pem.c:93-130 | whatever decodes as a whole decodes the same in chunks; the two differ exactly when padding stands at the end of an inner chunk |
| `PemChunks.PaddingInside` | stuffer/s2n_stuffer_pem.c:116-127 | two encodings one after the other, the first a padded chunk, are read as the bytes of both although the whole decodes to nothing |
| `PemChunks.ChunkDecodeEncode` | stuffer/s2n_stuffer_pem.c:93-130 | chunked decoding inverts encoding |
| `PemRoundTrip.BlockAt` | stuffer/s2n_stuffer_pem.c:58-145 | a well-formed block found from a position is read with its contents and its end |
| `PemRoundTrip.GoodJointLeadsOn` | stuffer/s2n_stuffer_pem.c:72-80 | after a good joint the reader stands where the dashes of the next block are the first to come |
| `PemRoundTrip.BadGapRefused` | stuffer/s2n_stuffer_pem.c:72-80 | after a row of dashes every separator that begins with `BEGIN ` makes a block refused, whatever follows, under every label whose END line is not a whole number of base64 groups |
| `PemRoundTrip.BadGapStops` | stuffer/s2n_stuffer_pem.c:72-80 | so for certificates the whole rest of the text is refused |
| `PemRoundTrip.SixtyFiveJoint` | stuffer/s2n_stuffer_pem.c:69-77 | what is read after a joint of 65 dashes: nothing, but for a body that is the keyword before a separator that is the end keyword |
| `PemRoundTrip.EndingStops` | crypto/s2n_certificate.c:50-68 | what follows the last block ends the list, and makes it refused exactly when it begins with `BEGIN ` |
| `PemKeys.KeyByLabel` | stuffer/s2n_stuffer_pem.c:147-185 | a key written out under a label, with any rows of 2 to 64 dashes, any preamble without two dashes in a row, any further characters in the body and any text behind it, is read as an RSA key with exactly its bytes under `RSA PRIVATE KEY` and `PRIVATE KEY`, as an EC key under `EC PRIVATE KEY`, and is no key under any other label but `EC PARAMETERS` |
| `PemKeys.KeyBehindParameters` | stuffer/s2n_stuffer_pem.c:158-185 | an EC key behind its curve parameters is read as such if and only if the joint between the two blocks is good; otherwise the text holds no key |
| `PemKeys.FirstBlock` | stuffer/s2n_stuffer_pem.c:57-145 | the first block of a text is read under the label it has and under no other |
| `PemKeys.AcrossJoint` | stuffer/s2n_stuffer_pem.c:68-80 | a block behind a row of closing dashes is found if and only if the joint is good, for every label whose two lines are not whole base64 groups |
| `PemKeys.LongRow` | stuffer/s2n_stuffer_pem.c:37-55 | a text whose first block opens with more than 64 dashes holds neither a key nor a certificate |
| `PemKeys.CertificateText` | stuffer/s2n_stuffer_pem.c:25-34 | the text of a certificate is spelled the same way, under `CERTIFICATE` |
| `Certificate.ReadCertificate` | crypto/s2n_certificate.c:50-61 | one block becomes one certificate; an empty one is refused, as is one for which there is no memory |
| `Certificate.CertChain.Link` | crypto/s2n_certificate.c:65-67 | appending through the insert pointer keeps the list and adds the node at its end |
| `Certificate.AddCertificate` | crypto/s2n_certificate.c:50-67 | the list gains exactly the certificate of the next block |
| `Certificate.ReadCertificates` | crypto/s2n_certificate.c:48-68 | the loop terminates on every text and yields exactly the certificates of the text in order |
| `Certificate.CreateFromStuffer` | crypto/s2n_certificate.c:43-74 | on success the list is the certificates of the text and the stored size that of their entries; when no allocation fails, failure means there are none; a failing allocation of a node or of its bytes is a failure |
| `Certificate.CertChain.GetLength` | crypto/s2n_certificate.c:630-646 | counts the nodes of the list; an empty list is refused |
| `Certificate.CertChain.GetCert` | crypto/s2n_certificate.c:648-670 | finds exactly the certificate at an index and refuses indices beyond the end |
| `Certificate.SendEntry` | crypto/s2n_certificate.c:511-512 | appends a certificate behind its three-byte length |
| `Certificate.SendEntries` | crypto/s2n_certificate.c:509-528 | the walk over the list appends the entries in order |
| `Certificate.Send` | crypto/s2n_certificate.c:494-533 | what is appended is the certificate message of the chain; with room it fails only when a length does not fit |
| `Certificate.MessageInverts` | crypto/s2n_certificate.c:494-533 | a parser of section 7.4.2 of RFC 5246 reads the message back as the chain |
| `Certificate.MessageIsVector` | crypto/s2n_certificate.c:494-533 | the message is the wire form of a vector of vectors |
| `Hash.FinalRoundsAre` | crypto/s2n_hash.c:122-141 | finalising takes a second compression round exactly when the padding of section 5.1 of FIPS 180-4 does not fit the last block |
| `Hash.HashState.Init` | crypto/s2n_hash.c:355-369 | begins with nothing absorbed |
| `Hash.HashState.Update` | crypto/s2n_hash.c:211-230 | the bytes are added to those absorbed, unless the state is closed or its count would leave 64 bits |
| `Hash.HashState.Digest` | crypto/s2n_hash.c:232-270 | the digest of exactly the bytes absorbed; closes the state also when the size asked for is wrong |
| `Hash.HashState.CopyFrom` | crypto/s2n_hash.c:272-292 | the copy has absorbed the same bytes |
| `Hash.HashState.Reset` | crypto/s2n_hash.c:398-409 | reopens with nothing absorbed |
| `Hash.HashState.CurrentlyInHashTotal` | crypto/s2n_hash.c:426-435 | the number of bytes absorbed, refused when closed |
| `Hash.HashState.CurrentlyInHashBlock` | crypto/s2n_hash.c:437-449 | the bitmask yields the remainder by the block size |
| `Hmac.MacIsRfc2104` | crypto/s2n_hmac.c:97-122 | what the two prefixed hashes compute is HMAC of section 2 of RFC 2104 |
| `Hmac.MacWritesOut` | crypto/s2n_hmac.c:97-122 | for each TLS algorithm with its hash, block and digest size: under a key of up to a block the two nested hashes over the key and zeros combined with 0x5c and 0x36, written out; a longer key is as good as its hash |
| `Hmac.Sslv3MacWritesOut` | crypto/s2n_hmac.c:78-95 | for SSLv3 the nested hashes over the key itself and 48 or 40 pad bytes |
| `Hmac.HmacState.LoadKey` | crypto/s2n_hmac.c:99-107 | the pad holds the key of one block: hashed when too long, filled with zeros |
| `Hmac.HmacState.TlsInit` | crypto/s2n_hmac.c:97-122 | both xor loops in place leave the inner and the outer key hash with exactly their prefix |
| `Hmac.HmacState.Sslv3Init` | crypto/s2n_hmac.c:78-95 | the key and a row of pad bytes instead |
| `Hmac.HmacState.Init` | crypto/s2n_hmac.c:183-220 | whatever state it was in, it is then open under the new key with no data and no key material in the pad |
| `Hmac.HmacState.Update` | crypto/s2n_hmac.c:222-254 | adds the data; pieces of more than 17535 bytes are refused with nothing changed; the counter is the plain sum modulo the block size |
| `Hmac.HmacState.Digest` | crypto/s2n_hmac.c:256-264 | the outer hash over the digest of what the inner hash has absorbed; then closed until a reset |
| `Hmac.HmacState.DigestTwoCompressionRounds` | crypto/s2n_hmac.c:266-289 | the same value, and exactly two inner compression rounds for every message and both block sizes |
| `Hmac.HmacState.Reset` | crypto/s2n_hmac.c:303-316 | open again under the same key, the counter in step |
| `Hmac.HmacState.CopyFrom` | crypto/s2n_hmac.c:323-347 | the copy is in the same abstract state, so that every later run goes the same |
| `Hmac.CountMeans` | crypto/s2n_hmac.c:222-254 | the constant 4294949760 never changes the count, and no 32-bit sum overflows |
| `Hmac.PadBytes` | crypto/s2n_hmac.c:109-118 | the second pad byte turns the inner into the outer pad |
| `HmacRuns.RunState` | crypto/s2n_hmac.c:183-316 | after any run of init, update, digest and reset the whole state is what the calls amount to: the last key, the accepted data since it or the last reset, the data since a digest that left zeros behind, and the counter |
| `HmacRuns.DigestInRun` | crypto/s2n_hmac.c:256-289 | in any run, either digest succeeds exactly when there is a key, the size is right and data is pending or stale; pending data gives its HMAC, stale data a hash with zeros in the place of the inner key |
| `HmacRuns.FamilyFollowsTrails` | crypto/s2n_hmac.c:183-347 | over any run of calls and copies on any number of states, each state is that of one run of calls: its own after those of the state it was copied from |
| `HmacRuns.DigestInFamily` | crypto/s2n_hmac.c:183-347 | so in any run of init, update, digest, reset and copy each first digest is the HMAC of the key and the data along its trail |
| `HmacRuns.SecondDigest` | crypto/s2n_hmac.c:266-289 | two digests in two rounds without a reset: the second is taken over a block of zeros |
| `HmacRuns.SecondDigestDiffers` | crypto/s2n_hmac.c:266-289 | a hash function under which the two differ although no data came between |
| `HmacRuns.CounterInRun` | crypto/s2n_hmac.c:222-316 | at every point of a run where the inner hash is open and what was given since the last reset fits 64 bits, the block counter is its byte count modulo the block size |
| `Hkdf.Extract` | crypto/s2n_hkdf.c:44-61 | the HMAC of the key under the salt, refused when the buffer is too small |
| `Hkdf.ExpandRound` | crypto/s2n_hkdf.c:78-88 | one block of section 2.3 of RFC 5869; the info is limited to one HMAC piece |
| `Hkdf.ExpandRounds` | crypto/s2n_hkdf.c:78-99 | the loop fills the output with the stream, the last block cut short |
| `Hkdf.Expand` | crypto/s2n_hkdf.c:63-101 | the output is the first L bytes of T(1), T(2), ...; it succeeds exactly for 1 <= L <= 255 times the digest size, and otherwise leaves the output |
| `Hkdf.ShorterIsPrefix` | crypto/s2n_hkdf.c:63-101 | a shorter output is a prefix of a longer one |
| `Hkdf.OkmBlock` | crypto/s2n_hkdf.c:78-99 | block i of the output is the keyed hash over block i - 1, the info and the byte i + 1, the last one cut short |
| `Hkdf.EmptySaltIsZeros` | crypto/s2n_hkdf.c:44-61 | no salt extracts the same key as a digest of zeros |
| `Hkdf.Derive` | crypto/s2n_hkdf.c:104-115 | extract and expand composed, with the exact condition for success |
| `HkdfLabel.WriteLabel` | crypto/s2n_hkdf.c:349-370 | the label always fits when it has at most 249 bytes and the context 255; in general exactly up to 504 together |
| `HkdfLabel.ExpandLabel` | crypto/s2n_hkdf.c:349-376 | the expansion with the written label as info, with the exact condition for success |
| `HkdfLabel.WritesStructure` | crypto/s2n_hkdf.c:349-370 | the written bytes are the HkdfLabel of section 7.1 of RFC 8446 if and only if the context has at most 255 bytes |
| `HkdfLabel.WrittenInjective` | crypto/s2n_hkdf.c:349-370 | different lengths, labels or contexts are never written alike |
| `HkdfLabel.WrittenParts` | crypto/s2n_hkdf.c:349-370 | the written bytes in their places: output length in two bytes, label length, `tls13 `, label, context length, context |
| `HkdfLabel.KeyLabel` | crypto/s2n_hkdf.c:349-370 | the label `key` for 48 bytes without context, byte for byte |
| `Counters.Increment` | crypto/s2n_drbg.c:34-45 | the carry loop in place computes the next byte string and tells whether it wrapped |
| `Counters.SuccessorAddsOne` | crypto/s2n_drbg.c:34-45 | which is addition of one modulo 256^n on the big-endian value |
| `Counters.AllOnesVal` | crypto/s2n_sequence.c:24-42 | only the byte string of all ones has the greatest value |
| `Sequence.IncrementSequenceNumber` | crypto/s2n_sequence.c:24-42 | one more, failing exactly at all ones, where it has gone round to zero |
| `Sequence.AfterCounts` | crypto/s2n_sequence.c:24-42 | n increments succeed exactly when the value plus n fits, and then the value is n more |
| `Sequence.SequenceNumberToUint64` | crypto/s2n_sequence.c:44-56 | shifting and adding yields the big-endian value, within 64 bits |
| `Sequence.AadInit` | tls/s2n_aead.c:24-48 | fills the buffer with the additional data of section 6.2.3.3 of RFC 5246 and nothing more; refused exactly when the buffer is too small |
| `Sequence.AadBytes` | tls/s2n_aead.c:24-48 | number in bytes 0 to 7, type in 8, version in 9 and 10, length in 11 and 12 |
| `Sequence.AadInjective` | tls/s2n_aead.c:24-48 | equal additional data means equal number, type, version and length |
| `Sequence.AadDistinctInRun` | tls/s2n_aead.c:24-48 | along any run of increments up to the first failure no two records share additional data |
| `DrbgSpec.BlocksDistinct` | crypto/s2n_drbg.c:59-88 | with an injective cipher the full blocks of one request are pairwise distinct, also where V wraps |
| `DrbgSpec.RequestDistinct` | crypto/s2n_drbg.c:203-225 | so in any request that is served no full block comes twice |
| `DrbgSpec.CounterBlockVal` | crypto/s2n_drbg.c:34-45 | V counts modulo 2^128 and is encrypted in big-endian form |
| `DrbgSpec.BitsByte` | crypto/s2n_drbg.c:59-88 | byte i of the output is byte i % 16 of the encryption of V + i / 16 + 1 |
| `DrbgSpec.UpdateByte` | crypto/s2n_drbg.c:90-113 | new key and V in a row are the key stream combined with the data byte by byte, the key first |
| `DrbgSpec.InstantiateByte` | crypto/s2n_drbg.c:161-201 | from a zero key and V, with byte i of the entropy combined with byte i of the string, or with zero behind its end |
| `DrbgSpec.ReseedByte` | crypto/s2n_drbg.c:144-159 | with the entropy as it is |
| `DrbgSpec.AfterGenerateByte` | crypto/s2n_drbg.c:203-225 | after a request key and V are the key stream behind the blocks served |
| `Drbg.Generator.NextBlock` | crypto/s2n_drbg.c:34-57 | V is one more modulo 2^128, and the block is its encryption |
| `Drbg.Generator.Bits` | crypto/s2n_drbg.c:59-88 | the output is the key stream from V + 1 on, cut to size, and V has been counted once for every block begun |
| `Drbg.Generator.Update` | crypto/s2n_drbg.c:90-113 | key and V become those of section 10.2.1.2 of NIST SP 800-90A; wrong sizes are refused |
| `Drbg.Generator.MixInEntropy` | crypto/s2n_drbg.c:115-130 | the update with the string mixed into the entropy |
| `Drbg.Generator.Seed` | crypto/s2n_drbg.c:132-142 | the update of the standard; the count of bytes begins anew; without entropy nothing changes |
| `Drbg.Generator.Mix` | crypto/s2n_drbg.c:144-159 | the same without the count beginning anew |
| `Drbg.Generator.Instantiate` | crypto/s2n_drbg.c:161-201 | after any run the state is that of section 10.2.1.3.1 for the same entropy and string; a failing source leaves zero key and V |
| `Drbg.Generator.Generate` | crypto/s2n_drbg.c:203-225 | after any run of calls the bits are those of the standard's reseed and generate for the same run, for every size up to 8192; 16 times the blocks encrypted since seeding is the number of bytes used |
| `Drbg.Generator.Wipe` | crypto/s2n_drbg.c:227-240 | nothing is left, and generating is refused until the next start |
| `Scram.DecryptInverts` | scram/aes_scram.py:38-213 | whenever encryption succeeds, decryption returns the message, for every key, nonce, data, frame size and random value |
| `Scram.EncryptSpelled` | scram/aes_scram.py:54-108 | the ciphertext is the key stream over the message and zeros, X the one-time pad over the random value and the padding length, and the tag the first 16 bytes of HMAC-SHA512, with the four inputs of the keyed hash written out as byte strings |
| `Scram.InputsSpelled` | scram/aes_scram.py:71-108 | the four inputs byte by byte: nonce, purpose in four bytes, both lengths in eight bytes each, authenticator, random value |
| `Scram.DecryptAuthenticates` | scram/aes_scram.py:147-194 | a message is returned if and only if X decrypts to a random value and padding length with which the tag over the authenticator of data and ciphertext, both lengths and that value is right, and it is the ciphertext so decrypted less the padding |
| `Scram.EncryptSucceeds` | scram/aes_scram.py:54-108 | given library calls that succeed, it is refused exactly when the padding length does not fit two bytes, which it does up to frames of 65536 |
| `Scram.CiphertextSize` | scram/aes_scram.py:56-81 | the least multiple of the frame size that holds the message |
| `Scram.InputInjective` | scram/aes_scram.py:75-108 | inputs of the keyed hash for nonces of one size agree only in all parts, so that the four purposes never share one |
| `SessionCache.Cache.StoreCallback` | bin/common.c:426-442 | the entry answers the new key; sizes out of range are refused |
| `SessionCache.Cache.RetrieveCallback` | bin/common.c:444-465 | over any run, a hit exactly when a value is left under this key and fits, and then that value |
| `SessionCache.Cache.DeleteCallback` | bin/common.c:467-484 | succeeds exactly when the key fits and nothing is left under any other key with the same first byte, and then nothing is left in the entry; otherwise changes nothing |
| `SessionCache.LatestMeans` | bin/common.c:426-484 | a value is left exactly when some call stored it under this key and no later call deleted it or stored a key with the same first byte |

## Left out

- Cipher, signature, certificate and key-exchange wrappers around libcrypto: thin calls into code that is not part of this model.
- The compression functions of the hashes, the block cipher and the authenticator: they are parameters with a stated size of result.
- TLS 1.3 certificate extensions in `s2n_send_cert_chain`: the extension sender is not part of this model.
- Reading integers, hex, lines and tokens from stuffers, file-descriptor input and output: they would add only easy members.
- The libcrypto variants of HKDF, the hash algorithm tables of FIPS mode, error codes: tables and plumbing.
- The test-only switch that turns prediction resistance off.
- Stuffers.Stuffer.CopyImpl: source and destination that share memory are excluded, where growing would free what is read.
- Stuffers.Stuffer.CopyTo: source and destination that share memory are excluded.
- Pem.DataFromPem: input and output that share memory are excluded.
- Base64.ReadBase64: on a malformed text it is only said that earlier output is undisturbed, as the library may have written anything behind it; the library call is taken to follow section 4 of RFC 4648, with padding in the last group only; sizes stay below 2^31.
- Base64.WriteBase64: sizes stay where the C integers do not overflow.
- Certificate.CreateFromStuffer: texts are shorter than 2^31 bytes.
- Hmac.HmacState.DigestTwoCompressionRounds: the number of rounds is stated for a counter that is in step, which `HmacRuns.CounterInRun` shows it to be in every run that has given less than 2^64 bytes since its last reset.
- Hash.HashState.Update: pieces are below 2^32 bytes, as the parameter is.
- Hkdf.ExpandRound: the round number is read as its lowest byte, as on a little-endian machine.
- Drbg.Generator.Update: the cipher itself never fails; a source of entropy fills the buffer it is given or fails.
- Sequence.SequenceNumberToUint64: numbers of more than eight bytes are excluded, for which the shift is undefined in C.
- Scram.DecryptInverts: the printing of intermediate values is dropped; the key stream and the authenticator may refuse a nonce or a length, and then so do encryption and decryption.
