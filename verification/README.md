# Device protocols, verified

A Dafny model of the byte formats, stream parsers and request/reply state machines this library uses to
talk to Apple devices, with proofs of what they promise. Each component has a specification (functions on
values), the code in its own form (classes and methods with the fields, loops and recursion of the source,
proved equal to the specification), and theorems about the specification. The byte formats and the answers of
the state machines are written down a second time, apart from the code's own functions: `*File`, `*Markers`,
`*Wire`, `*Tags`, `*Frames` and `RemoteXpcUpdates` in literal bytes, `*Meaning`, `*Answers`, `*Rules` and
`SrpServer` in what a caller or the other side observes.

| files | component |
|---|---|
| `PlistGraph`, `BinaryPlist*` | binary plist creator and two-phase parser, on value graphs with sharing and cycles |
| `NSKeyed*` | NSKeyedArchiver encoder and memoising decoder, alone and through the binary plist |
| `BigIntegers`, `Srp*` | big-integer helpers and the SRP-6a client |
| `Xpc*` | the XPC message codec |
| `Http2*`, `RemoteXpc*` | HTTP/2 frames, their incremental parser, and the RemoteXPC transport on top |
| `Afc*` | AFC buffered reads, packet layout, and the request/reply demultiplexer |
| `Opack2*` | the OPACK2 codec |
| `Ax*`, `Dtx*` | the accessibility DTX transport, fragment reassembly and `recvMessage` |
| `CoreDeviceQueue`, `InvocationQueueTheorems` | the promise-chain invocation queue |
| `Dns*` | DNS name encoding and decoding with compression pointers |
| `LengthSplitter`, `Splitter*` | the length-prefixed stream splitter |
| `LocalNames`, `Filename*`, `WindowsNames`, `Allocation*` | local file names for pulled files |
| `Bytes`, `ByteOrder`, `Utf8*`, `Wrappers` | fixed-width integers, UTF-8 as Node.js does it, `Option` and `Result` |

Conventions. JavaScript strings are sequences of UTF-16 code units (`Text`), buffers are sequences of bytes,
exceptions are `Err` results. Integer widths, 32-bit wrap-around, truncating remainders and `writeUInt`
range errors are written out. A concurrent component is a step function over events; its theorems quantify
over every list of events, that is, over every interleaving. Hash functions, random draws, the SRP modulus,
the rounding of 64-bit integers to doubles, number formatting and the case rules of the host are parameters,
so the theorems hold for every choice of them.

Where the source and what it says of itself differ, the model follows the code:

- AFC demux: the comment at `src/services/ios/afc/demux.ts:48-52` says the response is awaited outside the
  send lock. The function run under the lock returns the waiter's promise, so the lock is held until the
  reply settles, and requests do not overlap (`AtMostOnePending`).
- AFC demux: a write failure removes the waiter but leaves its timer armed. After `resetForNewSocket` the
  same packet number is handed out again and the old timer can unregister the new request, which then holds
  the send lock for ever (`AfcResetTheorems.NoRequestLostExactlyWhen`, `StaleTimerLosesRequest`, `LostForever`).
- Binary plist: 128..255 come back negative, UIDs above 65535 come back truncated, a finished dictionary
  with a key `type` is taken for a placeholder, and `create` throws near an offset-width boundary
  (`FaithfulExactlyWhen`, `CreateReturns`).
- OPACK2: a 15-element array is written with the variable-array marker and no terminator
  (`RoundTripExactlyWhen`).
- XPC: keys are padded by UTF-8 length when written and by UTF-16 length when read; most misread dictionaries
  are rejected, some come back with another value (`OneEntryReturnsExactlyWhen`, `SixteenReadsAsNull`). A
  message that does not decode stops the receiver for good (`StuckExactlyWhen`, `OneKeyStops`).
- SRP: the `serverPublicKey` setter stores B before it checks it (`KeyInRangeExactlyWhen`, `ReadyWithBadKey`).
- HTTP/2: a frame with bad padding discards the frames collected before it in the same chunk, so delivery
  depends on the chunking exactly when a stream holds both kinds (`ChunkingExactlyWhen`).
- NSKeyedArchiver: the string `$null` decodes to null, a buffer comes back wrapped in an object with the key
  `NS.data`, values deeper than 1000 are cut to null (`NSKeyedRoundTrip.FaithfulExactlyWhen`,
  `ChainFaithfulExactlyWhen`), and through a binary plist the numbers 128..255 come back negative
  (`WholePathFaithfulExactlyWhen`, `TwoHundredOverThePath`).
- File names: on Windows reserved names are looked for before trailing dots and spaces are stripped, and both
  before the cut at 255 bytes, so reserved names and names ending in a dot can come out
  (`ReservedExactlyWhen`, `WindowsEndsExactlyWhen`).
- DNS names: a chain of pointers that uses up the 128 turns is no error; the labels found so far are returned
  (`UnendingName`).

## Model

| member | source | states |
|---|---|---|
| BinaryPlistTheorems.ParsedCopy | src/lib/plist/binary-plist-creator.ts:33-61 | For every value graph, shared or cyclic, on which `create` returns fewer than 2^31 bytes and which meets the condition of `FaithfulExactlyWhen`: `parse` accepts the bytes and the result unfolds, to every depth, as the original does |
| BinaryPlistTheorems.RoundTrip | src/lib/plist/binary-plist-parser.ts:426-514 | Without that condition: `parse` accepts the output of `create` and builds one object per reachable array, dictionary and buffer, and what every slot of every one of them holds is stated exactly, misread integers, UIDs and `type` dictionaries included; that the bytes are those of the format is `BinaryPlistFile.FileWritten` |
| BinaryPlistTheorems.FaithfulExactlyWhen | src/lib/plist/binary-plist-parser.ts:419-421 | Every slot is what it should be if and only if no reachable number is in 128..255, no reachable UID is above 65535, and no dictionary with a key `type` is referenced once it is finished (unless its own `value` is itself) |
| BinaryPlistTheorems.SharingKept | src/lib/plist/binary-plist-parser.ts:426-488 | Corollary: two parsed slots hold the same container exactly when the original slots did |
| BinaryPlistTheorems.SameUnfolding | src/lib/plist/binary-plist-parser.ts:444-488 | A faithful parsed graph and its original have the same unfolding from every table entry, to every depth |
| BinaryPlistTheorems.NeverSalvages | src/lib/plist/binary-plist-parser.ts:494-514 | On created files the branch that rebuilds an empty top object from the table never runs |
| BinaryPlistRoundTrip.ReadObject | src/lib/plist/binary-plist-creator.ts:432-488 | Any encoded object, read back at its offset, has the shape of the original: marker, length, payload and start of the references agree for every type |
| BinaryPlistRoundTrip.SecondPhase | src/lib/plist/binary-plist-parser.ts:426-488 | Induction over the table: after `k` entries of the second phase those `k` are resolved to their contents and the others are still placeholders |
| BinaryPlistLayout.CollectIsReachability | src/lib/plist/binary-plist-creator.ts:67-103 | Collection terminates on cycles; the table lists exactly the values reachable from the root, each once, root first, closed under reference |
| BinaryPlistLayout.RefsFit | src/lib/plist/binary-plist-creator.ts:67-73 | Every reference to a collected value fits the reference width |
| BinaryPlistLayout.FlattenAt | src/lib/plist/binary-plist-creator.ts:41-45 | Offset table entry `i` is the position of the encoding of object `i` in the file |
| BinaryPlistLayout.CreateReturns | src/lib/plist/binary-plist-creator.ts:33-61 | `create` returns if and only if every reachable value can be written and the last offset fits the width chosen from the data length without the header |
| BinaryPlistLayout.CreateReturnsInWidthClass | src/lib/plist/binary-plist-creator.ts:48-55 | It does return whenever the data length and that length plus 8 fall in the same width class |
| BinaryPlistWitnesses.CreateThrowsNearWidthBoundary | src/lib/plist/binary-plist-creator.ts:48-52 | Concrete graph for which `create` throws: 254 bytes of data and an offset of 261 |
| BinaryPlistWitnesses.TwoHundredReadsNegative | src/lib/plist/binary-plist-parser.ts:155-199 | Concrete value 200, written unsigned and read back as -56 |
| BinaryPlistWitnesses.WideUidReadsShort | src/lib/plist/binary-plist-parser.ts:322-362 | Concrete value: UID 65536 is read as 256 |
| BinaryPlistWitnesses.TypeDictionaryReadsUndefined | src/lib/plist/binary-plist-parser.ts:419-421 | Concrete document: the dictionary with key `type` and value null is written, and parsed to undefined |
| BinaryPlistCreator.BinaryPlistCreator.CollectObjectsRecursive | src/lib/plist/binary-plist-creator.ts:79-103 | The recursion that grows table and identity map computes the preorder collection and keeps map and table in agreement |
| BinaryPlistCreator.BinaryPlistCreator.CreateArrayData | src/lib/plist/binary-plist-creator.ts:365-388 | The buffer filled in place holds the header and the references, or the first reference that does not fit throws; the literal bytes are in `BinaryPlistFile.ObjectWritten` |
| BinaryPlistCreator.BinaryPlistCreator.CreateDictionaryData | src/lib/plist/binary-plist-creator.ts:395-425 | Key references, then value references, each at its own place; the literal bytes are in `BinaryPlistFile.ObjectWritten` |
| BinaryPlistCreator.BinaryPlistCreator.CreateOffsetTable | src/lib/plist/binary-plist-creator.ts:495-504 | The offsets in the chosen width, or an error exactly when one does not fit |
| BinaryPlistCreator.BinaryPlistCreator.Create | src/lib/plist/binary-plist-creator.ts:33-61 | The imperative creator returns the bytes, or the error, of the specification `CreateBytes`, leaving the collected table; which bytes those are is `BinaryPlistFile.FileWritten` |
| BinaryPlistParser.BinaryPlistParser.ReadMultiByteInteger | src/lib/plist/binary-plist-parser.ts:109-133 | The shift loop equals 32-bit arithmetic up to six bytes and exact arithmetic above, with its range errors |
| BinaryPlistParser.BinaryPlistParser.ParseObjects | src/lib/plist/binary-plist-parser.ts:284-312 | First phase: one shell per container, one value per leaf, in table order |
| BinaryPlistParser.BinaryPlistParser.ResolveArrayReferences | src/lib/plist/binary-plist-parser.ts:444-457 | Pushing slot after slot onto the shell gives the slots of the specification |
| BinaryPlistParser.BinaryPlistParser.ResolveDictReferences | src/lib/plist/binary-plist-parser.ts:464-488 | Assigning entry after entry gives the entries of the specification, later duplicates winning |
| BinaryPlistParser.BinaryPlistParser.Parse | src/lib/plist/binary-plist-parser.ts:60-66 | The two-phase parser over mutable shells returns the graph, or the error, of the specification `ParseBytes`; what it makes of any bytes is in `BinaryPlistMarkers` |
| NSKeyedRoundTrip.FaithfulExactlyWhen | src/services/ios/dvt/nskeyedarchiver-encoder.ts:18-135 | For every acyclic, possibly shared value nested at most 1000 deep: decoding its archive returns the original, sets as arrays, if and only if the value is clean (no string and no key is `$null`, no buffer inside) |
| NSKeyedRoundTrip.RoundTrip | src/services/ios/dvt/nskeyedarchiver-decoder.ts:80-143 | For every such value, clean or not, the decoded archive is given exactly: sharing, placeholders, class entries, memo, visited set and depth limit leave no other trace |
| NSKeyedRoundTrip.SameWhenClean | src/services/ios/dvt/nskeyedarchiver-decoder.ts:104 | The exact result equals the original if and only if the value is clean |
| NSKeyedRoundTrip.NullStringIsLost | src/services/ios/dvt/nskeyedarchiver-decoder.ts:104 | Concrete value: the string `$null` comes back as null |
| NSKeyedDepth.ChainFaithfulExactlyWhen | src/services/ios/dvt/nskeyedarchiver-decoder.ts:80-85 | The depth limit, exactly: arrays nested n deep come back if and only if n is at most 1000 |
| NSKeyedDepth.ChainRoundTrip | src/services/ios/dvt/nskeyedarchiver-decoder.ts:80-85 | What comes back of deeper ones: 1001 arrays around null |
| NSKeyedOverPlist.WholePath | src/services/ios/accessibility-audit/dtx-transport.ts:290-305 | Archive, create, parse, decode: for every acyclic, possibly shared value nested at most 1000 deep whose archive has at most 65536 entries and whose file is written with fewer than 2^31 bytes, the result is the decoded archive of the value with its numbers 128..255 misread, and nothing else changed |
| NSKeyedOverPlist.WholePathFaithfulExactlyWhen | src/services/ios/dvt/index.ts:503-508 | On that path the original value comes back if and only if it holds no buffer, no string or key `$null` and no number in 128..255 |
| NSKeyedOverPlist.ArchiveIsReread | src/services/ios/accessibility-audit/dtx-transport.ts:290-305 | The plist graph of every such archive, one object per dictionary, array, buffer and UID, is parsed back as the archive with those numbers, followed to any depth from 5 |
| NSKeyedRereading.RereadArchive | src/services/ios/dvt/nskeyedarchiver-encoder.ts:29-77 | The encoder never looks at a number: archiving the value with its numbers misread gives the same table with those numbers misread, from any state and on cyclic graphs too |
| NSKeyedRereading.SameWhenSurvives | src/services/ios/dvt/nskeyedarchiver-decoder.ts:104 | For every acyclic value: what is decoded of the misread value is the original if and only if it has none of the exceptions |
| NSKeyedPlistReading.WrittenIsRaw | src/lib/plist/binary-plist-parser.ts:426-514 | Any document without a key `type`, shared or cyclic: created and parsed, it reads to every depth as it was, numbers 128..255 and wide UIDs excepted |
| NSKeyedPlistGraph.GraphIsJs | src/services/ios/dvt/nskeyedarchiver-encoder.ts:18-27 | The object graph of every archive is one JavaScript can build: closed, distinct keys, primitives in range |
| NSKeyedPlistGraph.GraphHasNoTypeKeys | src/services/ios/dvt/nskeyedarchiver-encoder.ts:18-27 | No dictionary of an archive has a key `type`, whatever keys the archived value has |
| NSKeyedPlistWitness.TwoHundredOverThePath | src/services/ios/dvt/index.ts:503-508 | Concrete value over the whole path: 200 is written in a file of fewer than 300 bytes and comes back as -56 |
| NSKeyedUnfolding.ArchiveIsPlain | src/services/ios/dvt/nskeyedarchiver-decoder.ts:47-75 | On every table whose references fall in rank, the memoised decoder equals the plain unfolding of the root; what that unfolding is, entry by entry, is in `NSKeyedMeaning` |
| NSKeyedUnfolding.DecodeIsPlain | src/services/ios/dvt/nskeyedarchiver-decoder.ts:80-179 | Invariant behind it: from any sound memo and any visited set above the index, decoding an index returns its plain unfolding and leaves a sound memo; what that unfolding is, entry by entry, is in `NSKeyedMeaning` |
| NSKeyedArchiveFacts.EncodeFacts | src/services/ios/dvt/nskeyedarchiver-encoder.ts:18-77 | After encoding any closed graph, cyclic ones included, every cached object has a completed entry describing it and the root index stands for the root |
| NSKeyedArchiverDecoder.NSKeyedArchiverDecoder.DecodeObject | src/services/ios/dvt/nskeyedarchiver-decoder.ts:80-179 | Terminates on every table, cyclic or malformed, with measure table size minus visited; leaves the visited set as it found it; agrees with the specification in value and memo; what each kind of entry decodes to is in `NSKeyedMeaning` |
| NSKeyedArchiverDecoder.NSKeyedArchiverDecoder.DecodeArray | src/services/ios/dvt/nskeyedarchiver-decoder.ts:184-197 | The loop over the references decodes each of them and restores the visited set |
| NSKeyedArchiverDecoder.NSKeyedArchiverDecoder.DecodeDictionary | src/services/ios/dvt/nskeyedarchiver-decoder.ts:202-221 | Keys and values pairwise over the shorter list, keys that are not primitive skipped, the visited set restored |
| NSKeyedArchiverDecoder.NSKeyedArchiverDecoder.DecodeRoot | src/services/ios/dvt/nskeyedarchiver-decoder.ts:47-75 | The root named by `$top` as a number or a UID object, entry 1 when there is none, null for an empty table |
| NSKeyedArchiverEncoder.NSKeyedArchiverEncoder.ArchiveObject | src/services/ios/dvt/nskeyedarchiver-encoder.ts:29-77 | Dispatch with the identity cache: the object array and both maps become what the specification says |
| NSKeyedArchiverEncoder.NSKeyedArchiverEncoder.ArchiveList | src/services/ios/dvt/nskeyedarchiver-encoder.ts:79-115 | Arrays and sets: the place is reserved before the items are archived and filled afterwards |
| NSKeyedArchiverEncoder.NSKeyedArchiverEncoder.ArchiveDictionary | src/services/ios/dvt/nskeyedarchiver-encoder.ts:117-135 | Keys first, then values, then the class, into the reserved place |
| NSKeyedArchiverEncoder.NSKeyedArchiverEncoder.GetClassUid | src/services/ios/dvt/nskeyedarchiver-encoder.ts:152-169 | One class entry per class name, kept in the class map |
| SrpAgreement.SecretsAgree | src/lib/apple-tv/srp/srp-client.ts:297-328 | For all private keys a, b, password hash x and scrambling value u: from B = (k v + g^b) mod N the client computes the server secret (A v^u)^b mod N of section 2.6 of RFC 5054 |
| SrpAgreement.HandshakeAgrees | src/lib/apple-tv/srp/srp-client.ts:90-138 | A whole handshake on a new client, salt and B in either order: if key generation succeeds, the session key is the digest of the server secret; only a zero scrambling value makes it throw instead |
| SrpAgreement.SessionKeyAgrees | src/lib/apple-tv/srp/srp-client.ts:183-196 | The same for every client that satisfies the invariant and has keys, identity, salt and B, in whatever way it got there |
| SrpAgreement.BaseIsServerPower | src/lib/apple-tv/srp/srp-client.ts:314-319 | Subtracting k g^x from B and correcting the truncated remainder leaves g^b mod N |
| SrpAgreement.SharedBaseIsRemainder | src/lib/apple-tv/srp/srp-client.ts:317-319 | The truncated remainder, shifted by N and reduced again, is the Euclidean remainder, for differences of either sign |
| SrpAgreement.ExponentsAgree | src/lib/apple-tv/srp/srp-client.ts:321-322 | (g^a (g^x)^u)^b and (g^b)^(a + u x) agree mod N |
| SrpAgreement.InvariantHolds | src/lib/apple-tv/srp/srp-client.ts:90-250 | Over every sequence of calls: generated keys satisfy A = g^a mod N with 0 < a < N and 1 < A < N-1, a session key is the hash of the stored secret, and a disposed client holds only zeroed or empty secrets |
| SrpAgreement.KeysArePermanent | src/lib/apple-tv/srp/srp-client.ts:245-250 | Keys once generated and a session key once derived never change until disposal, and disposal is final |
| SrpAgreement.KeyStaysInRange | src/lib/apple-tv/srp/srp-client.ts:118-138 | After any call on any client satisfying the invariant, B is in range if and only if the key just stored is, whether the setter threw or not; a call that stores none keeps it, disposal clears it |
| SrpAgreement.KeyInRangeExactlyWhen | src/lib/apple-tv/srp/srp-client.ts:125-138 | Over every run of a new client: B is in range if and only if the last call that stored a key got one between 1 and N-1, or disposal came after it |
| SrpAgreement.ReadyWithBadKey | src/lib/apple-tv/srp/srp-client.ts:125-129 | Concrete run in every group above 6: new client, identity, B = 1 (stored, the setter throws), a salt, private key 1; the client ends ready with B = 1 and A = 5 |
| SRPClient.SRPClient.SetServerPublicKey | src/lib/apple-tv/srp/srp-client.ts:118-138 | Stores B before checking it; state and outcome are those of the specification on every branch |
| SRPClient.SRPClient.SetSalt | src/lib/apple-tv/srp/srp-client.ts:90-101 | Stores the salt and generates keys when B is there |
| SRPClient.SRPClient.GenerateClientKeys | src/lib/apple-tv/srp/srp-client.ts:257-290 | The bounded retry loop: the first acceptable draw, or the error after the last attempt, with the leftover fields |
| SRPClient.SRPClient.ComputeSharedSecret | src/lib/apple-tv/srp/srp-client.ts:297-328 | Fields and errors in the order the source checks them |
| SRPClient.SRPClient.Dispose | src/lib/apple-tv/srp/srp-client.ts:220-239 | Clears password, private key, salt, secret and B, zeroes the session key, once |
| SRPClient.CalculateM1InPlace | src/lib/apple-tv/srp/crypto-utils.ts:119-156 | The byte-by-byte exclusive or in place equals the specification of M1; that it is the proof a server expects is `SrpServer.ProofIsAccepted` |
| BigIntegers.PowerModExactlyWhen | src/lib/apple-tv/utils/buffer-utils.ts:64-84 | Modular power is the (truncated) remainder of base^exponent for every base, exponent >= 0 and modulus, if and only if not (exponent 0 and modulus 1 or -1) |
| BigIntegers.ModPow | src/lib/apple-tv/utils/buffer-utils.ts:64-84 | The square-and-multiply loop computes it, with both range errors |
| BigIntegers.TruncPow | src/lib/apple-tv/utils/buffer-utils.ts:73 | Reducing the base first with a truncating remainder does not change the reduced power, negative bases and moduli included |
| BigIntegers.BufferRoundTrip | src/lib/apple-tv/utils/buffer-utils.ts:10-33 | Fixed-length buffers hold exactly the values from 0 to 256^length - 1, and give them back |
| BigIntegers.BufferRestored | src/lib/apple-tv/utils/buffer-utils.ts:10-33 | Reading any non-empty buffer and writing it at its length restores it |
| BigIntegers.MinimalRoundTrip | src/lib/apple-tv/utils/buffer-utils.ts:44-51 | Minimal buffers round-trip and have no leading zero byte except for 0 |
| XpcRoundTrip.MessageRoundTrip | src/lib/remote-xpc/xpc-protocol.ts:147-248 | For every message whose keys and strings are readable, followed by any bytes at all: decoding returns the message up to the normalisation of the code, consumes exactly its bytes, and their number is a multiple of 4 |
| XpcRoundTrip.MessageReturns | src/lib/remote-xpc/xpc-protocol.ts:147-248 | When rounding to doubles is exact up to 2^53: a message of numbers up to 2^53, clean strings, data, dates, arrays and dictionaries with readable keys comes back unchanged |
| XpcRoundTrip.DecodeAt | src/lib/remote-xpc/xpc-protocol.ts:293-438 | Every object tree, encoded anywhere in a buffer, decodes to its normal form and leaves the reader at its end |
| XpcRoundTrip.KeyReadExactlyWhen | src/lib/remote-xpc/xpc-protocol.ts:456-469 | A NUL-free key reads back (lone surrogates replaced); the reader stops at its end if and only if its UTF-8 and UTF-16 lengths agree modulo 4 |
| XpcMisreads.OneEntryReturnsExactlyWhen | src/lib/remote-xpc/xpc-protocol.ts:280-287 | A dictionary of one entry, any key and any value but an array or dictionary, decodes to itself if and only if the key has no NUL and no lone surrogate, its UTF-8 and UTF-16 lengths agree modulo 4, and the value alone comes back |
| XpcMisreads.LateIsWrong | src/lib/remote-xpc/xpc-protocol.ts:376-438 | Behind a key misread by three bytes no value but an array or dictionary is read as itself |
| XpcMisreads.StringIsWrong | src/lib/remote-xpc/xpc-protocol.ts:404-413 | Strings are the hard case: three bytes late, and cut wherever the misread length says, the UTF-8 bytes of a string never decode to that string |
| XpcKeys.OneEntryCases | src/lib/remote-xpc/xpc-protocol.ts:280-287 | Any value, containers included: with equal lengths modulo 4 the dictionary decodes to its normal form, unless a key inside the value is misread; at every other difference except 3 it is rejected; at 3 it is accepted only if the three bytes behind the tag of the value are a supported tag shifted down a byte |
| XpcKeys.SixteenReadsAsNull | src/lib/remote-xpc/xpc-protocol.ts:456-469 | Concrete dictionary: a key of three accented letters and a plain one, with value 16, is accepted and comes back with null |
| XpcKeys.OneNullExactlyWhen | src/lib/remote-xpc/xpc-protocol.ts:280-287 | With a null value: decodes if and only if the lengths agree modulo 4 |
| XpcKeys.KeyReadsBackExactlyWhen | src/lib/remote-xpc/xpc-protocol.ts:456-469 | Any key: it reads back whole with the reader at its end if and only if it has no NUL and its lengths agree modulo 4 |
| XpcKeys.KeyWithNul | src/lib/remote-xpc/xpc-protocol.ts:456-469 | A key that holds a NUL reads back as the part before it, and where the reader stops |
| XpcRoundTrip.Aligned | src/lib/remote-xpc/xpc-protocol.ts:293-371 | Every encoded object is a multiple of 4 bytes long |
| XpcRoundTrip.KeyAligned | src/lib/remote-xpc/xpc-protocol.ts:280-287 | Corollary: every encoded key is a multiple of 4 bytes long |
| XpcRoundTrip.DecodeIgnoresTail | src/lib/remote-xpc/xpc-protocol.ts:209-248 | A message that decodes decodes the same whatever follows it |
| XpcProtocol.EncodeObject | src/lib/remote-xpc/xpc-protocol.ts:293-371 | The recursive writer appends exactly the encoding of the specification, or throws where it is undefined |
| XpcProtocol.EncodeDictionary | src/lib/remote-xpc/xpc-protocol.ts:260-275 | Size, count, keys and values in order, through a nested writer |
| XpcProtocol.EncodeMessage | src/lib/remote-xpc/xpc-protocol.ts:147-181 | Wrapper header, then object magic, version and body when there is one |
| XpcProtocol.DecodeObject | src/lib/remote-xpc/xpc-protocol.ts:376-438 | The reader with its moving offset returns the value and offset, or the error, of the specification |
| XpcProtocol.DecodeDictionary | src/lib/remote-xpc/xpc-protocol.ts:443-451 | Entry after entry, duplicate keys overwritten in place |
| XpcProtocol.ReadDictionaryKey | src/lib/remote-xpc/xpc-protocol.ts:456-469 | Bytes up to NUL, then padding computed from the UTF-16 length |
| XpcProtocol.DecodeMessage | src/lib/remote-xpc/xpc-protocol.ts:209-248 | All length and magic checks in order, and the body slice |
| RemoteXpcTheorems.EndToEnd | src/lib/remote-xpc/remote-xpc-framed-transport.ts:153-195 | Messages encoded, joined, cut anywhere into padded or plain DATA frames on any streams, the frames joined and cut anywhere into chunks: the receiver emits exactly the messages in order, answers with exactly the window updates, and keeps no byte; those updates byte by byte and in sum are `UpdatesBytes` and `EndToEndUpdates` |
| RemoteXpcStuck.StuckExactlyWhen | src/lib/remote-xpc/remote-xpc-framed-transport.ts:179-195 | Pending bytes that begin with a bad magic or a whole message: over every list of frames nothing more is emitted and every byte is kept, if and only if they do not decode |
| RemoteXpcStuck.NothingMoreArrives | src/lib/remote-xpc/remote-xpc-framed-transport.ts:153-195 | The same for every list of chunks from the socket: after such a message only frame errors are emitted |
| RemoteXpcStuck.OneKeyStops | src/lib/remote-xpc/remote-xpc-framed-transport.ts:179-195 | One message with one NUL-free key whose lengths differ modulo 4 by anything but 3 is enough: no later message is ever received |
| RemoteXpcTheorems.ChunksIndependent | src/lib/remote-xpc/http2-frame-parser.ts:21-38 | For a stream without malformed padding the transport ends in the same state, with the same events and writes, for every chunking |
| Http2Chunking.ChunkingExactlyWhen | src/lib/remote-xpc/http2-frame-parser.ts:21-38 | Every chunking delivers all well-formed frames if and only if the stream does not hold both a DATA frame with bad padding and a frame without: the first makes an append throw, the second is lost with it |
| Http2Chunking.FailsExactlyWhen | src/lib/remote-xpc/http2-frame-parser.ts:74-89 | One append of a whole stream throws if and only if some complete frame of it is a padded DATA frame with an empty body or a pad length not below the body length |
| Http2Chunking.BytewiseDelivers | src/lib/remote-xpc/http2-frame-parser.ts:21-38 | Byte by byte every well-formed frame is delivered, whatever else the stream holds |
| RemoteXpcTheorems.FramesDecodeJoined | src/lib/remote-xpc/remote-xpc-framed-transport.ts:166-195 | Handling frames one by one emits the greedy decoding of their payloads joined, however messages are cut into frames |
| RemoteXpcTheorems.GreedySplit | src/lib/remote-xpc/remote-xpc-framed-transport.ts:179-195 | Greedy decoding of a prefix, then of what is left and more data, is greedy decoding of the whole |
| RemoteXpcTheorems.DrainSplit | src/lib/remote-xpc/http2-frame-parser.ts:21-38 | Cutting frames off a prefix, then off what is left and more data, is cutting them off the whole |
| RemoteXpcTheorems.SerializeParse | src/lib/remote-xpc/handshake-frames.ts:240-257 | A serialized DATA frame parses back to its stream and data with the padding removed (sections 4.1 and 6.1 of RFC 7540) |
| RemoteXpcTheorems.DrainSerialized | src/lib/remote-xpc/handshake-frames.ts:151-175 | A concatenation of serialized frames is cut back into exactly those frames |
| RemoteXpcTheorems.LengthFieldExactlyWhen | src/lib/remote-xpc/handshake-frames.ts:151-175 | Serializing never throws; the length field holds the body length if and only if the body is shorter than 2^24 bytes |
| RemoteXpcTheorems.UpdatesDefined | src/lib/remote-xpc/http2-frame-parser.ts:44-49 | Window updates for a parsed frame never fail to serialize: two for even streams with a body, none otherwise; their bytes are `RemoteXpcUpdates.UpdatesBytes` |
| Http2FrameParser.Http2FrameParser.Append | src/lib/remote-xpc/http2-frame-parser.ts:21-38 | The loop returns the complete frames and keeps the rest, or throws after consuming the malformed frame |
| Http2FrameParser.Pack | src/lib/remote-xpc/handshake-frames.ts:41-67 | Fields written at a moving offset give the big-endian packing, or the first value out of range throws |
| RemoteXpcFramedTransport.RemoteXpcFramedTransport.HandleData | src/lib/remote-xpc/remote-xpc-framed-transport.ts:153-177 | Buffer, pending bytes, emitted events and written updates become those of the specification; nothing happens without a socket |
| RemoteXpcFramedTransport.RemoteXpcFramedTransport.IngestXpcData | src/lib/remote-xpc/remote-xpc-framed-transport.ts:179-195 | Messages emitted until one does not decode; the rest is kept |
| AfcDemuxTheorems.AlwaysMatched | src/services/ios/afc/demux.ts:151-180 | Over every interleaving of calls, lock grants, writes, failures, replies, timeouts, reader failure, stop and reset: a successful outcome carries the status and data of a reply with the packet number of the request, which arrived after its packet was handed out and before the next one was; that a reply does answer is `AfcAnswers.ReplyAnswers` |
| AfcDemuxTheorems.RepliesUsedOnce | src/services/ios/afc/demux.ts:151-180 | In every reachable state the answered requests have pairwise different replies: no reply settles two requests |
| AfcDemuxTheorems.AlwaysExclusive | src/services/ios/afc/demux.ts:53-79 | In every reachable state, resets included: the lock holder is the only request in flight and the only one that can be registered, under its own number, and registered numbers are below `packetNum` |
| AfcDemuxTheorems.AtMostOnePending | src/services/ios/afc/demux.ts:66-76 | Corollary: at most one packet number is pending at any time, because the send lock is held until the reply settles |
| AfcDemuxTheorems.OutcomesAreFinal | src/services/ios/afc/demux.ts:116-149 | Each request gets at most one outcome: once it has one no later step changes it |
| AfcDemuxTheorems.AlwaysOrdered | src/services/ios/afc/codec.ts:217-230 | A socket on which no write failed carries whole packets in packet-number order, only the last possibly unfinished; within an epoch the numbers count up from 0 |
| AfcDemuxTheorems.NoRequestLost | src/services/ios/afc/demux.ts:116-145 | Between two resets, whatever fails: every open request stays registered under its number with its own timer armed |
| AfcDemuxTheorems.NoRequestLostAtFirst | src/services/ios/afc/demux.ts:81-87 | In particular from the start until the first reset |
| AfcDemuxTheorems.TimeoutEnds | src/services/ios/afc/demux.ts:122-132 | Corollary: in such a state the timer of a waiting request ends it and frees the lock |
| AfcResetTheorems.NoRequestLostExactlyWhen | src/services/ios/afc/demux.ts:81-87 | Across `resetForNewSocket`: every run after it and before the next keeps every open request registered, if and only if no timer is armed at the reset except those it clears. For any other timer, whatever its number, the proof builds a run that loses a request |
| AfcResetTheorems.UseUpNumbers | src/services/ios/afc/demux.ts:51-80 | Requests whose writes fail use up the packet numbers to any number still to come, the stale timer still armed |
| AfcDemuxTheorems.StaleTimerLosesRequest | src/services/ios/afc/demux.ts:70-73 | Concrete run where it does not: a failed write leaves its timer armed, the number is reused after a reset, and the old timer unregisters the new request |
| AfcDemuxTheorems.LostForever | src/services/ios/afc/demux.ts:112-114 | A request lost that way holds the send lock for ever: no step finishes it and nothing is ever sent again |
| AfcPacketDemux.AfcPacketDemux.SendLocked | src/services/ios/afc/demux.ts:66-68 | Number, waiter and timer are set up in one step under the lock |
| AfcPacketDemux.AfcPacketDemux.WriteThrew | src/services/ios/afc/demux.ts:71-73 | Unregisters the waiter and rejects the call; the timer is left armed |
| AfcPacketDemux.AfcPacketDemux.OnReply | src/services/ios/afc/demux.ts:151-180 | One turn of the reader loop: the waiter of the packet number gets status and data, or nobody does; what it does to the waiter is `AfcAnswers.ReplyAnswers` |
| AfcPacketDemux.AfcPacketDemux.TimerFired | src/services/ios/afc/demux.ts:122-132 | Rejects only while the number is registered |
| AfcPacketDemux.AfcPacketDemux.FailPending | src/services/ios/afc/demux.ts:198-206 | Rejects every registered waiter, clears their timers and the map |
| AfcPacketDemux.AfcPacketDemux.ResetForNewSocket | src/services/ios/afc/demux.ts:81-87 | Fails the pending ones and starts again at packet number 0 |
| AfcPackets.HeaderFields | src/services/ios/afc/codec.ts:69-77 | An encoded header reads back field by field |
| AfcPackets.ReaderSeesReplies | src/services/ios/afc/demux.ts:151-180 | However the replies are chunked and however chunks and reads interleave: once the reader waits it has seen exactly the replies sent, in order, each with its own payload |
| AfcPackets.CutReplies | src/services/ios/afc/codec.ts:133-152 | Cutting header and payload alternately off encoded replies gives exactly those replies and leaves nothing |
| AfcReadTheorems.AlwaysConserves | src/services/ios/afc/codec.ts:106-128 | Over every interleaving of chunks, reads, timeouts and closes: delivered blocks in delivery order followed by the buffer are the received bytes, and no waiter waits for bytes already there |
| AfcReadTheorems.LengthsAreRight | src/services/ios/afc/codec.ts:490-501 | Every delivered block has the length its read asked for |
| AfcReadTheorems.OneOutcomeEach | src/services/ios/afc/codec.ts:115-127 | Every read is waiting or has exactly one outcome |
| AfcReadTheorems.SingleReaderSeesTheCut | src/services/ios/afc/codec.ts:106-128 | A single reader, whose next length may depend on what it has read, sees the same blocks for every chunking and every interleaving |
| AfcReadTheorems.OvertakesExactlyWhen | src/services/ios/afc/codec.ts:109-113 | Corollary: with other reads waiting, a new read is answered ahead of them if and only if it asks for no more than is buffered |
| AfcReadTheorems.ShortReadOvertakes | src/services/ios/afc/codec.ts:109-113 | Concrete run: a one-byte read overtakes a waiting four-byte read |
| AfcSocketReader.SocketReader.OnData | src/services/ios/afc/codec.ts:483-502 | The loop serves waiters from the front while the buffer suffices |
| AfcSocketReader.SocketReader.ReadExact | src/services/ios/afc/codec.ts:106-128 | Answered from the buffer when it suffices, queued otherwise |
| AfcSocketReader.SocketReader.Timeout | src/services/ios/afc/codec.ts:118-126 | Only a read still waiting times out: the socket is given up, the other waiting reads are rejected, then this one |
| Opack2RoundTrip.RoundTripExactlyWhen | src/lib/apple-tv/encryption/opack2.ts:21-37 | `loads(dumps(v))` is `v` if and only if no array in `v` has exactly 15 elements, no longer array holds a null and no string holds a lone surrogate; for every value `dumps` accepts, its negative and fractional numbers given as their single-precision bytes |
| Opack2RoundTrip.FifteenNumbersAreLost | src/lib/apple-tv/encryption/opack2.ts:383-400 | Concrete value: an array of fifteen numbers is written but does not come back |
| Opack2RoundTrip.SelfDelimiting | src/lib/apple-tv/encryption/opack2.ts:77-174 | Followed by any bytes, decoding returns the value and stops exactly at the end of its encoding |
| Opack2RoundTrip.PrefixFree | src/lib/apple-tv/encryption/opack2.ts:45-75 | If one such encoding is a prefix of another the two values are equal |
| Opack2RoundTrip.Consumes | src/lib/apple-tv/encryption/opack2.ts:77-174 | Decoding from the start of any head of an encoding ends at the start of a head, consumes at least as many heads as the value costs, and yields no lone surrogate and no null in long arrays |
| Opack2RoundTrip.HeadsWithinCost | src/lib/apple-tv/encryption/opack2.ts:383-400 | An encoding has no more heads than its value costs, and as many only when no array has 15 elements: the unterminated 15-element array always loses |
| Opack2.Encode | src/lib/apple-tv/encryption/opack2.ts:45-75 | The dispatch writes the encoding of the specification, or throws |
| Opack2.EncodeArray | src/lib/apple-tv/encryption/opack2.ts:383-400 | Marker, elements in order, terminator from 16 elements on |
| Opack2.EncodeDict | src/lib/apple-tv/encryption/opack2.ts:407-427 | Marker, keys and values in order, double terminator for 15 entries or more |
| Opack2.Decode | src/lib/apple-tv/encryption/opack2.ts:77-174 | The dispatch over markers returns value and offset, or the error, of the specification |
| Opack2.DecodeVariableArray | src/lib/apple-tv/encryption/opack2.ts:237-248 | The loop stops at the first null |
| Opack2.DecodeVariableDict | src/lib/apple-tv/encryption/opack2.ts:250-265 | The loop stops at a pair of nulls; any other key that is not a string throws |
| AxTransportTheorems.AlwaysReplies | src/services/ios/accessibility-audit/dtx-transport.ts:479-513 | Over every interleaving: message ids are never reused, every invocation is pending or has exactly one outcome, a reply outcome comes from a frame with its own identifier, and closed means nothing pending |
| AxTransportTheorems.AlwaysWaits | src/services/ios/accessibility-audit/dtx-transport.ts:399-425 | Every inbound wait is registered under its selector or has exactly one outcome, a call outcome comes from an inbound frame with that selector, and closed means nobody waits |
| AxTransportTheorems.OutcomesAreFinal | src/services/ios/accessibility-audit/dtx-transport.ts:484-507 | An outcome never changes: reply, timeout, write failure and close exclude each other |
| AxTransportTheorems.ClosedForever | src/services/ios/accessibility-audit/dtx-transport.ts:157-181 | Once closed, over every continuation of the run: nothing is ever registered again, no outcome changes, and exactly the later invocations and waits are added, each with the closing error |
| AxTransportTheorems.EveryoneIsAnswered | src/services/ios/accessibility-audit/dtx-transport.ts:168-179 | In every run that has closed, every invocation and every wait made before or after has its outcome: nobody hangs |
| AxAuditDtxTransport.AxAuditDtxTransport.Invoke | src/services/ios/accessibility-audit/dtx-transport.ts:479-508 | Registers under a fresh id, and unregisters when the write throws |
| AxAuditDtxTransport.AxAuditDtxTransport.Dispatch | src/services/ios/accessibility-audit/dtx-transport.ts:330-364 | A reply settles its own invocation; a call settles all waiters of its selector |
| AxAuditDtxTransport.AxAuditDtxTransport.WaitForInbound | src/services/ios/accessibility-audit/dtx-transport.ts:399-425 | Registers under the selector unless closed |
| AxAuditDtxTransport.AxAuditDtxTransport.OnClose | src/services/ios/accessibility-audit/dtx-transport.ts:157-181 | Rejects every pending reply and every waiter, once |
| DtxTheorems.ReassembledExactly | src/services/ios/dvt/channel-fragmenter.ts:24-41 | For any interleaving of lanes (channel and sign) in which each lane carries its frames in order: each lane gives exactly the messages sent on it, and nothing is left over |
| DtxTheorems.LanesApart | src/services/ios/dvt/channel-fragmenter.ts:24-41 | However frames interleave, what a lane gives depends on its own frames only |
| DtxTheorems.ProcessOneLane | src/services/ios/accessibility-audit/dtx-transport.ts:257-283 | One frame changes its own lane only, completes a message exactly when it is the last fragment, and leaves every queue empty |
| DtxTheorems.ReceiveIsNextOutput | src/services/ios/accessibility-audit/dtx-transport.ts:251-284 | `recvMessage` on the bytes of any frames returns the message completed by the last frame it consumed, after frames that completed nothing; or it waits, or trips the fragment limit |
| DtxTheorems.ReceiveChunksIndependent | src/services/ios/accessibility-audit/dtx-transport.ts:251-284 | One call of `recvMessage` fed chunk by chunk ends as it would on all the bytes at once, for every chunking |
| DtxTheorems.ReceiveMore | src/services/ios/accessibility-audit/dtx-transport.ts:184-202 | Given more bytes, a waiting call goes on as if it had had them from the start, and a finished one leaves them to the next call |
| DtxTheorems.FrameInFront | src/services/ios/accessibility-audit/dtx-transport.ts:261-272 | The front frame of a byte stream is recovered whatever follows it; a header-only first fragment takes no body |
| DtxTheorems.HeaderRoundTrip | src/services/ios/dvt/dtx-message.ts:93-107 | A built header parses back, the channel code signed |
| DtxReceiver.ChannelFragmenter.AddFragment | src/services/ios/dvt/channel-fragmenter.ts:24-41 | Appends to the buffer of its sign, and queues it at the last fragment |
| DtxReceiver.DtxReceiver.RecvMessage | src/services/ios/accessibility-audit/dtx-transport.ts:251-284 | The receive loop over the fragmenter objects agrees with the specification on values |
| InvocationQueueTheorems.AlwaysSerial | src/services/ios/core-device/core-device-service.ts:146-167 | Over every interleaving of callers: operations start in call order, all but the last started have ended, and exactly the ended ones have resolved their promise |
| InvocationQueueTheorems.OneInProgress | src/services/ios/core-device/core-device-service.ts:146-167 | While one operation is in progress, every earlier one has ended and every later one is waiting |
| InvocationQueueTheorems.NextCanBeginExactlyWhen | src/services/ios/core-device/core-device-service.ts:156-160 | Some caller can begin if and only if none is in progress and one is waiting: no deadlock |
| InvocationQueueTheorems.FailureReleases | src/services/ios/core-device/core-device-service.ts:162-166 | A failing operation lets its successor begin, as a succeeding one does |
| CoreDeviceQueue.InvocationQueue.EnqueueInvocation | src/services/ios/core-device/core-device-service.ts:146-154 | Remembers the tail and installs its own promise as the new one |
| CoreDeviceQueue.InvocationQueue.EndOperation | src/services/ios/core-device/core-device-service.ts:162-166 | Releases on success and on failure |
| DnsTheorems.RoundTripExactlyWhen | src/lib/discovery/mdns-protocol.ts:63-144 | Decoding an encoded name gives it back, with its whole length, if and only if it has at most 127 labels, none empty and none with a lone surrogate |
| DnsTheorems.NameAt | src/lib/discovery/mdns-protocol.ts:83-144 | At any offset of any packet, at most 127 non-empty labels decode to themselves and the offset behind the terminator |
| DnsTheorems.CompressedName | src/lib/discovery/mdns-protocol.ts:83-144 | Labels followed by a pointer whose chain ends within the 128 turns: the name is the labels followed by the name at the target, the offset two past the first pointer (section 4.1.4 of RFC 1035) |
| DnsTheorems.SpareTurns | src/lib/discovery/mdns-protocol.ts:83-90 | A walk that ends does not depend on the turns left over |
| DnsTheorems.WalkExactlyWhen | src/lib/discovery/mdns-protocol.ts:88-141 | Every walk of every packet: it returns if and only if it makes all its turns, or stops before at a terminator or at the end of the packet; which of these is a terminator is exactly `Ends` |
| DnsTheorems.UnendingName | src/lib/discovery/mdns-protocol.ts:88-143 | A pointer into a chain that uses up the 128 turns: no error, the labels passed until then, and the offset two past the first pointer |
| DnsTheorems.SelfPointer | src/lib/discovery/mdns-protocol.ts:100-121 | A name ending in a pointer to itself decodes to its labels |
| DnsTheorems.DecodeEncoded | src/lib/discovery/mdns-protocol.ts:63-144 | What decoding an encoded name gives in every case, empty labels and more than 127 of them included |
| DnsNames.EncodeName | src/lib/discovery/mdns-protocol.ts:63-80 | The loop over labels writes the specification, or throws on a label above 63 octets |
| DnsNames.DecodeName | src/lib/discovery/mdns-protocol.ts:83-144 | The loop with pointer following, loop limit and range errors agrees with the specification |
| SplitterTheorems.Conservation | src/lib/plist/length-based-splitter.ts:153-229 | For every field width, byte order and input: frames and skipped bytes in order, followed by the buffer, are the input |
| SplitterTheorems.ChunksIndependent | src/lib/plist/length-based-splitter.ts:83-105 | Frames, skipped bytes and buffer are the same for every chunking |
| SplitterTheorems.SplitMore | src/lib/plist/length-based-splitter.ts:153-229 | Splitting a prefix, then what is left and more bytes, is splitting the whole |
| SplitterTheorems.Recovery | src/lib/plist/length-based-splitter.ts:205-222 | A stream of frames with in-range lengths is recovered exactly: every frame, nothing skipped, nothing left |
| SplitterTheorems.LengthReadBack | src/lib/plist/length-based-splitter.ts:157-175 | Length fields of 1, 2, 4 and 8 bytes read back in both byte orders |
| LengthBasedSplitter.LengthBasedSplitter.Transform | src/lib/plist/length-based-splitter.ts:83-105 | The framing loop terminates and pushes what the specification takes; an unsupported width throws once a header is buffered |
| FilenameTheorems.TruncateIsLongest | src/services/ios/afc/sanitize-local-filename.ts:82-110 | The result is the longest prefix that ends at a code-point boundary and fits the limit |
| FilenameTheorems.SanitizeIsUsable | src/services/ios/afc/sanitize-local-filename.ts:133-155 | On every platform the sanitised name is non-empty, at most 255 bytes, free of separators and control characters, and neither `.` nor `..` |
| FilenameTheorems.SuffixKept | src/services/ios/afc/sanitize-local-filename.ts:55-72 | The whole suffix is kept behind a non-empty base; the extension is cut only when it leaves no room for a base |
| WindowsNames.WindowsEndsExactlyWhen | src/services/ios/afc/sanitize-local-filename.ts:133-140 | On Windows, for every name: the result ends in a dot or a space if and only if the cleaned name is longer than 255 bytes and has one in front of its cut, truncation coming after the strip |
| WindowsNames.LongNameEndsInDot | src/services/ios/afc/sanitize-local-filename.ts:128-140 | Concrete name: 254 letters, a dot and a letter come out ending in the dot |
| WindowsNames.ReservedExactlyWhen | src/services/ios/afc/sanitize-local-filename.ts:133-140 | For every name: the result is a reserved device name if and only if, once illegal and control characters are removed, the name is a device name followed by dots and spaces of which the first is a space, or a device name, a dot, and text whose first line break does not fit into the 255 bytes |
| WindowsNames.ReservedNameSurvives | src/services/ios/afc/sanitize-local-filename.ts:136-138 | Concrete name: `con` with a trailing space and dot becomes `con` |
| WindowsNames.LongReservedName | src/services/ios/afc/sanitize-local-filename.ts:25 | Concrete name: `con.`, 251 letters and a line separator are cut to a reserved name |
| WindowsNames.BreakKeptExactlyWhen | src/services/ios/afc/sanitize-local-filename.ts:86-110 | A line break survives truncation if and only if the text up to and including it fits the limit |
| FilenameSanitizer.TruncateUtf8Bytes | src/services/ios/afc/sanitize-local-filename.ts:86-110 | The loop over code units computes the code-point specification |
| FilenameSanitizer.ReplaceTrailingDotsAndSpaces | src/services/ios/afc/sanitize-local-filename.ts:116-122 | The loop from the end strips all trailing dots and spaces |
| AllocationTheorems.NeverCollide | src/services/ios/afc/pull-local-name-allocator.ts:26-88 | After any sequence of allocations: no two names of a directory collide under its case rule, and every name is usable |
| AllocationTheorems.AllocatedIsFresh | src/services/ios/afc/pull-local-name-allocator.ts:26-49 | The name returned collides with no name used before in its directory, is non-empty and at most 255 bytes |
| AllocationTheorems.FirstNameIsSanitized | src/services/ios/afc/pull-local-name-allocator.ts:26-36 | Corollary: in an unused directory with nothing in the way the sanitised name itself is returned |
| PullLocalNameAllocator.PullLocalNameAllocator.Allocate | src/services/ios/afc/pull-local-name-allocator.ts:26-39 | The retry loop agrees with the specification in result, used names and remembered case rules |
| BinaryPlistFile.FileWritten | src/lib/plist/binary-plist-creator.ts:33-61 | For every graph on which `create` returns fewer than 2^31 bytes: the bytes are a file of the format, written down in literal bytes apart from the encoder: the magic, each object behind its offset, the offset table, the 32 trailer bytes |
| BinaryPlistFile.ObjectWritten | src/lib/plist/binary-plist-creator.ts:432-488 | Every value is written with the literal first byte of its type and length (0, 8, 9, 0x1n, 0x23, 0x4n, 0x5n, 0x6n, 0x8n, 0xan, 0xdn), the long lengths, its payload and its references in place |
| BinaryPlistMarkers.SizedRead | src/lib/plist/binary-plist-parser.ts:322-362 | On any bytes: a byte 0x4n, 0x5n, 0x6n, 0xan or 0xdn, with its short or long length, is read as data, text, an array or a dictionary of that size, its contents right behind |
| BinaryPlistMarkers.SingletonsRead | src/lib/plist/binary-plist-parser.ts:322-362 | On any bytes: 0, 8 and 9 are read as null, false and true |
| BinaryPlistMarkers.SmallIntegersRead | src/lib/plist/binary-plist-parser.ts:155-199 | On any bytes: 0x10, 0x11 and 0x12 are read as big-endian integers in two's complement |
| BinaryPlistMarkers.WideIntegersRead | src/lib/plist/binary-plist-parser.ts:155-199 | On any bytes: 0x13 and 0x14 are read as big-endian integers in two's complement, as a number where a double is exact and as a bigint otherwise |
| BinaryPlistMarkers.FixedRead | src/lib/plist/binary-plist-parser.ts:322-362 | On any bytes: 0x22, 0x23, 0x33 and 0x80 to 0x85 are read as reals, a date and UIDs from the bytes behind them |
| BinaryPlistMarkers.UnknownRead | src/lib/plist/binary-plist-parser.ts:322-362 | Bytes of types the parser does not know are rejected |
| BinaryPlistMarkers.EntryRead | src/lib/plist/binary-plist-parser.ts:464-488 | On any bytes: entry j of a dictionary has the j-th key reference, and its value reference stands behind all key references |
| BinaryPlistMarkers.SalvagedRead | src/lib/plist/binary-plist-parser.ts:494-514 | The dictionary that replaces an empty top object has, for each text of the table, the value behind its last place |
| NSKeyedMeaning.ObjectDecoded | src/services/ios/dvt/nskeyedarchiver-decoder.ts:150-162 | For every acyclic table: an ordinary object, custom classes included, decodes to its fields without `$class`; a number that indexes an array, dictionary or buffer of the table, or a `CF$UID`, is replaced by the decoding of that entry, anything else is kept |
| NSKeyedMeaning.ArrayDecoded | src/services/ios/dvt/nskeyedarchiver-decoder.ts:150-162 | A plain array in the table is decoded as such an object, its positions as keys |
| NSKeyedMeaning.UidDecoded | src/services/ios/dvt/nskeyedarchiver-decoder.ts:108-119 | An entry that is a UID, in either form, decodes to what the entry it names decodes to, or to null |
| NSKeyedMeaning.ListDecoded | src/services/ios/dvt/nskeyedarchiver-decoder.ts:184-197 | An entry with `NS.objects` alone decodes to the array of what its references name, in order |
| NSKeyedMeaning.DictionaryDecoded | src/services/ios/dvt/nskeyedarchiver-decoder.ts:202-221 | An entry with `NS.keys` and `NS.objects` decodes to its pairs over the shorter list, keys by their text, the last of equal keys winning |
| NSKeyedMeaning.RootDecoded | src/services/ios/dvt/nskeyedarchiver-decoder.ts:47-75 | The answer is the decoding of the entry that `root` in `$top` names, by a number or a UID, and of entry 1 when it names none |
| NSKeyedMeaning.ListInItself | src/services/ios/dvt/nskeyedarchiver-decoder.ts:80-85 | Cycles: a list that holds itself decodes to a list with null in those places |
| NSKeyedMeaning.ObjectInItself | src/services/ios/dvt/nskeyedarchiver-decoder.ts:150-162 | Cycles: a field that holds its own object's number or UID is kept as it is |
| SrpServer.ProofIsAccepted | src/lib/apple-tv/srp/crypto-utils.ts:119-157 | Against a server defined on its own from RFC 5054 (x, k, u and K from its verifier, salt and private key; M1 as H(H(N) xor H(g), H(I), s, A, B, K)): for every password, salt, key, draws and setter order the client sends the proof that server expects and holds its session key, or reports the zero scrambling parameter |
| SrpServer.PreparedExactlyWhen | src/lib/apple-tv/srp/srp-client.ts:245-250 | The handshake comes that far if and only if one of the hundred draws is acceptable |
| SrpServer.GeneratesExactlyWhen | src/lib/apple-tv/srp/srp-client.ts:257-290 | Key generation succeeds if and only if a draw among the hundred has a in 1..N-1 and g^a mod N in 2..N-2, and takes the first |
| SrpServer.IdentityTakenExactlyWhen | src/lib/apple-tv/srp/srp-client.ts:60-73 | A user name is taken if and only if it has a character that is not white space, and a password comes with it; it is stored without the white space at its ends |
| SrpServer.DisposedForgets | src/lib/apple-tv/srp/srp-client.ts:220-239 | After disposal no secret is left but zeros, and every later call is refused and changes nothing |
| RemoteXpcUpdates.UpdatesBytes | src/lib/remote-xpc/handshake-frames.ts:316-335 | DATA with a body on an even stream k is answered by two frames of 13 literal bytes: length 4, type 8, no flags, stream 0 and stream k in bytes 5..9, the body length in bytes 9..13; odd streams and empty bodies are not answered |
| RemoteXpcUpdates.UpdatesGiveBack | src/lib/remote-xpc/http2-frame-parser.ts:44-49 | For every list of frames and every stream: the increments written on stream k sum to the bodies received on k, those on stream 0 to the bodies received on all even streams |
| RemoteXpcUpdates.EndToEndUpdates | src/lib/remote-xpc/remote-xpc-framed-transport.ts:153-195 | On the whole path of `EndToEnd`, for every chunking: the increments written sum to the bodies sent, stream by stream |
| RemoteXpcUpdates.DataBytes | src/lib/remote-xpc/handshake-frames.ts:151-175 | A DATA frame in literal bytes: length, type 0, flag 1 for the end of the stream and 8 for padding, stream, body |
| RemoteXpcUpdates.FrameRead | src/lib/remote-xpc/http2-frame-parser.ts:51-90 | How any complete frame is read, byte by byte: other types, padding, and the frames that are refused |
| RemoteXpcUpdates.ErrorExactlyWhen | src/lib/remote-xpc/remote-xpc-framed-transport.ts:153-177 | A chunk gives an error, and then nothing else, if and only if it completes a padded DATA frame without room for its padding |
| AfcAnswers.ReplyMeans | src/services/ios/afc/codec.ts:157-174 | Opcode 1 gives the little-endian value of the first 8 payload bytes and no data; any other opcode status 0 and the whole payload |
| AfcAnswers.ReplyAnswers | src/services/ios/afc/demux.ts:151-180 | In every reachable state: a readable reply ends the request registered under its number with its own status and data, a request still being written once it is written; number and timer go, the lock is freed, nobody else changes |
| AfcAnswers.TimerAnswers | src/services/ios/afc/demux.ts:122-132 | In every reachable state: the timer of a registered request ends it with a timeout and nobody else |
| AfcAnswers.FailureAnswers | src/services/ios/afc/demux.ts:81-95 | Stopping, a replaced socket and a failing reader end every registered request, each with its own error |
| AfcAnswers.FailedWriteAnswers | src/services/ios/afc/demux.ts:70-75 | A write that throws ends its request and frees number and lock; the timer stays armed |
| AfcAnswers.Exchanged | src/services/ios/afc/demux.ts:53-79 | From any state with a free lock, the whole exchange: the packet goes out in one piece under the next number, and the reply to it ends the request with its status and data and frees the lock |
| AfcWire.PacketBytes | src/services/ios/afc/codec.ts:217-230 | A request on the wire in literal bytes: CFA6LPAA, whole length, length without content, number, opcode, header payload, content |
| AfcWire.HeaderRead | src/services/ios/afc/codec.ts:133-152 | How any 40 bytes are read: the payload length announced, number and opcode of the reply |
| AfcReadAnswers.DataAnswers | src/services/ios/afc/codec.ts:490-501 | A chunk answers the longest run of waiting reads from the front that buffer and chunk suffice for, each with the bytes next in line; the rest go on waiting |
| AfcReadAnswers.TimeoutAnswers | src/services/ios/afc/codec.ts:115-127 | A read that times out is rejected after all others and the socket is dead; the timer of a read that has ended does nothing |
| XpcWire.ObjectWritten | src/lib/remote-xpc/xpc-protocol.ts:293-371 | Every object is written in the format, in literal bytes: type tag, little-endian sizes and counts, padding to 4, keys with NUL, parts in order |
| XpcWire.MessageWritten | src/lib/remote-xpc/xpc-protocol.ts:147-181 | Every message is written behind the literal wrapper: magic, flags, length, number, body magic and version 5 |
| XpcTags.ScalarsRead | src/lib/remote-xpc/xpc-protocol.ts:376-438 | On any bytes: the literal tags of null, booleans, numbers, dates and UUIDs are read as such |
| XpcTags.SizedRead | src/lib/remote-xpc/xpc-protocol.ts:395-413 | On any bytes: data and strings behind their tag and size, a string up to its first NUL |
| XpcTags.ContainersRead | src/lib/remote-xpc/xpc-protocol.ts:419-451 | On any bytes: arrays and dictionaries behind their tag, length and count |
| XpcTags.HexDigits | src/lib/remote-xpc/xpc-protocol.ts:415-418 | A UUID reads as lower-case hexadecimal digits, the high half of each byte first |
| XpcTags.MessageRead | src/lib/remote-xpc/xpc-protocol.ts:209-248 | A message is read only behind its literal magics and version, and only when it is there whole |
| Opack2Wire.ValueWritten | src/lib/apple-tv/encryption/opack2.ts:45-75 | Every value is written in the format, in literal bytes: 3, 1 and 2 for null, true and false, integers from 8 on, the widths behind 0x30, 0x32 and 0x33, runs, containers and their terminators |
| Opack2Wire.MarkersRead | src/lib/apple-tv/encryption/opack2.ts:77-174 | On any bytes: what each single-byte marker is read as, and which are rejected |
| Opack2Wire.RunsRead | src/lib/apple-tv/encryption/opack2.ts:119-160 | On any bytes: strings and bytes in each of their four length forms |
| AxAnswers.RunAnswers | src/services/ios/accessibility-audit/dtx-transport.ts:330-345 | Every run equals an account told from the list of events alone: an invocation's id is one more than the messages sent before it, and its answer the first reply frame with that id, its timeout or the closing, whichever comes first; a failed write or a closed transport refuses it at once |
| AxAnswers.RunAnswersWaits | src/services/ios/accessibility-audit/dtx-transport.ts:399-425 | The same for waits: the answer is the first call frame with the selector, the timeout or the closing; an empty selector is never called |
| DtxWire.FrameReceived | src/services/ios/accessibility-audit/dtx-transport.ts:251-284 | On any bytes that begin with a frame of literal layout: a marker is dropped with its 32 bytes, a fragment joins its lane, the last fragment gives the lane's bytes as one message under its own identifier and leaves what follows unread |
| DtxWire.HeaderRead | src/services/ios/dvt/dtx-message.ts:72-88 | Any 32 bytes are read low byte first, each field at its literal place, the channel code alone signed |
| DtxWire.HeaderWritten | src/services/ios/dvt/dtx-message.ts:93-107 | Every header whose fields fit is written in those places |
| DtxWire.GivesUpExactlyWhen | src/services/ios/accessibility-audit/dtx-transport.ts:257-260 | A call gives up if and only if 65536 frames complete nothing |
| DnsWire.NameWritten | src/lib/discovery/mdns-protocol.ts:63-80 | A name is written label by label, an octet of length and the UTF-8 of what stands between its dots, and a zero octet; it is written if and only if no label has more than 63 octets |
| DnsWire.WalkTurns | src/lib/discovery/mdns-protocol.ts:88-141 | Any packet, octet by octet: 0 ends, 1..63 is a label, 64..191 is an error, 192 and more a pointer to 256 times the low six bits plus the next octet |
| DnsWire.NameRead | src/lib/discovery/mdns-protocol.ts:83-144 | Any packet: the labels of at most 128 turns with a dot behind each, and the offset behind the first pointer or the last octet |
| SplitterFrames.SplitsExactly | src/lib/plist/length-based-splitter.ts:153-229 | On any bytes: each cut takes the adjusted length, or for four bytes the other byte order, skips one byte when neither is in range, and stops when bytes are missing |
| FilenameRules.SanitizedByTheRules | src/services/ios/afc/sanitize-local-filename.ts:133-155 | Every name on every platform: the characters that stay, cut at the last whole character within 255 bytes; an underscore when only dots stay or, on Windows, for a device name; on Windows without trailing dots and spaces |
| FilenameRules.OthersStay | src/services/ios/afc/sanitize-local-filename.ts:9-19 | Exactly the characters each platform forbids, listed literally, are gone, and all others stay in order |
| FilenameRules.SuffixedByTheRules | src/services/ios/afc/sanitize-local-filename.ts:55-72 | The suffix stands behind an underscore in front of the part from the last dot on, behind the longest base that leaves room, all of it cut at 255 bytes |
| AllocationRules.GivesFirstFree | src/services/ios/afc/pull-local-name-allocator.ts:26-49 | After any sequence of allocations the next gives the first of its hundred proposals that is free of the names given before and, without leave to overwrite, of the disk; it fails if and only if none is |
| AllocationRules.NeverOverwrites | src/services/ios/afc/pull-local-name-allocator.ts:41-49 | Without leave to overwrite no name is given for which a file is on disk |
| Utf8Bytes.TextBytes | src/lib/remote-xpc/xpc-protocol.ts:280-287 | The UTF-8 used throughout is that of RFC 3629, code point by code point, lone surrogates as U+FFFD |

## Left out

- BinaryPlistTheorems.RoundTrip: files of 2^31 bytes and more, whose offsets the 32-bit reader cannot hold.
- BinaryPlistLayout.CreateReturns: tables of more than 2^64 entries, which no JavaScript array has.
- BinaryPlistTheorems.FaithfulExactlyWhen: whether a large integer is read as number or bigint is decided by its value; the ideal value it is compared with follows the same rule.
- NSKeyedRoundTrip.RoundTrip: cyclic values, which the encoder accepts and the decoder cuts at the back reference; for them `EncodeFacts` (the archive) and `DecodeObject` (termination, visited set) still hold.
- XpcRoundTrip.MessageRoundTrip: keys with NUL or with lengths that differ modulo 4, which do not read back whole (`KeyReadsBackExactlyWhen`); more general than ASCII keys otherwise.
- NSKeyedRoundTrip.FaithfulExactlyWhen: values nested deeper than 1000; what is cut there depends on where a shared part is decoded first, so only chains are settled (`ChainRoundTrip`).
- XpcMisreads.OneEntryReturnsExactlyWhen: arrays and dictionaries as the value. Rejected unless the key is misread by 0 or 3 bytes (`OneEntryCases`); whether one misread by 3 can come back as itself is open.
- XpcKeys.OneEntryCases: dictionaries of several entries of which an earlier key is misread.
- NSKeyedOverPlist.WholePath: archives of more than 65536 entries, whose UIDs above 65535 are misread; and values whose file `create` refuses near a width boundary, for which `CreateReturns` is exact.
- RemoteXpcTheorems.EndToEnd: streams with bad padding; `ChunkingExactlyWhen` says what chunking does to them.
- RemoteXpcStuck.StuckExactlyWhen: pending bytes whose wrapper or body has not arrived whole, even when what is there can never decode.
- Opack2RoundTrip.SelfDelimiting: values with a 15-element array, a null in a longer array or a lone surrogate, which do not round-trip.
- DnsTheorems.CompressedName: chains that do not end within 128 turns; `UnendingName` and `WalkExactlyWhen` say what they return.
- AllocationTheorems.NeverCollide: suffixes longer than 253 bytes (real ones have eight hexadecimal digits), and `allocate` calls that overlap in time.
- AfcDemuxTheorems.NoRequestLost: runs across a reset; `AfcResetTheorems.NoRequestLostExactlyWhen` says when it holds there.
- AfcPackets.ReaderSeesReplies: headers with a wrong magic, which make the reader throw; the demultiplexer sees that as a failing reader (`FailureAnswers`).
- NSKeyedMeaning.ObjectDecoded: tables with cycles, where what a field holds depends on where decoding began (`ListInItself` and `ObjectInItself` settle the direct ones), and entries nested deeper than 1000.
- BinaryPlistMarkers.FixedRead: UIDs of seven and more bytes or of 2^31 and more, which the parser shifts in 32 bits (`ReadMultiByteInteger`).
- DtxTheorems.ReceiveIsNextOutput: the connection closing while a frame is awaited.
- Binary plist dates, and objects of other classes, which are written as null; the order JavaScript gives to integer-like keys, and keys named `__proto__`.
- Rounding of trailer fields and of 8-byte splitter lengths above 2^53 to doubles.
- Floating-point numbers: plist reals are 8 opaque bytes, XPC doubles 8 opaque bytes, OPACK2 numbers that are negative or not integers 4 opaque bytes, so the precision a double loses when written is not modelled.
- Aliasing of decoded NSKeyedArchiver results, of memoised entries and of the session key returned before disposal; values only.
- NSKeyedArchiver UIDs that are not integers (a real number out of range gives undefined here and null in the code), bigints, which the encoder archives as null, and lone surrogates in archived strings.
- XPC file transfers and invalid dates.
- Error texts and log output; error kinds are kept where callers can tell them apart.
- SRP digests, key derivation and randomness: parameters; no cryptographic strength is claimed.
- Sockets, TLS, timers, back-pressure and event-loop scheduling: their effects are events in any order. A socket destroyed by others counts as closed.
- `AsyncLock` as a mutual-exclusion lock without its queue limit; any queued request may be next.
- AFC headers with fields of 2^64 and more, and the payload builders for individual operations.
- The accessibility transport's check-in exchange, payload decoding and inbound listeners; `dispatch` takes decoded payloads. The channel in a received message keeps its sign.
- CoreDevice envelopes, responses and reconnection; only the queue is modelled.
- DNS messages and resource records around the names.
- The splitter's XML mode, which no code path enters, and its logging.
- `withUniqueSuffix`, probing of the file system's case rule, and creation of the files.
- XML plists, the tunnel registry, lockdown, service wrappers, TLV8, HKDF, version comparison and other plumbing over the parts modelled here.
