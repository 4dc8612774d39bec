# A verified model of radius-tokio's codec, exchanges and caches

radius-tokio is an asynchronous RADIUS library. This project models the parts of it whose
correctness only shows over whole packets or whole runs, and proves what they promise.

**Codec.** Packet buffers and their attribute builders with rollback, the attribute walker, the
Message-Authenticator, request and reply sealing, reply verification, EAP fragmentation, and the
chained-hash hiding of User-Password, Tunnel-Password and the MPPE keys. The buffers, writers,
builders and iterators are classes whose methods update their fields as the source does; each method
is tied to a function on byte sequences, and the theorems are about those functions:

- any run of builder calls walks back to exactly the attributes whose calls succeeded;
- what the reply builder seals is what the client accepts, with an exact condition for all inputs;
- what the request builder seals verifies at the server, password and dynamic-request NAK included;
- a sealed reply to a registered sealed request completes it, through the registry and over RadSec;
- any run of key calls on a new reply leaves salts that are pairwise distinct with the top bit set;
- EAP packets, passwords and session keys cross the wire unchanged, up to trailing NULs of passwords.

**Protocols.** The client-side identifier registry with the RadSec command queue on top, the
single-flight client cache, the sharded reply cache for duplicate detection, and the per-request
gates held through weak pointers. Each is a state machine whose steps are the critical sections of
the source. Theorems are about every reachable state of every interleaving of the steps: identifiers
are never shared or reissued early, registrations complete at most once and only with verified
replies, at most one resolver and at most one reservation per key, no stuck waiter, and the sharded
cache with lazy sweeps answers like one plain timed map.

**Modelling choices.**

- MD5 and HMAC-MD5 are parameters (`Bytes.Crypto`): every theorem is for all functions from octets
  to 16 octets. Constant-time comparison is equality.
- Random salts and Authenticators, backend answers, the hasher that picks a shard, and clock
  readings are parameters.
- Time is an integer. The reply cache reads the clock under the shard lock, so its refinement
  theorem assumes a clock that does not go back within a shard. The client cache reads it before
  taking the lock, and its theorems assume nothing about the clock.
- A writing closure is the octets it appends; a nested-attribute closure is the children it attempts
  and the result it returns. Values are raw octets; a vendor number is its four octets.
- Cache keys are numbered in the order the source compares them.

**Where the code and its comments differ.** The documentation of `without_message_authenticator`
(src/codec/encode.rs:164-175) speaks of the slot only; the code truncates the whole attribute
region. `Replies.Reply.WithoutMessageAuthenticator` says when attributes are kept, and
`Replies.AppendThenOptOut` shows an append that is lost. The builder's promise that a sealed reply
verifies does not hold when the caller appends an attribute of type 80 to it, which the code does not
refuse; `Replies.SealedAccepted` gives the exact condition and `Replies.AppendedSlotIsRefused` a reply
that fails. The documentation of `add_state` (src/codec/encode.rs:196-199) says that an empty value is
rejected; the code appends it, as `PacketBuffers.EmptyValueFits` states.

Layout: one module per file, of the same name. `Bytes`, `Header`, `Attributes`, `PacketBuffers`,
`Authenticator`, `MessageAuthenticator`, `Passwords`, `Pap`, `Mppe`, `Eap`, `KeyMaterial`, `Replies`,
`ReplyRuns`, `Requests`, `Responses`, `SealedBuffers` and `RadsecNak` are the codec; `Exchange`,
`ExchangeRuns`, `RoundRobin`, `RadsecQueue` and `RoundTrips` the client transports; `DeadlineIndex`,
`ClientCache`, `CacheRuns`, `DedupReplies` and `RequestGate` the server side.
`dafny verify dfyconfig.toml` checks everything.

## Model

| member | source | states |
|---|---|---|
| Header.ParseFrame | src/codec/header.rs:205-240 | parsing a framed packet followed by any padding returns its code, identifier, length, Authenticator and region |
| Header.ParseIsFramePrefix | src/codec/header.rs:205-240 | parsing accepts exactly the buffers that begin with a frame of 20 to 4096 octets, and returns that frame's fields |
| Header.ParseDeclared | src/codec/header.rs:205-240 | for any twenty octets with a given Length and anything behind them: underflow, overflow, exceeds-buffer or the delimited region, by the Length alone; shorter buffers are too short |
| Attributes.AttributesIter.constructor | src/codec/attributes.rs:392-398 | an iterator starts at the front of the region, not halted |
| Attributes.AttributesIter.Next | src/codec/attributes.rs:357-384 | each step yields the head of the remaining walk; an error is yielded once, exactly where the walk is stuck, and nothing after it |
| Attributes.WalkDecomposes | src/codec/attributes.rs:357-384 | every region, malformed or not, is the encoding of the yielded attributes followed by a tail at which the walker is stuck |
| Attributes.WalkUnique | src/codec/attributes.rs:357-384 | that decomposition is the only one: encoding then walking returns the attributes and the tail |
| Attributes.WellFormedIffEncoded | src/codec/attributes.rs:357-384 | a region yields no error exactly when it is the encoding of an attribute list |
| Attributes.StuckBecause | src/codec/attributes.rs:357-384 | which of the three errors stops the walk, by the octets it stands on |
| Attributes.FindRaw | src/codec/attributes.rs:605-613 | the first attribute of the type; the walk's error surfaces only if no match precedes it |
| Attributes.FirstRawMeaning | src/codec/attributes.rs:605-613 | the first attribute of its type is found whatever follows it, malformed or not; without one the lookup reports what stopped the walk, or that nothing did |
| Attributes.FindVsa | src/codec/attributes.rs:422-430 | the first matching vendor attribute before any malformed slot |
| Attributes.GetVsaOfValue | src/codec/attributes.rs:156-174 | unwrapping a vendor envelope returns its data for the handle that wrapped it and nothing for any other |
| Attributes.GetVsaIff | src/codec/attributes.rs:156-174 | data is found exactly in a type-26 attribute that begins with vendor, vendor type, its length and itself |
| PacketBuffers.PacketBuffer.constructor | src/codec/mod.rs:295-305 | a new buffer is a header-only packet of 20 octets |
| PacketBuffers.PacketBuffer.FromBytes | src/codec/mod.rs:316-323 | a datagram is accepted exactly when its header parses, with the same error otherwise; padding is dropped and the copy parses the same |
| PacketBuffers.PacketBuffer.Reset | src/codec/mod.rs:340-348 | the buffer becomes a header-only packet whatever it held |
| PacketBuffers.PacketBuffer.AddAttribute | src/codec/mod.rs:409-425 | one more encoded attribute within the limits, else the stated error and the same octets |
| PacketBuffers.PacketBuffer.AddAttributeWith | src/codec/mod.rs:454-491 | the same for a value written in place: length patched on success, everything rolled back on failure |
| PacketBuffers.PacketBuffer.AddVsa | src/codec/mod.rs:529-550 | the same for a vendor envelope with its length octet patched or saturated |
| PacketBuffers.PacketBuffer.AddTlv | src/codec/mod.rs:577-598 | success exactly when the closure did not fail, the nested value has at most 253 octets and the packet stays within 4096; limits are reported before the closure's error, and every failure leaves the octets as they were |
| PacketBuffers.PacketBuffer.AddVsaTlv | src/codec/mod.rs:618-651 | the same for a nested vendor attribute, whose envelope is written out |
| PacketBuffers.PacketBuffer.Apply | src/codec/mod.rs:409-651 | any builder call returns the specified outcome and leaves the specified buffer |
| PacketBuffers.PacketBuffer.PatchLength | src/codec/mod.rs:656-660 | the Length field becomes the buffer size, nothing else changes |
| PacketBuffers.TlvWriter.WriteChild | src/codec/mod.rs:224-245 | a typed child is appended, or refused with its length and rolled back exactly when it exceeds 253 octets |
| PacketBuffers.TlvWriter.AddRaw | src/codec/mod.rs:258-268 | a raw child behaves the same without ever being written |
| PacketBuffers.RunAppendsAccepted | src/codec/mod.rs:409-651 | any run of builder calls on any packet leaves it at most 4096 octets and equal to the old octets followed by the encoding of the accepted attributes |
| PacketBuffers.RunWalksBack | src/codec/mod.rs:409-651 | on a well-formed packet the walker then yields the old attributes and exactly the accepted ones, in order, without error |
| PacketBuffers.NewPacketWalksBack | src/codec/mod.rs:282-305 | on a new packet it yields the accepted attributes and nothing else, behind an untouched header |
| PacketBuffers.WrittenComesBack | src/codec/mod.rs:454-550 | octets a closure wrote come back from the walk as one attribute of its type, vendor data under the handle that wrapped it |
| PacketBuffers.NestedTlvWalksBack | src/codec/mod.rs:577-598 | a successful nested attribute walks back to exactly the children that were kept |
| PacketBuffers.NestedVsaTlvWalksBack | src/codec/mod.rs:618-651 | so does a nested vendor attribute, only through its own handle; its vendor length is exact and never the saturated 255 |
| PacketBuffers.VsaNotSaturated | src/codec/mod.rs:529-550 | a vendor attribute that fits carries its exact vendor length and gives its data back |
| PacketBuffers.EmptyValueFits | src/codec/mod.rs:409-425 | an attribute with an empty value is refused only for want of room |
| PacketBuffers.KeptIsAllWhenAllFit | src/codec/mod.rs:224-268 | if every child fits, all children are kept in order |
| Authenticator.VerifiesIffSigned | src/codec/authenticator.rs:44-107 | a frame passes the response check, or the zeroed-request check, exactly when its Authenticator is the signature under the substituted value, which does not depend on the field itself |
| Authenticator.ShortNeverVerifies | src/codec/authenticator.rs:76-107 | fewer octets than a header never verify |
| MessageAuthenticator.Compute | src/codec/message_authenticator.rs:155-190 | the streaming HMAC equals one HMAC over header, substituted Authenticator and the region with all slot values zeroed, malformed tails included |
| MessageAuthenticator.TagOctets | src/codec/message_authenticator.rs:155-190 | the octets under the HMAC written out, in order |
| MessageAuthenticator.ZeroSlotsPointwise | src/codec/message_authenticator.rs:170-187 | exactly the values of 18-octet attributes of type 80 are zeroed, every other attribute stays as it is |
| MessageAuthenticator.ZeroedMeaning | src/codec/message_authenticator.rs:155-190 | zeroing keeps every octet in its place and a malformed tail unchanged |
| MessageAuthenticator.Verify | src/codec/message_authenticator.rs:207-234 | valid exactly for a well-formed list with one attribute of type 80 that holds the tag, absent exactly for a well-formed list with none, invalid otherwise |
| MessageAuthenticator.UnreadableIsInvalid | src/codec/message_authenticator.rs:207-217 | a malformed tail or a packet shorter than a header is invalid, never absent |
| MessageAuthenticator.ScanMeaning | src/codec/message_authenticator.rs:211-227 | the slot scan rejects exactly duplicate or mis-sized attributes of type 80, else returns where the one value stands |
| MessageAuthenticator.FindValueOffset | src/codec/message_authenticator.rs:93-112 | the offset of the first 18-octet slot of the walk, none for a short packet |
| MessageAuthenticator.SlotOffsetIsFirst | src/codec/message_authenticator.rs:93-112 | it is the position of the first 18-octet attribute of type 80 in the encoding |
| MessageAuthenticator.CountValueOffsets | src/codec/message_authenticator.rs:121-142 | the number of 18-octet slots of the walk |
| MessageAuthenticator.CountSlotsIsCardinality | src/codec/message_authenticator.rs:121-142 | it is the cardinality of the set of positions of 18-octet attributes of type 80 |
| MessageAuthenticator.HelpersAgreeWithVerify | src/codec/message_authenticator.rs:93-142 | on an absent packet they find none; on a valid one they find one slot and it holds the tag |
| MessageAuthenticator.AppendZeroedSlot | src/codec/message_authenticator.rs:247-253 | appends a zeroed slot and returns its value's offset exactly when 18 octets fit, else leaves the buffer |
| MessageAuthenticator.SignedFrameVerifies | src/codec/message_authenticator.rs:155-234 | for every attribute list that fits, a leading slot holding its packet's tag verifies exactly when no other attribute of type 80 follows |
| Responses.Verify | src/codec/response.rs:51-85 | a datagram is accepted exactly when header, identifier, code, Response Authenticator and Message-Authenticator all check; accounting may omit the last; the pre-scan for malformed slots rejects nothing more |
| Responses.WellSized | src/codec/response.rs:62-69 | the pre-scan passes exactly the readable lists whose attributes of type 80 have 16 octets |
| Responses.AcceptFrame | src/codec/response.rs:51-106 | acceptance of a framed packet with any padding, as an equivalence over its fields |
| Passwords.ChainIsBijection | src/crypto/password.rs:37-79 | for every hash, secret and seed, chained enciphering is a bijection on block-aligned plaintexts with deciphering as its inverse |
| Passwords.EncipherBlock | src/crypto/password.rs:37-79 | every ciphertext block is its plaintext block XOR-ed with the MD5 of the secret and the ciphertext block before it, or the seed |
| Bytes.XorBitwise | src/crypto/password.rs:69-76 | a bit of the exclusive-or is set exactly when the operands differ there |
| Passwords.EncryptBlocks | src/crypto/password.rs:66-78 | the in-place block loop of the encryptors computes the chain |
| Passwords.DecryptBlocks | src/crypto/password.rs:110-124 | the block loop of the decryptors computes its inverse |
| Passwords.UserPasswordEncrypt | src/crypto/password.rs:50-79 | the padded password enciphered under the Authenticator |
| Passwords.UserCipherMeaning | src/crypto/password.rs:50-79 | the ciphertext length is the least positive multiple of 16 that holds the password; the plaintext is the password and zeros |
| Passwords.UserPasswordDecrypt | src/crypto/password.rs:97-138 | refuses exactly the illegal lengths, else deciphers and strips trailing NULs |
| Passwords.UserRoundTrip | src/crypto/password.rs:50-138 | decrypting an encryption gives the password without trailing NULs, and the password itself exactly when it does not end in NUL |
| Passwords.TunnelPasswordEncryptWithSalt | src/crypto/password.rs:177-229 | length octet, key and zero padding enciphered under Authenticator and salt |
| Passwords.TunnelCipherLength | src/crypto/password.rs:177-229 | the ciphertext length is the least multiple of 16 that is at least the key length plus one |
| Passwords.TunnelPasswordDecrypt | src/crypto/password.rs:238-290 | refuses illegal lengths and embedded lengths past the plaintext, else returns the delimited key |
| Passwords.TunnelRoundTrip | src/crypto/password.rs:177-290 | every key of 0 to 239 octets comes back exactly, zeros included |
| Passwords.TunnelAcceptsIff | src/crypto/password.rs:238-290 | a ciphertext decrypts to a key exactly when its length is legal and it enciphers some plaintext that delimits the key |
| Pap.MatchIffDeciphered | src/auth/pap.rs:47-78 | verification by re-encryption matches exactly when full decryption would give the zero-padded expected password |
| Pap.MatchIffDecryptsAndSameLength | src/auth/pap.rs:47-115 | comparing with the decrypted password agrees with verification exactly when the credential also has the block count of the expected password |
| Pap.VerifyOutcomes | src/auth/pap.rs:47-78 | exactly when the result is missing, malformed or the walk error |
| Pap.DecryptOutcomes | src/auth/pap.rs:99-115 | exactly when decryption finds no credential, a malformed one or the walk error |
| Mppe.MppeRoundTrip | src/crypto/mppe.rs:57-79 | salt and ciphertext of any key of 0 to 239 octets decrypt to the key if the salt has its top bit set, and are refused otherwise |
| Mppe.InvalidKeyLengthIff | src/crypto/mppe.rs:57-79 | the embedded-length error is given exactly to well-salted, well-sized values whose deciphered length points past the plaintext |
| Mppe.MppeOutcomes | src/crypto/mppe.rs:57-79 | exactly when a value is too short, badly salted or badly sized, and exactly which values decrypt to a key |
| Eap.ReassembleInto | src/codec/eap.rs:42-60 | appends the fragments up to the first malformed slot, in order, and returns how many octets |
| Eap.PayloadOfFragmented | src/codec/eap.rs:54-60 | reassembling the fragments of a packet returns the packet |
| Eap.FragmentsAreFull | src/codec/encode.rs:242-247 | all fragments are of type 79 and have 253 octets, except the last, which has 1 to 253 |
| Eap.PayloadAmongOthers | src/codec/eap.rs:42-60 | so it does when the fragments stand among other attributes |
| Eap.WriteWithType | src/codec/eap.rs:235-254 | what is appended parses to the same code, identifier, type and type-data; over 65535 octets nothing is appended |
| Eap.Terminal | src/codec/eap.rs:275-281 | a Success or Failure packet parses to its code and identifier without a type |
| Eap.ParseDeclared | src/codec/eap.rs:330-346 | the declared Length decides between too small, exceeds-buffer and the payload it delimits |
| Eap.ParseIgnoresTrailing | src/codec/eap.rs:330-346 | octets after the declared length never change what is parsed |
| KeyMaterial.UniqueSalt | src/codec/encode.rs:390-411 | whenever the draws contain a salt that no attribute of the region carries, the retry loop ends and returns the first such draw |
| KeyMaterial.UnusedSaltExists | src/codec/encode.rs:390-411 | by counting, no packet of 4096 octets exhausts the salts with the top bit set |
| Replies.KeyOutcomeMeaning | src/codec/encode.rs:442-578 | a key of at most 239 octets is refused only for want of room for its padded attribute, a longer one for its length |
| Replies.Reply.constructor | src/codec/encode.rs:109-120 | a new reply holds the leading zeroed slot and no attributes |
| Replies.Reply.FromBuffer | src/codec/encode.rs:154-161 | a freshly reset buffer becomes an empty reply with the same code and identifier |
| Replies.Reply.WithoutMessageAuthenticator | src/codec/encode.rs:167-175 | opting out drops the slot together with everything appended after it |
| Replies.Reply.Append | src/codec/encode.rs:183-388 | each pass-through append adds exactly what the buffer's builder adds, with its outcome |
| Replies.Reply.AddEapMessage | src/codec/encode.rs:242-247 | succeeds exactly when all fragments fit; a failure keeps exactly the fragments before the first that does not fit, and names its size |
| Replies.Reply.AddTunnelPassword | src/codec/encode.rs:442-471 | outcome by code, length and room; on success one attribute under a salt new to the packet, else unchanged |
| Replies.Reply.WriteMppeKey | src/codec/encode.rs:542-578 | outcome by length and room; on success one key attribute under a salt new to the packet, else unchanged |
| Replies.Reply.AddMppeKeys | src/codec/encode.rs:513-538 | outcome of the pair by code, lengths and room; both keys under different new salts, or the first alone when only the second fails |
| ReplyRuns.Build | src/codec/encode.rs:390-578 | any run of key calls and plain appends on a new reply: the salts of the packet are pairwise distinct with the top bit set exactly if every plain append was harmless, and so whenever none is of type 26 or 69 |
| ReplyRuns.SaltsStayDistinct | src/codec/encode.rs:390-578 | the same over the attribute lists between the calls: Tunnel-Password and MPPE calls never spoil the salts, a plain append keeps them exactly if it adds no salt or a new one with the top bit set |
| ReplyRuns.PlainAppendCanSpoil | src/codec/encode.rs:183-186 | a raw Tunnel-Password with a clear top bit is a plain append that does spoil them |
| Replies.Reply.SealFor | src/codec/encode.rs:592-605 | the octets are the frame whose slot holds the tag over the final Length and whose Authenticator signs everything |
| Replies.SealedAccepted | src/codec/response.rs:51-106 | a sealed reply with any padding is accepted for exactly its identifier, the request codes it answers and the attribute lists that leave it signed; what is accepted walks back to the appended attributes |
| Replies.AcceptedPairs | src/codec/response.rs:94-106 | a sealed reply without further attributes of type 80 is accepted for its identifier exactly for ten pairs of request and reply code, written out; its slot comes first |
| Replies.UnsignedPairs | src/codec/response.rs:75-80 | without any attribute of type 80 only an Accounting-Response to an Accounting-Request is accepted |
| Replies.AppendedSlotIsRefused | src/codec/encode.rs:183-186 | a new reply takes a second, zeroed Message-Authenticator, and sealed with it is refused for every request code and identifier |
| Replies.AppendThenOptOut | src/codec/encode.rs:167-175 | on a new reply any append followed by opting out leaves a header and no attribute, though the append succeeded |
| Replies.EapSurvivesTheWire | src/codec/encode.rs:242-247 | an EAP packet fragmented among other attributes, sealed and accepted, reassembles unchanged |
| Replies.TunnelPasswordSurvivesTheWire | src/codec/encode.rs:442-471 | the Tunnel-Password of a sealed Access-Accept is found with its tag and decrypts to the original under its own salt from what the client accepts |
| Replies.MppeKeysSurviveTheWire | src/codec/encode.rs:513-578 | both keys of a sealed Access-Accept decrypt to the originals from the first matching vendor attributes of what the client accepts |
| Requests.Request.constructor | src/codec/request.rs:35-43 | a new request holds the leading zeroed slot, no attributes and no password |
| Requests.Request.UserPassword | src/codec/request.rs:87-98 | kept only for Access-Request and up to 128 octets, with the stated errors |
| Requests.Request.Append | src/codec/request.rs:100-155 | builder-managed types are refused and change nothing; others behave as the buffer's builder |
| Requests.Request.AddEapMessage | src/codec/request.rs:169-178 | all fragments or none: succeeds exactly when all fit, else the buffer is restored octet for octet |
| Requests.Request.Seal | src/codec/request.rs:180-205 | fails exactly when the hidden password does not fit; else the octets are the sealed frame of attributes and password and pass a receiver's checks |
| Requests.SealedVerifies | src/codec/request.rs:180-205 | every sealed request has a valid Message-Authenticator under its own or the zero Authenticator, by code, and the MD5 signature where that applies, and walks back to its attributes |
| Requests.SealedByCode | src/codec/request.rs:186-203 | codes 1 and 12 carry the random Authenticator and a valid tag under it; every other code a valid tag under zeros and the zeroed-request signature |
| Requests.EapReachesTheServer | src/codec/request.rs:169-205 | an EAP packet fragmented among other attributes of a request of any code, with or without a hidden password, verifies and reassembles unchanged at the server |
| Requests.PasswordSurvivesTheWire | src/auth/pap.rs:47-115 | the server decrypts the password without trailing NULs and verification matches exactly the passwords with the same padding |
| RadsecNak.UnsupportedDynamicRequest | src/client/radsec.rs:225-248 | other codes pass, a bad header or inauthentic request is an error, an authentic one gets the sealed NAK with Error-Cause |
| RadsecNak.AnswerableIff | src/client/radsec.rs:233-242 | a request is answered exactly when it is readable, its Authenticator is the zeroed-request MD5 and its Message-Authenticator, if any, holds the tag under zeros |
| RadsecNak.NakIsAccepted | src/client/radsec.rs:225-248 | the NAK answering any sealed CoA or Disconnect request is accepted by the requester as the reply to that request |
| SealedBuffers.SealAsZeroedRequest | src/codec/mod.rs:704-709 | whatever the buffer holds, it becomes a frame of it that passes the zeroed-request check |
| SealedBuffers.SealAsRandomAuthenticatorRequest | src/codec/mod.rs:726-737 | fails exactly when 18 octets do not fit; else a trailing slot is added, and on a well-formed buffer it verifies exactly when there was no attribute of type 80 before |
| Exchange.Registry.Register | src/exchange.rs:132-176 | closed, limit, exhaustion and build errors in that order, leaving cursor and entries; else an entry under the first free identifier at or after the cursor |
| Exchange.RegisterMeaning | src/exchange.rs:142-154 | each refusal with its exact condition; otherwise the packet is built for the first identifier at or after the cursor that no entry holds |
| RoundTrips.RegisteredAsSealed | src/exchange.rs:154-166 | registering a sealed request makes an entry with its code, the Authenticator in its octets 4 to 19 and the caller's secret |
| Exchange.Registry.Deliver | src/exchange.rs:178-206 | completes at most the one registration at that peer and identifier that still waits and verifies the packet |
| Exchange.Registry.Close | src/exchange.rs:208-218 | closes the registry and notifies exactly the senders that were still open |
| Exchange.Registry.IsActive | src/exchange.rs:222-230 | active exactly while the entry has its sender and the receiver lives |
| Exchange.Registry.DropLease | src/exchange.rs:233-240 | removes the lease's own entry and nothing else |
| Exchange.FreeOffset | src/exchange.rs:150-153 | the least offset whose identifier is free, with everything before it taken |
| ExchangeRuns.RunKeepsInv | src/exchange.rs:132-240 | in every reachable state live leases and entries correspond one to one, each entry is its own registration's, and every success was verified against its own registration |
| ExchangeRuns.SendsAreFirst | src/exchange.rs:202-216 | nothing is sent twice on a registration's channel, and only while its lease lives |
| ExchangeRuns.GenuineReplyCompletes | src/exchange.rs:178-206 | a packet completes a waiting registration exactly when it comes from its peer and verifies against it, and then no other |
| RoundTrips.SealedReplyCompletes | src/exchange.rs:132-206 | end to end over runs: any sealed reply to a registered sealed request, with any padding, completes it and nothing else while it waits |
| ExchangeRuns.CloseCompletesAll | src/exchange.rs:208-218 | closing completes every exchange still waiting, with the closed error, and no other |
| ExchangeRuns.CompletionsAreFinal | src/exchange.rs:142-218 | over any continuation completions keep their value; after close no sender is left and no registration is made |
| ExchangeRuns.LeasesAreExclusive | src/exchange.rs:233-240 | two live exchanges never share peer and identifier; dropping one keeps the other's entry |
| ExchangeRuns.EntriesAreLeased | src/exchange.rs:132-240 | every entry is held by exactly one live lease |
| ExchangeRuns.InFlightIsLimited | src/exchange.rs:146-149 | with a fixed limit no peer ever has more entries than the limit or 256 |
| Exchange.ExhaustedIffFull | src/exchange.rs:150-153 | the cyclic search fails exactly when all 256 identifiers are taken |
| RoundRobin.CursorStep | src/exchange.rs:150-156 | the cursor moves only on a successful allocation, to the identifier after it |
| RoundRobin.PassedOverIsTaken | src/exchange.rs:150-153 | the search passes over an identifier only because it is in use |
| RoundRobin.ReuseDistance | src/exchange.rs:146-156 | between two successive allocations of an identifier every other one was allocated or found in use |
| RadsecQueue.RunKeepsInv | src/client/radsec.rs:125-223 | in every reachable state a lease lives exactly while a clone is held, and every unsent command is bound to its own registration and stands in one place only |
| RadsecQueue.UnsentOwnsItsIdentifier | src/client/radsec.rs:125-149 | an unsent command's entry is its own registration's and no other unsent command shares its identifier |
| RadsecQueue.IdentifierNotReissued | src/client/radsec.rs:125-149 | while a packet is unsent no registration gets its identifier |
| RadsecQueue.WritesIffWanted | src/client/radsec.rs:200-206 | a dequeued command is written exactly when its caller waits, nothing was sent to it and the deadline is ahead; after close nothing is |
| RadsecQueue.WrittenAtMostOnce | src/client/radsec.rs:190-223 | over a whole run no registration's packet is written twice |
| RadsecQueue.SealStamps | src/client/radsec.rs:127-132 | sealed requests carry the identifier the registry gave them |
| RadsecQueue.ReceiveCompletes | src/client/radsec.rs:215-220 | a reading driver completes a waiting caller exactly with the frames that verify against its registration |
| RadsecQueue.ReceiveOtherFrames | src/client/radsec.rs:215-220 | a bad header or inauthentic dynamic request ends the driver, an authentic one changes nothing |
| RoundTrips.RadsecReplyCompletes | src/client/radsec.rs:125-223 | end to end: the server's sealed reply completes the caller whose sealed request was sent, whatever happened since |
| RadsecQueue.SendIsWritten | src/client/radsec.rs:125-206 | from an idle connection a request is queued with its packet and deadline and written when taken in time |
| RadsecQueue.QueueIsFifo | src/client/radsec.rs:199-206 | commands are taken in the order in which they were queued |
| RadsecQueue.CancelReleases | src/client/radsec.rs:116-124 | a cancelled caller is gone at once, and its identifier is free exactly when the driver holds no command of it |
| RadsecQueue.FinishFrees | src/client/radsec.rs:201-206 | a finished write leaves the driver free; its lease lives on only for a caller still waiting |
| RadsecQueue.StoppedDrains | src/client/radsec.rs:85-90 | a stopped driver takes and reads nothing more and drops its queue in order |
| RadsecQueue.CloseEndsWaits | src/client/radsec.rs:158-188 | closing the registry ends every wait |
| DeadlineIndex.SweepMeaning | src/server/dedup.rs:57-69 | a bounded sweep removes the earliest expired pairs: all of them within the budget, exactly the budget otherwise |
| ClientCache.CacheState.RemoveKey | src/server/cache.rs:105-109 | the slot and its deadline go together |
| ClientCache.CacheState.PopFirst | src/server/cache.rs:111-115 | the slot with the earliest deadline goes |
| ClientCache.CacheState.Sweep | src/server/cache.rs:117-128 | at most 64 slots go, from the expired end |
| ClientCache.CacheState.Act | src/server/cache.rs:130-149 | state and action are the specified decision |
| ClientCache.CacheState.Record | src/server/cache.rs:315-326 | the resolver's answer replaces its slot and is indexed |
| ClientCache.CacheState.InvalidateKey | src/server/cache.rs:193-205 | only a resolved slot is dropped |
| ClientCache.CacheState.ClearAll | src/server/cache.rs:209-225 | pending slots stay, all others go |
| ClientCache.CacheState.DropGuard | src/server/cache.rs:252-260 | the slot goes only if it is still pending on the guard's own channel |
| ClientCache.EvictExpiredTrims | src/server/cache.rs:117-128 | the sweep drops only resolved slots whose deadline has passed and keeps the index exact |
| ClientCache.MakeRoomKeepsPending | src/server/cache.rs:139-145 | making room keeps every other pending slot and leaves space unless every slot is pending |
| CacheRuns.DecideMeaning | src/server/cache.rs:130-149 | hit exactly on a fresh resolved slot, wait on a pending one, resolve otherwise unless the map is full of pending slots |
| CacheRuns.DecideEvicts | src/server/cache.rs:130-149 | a lookup takes out only expired slots and, when the map is full, at most one other: the one with the earliest deadline |
| CacheRuns.DecideSweeps | src/server/cache.rs:117-128 | a lookup leaves no expired slot if there were at most 64, and at least 64 fewer otherwise |
| CacheRuns.RunKeepsInv | src/server/cache.rs:104-340 | in every interleaving the index is exact, the size within capacity, and a slot is pending exactly while its one live unpublished resolver works |
| CacheRuns.FinishLeavesCache | src/server/cache.rs:252-260 | the guard of a published or finished lookup never touches the cache, whatever happened to its key |
| CacheRuns.HitIsFresh | src/server/cache.rs:130-149 | a hit returns what the backend answered for that address at a completion of the run whose lifetime has not passed |
| CacheRuns.LookupsCollapse | src/server/cache.rs:130-149 | while a resolver works every lookup of its address waits for it; after it completes they hit its answer exactly until that expires |
| CacheRuns.LookupStarts | src/server/cache.rs:263-283 | a call returns a fresh answer, waits for the resolver at work, and otherwise resolves or goes to the backend |
| CacheRuns.LookupFinishes | src/server/cache.rs:283-338 | a resolver and a direct lookup return what the backend gave; a waiter takes what was sent, or goes to the backend once nobody can send |
| CacheRuns.InvalidateForgets | src/server/cache.rs:193-205 | after an invalidation no lookup of the address hits at any time; its resolved slot and deadline are gone, everything else is unchanged |
| CacheRuns.ClearForgets | src/server/cache.rs:209-225 | after clearing no address hits; pending slots are unchanged and no deadline is left |
| CacheRuns.OneResolverPerKey | src/server/cache.rs:263-340 | at most one resolver per address is at work |
| CacheRuns.WaiterGetsResolversValue | src/server/cache.rs:283-338 | a waiter gets its own resolver's value, a backend answer for its address, or a direct lookup, and then an earlier event of the run cancelled that resolver while it was at work |
| CacheRuns.NoStuckWaiter | src/server/cache.rs:252-338 | a waiter that cannot return has a live resolver, and completing or cancelling that resolver wakes it |
| DedupReplies.ReplyShard.EvictExpired | src/server/dedup.rs:57-69 | at most 64 entries go, from the expired end |
| DedupReplies.ReplyShard.Lookup | src/server/dedup.rs:171-183 | the reply if its deadline is ahead; an expired entry goes with its index pair |
| DedupReplies.ReplyShard.Insert | src/server/dedup.rs:189-206 | sweep, then the new entry replaces the old one in map and index |
| DedupReplies.DedupCache.constructor | src/server/dedup.rs:117-123 | sixteen empty shards |
| DedupReplies.DedupCache.Lookup | src/server/dedup.rs:166-184 | the answer and effect of the key's shard; other shards unchanged |
| DedupReplies.DedupCache.Insert | src/server/dedup.rs:187-217 | the effect on the key's shard; other shards unchanged |
| DedupReplies.RunTracks | src/server/dedup.rs:166-206 | after any history every shard's index equals its entries' deadlines and holds each of its keys' latest insertion unless that expired |
| DedupReplies.RefinesTimedMap | src/server/dedup.rs:57-206 | sixteen shards with lazy bounded sweeps answer like one timed map: a reply exactly when the latest insertion had it and is younger than the lifetime |
| DedupReplies.LookupForgetsExpired | src/server/dedup.rs:166-184 | a lookup forgets its key once expired, in map and index, and touches nothing else |
| DedupReplies.InsertSweeps | src/server/dedup.rs:57-69 | an insertion takes out the earliest expired entries: all of them up to 64 |
| DedupReplies.InsertClearsBacklog | src/server/dedup.rs:57-69 | one insertion clears a backlog of up to 64 expired entries |
| RequestGate.RequestShard.Enter | src/server/dedup.rs:137-156 | join the mapped gate if it is still referenced, else map a new one |
| RequestGate.RequestShard.Cleanup | src/server/dedup.rs:87-100 | the mapping goes only if it is still that gate's |
| RequestGate.RunKeepsInv | src/server/dedup.rs:87-160 | in every interleaving each referenced gate is the mapped one for its key, and each mapped gate is referenced or awaits its cleanup |
| RequestGate.OneReservationPerKey | src/server/dedup.rs:137-160 | at most one task processes a key, and all references for a key are to one gate |
| RequestGate.WaiterProceeds | src/server/dedup.rs:137-160 | an arrival waits for its key, and a waiter gets the gate exactly when no task of its key holds it |
| RequestGate.UnlockLetsProceed | src/server/dedup.rs:102-105 | a holder that unlocks lets any waiter of its key proceed, and leaving drops its reference |
| RequestGate.LateCleanupIsHarmless | src/server/dedup.rs:87-100 | however late a cleanup runs, every gate in use stays mapped |
| RequestGate.CleanupForgets | src/server/dedup.rs:87-100 | the cleanup of a dead gate removes its mapping exactly if the key still has it |
| RequestGate.QuiescentMapIsEmpty | src/server/dedup.rs:87-160 | once all tasks are gone and cleanups have run the map is empty |

## Left out

- Replies.Reply.FromBuffer: requires a buffer that was just reset, which is what the source documents for its callers.
- Replies.Reply.AddTunnelPassword: assumes a source of draws in which every salt with the top bit set comes up eventually, as do Replies.Reply.WriteMppeKey, Replies.Reply.AddMppeKeys and ReplyRuns.Build; without that the source's loop need not end.
- KeyMaterial.UniqueSalt: requires that some draw is unused, which is exactly when the source's loop ends.
- Attributes.FindVsa: values are raw octets, so a match whose typed decoding fails, which the source skips, is returned.
- DedupReplies.RefinesTimedMap: assumes that the clock does not go back within a shard, where it is read under the shard's lock.
- RadsecQueue.WritesIffWanted: the queue is modelled on values as a state machine, not as a mutable channel; a write counts as on the wire from the moment it starts, and partial writes are not modelled.
- CacheRuns.OneResolverPerKey: waiters of a cancelled resolver and callers that find the map full of pending slots go to the backend directly, as in the source, so this bounds resolvers and not backend calls.
- ExchangeRuns.InFlightIsLimited: stated for runs whose registrations all use at most one fixed limit, as the transports do.
- Typed and dictionary encoders (src/codec/typed.rs): values are raw octets.
- Nested-attribute closures that keep their own state: a closure is the children it attempts and its final result.
- The `contains*` and `matches*` lookups and the typed `first*` variants beyond `first_vsa`: they would only add easy members.
- `Request::from_buffer`, used by the CoA originator: only new requests are modelled.
- Real concurrency: each critical section is one atomic step; scheduling fairness, lock poisoning and timeouts as real time are not modelled.
- The UDP client, retransmission, the server pipeline, TLS framing, accounting, CoA, roles, status and client configuration.
- CHAP, MS-CHAP and EAP-MD5 checks: single hashes over concatenated fields.
- TLS, certificates, other ciphers and hashes, and every claim about cryptographic strength or timing.
- Text dissection, memory scrubbing, metrics and tracing.
