# Verification of the PICA attester and verifier

PICA measures the chain of processes between init and a requester (executables, shared libraries,
ids), has a TPM quote the hash of that chain together with a verifier's nonce, and lets the verifier
compare the measurement with a registered configuration and a policy. This project models the code
that decides: how a process table is stored and read back, the in-place hash index, the digest,
chain and user checks, the attester daemon's reply and the verifier's reading of it, the evidence
exchanged over RA-TLS with its hand-written Base64 and PEM decoding, the measurement cache, PCR
selections and the native-messaging echo host.

Arrays, hash chains and cursors that the C code updates in place are arrays and classes here; each
loop is a method proved against a function of its inputs, and the theorems are about those functions.
Check everything with `dafny verify dfyconfig.toml`.

| file | contents |
|---|---|
| Bytes, ProcTable | bytes, integers in memory order, C strings, `\|`; the process table |
| ConfFormat, ConfRoundTrip, ConfStore | packed configuration file: its bytes, its meaning, the loops |
| Buckets, HashIndex | bucket lists and the map they denote; the verifier's chained index |
| Policy | digest, binary, chain and uid checks, policy lookup, the accumulated verdict |
| Base64, Pem | decoder of section 4 of RFC 4648; key texts of sections 2 and 13 of RFC 7468 |
| Cbor | the items of section 3 of RFC 8949, definite and indefinite, serialized and loaded |
| Processes, ProcChain | what is measured of a process and its ancestors, through the cache; packing and decoding |
| Attest | the daemon's reply, how the verifier reads it, freshness, runs of the protocol |
| Verifier | the verifier's main from file and reply to verdict; completeness and soundness end to end |
| Evidence | RA-TLS evidence: production, extraction, key and quote comparison |
| Measure, Pcr, Echo | digest cache and library list; PCR bitmaps; length-prefixed echo |

SHA-256, MurmurHash, the TPM and its signature check are arbitrary functions. Nothing is assumed
injective: where equal hashes would have to mean equal inputs, the conclusion names the two inputs
that collide otherwise.

Where code and intention differ, the model follows the code, and the difference is a theorem:

- A pool of 2^31 bytes or more is written, but its size wraps in the header and the size test refuses
  the file; an entry with a NULL path ends the packing (`ConfRoundTrip.SizeTestExact`,
  `ConfRoundTrip.RoundTripExact`, `ConfRoundTrip.NullPathIsLost`).
- A measured library that is not registered is compared with nothing
  (`Policy.UnregisteredNamePasses`; `Policy.DigestCheckExact` gives the exact condition).
- With several invocation chains only the first can be satisfied: the result is cleared at
  src/libpica_clnt.c:708 and not set again (`Policy.SecondChainIsLost`; `Policy.CheckIchain` says exactly
  what is decided).
- A statement's effect, allow or deny, is printed and not used (pica_sgx/Enclave/picatest.c:1029-1030;
  `Policy.EffectIgnored`, `Policy.DenialIsAccepted`).
- The quote bit is set when no signature check was made: handle_tpm2_quote returns 0 for a map of other
  than three entries, for a map without a "quote" key and for an empty key file
  (pica_sgx/Enclave/picatest.c:609-611, 648, 660-662). `Attest.QuoteBitExact` and `Verifier.SuccessExact`
  say exactly when the bit, and the overall verdict, stand for a check that returned 0;
  `Verifier.UncheckedQuoteSucceeds` gives a reply for which they do not.
- The freshness bit is reported, but "all verifications" does not include it (src/libpica_clnt.h:28):
  that same reply succeeds and is not fresh. Success together with freshness does imply that the
  check was called and returned 0 (`Verifier.SoundOverRuns`). What that says about the signature is an
  assumption: verify_tpm2_quote sets its return code to 0 again after an invalid signature
  (pica_sgx/Enclave/picatest.c:558).
- The daemon quotes an executable's hash for a plain attestation request in the same form as a chain's,
  so a quote does not say which of the two it covers (tpm2/tpmdaemon.c:415-459; `Attest.QuoteDelivery`).
  For ELF files this does not matter (`Verifier.SoundOverRunsElf`).
- Accepted evidence need not name the presented key: a claims map without a "pubkey-hash" key passes for
  every key (src/libintel.c:773-824; `Evidence.KeylessEvidenceAccepted`; `Evidence.AcceptedNamesKeyExactly`
  has the exact condition).
- The executable of a process is cached under its pid, so a pid that comes back with another executable
  is reported with the old digest (src/libmeasure.c:333-334; `Processes.StaleExecutable`;
  `Processes.ReportedExecutable` has the exact condition).
- A library that could not be read leaves its name in the cache; mapped again, it is listed with a
  zero digest (`Measure.CacheCoherent`, `Measure.LibraryList`, `Measure.UnreadableButListed`). So a chain
  can change between two measurements of the same processes (`Processes.UnreadableGrows`;
  `Processes.MeasuredAgainExact` and `Verifier.EnrolThenVerify` have the exact condition).
- Input that ends inside a frame's length field ends the echo host successfully (`Echo.EchoHost`).

## Model

| member | source | states |
|---|---|---|
| ConfStore.SizePass | src/libpica_clnt.c:117-126 | the first pass counts exactly the pool bytes and digest records that the second pass will write |
| ConfStore.PackLibs | src/libpica_clnt.c:148-160 | one process's library loop appends its strings and its digest records, each record pointing at its own string, and touches nothing before |
| ConfStore.PackEntry | src/libpica_clnt.c:135-161 | one round of the copy loop: pool, digest array, process record and both cursors after it |
| ConfStore.Pack | src/libpica_clnt.c:114-161 | after the two passes both cursors stop where the size pass said, and the three regions are those of the table |
| ConfStore.RegConfig | src/libpica_clnt.c:94-211 | the buffer written is header, process array, digest array and pool of the table, in that order |
| ConfStore.LinkTable | src/libpica_clnt.c:77-88 | every offset is replaced in place by the pointer to the same target; nothing else changes |
| ConfStore.LinkedTableMeans | src/libpica_clnt.c:77-88 | turning offsets into pointers changes no id, path, digest or library list |
| ConfStore.BuildConf | src/libpica_clnt.c:53-91 | a file of the wrong size yields no entries; otherwise the linked table means what the file means |
| ConfRoundTrip.SizeTestExact | src/libpica_clnt.c:67-75 | the size test accepts what reg_config wrote iff the pool is below 2^31 bytes |
| ConfRoundTrip.TableDecodes | src/libpica_clnt.c:134-161 | read through its offsets, the packed table gives the same ids, paths, digests and library lists, in order |
| ConfRoundTrip.RoundTripExact | src/libpica_clnt.c:53-211 | unpacking the packed file gives the table back iff every path is non-NULL and the pool is below 2^31 bytes |
| ConfRoundTrip.NullPathIsLost | src/libpica_clnt.c:138 | a concrete table with a NULL path that does not survive |
| ConfRoundTrip.ImageHeader | src/libpica_clnt.c:164-188 | the first 20 bytes of the file: "PROCCNF" with its NUL and the three counts in native order, at their offsets |
| ConfRoundTrip.ImageRegionsAt | src/libpica_clnt.c:189-198 | processes, digest records and strings lie behind the header in this order, without gaps |
| ConfRoundTrip.ProcLayout | src/libpica_common.h:41-60 | every field of a process record at its offset among the 88 bytes |
| ConfRoundTrip.HeadAndDigestLayout | src/libpica_clnt.h:12-17 | the fields of header and digest records at their offsets |
| ConfRoundTrip.OtherSizeRefused | src/libpica_clnt.c:67-75 | an accepted file that has lost or gained bytes behind its header is refused |
| ConfRoundTrip.TrailingBytesIgnored | src/conftool.c:76-112 | without the size test, bytes behind the file change nothing |
| ConfStore.StoreAndLoad | src/libpica_clnt.c:53-211 | storing then loading: the table itself when it can be stored, an empty one when the pool overflows |
| ConfRoundTrip.UncheckedRoundTripExact | src/conftool.c:58-113 | without a size test, as in read_conf, the table comes back iff the pool is below 2^31 bytes |
| ConfStore.AppendConf | src/conftool.c:211-335 | append then read, on a readable file (complete regions, offsets inside, no negative count): the old table plus exactly one last entry, although every offset is recomputed; nothing measured leaves the file as it was |
| Policy.AppendThenVerify | src/conftool.c:211-335 | append, read back, index, verify: for a path not in the file before, a process whose library names the tool measured passes iff it has the measured digest and libraries, in any order; the ids read back are 0, 0 and then uid and gid three times |
| HashIndex.HTable.constructor | src/libpica_clnt.c:596-601 | the cleared table is a valid index of nothing |
| HashIndex.HTable.Reg | src/libpica_clnt.c:540-574 | registration adds the binding iff the (type, path) pair has none, under any collisions, and keeps chains acyclic, nodes in their own bucket, no pair twice, slot hash 0 iff empty |
| HashIndex.HTable.Find | src/libpica_clnt.c:576-593 | lookup returns the bound address of the (type, path) pair, or nothing if there is none |
| HashIndex.FirstRegistrationWins | src/libpica_clnt.c:540-593 | after any run of registrations a pair is bound iff it was registered, to the address of its first registration |
| Buckets.IndexedAppend | src/libpica_clnt.c:547-570 | adding an unbound key at the end of its bucket keeps the bucket lists an exact picture of the map |
| Policy.VerifyDigest | src/libpica_clnt.c:608-654 | 0 iff counts and executable digests agree and every measured library agrees with the first registered one of its name |
| ProcTable.Pigeonhole | src/libpica_clnt.c:614-652 | an inclusion between lists of distinct names and equal length is a reordering |
| Policy.DigestCheckExact | src/libpica_clnt.c:608-654 | for distinct names: passing with all names registered iff executable digests match and the lists are equal as multisets |
| Policy.UnregisteredNamePasses | src/libpica_clnt.c:635-649 | concrete lists that differ and pass, because the measured name is unregistered |
| Policy.RegisterConf | src/libpica_clnt.c:602-604 | the registration loop is the run of registrations of the table, in order |
| Policy.VerifyBinaries | src/libpica_clnt.c:660-686 | the binaries bit iff a table is given and every process agrees with the entry the index holds for its path |
| Policy.BinaryOkExact | src/libpica_clnt.c:660-686 | through the index a process passes iff it agrees with the first registered entry of its path |
| Policy.RegisteredVerifies | src/libpica_clnt.c:540-686 | whatever was registered verifies when measured again with libraries in any order, if entries of one path agree |
| Policy.RegisterThenVerify | src/libpica_clnt.c:53-686 | register, pack, unpack, index, verify a re-measurement: the binaries bit is set |
| Policy.CheckIchain | src/libpica_clnt.c:692-720 | the chain bit iff there is no chain or the measured paths are a prefix of the first chain |
| Policy.LongEnoughExact | src/libpica_clnt.c:699-718 | which policies the comparison stays inside of: every chain compared, up to the first that matches, differs from the measured one or is as long |
| Policy.SecondChainIsLost | src/libpica_clnt.c:699-719 | a measured chain equal to the second listed one is refused |
| Policy.MatchUid | src/libpica_clnt.c:722-733 | true iff the id is listed |
| Policy.CheckUids | src/libpica_clnt.c:735-752 | the uid bit iff every real uid, read as an int, is listed |
| Policy.FindPolicy | src/libpica_clnt.c:763-781 | the first statement for the path, none iff there is none |
| Policy.RegisterPolicy | src/libpica_clnt.c:858-861 | the registration loop is the run of registrations of the statements, in order |
| Policy.IndexAgreesWithScan | src/libpica_clnt.c:576-593 | registered into a table without policies, index and linear scan pick the same statement for every path, and no other lookup changes |
| Policy.LookupsAfterBoth | pica_sgx/Enclave/picatest.c:883-916 | with configuration and policies in one index, a process passes iff it agrees with its first registered entry |
| Policy.Accept | pica_sgx/Enclave/picatest.c:1013-1066 | each of the five printed results: freshness and quote as given, binaries iff every process agrees with its first entry, chain and uids as the first statement for the requester says, neither without one; success iff the four that count are set |
| Policy.EffectIgnored | pica_sgx/Enclave/picatest.c:1026-1066 | policies that differ in their effects only are met by the same measurements |
| Policy.DenialIsAccepted | pica_sgx/Enclave/picatest.c:1029-1030 | a concrete measurement accepted under a statement that denies it |
| Base64.DecodeAccounting | src/libintel.c:115-180 | on every input, valid or not, strict or not, the count equals the bytes written and is at most three per four characters |
| Base64.AlphabetExact | src/libintel.c:96-113 | the 64 characters of the alphabet, spelt out |
| Base64.RevTableExact | src/libintel.c:96-113 | the table knows the alphabet, the pad and the NUL, and nothing else |
| Base64.DecodeErrorExact | src/libintel.c:125-177 | the error code of every text, strict or not, by the first character that stops the decoder and its position in a group |
| Base64.CutTextIsError | src/libintel.c:125-177 | a text that lacks one to three characters at its end is an error |
| Base64.RawBase64Decode | src/libintel.c:115-180 | the in-place loop ends, stays inside a buffer that may end at the NUL, and writes exactly what the specification decodes, with its count and error |
| Base64.DecodeQuad | src/libintel.c:125-176 | four alphabet characters, shifted and or-ed, give their three bytes whatever the buffer held |
| Base64.DecodeInvertsEncode | src/libintel.c:115-180 | decoding the encoding of section 4 of RFC 4648 gives the bytes back, all padding cases |
| Pem.PemStrip | src/libintel.c:185-214 | the three loops copy what lies between first line end and last line end (not within the last four bytes), without line ends |
| Pem.StripsToEncoding | src/libintel.c:185-214 | a header line, a body broken anywhere by LF or CR, and a footer line strip to exactly the Base64 text |
| Pem.NoBodyIsRefused | src/libintel.c:185-234 | a text with no second line end, four bytes before its end or earlier, has no body |
| Pem.Pem2Der | src/libintel.c:216-240 | all exits: no input, empty body, decoder error with the length untouched, success with exactly the decoded bytes |
| Pem.PemInverts | src/libintel.c:185-240 | decoding inverts the textual encoding of every non-empty byte string |
| Pem.DecodeKey | src/libintel.c:216-240 | PEM2DER on a textual encoding returns 0, exactly the bytes and exactly the length |
| Pem.PemDecodeBound | src/libintel.c:216-240 | for every input text the decoded length is at most three per four input bytes |
| Cbor.LoadInvertsSer | src/libtpm2.c:124-159 | loading inverts serialization for nested arrays, maps, tags, strings, numbers and constants of both length forms, and leaves following bytes alone |
| Cbor.LoadExtends | src/libpica_clnt.c:1504 | bytes behind an item play no part in how it is loaded, for any input |
| Cbor.LoadItemExact | src/libpica_clnt.c:1504-1509 | an item is loaded whatever follows it, and not at all when a byte is missing |
| Cbor.KeyMatchesExact | pica_sgx/Enclave/picatest.c:630-639 | the key test is strncmp over the length of the key, byte by byte |
| ProcChain.Sha256Binaries | tpm2/libcbor.c:104-143 | a process is measured through the cache, executable first; its map holds the ten base entries and one entry per library listed, in list order |
| Processes.ExeKeyInjective | src/libmeasure.c:328-334 | executables of different pids never share a cache entry |
| Processes.ExeKeyIsNoLibrary | src/libmeasure.c:67-73 | no executable's cache name passes for a shared library |
| Processes.ChainEntry | tpm2/libcbor.c:104-190 | every record of a chain is that of a live process at its depth, has a path and lists no library twice |
| Processes.ReportedExecutable | src/libmeasure.c:327-345 | the digest reported for a process is that of the executable it runs iff its pid was not measured before or was measured with this executable, anywhere in the chain |
| Processes.ReportedLibraries | tpm2/libcbor.c:121-140 | in any record of a chain, a library is listed iff the process maps it and it was known, can be read there or was mapped before on the walk; its digest is the one known, else that of its first mapping on the walk, zero if that was unreadable |
| Processes.WalkHistory | src/libmeasure.c:183-250 | which libraries are known after a walk, and with which digests |
| Processes.StaleExecutable | src/libmeasure.c:327-345 | after a request, whatever runs under the pid, the digest of the first executable is reported |
| Processes.MeasuredAgain | tpm2/libcbor.c:161-190 | if every mapped library can be read, the same processes give the very same chain again, with any later cache |
| Processes.ListAgainExact | src/libmeasure.c:256-325 | listed again with a later cache, a process's libraries are the same up to order iff each was known, legible where first mapped, or mapped once more; otherwise the list is longer |
| Processes.MeasuredAgainExact | tpm2/libcbor.c:161-190 | the same processes give the same chain again, up to the order of libraries, iff each could be listed completely the first time; otherwise some list has grown and nothing else changed |
| Processes.UnreadableGrows | src/libmeasure.c:202-208 | a concrete process with one unreadable library whose second measurement differs from its first |
| Processes.WalkRemembers | src/libmeasure.c:183-250 | through any walk the cache keeps holding, for exactly the pids seen, the executable seen first |
| Processes.ChainSeen | tpm2/libcbor.c:161-190 | every digest of a chain is that of the executable seen first under its pid |
| ProcChain.PackProcChain | tpm2/libcbor.c:161-216 | for every ancestry that reaches pid 1 the walk ends, packs the chain from below init to the requester as the growing cache reports it, and leaves that cache |
| Processes.ChainOrder | tpm2/libcbor.c:178-190 | entry 0 is a child of init, the last entry is the requester, each later entry's parent is its predecessor |
| ProcChain.ExtractPinfo | src/libpica_clnt.c:1441-1517 | the positional reader against its specification: refused, undefined, or the table |
| ProcChain.FieldsExact | src/libpica_clnt.c:1461-1483 | which entry each field comes from, and what an entry of another type or length reads as |
| ProcChain.CutExact | tpm2/libcbor.c:230-247 | a text is cut at its first NUL |
| ProcChain.ExtractExact | src/libpica_clnt.c:1441-1517 | refused iff no CBOR, no array or an empty one; otherwise one record per element, each from its own map |
| ProcChain.BaseKeys | tpm2/libcbor.c:126-130 | the first five keys of a record, in order |
| ProcChain.OtherBaseKeys | tpm2/libcbor.c:131-135 | the other five |
| ProcChain.ProcDecodes | src/libpica_clnt.c:1455-1484 | reading a packed process by position recovers every field and every library |
| ProcChain.ChainDecodes | src/libpica_clnt.c:1441-1517 | decoding the packed chain recovers every record, in order |
| ProcChain.PackAndExtract | tpm2/libcbor.c:104-216 | attester and verifier composed: the table extracted is the chain walked |
| Attest.ServePica | tpm2/tpmdaemon.c:172-269 | the daemon's reply carries the chain as its cache reports it, and a quote over the hash of that chain extended with the nonce |
| Attest.LastKeyWins | pica_sgx/Enclave/picatest.c:630-632 | with keys matched by prefix and repeated, the last "quote" value is the one verified |
| Attest.ClaimedByte | pica_sgx/Enclave/picatest.c:639-643 | each byte of the claimed hash comes from the last value long enough to hold it, or is zero |
| Attest.AllBytesInOrder | pica_sgx/Enclave/picatest.c:633-638 | the "sign" values are taken in the order of the pairs, each once |
| Attest.ShortKeys | pica_sgx/Enclave/picatest.c:630-639 | a beginning of a key name counts as that key, the empty key as "quote" |
| Attest.WildExact | pica_sgx/Enclave/picatest.c:601-647 | exactly when handle_tpm2_quote leaves its own data |
| Attest.QuoteBitExact | pica_sgx/Enclave/picatest.c:597-683 | return code 0 iff verify_tpm2_quote returned 0 on the last "quote" and all "sign" values or was not called; it implies the call iff the value is a three-entry map with a "quote" key and the key file is not empty; extraData is only taken from a call |
| Attest.CheckReply | pica_sgx/Enclave/picatest.c:936-1015 | for any reply bytes, with maps and arrays of either length form, in one pass with hashing and extraction: what is collected, the quote bit and the freshness bit are those of the reply's pairs; malformed and out-of-bounds replies are told apart |
| Attest.ReplyBitExact | pica_sgx/Enclave/picatest.c:959-995 | the quote bit iff the reply holds a quote value that passed its check or had none made; with a chain in it there is room for one such value |
| Attest.RejectedExact | pica_sgx/Enclave/picatest.c:936-949 | main gives up on exactly the replies that are no map of two pairs |
| Attest.OutOfBoundsExact | pica_sgx/Enclave/picatest.c:959-995 | exactly which pairs make main leave its own data |
| Attest.LastChainWins | pica_sgx/Enclave/picatest.c:972-988 | the chain judged is the last one in the reply |
| Attest.ReplyFreshExact | pica_sgx/Enclave/picatest.c:978-1015 | a reply is fresh iff its quote covers SHA-256 of its chain's hash followed by the nonce and its claimed hash is that of its chain |
| Attest.HonestReplyIsFresh | pica_sgx/Enclave/picatest.c:950-1015 | the daemon's reply to the verifier's nonce sets both bits and delivers its chain |
| Attest.ExtendedOnlyBy | tpm2/libquote.c:111-134 | equal extended hashes come from equal chain and nonce or from one of two named collisions |
| Attest.DaemonStep | tpm2/tpmdaemon.c:415-459 | connection and quote steps keep the cache in line with the executables seen, and every logged quote in line with both |
| Attest.StepKeepsInvariant | pica_sgx/Enclave/picatest.c:923-1015 | every protocol step (client connects, quote for anyone, nonce drawn, any reply arriving) keeps the freshness and cache invariant |
| Attest.RunKeepsInvariant | tpm2/tpmdaemon.c:172-269 | the invariant holds at every point of every run |
| Attest.FreshnessOverRuns | pica_sgx/Enclave/picatest.c:923-1015 | under any interleaving, replay and reordering, the accepted bytes and nonce are those the daemon quoted after the nonce was drawn, or a named collision exists |
| Attest.FreshInSteps | pica_sgx/Enclave/picatest.c:923-1015 | the same in terms of the steps of the run: the step that quoted the accepted bytes for this nonce lies behind the step that drew it |
| Attest.QuoteDelivery | tpm2/tpmdaemon.c:419-459 | a quote made for a session's nonce is accepted with what it covers, chain or executable, whenever it arrives |
| Attest.HonestDelivery | pica_sgx/Enclave/picatest.c:936-1015 | a reply made for a session's nonce is accepted whenever it arrives |
| Attest.HonestExchange | tpm2/tpmdaemon.c:251-269 | daemon and verifier back to back: quote and freshness bits, and the table read is the chain walked |
| Verifier.VerifyReply | pica_sgx/Enclave/picatest.c:866-1066 | for any policy, reply and readable configuration (complete regions, offsets inside, no negative count): main gives up iff the reply is no map of two pairs, leaves its data iff the reply is out of bounds or unusable, and otherwise every printed result, and success, mean what they say of the extracted table |
| Verifier.SuccessExact | pica_sgx/Enclave/picatest.c:936-1066 | success iff everything else is acceptable and the quote value passed its check or had none made; it implies a passed check iff the reply holds no unchecked value |
| Verifier.UncheckedQuoteSucceeds | pica_sgx/Enclave/picatest.c:609-611 | for every key file and acceptable chain, a reply with an empty map as quote value succeeds, without a check and not fresh |
| Verifier.RegisteredIsAcceptable | pica_sgx/Enclave/picatest.c:1016-1066 | a measured chain of registered processes that a statement allows meets every condition of acceptance |
| Verifier.RegisterAttestVerify | pica_sgx/Enclave/picatest.c:834-1066 | registered table, honest daemon, allowing policy: the verdict is success and fresh |
| Verifier.EnrolThenVerify | pica_sgx/Enclave/picatest.c:982-985 | registration from the daemon's own measurement, then verification against the same daemon: fresh, and a success iff every process could be listed completely at registration |
| Verifier.SoundOverRuns | pica_sgx/Enclave/picatest.c:923-1066 | whenever a run's reply gives success with freshness, verify_tpm2_quote was called and returned 0, the judged table is a chain the daemon measured, with the digests of the executables it saw first under each pid, and quoted for this nonce after it was drawn (or an executable's bytes, or a named collision exists), and every condition of acceptance holds of it |
| Verifier.SoundOverRunsElf | pica_sgx/Enclave/picatest.c:923-1066 | the same without the executable alternative, when all executables quoted are ELF files |
| Evidence.EvidenceParts | src/libintel.c:395-449 | the produced evidence, with either tag, takes apart into the quote and the claims it was made from |
| Evidence.HonestParts | src/libtpm2.c:171-257 | the produced evidence yields the three claims of the enclave, entry by entry |
| Evidence.KeyComparisonExact | src/libintel.c:525-629 | success iff the key decodes and the entry is a pair of a known algorithm and the key's hash by it; a bad signature iff only the hash differs |
| Evidence.ExtractEvidence | src/libintel.c:634-844 | status and outputs for any bytes: structure checks, quote commitment, claims in order up to the first bad one |
| Evidence.ClaimsExact | src/libintel.c:773-824 | the claims loop succeeds iff every claim has a text key, every key claim binds the presented key, and quote and nonce claims are byte strings |
| Evidence.AcceptedExactly | src/libintel.c:634-844 | accepted iff the bytes load as an array of two byte strings under tag 60000 or 60004, a quote of 1020 to 8192 bytes that commits to non-empty claims, which load as a non-empty definite map with every claim in order |
| Evidence.AcceptedOutputs | src/libintel.c:825-827 | what is then returned: tag, quote and what the claims loop left |
| Evidence.LastTpm2Claim | src/libintel.c:798-811 | the TPM quote is that of the last such claim, empty above 1000 bytes |
| Evidence.LastNonceClaim | src/libintel.c:812-823 | the nonce is that of the last such claim of 32 bytes |
| Evidence.RefusalExact | src/libintel.c:663-735 | the status and tag of every refusal before the quote is looked at |
| Evidence.CarriedRefusal | src/libintel.c:744-763 | the status of every refusal of a well-formed pair of quote and claims |
| Evidence.FirstFault | src/libintel.c:774-797 | the claims loop ends at the first claim out of order, with that claim's status |
| Evidence.AcceptedNamesKeyExactly | src/libintel.c:773-824 | accepted evidence names the presented key iff some claim key matches "pubkey-hash" |
| Evidence.KeylessEvidenceAccepted | src/libintel.c:773-824 | for every key, evidence whose only claim is a nonce is accepted and names none |
| Evidence.OtherKeyRefused | src/libintel.c:525-844 | evidence made for one key is accepted with another only under a hash collision |
| Evidence.KeysApart | src/libintel.c:773-824 | prefix comparison cannot take one claim key for another |
| Evidence.HonestClaims | src/libintel.c:773-824 | reading the produced claims against the same key succeeds and returns TPM quote and nonce |
| Evidence.EvidenceRoundTrip | src/libintel.c:395-844 | produced evidence with tag 60004 is accepted and gives back the same quote, TPM quote and nonce, for every key and layout of its PEM text |
| Evidence.SgxEvidenceRoundTrip | src/libintel.c:340-844 | evidence with tag 60000 and a key claim alone is accepted and gives back the quote, no TPM quote and no nonce |
| Measure.FpTable.constructor | src/libmeasure.c:137 | the static table is a valid, empty cache |
| Measure.FpTable.FindHashEntry | src/libmeasure.c:139-160 | a cached path's entry with its digest, or one entry without path at the end of its chain and everything else as before |
| Measure.FpTable.Sha256File | src/libmeasure.c:183-250 | the answer and the cache after the call, also when reading fails; between calls only an unused head has no path |
| Measure.CacheHolds | src/libmeasure.c:183-250 | after any calls a key is cached iff it was asked for, with what its first call measured |
| Measure.CacheCoherent | src/libmeasure.c:183-250 | a file is read at its key's first call only; later calls deliver that digest iff that first measurement succeeded |
| Measure.PathExists | src/libmeasure.c:79-88 | true iff the path is in the list |
| Measure.Sha256Libs | src/libmeasure.c:256-325 | list and cache are those of the run over the lines, and the count is the list's length |
| Measure.LibraryList | src/libmeasure.c:256-325 | no path twice; exactly the mapped names containing ".so" that the cache or the file gave a digest for; a new library's digest is that of its first mapping |
| Measure.SharedLibExact | src/libmeasure.c:67-73 | a name is a library's iff ".so" stands anywhere in it and it does not begin with '[' |
| Measure.NamedLibraryListed | src/libmeasure.c:292-320 | whatever stands before and behind ".so", a readable mapping of that name is listed |
| Measure.OtherNameNotListed | src/libmeasure.c:292-307 | no other name is listed |
| Measure.NewInFront | src/libmeasure.c:109-110 | new libraries go in front of those listed before |
| Measure.UnreadableButListed | src/libmeasure.c:202-208 | an unreadable library mapped twice is listed with the zero digest |
| Pcr.PcrSelect | tpm2/libquote.c:227-250 | bit p is set iff p is listed |
| Pcr.CompPcrSelection | tpm2/libquote.c:136-149 | 0 iff the lists agree in length, algorithms, sizes and compared bytes |
| Pcr.SameBits | tpm2/libquote.c:136-149 | equal bitmaps iff equal register sets (section 10.6 of TPM 2.0 Library Part 2) |
| Pcr.SelectAndCompare | tpm2/libquote.c:136-250 | two selections from lists compare equal iff algorithm and register sets below 24 are equal, whatever order and repetition |
| Echo.ReadExact | web/native-messaging-echo/native_host/echo_host.c:22-44 | however fread splits the stream: all bytes in order, end of data, or an error |
| Echo.WriteExact | web/native-messaging-echo/native_host/echo_host.c:46-64 | however fwrite splits: all bytes, or an error after a beginning of them |
| Echo.EchoHost | web/native-messaging-echo/native_host/echo_host.c:66-133 | the output is exactly the complete valid frames before the first bad length or the end; a beginning of them after an error; success iff the input ends in or before a length field |
| Echo.NoFrameExact | web/native-messaging-echo/native_host/echo_host.c:81-109 | nothing is echoed of data that begins with an incomplete length, a length of zero or above 1048576, or a message cut short, and only of such data |
| Echo.MessagesAreEchoed | web/native-messaging-echo/native_host/echo_host.c:76-132 | framed messages within the limit come back completely, and nothing after them does |

## Left out

- MurmurHash, SHA-2, OpenSSL, TSS2, the SGX SDK and json-c: arbitrary functions or parameters; parsing of policy files is not modelled.
- libcbor: strings in chunks are loaded, but using one where the code expects a plain string is out of bounds, since its handle is not the text; the nesting limit, memory errors and the check of UTF-8 are not modelled.
- Sockets, ocalls, sealing, certificate building, options, logging and timing; failures of malloc and of the hash library.
- The unions of offset and pointer are patched on a record view of the file's bytes, not on the raw buffer.
- C behaviour outside its own bounds (an item read as the wrong type, an output buffer overrun, NULL followed, an uninitialised buffer or signature used) is the outcome Wild, OutOfBounds, Overrun, Undefined or Crash, never a refusal; only an uninitialised extraData buffer is taken as unequal.
- ConfStore.BuildConf: a file whose counts pass the size test only by wrap-around or with negative counts is a precondition, because the C code then works outside its buffer.
- ConfStore.AppendConf: the existing file must be readable, its regions complete and the counts of its entries non-negative; read_conf checks none of this, and a missing file leaves the old table uninitialised.
- ConfStore.RegConfig: counts must fit the C ints that hold them, and the library path pointers are non-NULL.
- Policy.CheckIchain: chains that end before they differ from the measured one are excluded, because the C code then reads past the list.
- Verifier.VerifyReply: the sealed configuration file must have complete regions, offsets inside them and non-negative counts in its entries; the registration mode of main is RegConfig on the extracted table.
- Attest.QuoteBitExact: how the "sign" values fill the one signature structure is left to the verification function, which gets all of them in order.
- Attest.FreshnessOverRuns: a quote whose extraData is taken over is assumed to be the daemon's. verify_tpm2_quote, with its PCR comparison, is not modelled; as it resets its return code at pica_sgx/Enclave/picatest.c:558, that assumption does not follow from a return code of 0.
- Attest.ServePica: the serialized quote must fit the daemon's buffer; the C code reports a larger size without copying it.
- ProcChain.PackProcChain: the ancestry must reach pid 1; otherwise the C loop does not end. The ancestry does not change during one walk, and every executable can be read; otherwise the C code packs uninitialised bytes.
- Measure.Sha256Libs: lines of /proc maps arrive already split, and a failed allocation, which ends the function with -1, does not occur; the key copy sized by the other path's length is modelled as copying the whole name.
- Evidence.ExtractEvidence: output size arguments only for the buffers above; a verified certificate chain and the TEE quote verification are not part of this model.
- Pem.Pem2Der: the output buffer must hold the decoded bytes, which the C code does not check, and lengths fit an int.
- Tolerance of characters outside the alphabet in non-strict Base64: they still advance the position in a group, so no such law holds; Base64.RawBase64Decode covers what happens.
- pica_verify_tpm2all, check_apphash, mycbor_unpack_procchain, make_cbor_tpm2_claims for the host and the copies under certtest: variants of what is modelled.
