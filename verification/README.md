# PKINIT with post-quantum key exchange: a verified model

This project models the protocol logic of a PKINIT (RFC 4556) client and KDC
that can exchange keys by Diffie-Hellman or by a KEM, and of the
trust-on-first-use broker the client falls back on when its configured anchors
do not know a KDC. It proves what those parts promise each other.

Cryptography, X.509 and the ASN.1 library are function values in `Suite.Lib`,
`Cms.CmsLib`, `PinStore.Pki`, `Kdc.TrustChecks` and `Tofu.Checks`. The few laws
assumed of them are named predicates (`CodecsInvert`, `DhCommutes`,
`KemInverts`, `RecognizesGroups`, `Certifies`, `TagsDistinguish`,
`InjectiveHash`, `MonotonePaths`, `OwnErrors`, `NoKeyCollisions`,
`NoHkdfCollisions`, `NoSskdfCollisions`, `OtherInfoIsEncoding`,
`PrincipalsAreEncoded`), and every lemma that needs one
says so. Message encoders are partial: a law binds them on the messages that they do
encode, so a value without an encoding, or with one that stands for another
value, is simply not encoded. `Lawful.LawfulLibraryExists` shows that the laws
are consistent with any decoders that know every object identifier. Random
bytes, clocks, the user's answer and how a write of the file ends are
parameters.

| file | contents |
|---|---|
| `wrappers.dfy` | `Option`, `Result`, the library's errors |
| `der.dfy` | lengths, TLVs, INTEGERs, nonces (X.690 sections 8.1.3, 8.3, 10.1) |
| `kem_types.dfy` | the kemInfo wrapper, the hint, the KDF context |
| `cms.dfy` | SignedData: attributes, certificate list, creation, verification |
| `strings.dfy`, `glob.dfy`, `match_rules.dfy`, `match_evaluation.dfy` | certificate match rules |
| `algorithms.dfy`, `suite.dfy`, `lawful.dfy`, `kdf.dfy` | algorithms and strengths, the library's laws and their consistency, key derivation |
| `client.dfy`, `client_runs.dfy` | the client's state machine; every run of it against any peer |
| `selection.dfy`, `replies.dfy` | exactly what hints and rejections lead to; exactly which replies are accepted, and with which key |
| `kdc.dfy`, `kdc_admission.dfy`, `kdc_replies.dfy` | what the KDC advertises and accepts; whom it admits; exactly which replies it builds |
| `requests.dfy`, `key_agreement.dfy`, `negotiation.dfy`, `profile.dfy` | the client and the KDC together, through the bytes of request and reply |
| `pin_store.dfy`, `pin_history.dfy`, `broker_runs.dfy` | the broker's store, its histories, and its runs with a file and restarts |
| `tofu.dfy`, `end_to_end.dfy` | the client's use of the broker, and its runs with the broker behind them |

An object the program updates in place (`PkinitClientState`, `PinStore`, the
output buffers, the client settings) is a class whose methods are proved equal
to functions on its state (`Client.Built`, `Client.Processed`,
`PinStore.Decided`, ...); the lemmas about runs are about those functions.

## Where the code differs from its documentation

- The lists a KDC sends are documented as every algorithm it accepts
  (`pkinit-core/src/server.rs:89-95`). The code accepts more: elliptic curves
  below `dh_min_bits`, which acceptance never compares, and every pure ML-KEM
  when none is configured. `Kdc.AcceptedBeyondAdvertised` says exactly what,
  `Kdc.DefaultTakesUnlisted` that the default configuration is such a case, and
  `Kdc.ListedExactlyIfAccepted` for which configurations the list is exact.
- `simple_match` is documented as a glob in which `*` matches any sequence
  (`pkinit-core/src/identity/matching.rs:174-175`). It places a trailing
  literal at its leftmost occurrence, so `a*b` rejects `abab`.
  `Glob.TrailingLiteralMissed` is that input; `Glob.AcceptsIsComplete` gives
  the exact condition for a miss.
- Without a negotiated KDF the shared secret and the nonces are truncated or
  padded with zeros (`pkinit-core/src/crypto/kdf.rs:208-221`), which is not the
  hash construction of section 3.2.3.1 of RFC 4556. `Kdf.OctetString2Key` and
  `KeyAgreement.DhKeysAgree` are about the code.
- Selecting a KEM keeps a DH key of an earlier request
  (`pkinit-core/src/client.rs:218-222`). That the mode of an accepted reply is
  that of the latest request holds for KEM replies
  (`ClientRuns.KemReplyAnswersLatestRequest`) and is false for DH replies:
  `KeyAgreement.StaleDhReplyAccepted` takes an honest DH request and its reply,
  switches the client to a KEM, sends the KEM request, and has the DH reply
  accepted. `KeyAgreement.StaleDhReplyExactly` gives the condition: after the
  switch some DH reply is accepted if and only if a DH key is stored.
- The client's record of having sent a KEM key is cleared when a hint or a
  retry leads to another selection, and comes back with the next request. The
  commitment to a KEM therefore rests on that request: step by step it is kept
  if and only if the request gets as far as its record
  (`ClientRuns.CommittedStep`, and `ClientRuns.KemCommitment` for runs);
  `ClientRuns.CommitmentNeedsRequest` shows what is accepted otherwise.
- An expired pin is forgotten in memory and not on disk
  (`pkinit-trust-brokerd/src/store.rs:300-304`). With successful writes and
  under any clock the memory is the file without what has been forgotten
  (`BrokerRuns.MemoryIsDiskMinusForgotten`), so a restart changes a decision if
  and only if the request meets a forgotten pin that is live again
  (`BrokerRuns.RestartShowsExactly`), and restarts are invisible in a whole run
  if and only if no request meets such a pin after a restart brought it back
  (`BrokerRuns.InvisibleExactly`). A clock that does not run backwards is
  enough for that and not necessary; `BrokerRuns.ClockSetBackShows` is a run in
  which a restart does show. After a failed write it depends on what the write
  left (`BrokerRuns.FailedWriteShows`). Whatever the clock and the restarts,
  every trusted reply is justified (`BrokerRuns.TrustedAcrossRestarts`).

## Model

| member | source | states |
|---|---|---|
| Der.DerEncodeLength | pkinit-core/src/kem_types.rs:197-219 | Pushing octet by octet leaves the shortest definite form (X.690 section 10.1) after what the buffer held; from 2^32 on, only the low 32 bits are written. |
| Der.DerParseLength | pkinit-core/src/kem_types.rs:174-195 | The accumulating loop reads the big-endian numeral of one to four octets, stays in bounds on every input, never overflows, and refuses 0x80, more than four octets, and truncated input. |
| Der.ParseEncodedLength | pkinit-core/src/kem_types.rs:174-219 | Reading an encoded length before any suffix gives that length and its size if and only if it is below 2^32. |
| Der.EncodedLengthShortest | pkinit-core/src/kem_types.rs:174-219 | Of all strings the parser reads as some length, the encoder's is the shortest. |
| Der.DerLengthPrefixFree | pkinit-core/src/kem_types.rs:197-219 | No encoded length is a proper beginning of another: equal strings start with the same length and leave the same rest. |
| Der.TlvPrefixFree | pkinit-core/src/kem_types.rs:92-127 | The same for whole TLVs: tag, content and rest are determined by the bytes. |
| Der.IntegerRoundTrip | pkinit-core/src/kem_types.rs:92-127 | The minimal two's complement contents of any integer read back as that integer (X.690 section 8.3). |
| Der.IntegerShortest | pkinit-core/src/kem_types.rs:92-127 | No contents of the same value are shorter. |
| Der.NonceBijection | pkinit-core/src/kem_types.rs:11-22 | Encoding and decoding nonces are inverse bijections between i32 and 0..2^32-1, and every other integer is refused. |
| KemTypes.EncodeKemRepWrapper | pkinit-core/src/kem_types.rs:163-172 | The pushed bytes are the EXPLICIT [2] wrapper of the encoded KEMRepInfo. |
| KemTypes.WrapperRoundTrip | pkinit-core/src/kem_types.rs:146-172 | The wrapper's content is read back, whatever follows it, if and only if it is below 2^32 bytes. |
| KemTypes.KemRepRoundTrip | pkinit-core/src/kem_types.rs:129-172 | Signed data goes onto the wire as a recognizable KEM reply and comes back unchanged through both nested layers. |
| KemTypes.EncodePkinitHint | pkinit-core/src/kem_types.rs:246-270 | The two-pass pushes give the nested SEQUENCE and [0] around the encoded list. |
| KemTypes.HintRoundTrip | pkinit-core/src/kem_types.rs:246-319 | A hint is parsed back to the advertised list, whatever follows it. |
| KemTypes.SuppPubInfoInjective | pkinit-core/src/kem_types.rs:92-127 | Two KEM KDF contexts (enctype, request, signed data) have the same HKDF info if and only if they are equal. |
| Cms.RetagAsSet | pkinit-core/src/crypto/cms.rs:562-568 | The contents are put back under a SET tag with their length. |
| Cms.RetagRestoresSignedBytes | pkinit-core/src/crypto/cms.rs:390-437 | Stripping the SET header and re-tagging gives exactly the bytes that were signed (section 5.4 of RFC 5652). |
| Cms.VerifyMessageDigest | pkinit-core/src/crypto/cms.rs:484-520 | The loop succeeds if and only if the attributes are well-formed ones of other types followed by a messageDigest attribute whose first value is this digest. |
| Cms.VerifyContentType | pkinit-core/src/crypto/cms.rs:522-558 | The same for the first contentType attribute and the identifier it carries. |
| Cms.FindAttributeExactly | pkinit-core/src/crypto/cms.rs:484-558 | The search yields some values if and only if the attributes are whole ones of other types, then one of this type with these values, then anything. |
| Cms.AttributesAreFound | pkinit-core/src/crypto/cms.rs:390-558 | In whichever order DER sorts the two signed attributes, both checks find theirs with the value that was put in. |
| Cms.SignedAttributesInOrder | pkinit-core/src/crypto/cms.rs:390-437 | The SET that is signed holds both attributes in ascending dictionary order (X.690 section 11.6). |
| Cms.SignerDigestExactly | pkinit-core/src/crypto/cms.rs:326-338 | ML-DSA and composite ML-DSA signers use SHA-512, all others SHA-256. |
| Cms.ExtractCertificates | pkinit-core/src/crypto/cms.rs:441-451 | The loop over the advancing decoder returns TLVs that make up the field again, and fails only where no list of TLVs does. |
| Cms.ExtractedExactly | pkinit-core/src/crypto/cms.rs:88-92 | The field splits into a list if and only if the list, concatenated in order, is the field and every entry is one TLV. |
| Cms.FindSignerCert | pkinit-core/src/crypto/cms.rs:454-474 | The first certificate with the signer's issuer and serial number, all before it decoding and not matching; an error exactly if there is none such. |
| Cms.VerifyCreated | pkinit-core/src/crypto/cms.rs:36-251 | Whatever is signed with a certified key verifies, and gives back content, type, signer, all certificates in order, and the signature algorithm. |
| Cms.UnsignedRoundTrip | pkinit-core/src/crypto/cms.rs:257-300 | An unsigned message is recognized with its content and type, and never verifies as a signed one. |
| Cms.VerifiedExactly | pkinit-core/src/crypto/cms.rs:141-251 | A message verifies with an outcome if and only if its first SignerInfo names the first matching presented certificate, and that certificate's key signed attributes that carry the content's type and digest. |
| Glob.SimpleMatch | pkinit-core/src/identity/matching.rs:176-200 | The greedy loop accepts exactly: a substring for starless patterns, a glob match for patterns ending in `*`, and otherwise a haystack none of whose proper prefixes matches while it does itself. |
| Glob.LeastStarLiteral | pkinit-core/src/identity/matching.rs:183-193 | Leftmost is optimal: the first occurrence after the shortest prefix that matches so far ends the shortest prefix that matches one part more. |
| Glob.MatchesConcat | pkinit-core/src/identity/matching.rs:174-200 | A string matches a concatenated pattern if and only if some cut of it matches the two parts. |
| Glob.AcceptsIsSound | pkinit-core/src/identity/matching.rs:176-200 | What is accepted really matches the pattern as a glob. |
| Glob.AcceptsIsComplete | pkinit-core/src/identity/matching.rs:176-200 | A real match is accepted if and only if the pattern ends in `*` or no proper prefix of the haystack matches. |
| Glob.TrailingLiteralMissed | pkinit-core/src/identity/matching.rs:195-199 | `abab` matches `a*b` and is rejected. |
| MatchRules.SplitTopLevel | pkinit-core/src/identity/matching.rs:48-75 | The bracket-counting loop cuts at the leftmost separators outside brackets, each part counting brackets afresh. |
| MatchRules.JoinOfSplit | pkinit-core/src/identity/matching.rs:48-75 | Joining the parts with the separator restores the input. |
| MatchRules.SplitOfPart | pkinit-core/src/identity/matching.rs:48-75 | Splitting any part again by the same separator returns that part alone. |
| MatchRules.LeafExactly | pkinit-core/src/identity/matching.rs:77-109 | A leaf parses to a rule if and only if it is `<TAG>value` with one of the five tags and a value of that tag's syntax, white space around it aside. |
| Strings.UnsignedExactly | pkinit-core/src/identity/matching.rs:92-104 | What the arcs and the key usage are read from: one digit or more after an optional plus sign, below the type's limit. |
| Strings.DigitExactly | pkinit-core/src/identity/matching.rs:92-104 | Digits are decimal figures and letters of either case. |
| Strings.TrimExactly | pkinit-core/src/identity/matching.rs:77-78 | Trimming takes away white space only, and all of it at both ends. |
| Strings.WhitespaceExactly | pkinit-core/src/identity/matching.rs:77-78 | The 25 characters that count as white space. |
| MatchRules.RuleExactly | pkinit-core/src/identity/matching.rs:19-46 | A text parses to a rule if and only if its parts between top-level double bars are conjunctions of the rule's, and theirs between double ampersands its leaves. |
| MatchRules.ParsedRuleIsCanonical | pkinit-core/src/identity/matching.rs:19-109 | Whatever the text, a parsed rule is a leaf, an And of leaves, or an Or of those. |
| MatchRules.PrintedRuleParses | pkinit-core/src/identity/matching.rs:19-109 | Printing a rule of that shape with plain values and parsing the text restores it. |
| MatchEvaluation.EvaluateRule | pkinit-core/src/identity/matching.rs:111-152 | The recursive evaluation with its two early-exit loops computes the short-circuit value over the certificate's fields. |
| MatchEvaluation.EvaluationMeans | pkinit-core/src/identity/matching.rs:111-152 | An answer, if there is one, is whether some alternative holds in all its leaves; with every field readable there is one. |
| MatchEvaluation.MatchesText | pkinit-core/src/identity/matching.rs:19-28 | From the text of a rule to that meaning, for every text that parses. |
| MatchEvaluation.LeafAnswers | pkinit-core/src/identity/matching.rs:111-138 | Which field each kind of leaf looks at, all three SAN lists included, and that the key usage is compared bit by bit. |
| Algorithms.KemFromOid | pkinit-core/src/constants.rs:114-141 | An identifier names a KEM if and only if it is that KEM's. |
| Algorithms.NamesExactly | pkinit-core/src/constants.rs:143-153 | A name means a KEM if and only if it is one of its two spellings, in whatever case. |
| Algorithms.StrengthExactly | pkinit-core/src/constants.rs:155-164 | The NIST category of each KEM. |
| Algorithms.AlgorithmsAtOrAbove | pkinit-core/src/constants.rs:171-177 | Exactly the pure ML-KEM variants of at least that category, also for a composite floor. |
| Algorithms.GroupAlgIdRoundTrip | pkinit-core/src/crypto/dh.rs:306-385 | An identifier is read as a group if and only if it is that group's own and the group is a curve or meets the minimum. |
| Kdf.PickKdfAlg | pkinit-core/src/crypto/kdf.rs:21-26 | The KDC's most preferred KDF among those listed, and none exactly if none is listed. |
| Kdf.OctetString2Key | pkinit-core/src/crypto/kdf.rs:208-221 | The buffer filled in place is the secret cut or zero-padded to the enctype's length. |
| Kdf.TruncateOrPadEqual | pkinit-core/src/crypto/kdf.rs:215-218 | Two secrets give the same key material if and only if their zero-padded leading bytes agree. |
| Kdf.PkinitKdfExactly | pkinit-core/src/crypto/kdf.rs:28-97 | The agile derivation is the library's, under the KDF's own hash, over the secret and OtherInfo of all of the context. |
| Kdf.KdfKeysEqualExactly | pkinit-core/src/crypto/kdf.rs:50-97 | Without collisions in the library, two agile derivations give the same key if and only if secret, KDF, enctype, parties, request and reply are the same. |
| Kdf.KemKeysEqualExactly | pkinit-core/src/crypto/kdf.rs:106-134 | Without collisions in the library, two KEM derivations give the same key if and only if the secrets and the contexts are the same. |
| Kdf.LegacyKeyExactly | pkinit-core/src/crypto/kdf.rs:208-221 | The bytes turned into a legacy key, one by one: the secret as far as it goes, then zeros. |
| Kdf.PartiesEqualExactly | pkinit-core/src/crypto/kdf.rs:168-206 | Two names go into the derivation alike if and only if they are equal or both anonymous. |
| Client.PkinitClientState.constructor | pkinit-core/src/client.rs:73-97 | The floor is the configured KEM, ML-KEM-768 if only `require_kem` is set; no keys yet. |
| Client.PqCertificateExactly | pkinit-core/src/client.rs:847-871 | A client counts as post-quantum if and only if it has a certificate whose own key is ML-DSA or composite ML-DSA. |
| Client.PkinitClientState.SetDhGroup | pkinit-core/src/client.rs:210-216 | The new selection; every key and the record of the request are dropped, the DH nonce and the floor stay. |
| Client.PkinitClientState.SetKemAlgorithm | pkinit-core/src/client.rs:218-222 | The new selection; the KEM key and the record are dropped, a DH key stays. |
| Client.PkinitClientState.Apply | pkinit-core/src/client.rs:293-298 | Either of the two, by the kind of the offer. |
| Client.OffersAreRecognized | pkinit-core/src/client.rs:262-268 | The offers considered are exactly the recognized entries of the list. |
| Client.FirstAccepted | pkinit-core/src/client.rs:252-257 | An offer that policy accepts is chosen whenever there is one, and no other. |
| Selection.ChoiceExactly | pkinit-core/src/client.rs:252-257 | The choice is the first entry of the list that the client knows, has not just sent, and accepts. |
| Selection.ConfiguredKemIsKept | pkinit-core/src/client.rs:240-250 | The configured KEM is kept whenever the list names it and it meets the floor. |
| Selection.HintedExactly | pkinit-core/src/client.rs:232-258 | Otherwise a hint leads to the first choice on its list, and fails exactly without one. |
| Selection.RetriedExactly | pkinit-core/src/client.rs:672-722 | A rejection leads to the first choice other than what was sent, and which error there is without one. |
| Selection.TypedDataExactly | pkinit-core/src/client.rs:672-722 | Typed data of other kinds is passed over; certificate lists lead to a retry with certificates; the first list of algorithms decides. |
| Selection.HintReadExactly | pkinit-core/src/kem_types.rs:281-319 | A hint is read exactly if it is a SEQUENCE whose [0], if there is one, holds a list. |
| Client.PkinitClientState.ProcessPkinitHint | pkinit-core/src/client.rs:232-258 | The selection after a hint, and an unchanged state on every error. |
| Client.PkinitClientState.HandleTryagainTypedData | pkinit-core/src/client.rs:672-722 | The first typed data of a known kind decides; the state changes only for a retry with another algorithm. |
| Client.PkinitClientState.BuildAsReq | pkinit-core/src/client.rs:300-431 | The keys made or reused, the nonce, the record and the request, on every path including each failure. |
| Client.PkinitClientState.ProcessAsRep | pkinit-core/src/client.rs:433-654 | The key derived or the error, as Replies.ReplyExactly and the lemmas on refusals describe them, and a KEM key spent by the first KEM reply whatever comes of it. |
| Replies.ReplyExactly | pkinit-core/src/client.rs:433-654 | In every state, a reply yields a key if and only if it is a KEM or DH reply as below, for the key then held. |
| Replies.DhReplyExactly | pkinit-core/src/client.rs:457-538 | A DH reply yields a key if and only if it is signed, of type DHKeyInfo, from a signer that passes the chain check, for the caller's nonce, and the key is derived from the stored key's agreement with its public key. |
| Replies.KemReplyExactly | pkinit-core/src/client.rs:540-654 | The same for a KEM reply: algorithm, KDF, nonce, length, absence of a server nonce, and a post-quantum signature where the client asks for one; the key is derived from the decapsulated secret. |
| Replies.DhRefusals | pkinit-core/src/client.rs:457-538 | The error for a signed DH message, by the first check that fails. |
| Replies.KemMessageRefusals | pkinit-core/src/client.rs:546-590 | The error for a signed KEM message of the wrong type, signature kind or trust. |
| Replies.KemContents | pkinit-core/src/client.rs:546-643 | A trusted KEM message is judged by its contents alone. |
| Replies.KemRefusals | pkinit-core/src/client.rs:590-643 | The error for the contents of a trusted one, by the first check that fails. |
| Replies.UnsignedRefusals | pkinit-core/src/client.rs:433-455 | The error for replies that carry no signed message, and for KEM replies when no KEM key is waiting. |
| ClientRuns.StepKeeps | pkinit-core/src/client.rs:210-654 | What every single operation keeps: keys match the selection, the selection meets the floor, the floor is fixed. |
| ClientRuns.DowngradeSafety | pkinit-core/src/client.rs:73-722 | Over every run against any peer: the floor never changes, a selected KEM meets it, stored keys match the selection, `require_kem` rules out DH keys, and so does a post-quantum certificate with a floor unless the caller itself sets a group. |
| ClientRuns.NoDhDerivedKey | pkinit-core/src/client.rs:433-538 | Where DH is ruled out, no run yields a DH-derived key. |
| ClientRuns.RequestsCarryKem | pkinit-core/src/client.rs:332-353 | Where DH is ruled out, every request sent carries a KEM key at or above the floor. |
| ClientRuns.KemKeyOrigin | pkinit-core/src/client.rs:339-346 | A stored KEM key was generated by an earlier request, and no key was generated and no KEM reply came since. |
| ClientRuns.DhKeyOrigin | pkinit-core/src/client.rs:347-353 | A stored DH key was generated by an earlier DH request, with no switch of group since. |
| ClientRuns.AcceptedKemReply | pkinit-core/src/client.rs:546-643 | What an accepted KEM reply must have carried: signature, trusted chain, algorithm, KDF, nonce. |
| ClientRuns.KemReplyAnswersLatestRequest | pkinit-core/src/client.rs:540-654 | A KEM reply is accepted only for the key of the latest request that generated one, with that algorithm and the nonce the caller gives for the request, and spends the key. |
| ClientRuns.OneReplyPerKemKey | pkinit-core/src/client.rs:546-549 | Between a KEM reply and a later accepted one lies a request that generates a key. |
| ClientRuns.DhReplyNeedsDhRequest | pkinit-core/src/client.rs:457-538 | A DH-derived key goes back to a DH request of the same group with no switch of group since, and comes from a trusted message for the caller's nonce. |
| ClientRuns.RetryIsAccepted | pkinit-core/src/client.rs:672-722 | A retry is always with an algorithm that policy accepts and that was not the one sent. |
| ClientRuns.KemCommitment | kurbu5-pkinit/src/client_plugin.rs:346-391 | In the plugin's order of calls, a client with a post-quantum certificate that has sent a KEM key never makes a DH key or request again, floor or no floor, while every new selection is followed by its request. |
| ClientRuns.CommittedStep | kurbu5-pkinit/src/client_plugin.rs:212-241 | A single call keeps the commitment if and only if the request after a new selection gets as far as its record. |
| ClientRuns.CommitmentNeedsRequest | pkinit-core/src/client.rs:274-298 | Without the request after a retry, a list of groups that was refused before would be accepted. |
| Kdc.SortByStrengthSorts | pkinit-core/src/server.rs:489-490 | A permutation of the configured KEMs, strongest first, that keeps the configured order among equals. |
| Kdc.AdvertisedMembers | pkinit-core/src/server.rs:483-515 | Exactly the configured KEMs and, without `require_kem`, the groups of at least `dh_min_bits`. |
| Kdc.AdvertisedInOrder | pkinit-core/src/server.rs:483-515 | The list by position: the configured pure ML-KEM sorted and stable, then the composites as configured, then the groups from P-521 down to 2048 bits, each once. |
| Kdc.ExchangeDecision | pkinit-core/src/server.rs:219-240 | The decision on a request depends on the exchange it asks for alone, and a refusal is of the class that carries typed data. |
| Kdc.KeyExchangeExactly | pkinit-core/src/server.rs:219-240 | For every key whatsoever: which exchange it is taken for, if and only if its identifier or its group, its size, the DH nonce and the configuration say so. |
| Kdc.AdvertisedIsAccepted | pkinit-core/src/server.rs:102-111 | Everything advertised is accepted if and only if the two configured lists respect the split into pure and composite, as those read from a profile do. |
| Kdc.AcceptedBeyondAdvertised | pkinit-core/src/crypto/dh.rs:83-123 | Accepted is advertised, plus exactly the curves below the minimum (without `require_kem`) and all pure ML-KEM when none is configured. |
| Kdc.DefaultTakesUnlisted | pkinit-core/src/config.rs:78-97 | The default configuration takes P-256 and does not list it. |
| Kdc.ListedExactlyIfAccepted | pkinit-core/src/server.rs:483-515 | The list is exactly what is taken if and only if the lists respect the split, pure ML-KEM is configured or listed, and groups are refused or listed from P-256 on. |
| Kdc.PkinitKdcState.New | pkinit-core/src/server.rs:48-71 | `require_kem` without any KEM becomes every pure ML-KEM; the hint and the typed data are the encoded list of that configuration; an error exactly if the list has no encoding. |
| Kdc.NormalizedTakesKem | pkinit-core/src/server.rs:53-61 | With `require_kem` some KEM is always listed and taken, every pure ML-KEM if none is configured; nothing else changes. |
| KdcReplies.KemRepExactly | pkinit-core/src/server.rs:282-363 | A KEM reply is built if and only if HKDF-SHA-512 is listed or nothing is, and the libraries answer; what it carries, and that its key is from the encapsulated secret. |
| KdcReplies.DhRepExactly | pkinit-core/src/server.rs:365-456 | A DH reply is built if and only if the libraries answer; its KDF is the preferred one listed, and its key from the agreement with the client's key. |
| KdcReplies.OtherKdfsRefused | pkinit-core/src/server.rs:288-306 | A KEM request that lists KDFs is refused for them if and only if HKDF-SHA-512 is not among them. |
| KdcReplies.OwnKdfsAreTaken | pkinit-core/src/client.rs:366-393 | The client's own lists are never refused, and its DH requests are answered with SHA-256. |
| KdcAdmission.SignedIsNeverUnsigned | pkinit-core/src/crypto/cms.rs:257-324 | A SignedData with a SignerInfo is never taken for an unsigned AuthPack, in either of its forms. |
| KdcAdmission.OpenedUnsigned | pkinit-core/src/server.rs:126-143 | A request counts as anonymous if and only if its AuthPack is structurally unsigned. |
| KdcAdmission.OpenedSigned | pkinit-core/src/server.rs:144-174 | It counts as authenticated if and only if it is signed (as in Cms.VerifiedExactly) and content type, path and required EKU are in order. |
| KdcAdmission.AdmissionExactly | kurbu5-pkinit/src/kdc_plugin.rs:121-260 | A client is admitted, with what the KDC then goes by, if and only if the request is a timely, fresh, intact AuthPack for an exchange that is taken, unsigned and for WELLKNOWN/ANONYMOUS, or signed by a certificate with a valid path, the required EKU, and a SAN for that client. |
| KdcAdmission.AuthorizationExactly | kurbu5-pkinit/src/kdc_plugin.rs:210-260 | Which error a verified request for a client gets, and when. |
| KeyAgreement.SignedReplyVerifies | pkinit-core/src/server.rs:282-456 | What the KDC signs verifies at the client with the content and the KDC's certificates. |
| KeyAgreement.KemKeysAgree | pkinit-core/src/server.rs:282-363 | The client accepts the KDC's KEM reply exactly if it trusts the KDC (post-quantum signature included where it asks for one), and then holds the KDC's key. |
| KeyAgreement.DhKeysAgree | pkinit-core/src/server.rs:365-456 | The same for DH, with a negotiated KDF (section 6 of RFC 8636) and on the legacy path over both nonces. |
| Requests.SealedContent | pkinit-core/src/client.rs:395-431 | Whatever the KDC opens a request to is the AuthPack that the client sealed, signed or not. |
| Requests.SealedOpens | pkinit-core/src/server.rs:126-174 | The KDC opens a client's request if and only if it accepts the client's certificate, and an anonymous one always, and finds what was sealed and by whom. |
| Requests.OtherChecksExactly | pkinit-core/src/server.rs:126-218 | Everything but the key exchange lets an honest request through if and only if it is within the skew, fresh, intact, and from an accepted certificate. |
| Requests.RequestDecision | pkinit-core/src/server.rs:113-268 | From the client's state through the request's bytes to the KDC's answer: the other checks decide first; then the KDC has the client's own key, nonces and KDFs if it takes the exchange, and refuses with typed data otherwise. |
| Requests.RequestCarries | pkinit-core/src/client.rs:332-431 | The request just built asks for the selection and carries the key and the nonce then held. |
| KeyAgreement.HonestExchangeAgrees | pkinit-core/src/client.rs:300-654 | From any client state: a request is verified if and only if it is admissible and the KDC takes its exchange, and the reply to it yields the KDC's key or a refusal of trust, nothing else. |
| KeyAgreement.DhReplyIgnoresSelection | pkinit-core/src/client.rs:457-538 | A DH reply is judged by the stored DH key and nonce, not by the selection. |
| KeyAgreement.StaleDhReplyAccepted | pkinit-core/src/client.rs:218-222 | An honest DH request and its reply, with a switch to a KEM and a KEM request in between: the DH reply is accepted with the KDC's key although the latest request was for a KEM. |
| KeyAgreement.StaleDhReplyExactly | pkinit-core/src/client.rs:218-222 | After the switch some DH reply is accepted if and only if a DH key is stored, given a trusted KDC that can answer DH keys. |
| Negotiation.RecognizeListed | pkinit-core/src/client.rs:262-268 | A listed algorithm is recognized as itself if and only if the client implements it at its own minimum. |
| Negotiation.OffersOfKdc | pkinit-core/src/server.rs:483-515 | The client's offers from a KDC's list are exactly the advertised algorithms it implements. |
| Negotiation.HintConverges | pkinit-core/src/client.rs:232-258 | After this KDC's hint the client fails if and only if nothing advertised meets its policy; otherwise the request it then sends is agreed on. |
| Negotiation.HintPrefersKem | pkinit-core/src/server.rs:473-482 | A client that takes some KEM on the list never comes to select a group by this KDC's hint. |
| Negotiation.RetryConverges | pkinit-core/src/client.rs:672-722 | After a rejection the client gives up if and only if nothing advertised meets its policy; otherwise it retries with something the KDC accepts. |
| Negotiation.RoundExactly | kurbu5-pkinit/src/kdc_plugin.rs:267-293 | One round over the bytes: a request that is not built or not admissible ends the negotiation; one that is sent is agreed on if the KDC takes its exchange, and otherwise the client acts on the KDC's list. |
| Negotiation.AtMostOneRejection | kurbu5-pkinit/src/kdc_plugin.rs:267-293 | From any state, if the requests go through: the first choice is agreed on if it is taken; else another one after exactly one rejection if there is common ground; else the client gives up after that rejection. If they do not go through, the outcome names the local failure or the KDC's other check. |
| Wrappers.ErrorClasses | pkinit-core/src/error.rs:144-158 | Which errors have a KRB-ERROR of their own, and which. |
| Negotiation.AcceptedAtOnce | pkinit-core/src/server.rs:219-240 | A request that is built and admissible is agreed on without any rejection if and only if the KDC takes the selected exchange. |
| Negotiation.MatchingKemMinimum | pkinit-core/src/constants.rs:155-177 | With the same KEM minimum on both sides, requests that go through end in that KEM at once or, if it is a composite not opted in, in ML-KEM-1024 after one rejection. |
| Negotiation.MatchingKemMinimumWithHint | pkinit-core/src/client.rs:232-258 | With the KDC's hint, the first request already carries a KEM at or above the minimum and is agreed on if it is sent. |
| Profile.ClientSettings.ReadClientConfig | kurbu5-pkinit/src/profile.rs:117-170 | The settings after reading, and the partial change when an unknown KEM name stops it. |
| Profile.CompositesFromExactly | kurbu5-pkinit/src/profile.rs:29-43 | The list is read if and only if every name is that of a composite KEM. |
| Profile.RealmWins | kurbu5-pkinit/src/profile.rs:88-113 | A realm's own boolean or integer wins over the defaults, and those over the value before. |
| Profile.RealmStringsWin | kurbu5-pkinit/src/profile.rs:60-86 | The same for strings, where a relation without values counts as absent. |
| Profile.SmallestThatReaches | kurbu5-pkinit/src/profile.rs:239-247 | The smallest of P-256 and the two MODP groups that reaches the minimum. |
| Profile.CastsInvert | kurbu5-pkinit/src/profile.rs:190 | The casts between the profile's signed integers and the settings keep every bit pattern. |
| Profile.ReadKdcConfig | kurbu5-pkinit/src/profile.rs:172-219 | Fails exactly on an unknown minimum or a name that is no composite KEM's; otherwise keeps the pure and composite lists apart. |
| Profile.KnownMinimumIsRead | kurbu5-pkinit/src/profile.rs:117-219 | A known minimum is always read by the client, and by the KDC if and only if its composites are composites. |
| Profile.SameMinimumAgrees | kurbu5-pkinit/src/profile.rs:117-219 | From two profiles with the same `pkinit_pqc_min_algorithm`, any certificate: requests that go through end in a KEM of that strength after at most one rejection. |
| Profile.SameMinBitsAgrees | kurbu5-pkinit/src/profile.rs:239-247 | From two profiles with no KEM minimum at the client, no `require_kem` and one `pkinit_dh_min_bits`: the first request, if it is sent, is agreed on if and only if the value is in 0..4096. |
| PinStore.SelectCa | pkinit-trust-brokerd/src/store.rs:237-241 | The last presented certificate that is not the signer and validates the chain; none exactly if there is none. |
| PinStore.SelectedIsEligible | pkinit-trust-brokerd/src/store.rs:157-241 | A selected certificate was presented, is not the signer, and validates the chain through the others. |
| PinStore.PinStore.InMemory | pkinit-trust-brokerd/src/store.rs:203-209 | Empty and without a file. |
| PinStore.PinStore.Open | pkinit-trust-brokerd/src/store.rs:211-232 | What the file holds; nothing if it is missing or does not parse, and an error exactly if it is there and cannot be read. |
| PinStore.PinStore.Persist | pkinit-trust-brokerd/src/store.rs:368-374 | A successful write leaves the pins in the file; a failed one may leave anything, as the file is not replaced atomically. |
| PinStore.PinStore.Decide | pkinit-trust-brokerd/src/store.rs:255-348 | The reply, the pins, whether the user was asked, and the file, for every case of the decision table. |
| PinStore.PinStore.TrustedRealms | pkinit-trust-brokerd/src/store.rs:354-366 | Exactly the pins that are live now. |
| PinHistory.PinOrigin | pkinit-trust-brokerd/src/store.rs:255-348 | In every history from an empty store, a pin goes back to an approval of its realm and has been there since. |
| PinHistory.TrustedIsJustified | pkinit-trust-brokerd/src/store.rs:255-348 | Every trusted reply hands out the CA of an interactive approval of that realm with the fingerprint now presented, made in this call, or earlier and not expired. |
| PinHistory.LivePinDecides | pkinit-trust-brokerd/src/store.rs:276-299 | While a pin is live it alone decides for its realm, a different CA is denied, and nobody is asked. |
| PinHistory.NoLivePinDecides | pkinit-trust-brokerd/src/store.rs:300-348 | Without a live pin only an interactive request asks, only a yes leaves a pin, and an expired one is gone. |
| PinHistory.GrantLasts | pkinit-trust-brokerd/src/store.rs:50-57 | A grant lasts exactly as long as the user said: later requests presenting the CA are trusted, and the realm listed, if and only if the time is within the lifetime. |
| PinHistory.LivePinStays | pkinit-trust-brokerd/src/store.rs:255-348 | In every history and under any clock, a pin stays unchanged as long as its realm is not asked about at or after its expiry. |
| PinHistory.ClockSetBackForgets | pkinit-trust-brokerd/src/store.rs:300-304 | With a clock set back, a pin that had expired in between is gone, where an untouched one would decide. |
| PinHistory.ListingAgrees | pkinit-trust-brokerd/src/store.rs:354-366 | A realm is listed with a fingerprint if and only if a non-interactive request presenting that CA is trusted; the other replies correspond likewise. |
| PinHistory.OtherRealmsUnchanged | pkinit-trust-brokerd/src/store.rs:255-366 | A request for one realm changes no other realm's listing, replies or prompts. |
| PinHistory.LivePartDecides | pkinit-trust-brokerd/src/store.rs:276-348 | Stores with the same live pins reply and ask alike and end with the same live pins. |
| BrokerRuns.MemoryIsDiskMinusForgotten | pkinit-trust-brokerd/src/store.rs:276-335 | With successful writes, under any clock and with restarts anywhere, the memory is the file without the pins forgotten since it was last written or read. |
| BrokerRuns.AgreeExactly | pkinit-trust-brokerd/src/store.rs:211-374 | File and memory agree on the live pins if and only if no forgotten pin is live in the file. |
| BrokerRuns.RestartShowsExactly | pkinit-trust-brokerd/src/store.rs:211-348 | A restart changes the decision on a request if and only if the request gets to its realm's pin, that pin was forgotten, and it is live in the file. |
| BrokerRuns.InvisibleExactly | pkinit-trust-brokerd/src/store.rs:211-348 | Every request of a run is decided as by a broker never restarted if and only if no request meets a live pin that a restart brought back. |
| BrokerRuns.MemoryAndDiskAgree | pkinit-trust-brokerd/src/store.rs:211-374 | With a monotone clock, file, memory and a broker never restarted agree on the live pins, with restarts anywhere. |
| BrokerRuns.RestartsAreInvisible | pkinit-trust-brokerd/src/store.rs:211-232 | So restarts then change no reply and no prompt, past or next. |
| BrokerRuns.TrustedAcrossRestarts | pkinit-trust-brokerd/src/store.rs:211-348 | Of the broker as it runs, restarts and failed writes included, under any clock: a trusted reply hands out the CA of an interactive approval of that realm with the fingerprint now presented, made in this call, or earlier and still live. |
| BrokerRuns.EveryPinGranted | pkinit-trust-brokerd/src/store.rs:211-374 | In every such run, every pin in memory and in the file goes back to an approval of its realm. |
| BrokerRuns.BrokerPinStays | pkinit-trust-brokerd/src/store.rs:255-374 | An approved pin stays in memory and in the file, restarts or not and under any clock, as long as its realm is not asked about after the expiry. |
| BrokerRuns.ClockSetBackShows | pkinit-trust-brokerd/src/store.rs:300-304 | An approval, a request after its expiry, then one before it: unknown without a restart, trusted after one. |
| BrokerRuns.FailedWriteShows | pkinit-trust-brokerd/src/store.rs:324-335 | After an approval whose write failed, a restart shows while the grant lasts if and only if what the write left no longer says the same about the realm. |
| Tofu.ValidateKdcChain | pkinit-core/src/client.rs:141-199 | The verdict, the broker's pins and its file, as Tofu.AcceptedExactly, Tofu.RefusedExactly and Tofu.ProbeGrants describe them. |
| Tofu.AcceptedExactly | pkinit-core/src/client.rs:141-199 | In every exchange, a chain is accepted if and only if EKU and SAN hold and it validates to the configured anchors, or to the realm's live pin of the selected CA, or to the selected CA just approved in an anonymous exchange. |
| Tofu.RefusedExactly | pkinit-core/src/client.rs:141-199 | Otherwise which error, and what the broker remembers, for each reason. |
| Tofu.ProbeGrants | pkinit-core/src/client.rs:160-185 | An anonymous exchange in which the user approves the selected CA leaves exactly that pin, live exactly for the lifetime given. |
| Tofu.RealmOfExactly | pkinit-core/src/client.rs:155-160 | The realm asked about is what stands between the first `@` of the principal and the next one. |
| Tofu.AuthenticatedAddsNoTrust | pkinit-core/src/client.rs:141-199 | An authenticated exchange never adds or replaces a pin. |
| Tofu.AuthenticatedIsJustified | pkinit-core/src/client.rs:141-199 | Over every run of the broker, restarts included, under any clock: it succeeds only with EKU and SAN in order and a chain validated by the configured anchors, or by the CA of an earlier, live, interactive approval of that realm. |
| Tofu.EligiblePassesClientCheck | pkinit-core/src/client.rs:730-789 | A CA the broker finds eligible passes the client's own re-check, if more intermediates never break a path. |
| Tofu.TrustedAnchorValidates | pkinit-core/src/client.rs:730-789 | Of the broker as it runs, restarts included, with an injective hash: the anchor handed out is the selected CA of the presented chain, and it passes that re-check. |
| Tofu.ApprovedThenTrusted | pkinit-core/src/client.rs:141-199 | From an anonymous exchange in which the user approves a CA for a lifetime: an authenticated exchange presenting that CA within the lifetime needs only EKU and SAN, whatever the broker is asked in between, with restarts anywhere and under any clock, if the realm is not asked about after the expiry. |
| EndToEnd.AcceptedReplyIsJustified | pkinit-core/src/client.rs:433-654 | In every run of an authenticated client against any peer, with any run of the broker behind each reply: an accepted reply is signed by a signer with EKU and SAN and a path to a configured anchor or to the CA of an earlier, live, interactive approval. |

## Left out

- The arithmetic of signatures, hashes, ML-KEM, DH and path validation, and the ASN.1 library: function values with the stated laws.
- The Oakley primes and the values of named object identifiers: distinct constants; the arcs are listed only to keep other identifiers apart from them.
- Lengths of more than four octets and multi-byte tags in the library's own decoder: the model's TLV reader refuses them, and round trips ask for encodings below 2^32 bytes.
- Der.IntegerRoundTrip: about contents octets only, since the INTEGER decoder is the library's.
- KemTypes.HintRoundTrip: asks the library's list codec to encode and invert the one list that is sent.
- MatchRules.SplitTopLevel: nesting is counted without bound where the code has a `u32`, and text is characters where the code has UTF-8 bytes; the separators and brackets are ASCII.
- MatchRules.PrintedRuleParses: printing is the model's own, since the program only parses.
- MatchEvaluation.EvaluateRule: the fields of a certificate are given, each as a value or an error; decoding them is the library's.
- Kdc.SortByStrengthSorts: the standard library's stable sort appears as an insertion sort.
- KeyAgreement.KemKeysAgree: a lost or altered reply is covered by the runs against any peer, in ClientRuns.
- KeyAgreement.HonestExchangeAgrees: the exchange is one request and its reply; the KDC keeps no state between requests.
- Negotiation.AtMostOneRejection: asks that the requests the negotiation gets to stay below 4 GiB and that certificate and checksum checks report errors of their own.
- Profile.ReadKdcConfig: identities, anchors, CRLs, EKU and freshness settings are passed through, since no property here depends on how they are spelled.
- PinStore.PinStore.Open: the JSON file format, base64 and hexadecimal renderings, and the sanitizing of displayed names.
- PinStore.PinStore.Decide: the reads of the clock in one decision, inside path validation and before the prompt, are one `now`, and so are those of the broker and the client in one exchange.
- BrokerRuns.TrustedAcrossRestarts: a failed write may lose pins or keep old ones; one that makes up pins is not covered.
- Tofu.ValidateKdcChain: the transport to the broker is a direct call, and its timeouts are the unreachable case.
- Prompters, varlink, the broker's process, the command-line tool: user interface and plumbing; an answer with a lifetime or a refusal is a parameter.
- `handle_tryagain` on METHOD-DATA: decodes a list and calls the typed-data operation.
- Certificate and key loading, the krb5 bindings, `return_pkinit_kx`, tracing: input, output and raw memory.
- EKU, SAN, checksum and certauth checks: abstract predicates over library results.
