# Onion requests: a verified model

A Dafny model of onionreq, the library that wraps a request in one layer of encryption per hop,
peels it again hop by hop, and carries the reply back. The model follows the C++ sources under
`onionreq/`; every method is proved against a specification function or a stated result, and the
lemmas say what those functions promise together.

`dafny verify dfyconfig.toml` checks the project.

## What is modelled

| file | part of the program |
|---|---|
| OnionMaker.dfy, Junk.dfy, OnionTheorems.dfy, Messages.dfy | building an onion, a hop's parser, what both promise together, and the layout and acceptance of messages |
| ChannelEncryption.dfy, Evp.dfy, WireFormats.dfy | the three wire formats byte by byte, key derivation by role, and the buffer code around a streaming cipher |
| XEd25519.dfy, CurveMaps.dfy, CurveEquations.dfy | signatures with X25519 keys, and the maps between both curve forms |
| Signatures.dfy | Monero-style Schnorr signatures |
| Transport.dfy | the connection cache under concurrent callers |
| Consensus.dfy, Random.dfy | the path selector and random choice |
| KeyTypes.dfy, Encodings.dfy | keys as text: raw, hex, base64, z-base-32 |
| Json.dfy, JsonTheorems.dfy, Labels.dfy | JSON printing and parsing, and the fixed names of the metadata |
| Bytes.dfy, Buffers.dfy, Modular.dfy, Scalars.dfy, Curves.dfy, Primitives.dfy, Wrappers.dfy | bytes, integers, congruences, scalars, and the primitives taken as parameters |

Framing, little-endian integers, hex, base64, z-base-32, JSON printing and parsing, type names, CBC
chaining, counter mode, PKCS#7 padding, bit masks, clamping and scalar arithmetic modulo L are all
written out and proved.

## What is assumed

- `Primitives.Primitives` holds X25519, HMAC-SHA256, Blake2b, the AES block permutation, the GCM tag
  and XChaCha20-Poly1305 as functions. `Lawful` lists what is used of them: key agreement, refusal
  of the all-zero point, decryption undoing encryption, and the sizes of ciphertexts.
  `ToyIsLawful` gives an instance.
- `Curves.Curve` is an abelian group with a base point of order L and the 32-byte encoding of
  section 5.1.2 of RFC 8032, together with the field inversion. `ToyCurveIsLawful` gives an
  instance for the real L and the real field prime.
- That 2^255 - 19 and L are prime enters as the hypothesis `PrimeModulus` (every non-zero residue
  has an inverse) of the lemmas that need it.
- Random bytes, hash functions, the outcome of a connect, and the iteration order of unordered
  containers are parameters.
- A byte is an integer below 256; C integer widths are written out where they matter: the 32-bit
  size field wraps around, and lengths handed to OpenSSL are cut to a C `int`.

## Where the code and its description differ

- `pick_random` (onionreq/random.hpp:37-48) samples as many elements as there are. Sampling from
  forward iterators keeps the order, so it always returns the first element
  (`Randoms.PickRandom`). With four edges, every later path starts at the same one
  (`PathSelections.PinnedEdge`), and that path may visit its edge twice: `PathSelections.PathsDistinct`
  gives the exact condition on the state, and `PathSelections.RepetitionIsReachable` says that a
  fresh selector gets there exactly when its list has at least seven nodes.
- `sign` clamps for the public key but not for the private scalar (onionreq/signal-xed25519.cpp:96,
  104-106), so the comment at line 108 holds for clamped keys only. `XEd25519.SignVerify` gives the
  exact condition and `XEd25519.ZeroKeyFails` a key that fails whatever the hash functions are,
  unless the challenge is zero.
- `parse_pubkey` is documented to give the null key for invalid text (onionreq/key_types.hpp:135-137).
  Texts that are no form of any key are accepted and give a key that is not null: 42 letters "B" and
  "==", which hold 31 bytes, and 43 letters "B", whose left-over bits are set
  (`KeyTypes.UnprintedTextsAccepted`). `KeyTypes.PrintedTexts` says exactly which accepted texts are
  a form of a key.
- A plaintext of 2^31 bytes or more does not survive the OpenSSL ciphers, because sizes are passed
  as `int` (`ChannelEncryptions.ChannelRoundTrip`); for aes-gcm this is reached before the 32-bit
  size field of a frame (`OnionTheorems.SizeBoundIsExact`).
- A legacy secret key with its top bit set signs with a scalar that its own public key does not
  belong to (`Signatures.LegacyPubkeyMatches`); `Signatures.LegacySignCheck` says when such a
  signature is accepted.
- `parse_enc_type` also accepts "xchacha20-poly1305", which its comment does not list
  (onionreq/channel_encryption.hpp:17-19).

## Model

| member | source | states |
|---|---|---|
| OnionTheorems.OnionRoundTrip | onionreq/onion_maker.cpp:29-106 | for every path of any length, payload, control data, keys and randomness below the size bound: parsing hop after hop with the hops' keys succeeds and ends with size, payload and control data |
| OnionTheorems.OnionPrefix | onionreq/onion_maker.cpp:60-76 | after k peels the message is exactly the frame around the blob built for the hops from k on, its metadata names hop k's identity, and its ephemeral key is the one that blob was encrypted under |
| OnionTheorems.SizeBoundIsExact | onionreq/onion_maker.cpp:51-81 | every hop recovers exactly its layer if and only if the blob for the first hop stays below the limit: 2^32 for xchacha20, 2^31 + 28 for aes-gcm |
| OnionTheorems.LayerNeedsRoom | onionreq/junk.cpp:34-59 | a hop can only recover a plaintext that fits the cipher and whose blob fits the 32-bit size |
| OnionTheorems.OnionIsFrame | onionreq/onion_maker.cpp:37-81 | the onion keeps its path, is the frame of the outermost blob announcing the first hop's key, and has the announced size |
| OnionTheorems.OnionSizeFormula | onionreq/onion_maker.cpp:51-81 | size = payload + control + n(4+O) + (n-1)R + 4 + F with (O,R,F) = (28,186,105) for aes-gcm and (40,188,107) for xchacha20 |
| OnionTheorems.RestIsShorter | onionreq/onion_maker.cpp:60-76 | layer sizes increase strictly from the last hop to the first |
| OnionTheorems.LayersSize | onionreq/onion_maker.cpp:46-76 | below the bound every layer is built, has the predicted size and carries its own hop's ephemeral key |
| OnionTheorems.LayerWraps | onionreq/onion_maker.cpp:73-75 | a plaintext that fits the cipher is wrapped, with the announced size and its own ephemeral key |
| OnionTheorems.FrameCarries | onionreq/junk.cpp:34-53 | a frame with metadata that names key and type in any accepted form carries its blob to the hop |
| OnionTheorems.PeelOneLayer | onionreq/junk.cpp:32-64 | from every message that carries its layer, however key, type and JSON are written, a hop decrypts exactly what was wrapped for it |
| OnionTheorems.PeelLayer | onionreq/junk.cpp:32-64 | from every message that carries the layers from i on, hop i recovers the core or the frame around the next hop's blob, and keeps what a reply needs |
| OnionTheorems.NextCarries | onionreq/onion_maker.cpp:62-70 | what hop i recovers is a message that carries the layers from i + 1 on |
| OnionTheorems.PeelToCore | onionreq/junk.cpp:32-64 | from any hop and any message that carries its layers, parsing in turn reaches the core and the last hop's reply encrypter |
| OnionTheorems.PeelToHop | onionreq/onion_maker.cpp:60-76 | between any two hops i < k, parsing a message that carries hop i's layers yields the frame addressed to hop k |
| OnionTheorems.CoreSplits | onionreq/onion_maker.cpp:51-53 | the innermost plaintext splits back into payload and control data when the payload is below 2^32 |
| OnionTheorems.UnframedFrame | onionreq/junk.cpp:34-40 | reading a frame gives back ciphertext and metadata if and only if the ciphertext is shorter than 2^32 |
| OnionTheorems.FrameInjective | onionreq/onion_maker.cpp:70-70 | equal frames come from equal ciphertexts and equal metadata |
| OnionTheorems.RoutingMembers | onionreq/onion_maker.cpp:63-68 | the routing object lists destination, enc_type, ephemeral_key in key order |
| OnionTheorems.OpeningMembers | onionreq/onion_maker.cpp:81-81 | the opening object lists enc_type and ephemeral_key |
| OnionTheorems.RoutingText | onionreq/onion_maker.cpp:63-70 | the routing data is printed as the compact JSON text with the three labels, hex keys and type name, character by character |
| OnionTheorems.OpeningText | onionreq/onion_maker.cpp:81-81 | the same for the opening data |
| OnionTheorems.MetadataSizes | onionreq/onion_maker.cpp:63-81 | printed metadata always has the sizes the onion size is computed from |
| OnionTheorems.ReplyRoundTrip | onionreq/onion_maker.cpp:83-104 | what the last hop's reply encrypter makes of any plaintext that fits, the maker decrypts to that plaintext, for both maker types |
| OnionTheorems.Base64Reply | onionreq/onion_maker.cpp:93-103 | a base64 reply, padded or not, yields the plaintext unless its text already decrypts as it is |
| Messages.ReplyAccepted | onionreq/onion_maker.cpp:83-104 | a text is returned exactly if the body decrypts to it, or the body does not decrypt, is base64, and its content decrypts to it |
| Messages.ReplyRefused | onionreq/onion_maker.cpp:83-104 | nothing is returned exactly if the body does not decrypt and neither does the content of a base64 body |
| Messages.FrameLayout | onionreq/onion_maker.cpp:70-70 | a frame is exactly four size bytes, least significant first, the ciphertext and the printed metadata |
| Messages.CoreLayout | onionreq/onion_maker.cpp:51-53 | the innermost plaintext is exactly four size bytes, the payload and the control data |
| Messages.LayerWire | onionreq/onion_maker.cpp:73-75 | in an xchacha20 layer the maker is the client: nonce, then the text sealed under H(secret, ephemeral key, hop key) |
| OnionMakers.EncodeSize | onionreq/onion_maker.cpp:16-22 | four bytes whose little-endian value is the size modulo 2^32 |
| OnionMakers.MakeOnion | onionreq/onion_maker.cpp:29-106 | the backward loop that overwrites one blob and one key pair computes the recursion over path suffixes, errors included |
| OnionMakers.OnionError | onionreq/onion_maker.cpp:75-75 | an error in any layer is the error of the whole onion |
| OnionMakers.MaybeDecryptResponse | onionreq/onion_maker.cpp:83-104 | for every body: the decrypted text, else the decrypted base64 content, else nothing; never an error |
| Junks.DecodeSize | onionreq/junk.cpp:13-19 | fails exactly below four bytes, otherwise the value whose little-endian bytes the message starts with |
| Junks.ParseJunk | onionreq/junk.cpp:32-64 | consuming the message from the front equals the specification on the whole message, with every error case |
| Messages.JunkAccepted | onionreq/junk.cpp:32-64 | a message gives a result exactly if its size, JSON, named or default type and key are there and its ciphertext decrypts for the server to that result |
| Messages.JunkRefused | onionreq/junk.cpp:32-59 | which error every other message gives, in the order of the checks |
| Messages.DefaultIsGcm | onionreq/junk.cpp:44-62 | metadata without a type: what a client encrypted with aes-gcm is decrypted, and the reply will use aes-gcm |
| Messages.NamesParse | onionreq/channel_encryption.cpp:67-77 | the six names, letter by letter, and the type of each |
| Messages.ReplyWire | onionreq/junk.cpp:60-62 | an xchacha20 reply is sealed under H(secret, remote key, hop key) |
| Junks.MalformedKeyRejected | onionreq/junk.cpp:50-59 | an ephemeral key in none of the accepted forms is always an error, because it becomes the null key |
| ChannelEncryptions.ChannelRoundTrip | onionreq/channel_encryption.cpp:79-109 | the other end decrypts to the plaintext if and only if its size fits the cipher: any for xchacha20, below 2^31 for aes-gcm, below 2^31 - 16 for aes-cbc |
| WireFormats.GcmSealed | onionreq/channel_encryption.cpp:111-161 | the sealed text is exactly iv, every byte under the counter-mode key stream from counter 2, and the tag of these |
| WireFormats.GcmOpened | onionreq/channel_encryption.cpp:163-219 | a text is opened exactly if its last 16 bytes are the tag of iv and body, and then to the body under the key stream |
| WireFormats.GcmRefused | onionreq/channel_encryption.cpp:174-202 | which texts are too short and which sizes OpenSSL refuses |
| WireFormats.CbcSealed | onionreq/channel_encryption.cpp:111-161 | the sealed text is exactly iv and the padded plaintext, every block combined with the one in front of it |
| WireFormats.CbcOpened | onionreq/channel_encryption.cpp:163-219 | a text is opened exactly if it has whole blocks and the last ends in well-formed padding, and then to the chained blocks without it |
| WireFormats.CbcRefused | onionreq/channel_encryption.cpp:174-202 | the error for a text shorter than an iv and for a size OpenSSL refuses |
| WireFormats.XChaChaWire | onionreq/channel_encryption.cpp:255-345 | for both roles: nonce and text sealed under the hash of secret, client key, server key; opened exactly if 40 bytes are there and the text opens under it |
| WireFormats.OpensslKeys | onionreq/channel_encryption.cpp:38-52 | aes-gcm is keyed by the HMAC of the secret with the salt LOKI, aes-cbc by the secret, whatever the role |
| WireFormats.NoSecret | onionreq/channel_encryption.cpp:21-30 | without a shared secret nothing is encrypted or decrypted |
| ChannelEncryptions.KeysAgree | onionreq/channel_encryption.cpp:38-52 | both ends derive the same keys, for xchacha20 when exactly one of them is the server |
| ChannelEncryptions.SameRoleTranscriptsDiffer | onionreq/channel_encryption.cpp:255-275 | two ends with the same role and different keys hash different transcripts |
| ChannelEncryptions.DeriveSymmetricKey | onionreq/channel_encryption.cpp:38-52 | the buffer that held the secret ends up with its HMAC |
| ChannelEncryptions.XChaCha20SharedKey | onionreq/channel_encryption.cpp:255-275 | the key is H(secret, client key, server key) whichever end computes it, in the buffer that held the secret |
| ChannelEncryptions.EncryptOpenssl | onionreq/channel_encryption.cpp:111-161 | the cursor stays in the buffer and the result is iv, ciphertext and tag of the plaintext, cut where the cursor stops |
| ChannelEncryptions.DecryptOpenssl | onionreq/channel_encryption.cpp:163-219 | splits iv, body and tag and returns the plaintext, or the error for short input, bad tag or bad padding |
| ChannelEncryptions.EncryptBody | onionreq/channel_encryption.cpp:137-150 | Update and Final together write one-shot CBC with padding, or counter mode |
| ChannelEncryptions.DecryptBody | onionreq/channel_encryption.cpp:194-213 | Update, tag and Final together decrypt the whole body or fail |
| ChannelEncryptions.OpenedSealed | onionreq/channel_encryption.cpp:111-219 | what opening gives back of every sealed plaintext, including one cut to a C int |
| ChannelEncryptions.EncryptedLength | onionreq/channel_encryption.cpp:123-158 | exact sizes: 12+n+16, 16+16(n/16+1) and 24+n+16 |
| ChannelEncryptions.DecryptedLength | onionreq/channel_encryption.cpp:163-219 | a plaintext is at least the overhead shorter than its ciphertext, exactly so for xchacha20, and below 2^31 for the OpenSSL ciphers |
| ChannelEncryptions.EncryptXChaCha20 | onionreq/channel_encryption.cpp:277-310 | nonce and sealed text under the role-dependent key |
| ChannelEncryptions.DecryptXChaCha20 | onionreq/channel_encryption.cpp:312-345 | the opened text, or the error for short, unkeyed or unauthentic input |
| ChannelEncryptions.Encrypt | onionreq/channel_encryption.cpp:79-93 | dispatch by type, with the key each type uses |
| ChannelEncryptions.Decrypt | onionreq/channel_encryption.cpp:95-109 | dispatch by type, with the key each type uses |
| ChannelEncryptions.ParseEncTypeInverse | onionreq/channel_encryption.cpp:67-77 | a name stands for a type exactly if it is that type's printed name or alias, and is an error exactly if it is none of the six |
| ChannelEncryptions.IntSize | onionreq/channel_encryption.cpp:139-139 | the conversion of a size to a C int |
| Evp.Context.EncryptUpdate | onionreq/channel_encryption.cpp:139-139 | encrypts complete blocks, keeps the rest pending, chains across calls |
| Evp.Context.EncryptFinal | onionreq/channel_encryption.cpp:146-146 | writes the padded last block, nothing for GCM |
| Evp.Context.DecryptUpdate | onionreq/channel_encryption.cpp:198-198 | decrypts complete blocks but holds the last one back |
| Evp.Context.DecryptFinal | onionreq/channel_encryption.cpp:209-209 | accepts exactly a well padded last block, or the right tag |
| Evp.CbcDecryptEncrypt | onionreq/channel_encryption.cpp:221-233 | CBC decryption undoes CBC encryption for every number of blocks |
| Evp.CbcEncryptAppend | onionreq/channel_encryption.cpp:137-151 | encrypting in two calls with the chaining value carried over equals one call |
| Evp.CbcOneShot | onionreq/channel_encryption.cpp:137-151 | complete blocks now and the padded rest later equal one encryption of the padded text |
| Evp.UnpadPad | onionreq/channel_encryption.cpp:209-213 | removing PKCS#7 padding undoes adding it |
| Evp.CtrXorTwice | onionreq/channel_encryption.cpp:235-253 | counter mode undoes itself |
| WireFormats.CbcIsText | onionreq/channel_encryption.cpp:221-226 | block i of a CBC text is the encryption of block i of the plaintext combined with the block in front |
| WireFormats.CbcPlainBlock | onionreq/channel_encryption.cpp:228-233 | block i of a CBC plaintext is the decryption of block i combined with the block in front |
| WireFormats.PadIsPadded | onionreq/channel_encryption.cpp:146-150 | padding is 1 to 16 bytes that give their own number, and only that |
| XEd25519.SignVerify | onionreq/signal-xed25519.cpp:88-142 | a signature verifies under its own X25519 key if and only if the nonce is non-zero and challenge times (k - clamp k) is zero modulo L |
| XEd25519.ClampedKeySignsAndVerifies | onionreq/signal-xed25519.cpp:88-142 | for every clamped key and message: accepted exactly when the nonce is non-zero |
| XEd25519.UnclampedKey | onionreq/signal-xed25519.cpp:104-106 | for a prime L an unclamped key works only with a zero challenge or when congruent to the clamped one |
| XEd25519.ZeroKeyFails | onionreq/signal-xed25519.cpp:96-106 | for all hash functions and messages, signatures by the all-zero key are accepted only with a non-zero nonce and a zero challenge |
| XEd25519.PubkeyRecovered | onionreq/signal-xed25519.cpp:133-142 | converting the X25519 public key gives the key that was hashed when signing |
| XEd25519.PublicPointEncodes | onionreq/signal-xed25519.cpp:94-101 | clearing the sign bit encodes the multiple by the exponent negated along with it |
| XEd25519.ChosenScalar | onionreq/signal-xed25519.cpp:98-106 | for a clamped key the chosen scalar times the base point encodes the hashed key, whose sign bit is zero |
| XEd25519.SignatureParts | onionreq/signal-xed25519.cpp:111-123 | R encodes the nonce, S is reduced and congruent to r + h a |
| XEd25519.AcceptsMultiple | onionreq/signal-xed25519.cpp:126-131 | for any key and R in the subgroup: accepted exactly when R is not neutral and S is congruent to r + h x |
| XEd25519.AcceptsDigest | onionreq/signal-xed25519.cpp:72-131 | acceptance for the key x B and R = r B is S congruent to r + d x for the SHA-512 digest d of R, key and message, with r not zero |
| XEd25519.OtherMessageRefused | onionreq/signal-xed25519.cpp:126-131 | for a prime L, a signature accepted for one message is refused for every other whose digest differs modulo L |
| XEd25519.VerifyBindsMessage | onionreq/signal-xed25519.cpp:126-131 | the same for X25519 keys |
| XEd25519.SignatureDigests | onionreq/signal-xed25519.cpp:51-123 | R comes from the digest of scalar, message and randomness, S from it and the digest of R, key and message |
| XEd25519.FilledDigest | onionreq/signal-xed25519.cpp:118-121 | what fills the buffer: R, and S congruent to r + d a for the digest d of R, key and message |
| XEd25519.ImproperRefused | onionreq/signal-xed25519.cpp:126-131 | a scalar not below L, a key not canonical or no point, and a key or R of small order are refused |
| XEd25519.KeyEquations | onionreq/signal-xed25519.cpp:133-142 | both key conversions solve the equations between u and y, as little-endian numbers |
| XEd25519.KeyTopBitIgnored | onionreq/signal-xed25519.cpp:133-142 | the top bit of an X25519 key does not matter |
| XEd25519.ScalarIsUnique | onionreq/signal-xed25519.cpp:126-131 | for a key, a message and an R at most one S is accepted |
| XEd25519.Sign | onionreq/signal-xed25519.cpp:88-124 | masking A in place, selecting the scalar without a branch and filling the buffer computes the signature |
| XEd25519.FillScalar | onionreq/signal-xed25519.cpp:118-121 | hashing, multiplying and adding inside the second half of the buffer leave r + h a there and R untouched, as FilledDigest spells out |
| XEd25519.ConstantTimeAssign | onionreq/signal-xed25519.cpp:22-32 | the three byte loops leave g in f when b holds and f otherwise, for every length |
| XEd25519.Pubkey | onionreq/signal-xed25519.cpp:133-142 | the converted key, from the two overwritten field elements |
| CurveMaps.EdwardsRoundTrip | onionreq/signal-xed25519.cpp:34-42 | away from y = 1 the map to Montgomery form is undone, and never yields u = -1 |
| CurveMaps.MontgomeryRoundTrip | onionreq/signal-xed25519.cpp:34-42 | away from u = -1 the map to Edwards form is undone, and never yields y = 1 |
| CurveMaps.EdwardsYLaw | onionreq/signal-xed25519.cpp:34-42 | for u other than -1 the computed y solves y (u + 1) = u - 1 |
| CurveEquations.ImageOnEdwards | onionreq/signal-xed25519.cpp:34-42 | over every prime field: for a point of v^2 = u^3 + 486662 u^2 + u with v non-zero and that y, the image with x = sqrt(-486664) u / v satisfies the Edwards equation |
| CurveMaps.ExcludedValues | onionreq/signal-xed25519.cpp:39-41 | with 1/0 = 0 the excluded values map to zero |
| CurveMaps.MontxToEdy | onionreq/signal-xed25519.cpp:34-42 | the map computed through the overwritten denominator |
| Signatures.GenerateCheck | onionreq/signature.cpp:100-182 | under the secret key's own public key, checking accepts if and only if r is not zero and a c is not zero modulo L |
| Signatures.GenerateCheckPrime | onionreq/signature.cpp:100-182 | for a prime L: unless r, c or a is zero modulo L |
| Signatures.CheckGenerated | onionreq/signature.cpp:159-182 | the same under any public key b G: the recovered point is x + c (b - a), which must be proper and hash to c |
| Signatures.GeneratedParts | onionreq/signature.cpp:136-156 | the nonce point is never neutral, both scalars are reduced, r is congruent to x - a c |
| Signatures.AcceptsDigest | onionreq/signature.cpp:159-182 | reduced scalars under the key b G are accepted exactly if r, c b and e do not vanish and c is the hash of prefix hash, key and e G modulo L |
| Signatures.AcceptedDigest | onionreq/signature.cpp:178-181 | in every accepted signature c is the hash of prefix hash, key and r G + c A modulo L |
| Signatures.OtherPrefixRefused | onionreq/signature.cpp:178-181 | a signature accepted for one prefix hash is refused for every other whose digest differs modulo L |
| Signatures.GeneratedDigests | onionreq/signature.cpp:136-156 | the nonce is the clamped hash of hashed secret, key and prefix hash, c the hash of prefix hash, key and nonce point, r is x - a c |
| Signatures.ImproperRefused | onionreq/signature.cpp:168-176 | zero scalars and keys that are not canonical, no point, of small order or outside the subgroup are refused |
| Signatures.LegacyPubkeyMatches | onionreq/key_types.cpp:53-59 | the computed public key belongs to the signing scalar exactly when the secret is below 2^255 |
| Signatures.LegacySignCheck | onionreq/signature.cpp:100-182 | under the computed public key: below 2^255 accepted unless r, c or a is zero modulo L; from there on the recovered point is another one and acceptance needs it to hash to the same challenge |
| Signatures.GenerateSignature | onionreq/signature.cpp:100-157 | the buffer r, used for the key hash, then a c, then x - a c, ends with the signature |
| Signatures.CheckSignature | onionreq/signature.cpp:159-182 | accepts exactly when r G + c A exists, is a proper point and hashes to c |
| Signatures.Concatenate | onionreq/signature.cpp:64-74 | the moving pointer writes all parts one after the other and fills the result |
| Signatures.HashToScalarValue | onionreq/signature.cpp:36-48 | the zero bytes after the hash do not change its value modulo L |
| Signatures.SignatureRoundTrip | onionreq/signature.cpp:184-201 | the base64 text of every signature, padded or not, loads it back |
| Signatures.SignatureText | onionreq/signature.cpp:190-200 | every accepted text holds exactly 64 bytes |
| Signatures.SignatureTexts | onionreq/signature.cpp:184-195 | exactly which texts are accepted, and which error the others give |
| Scalars.Clamp | onionreq/signature.cpp:92-98 | the three in-place masks give the clamped scalar |
| Scalars.ClampedValue | onionreq/signature.cpp:92-98 | every clamped scalar is in [2^254, 2^255), divisible by eight and non-zero modulo L |
| Scalars.ClampedBits | onionreq/signature.cpp:92-98 | clamping clears three low and two high bits, sets bit 254 and keeps all others |
| Scalars.ClampIdempotent | onionreq/signature.cpp:92-98 | clamping twice is clamping once |
| Transports.CallsAgree | onionreq/transport.cpp:15-38 | over every interleaving, two calls that return a connection for one identity return the same one |
| Transports.ResultsAreJustified | onionreq/transport.cpp:24-37 | a returned connection was opened by some call for that identity; a call returns nothing exactly if its own connect failed |
| Transports.LaterCallsReuse | onionreq/transport.cpp:19-23 | once a call has returned a connection, later calls return it without connecting |
| Transports.CallsComplete | onionreq/transport.cpp:18-37 | no call waits for another: its own steps complete it from every state |
| Transports.RaceKeepsTheFirst | onionreq/transport.cpp:30-36 | after a call has stored its connection, in every continuation each call for that identity that stores or looks up returns that connection, also if it opened its own |
| Transports.RunIsLater | onionreq/transport.cpp:32-35 | entries and results never change in any run |
| Transports.Transport.Lookup | onionreq/transport.cpp:18-23 | the first locked section |
| Transports.Transport.Emplace | onionreq/transport.cpp:32-35 | the second locked section: an entry that is there stays and is returned |
| Transports.Transport.ObtainConnectionTo | onionreq/transport.cpp:15-38 | a whole call with nobody in between |
| PathSelections.FewEdges | onionreq/consensus.cpp:28-47 | over every run of stores and selections the edges handed out are those in the set, never more than four different ones |
| PathSelections.PinnedEdge | onionreq/consensus.cpp:39-43 | after four different edges the set is frozen and every later path starts at the same edge |
| PathSelections.RunKeeps | onionreq/consensus.cpp:10-47 | edges only accumulate, paths stay handed out, the bound holds in every reachable state |
| PathSelections.PathsDistinct | onionreq/consensus.cpp:35-42 | every path visits different nodes if and only if there are fewer than four edges or the pinned edge is nowhere in the list but possibly in front |
| PathSelections.RepeatingRolls | onionreq/consensus.cpp:36-42 | for a pinned edge elsewhere in the list, draws that make the path visit it twice |
| PathSelections.RepetitionIsReachable | onionreq/consensus.cpp:28-47 | selections from one stored list can hand out a path that visits a node twice if and only if the list has at least seven nodes |
| PathSelections.OtherHopsDistinct | onionreq/consensus.cpp:35-42 | the hops after the edge are pairwise different nodes of the current list |
| PathSelections.OtherHops | onionreq/consensus.cpp:35-42 | min(4, list size) hops at increasing places of the list, the first one replaced by the pinned edge |
| PathSelections.InsertedNodes | onionreq/consensus.cpp:43-43 | inserting keeps every edge and the distinctness of identities, and grows the set by one exactly for a new identity |
| PathSelections.PathSelection.StoreNodeList | onionreq/consensus.cpp:10-14 | replaces the list and leaves the edges |
| PathSelections.PathSelection.MaybeSelectHopsTo | onionreq/consensus.cpp:28-47 | the path from list, edges and draws, and the edge set after inserting its first hop |
| Randoms.PickRandom | onionreq/random.hpp:37-55 | an error for an empty range, otherwise its first element, whatever is drawn |
| Randoms.Sample | onionreq/random.hpp:42-42 | the selection loop takes the elements at the chosen positions |
| Randoms.ChosenPositions | onionreq/random.hpp:42-42 | exactly min(n, size) positions in increasing order |
| Randoms.ChosenReaches | onionreq/consensus.cpp:36-36 | every such choice of positions is possible for some draws |
| Randoms.SampleAll | onionreq/random.hpp:42-42 | sampling as many elements as there are returns all of them in their order |
| KeyTypes.ParseEncodedKey | onionreq/key_types.cpp:75-93 | for every key its raw, hex (either case), base64 (padded or not) and z-base-32 forms parse to it |
| KeyTypes.AcceptedTexts | onionreq/key_types.cpp:75-93 | exactly which texts are accepted, letter by letter; their bytes fill the key from the front, and all other texts give the null key |
| KeyTypes.HexTextsOfKey | onionreq/key_types.cpp:83-84 | of the texts of 64 characters exactly the hex forms of a non-null key parse to it |
| KeyTypes.AcceptedTextFills | onionreq/key_types.cpp:81-90 | an accepted text fills all 32 bytes if and only if it is not 42 base64 digits completed by "==" |
| KeyTypes.PrintedForms | onionreq/key_types.cpp:75-93 | an accepted text is a printed form of a key exactly if it decodes to all of that key and its left-over bits are clear |
| KeyTypes.PrintedTexts | onionreq/key_types.cpp:75-93 | an accepted text is a form of some key if and only if it fills 32 bytes and its 2 or 4 left-over bits are clear |
| KeyTypes.UnprintedTextsAccepted | onionreq/key_types.cpp:85-88 | two accepted texts that are no form of any key and parse to a key that is not null |
| KeyTypes.ParsePubkey | onionreq/key_types.cpp:75-93 | the key buffer holds the decoded bytes, zeros where the text gives none |
| KeyTypes.LoadFromHex | onionreq/key_types.cpp:15-25 | loads exactly hex of the right length; otherwise the buffer is untouched and the error says not hex or the two lengths |
| KeyTypes.LoadFromBytes | onionreq/key_types.cpp:27-35 | loads exactly bytes of the right length |
| Encodings.HexTexts | onionreq/key_types.cpp:37-41 | the hex texts of a byte string are its printed form up to case and no others |
| Encodings.CanonicalDigits | onionreq/key_types.cpp:83-90 | in every radix, reading bytes from digits loses nothing exactly if the left-over bits are clear |
| Encodings.DigitBits | onionreq/key_types.cpp:83-90 | in every radix, the digits hold the bits of the bytes in order, most significant first, then zeros |
| Encodings.HexAlphabet | onionreq/key_types.cpp:83-84 | the hex letters of RFC 4648 section 8 in both cases, printed in lower case |
| Encodings.Base64Alphabet | onionreq/key_types.cpp:85-88 | the base64 letters of RFC 4648 section 4 |
| Encodings.Base32zAlphabet | onionreq/key_types.cpp:89-90 | the z-base-32 letters in both cases |
| Encodings.Base64Accepted | onionreq/onion_maker.cpp:93-93 | exactly which texts are base64 |
| Encodings.Base64RoundTrip | onionreq/onion_maker.cpp:93-95 | every byte string survives base64, padded or not |
| Encodings.Base32zRoundTrip | onionreq/key_types.cpp:89-90 | every byte string survives z-base-32 in either case |
| JsonTheorems.ParseDump | onionreq/junk.cpp:40-40 | parsing any printed value gives it back: nested arrays and objects in key order, strings in UTF-8 with escapes, numbers as text |
| JsonTheorems.ParseSpaced | onionreq/junk.cpp:40-40 | a value is read back whatever white space surrounds its parts |
| JsonTheorems.ShortEscapes | onionreq/junk.cpp:40-40 | what every letter after a backslash stands for, and which are errors |
| JsonTheorems.UnicodeEscape | onionreq/junk.cpp:40-40 | four hex digits stand for their code point |
| JsonTheorems.SurrogateEscape | onionreq/junk.cpp:40-40 | two surrogates stand for one code point, a lone one is an error |
| JsonTheorems.GrammarIsNumber | onionreq/junk.cpp:40-40 | every text of the number grammar of RFC 8259 section 6 is a number |
| JsonTheorems.NumberIsGrammar | onionreq/junk.cpp:40-40 | every number is a text of that grammar |
| Json.EncodedIsUtf8 | onionreq/junk.cpp:40-40 | the encoding of every code point but the surrogates is one well-formed UTF-8 character |
| Json.CodeOfEncoded | onionreq/junk.cpp:40-40 | that encoding carries the bits of its code point |
| Json.FindPut | onionreq/onion_maker.cpp:63-68 | looking up a member finds what was last put |
| Json.FindMember | onionreq/junk.cpp:47-50 | looking up finds exactly the members that are there |
| Json.PutOrdered | onionreq/onion_maker.cpp:63-68 | members stay in key order whatever order they are put in |

## Left out

- Json.Parse: keeps numbers as text, so a number too large for a double, which the library refuses,
  is accepted; how the library prints numbers is not modelled.
- The control data of a path (onionreq/snode_info.cpp:57-61, onionreq/sogs_info.cpp:5-9) is arbitrary
  bytes.
- The internals of libsodium, OpenSSL, nlohmann and oxenc: no cipher, hash or curve arithmetic is
  proved, and oxenc's sources are not part of this model; their encodings follow sections 4 and 8 of
  RFC 4648. Streaming follows section 6.3 of RFC 5652 and section 6.2 of NIST SP 800-38A.
- ChannelEncryptions.ChannelRoundTrip: a size above 2^31 is taken to be refused by OpenSSL when it
  is negative as an `int` and to be cut otherwise; the limit of 2^38 bytes of XChaCha20 and memory
  exhaustion are not modelled.
- OnionTheorems.OnionRoundTrip: only for aes-gcm and xchacha20, the two types with a maker.
- OnionTheorems.SizeBoundIsExact: is about each hop recovering its own layer; whether an oversized
  onion can still reach the payload by chance depends on the ciphers.
- `XEd25519.Accepts` and `Signatures.PointMul` follow the checks libsodium makes before and after the
  equation: canonical encodings, small order, subgroup membership.
- The primality of 2^255 - 19 and of L is a hypothesis.
- Empty paths and empty node lists, which the program does not handle either, are preconditions.
- Transports.Transport.ObtainConnectionTo: is a call without interleaving; the interleavings are
  those of the step machine, whose steps use the functions the two locked sections are proved
  against. A connect that never answers is a call that takes no further step.
- PathSelections.PathSelection.InsertEdge puts a new edge at a given place; the runs allow any
  order, as rehashing may.
- The quality of randomness, secrecy, unforgeability and timing.
- Networking, node fetching, HTTP, the Python bindings, address formatting and the parsers that are
  not implemented (onionreq/junk.cpp:67-72).
