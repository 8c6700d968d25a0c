# Noise HandshakeState in Dafny

This project models the handshake engine of the C# Noise Protocol Framework
library: the `HandshakeState` object of section 5.3 of the Noise
specification (revision 33). A `HandshakeState` holds four things:

- a `SymmetricState`;
- the local key pairs `s` and `e` and the remote public keys `rs` and `re`;
- the role (initiator or responder);
- the queue of message patterns that are still to be sent or received.

Construction does four things in order:

1. It builds the protocol name `Noise_<pattern>_<dh>_<cipher>_<hash>` and refuses it when longer than 255 characters.
2. It starts the symmetric state from that name.
3. It mixes in the prologue.
4. It mixes in the static keys of the pre-messages.

`WriteMessage` and `ReadMessage` each dequeue one message pattern and walk its tokens in order:

- `E` writes or reads the ephemeral public key, once only.
- `S` encrypts or decrypts the static public key.
- `EE`, `ES`, `SE` and `SS` mix a DH output into the key. The role picks the operands.

After the tokens, the payload is encrypted or decrypted. The handshake splits into a transport when the queue runs dry.

Files:

- `Types.dfy` (module `NoiseTypes`) holds the values:
  - bytes, tokens, patterns, key pairs and errors;
  - the entries of the symmetric transcript;
  - the injected DH and cipher providers;
  - `CopyInto`, the in-place buffer copy.
- `SymmetricState.dfy` (module `Symmetric`) is the symmetric state. It is reduced to what the handshake relies on:
  - a transcript of everything mixed, standing for the hash `h` and the chaining key `ck`;
  - `HasKey`, which becomes true with the first `MixKey`;
  - encryption that passes the plaintext through before a key is installed and adds a 16-byte tag after;
  - `Split`.
- `HandshakeSpec.dfy` (module `HandshakeSpec`) states the handshake as values:
  - the protocol name;
  - the pre-message mixes;
  - one token written or read (`WriteToken`, `ReadToken`);
  - a message's token loop as a left fold (`WriteTokens`, `ReadTokens`);
  - a whole `WriteMessage` or `ReadMessage` call (`WriteMessageSpec`, `ReadMessageSpec`).
- `HandshakeState.dfy` (module `Handshake`) is the class `HandshakeState`:
  - It has the source's fields: `e` and `re`, write-once; `rs`; the queue as a `seq`; `disposed`.
  - Its methods write into caller-supplied `array<byte>` buffers with a moving cursor.
  - Each method is proved to change the object and the buffers exactly as the matching function of `HandshakeSpec` says.
- `NameProperties.dfy`, `TokenProperties.dfy` and `MessageProperties.dfy` prove what the engine promises about the specification functions:
  - the name and the construction order;
  - write-once ephemerals;
  - the DH operands chosen by role;
  - the byte accounting of the cursor;
  - the queue and the transport;
  - a writer-to-reader round trip of a whole message.

Modelling choices:

- **Exceptions become errors.** Each exception the source throws becomes an `Err` of `Error`, and the state is left as the source leaves it at the throw:
  - `WriteE` has already set `e` when the buffer turns out too small.
  - `ReadS` has already replaced `rs` with `DhLen` zero bytes when decryption fails.
  - A `Dequeue` on an empty queue (`InvalidOperationException` in the source) gives `NoMessagePattern`.
- **Construction can fail.** Two constructor failures go through `HandshakeState.Create`, which returns a `Result`:
  - the name is too long;
  - a pre-message `S` token has no key.
- **Capabilities are parameters.** The DH function, the ephemeral key pair that generation yields, and AEAD seal/open are injected. The ephemeral key pair is the fixed key of an injected DH provider. The hash is the symbolic transcript.

## Model

| member | source | states |
|---|---|---|
| `NoiseTypes.CopyInto` | Noise/HandshakeState.cs:124 | the buffer receives the bytes at the cursor and is unchanged everywhere else |
| `Symmetric.Encrypted` | Noise/HandshakeState.cs:132 | the ciphertext is the plaintext itself before a key is installed and 16 bytes longer after; the ciphertext is what is mixed into the hash |
| `Symmetric.Decrypted` | Noise/HandshakeState.cs:209 | the received ciphertext (not the plaintext) is mixed into the hash; the plaintext is the tag shorter once keyed; the only failure is DecryptionFailed |
| `Symmetric.DecryptedUndoesEncrypted` | Noise/HandshakeState.cs:178 | under the same symmetric state, decrypting what was encrypted gives back the plaintext and the same new state |
| `Symmetric.SymmetricState.constructor` | Noise/HandshakeState.cs:46 | the transcript starts from the protocol name, with no key installed |
| `Symmetric.SymmetricState.MixHash` | Noise/HandshakeState.cs:47 | appends one hash entry to the transcript and changes nothing else |
| `Symmetric.SymmetricState.MixKey` | Noise/HandshakeState.cs:138 | appends one key entry and installs a key |
| `Symmetric.SymmetricState.EncryptAndHash` | Noise/HandshakeState.cs:104 | writes the ciphertext at the cursor and mixes it; a buffer too small for it is refused before anything changes |
| `Symmetric.SymmetricState.DecryptAndHash` | Noise/HandshakeState.cs:178 | decrypts into the head of the buffer and mixes the ciphertext; on any failure nothing changes |
| `Symmetric.SymmetricState.Split` | Noise/HandshakeState.cs:109 | the two transport ciphers derive from the final transcript; counts the call |
| `Symmetric.SymmetricState.Dispose` | Noise/HandshakeState.cs:261 | marks the symmetric state disposed |
| `HandshakeSpec.ProtocolName` | Noise/HandshakeState.cs:239-252 | an accepted name starts with "Noise_" and is at most 255 characters; the only refusal is ProtocolNameTooLong |
| `HandshakeSpec.PreMessageMixes` | Noise/HandshakeState.cs:55-69 | one side's pre-message mixes: never more entries than tokens, each a hash of that side's key; a present key never fails, and the only failure is MissingKey |
| `HandshakeSpec.PreMessages` | Noise/HandshakeState.cs:55-69 | both sides' pre-message mixes: with the static key and the remote static key both present it succeeds; the only failure is MissingKey |
| `HandshakeSpec.DhInput` | Noise/HandshakeState.cs:136-232 | the DH output a DH token mixes, for the write helpers (lines 136-154) and the read helpers (lines 214-232) alike: with all four keys present it exists, and the only failure is MissingKey |
| `HandshakeSpec.WritePayload` | Noise/HandshakeState.cs:104-113 | the payload ciphertext follows the token bytes within the buffer, the returned length is the whole message, and the only failure is BufferTooSmall, which keeps the token bytes and the state |
| `HandshakeSpec.ReadPayload` | Noise/HandshakeState.cs:178-187 | the payload fits the payload buffer and its length is returned; the only failures are DecryptionFailed and BufferTooSmall, which leave the state unchanged |
| `HandshakeSpec.WriteToken` | Noise/HandshakeState.cs:116-154 | one token never emits more bytes than the room left in the buffer |
| `HandshakeSpec.WriteTokens` | Noise/HandshakeState.cs:90-102 | a message's tokens together never emit more bytes than the buffer holds |
| `HandshakeSpec.WriteMessageSpec` | Noise/HandshakeState.cs:85-114 | the whole message, tokens and payload, fits the caller's buffer |
| `HandshakeSpec.ReadToken` | Noise/HandshakeState.cs:190-232 | one token never consumes beyond the end of the message |
| `HandshakeSpec.ReadTokens` | Noise/HandshakeState.cs:164-176 | a message's tokens together never consume beyond its end |
| `HandshakeSpec.ReadMessageSpec` | Noise/HandshakeState.cs:160-188 | the payload read fits the caller's payload buffer |
| `HandshakeSpec.WriteTokensStopped` | Noise/HandshakeState.cs:90-102 | once a token fails, the rest of the loop never runs: the whole message's outcome is that of the failing prefix |
| `HandshakeSpec.ReadTokensStopped` | Noise/HandshakeState.cs:164-176 | the same for reading |
| `Handshake.HandshakeState.constructor` | Noise/HandshakeState.cs:42-70 | role, keys and queue as given; e and re unset; the transcript is the name, the prologue, then the pre-message keys |
| `Handshake.HandshakeState.MixPreMessage` | Noise/HandshakeState.cs:55-69 | one side's pre-message loop appends exactly that side's pre-message mixes to the transcript |
| `Handshake.HandshakeState.Create` | Noise/HandshakeState.cs:239-252 | a name longer than 255 is refused with ProtocolNameTooLong, a pre-message S without its key with MissingKey; exactly when neither happens it succeeds, with a fresh, initialized object |
| `Handshake.HandshakeState.WriteE` | Noise/HandshakeState.cs:116-128 | follows WriteToken for E: e, the buffer, the transcript and the cursor change exactly as it says |
| `Handshake.HandshakeState.WriteS` | Noise/HandshakeState.cs:130-134 | follows WriteToken for S: the encrypted static key at the cursor, the cursor moved by its length |
| `Handshake.HandshakeState.MixDh` | Noise/HandshakeState.cs:136-232 | serves both the write helpers (lines 136-154) and the read helpers (lines 214-232): mixes the role-selected DH output into the key, or reports MissingKey and changes nothing |
| `Handshake.HandshakeState.WriteNext` | Noise/HandshakeState.cs:92-101 | the token switch follows WriteToken for every token |
| `Handshake.HandshakeState.WriteTokenAt` | Noise/HandshakeState.cs:90-102 | one pass of the token loop extends the written prefix of the fold by one token |
| `Handshake.HandshakeState.WriteTokensInto` | Noise/HandshakeState.cs:90-102 | the token loop follows WriteTokens: the bytes at the buffer's head, the keys and the transcript, with the rest of the buffer untouched |
| `Handshake.HandshakeState.WritePayloadInto` | Noise/HandshakeState.cs:104-113 | the payload ciphertext follows the token bytes; Split runs exactly when a transport is handed out |
| `Handshake.HandshakeState.WriteMessage` | Noise/HandshakeState.cs:85-114 | the object, the queue and the buffer change exactly as WriteMessageSpec says; Split is called only when the queue is empty |
| `Handshake.HandshakeState.ReadE` | Noise/HandshakeState.cs:190-201 | follows ReadToken for E: re, the transcript and the cursor |
| `Handshake.HandshakeState.ReadS` | Noise/HandshakeState.cs:203-212 | follows ReadToken for S, including rs left as zeros after a failed decryption |
| `Handshake.HandshakeState.ReadNext` | Noise/HandshakeState.cs:166-175 | the token switch follows ReadToken for every token |
| `Handshake.HandshakeState.ReadTokenAt` | Noise/HandshakeState.cs:164-176 | one pass of the token loop extends the read prefix of the fold by one token |
| `Handshake.HandshakeState.ReadTokensFrom` | Noise/HandshakeState.cs:164-176 | the token loop follows ReadTokens: the keys, the transcript and the cursor |
| `Handshake.HandshakeState.ReadPayloadInto` | Noise/HandshakeState.cs:178-187 | the rest of the message is decrypted into the payload buffer; Split runs exactly when a transport is handed out |
| `Handshake.HandshakeState.ReadMessage` | Noise/HandshakeState.cs:160-188 | the object, the queue and the payload buffer change exactly as ReadMessageSpec says |
| `Handshake.HandshakeState.Dispose` | Noise/HandshakeState.cs:257-266 | the releases run once, on the first call only, guarded by disposed |
| `NameProperties.ProtocolNameLength` | Noise/HandshakeState.cs:244-249 | the name is refused exactly when 9 plus the four fields' lengths exceeds 255, and then with ProtocolNameTooLong |
| `NameProperties.ProtocolNameFields` | Noise/HandshakeState.cs:244 | split on underscores, the name gives back "Noise", the pattern, the DH, the cipher and the hash names |
| `NameProperties.PreMessageMixesCount` | Noise/HandshakeState.cs:55-69 | one side's pre-message mixes succeed exactly when it has a key or no S token, and are one hash entry of that key per S token |
| `NameProperties.ConstructedOrder` | Noise/HandshakeState.cs:46-69 | the transcript after construction, in order: name, prologue, the initiator-side keys, then the responder-side keys, with s.PublicKey on the local side and rs on the remote side |
| `NameProperties.PreMessagesAgree` | Noise/HandshakeState.cs:59-67 | an initiator and a responder holding each other's static keys start from the same pre-message transcript |
| `TokenProperties.WriteEFacts` | Noise/HandshakeState.cs:116-128 | E is refused once e is set; otherwise e becomes the generated pair, its public key is emitted and mixed, and a short buffer leaves e set but nothing mixed |
| `TokenProperties.ReadEFacts` | Noise/HandshakeState.cs:190-201 | E is refused once re is set; otherwise re is exactly the next DhLen bytes, the same bytes are mixed, and the cursor moves DhLen |
| `TokenProperties.ReadSFacts` | Noise/HandshakeState.cs:203-212 | S consumes DhLen bytes, plus TagSize once keyed; rs becomes a DhLen-byte value; a failed decryption leaves rs as DhLen zeros |
| `TokenProperties.DhRoles` | Noise/HandshakeState.cs:214-232 | ES for one role is SE for the other, and EE and SS do not depend on the role |
| `TokenProperties.DhTokenFacts` | Noise/HandshakeState.cs:136-154 | a DH token emits and consumes nothing; writing and reading it have the same effect; it fails with MissingKey exactly when an operand is absent |
| `TokenProperties.WriteKeepsEphemeral` | Noise/HandshakeState.cs:118-121 | once e is set no written message changes it, and any E token fails |
| `TokenProperties.WriteSetsEphemeral` | Noise/HandshakeState.cs:123 | e after a message is either unchanged or the generated pair, and it is set once an E token went through |
| `TokenProperties.ReadKeepsRemoteEphemeral` | Noise/HandshakeState.cs:192-195 | once re is set no read message changes it, and any E token fails |
| `TokenProperties.TwoEphemeralsRefused` | Noise/HandshakeState.cs:116-128 | a message with two E tokens can never be written |
| `TokenProperties.WriteTokenAccounting` | Noise/HandshakeState.cs:127 | one written token emits the key length for E, the static key plus a tag once keyed for S, nothing for DH |
| `TokenProperties.ReadTokenAccounting` | Noise/HandshakeState.cs:200-211 | one read token consumes DhLen for E, DhLen plus a tag once keyed for S, nothing for DH |
| `TokenProperties.WriteTokensAccounting` | Noise/HandshakeState.cs:90-102 | the write cursor advances by exactly the independently counted Emitted bytes, and a key is installed exactly after a DH token |
| `TokenProperties.ReadTokensAccounting` | Noise/HandshakeState.cs:164-176 | the read cursor advances by exactly the independently counted Consumed bytes, and a key is installed exactly after a DH token |
| `MessageProperties.WriteMessageQueue` | Noise/HandshakeState.cs:105-111 | each call removes exactly the first pattern; a transport is handed out exactly when the queue is left empty, split from the final state for the writer's role |
| `MessageProperties.ReadMessageQueue` | Noise/HandshakeState.cs:179-185 | the same for ReadMessage |
| `MessageProperties.WriteMessageLength` | Noise/HandshakeState.cs:113 | the returned length is the E and S bytes plus the payload plus a tag once keyed, and the message is the head of the caller's buffer |
| `MessageProperties.ReadMessageLength` | Noise/HandshakeState.cs:178-187 | the message is its tokens' bytes, then the payload plus a tag once keyed |
| `MessageProperties.EphemeralOnlyMessage` | Noise/HandshakeState.cs:85-128 | the pattern "-> e" sends the ephemeral key and the payload in clear, mixes both in that order, and ends the handshake |
| `MessageProperties.DhAgreement` | Noise/HandshakeState.cs:141-149 | a writer and a reader whose keys match compute the same DH input for every DH token |
| `MessageProperties.StaticCoveredCases` | Noise/HandshakeState.cs:141-153 | the writer's static key is covered in every message once the reader knows it, and in every message with no token that uses it |
| `MessageProperties.TokenRoundTrip` | Noise/HandshakeState.cs:92-101 | for one token, the reader succeeds exactly unless the token uses the writer's static key and the reader lacks it, when it fails with MissingKey; on success it consumes the writer's bytes, ends in the same state and learns the writer's static key from S |
| `MessageProperties.TokensRoundTrip` | Noise/HandshakeState.cs:164-176 | over a whole token loop, the reader succeeds exactly when the writer's static key is covered for every token that uses it, otherwise fails with MissingKey; on success it consumes exactly the writer's bytes and ends in the same state |
| `MessageProperties.MessageRoundTrip` | Noise.Tests/HandshakeStateTest.cs:88-105 | the reader of a written message succeeds exactly when the writer's static key is covered, recovering the payload, the transcript, the queue and the transport keys; otherwise it fails only with MissingKey |

## Left out

- Cryptography (Curve25519, AES-GCM, ChaCha20-Poly1305, the hashes) is reached through injected functions:
  - the DH function;
  - a fixed ephemeral key pair standing for `GenerateKeyPair`, which is how a deterministic run swaps in its DH with `SetDh` (Noise/HandshakeState.cs:76-79);
  - AEAD seal and open over the transcript.
  The hash is the symbolic transcript itself.
- The SymmetricState source is not part of this model. It is given only what the handshake relies on, and its nonce is not modelled.
- Transport internals are not modelled beyond `Transport(initiator, c1, c2)`.
- The `functionNames` table keyed on CLR types and the generic parameters (Noise/HandshakeState.cs:19-27, 234-237) are not modelled. The DH, cipher and hash names come from the providers and a parameter.
- The ASCII encoding of the name (Noise/HandshakeState.cs:251) is not modelled. Characters stand for bytes.
- Missing keys are modelled as the error `MissingKey`. In the source, a null `s` or `e` is dereferenced (`NullReferenceException`), while a null `re` or `rs` array converts implicitly to an empty span and reaches the DH function or the hash as an empty key.
- Handshake.HandshakeState.Create: refuses a pre-message `S` token for the remote side when `rs` is absent, with `MissingKey`. The source (Noise/HandshakeState.cs:59, 67) converts the null `rs` to an empty span, mixes an empty key into the hash and constructs the object; the model does not reproduce that empty mix.
- The `default: throw new NotImplementedException()` branches (Noise/HandshakeState.cs:100, 174) cannot be reached: the token type has exactly the six cases.
- `Dispose` does not model the zeroing of `e` and `s` (memory wiping). It keeps only the `disposed` guard and the release count.
- PSK tokens are not modelled, and neither is the test harness's JSON and file I/O.
- The token loops stop at the first failing token. The tail of each message runs in its own method (`WritePayloadInto`, `ReadPayloadInto`). Each pass of a loop is its own method too (`WriteTokenAt`, `ReadTokenAt`).
- MessageProperties.MessageRoundTrip: relies on two assumptions, that the cipher's open undoes its seal (`Inverts`) and that DH agrees for the key pairs in play (`Peers`). Its reader may fail with `MissingKey`, and does so exactly when a DH token uses the writer's static key before the reader knows it (`StaticCovered`). It does not prove that the transcript equals the test vectors' handshake hash, because the hash is symbolic.
- NameProperties.ProtocolNameFields: gives back the four fields only when none of them contains an underscore.
