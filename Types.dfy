/** Values shared by the handshake engine: bytes, results, tokens and patterns,
    key pairs, the transcript entries of the symmetric state, and the injected
    DH and cipher providers. */
module NoiseTypes {

  newtype byte = b: int | 0 <= b < 256

  /** Length of the AEAD authentication tag. */
  const TagSize: nat := 16

  /** Longest protocol name the engine accepts. */
  const MaxProtocolNameLength: nat := 255

  datatype Option<+T> = None | Some(value: T)

  /** The failures the handshake engine can raise. */
  datatype Error =
    | ProtocolNameTooLong        // the protocol name exceeds MaxProtocolNameLength
    | MissingKey                 // a token needs a key the handshake does not hold
    | EphemeralAlreadySet        // a second E token on the writing side
    | RemoteEphemeralAlreadySet  // a second E token on the reading side
    | MessageTooShort            // the message ends before a token's bytes
    | BufferTooSmall             // an output buffer cannot hold what is written into it
    | DecryptionFailed           // the AEAD tag did not verify
    | NoMessagePattern           // the pattern queue is already exhausted

  datatype Result<+T> = Ok(value: T) | Err(error: Error)

  datatype Token = E | S | EE | ES | SE | SS {
    predicate IsDh() { EE? || ES? || SE? || SS? }
  }

  datatype MessagePattern = MessagePattern(tokens: seq<Token>)

  /** A handshake pattern: its name, the two pre-message token lists and the
      message patterns in the order they are sent. */
  datatype HandshakePattern = HandshakePattern(
    name: string,
    initiator: MessagePattern,
    responder: MessagePattern,
    patterns: seq<MessagePattern>)

  datatype KeyPair = KeyPair(privateKey: seq<byte>, publicKey: seq<byte>)

  /** One entry of the symmetric state's transcript: what was mixed, in order.
      The running hash h and the chaining key ck are functions of this record. */
  datatype Mix =
    | Init(protocolName: string)
    | MixedHash(data: seq<byte>)
    | MixedKey(inputKeyMaterial: seq<byte>)

  /** AEAD encryption under the key, nonce and associated data determined by
      the transcript; the ciphertext carries a TagSize-byte tag. */
  type Sealer = f: (seq<Mix>, seq<byte>) -> seq<byte>
    | forall t: seq<Mix>, p: seq<byte> :: |f(t, p)| == |p| + TagSize
    witness (t: seq<Mix>, p: seq<byte>) => p + Zeros(TagSize)

  /** AEAD decryption: None when the tag does not verify, otherwise the
      plaintext, TagSize bytes shorter than the ciphertext. */
  type Opener = f: (seq<Mix>, seq<byte>) -> Option<seq<byte>>
    | forall t: seq<Mix>, c: seq<byte> :: f(t, c).Some? ==> |f(t, c).value| + TagSize == |c|
    witness (t: seq<Mix>, c: seq<byte>) => None

  /** The DH capability. GenerateKeyPair always yields `ephemeral`, the
      fixed-key provider a deterministic run injects; a handshake generates at
      most one ephemeral key, so this is all the engine can observe. */
  datatype DhProvider = DhProvider(
    name: string,
    dhLen: nat,
    dh: (seq<byte>, seq<byte>) -> seq<byte>,
    ephemeral: KeyPair)

  datatype CipherProvider = CipherProvider(name: string, seal: Sealer, open: Opener)

  /** A transport cipher derived by Split from the final transcript. */
  datatype CipherState = CipherState(derivedFrom: seq<Mix>, first: bool)

  datatype Transport = Transport(initiator: bool, c1: CipherState, c2: CipherState)

  function Zeros(n: nat): (z: seq<byte>)
    ensures |z| == n && forall i :: 0 <= i < n ==> z[i] == 0
  {
    seq(n, _ => 0 as byte)
  }

  /** `before` with the bytes of `src` laid over it from `offset` on. */
  function Spliced(before: seq<byte>, offset: nat, src: seq<byte>): seq<byte>
    requires offset + |src| <= |before|
  {
    before[..offset] + src + before[offset + |src|..]
  }

  /** Laying `src` over a buffer at `offset` extends its written head by
      `src` and leaves the tail beyond it as it was. */
  lemma SplicedParts(before: seq<byte>, offset: nat, src: seq<byte>, original: seq<byte>)
    requires offset + |src| <= |before| == |original|
    requires before[offset..] == original[offset..]
    ensures |Spliced(before, offset, src)| == |before|
    ensures Spliced(before, offset, src)[..offset + |src|] == before[..offset] + src
    ensures Spliced(before, offset, src)[offset + |src|..] == original[offset + |src|..]
  {
    var after := Spliced(before, offset, src);
    assert after[offset + |src|..] == before[offset + |src|..];
    assert before[offset + |src|..] == before[offset..][|src|..];
    assert original[offset + |src|..] == original[offset..][|src|..];
  }

  /** Copies `src` into `dst` from `offset` on, as Span.CopyTo does. */
  method CopyInto(src: seq<byte>, dst: array<byte>, offset: nat)
    requires offset + |src| <= dst.Length
    modifies dst
    ensures dst[..] == Spliced(old(dst[..]), offset, src)
  {
    var i := 0;
    while i < |src|
      invariant 0 <= i <= |src|
      invariant dst[..] == old(dst[..])[..offset] + src[..i] + old(dst[..])[offset + i..]
    {
      dst[offset + i] := src[i];
      i := i + 1;
      assert src[..i] == src[..i - 1] + [src[i - 1]];
    }
    assert src[..i] == src;
  }
}
