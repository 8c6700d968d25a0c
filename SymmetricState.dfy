/** The SymmetricState collaborator, abstracted to what the handshake engine
    relies on: a transcript of everything mixed so far (standing for h and ck),
    whether a cipher key is installed, encryption that is the identity before
    the first MixKey and adds a TagSize-byte tag after it, and a Split that
    derives the two transport ciphers from the final transcript. */
module Symmetric {
  import opened NoiseTypes

  /** The value of a symmetric state. */
  datatype Sym = Sym(transcript: seq<Mix>, hasKey: bool)

  function Hashed(st: Sym, data: seq<byte>): Sym {
    Sym(st.transcript + [MixedHash(data)], st.hasKey)
  }

  function Keyed(st: Sym, inputKeyMaterial: seq<byte>): Sym {
    Sym(st.transcript + [MixedKey(inputKeyMaterial)], true)
  }

  /** EncryptAndHash: encrypt (pass-through without a key), then mix the
      ciphertext into the transcript. */
  function Encrypted(c: CipherProvider, st: Sym, plaintext: seq<byte>): (r: (Sym, seq<byte>))
    ensures |r.1| == |plaintext| + (if st.hasKey then TagSize else 0)
    ensures !st.hasKey ==> r.1 == plaintext
    ensures r.0 == Hashed(st, r.1)
  {
    var ciphertext := if st.hasKey then c.seal(st.transcript, plaintext) else plaintext;
    (Hashed(st, ciphertext), ciphertext)
  }

  /** DecryptAndHash: decrypt (pass-through without a key), then mix the
      received ciphertext, not the plaintext, into the transcript. */
  function Decrypted(c: CipherProvider, st: Sym, ciphertext: seq<byte>): (r: Result<(Sym, seq<byte>)>)
    ensures r.Ok? ==> r.value.0 == Hashed(st, ciphertext)
    ensures r.Ok? ==> |r.value.1| + (if st.hasKey then TagSize else 0) == |ciphertext|
    ensures !st.hasKey ==> r == Ok((Hashed(st, ciphertext), ciphertext))
    ensures r.Err? ==> r.error == DecryptionFailed
  {
    if !st.hasKey then Ok((Hashed(st, ciphertext), ciphertext))
    else match c.open(st.transcript, ciphertext)
      case None => Err(DecryptionFailed)
      case Some(plaintext) => Ok((Hashed(st, ciphertext), plaintext))
  }

  /** The two transport ciphers derived from the final transcript. */
  function SplitKeys(st: Sym): (CipherState, CipherState) {
    (CipherState(st.transcript, true), CipherState(st.transcript, false))
  }

  /** The cipher's open undoes its seal under the same transcript. */
  ghost predicate Inverts(c: CipherProvider) {
    forall t: seq<Mix>, p: seq<byte> :: c.open(t, c.seal(t, p)) == Some(p)
  }

  /** Both sides of a handshake that hold the same symmetric state: what one
      encrypts the other decrypts to the same plaintext and the same new state. */
  lemma DecryptedUndoesEncrypted(c: CipherProvider, st: Sym, plaintext: seq<byte>)
    requires Inverts(c)
    ensures Decrypted(c, st, Encrypted(c, st, plaintext).1) == Ok((Encrypted(c, st, plaintext).0, plaintext))
  {
    if st.hasKey {
      assert c.open(st.transcript, c.seal(st.transcript, plaintext)) == Some(plaintext);
    }
  }

  class SymmetricState {
    const cipher: CipherProvider
    var transcript: seq<Mix>
    var hasKey: bool
    var disposed: bool
    /** How many times Split has been called. */
    ghost var splits: nat

    function View(): Sym
      reads this
    {
      Sym(transcript, hasKey)
    }

    /** InitializeSymmetric: the transcript starts from the protocol name and
        no key is installed. */
    constructor (cipher: CipherProvider, protocolName: string)
      ensures this.cipher == cipher
      ensures View() == Sym([Init(protocolName)], false)
      ensures !disposed && splits == 0
    {
      this.cipher := cipher;
      transcript := [Init(protocolName)];
      hasKey := false;
      disposed := false;
      splits := 0;
    }

    predicate HasKey()
      reads this
    {
      hasKey
    }

    method MixHash(data: seq<byte>)
      modifies this`transcript
      ensures View() == Hashed(old(View()), data)
    {
      transcript := transcript + [MixedHash(data)];
    }

    method MixKey(inputKeyMaterial: seq<byte>)
      modifies this`transcript, this`hasKey
      ensures View() == Keyed(old(View()), inputKeyMaterial)
    {
      transcript := transcript + [MixedKey(inputKeyMaterial)];
      hasKey := true;
    }

    /** Encrypts `plaintext` into `buffer` from `offset` on and returns the
        ciphertext; a buffer too small for it is refused before anything changes. */
    method EncryptAndHash(plaintext: seq<byte>, buffer: array<byte>, offset: nat) returns (r: Result<seq<byte>>)
      requires offset <= buffer.Length
      modifies this`transcript, buffer
      ensures var (st, ciphertext) := Encrypted(cipher, old(View()), plaintext);
        if offset + |ciphertext| <= buffer.Length then
          r == Ok(ciphertext) && View() == st && buffer[..] == Spliced(old(buffer[..]), offset, ciphertext)
        else
          r == Err(BufferTooSmall) && View() == old(View()) && buffer[..] == old(buffer[..])
    {
      var (st, ciphertext) := Encrypted(cipher, View(), plaintext);
      if offset + |ciphertext| > buffer.Length {
        return Err(BufferTooSmall);
      }
      CopyInto(ciphertext, buffer, offset);
      transcript := st.transcript;
      r := Ok(ciphertext);
    }

    /** Decrypts `ciphertext` into the head of `buffer` and returns the
        plaintext; on a failure nothing changes. */
    method DecryptAndHash(ciphertext: seq<byte>, buffer: array<byte>) returns (r: Result<seq<byte>>)
      modifies this`transcript, buffer
      ensures match Decrypted(cipher, old(View()), ciphertext)
        case Err(x) =>
          r == Err(x) && View() == old(View()) && buffer[..] == old(buffer[..])
        case Ok((st, plaintext)) =>
          if |plaintext| <= buffer.Length then
            r == Ok(plaintext) && View() == st && buffer[..] == Spliced(old(buffer[..]), 0, plaintext)
          else
            r == Err(BufferTooSmall) && View() == old(View()) && buffer[..] == old(buffer[..])
    {
      var d := Decrypted(cipher, View(), ciphertext);
      if d.Err? {
        return Err(d.error);
      }
      var (st, plaintext) := d.value;
      if |plaintext| > buffer.Length {
        return Err(BufferTooSmall);
      }
      CopyInto(plaintext, buffer, 0);
      transcript := st.transcript;
      r := Ok(plaintext);
    }

    method Split() returns (c1: CipherState, c2: CipherState)
      modifies this`splits
      ensures (c1, c2) == SplitKeys(View())
      ensures splits == old(splits) + 1
    {
      c1, c2 := CipherState(transcript, true), CipherState(transcript, false);
      splits := splits + 1;
    }

    method Dispose()
      modifies this`disposed
      ensures disposed
    {
      disposed := true;
    }
  }
}
