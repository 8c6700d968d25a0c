/** The HandshakeState object of the Noise Protocol Framework (section 5.3 of
    the Noise specification, revision 33): a SymmetricState, the local and
    remote keys, the role, and the queue of message patterns still to go.
    Every method is proved to change the object exactly as the matching
    function of HandshakeSpec says. */
module Handshake {
  import opened NoiseTypes
  import opened Symmetric
  import opened HandshakeSpec

  class HandshakeState {
    const dh: DhProvider
    const state: SymmetricState
    const initiator: bool
    var messagePatterns: seq<MessagePattern>
    var e: Option<KeyPair>
    const s: Option<KeyPair>
    var re: Option<seq<byte>>
    var rs: Option<seq<byte>>
    var disposed: bool
    /** How many times Dispose has released the object's resources. */
    ghost var releases: nat

    /** What the handshake never changes. */
    function Configuration(): Config {
      Config(initiator, s, dh, state.cipher)
    }

    /** The keys and the symmetric state, the part each token changes. */
    function Current(): Party
      reads this, state
    {
      Party(Keys(e, re, rs), state.View())
    }

    /** The state right after construction. */
    ghost predicate Initialized(hp: HandshakePattern, initiator: bool, prologue: seq<byte>, s: Option<KeyPair>,
                                rs: Option<seq<byte>>, dh: DhProvider, cipher: CipherProvider, hashName: string)
      reads this, state
      requires ProtocolName(hp.name, dh.name, cipher.name, hashName).Ok?
      requires PreMessages(hp, initiator, s, rs).Ok?
    {
      && this.initiator == initiator && this.s == s && this.dh == dh && state.cipher == cipher
      && messagePatterns == hp.patterns
      && e == None && re == None && this.rs == rs
      && state.View() == Sym(Constructed(ProtocolName(hp.name, dh.name, cipher.name, hashName).value, prologue,
                                         PreMessages(hp, initiator, s, rs).value), false)
      && !disposed && !state.disposed && state.splits == 0 && releases == 0
    }

    /** Construction for a name that fits and the pre-message keys that are
        present: the transcript holds the protocol name, the prologue, then
        the initiator's pre-message keys, then the responder's. */
    constructor (hp: HandshakePattern, initiator: bool, prologue: seq<byte>, s: Option<KeyPair>,
                 rs: Option<seq<byte>>, dh: DhProvider, cipher: CipherProvider, hashName: string)
      requires ProtocolName(hp.name, dh.name, cipher.name, hashName).Ok?
      requires PreMessages(hp, initiator, s, rs).Ok?
      ensures fresh(state)
      ensures Initialized(hp, initiator, prologue, s, rs, dh, cipher, hashName)
    {
      var protocolName := ProtocolName(hp.name, dh.name, cipher.name, hashName).value;
      state := new SymmetricState(cipher, protocolName);
      this.dh := dh;
      this.initiator := initiator;
      messagePatterns := hp.patterns;
      this.s := s;
      this.rs := rs;
      e, re := None, None;
      disposed := false;
      releases := 0;
      new;
      state.MixHash(prologue);
      ghost var start := Constructed(protocolName, prologue, []);
      assert state.transcript == start;

      MixPreMessage(state, hp.initiator.tokens, PreMessageKey(initiator, s, rs, true));
      MixPreMessage(state, hp.responder.tokens, PreMessageKey(initiator, s, rs, false));
    }

    /** One side's pre-message tokens: each S token mixes that side's static
        public key into the hash; `key` is s.PublicKey on our own side and rs
        on the peer's. */
    static method MixPreMessage(state: SymmetricState, tokens: seq<Token>, key: Option<seq<byte>>)
      requires PreMessageMixes(tokens, key).Ok?
      modifies state`transcript
      ensures state.View() == Sym(old(state.transcript) + PreMessageMixes(tokens, key).value, old(state.hasKey))
    {
      for i := 0 to |tokens|
        invariant PreMessageMixes(tokens[..i], key).Ok?
        invariant state.View() == Sym(old(state.transcript) + PreMessageMixes(tokens[..i], key).value, old(state.hasKey))
      {
        assert tokens[..i + 1][..i] == tokens[..i];
        PreMessagePrefixOk(tokens, key, i + 1);
        if tokens[i] == S {
          state.MixHash(key.value);
        }
      }
      assert tokens[..|tokens|] == tokens;
    }

    /** Construction with its failures: a protocol name that is too long, or
        a pre-message S token whose key the caller did not supply. */
    static method Create(hp: HandshakePattern, initiator: bool, prologue: seq<byte>, s: Option<KeyPair>,
                         rs: Option<seq<byte>>, dh: DhProvider, cipher: CipherProvider, hashName: string)
      returns (r: Result<HandshakeState>)
      ensures ProtocolName(hp.name, dh.name, cipher.name, hashName).Err? ==> r == Err(ProtocolNameTooLong)
      ensures ProtocolName(hp.name, dh.name, cipher.name, hashName).Ok? && PreMessages(hp, initiator, s, rs).Err?
              ==> r == Err(MissingKey)
      ensures ProtocolName(hp.name, dh.name, cipher.name, hashName).Ok? && PreMessages(hp, initiator, s, rs).Ok?
              ==> r.Ok?
      ensures r.Ok? ==> && ProtocolName(hp.name, dh.name, cipher.name, hashName).Ok?
                        && PreMessages(hp, initiator, s, rs).Ok?
                        && fresh(r.value) && fresh(r.value.state)
                        && r.value.Initialized(hp, initiator, prologue, s, rs, dh, cipher, hashName)
    {
      if ProtocolName(hp.name, dh.name, cipher.name, hashName).Err? {
        return Err(ProtocolNameTooLong);
      }
      if PreMessages(hp, initiator, s, rs).Err? {
        return Err(MissingKey);
      }
      var h := new HandshakeState(hp, initiator, prologue, s, rs, dh, cipher, hashName);
      r := Ok(h);
    }

    // ------------------------------------------------------------ writing

    /** The E token: generate the ephemeral key once, copy its public key to
        the cursor and mix it into the hash. */
    method WriteE(buffer: array<byte>, offset: nat) returns (next: nat, err: Option<Error>)
      requires offset <= buffer.Length
      modifies this`e, state`transcript, buffer
      ensures var st := WriteToken(Configuration(), old(Current()), E, buffer.Length - offset);
        && Current() == st.party && err == st.error && next == offset + |st.bytes|
        && buffer[..] == Spliced(old(buffer[..]), offset, st.bytes)
    {
      if e.Some? {
        return offset, Some(EphemeralAlreadySet);
      }
      e := Some(dh.ephemeral);
      var publicKey := e.value.publicKey;
      if offset + |publicKey| > buffer.Length {
        return offset, Some(BufferTooSmall);
      }
      CopyInto(publicKey, buffer, offset);
      state.MixHash(publicKey);
      return offset + |publicKey|, None;
    }

    /** The S token: encrypt the local static public key to the cursor. */
    method WriteS(buffer: array<byte>, offset: nat) returns (next: nat, err: Option<Error>)
      requires offset <= buffer.Length
      modifies state`transcript, buffer
      ensures var st := WriteToken(Configuration(), old(Current()), S, buffer.Length - offset);
        && Current() == st.party && err == st.error && next == offset + |st.bytes|
        && buffer[..] == Spliced(old(buffer[..]), offset, st.bytes)
    {
      if s.None? {
        return offset, Some(MissingKey);
      }
      var ciphertext := state.EncryptAndHash(s.value.publicKey, buffer, offset);
      if ciphertext.Err? {
        return offset, Some(ciphertext.error);
      }
      return offset + |ciphertext.value|, None;
    }

    /** The EE, ES, SE and SS tokens, on either side: mix the DH of the
        operand pair the role selects into the key. */
    method MixDh(t: Token) returns (err: Option<Error>)
      requires t.IsDh()
      modifies state`transcript, state`hasKey
      ensures match DhInput(Configuration(), old(Current()).keys, t)
        case Err(x) => err == Some(x) && Current() == old(Current())
        case Ok(_) => err == None && Current() == MixDhStep(Configuration(), old(Current()), t)
    {
      var local: Option<KeyPair>, remote: Option<seq<byte>>;
      match t {
        case EE => local, remote := e, re;
        case ES => if initiator { local, remote := e, rs; } else { local, remote := s, re; }
        case SE => if initiator { local, remote := s, re; } else { local, remote := e, rs; }
        case SS => local, remote := s, rs;
      }
      if local.None? || remote.None? {
        return Some(MissingKey);
      }
      state.MixKey(dh.dh(local.value.privateKey, remote.value));
      return None;
    }

    /** One token of WriteMessage's loop, at cursor `offset`. */
    method WriteNext(t: Token, buffer: array<byte>, offset: nat) returns (next: nat, err: Option<Error>)
      requires offset <= buffer.Length
      modifies this`e, state`transcript, state`hasKey, buffer
      ensures var st := WriteToken(Configuration(), old(Current()), t, buffer.Length - offset);
        && Current() == st.party && err == st.error && next == offset + |st.bytes|
        && buffer[..] == Spliced(old(buffer[..]), offset, st.bytes)
    {
      match t {
        case E => next, err := WriteE(buffer, offset);
        case S => next, err := WriteS(buffer, offset);
        case _ => next := offset; err := MixDh(t);
      }
    }

    /** WriteNext as a step of the token loop: after the error-free prefix
        `tokens[..i]`, writing `tokens[i]` extends the prefix by one. */
    method WriteTokenAt(ghost p0: Party, ghost b0: seq<byte>, tokens: seq<Token>, i: nat, buffer: array<byte>, offset: nat)
      returns (next: nat, err: Option<Error>)
      requires i < |tokens| && offset <= buffer.Length == |b0|
      requires WriteTokens(Configuration(), p0, tokens[..i], buffer.Length) == Step(Current(), buffer[..offset], None)
      requires buffer[offset..] == b0[offset..]
      modifies this`e, state`transcript, state`hasKey, buffer
      ensures next <= buffer.Length
      ensures WriteTokens(Configuration(), p0, tokens[..i + 1], buffer.Length) == Step(Current(), buffer[..next], err)
      ensures buffer[next..] == b0[next..]
    {
      ghost var c, before := Configuration(), buffer[..];
      ghost var st := WriteToken(c, Current(), tokens[i], buffer.Length - offset);
      WriteTokensNext(c, p0, tokens, i, buffer.Length);
      assert WriteTokens(c, p0, tokens[..i + 1], buffer.Length) == Step(st.party, before[..offset] + st.bytes, st.error);
      next, err := WriteNext(tokens[i], buffer, offset);
      SplicedParts(before, offset, st.bytes, b0);
      assert buffer[..next] == before[..offset] + st.bytes;
    }

    /** Writes the next message pattern's tokens and the encrypted payload
        into `messageBuffer`; the message is the head of the buffer. */
    method WriteMessage(payload: seq<byte>, messageBuffer: array<byte>) returns (r: Result<MessageResult>)
      modifies this`messagePatterns, this`e, state`transcript, state`hasKey, state`splits, messageBuffer
      ensures var o := WriteMessageSpec(Configuration(), old(Current()), old(messagePatterns), payload, messageBuffer.Length);
        && Current() == o.party && messagePatterns == o.patterns && r == o.result
        && messageBuffer[..] == Spliced(old(messageBuffer[..]), 0, o.bytes)
      ensures state.splits == old(state.splits) + (if r.Ok? && r.value.transport.Some? then 1 else 0)
    {
      if messagePatterns == [] {
        return Err(NoMessagePattern);
      }
      var next := messagePatterns[0];
      messagePatterns := messagePatterns[1..];
      var offset, err := WriteTokensInto(next.tokens, messageBuffer);
      if err.Some? {
        return Err(err.value);
      }
      r := WritePayloadInto(payload, messageBuffer, offset);
    }

    /** The token loop of WriteMessage: each token's bytes written after the
        previous ones from the head of `buffer`, stopping at the first error. */
    method WriteTokensInto(tokens: seq<Token>, buffer: array<byte>) returns (offset: nat, err: Option<Error>)
      modifies this`e, state`transcript, state`hasKey, buffer
      ensures offset <= buffer.Length
      ensures WriteTokens(Configuration(), old(Current()), tokens, buffer.Length) == Step(Current(), buffer[..offset], err)
      ensures buffer[..] == Spliced(old(buffer[..]), 0, buffer[..offset])
    {
      ghost var c, p0, b0, room := Configuration(), Current(), buffer[..], buffer.Length;
      offset, err := 0, None;
      var i := 0;
      while i < |tokens| && err.None?
        invariant 0 <= i <= |tokens| && offset <= room
        invariant WriteTokens(c, p0, tokens[..i], room) == Step(Current(), buffer[..offset], err)
        invariant buffer[offset..] == b0[offset..]
      {
        offset, err := WriteTokenAt(p0, b0, tokens, i, buffer, offset);
        i := i + 1;
      }
      if err.Some? {
        WriteTokensStopped(c, p0, tokens, i, room);
      } else {
        assert tokens[..i] == tokens;
      }
      assert buffer[..] == buffer[..offset] + b0[offset..];
    }

    /** The tail of WriteMessage: encrypt the payload after the token bytes
        at the head of `buffer`, and split once the queue is exhausted. */
    method WritePayloadInto(payload: seq<byte>, buffer: array<byte>, offset: nat) returns (r: Result<MessageResult>)
      requires offset <= buffer.Length
      modifies state`transcript, state`splits, buffer
      ensures var o := WritePayload(Configuration(), old(Current()), messagePatterns, old(buffer[..offset]), payload, buffer.Length);
        && Current() == o.party && r == o.result
        && buffer[..] == Spliced(old(buffer[..]), 0, o.bytes)
      ensures state.splits == old(state.splits) + (if r.Ok? && r.value.transport.Some? then 1 else 0)
    {
      ghost var written := buffer[..offset];
      ghost var sealed := Encrypted(state.cipher, state.View(), payload);
      var ciphertext := state.EncryptAndHash(payload, buffer, offset);
      if ciphertext.Err? {
        return Err(ciphertext.error);
      }
      assert buffer[..] == Spliced(old(buffer[..]), 0, written + sealed.1);
      var transport: Option<Transport> := None;
      if messagePatterns == [] {
        var c1, c2 := state.Split();
        transport := Some(Transport(initiator, c1, c2));
      }
      r := Ok(MessageResult(offset + |ciphertext.value|, transport));
    }

    // ------------------------------------------------------------ reading

    /** The E token: take the next DhLen bytes as the remote ephemeral key,
        once only, and mix them into the hash. */
    method ReadE(message: seq<byte>, pos: nat) returns (next: nat, err: Option<Error>)
      requires pos <= |message|
      modifies this`re, state`transcript
      ensures var st := ReadToken(Configuration(), old(Current()), E, message, pos);
        Current() == st.party && err == st.error && next == pos + st.consumed
    {
      if re.Some? {
        return pos, Some(RemoteEphemeralAlreadySet);
      }
      if |message| - pos < dh.dhLen {
        return pos, Some(MessageTooShort);
      }
      re := Some(message[pos..pos + dh.dhLen]);
      state.MixHash(re.value);
      return pos + |re.value|, None;
    }

    /** The S token: decrypt the next DhLen bytes, plus a tag once a key is
        installed, into the remote static key. */
    method ReadS(message: seq<byte>, pos: nat) returns (next: nat, err: Option<Error>)
      requires pos <= |message|
      modifies this`rs, state`transcript
      ensures var st := ReadToken(Configuration(), old(Current()), S, message, pos);
        Current() == st.party && err == st.error && next == pos + st.consumed
    {
      var length := if state.HasKey() then dh.dhLen + TagSize else dh.dhLen;
      if |message| - pos < length {
        return pos, Some(MessageTooShort);
      }
      var temp := message[pos..pos + length];
      // rs is the fresh DhLen-byte array DecryptAndHash fills, so it stays
      // all zeros when decryption fails.
      var buffer := new byte[dh.dhLen](_ => 0);
      assert buffer[..] == Zeros(dh.dhLen);
      var plaintext := state.DecryptAndHash(temp, buffer);
      rs := Some(buffer[..]);
      if plaintext.Err? {
        return pos, Some(plaintext.error);
      }
      assert buffer[..] == plaintext.value;
      return pos + length, None;
    }

    /** Reads the next message pattern's tokens from `message` and decrypts
        the rest of it into `payloadBuffer`; the payload is the head of the buffer. */
    method ReadMessage(message: seq<byte>, payloadBuffer: array<byte>) returns (r: Result<MessageResult>)
      modifies this`messagePatterns, this`re, this`rs, state`transcript, state`hasKey, state`splits, payloadBuffer
      ensures var o := ReadMessageSpec(Configuration(), old(Current()), old(messagePatterns), message, payloadBuffer.Length);
        && Current() == o.party && messagePatterns == o.patterns && r == o.result
        && payloadBuffer[..] == Spliced(old(payloadBuffer[..]), 0, o.bytes)
      ensures state.splits == old(state.splits) + (if r.Ok? && r.value.transport.Some? then 1 else 0)
    {
      if messagePatterns == [] {
        return Err(NoMessagePattern);
      }
      var next := messagePatterns[0];
      messagePatterns := messagePatterns[1..];
      var pos, err := ReadTokensFrom(next.tokens, message);
      if err.Some? {
        return Err(err.value);
      }
      r := ReadPayloadInto(message, pos, payloadBuffer);
    }

    /** One token of ReadMessage's loop, at cursor `pos`. */
    method ReadNext(t: Token, message: seq<byte>, pos: nat) returns (next: nat, err: Option<Error>)
      requires pos <= |message|
      modifies this`re, this`rs, state`transcript, state`hasKey
      ensures var st := ReadToken(Configuration(), old(Current()), t, message, pos);
        Current() == st.party && err == st.error && next == pos + st.consumed
    {
      match t {
        case E => next, err := ReadE(message, pos);
        case S => next, err := ReadS(message, pos);
        case _ => next := pos; err := MixDh(t);
      }
    }

    /** ReadNext as a step of the token loop: after the error-free prefix
        `tokens[..i]`, reading `tokens[i]` extends the prefix by one. */
    method ReadTokenAt(ghost p0: Party, tokens: seq<Token>, i: nat, message: seq<byte>, pos: nat)
      returns (next: nat, err: Option<Error>)
      requires i < |tokens| && pos <= |message|
      requires ReadTokens(Configuration(), p0, tokens[..i], message) == ReadStep(Current(), pos, None)
      modifies this`re, this`rs, state`transcript, state`hasKey
      ensures next <= |message|
      ensures ReadTokens(Configuration(), p0, tokens[..i + 1], message) == ReadStep(Current(), next, err)
    {
      ReadTokensNext(Configuration(), p0, tokens, i, message);
      next, err := ReadNext(tokens[i], message, pos);
    }

    /** The token loop of ReadMessage: each token's bytes taken after the
        previous ones from the head of `message`, stopping at the first error. */
    method ReadTokensFrom(tokens: seq<Token>, message: seq<byte>) returns (pos: nat, err: Option<Error>)
      modifies this`re, this`rs, state`transcript, state`hasKey
      ensures pos <= |message|
      ensures ReadTokens(Configuration(), old(Current()), tokens, message) == ReadStep(Current(), pos, err)
    {
      ghost var p0 := Current();
      pos, err := 0, None;
      var i := 0;
      while i < |tokens| && err.None?
        invariant 0 <= i <= |tokens| && pos <= |message|
        invariant ReadTokens(Configuration(), p0, tokens[..i], message) == ReadStep(Current(), pos, err)
      {
        pos, err := ReadTokenAt(p0, tokens, i, message, pos);
        i := i + 1;
      }
      if err.Some? {
        ReadTokensStopped(Configuration(), p0, tokens, i, message);
      } else {
        assert tokens[..i] == tokens;
      }
    }

    /** The tail of ReadMessage: decrypt the message after its first `pos`
        bytes into `payloadBuffer`, and split once the queue is exhausted. */
    method ReadPayloadInto(message: seq<byte>, pos: nat, payloadBuffer: array<byte>) returns (r: Result<MessageResult>)
      requires pos <= |message|
      modifies state`transcript, state`splits, payloadBuffer
      ensures var o := ReadPayload(Configuration(), old(Current()), messagePatterns, message, pos, payloadBuffer.Length);
        && Current() == o.party && r == o.result
        && payloadBuffer[..] == Spliced(old(payloadBuffer[..]), 0, o.bytes)
      ensures state.splits == old(state.splits) + (if r.Ok? && r.value.transport.Some? then 1 else 0)
    {
      var payload := state.DecryptAndHash(message[pos..], payloadBuffer);
      if payload.Err? {
        return Err(payload.error);
      }
      var transport: Option<Transport> := None;
      if messagePatterns == [] {
        var c1, c2 := state.Split();
        transport := Some(Transport(initiator, c1, c2));
      }
      r := Ok(MessageResult(|payload.value|, transport));
    }

    // ------------------------------------------------------------ disposal

    /** Releases the symmetric state and the key pairs, once only. */
    method Dispose()
      modifies this`disposed, this`releases, state`disposed
      ensures disposed
      ensures releases == old(releases) + (if old(disposed) then 0 else 1)
      ensures state.disposed == (old(state.disposed) || !old(disposed))
    {
      if !disposed {
        state.Dispose();
        // e and s wipe their key material here; memory is not modelled.
        disposed := true;
        releases := releases + 1;
      }
    }
  }
}
