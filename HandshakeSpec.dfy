/** The handshake engine as values: the protocol name, the pre-message mixes
    of construction, and one call of WriteMessage or ReadMessage as a function
    of the handshake's keys, its symmetric state and its pattern queue. The
    HandshakeState class is proved to follow these functions step by step. */
module HandshakeSpec {
  import opened NoiseTypes
  import opened Symmetric

  /** The configuration a handshake never changes. */
  datatype Config = Config(initiator: bool, s: Option<KeyPair>, dh: DhProvider, cipher: CipherProvider)

  /** The keys a handshake learns or generates on the way. */
  datatype Keys = Keys(e: Option<KeyPair>, re: Option<seq<byte>>, rs: Option<seq<byte>>)

  /** The state one token changes: the keys and the symmetric state. */
  datatype Party = Party(keys: Keys, sym: Sym)

  /** Where a write (or a run of writes) stopped: the new party, the bytes
      emitted into the message buffer, and the error that stopped it, if any. */
  datatype Step = Step(party: Party, bytes: seq<byte>, error: Option<Error>)

  /** Where a read (or a run of reads) stopped: the new party, how many bytes
      of the message it consumed, and the error that stopped it, if any. */
  datatype ReadStep = ReadStep(party: Party, consumed: nat, error: Option<Error>)

  /** What WriteMessage or ReadMessage hands back: the length of the message
      written (or of the payload read) and the transport, once the handshake ends. */
  datatype MessageResult = MessageResult(length: nat, transport: Option<Transport>)

  /** The whole effect of one WriteMessage or ReadMessage call: the new party,
      the remaining pattern queue, the bytes placed at the head of the output
      buffer, and what the call returns. */
  datatype Outcome = Outcome(party: Party, patterns: seq<MessagePattern>, bytes: seq<byte>, result: Result<MessageResult>)

  // ---------------------------------------------------------------- names

  /** The full protocol name, refused when it is longer than MaxProtocolNameLength. */
  function ProtocolName(pattern: string, dhName: string, cipherName: string, hashName: string): (r: Result<string>)
    ensures r.Ok? ==> 6 <= |r.value| <= MaxProtocolNameLength && r.value[..6] == "Noise_"
    ensures r.Err? ==> r.error == ProtocolNameTooLong
  {
    var name := "Noise_" + pattern + "_" + dhName + "_" + cipherName + "_" + hashName;
    if |name| > MaxProtocolNameLength then Err(ProtocolNameTooLong) else Ok(name)
  }

  // ---------------------------------------------------------------- construction

  function PubOf(k: Option<KeyPair>): Option<seq<byte>> {
    if k.Some? then Some(k.value.publicKey) else None
  }

  /** The key a pre-message S token of one side stands for: the local static
      public key if that side is us, otherwise the remote static key. */
  function PreMessageKey(initiator: bool, s: Option<KeyPair>, rs: Option<seq<byte>>, initiatorSide: bool): Option<seq<byte>> {
    if initiatorSide == initiator then PubOf(s) else rs
  }

  /** The mixes of one side's pre-message tokens: one MixHash of `key` per S
      token, in order; other tokens mix nothing. */
  function PreMessageMixes(tokens: seq<Token>, key: Option<seq<byte>>): (r: Result<seq<Mix>>)
    ensures key.Some? ==> r.Ok?
    ensures r.Err? ==> r.error == MissingKey
    ensures r.Ok? ==> |r.value| <= |tokens|
    ensures r.Ok? && key.None? ==> r.value == []
    ensures r.Ok? && key.Some? ==> forall i :: 0 <= i < |r.value| ==> r.value[i] == MixedHash(key.value)
    decreases |tokens|
  {
    if tokens == [] then Ok([])
    else match PreMessageMixes(tokens[..|tokens| - 1], key)
      case Err(x) => Err(x)
      case Ok(mixes) =>
        if tokens[|tokens| - 1] != S then Ok(mixes)
        else if key.None? then Err(MissingKey)
        else Ok(mixes + [MixedHash(key.value)])
  }

  /** A prefix of pre-message tokens whose mixes succeed succeeds as well. */
  lemma {:induction false} PreMessagePrefixOk(tokens: seq<Token>, key: Option<seq<byte>>, k: nat)
    requires k <= |tokens| && PreMessageMixes(tokens, key).Ok?
    ensures PreMessageMixes(tokens[..k], key).Ok?
    decreases |tokens|
  {
    if k < |tokens| {
      var init := tokens[..|tokens| - 1];
      assert init[..k] == tokens[..k];
      PreMessagePrefixOk(init, key, k);
    } else {
      assert tokens[..k] == tokens;
    }
  }

  /** All pre-message mixes: the initiator's side first, then the responder's. */
  function PreMessages(hp: HandshakePattern, initiator: bool, s: Option<KeyPair>, rs: Option<seq<byte>>): (r: Result<seq<Mix>>)
    ensures s.Some? && rs.Some? ==> r.Ok?
    ensures r.Err? ==> r.error == MissingKey
    ensures r.Ok? ==> |r.value| <= |hp.initiator.tokens| + |hp.responder.tokens|
  {
    match PreMessageMixes(hp.initiator.tokens, PreMessageKey(initiator, s, rs, true))
    case Err(x) => Err(x)
    case Ok(first) =>
      match PreMessageMixes(hp.responder.tokens, PreMessageKey(initiator, s, rs, false))
      case Err(x) => Err(x)
      case Ok(second) => Ok(first + second)
  }

  /** The transcript right after construction. */
  function Constructed(name: string, prologue: seq<byte>, preMixes: seq<Mix>): seq<Mix> {
    [Init(name), MixedHash(prologue)] + preMixes
  }

  // ---------------------------------------------------------------- DH tokens

  function DhOf(p: DhProvider, local: Option<KeyPair>, remote: Option<seq<byte>>): Result<seq<byte>> {
    if local.Some? && remote.Some? then Ok(p.dh(local.value.privateKey, remote.value)) else Err(MissingKey)
  }

  /** The DH output a DH token mixes into the key: ES is e with rs for the
      initiator and s with re for the responder, SE the mirror, and EE and SS
      are the same for both roles. */
  function DhInput(c: Config, k: Keys, t: Token): (r: Result<seq<byte>>)
    requires t.IsDh()
    ensures c.s.Some? && k.e.Some? && k.re.Some? && k.rs.Some? ==> r.Ok?
    ensures r.Err? ==> r.error == MissingKey
  {
    match t
    case EE => DhOf(c.dh, k.e, k.re)
    case ES => if c.initiator then DhOf(c.dh, k.e, k.rs) else DhOf(c.dh, c.s, k.re)
    case SE => if c.initiator then DhOf(c.dh, c.s, k.re) else DhOf(c.dh, k.e, k.rs)
    case SS => DhOf(c.dh, c.s, k.rs)
  }

  function MixDhStep(c: Config, p: Party, t: Token): Party
    requires t.IsDh() && DhInput(c, p.keys, t).Ok?
  {
    p.(sym := Keyed(p.sym, DhInput(c, p.keys, t).value))
  }

  // ---------------------------------------------------------------- writing

  /** One token of WriteMessage, with `room` bytes left in the message buffer. */
  function WriteToken(c: Config, p: Party, t: Token, room: nat): (r: Step)
    ensures |r.bytes| <= room
  {
    match t
    case E =>
      if p.keys.e.Some? then Step(p, [], Some(EphemeralAlreadySet))
      else
        var eph := c.dh.ephemeral;
        var keys := p.keys.(e := Some(eph));
        if |eph.publicKey| > room then Step(p.(keys := keys), [], Some(BufferTooSmall))
        else Step(Party(keys, Hashed(p.sym, eph.publicKey)), eph.publicKey, None)
    case S =>
      if c.s.None? then Step(p, [], Some(MissingKey))
      else
        var (sym, ciphertext) := Encrypted(c.cipher, p.sym, c.s.value.publicKey);
        if |ciphertext| > room then Step(p, [], Some(BufferTooSmall))
        else Step(p.(sym := sym), ciphertext, None)
    case _ =>
      match DhInput(c, p.keys, t)
      case Err(x) => Step(p, [], Some(x))
      case Ok(_) => Step(MixDhStep(c, p, t), [], None)
  }

  /** The tokens of one message pattern written in order, stopping at the first error. */
  function WriteTokens(c: Config, p: Party, tokens: seq<Token>, room: nat): (r: Step)
    ensures |r.bytes| <= room
    decreases |tokens|
  {
    if tokens == [] then Step(p, [], None)
    else
      var prev := WriteTokens(c, p, tokens[..|tokens| - 1], room);
      if prev.error.Some? then prev
      else
        var st := WriteToken(c, prev.party, tokens[|tokens| - 1], room - |prev.bytes|);
        Step(st.party, prev.bytes + st.bytes, st.error)
  }

  /** The transport handed out when the queue has just been exhausted. */
  function TransportIf(c: Config, sym: Sym, rest: seq<MessagePattern>): Option<Transport> {
    if rest == [] then Some(Transport(c.initiator, SplitKeys(sym).0, SplitKeys(sym).1)) else None
  }

  /** The tail of WriteMessage: the payload encrypted after the `written`
      token bytes, and the transport once the queue is exhausted. */
  function WritePayload(c: Config, p: Party, rest: seq<MessagePattern>, written: seq<byte>, payload: seq<byte>, capacity: nat): (o: Outcome)
    requires |written| <= capacity
    ensures |o.bytes| <= capacity && o.patterns == rest
    ensures o.result.Ok? ==> o.result.value.length == |o.bytes| && |written| <= |o.bytes| && o.bytes[..|written|] == written
    ensures o.result.Err? ==> o.result == Err(BufferTooSmall) && o.party == p && o.bytes == written
  {
    var (sym, ciphertext) := Encrypted(c.cipher, p.sym, payload);
    if |written| + |ciphertext| > capacity then Outcome(p, rest, written, Err(BufferTooSmall))
    else
      Outcome(p.(sym := sym), rest, written + ciphertext,
              Ok(MessageResult(|written| + |ciphertext|, TransportIf(c, sym, rest))))
  }

  /** One WriteMessage call into a message buffer of `capacity` bytes. */
  function WriteMessageSpec(c: Config, p: Party, patterns: seq<MessagePattern>, payload: seq<byte>, capacity: nat): (o: Outcome)
    ensures |o.bytes| <= capacity
  {
    if patterns == [] then Outcome(p, patterns, [], Err(NoMessagePattern))
    else
      var st := WriteTokens(c, p, patterns[0].tokens, capacity);
      if st.error.Some? then Outcome(st.party, patterns[1..], st.bytes, Err(st.error.value))
      else WritePayload(c, st.party, patterns[1..], st.bytes, payload, capacity)
  }

  // ---------------------------------------------------------------- reading

  /** One token of ReadMessage on `message`, whose first `pos` bytes are consumed. */
  function ReadToken(c: Config, p: Party, t: Token, message: seq<byte>, pos: nat): (r: ReadStep)
    requires pos <= |message|
    ensures pos + r.consumed <= |message|
  {
    match t
    case E =>
      if p.keys.re.Some? then ReadStep(p, 0, Some(RemoteEphemeralAlreadySet))
      else if |message| - pos < c.dh.dhLen then ReadStep(p, 0, Some(MessageTooShort))
      else
        var key := message[pos..pos + c.dh.dhLen];
        ReadStep(Party(p.keys.(re := Some(key)), Hashed(p.sym, key)), c.dh.dhLen, None)
    case S =>
      var len := if p.sym.hasKey then c.dh.dhLen + TagSize else c.dh.dhLen;
      if |message| - pos < len then ReadStep(p, 0, Some(MessageTooShort))
      else
        (match Decrypted(c.cipher, p.sym, message[pos..pos + len])
         case Err(x) => ReadStep(p.(keys := p.keys.(rs := Some(Zeros(c.dh.dhLen)))), 0, Some(x))
         case Ok((sym, key)) => ReadStep(Party(p.keys.(rs := Some(key)), sym), len, None))
    case _ =>
      match DhInput(c, p.keys, t)
      case Err(x) => ReadStep(p, 0, Some(x))
      case Ok(_) => ReadStep(MixDhStep(c, p, t), 0, None)
  }

  /** The tokens of one message pattern read in order, stopping at the first error. */
  function ReadTokens(c: Config, p: Party, tokens: seq<Token>, message: seq<byte>): (r: ReadStep)
    ensures r.consumed <= |message|
    decreases |tokens|
  {
    if tokens == [] then ReadStep(p, 0, None)
    else
      var prev := ReadTokens(c, p, tokens[..|tokens| - 1], message);
      if prev.error.Some? then prev
      else
        var st := ReadToken(c, prev.party, tokens[|tokens| - 1], message, prev.consumed);
        ReadStep(st.party, prev.consumed + st.consumed, st.error)
  }

  /** The tail of ReadMessage: the rest of the message after the first
      `consumed` bytes decrypted as the payload, and the transport once the
      queue is exhausted. */
  function ReadPayload(c: Config, p: Party, rest: seq<MessagePattern>, message: seq<byte>, consumed: nat, capacity: nat): (o: Outcome)
    requires consumed <= |message|
    ensures |o.bytes| <= capacity && o.patterns == rest
    ensures o.result.Ok? ==> o.result.value.length == |o.bytes|
    ensures o.result.Err? ==> o.result.error in {DecryptionFailed, BufferTooSmall} && o.party == p && o.bytes == []
  {
    match Decrypted(c.cipher, p.sym, message[consumed..])
    case Err(x) => Outcome(p, rest, [], Err(x))
    case Ok((sym, payload)) =>
      if |payload| > capacity then Outcome(p, rest, [], Err(BufferTooSmall))
      else Outcome(p.(sym := sym), rest, payload, Ok(MessageResult(|payload|, TransportIf(c, sym, rest))))
  }

  /** One ReadMessage call on `message` into a payload buffer of `capacity` bytes. */
  function ReadMessageSpec(c: Config, p: Party, patterns: seq<MessagePattern>, message: seq<byte>, capacity: nat): (o: Outcome)
    ensures |o.bytes| <= capacity
  {
    if patterns == [] then Outcome(p, patterns, [], Err(NoMessagePattern))
    else
      var st := ReadTokens(c, p, patterns[0].tokens, message);
      if st.error.Some? then Outcome(st.party, patterns[1..], [], Err(st.error.value))
      else ReadPayload(c, st.party, patterns[1..], message, st.consumed, capacity)
  }

  // ---------------------------------------------------------------- early stop

  /** One more token written after an error-free prefix. */
  lemma WriteTokensNext(c: Config, p: Party, tokens: seq<Token>, i: nat, room: nat)
    requires i < |tokens|
    requires WriteTokens(c, p, tokens[..i], room).error.None?
    ensures var prev := WriteTokens(c, p, tokens[..i], room);
      var st := WriteToken(c, prev.party, tokens[i], room - |prev.bytes|);
      WriteTokens(c, p, tokens[..i + 1], room) == Step(st.party, prev.bytes + st.bytes, st.error)
  {
    assert tokens[..i + 1][..i] == tokens[..i];
  }

  /** One more token read after an error-free prefix. */
  lemma ReadTokensNext(c: Config, p: Party, tokens: seq<Token>, i: nat, message: seq<byte>)
    requires i < |tokens|
    requires ReadTokens(c, p, tokens[..i], message).error.None?
    ensures var prev := ReadTokens(c, p, tokens[..i], message);
      var st := ReadToken(c, prev.party, tokens[i], message, prev.consumed);
      ReadTokens(c, p, tokens[..i + 1], message) == ReadStep(st.party, prev.consumed + st.consumed, st.error)
  {
    assert tokens[..i + 1][..i] == tokens[..i];
  }

  lemma {:induction false} WriteTokensStopped(c: Config, p: Party, tokens: seq<Token>, k: nat, room: nat)
    requires k <= |tokens|
    requires WriteTokens(c, p, tokens[..k], room).error.Some?
    ensures WriteTokens(c, p, tokens, room) == WriteTokens(c, p, tokens[..k], room)
    decreases |tokens| - k
  {
    if k < |tokens| {
      assert tokens[..k + 1][..k] == tokens[..k];
      WriteTokensStopped(c, p, tokens, k + 1, room);
    } else {
      assert tokens[..k] == tokens;
    }
  }

  lemma {:induction false} ReadTokensStopped(c: Config, p: Party, tokens: seq<Token>, k: nat, message: seq<byte>)
    requires k <= |tokens|
    requires ReadTokens(c, p, tokens[..k], message).error.Some?
    ensures ReadTokens(c, p, tokens, message) == ReadTokens(c, p, tokens[..k], message)
    decreases |tokens| - k
  {
    if k < |tokens| {
      assert tokens[..k + 1][..k] == tokens[..k];
      ReadTokensStopped(c, p, tokens, k + 1, message);
    } else {
      assert tokens[..k] == tokens;
    }
  }
}
