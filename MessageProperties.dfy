/** Message-level facts: the pattern queue and the transport, the length of
    a written or read message, and the round trip from a writer to a reader
    that hold matching keys. */
module MessageProperties {
  import opened NoiseTypes
  import opened Symmetric
  import opened HandshakeSpec
  import opened TokenProperties

  // ---------------------------------------------------------------- queue and transport

  /** WriteMessage removes exactly the first pattern of the queue (and fails
      on an empty one, changing nothing); a transport is handed out exactly
      when the call succeeds and leaves the queue empty, and it is split from
      the final symmetric state for the writer's role. */
  lemma WriteMessageQueue(c: Config, p: Party, patterns: seq<MessagePattern>, payload: seq<byte>, capacity: nat)
    ensures var o := WriteMessageSpec(c, p, patterns, payload, capacity);
      && (patterns == [] ==> o == Outcome(p, [], [], Err(NoMessagePattern)))
      && (patterns != [] ==> o.patterns == patterns[1..])
      && (o.result.Ok? ==> (o.result.value.transport.Some? <==> o.patterns == []))
      && (o.result.Ok? && o.result.value.transport.Some? ==>
            o.result.value.transport.value == Transport(c.initiator, SplitKeys(o.party.sym).0, SplitKeys(o.party.sym).1))
  {
  }

  /** ReadMessage removes exactly the first pattern of the queue (and fails
      on an empty one, changing nothing); a transport is handed out exactly
      when the call succeeds and leaves the queue empty. */
  lemma ReadMessageQueue(c: Config, p: Party, patterns: seq<MessagePattern>, message: seq<byte>, capacity: nat)
    ensures var o := ReadMessageSpec(c, p, patterns, message, capacity);
      && (patterns == [] ==> o == Outcome(p, [], [], Err(NoMessagePattern)))
      && (patterns != [] ==> o.patterns == patterns[1..])
      && (o.result.Ok? ==> (o.result.value.transport.Some? <==> o.patterns == []))
      && (o.result.Ok? && o.result.value.transport.Some? ==>
            o.result.value.transport.value == Transport(c.initiator, SplitKeys(o.party.sym).0, SplitKeys(o.party.sym).1))
  {
  }

  // ---------------------------------------------------------------- message length

  /** A written message is the E and S bytes of its tokens followed by the
      payload ciphertext: its length is Emitted plus the payload plus a tag
      once a key is installed, and it is what WriteMessage returns. */
  lemma WriteMessageLength(c: Config, p: Party, patterns: seq<MessagePattern>, payload: seq<byte>, capacity: nat)
    requires WriteMessageSpec(c, p, patterns, payload, capacity).result.Ok?
    ensures patterns != []
    ensures var o := WriteMessageSpec(c, p, patterns, payload, capacity);
      var keyed := KeyedAfter(p.sym.hasKey, patterns[0].tokens);
      && o.result.value.length == |o.bytes|
      && |o.bytes| == Emitted(c, p.sym.hasKey, patterns[0].tokens) + |payload| + (if keyed then TagSize else 0)
      && o.party.sym.hasKey == keyed
  {
    WriteTokensAccounting(c, p, patterns[0].tokens, capacity);
  }

  /** A read message is exactly its tokens' bytes (Consumed) followed by the
      payload ciphertext: the payload is the rest less a tag once a key is
      installed, and its length is what ReadMessage returns. */
  lemma ReadMessageLength(c: Config, p: Party, patterns: seq<MessagePattern>, message: seq<byte>, capacity: nat)
    requires ReadMessageSpec(c, p, patterns, message, capacity).result.Ok?
    ensures patterns != []
    ensures var o := ReadMessageSpec(c, p, patterns, message, capacity);
      var keyed := KeyedAfter(p.sym.hasKey, patterns[0].tokens);
      && o.result.value.length == |o.bytes|
      && |message| == Consumed(c, p.sym.hasKey, patterns[0].tokens) + |o.bytes| + (if keyed then TagSize else 0)
      && o.party.sym.hasKey == keyed
  {
    ReadTokensAccounting(c, p, patterns[0].tokens, message);
  }

  /** The single-message pattern "-> e" from a fresh state: the message is
      the ephemeral public key followed by the payload in clear, the hash
      takes the key and then the payload, and the handshake ends. */
  lemma EphemeralOnlyMessage(c: Config, p: Party, payload: seq<byte>, capacity: nat)
    requires p.keys.e.None? && !p.sym.hasKey
    requires |c.dh.ephemeral.publicKey| + |payload| <= capacity
    ensures var pub := c.dh.ephemeral.publicKey;
      var sym := Sym(p.sym.transcript + [MixedHash(pub), MixedHash(payload)], false);
      WriteMessageSpec(c, p, [MessagePattern([E])], payload, capacity)
      == Outcome(Party(p.keys.(e := Some(c.dh.ephemeral)), sym), [], pub + payload,
                 Ok(MessageResult(|pub| + |payload|, Some(Transport(c.initiator, SplitKeys(sym).0, SplitKeys(sym).1)))))
  {
    assert [E][..0] == [];
    var pub := c.dh.ephemeral.publicKey;
    assert WriteTokens(c, p, [E], capacity)
        == Step(Party(p.keys.(e := Some(c.dh.ephemeral)), Hashed(p.sym, pub)), [] + pub, None);
    assert [] + pub == pub;
    assert p.sym.transcript + [MixedHash(pub)] + [MixedHash(payload)] == p.sym.transcript + [MixedHash(pub), MixedHash(payload)];
  }

  // ---------------------------------------------------------------- round trip

  /** `x`, if known, is the public half of `k`. */
  ghost predicate Knows(x: Option<seq<byte>>, k: Option<KeyPair>) {
    x.Some? ==> k.Some? && x.value == k.value.publicKey
  }

  /** The DH of the two key pairs is the same from either side. */
  ghost predicate Agree(dh: (seq<byte>, seq<byte>) -> seq<byte>, x: Option<KeyPair>, y: Option<KeyPair>) {
    x.Some? && y.Some? ==> dh(x.value.privateKey, y.value.publicKey) == dh(y.value.privateKey, x.value.publicKey)
  }

  /** The writer's ephemeral pair: the one it holds, or the one it is about to generate. */
  function WriterEphemeral(cw: Config, pw: Party): KeyPair {
    if pw.keys.e.Some? then pw.keys.e.value else cw.dh.ephemeral
  }

  /** A writer and a reader about to exchange a message: opposite roles, the
      same cipher and DH, public keys DhLen bytes long, the same symmetric
      state, every remote key either side knows being the other's, the
      reader holding the writer's ephemeral once the writer has one, and DH
      agreeing on the pairs in play. */
  ghost predicate Peers(cw: Config, pw: Party, cr: Config, pr: Party) {
    && cw.initiator != cr.initiator
    && cw.cipher == cr.cipher && cw.dh.dh == cr.dh.dh
    && |cw.dh.ephemeral.publicKey| == cr.dh.dhLen
    && (cw.s.Some? ==> |cw.s.value.publicKey| == cr.dh.dhLen)
    && pw.sym == pr.sym
    && Knows(pr.keys.re, pw.keys.e) && Knows(pr.keys.rs, cw.s)
    && Knows(pw.keys.re, pr.keys.e) && Knows(pw.keys.rs, cr.s)
    && (pw.keys.e.Some? ==> pr.keys.re.Some?)
    && Agree(cw.dh.dh, Some(WriterEphemeral(cw, pw)), pr.keys.e)
    && Agree(cw.dh.dh, Some(WriterEphemeral(cw, pw)), cr.s)
    && Agree(cw.dh.dh, cw.s, pr.keys.e)
    && Agree(cw.dh.dh, cw.s, cr.s)
  }

  /** Peers compute the same DH for every DH token whose operands both hold. */
  lemma DhAgreement(cw: Config, pw: Party, cr: Config, pr: Party, t: Token)
    requires Peers(cw, pw, cr, pr) && t.IsDh()
    requires DhInput(cw, pw.keys, t).Ok? && DhInput(cr, pr.keys, t).Ok?
    ensures DhInput(cw, pw.keys, t) == DhInput(cr, pr.keys, t)
  {
    match t {
      case EE =>
      case ES =>
      case SE =>
      case SS =>
    }
  }

  /** The DH tokens whose writer-side operand is the writer's static key:
      SS, ES written by the responder and SE written by the initiator. */
  predicate UsesWriterStatic(cw: Config, t: Token) {
    t == SS || (t == ES && !cw.initiator) || (t == SE && cw.initiator)
  }

  /** Every token of `tokens` that uses the writer's static key finds it
      known to the reader: known before the message (`known`), or sent by an
      S token earlier in the same message. */
  predicate StaticCovered(cw: Config, known: bool, tokens: seq<Token>)
    decreases |tokens|
  {
    tokens == []
    || (&& StaticCovered(cw, known, tokens[..|tokens| - 1])
        && (UsesWriterStatic(cw, tokens[|tokens| - 1]) ==> known || S in tokens[..|tokens| - 1]))
  }

  /** The writer's static key is covered in every message once the reader
      knows it, and in a message none of whose tokens uses it (the DH tokens
      of an unauthenticated pattern such as NN) even when it does not. */
  lemma {:induction false} StaticCoveredCases(cw: Config, known: bool, tokens: seq<Token>)
    ensures StaticCovered(cw, true, tokens)
    ensures (forall j :: 0 <= j < |tokens| ==> !UsesWriterStatic(cw, tokens[j])) ==> StaticCovered(cw, known, tokens)
    decreases |tokens|
  {
    if tokens != [] {
      var init := tokens[..|tokens| - 1];
      StaticCoveredCases(cw, known, init);
      if forall j :: 0 <= j < |tokens| ==> !UsesWriterStatic(cw, tokens[j]) {
        assert forall j :: 0 <= j < |init| ==> init[j] == tokens[j];
      }
    }
  }

  /** What a writer emits for one token, the reader takes back: it succeeds
      exactly unless the token uses the writer's static key and the reader
      does not know it yet, and then it fails with MissingKey; on success it
      consumes the same bytes, ends in the same symmetric state with keys
      still matching, and knows the writer's static key once it did or the
      token was S. */
  lemma TokenRoundTrip(cw: Config, pw: Party, cr: Config, pr: Party, t: Token, room: nat, message: seq<byte>, pos: nat)
    requires Peers(cw, pw, cr, pr) && Inverts(cw.cipher)
    requires WriteToken(cw, pw, t, room).error.None?
    requires pos + |WriteToken(cw, pw, t, room).bytes| <= |message|
    requires message[pos..pos + |WriteToken(cw, pw, t, room).bytes|] == WriteToken(cw, pw, t, room).bytes
    ensures var st, rd := WriteToken(cw, pw, t, room), ReadToken(cr, pr, t, message, pos);
      && (rd.error.None? <==> !(UsesWriterStatic(cw, t) && pr.keys.rs.None?))
      && (rd.error.Some? ==> rd.error == Some(MissingKey))
      && (rd.error.None? ==>
            && rd.consumed == |st.bytes| && Peers(cw, st.party, cr, rd.party)
            && (rd.party.keys.rs.Some? <==> pr.keys.rs.Some? || t == S))
  {
    var st := WriteToken(cw, pw, t, room);
    match t {
      case E =>
        assert pr.keys.re.None?;
      case S =>
        DecryptedUndoesEncrypted(cw.cipher, pw.sym, cw.s.value.publicKey);
      case _ =>
        if DhInput(cr, pr.keys, t).Ok? {
          DhAgreement(cw, pw, cr, pr, t);
        }
    }
  }

  /** One more token of the loop, writer to reader, after a prefix the
      reader took back in full. */
  lemma TokensRoundTripStep(cw: Config, w0: Step, cr: Config, r0: ReadStep, t: Token, room: nat, message: seq<byte>)
    requires Peers(cw, w0.party, cr, r0.party) && Inverts(cw.cipher)
    requires r0.error.None? && r0.consumed == |w0.bytes| <= room
    requires WriteToken(cw, w0.party, t, room - |w0.bytes|).error.None?
    requires var all := w0.bytes + WriteToken(cw, w0.party, t, room - |w0.bytes|).bytes;
      |all| <= |message| && message[..|all|] == all
    ensures var st, rt := WriteToken(cw, w0.party, t, room - |w0.bytes|), ReadToken(cr, r0.party, t, message, r0.consumed);
      && (rt.error.None? <==> !(UsesWriterStatic(cw, t) && r0.party.keys.rs.None?))
      && (rt.error.Some? ==> rt.error == Some(MissingKey))
      && (rt.error.None? ==>
            && r0.consumed + rt.consumed == |w0.bytes + st.bytes| && Peers(cw, st.party, cr, rt.party)
            && (rt.party.keys.rs.Some? <==> r0.party.keys.rs.Some? || t == S))
  {
    var st := WriteToken(cw, w0.party, t, room - |w0.bytes|);
    var all := w0.bytes + st.bytes;
    assert message[|w0.bytes|..|w0.bytes| + |st.bytes|] == all[|w0.bytes|..] == st.bytes;
    TokenRoundTrip(cw, w0.party, cr, r0.party, t, room - |w0.bytes|, message, r0.consumed);
  }

  /** The token loop of one message, writer to reader: the reader succeeds
      exactly when the writer's static key is covered for every token that
      uses it, and otherwise fails with MissingKey; on success it consumes
      exactly the bytes the writer emitted, ends in the same symmetric state
      with keys still matching, and knows the writer's static key once it
      did or the message carried an S token. */
  lemma {:induction false} TokensRoundTrip(cw: Config, pw: Party, cr: Config, pr: Party, tokens: seq<Token>, room: nat, message: seq<byte>)
    requires Peers(cw, pw, cr, pr) && Inverts(cw.cipher)
    requires WriteTokens(cw, pw, tokens, room).error.None?
    requires |WriteTokens(cw, pw, tokens, room).bytes| <= |message|
    requires message[..|WriteTokens(cw, pw, tokens, room).bytes|] == WriteTokens(cw, pw, tokens, room).bytes
    ensures var w, rd := WriteTokens(cw, pw, tokens, room), ReadTokens(cr, pr, tokens, message);
      && (rd.error.None? <==> StaticCovered(cw, pr.keys.rs.Some?, tokens))
      && (rd.error.Some? ==> rd.error == Some(MissingKey))
      && (rd.error.None? ==>
            && rd.consumed == |w.bytes| && Peers(cw, w.party, cr, rd.party)
            && (rd.party.keys.rs.Some? <==> pr.keys.rs.Some? || S in tokens))
    decreases |tokens|
  {
    if tokens != [] {
      var init, t := tokens[..|tokens| - 1], tokens[|tokens| - 1];
      assert tokens == init + [t];
      var w0 := WriteTokens(cw, pw, init, room);
      var st := WriteToken(cw, w0.party, t, room - |w0.bytes|);
      assert WriteTokens(cw, pw, tokens, room) == Step(st.party, w0.bytes + st.bytes, st.error);
      assert message[..|w0.bytes|] == (w0.bytes + st.bytes)[..|w0.bytes|] == w0.bytes;
      TokensRoundTrip(cw, pw, cr, pr, init, room, message);
      var r0 := ReadTokens(cr, pr, init, message);
      if r0.error.None? {
        TokensRoundTripStep(cw, w0, cr, r0, t, room, message);
        assert (S in tokens) == (S in init || t == S);
      }
    }
  }

  /** One handshake message, writer to reader: whenever the writer's
      WriteMessage succeeds and the reader's payload buffer can hold the
      payload, the reader's ReadMessage on exactly the written bytes succeeds
      exactly when the writer's static key is covered for every token of the
      message that uses it, and otherwise fails with MissingKey; on success it
      recovers the payload, ends in the same symmetric state with the same
      queue and keys still matching, and holds the same transport keys in
      the opposite role. */
  lemma MessageRoundTrip(cw: Config, pw: Party, cr: Config, pr: Party, patterns: seq<MessagePattern>,
                         payload: seq<byte>, capacity: nat, payloadCapacity: nat)
    requires Peers(cw, pw, cr, pr) && Inverts(cw.cipher)
    requires WriteMessageSpec(cw, pw, patterns, payload, capacity).result.Ok?
    requires |payload| <= payloadCapacity
    ensures patterns != []
    ensures var o := WriteMessageSpec(cw, pw, patterns, payload, capacity);
      var i := ReadMessageSpec(cr, pr, patterns, o.bytes, payloadCapacity);
      && (i.result.Ok? <==> StaticCovered(cw, pr.keys.rs.Some?, patterns[0].tokens))
      && (i.result.Err? ==> i.result.error == MissingKey)
      && (i.result.Ok? ==>
            && i.bytes == payload && i.result.value.length == |payload|
            && i.patterns == o.patterns && Peers(cw, o.party, cr, i.party)
            && (i.result.value.transport.Some? <==> o.result.value.transport.Some?)
            && (i.result.value.transport.Some? ==>
                  i.result.value.transport.value.c1 == o.result.value.transport.value.c1
                  && i.result.value.transport.value.c2 == o.result.value.transport.value.c2
                  && i.result.value.transport.value.initiator != o.result.value.transport.value.initiator))
  {
    var tokens := patterns[0].tokens;
    var w := WriteTokens(cw, pw, tokens, capacity);
    var o := WriteMessageSpec(cw, pw, patterns, payload, capacity);
    var sealed := Encrypted(cw.cipher, w.party.sym, payload);
    assert o.bytes == w.bytes + sealed.1;
    assert o.bytes[..|w.bytes|] == w.bytes;
    TokensRoundTrip(cw, pw, cr, pr, tokens, capacity, o.bytes);
    var rd := ReadTokens(cr, pr, tokens, o.bytes);
    if rd.error.None? {
      assert o.bytes[rd.consumed..] == sealed.1;
      DecryptedUndoesEncrypted(cw.cipher, w.party.sym, payload);
    }
  }
}
