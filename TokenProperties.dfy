/** Token-level facts: what E, S and the DH tokens do, the write-once
    ephemerals, and the byte accounting of the message cursor. */
module TokenProperties {
  import opened NoiseTypes
  import opened Symmetric
  import opened HandshakeSpec

  // ---------------------------------------------------------------- E and S

  /** WriteE: refused once e is set; otherwise it sets e to the generated
      pair, emits exactly its public key and mixes that key into the hash,
      failing only for a buffer too small, with e already set. */
  lemma WriteEFacts(c: Config, p: Party, room: nat)
    ensures var st := WriteToken(c, p, E, room);
      && (p.keys.e.Some? ==> st == Step(p, [], Some(EphemeralAlreadySet)))
      && (p.keys.e.None? ==> st.party.keys == p.keys.(e := Some(c.dh.ephemeral)))
      && (p.keys.e.None? && |c.dh.ephemeral.publicKey| > room ==> st.error == Some(BufferTooSmall) && st.party.sym == p.sym)
      && (p.keys.e.None? && |c.dh.ephemeral.publicKey| <= room ==>
            st.error.None? && st.bytes == c.dh.ephemeral.publicKey
            && st.party.sym == Hashed(p.sym, c.dh.ephemeral.publicKey))
  {
  }

  /** ReadE: refused once re is set or when fewer than DhLen bytes are left;
      otherwise re is exactly the next DhLen bytes, the same bytes are mixed
      into the hash, and the cursor moves past them. */
  lemma ReadEFacts(c: Config, p: Party, message: seq<byte>, pos: nat)
    requires pos <= |message|
    ensures var st := ReadToken(c, p, E, message, pos);
      && (p.keys.re.Some? ==> st == ReadStep(p, 0, Some(RemoteEphemeralAlreadySet)))
      && (p.keys.re.None? && pos + c.dh.dhLen > |message| ==> st == ReadStep(p, 0, Some(MessageTooShort)))
      && (p.keys.re.None? && pos + c.dh.dhLen <= |message| ==>
            && st.error.None? && st.consumed == c.dh.dhLen
            && st.party.keys == p.keys.(re := Some(message[pos..pos + c.dh.dhLen]))
            && st.party.sym == Hashed(p.sym, message[pos..pos + c.dh.dhLen])
            && |st.party.keys.re.value| == c.dh.dhLen)
  {
  }

  /** ReadS: the static key takes DhLen bytes, plus TagSize once a key is
      installed; a successful read consumes exactly that many bytes and sets
      rs to a DhLen-byte key, and a failed decryption leaves rs as DhLen zeros. */
  lemma ReadSFacts(c: Config, p: Party, message: seq<byte>, pos: nat)
    requires pos <= |message|
    ensures var st := ReadToken(c, p, S, message, pos);
      var len := c.dh.dhLen + (if p.sym.hasKey then TagSize else 0);
      && (pos + len > |message| ==> st == ReadStep(p, 0, Some(MessageTooShort)))
      && (st.error.None? ==> st.consumed == len && st.party.keys.rs.Some? && |st.party.keys.rs.value| == c.dh.dhLen
                             && st.party.keys.(rs := p.keys.rs) == p.keys
                             && st.party.sym == Hashed(p.sym, message[pos..pos + len]))
      && (st.error.Some? ==> st.consumed == 0 && st.party.sym == p.sym
                             && (st.error == Some(MessageTooShort) || st.error == Some(DecryptionFailed)))
      && (st.error == Some(DecryptionFailed) ==> st.party.keys == p.keys.(rs := Some(Zeros(c.dh.dhLen))))
  {
  }

  // ---------------------------------------------------------------- DH operands

  /** The DH tokens pick their operands by role: ES and SE swap when the role
      does, while EE and SS are the same for both roles. */
  lemma DhRoles(c: Config, k: Keys)
    ensures DhInput(c, k, ES) == DhInput(c.(initiator := !c.initiator), k, SE)
    ensures DhInput(c, k, SE) == DhInput(c.(initiator := !c.initiator), k, ES)
    ensures DhInput(c, k, EE) == DhInput(c.(initiator := !c.initiator), k, EE) == DhOf(c.dh, k.e, k.re)
    ensures DhInput(c, k, SS) == DhInput(c.(initiator := !c.initiator), k, SS) == DhOf(c.dh, c.s, k.rs)
    ensures DhInput(c, k, ES) == (if c.initiator then DhOf(c.dh, k.e, k.rs) else DhOf(c.dh, c.s, k.re))
  {
  }

  /** A DH token mixes one key and changes nothing else; it fails, with
      MissingKey and no change, exactly when one of its two operands is absent. */
  lemma DhTokenFacts(c: Config, p: Party, t: Token, room: nat, message: seq<byte>, pos: nat)
    requires t.IsDh() && pos <= |message|
    ensures WriteToken(c, p, t, room).bytes == [] && ReadToken(c, p, t, message, pos).consumed == 0
    ensures WriteToken(c, p, t, room).party == ReadToken(c, p, t, message, pos).party
    ensures WriteToken(c, p, t, room).error == ReadToken(c, p, t, message, pos).error
    ensures DhInput(c, p.keys, t).Err? ==> DhInput(c, p.keys, t).error == MissingKey
    ensures match DhInput(c, p.keys, t)
      case Err(x) => WriteToken(c, p, t, room) == Step(p, [], Some(x))
      case Ok(ikm) => WriteToken(c, p, t, room) == Step(Party(p.keys, Keyed(p.sym, ikm)), [], None)
  {
  }

  // ---------------------------------------------------------------- write-once ephemerals

  /** Once e is set, no E token of a written message changes it, and the
      first E token stops the message with EphemeralAlreadySet. */
  lemma {:induction false} WriteKeepsEphemeral(c: Config, p: Party, tokens: seq<Token>, room: nat)
    requires p.keys.e.Some?
    ensures WriteTokens(c, p, tokens, room).party.keys.e == p.keys.e
    ensures E in tokens ==> WriteTokens(c, p, tokens, room).error.Some?
    decreases |tokens|
  {
    if tokens != [] {
      var init := tokens[..|tokens| - 1];
      assert tokens == init + [tokens[|tokens| - 1]];
      WriteKeepsEphemeral(c, p, init, room);
    }
  }

  /** After a written message, e is either what it was or, when it was
      unset, the pair the provider generates. */
  lemma {:induction false} WriteSetsEphemeral(c: Config, p: Party, tokens: seq<Token>, room: nat)
    ensures var e := WriteTokens(c, p, tokens, room).party.keys.e;
      e == p.keys.e || (p.keys.e.None? && e == Some(c.dh.ephemeral))
    ensures WriteTokens(c, p, tokens, room).error.None? && E in tokens ==>
      WriteTokens(c, p, tokens, room).party.keys.e.Some?
    decreases |tokens|
  {
    if tokens != [] {
      var init := tokens[..|tokens| - 1];
      assert tokens == init + [tokens[|tokens| - 1]];
      WriteSetsEphemeral(c, p, init, room);
    }
  }

  /** Once re is set, no E token of a read message changes it, and the first
      E token stops the message with RemoteEphemeralAlreadySet. */
  lemma {:induction false} ReadKeepsRemoteEphemeral(c: Config, p: Party, tokens: seq<Token>, message: seq<byte>)
    requires p.keys.re.Some?
    ensures ReadTokens(c, p, tokens, message).party.keys.re == p.keys.re
    ensures E in tokens ==> ReadTokens(c, p, tokens, message).error.Some?
    decreases |tokens|
  {
    if tokens != [] {
      var init := tokens[..|tokens| - 1];
      assert tokens == init + [tokens[|tokens| - 1]];
      ReadKeepsRemoteEphemeral(c, p, init, message);
    }
  }

  /** A message pattern with two E tokens can never be written: the second
      one is refused, whatever the state before. */
  lemma TwoEphemeralsRefused(c: Config, p: Party, tokens: seq<Token>, i: nat, j: nat, room: nat)
    requires i < j < |tokens| && tokens[i] == E && tokens[j] == E
    ensures WriteTokens(c, p, tokens, room).error.Some?
  {
    var prev := WriteTokens(c, p, tokens[..j], room);
    assert tokens[..j + 1][..j] == tokens[..j];
    if prev.error.None? {
      assert tokens[..j][i] == E;
      WriteSetsEphemeral(c, p, tokens[..j], room);
      WriteTokensNext(c, p, tokens, j, room);
    }
    WriteTokensStopped(c, p, tokens, j + 1, room);
  }

  // ---------------------------------------------------------------- byte accounting

  /** Whether a key is installed once `tokens` have gone through: a DH token
      always installs one. */
  function KeyedAfter(hasKey: bool, tokens: seq<Token>): bool {
    hasKey || exists i :: 0 <= i < |tokens| && tokens[i].IsDh()
  }

  /** How many bytes a token adds to the message: the ephemeral public key
      for E, the static public key and a tag once keyed for S, none for DH. */
  function TokenBytes(c: Config, hasKey: bool, t: Token): nat {
    match t
    case E => |c.dh.ephemeral.publicKey|
    case S => (if c.s.Some? then |c.s.value.publicKey| else 0) + (if hasKey then TagSize else 0)
    case _ => 0
  }

  /** How many message bytes a token takes on the reading side: DhLen for E,
      DhLen and a tag once keyed for S, none for DH. */
  function TokenConsumed(c: Config, hasKey: bool, t: Token): nat {
    match t
    case E => c.dh.dhLen
    case S => c.dh.dhLen + (if hasKey then TagSize else 0)
    case _ => 0
  }

  /** The bytes a run of tokens emits, counted from the front. */
  function Emitted(c: Config, hasKey: bool, tokens: seq<Token>): nat
    decreases |tokens|
  {
    if tokens == [] then 0
    else TokenBytes(c, hasKey, tokens[0]) + Emitted(c, hasKey || tokens[0].IsDh(), tokens[1..])
  }

  /** The bytes a run of tokens consumes, counted from the front. */
  function Consumed(c: Config, hasKey: bool, tokens: seq<Token>): nat
    decreases |tokens|
  {
    if tokens == [] then 0
    else TokenConsumed(c, hasKey, tokens[0]) + Consumed(c, hasKey || tokens[0].IsDh(), tokens[1..])
  }

  lemma {:induction false} KeyedAfterSnoc(hasKey: bool, tokens: seq<Token>, t: Token)
    ensures KeyedAfter(hasKey, tokens + [t]) == (KeyedAfter(hasKey, tokens) || t.IsDh())
  {
    var all := tokens + [t];
    if KeyedAfter(hasKey, tokens) && !hasKey {
      var i :| 0 <= i < |tokens| && tokens[i].IsDh();
      assert all[i] == tokens[i];
    }
    if t.IsDh() {
      assert all[|tokens|] == t;
    }
    if KeyedAfter(hasKey, all) && !hasKey {
      var i :| 0 <= i < |all| && all[i].IsDh();
      if i < |tokens| {
        assert tokens[i] == all[i];
      }
    }
  }

  lemma {:induction false} KeyedAfterCons(hasKey: bool, tokens: seq<Token>)
    requires tokens != []
    ensures KeyedAfter(hasKey, tokens) == KeyedAfter(hasKey || tokens[0].IsDh(), tokens[1..])
  {
    var rest := tokens[1..];
    if KeyedAfter(hasKey, tokens) && !hasKey && !tokens[0].IsDh() {
      var i :| 0 <= i < |tokens| && tokens[i].IsDh();
      assert rest[i - 1] == tokens[i];
    }
    if KeyedAfter(hasKey || tokens[0].IsDh(), rest) && !hasKey {
      if !tokens[0].IsDh() {
        var i :| 0 <= i < |rest| && rest[i].IsDh();
        assert tokens[i + 1] == rest[i];
      } else {
        assert tokens[0].IsDh();
      }
    }
  }

  lemma {:induction false} EmittedSnoc(c: Config, hasKey: bool, tokens: seq<Token>, t: Token)
    ensures Emitted(c, hasKey, tokens + [t]) == Emitted(c, hasKey, tokens) + TokenBytes(c, KeyedAfter(hasKey, tokens), t)
    decreases |tokens|
  {
    if tokens == [] {
      assert !KeyedAfter(hasKey, tokens) || hasKey;
      assert ([t])[1..] == [];
    } else {
      assert (tokens + [t])[1..] == tokens[1..] + [t];
      EmittedSnoc(c, hasKey || tokens[0].IsDh(), tokens[1..], t);
      KeyedAfterCons(hasKey, tokens);
    }
  }

  lemma {:induction false} ConsumedSnoc(c: Config, hasKey: bool, tokens: seq<Token>, t: Token)
    ensures Consumed(c, hasKey, tokens + [t]) == Consumed(c, hasKey, tokens) + TokenConsumed(c, KeyedAfter(hasKey, tokens), t)
    decreases |tokens|
  {
    if tokens == [] {
      assert !KeyedAfter(hasKey, tokens) || hasKey;
      assert ([t])[1..] == [];
    } else {
      assert (tokens + [t])[1..] == tokens[1..] + [t];
      ConsumedSnoc(c, hasKey || tokens[0].IsDh(), tokens[1..], t);
      KeyedAfterCons(hasKey, tokens);
    }
  }

  /** One written token emits TokenBytes and installs a key exactly when it
      is a DH token or one was installed before. */
  lemma WriteTokenAccounting(c: Config, p: Party, t: Token, room: nat)
    requires WriteToken(c, p, t, room).error.None?
    ensures |WriteToken(c, p, t, room).bytes| == TokenBytes(c, p.sym.hasKey, t)
    ensures WriteToken(c, p, t, room).party.sym.hasKey == (p.sym.hasKey || t.IsDh())
  {
  }

  /** One read token consumes TokenConsumed and installs a key exactly when
      it is a DH token or one was installed before. */
  lemma ReadTokenAccounting(c: Config, p: Party, t: Token, message: seq<byte>, pos: nat)
    requires pos <= |message| && ReadToken(c, p, t, message, pos).error.None?
    ensures ReadToken(c, p, t, message, pos).consumed == TokenConsumed(c, p.sym.hasKey, t)
    ensures ReadToken(c, p, t, message, pos).party.sym.hasKey == (p.sym.hasKey || t.IsDh())
  {
  }

  /** Byte accounting of the write cursor: a message whose tokens all went
      through emitted exactly Emitted bytes, and a key is installed after it
      exactly when one was before or a DH token occurred. */
  lemma {:induction false} WriteTokensAccounting(c: Config, p: Party, tokens: seq<Token>, room: nat)
    requires WriteTokens(c, p, tokens, room).error.None?
    ensures |WriteTokens(c, p, tokens, room).bytes| == Emitted(c, p.sym.hasKey, tokens)
    ensures WriteTokens(c, p, tokens, room).party.sym.hasKey == KeyedAfter(p.sym.hasKey, tokens)
    decreases |tokens|
  {
    if tokens == [] {
      assert !KeyedAfter(p.sym.hasKey, tokens) || p.sym.hasKey;
    } else {
      var init, t := tokens[..|tokens| - 1], tokens[|tokens| - 1];
      assert init + [t] == tokens;
      var prev := WriteTokens(c, p, init, room);
      var st := WriteToken(c, prev.party, t, room - |prev.bytes|);
      WriteTokensAccounting(c, p, init, room);
      WriteTokenAccounting(c, prev.party, t, room - |prev.bytes|);
      EmittedSnoc(c, p.sym.hasKey, init, t);
      KeyedAfterSnoc(p.sym.hasKey, init, t);
    }
  }

  /** Byte accounting of the read cursor: a message whose tokens all went
      through consumed exactly Consumed bytes, and a key is installed after
      it exactly when one was before or a DH token occurred. */
  lemma {:induction false} ReadTokensAccounting(c: Config, p: Party, tokens: seq<Token>, message: seq<byte>)
    requires ReadTokens(c, p, tokens, message).error.None?
    ensures ReadTokens(c, p, tokens, message).consumed == Consumed(c, p.sym.hasKey, tokens)
    ensures ReadTokens(c, p, tokens, message).party.sym.hasKey == KeyedAfter(p.sym.hasKey, tokens)
    decreases |tokens|
  {
    if tokens == [] {
      assert !KeyedAfter(p.sym.hasKey, tokens) || p.sym.hasKey;
    } else {
      var init, t := tokens[..|tokens| - 1], tokens[|tokens| - 1];
      assert init + [t] == tokens;
      var prev := ReadTokens(c, p, init, message);
      var st := ReadToken(c, prev.party, t, message, prev.consumed);
      assert ReadTokens(c, p, tokens, message) == ReadStep(st.party, prev.consumed + st.consumed, st.error);
      ReadTokensAccounting(c, p, init, message);
      ReadTokenAccounting(c, prev.party, t, message, prev.consumed);
      ConsumedSnoc(c, p.sym.hasKey, init, t);
      KeyedAfterSnoc(p.sym.hasKey, init, t);
    }
  }
}
