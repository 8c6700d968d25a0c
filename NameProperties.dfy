/** The protocol name and the pre-message mixes of construction. */
module NameProperties {
  import opened NoiseTypes
  import opened Symmetric
  import opened HandshakeSpec

  // ---------------------------------------------------------------- protocol name

  /** The name is refused exactly when its nine fixed characters and the four
      fields together are longer than MaxProtocolNameLength; otherwise it is
      the fields joined by underscores after "Noise". */
  lemma ProtocolNameLength(pattern: string, dhName: string, cipherName: string, hashName: string)
    ensures ProtocolName(pattern, dhName, cipherName, hashName).Ok?
            <==> 9 + |pattern| + |dhName| + |cipherName| + |hashName| <= MaxProtocolNameLength
    ensures ProtocolName(pattern, dhName, cipherName, hashName).Err? ==>
            ProtocolName(pattern, dhName, cipherName, hashName).error == ProtocolNameTooLong
    ensures ProtocolName(pattern, dhName, cipherName, hashName).Ok? ==>
            |ProtocolName(pattern, dhName, cipherName, hashName).value| == 9 + |pattern| + |dhName| + |cipherName| + |hashName|
  {
    var name := "Noise_" + pattern + "_" + dhName + "_" + cipherName + "_" + hashName;
    assert |name| == 9 + |pattern| + |dhName| + |cipherName| + |hashName|;
  }

  /** The underscore-separated fields of a string. */
  function Fields(s: string): (r: seq<string>)
    ensures |r| >= 1
    decreases |s|
  {
    if s == [] then [[]]
    else
      var rest := Fields(s[1..]);
      if s[0] == '_' then [[]] + rest else [[s[0]] + rest[0]] + rest[1..]
  }

  /** A string without an underscore is one field. */
  lemma {:induction false} FieldsOfPlain(a: string)
    requires '_' !in a
    ensures Fields(a) == [a]
    decreases |a|
  {
    if a != [] {
      assert '_' !in a[1..] by {
        forall i | 0 <= i < |a[1..]| ensures a[1..][i] != '_' {
          assert a[1..][i] == a[i + 1];
        }
      }
      FieldsOfPlain(a[1..]);
      assert [a[0]] + a[1..] == a;
    }
  }

  /** An underscore after a plain field starts the next field. */
  lemma {:induction false} FieldsOfJoin(a: string, b: string)
    requires '_' !in a
    ensures Fields(a + "_" + b) == [a] + Fields(b)
    decreases |a|
  {
    if a == [] {
      assert a + "_" + b == ['_'] + b;
      assert (['_'] + b)[1..] == b;
    } else {
      var s := a + "_" + b;
      assert s[0] == a[0];
      assert s[1..] == a[1..] + "_" + b;
      assert '_' !in a[1..] by {
        forall i | 0 <= i < |a[1..]| ensures a[1..][i] != '_' {
          assert a[1..][i] == a[i + 1];
        }
      }
      FieldsOfJoin(a[1..], b);
      assert [a[0]] + a[1..] == a;
    }
  }

  /** The protocol name determines its four fields: split on underscores it
      gives back "Noise", the pattern, and the DH, cipher and hash names, as
      long as none of them contains an underscore. */
  lemma ProtocolNameFields(pattern: string, dhName: string, cipherName: string, hashName: string)
    requires '_' !in pattern && '_' !in dhName && '_' !in cipherName && '_' !in hashName
    requires ProtocolName(pattern, dhName, cipherName, hashName).Ok?
    ensures Fields(ProtocolName(pattern, dhName, cipherName, hashName).value)
            == ["Noise", pattern, dhName, cipherName, hashName]
  {
    var tail3 := cipherName + "_" + hashName;
    var tail2 := dhName + "_" + tail3;
    var tail1 := pattern + "_" + tail2;
    assert "Noise_" + pattern + "_" + dhName + "_" + cipherName + "_" + hashName == "Noise" + "_" + tail1;
    assert '_' !in "Noise";
    FieldsOfJoin("Noise", tail1);
    FieldsOfJoin(pattern, tail2);
    FieldsOfJoin(dhName, tail3);
    FieldsOfJoin(cipherName, hashName);
    FieldsOfPlain(hashName);
  }

  // ---------------------------------------------------------------- pre-messages

  /** How many S tokens a pre-message holds. */
  function CountS(tokens: seq<Token>): nat {
    if tokens == [] then 0 else (if tokens[0] == S then 1 else 0) + CountS(tokens[1..])
  }

  lemma {:induction false} CountSSnoc(tokens: seq<Token>, t: Token)
    ensures CountS(tokens + [t]) == CountS(tokens) + (if t == S then 1 else 0)
    decreases |tokens|
  {
    if tokens != [] {
      assert (tokens + [t])[1..] == tokens[1..] + [t];
      CountSSnoc(tokens[1..], t);
    }
  }

  /** `n` MixHash entries of `key`, none when there is no key. */
  function Repeated(key: Option<seq<byte>>, n: nat): seq<Mix> {
    if key.Some? then seq(n, _ => MixedHash(key.value)) else []
  }

  /** One side's pre-message mixes succeed exactly when the side has a key
      or has no S token, and are then one MixHash of that key per S token. */
  lemma {:induction false} PreMessageMixesCount(tokens: seq<Token>, key: Option<seq<byte>>)
    ensures PreMessageMixes(tokens, key).Ok? <==> (key.Some? || CountS(tokens) == 0)
    ensures PreMessageMixes(tokens, key).Err? ==> PreMessageMixes(tokens, key).error == MissingKey
    ensures PreMessageMixes(tokens, key).Ok? ==>
            PreMessageMixes(tokens, key).value == Repeated(key, CountS(tokens))
    decreases |tokens|
  {
    if tokens != [] {
      var init, t := tokens[..|tokens| - 1], tokens[|tokens| - 1];
      assert init + [t] == tokens;
      CountSSnoc(init, t);
      PreMessageMixesCount(init, key);
      if PreMessageMixes(tokens, key).Ok? && t == S {
        assert seq(CountS(init), _ => MixedHash(key.value)) + [MixedHash(key.value)]
            == seq(CountS(tokens), _ => MixedHash(key.value));
      }
    }
  }

  /** Both parties of a handshake start from the same transcript: a
      pre-message S key is the initiator's own static key on its side and
      the remote static key on the responder's, and the mirror for the
      responder's pre-message. */
  lemma PreMessagesAgree(hp: HandshakePattern, si: Option<KeyPair>, sr: Option<KeyPair>,
                         rsi: Option<seq<byte>>, rsr: Option<seq<byte>>)
    requires rsi == PubOf(sr) && rsr == PubOf(si)
    ensures PreMessages(hp, true, si, rsi) == PreMessages(hp, false, sr, rsr)
  {
    assert PreMessageKey(true, si, rsi, true) == PreMessageKey(false, sr, rsr, true);
    assert PreMessageKey(true, si, rsi, false) == PreMessageKey(false, sr, rsr, false);
  }

  /** The transcript right after construction, in order: the protocol name,
      the prologue, one entry for each initiator pre-message S token holding
      the initiator's static key, then one for each responder pre-message S
      token holding the responder's. */
  lemma ConstructedOrder(hp: HandshakePattern, initiator: bool, name: string, prologue: seq<byte>,
                         s: Option<KeyPair>, rs: Option<seq<byte>>)
    requires PreMessages(hp, initiator, s, rs).Ok?
    ensures var first, second := PreMessageKey(initiator, s, rs, true), PreMessageKey(initiator, s, rs, false);
      Constructed(name, prologue, PreMessages(hp, initiator, s, rs).value)
      == [Init(name), MixedHash(prologue)] + Repeated(first, CountS(hp.initiator.tokens))
         + Repeated(second, CountS(hp.responder.tokens))
    ensures PreMessageKey(initiator, s, rs, true) == (if initiator then PubOf(s) else rs)
    ensures PreMessageKey(initiator, s, rs, false) == (if initiator then rs else PubOf(s))
  {
    PreMessageMixesCount(hp.initiator.tokens, PreMessageKey(initiator, s, rs, true));
    PreMessageMixesCount(hp.responder.tokens, PreMessageKey(initiator, s, rs, false));
  }
}
