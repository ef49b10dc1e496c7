/** A concrete run of the model: a message sent from one rank up to the
    next and decrypted by its receiver. */
module MessageScenarios {
  import opened JavaTypes
  import opened Clearances
  import opened Agents
  import opened Messages
  import opened SecretAgents

  /** "HI" encrypted with key 3: the codes 72 and 73 are recorded, 75 and
      76 stored and shown as the new content. */
  lemma HiEncryptedWithThree(from: Agent, to: Agent)
    ensures var e := Encrypt(NewMessage(from, to, Lit("HI")), 3);
            && e.encoded == Some([72, 73]) && e.encrypted == Some([75, 76])
            && e.content == [75, 76] && e.decrypted.None?
            && e.from == from && e.to == to
  {
    var m := NewMessage(from, to, Lit("HI"));
    assert m.content == [72, 73];
    assert Codes(m.content) == [72, 73];
    var e := Encrypt(m, 3);
    assert e.encrypted.value == [75, 76] by {
      assert Wrap32(72 + 3) == 75 && Wrap32(73 + 3) == 76;
    }
    assert e.content == [75, 76] by {
      assert CastChar(72 + 3) == 75 && CastChar(73 + 3) == 76;
    }
  }

  /** Two values are listed as two bracketed numbers. */
  lemma OutputOfTwo(x: int, y: int)
    ensures Output([x, y]) == Bracket(x) + Bracket(y)
  {
    assert [x, y][1..] == [y];
    assert Output([y]) == Bracket(y) + Output([]);
  }

  /** The encoded listing of "HI". */
  lemma HiEncodedListing(m: Message)
    requires m.encoded == Some([72, 73])
    ensures GetEncoded(m) == Lit("encoded: [72][73]")
  {
    OutputOfTwo(72, 73);
    assert Bracket(72) == [91, 55, 50, 93] && Bracket(73) == [91, 55, 51, 93];
    LitConcat("encoded: ", "[72][73]");
    assert "encoded: " + "[72][73]" == "encoded: [72][73]";
    assert Lit("[72][73]") == [91, 55, 50, 93] + [91, 55, 51, 93];
  }

  /** The encrypted listing of "HI" under key 3. */
  lemma HiEncryptedListing(m: Message)
    requires m.encrypted == Some([75, 76])
    ensures GetEncrypted(m) == Lit("encrypted: [75][76]")
  {
    OutputOfTwo(75, 76);
    assert Bracket(75) == [91, 55, 53, 93] && Bracket(76) == [91, 55, 54, 93];
    LitConcat("encrypted: ", "[75][76]");
    assert "encrypted: " + "[75][76]" == "encrypted: [75][76]";
    assert Lit("[75][76]") == [91, 55, 53, 93] + [91, 55, 54, 93];
  }

  /** A level-1B agent holding the encrypted "HI" from a level-1A sender
      walks its inbox with the single key 3 and gets "HI" back. */
  lemma HiDecryptedWithThree(self: SecretAgent, e: Message)
    requires self.agent.clearance == Some(Level1B) && e.from.clearance == Some(Level1A)
    requires e.encrypted == Some([75, 76]) && e.content == [75, 76]
    ensures var walk := DecryptAllRec(self, [e], [3], 0);
            walk.outcome == Completed && walk.messages[0].content == Lit("HI")
  {
    assert WithinClearance(Level1B, Level1A);
    var d := Decrypt(e, 3);
    DecryptedContent(e, 3);
    assert e.content[..2] == [75, 76];
    assert d.value.content == [72, 73] by {
      assert CastChar(75 - 3) == 72 && CastChar(76 - 3) == 73;
    }
    assert DecryptOne(self, e, 3) == Step(d.value, None);
    var walk := DecryptAllRec(self, [e], [3], 0);
    assert walk.messages == [d.value] + DecryptAllRec(self, [e][1..], [3], 1).messages;
  }

  /** Any named agent of rank 1 can send "HI" with key 3 to any named agent
      of rank 2 whose inbox is empty; the receiver decrypts it with the same
      key. */
  lemma HiSentOneRankUp(a: SecretAgent, b: SecretAgent)
    requires a.agent.name.Some? && b.agent.name.Some?
    requires a.agent.clearance == Some(Level1A) && b.agent.clearance == Some(Level1B)
    requires |b.inbox.messages| == 0
    ensures var msg := NewMessage(a.agent, b.agent, Lit("HI"));
            var sent := Send(a, b, msg, 3);
            && sent.Delivered?
            && var delivered := sent.receiver.inbox.messages[0];
               && GetEncoded(delivered) == Lit("encoded: [72][73]")
               && GetEncrypted(delivered) == Lit("encrypted: [75][76]")
               && GetDecrypted(delivered) == Lit("<not decrypted>")
               && delivered.content == [75, 76]
               && var walk := DecryptAllRec(sent.receiver, sent.receiver.inbox.messages, [3], 0);
                  walk.outcome == Completed && walk.messages[0].content == Lit("HI")
  {
    var msg := NewMessage(a.agent, b.agent, Lit("HI"));
    assert WithinClearance(Level1A, Level1B);
    var sent := Send(a, b, msg, 3);
    var delivered := Encrypt(msg, 3);
    assert sent.receiver.inbox.messages == [delivered];
    HiEncryptedWithThree(a.agent, b.agent);
    HiEncodedListing(delivered);
    HiEncryptedListing(delivered);
    HiDecryptedWithThree(sent.receiver, delivered);
  }

  /** An agent of rank 1 sends "HI" with key 3 to an agent of rank 2; the
      receiver decrypts it with the same key. */
  lemma SendAndDecryptHi()
    ensures var a := NewSecretAgent(Some(Lit("A")), Some(Lit("Alpha")), Some(Level1A), InitialCounter());
            var b := NewSecretAgent(Some(Lit("B")), Some(Lit("Bravo")), Some(Level1B), a.ids);
            var msg := NewMessage(a.secret.agent, b.secret.agent, Lit("HI"));
            var sent := Send(a.secret, b.secret, msg, 3);
            && sent.Delivered?
            && var delivered := sent.receiver.inbox.messages[0];
               && GetEncoded(delivered) == Lit("encoded: [72][73]")
               && GetEncrypted(delivered) == Lit("encrypted: [75][76]")
               && GetDecrypted(delivered) == Lit("<not decrypted>")
               && delivered.content == [75, 76]
               && var walk := DecryptAllRec(sent.receiver, sent.receiver.inbox.messages, [3], 0);
                  walk.outcome == Completed && walk.messages[0].content == Lit("HI")
  {
    var a := NewSecretAgent(Some(Lit("A")), Some(Lit("Alpha")), Some(Level1A), InitialCounter());
    var b := NewSecretAgent(Some(Lit("B")), Some(Lit("Bravo")), Some(Level1B), a.ids);
    HiSentOneRankUp(a.secret, b.secret);
  }
}
