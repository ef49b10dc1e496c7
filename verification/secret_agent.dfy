/** The secret-agent protocol: an agent that owns an inbox, sends encrypted
    messages through three ordered gates, and decrypts its inbox newest first
    with a sequence of keys. */
module SecretAgents {
  import opened JavaTypes
  import opened Clearances
  import opened Agents
  import opened Messages
  import opened Inboxes

  /** How many ranks above the sender a receiver may be. */
  const MaxClearanceDifference: int := 1

  datatype SecretAgent = SecretAgent(agent: Agent, inbox: Inbox)

  /** A newly built secret agent together with the ID counter after it. */
  datatype BuiltSecret = BuiltSecret(secret: SecretAgent, ids: IdCounter)

  /** The three reasons `send` refuses, in the order it checks them. */
  datatype SendFailure = SenderMismatch | ReceiverMismatch | InsufficientClearance

  /** Where `send` dereferences null and throws: the message's sender has no
      name (the first check calls `equals` on it), its receiver has no name
      (the second check), or a clearance the third check compares is null. */
  datatype SendFault = NullSenderName | NullReceiverName | NullClearance

  /** `Delivered` carries the receiver with the message in its inbox. */
  datatype SendResult =
    | Delivered(receiver: SecretAgent)
    | Refused(reason: SendFailure)
    | Thrown(fault: SendFault)

  /** Why handling one inbox message throws: `hierarchyVal` meets a null
      clearance, or `decrypt` itself throws. */
  datatype DecryptFault = NoClearance | DecryptFailed(error: DecryptError)

  /** One message handled by the walk: its state afterwards, and the fault
      if handling it threw. */
  datatype Step = Step(message: Message, fault: Option<DecryptFault>)

  /** How `decryptAll` ends: it reached the end of the chain, ran out of keys
      (non-fatal), or threw while handling the message that got key `index`. */
  datatype DecryptOutcome = Completed | NotEnoughKeys | Faulted(index: nat, fault: DecryptFault)

  /** The chain after a walk, and how the walk ended. */
  datatype DecryptReport = DecryptReport(messages: seq<Message>, outcome: DecryptOutcome)

  /** The constructor: an agent built with a clearance, and an empty inbox.
      Any argument may be null; a null clearance makes every later `send`
      from or to the agent throw at the clearance check. */
  function NewSecretAgent(name: Option<JString>, codeName: Option<JString>, clearance: Option<Clearance>,
                          ids: IdCounter): (r: BuiltSecret)
    ensures r.secret.agent.clearance == clearance
    ensures r.secret.agent.name == name && r.secret.agent.codeName == codeName
    ensures r.secret.agent.id == ids.next && r.ids.next == Wrap32(ids.next + 1)
    ensures SplitUid(r.secret.agent.uid) == Some((OrNull(codeName), ids.next as int))
    ensures |r.secret.inbox.messages| == 0
  {
    var built := NewClearedAgent(name, codeName, clearance, ids);
    BuiltSecret(SecretAgent(built.agent, EmptyInbox()), built.ids)
  }

  /** `hierarchyVal`: how many ranks `level` lies above the agent's own;
      `None` where either clearance is null and the call throws. */
  function HierarchyVal(self: SecretAgent, level: Option<Clearance>): (r: Option<int>)
    ensures r.None? <==> level.None? || self.agent.clearance.None?
    ensures r.Some? ==> (r.value == 0 <==> level.value == self.agent.clearance.value)
    ensures r.Some? ==> (r.value > 0 <==> Rank(level.value) > Rank(self.agent.clearance.value))
    ensures r.Some? ==> -3 <= r.value <= 3
  {
    if level.None? || self.agent.clearance.None? then None
    else Some(Rank(level.value) - Rank(self.agent.clearance.value))
  }

  /** Measuring from either end gives the same distance with opposite signs. */
  lemma HierarchyAntisymmetric(a: SecretAgent, b: SecretAgent)
    requires a.agent.clearance.Some? && b.agent.clearance.Some?
    ensures HierarchyVal(a, b.agent.clearance).value == -HierarchyVal(b, a.agent.clearance).value
  {
  }

  /** Whether the clearance gate lets `level` through for an agent of rank
      `own`. */
  predicate WithinClearance(own: Clearance, level: Clearance) {
    Rank(level) - Rank(own) <= MaxClearanceDifference
  }

  /** Both names on the message match the two agents. */
  predicate Addressed(self: SecretAgent, receiver: SecretAgent, msg: Message) {
    && msg.from.name.Some? && msg.from.name == self.agent.name
    && msg.to.name.Some? && msg.to.name == receiver.agent.name
  }

  /** `send`: checks the message's sender name against the caller's, then
      its receiver name against the receiver's, then the receiver's clearance;
      the first failing check refuses the send and nothing is changed.
      Otherwise the message is encrypted with `key` and received. */
  function Send(self: SecretAgent, receiver: SecretAgent, msg: Message, key: Int32): (r: SendResult)
    ensures r == Thrown(NullSenderName) <==> msg.from.name.None?
    ensures r == Refused(SenderMismatch) <==> msg.from.name.Some? && msg.from.name != self.agent.name
    ensures r == Thrown(NullReceiverName) <==>
              msg.from.name.Some? && msg.from.name == self.agent.name && msg.to.name.None?
    ensures r == Refused(ReceiverMismatch) <==>
              msg.from.name.Some? && msg.from.name == self.agent.name
              && msg.to.name.Some? && msg.to.name != receiver.agent.name
    ensures r == Thrown(NullClearance) <==>
              Addressed(self, receiver, msg) && (self.agent.clearance.None? || receiver.agent.clearance.None?)
    ensures r == Refused(InsufficientClearance) <==>
              Addressed(self, receiver, msg) && self.agent.clearance.Some? && receiver.agent.clearance.Some?
              && !WithinClearance(self.agent.clearance.value, receiver.agent.clearance.value)
    ensures r.Delivered? <==>
              Addressed(self, receiver, msg) && self.agent.clearance.Some? && receiver.agent.clearance.Some?
              && WithinClearance(self.agent.clearance.value, receiver.agent.clearance.value)
    ensures r.Delivered? ==> r.receiver.agent == receiver.agent
    ensures r.Delivered? ==> r.receiver.inbox.messages == [Encrypt(msg, key)] + receiver.inbox.messages
  {
    if msg.from.name.None? then
      Thrown(NullSenderName)
    else if msg.from.name != self.agent.name then
      Refused(SenderMismatch)
    else if msg.to.name.None? then
      Thrown(NullReceiverName)
    else if msg.to.name != receiver.agent.name then
      Refused(ReceiverMismatch)
    else
      match HierarchyVal(self, receiver.agent.clearance)
      case None => Thrown(NullClearance)
      case Some(h) =>
        if h > MaxClearanceDifference then Refused(InsufficientClearance)
        else Delivered(receiver.(inbox := Receive(receiver.inbox, Encrypt(msg, key))))
  }

  /** The first gate decides alone: a sender name that does not match
      refuses the send whatever the receiver, clearances and key. */
  lemma SenderGateComesFirst(self: SecretAgent, receiver: SecretAgent, msg: Message, key: Int32)
    requires msg.from.name.Some? && msg.from.name != self.agent.name
    ensures Send(self, receiver, msg, key) == Refused(SenderMismatch)
  {
  }

  /** The clearance gate at its boundary: one rank up passes, two fail. */
  lemma ClearanceGateBoundary(self: SecretAgent, receiver: SecretAgent, msg: Message, key: Int32)
    requires self.agent.clearance.Some? && receiver.agent.clearance.Some?
    requires Addressed(self, receiver, msg)
    ensures Rank(receiver.agent.clearance.value) == Rank(self.agent.clearance.value) + 1
            ==> Send(self, receiver, msg, key).Delivered?
    ensures Rank(receiver.agent.clearance.value) == Rank(self.agent.clearance.value) + 2
            ==> Send(self, receiver, msg, key) == Refused(InsufficientClearance)
  {
  }

  /** What `decryptAllRec` does to one message with one key: a sender more
      than one rank above the agent is skipped and the message left as it
      is; otherwise it is decrypted, and a throwing `decrypt` leaves the
      message as `DecryptLeftover` describes. */
  function DecryptOne(self: SecretAgent, m: Message, key: Int32): (r: Step)
    ensures m.from.clearance.None? || self.agent.clearance.None? ==> r == Step(m, Some(NoClearance))
    ensures m.from.clearance.Some? && self.agent.clearance.Some?
            && !WithinClearance(self.agent.clearance.value, m.from.clearance.value)
            ==> r == Step(m, None)
    ensures m.from.clearance.Some? && self.agent.clearance.Some?
            && WithinClearance(self.agent.clearance.value, m.from.clearance.value)
            ==> match Decrypt(m, key)
                case Success(d) => r == Step(d, None)
                case Failure(e) => r == Step(DecryptLeftover(m, key), Some(DecryptFailed(e)))
  {
    match HierarchyVal(self, m.from.clearance)
    case None => Step(m, Some(NoClearance))
    case Some(h) =>
      if h > MaxClearanceDifference then Step(m, None)
      else
        match Decrypt(m, key)
        case Success(d) => Step(d, None)
        case Failure(e) => Step(DecryptLeftover(m, key), Some(DecryptFailed(e)))
  }

  /** What a walk does to one message with the key it gets. */
  type Handler = (Message, Int32) -> Step

  /** The agent's handler: `DecryptOne` for this agent. */
  function Handle(self: SecretAgent): Handler {
    (m: Message, key: Int32) => DecryptOne(self, m, key)
  }

  /** How many of the chain's messages have a key, starting from key `index`. */
  function Keyed(ms: seq<Message>, keys: seq<Int32>, index: nat): (k: nat)
    requires index <= |keys|
    ensures k <= |ms| && index + k <= |keys|
    ensures k == |ms| || index + k == |keys|
  {
    if |ms| <= |keys| - index then |ms| else |keys| - index
  }

  /** The first `n` messages are handled without a fault. */
  predicate HandledCleanly(h: Handler, ms: seq<Message>, keys: seq<Int32>, index: nat, n: nat)
    requires n <= |ms| && index + n <= |keys|
  {
    forall j :: 0 <= j < n ==> h(ms[j], keys[index + j]).fault.None?
  }

  /** How many messages a walk with this outcome visited: all that have a
      key, or those up to and including the one that threw. */
  function Visited(outcome: DecryptOutcome, index: nat, keyed: nat): int {
    if outcome.Faulted? then outcome.index - index + 1 else keyed
  }

  /** The recursion of `decryptAllRec` for any handler: the i-th message of
      the chain is handled with `keys[index + i]` until the chain ends, the
      keys run out, or handling a message throws. The chain keeps its length
      and order: messages are changed in place. */
  function Walk(h: Handler, ms: seq<Message>, keys: seq<Int32>, index: nat): (r: DecryptReport)
    ensures |r.messages| == |ms|
    decreases |ms|
  {
    if |ms| == 0 then
      DecryptReport(ms, Completed)
    else if index >= |keys| then
      DecryptReport(ms, NotEnoughKeys)
    else
      var step := h(ms[0], keys[index]);
      if step.fault.Some? then
        DecryptReport([step.message] + ms[1..], Faulted(index, step.fault.value))
      else
        var rest := Walk(h, ms[1..], keys, index + 1);
        DecryptReport([step.message] + rest.messages, rest.outcome)
  }

  /** `decryptAllRec(current, keys, index)`: the walk from `current` with the
      agent's own handler. */
  function DecryptAllRec(self: SecretAgent, ms: seq<Message>, keys: seq<Int32>, index: nat): (r: DecryptReport)
    ensures |r.messages| == |ms|
  {
    Walk(Handle(self), ms, keys, index)
  }

  /** A first message handled without a fault is followed by the walk of
      the rest with the next key, which visits one message fewer. */
  lemma CleanStep(h: Handler, ms: seq<Message>, keys: seq<Int32>, index: nat)
    requires 0 < |ms| && index < |keys|
    requires h(ms[0], keys[index]).fault.None?
    ensures var r := Walk(h, ms, keys, index);
            var rest := Walk(h, ms[1..], keys, index + 1);
            && r.messages == [h(ms[0], keys[index]).message] + rest.messages
            && r.outcome == rest.outcome
            && Visited(r.outcome, index, Keyed(ms, keys, index))
               == Visited(rest.outcome, index + 1, Keyed(ms[1..], keys, index + 1)) + 1
  {
  }

  /** A clean prefix of the rest, extended by a clean first message, is a
      clean prefix of the chain. */
  lemma CleanPrefixStep(h: Handler, ms: seq<Message>, keys: seq<Int32>, index: nat, n: nat)
    requires 0 < n <= |ms| && index + n <= |keys|
    requires h(ms[0], keys[index]).fault.None?
    requires HandledCleanly(h, ms[1..], keys, index + 1, n - 1)
    ensures HandledCleanly(h, ms, keys, index, n)
  {
    forall j | 0 < j < n
      ensures h(ms[j], keys[index + j]).fault.None?
    {
      var k := j - 1;
      assert ms[1..][k] == ms[j] && keys[index + 1 + k] == keys[index + j];
    }
  }

  /** A fault names the first message whose handling throws, every earlier
      message having been handled cleanly. */
  lemma {:induction false} WalkFault(h: Handler, ms: seq<Message>, keys: seq<Int32>, index: nat)
    requires index <= |keys|
    ensures var r := Walk(h, ms, keys, index);
            r.outcome.Faulted? ==>
              var f := r.outcome.index - index;
              0 <= f < Keyed(ms, keys, index)
              && HandledCleanly(h, ms, keys, index, f)
              && h(ms[f], keys[r.outcome.index]).fault == Some(r.outcome.fault)
    decreases |ms|
  {
    if |ms| > 0 && index < |keys| {
      var r := Walk(h, ms, keys, index);
      if h(ms[0], keys[index]).fault.None? && r.outcome.Faulted? {
        WalkFault(h, ms[1..], keys, index + 1);
        CleanStep(h, ms, keys, index);
        assert Keyed(ms, keys, index) == Keyed(ms[1..], keys, index + 1) + 1;
        var f := r.outcome.index - index;
        CleanPrefixStep(h, ms, keys, index, f);
        assert ms[1..][f - 1] == ms[f];
      }
    }
  }

  /** Without a fault, every message that has a key is handled cleanly. */
  lemma {:induction false} WalkClean(h: Handler, ms: seq<Message>, keys: seq<Int32>, index: nat)
    requires index <= |keys|
    ensures var r := Walk(h, ms, keys, index);
            !r.outcome.Faulted? ==> HandledCleanly(h, ms, keys, index, Keyed(ms, keys, index))
    decreases |ms|
  {
    if |ms| > 0 && index < |keys| {
      var r := Walk(h, ms, keys, index);
      if h(ms[0], keys[index]).fault.None? && !r.outcome.Faulted? {
        WalkClean(h, ms[1..], keys, index + 1);
        CleanStep(h, ms, keys, index);
        var k := Keyed(ms, keys, index);
        assert k == Keyed(ms[1..], keys, index + 1) + 1;
        CleanPrefixStep(h, ms, keys, index, k);
      }
    }
  }

  /** "Not enough keys" is reported exactly when no fault occurs and fewer
      keys than messages remain. */
  lemma {:induction false} WalkNotEnoughKeys(h: Handler, ms: seq<Message>, keys: seq<Int32>, index: nat)
    requires index <= |keys|
    ensures var r := Walk(h, ms, keys, index);
            r.outcome == NotEnoughKeys <==> !r.outcome.Faulted? && |keys| - index < |ms|
    decreases |ms|
  {
    if |ms| > 0 && index < |keys| && h(ms[0], keys[index]).fault.None? {
      WalkNotEnoughKeys(h, ms[1..], keys, index + 1);
      CleanStep(h, ms, keys, index);
    }
  }

  /** The walk visits at most the messages that have a key. */
  lemma WalkBounds(h: Handler, ms: seq<Message>, keys: seq<Int32>, index: nat)
    requires index <= |keys|
    ensures var v := Visited(Walk(h, ms, keys, index).outcome, index, Keyed(ms, keys, index));
            0 <= v <= |ms| && index + v <= |keys|
  {
    WalkFault(h, ms, keys, index);
  }

  /** The first `v` messages, each as handling it with the key of its
      position leaves it. */
  function HandledPrefix(h: Handler, ms: seq<Message>, keys: seq<Int32>, index: nat, v: nat): (r: seq<Message>)
    requires v <= |ms| && index + v <= |keys|
    ensures |r| == v
    decreases v
  {
    if v == 0 then [] else [h(ms[0], keys[index]).message] + HandledPrefix(h, ms[1..], keys, index + 1, v - 1)
  }

  /** Position `j` of the handled prefix is message `j` handled with key
      `index + j`. */
  lemma {:induction false} HandledPrefixAt(h: Handler, ms: seq<Message>, keys: seq<Int32>, index: nat, v: nat)
    requires v <= |ms| && index + v <= |keys|
    ensures forall j :: 0 <= j < v ==>
              HandledPrefix(h, ms, keys, index, v)[j] == h(ms[j], keys[index + j]).message
    decreases v
  {
    if v > 0 {
      var p := HandledPrefix(h, ms, keys, index, v);
      var rest := HandledPrefix(h, ms[1..], keys, index + 1, v - 1);
      HandledPrefixAt(h, ms[1..], keys, index + 1, v - 1);
      forall j | 0 < j < v
        ensures p[j] == h(ms[j], keys[index + j]).message
      {
        var k := j - 1;
        assert ms[1..][k] == ms[j] && keys[index + 1 + k] == keys[index + j];
        assert p[j] == rest[k];
      }
    }
  }

  /** The walk replaces the messages it visits by their handled prefix. */
  lemma {:induction false} WalkPrefix(h: Handler, ms: seq<Message>, keys: seq<Int32>, index: nat)
    requires index <= |keys|
    ensures var r := Walk(h, ms, keys, index);
            var v := Visited(r.outcome, index, Keyed(ms, keys, index));
            0 <= v <= |ms| && index + v <= |keys|
            && r.messages[..v] == HandledPrefix(h, ms, keys, index, v)
    decreases |ms|
  {
    WalkBounds(h, ms, keys, index);
    if |ms| > 0 && index < |keys| {
      var r := Walk(h, ms, keys, index);
      var step := h(ms[0], keys[index]);
      var v := Visited(r.outcome, index, Keyed(ms, keys, index));
      if step.fault.None? {
        var rest := Walk(h, ms[1..], keys, index + 1);
        WalkPrefix(h, ms[1..], keys, index + 1);
        CleanStep(h, ms, keys, index);
        assert r.messages[..v] == [step.message] + rest.messages[..v - 1];
      } else {
        assert r.messages == [step.message] + ms[1..];
        assert r.messages[..v] == [step.message];
      }
    }
  }

  /** The messages after the last visited one are left as they were. */
  lemma {:induction false} WalkUntouched(h: Handler, ms: seq<Message>, keys: seq<Int32>, index: nat)
    requires index <= |keys|
    ensures var r := Walk(h, ms, keys, index);
            forall j :: 0 <= j < |ms| && Visited(r.outcome, index, Keyed(ms, keys, index)) <= j ==>
              r.messages[j] == ms[j]
    decreases |ms|
  {
    if |ms| > 0 && index < |keys| {
      var r := Walk(h, ms, keys, index);
      var step := h(ms[0], keys[index]);
      if step.fault.None? {
        var rest := Walk(h, ms[1..], keys, index + 1);
        WalkUntouched(h, ms[1..], keys, index + 1);
        WalkBounds(h, ms[1..], keys, index + 1);
        CleanStep(h, ms, keys, index);
        var v := Visited(r.outcome, index, Keyed(ms, keys, index));
        forall j | v <= j < |ms|
          ensures r.messages[j] == ms[j]
        {
          assert r.messages[j] == rest.messages[j - 1];
          assert ms[1..][j - 1] == ms[j];
        }
      } else {
        assert r.messages == [step.message] + ms[1..];
        forall j | 1 <= j < |ms|
          ensures r.messages[j] == ms[j]
        {
          assert ms[1..][j - 1] == ms[j];
        }
      }
    }
  }

  /** A fault names the first message whose handling by the agent throws,
      every earlier message having been handled cleanly. */
  lemma DecryptAllRecFault(self: SecretAgent, ms: seq<Message>, keys: seq<Int32>, index: nat)
    requires index <= |keys|
    ensures var r := DecryptAllRec(self, ms, keys, index);
            r.outcome.Faulted? ==>
              var f := r.outcome.index - index;
              0 <= f < Keyed(ms, keys, index)
              && (forall j :: 0 <= j < f ==> DecryptOne(self, ms[j], keys[index + j]).fault.None?)
              && DecryptOne(self, ms[f], keys[r.outcome.index]).fault == Some(r.outcome.fault)
  {
    WalkFault(Handle(self), ms, keys, index);
  }

  /** Without a fault, every message that has a key is handled cleanly by
      the agent. */
  lemma DecryptAllRecClean(self: SecretAgent, ms: seq<Message>, keys: seq<Int32>, index: nat)
    requires index <= |keys|
    ensures var r := DecryptAllRec(self, ms, keys, index);
            !r.outcome.Faulted? ==>
              forall j :: 0 <= j < Keyed(ms, keys, index) ==> DecryptOne(self, ms[j], keys[index + j]).fault.None?
  {
    WalkClean(Handle(self), ms, keys, index);
  }

  /** "Not enough keys" is reported exactly when no fault occurs and fewer
      keys than messages remain. */
  lemma DecryptAllRecNotEnoughKeys(self: SecretAgent, ms: seq<Message>, keys: seq<Int32>, index: nat)
    requires index <= |keys|
    ensures var r := DecryptAllRec(self, ms, keys, index);
            r.outcome == NotEnoughKeys <==> !r.outcome.Faulted? && |keys| - index < |ms|
  {
    WalkNotEnoughKeys(Handle(self), ms, keys, index);
  }

  /** Each visited message is replaced, in place, by its state after being
      handled with the key of the same position; this includes the message
      whose handling threw. */
  lemma DecryptAllRecVisited(self: SecretAgent, ms: seq<Message>, keys: seq<Int32>, index: nat)
    requires index <= |keys|
    ensures var r := DecryptAllRec(self, ms, keys, index);
            var v := Visited(r.outcome, index, Keyed(ms, keys, index));
            0 <= v <= |ms| && index + v <= |keys|
            && forall j :: 0 <= j < v ==> r.messages[j] == DecryptOne(self, ms[j], keys[index + j]).message
  {
    var h := Handle(self);
    var r := Walk(h, ms, keys, index);
    var v := Visited(r.outcome, index, Keyed(ms, keys, index));
    WalkPrefix(h, ms, keys, index);
    HandledPrefixAt(h, ms, keys, index, v);
    forall j | 0 <= j < v
      ensures r.messages[j] == DecryptOne(self, ms[j], keys[index + j]).message
    {
      assert r.messages[j] == r.messages[..v][j];
    }
  }

  /** The messages after the last visited one are left as they were. */
  lemma DecryptAllRecUntouched(self: SecretAgent, ms: seq<Message>, keys: seq<Int32>, index: nat)
    requires index <= |keys|
    ensures var r := DecryptAllRec(self, ms, keys, index);
            forall j :: 0 <= j < |ms| && Visited(r.outcome, index, Keyed(ms, keys, index)) <= j ==>
              r.messages[j] == ms[j]
  {
    WalkUntouched(Handle(self), ms, keys, index);
  }

  /** A walk result with `done` placed in front of its messages. */
  function After(done: seq<Message>, rest: DecryptReport): DecryptReport {
    DecryptReport(done + rest.messages, rest.outcome)
  }

  /** One step of the walk: handling the first message without a fault and
      walking the rest with the next key. */
  lemma WalkStep(h: Handler, done: seq<Message>, ms: seq<Message>, keys: seq<Int32>, index: nat, m: Message)
    requires 0 < |ms| && index < |keys|
    requires h(ms[0], keys[index]) == Step(m, None)
    ensures After(done, Walk(h, ms, keys, index)) == After(done + [m], Walk(h, ms[1..], keys, index + 1))
  {
  }

  /** A first message whose handling throws ends the walk with the fault;
      the rest of the chain is left as it was. */
  lemma WalkThrow(h: Handler, ms: seq<Message>, keys: seq<Int32>, index: nat)
    requires 0 < |ms| && index < |keys|
    requires h(ms[0], keys[index]).fault.Some?
    ensures var step := h(ms[0], keys[index]);
            Walk(h, ms, keys, index) == DecryptReport([step.message] + ms[1..], Faulted(index, step.fault.value))
  {
  }

  /** Replacing position `i` is cutting the chain there and putting the new
      element between the two parts. */
  lemma UpdateSplit(ms: seq<Message>, i: nat, m: Message)
    requires i < |ms|
    ensures ms[i := m] == ms[..i] + ([m] + ms[i + 1..])
  {
  }

  /** `decryptAll(keys)`, as a loop over the chain: the walk
      `decryptAllRec(inbox.getRecent(), keys, 0)` performs, without recursion.
      The agent itself is unchanged; only its inbox's messages are. */
  method DecryptAll(self: SecretAgent, keys: seq<Int32>) returns (r: SecretAgent, outcome: DecryptOutcome)
    ensures r.agent == self.agent
    ensures DecryptReport(r.inbox.messages, outcome) == DecryptAllRec(self, self.inbox.messages, keys, 0)
    ensures |r.inbox.messages| == |self.inbox.messages|
    ensures outcome == NotEnoughKeys <==> !outcome.Faulted? && |keys| < |self.inbox.messages|
    ensures forall j :: |keys| <= j < |self.inbox.messages| ==> r.inbox.messages[j] == self.inbox.messages[j]
  {
    var h := Handle(self);
    var original := self.inbox.messages;
    var ms := original;
    var i := 0;
    outcome := Completed;
    assert original[0..] == original;
    while i < |ms|
      invariant 0 <= i <= |ms| == |original|
      invariant i <= |keys|
      invariant ms[i..] == original[i..]
      invariant Walk(h, original, keys, 0) == After(ms[..i], Walk(h, original[i..], keys, i))
    {
      if i >= |keys| {
        outcome := NotEnoughKeys;
        break;
      }
      var step := h(ms[i], keys[i]);
      if step.fault.Some? {
        ThrowStep(h, original, keys, ms, i);
        ms, outcome := ms[i := step.message], Faulted(i, step.fault.value);
        r := self.(inbox := Inbox(ms));
        WalkFacts(h, original, keys);
        return;
      }
      AdvanceStep(h, original, keys, ms, i, step.message);
      ms := ms[i := step.message];
      i := i + 1;
    }
    assert ms == ms[..i] + ms[i..];
    r := self.(inbox := Inbox(ms));
    WalkFacts(h, original, keys);
  }

  /** One iteration of `DecryptAll`: once the handled message replaces the
      one at position `i`, the rest of the walk is what remains of the whole. */
  lemma AdvanceStep(h: Handler, original: seq<Message>, keys: seq<Int32>,
                    ms: seq<Message>, i: nat, m: Message)
    requires i < |ms| == |original| && i < |keys|
    requires ms[i..] == original[i..]
    requires h(ms[i], keys[i]) == Step(m, None)
    requires Walk(h, original, keys, 0) == After(ms[..i], Walk(h, original[i..], keys, i))
    ensures ms[i := m][i + 1..] == original[i + 1..]
    ensures Walk(h, original, keys, 0) == After(ms[i := m][..i + 1], Walk(h, original[i + 1..], keys, i + 1))
  {
    var before := ms[..i];
    WalkStep(h, before, original[i..], keys, i, m);
    assert original[i..][1..] == original[i + 1..];
    assert ms[i := m][..i + 1] == before + [m];
  }

  /** The last iteration of `DecryptAll` when handling the message at `i`
      throws: that message takes the state the throw left it in, and the
      walk ends with the fault. */
  lemma ThrowStep(h: Handler, original: seq<Message>, keys: seq<Int32>, ms: seq<Message>, i: nat)
    requires i < |ms| == |original| && i < |keys|
    requires ms[i..] == original[i..]
    requires h(ms[i], keys[i]).fault.Some?
    requires Walk(h, original, keys, 0) == After(ms[..i], Walk(h, original[i..], keys, i))
    ensures var step := h(ms[i], keys[i]);
            Walk(h, original, keys, 0) == DecryptReport(ms[i := step.message], Faulted(i, step.fault.value))
  {
    var step := h(ms[i], keys[i]);
    var tail := original[i..];
    assert tail[0] == ms[i] && tail[1..] == ms[i + 1..];
    WalkThrow(h, tail, keys, i);
    UpdateSplit(ms, i, step.message);
  }

  /** The facts `DecryptAll` states about the walk from the newest message. */
  lemma WalkFacts(h: Handler, ms: seq<Message>, keys: seq<Int32>)
    ensures var r := Walk(h, ms, keys, 0);
            (r.outcome == NotEnoughKeys <==> !r.outcome.Faulted? && |keys| < |ms|)
            && forall j :: |keys| <= j < |ms| ==> r.messages[j] == ms[j]
  {
    WalkNotEnoughKeys(h, ms, keys, 0);
    WalkBounds(h, ms, keys, 0);
    WalkUntouched(h, ms, keys, 0);
  }

  /** At every visited position `j` the key used is `keys[index + j]`,
      whether or not earlier messages were skipped: a message whose sender
      is more than one rank above the agent is left as it was, and one
      within range is decrypted with the key of its own position. */
  lemma SkippedMessagesUseKeys(self: SecretAgent, ms: seq<Message>, keys: seq<Int32>, index: nat)
    requires index <= |keys| && self.agent.clearance.Some?
    ensures var r := DecryptAllRec(self, ms, keys, index);
            var v := Visited(r.outcome, index, Keyed(ms, keys, index));
            0 <= v <= |ms| && index + v <= |keys|
            && forall j :: 0 <= j < v && ms[j].from.clearance.Some? ==>
                 var within := WithinClearance(self.agent.clearance.value, ms[j].from.clearance.value);
                 && (!within ==> r.messages[j] == ms[j])
                 && (within && Decrypt(ms[j], keys[index + j]).Success? ==>
                       r.messages[j] == Decrypt(ms[j], keys[index + j]).value)
  {
    DecryptAllRecVisited(self, ms, keys, index);
  }

  /** A message whose sender is more than one rank above the agent is left
      as it is, yet uses up its key: the next message gets the next key. */
  lemma SkippedMessageUsesKey(self: SecretAgent, ms: seq<Message>, keys: seq<Int32>)
    requires self.agent.clearance.Some?
    requires |ms| >= 2 && |keys| >= 2
    requires ms[0].from.clearance.Some?
    requires !WithinClearance(self.agent.clearance.value, ms[0].from.clearance.value)
    requires ms[1].from.clearance.Some?
    requires WithinClearance(self.agent.clearance.value, ms[1].from.clearance.value)
    requires Decrypt(ms[1], keys[1]).Success?
    ensures DecryptAllRec(self, ms, keys, 0).messages[0] == ms[0]
    ensures DecryptAllRec(self, ms, keys, 0).messages[1] == Decrypt(ms[1], keys[1]).value
  {
    var h := Handle(self);
    assert h(ms[0], keys[0]) == Step(ms[0], None);
    assert h(ms[1], keys[1]) == Step(Decrypt(ms[1], keys[1]).value, None);
    CleanStep(h, ms, keys, 0);
    assert ms[1..][0] == ms[1];
    CleanStep(h, ms[1..], keys, 1);
  }
}
