/** Agent identity: names, clearance, and the ID/UID assigned once at
    construction from a process-wide counter. */
module Agents {
  import opened JavaTypes
  import opened Clearances

  /** The seed of the ID counter: the first agent constructed gets this ID. */
  const FirstAgentId: Int32 := 549321

  const AtChar: Char16 := 64

  /** An agent. `name`, `codeName` and `clearance` are `None` where the
      constructor used leaves the Java field `null`; `uid` and `id` are fixed
      when the agent is built. */
  datatype Agent = Agent(
    name: Option<JString>,
    codeName: Option<JString>,
    uid: JString,
    id: Int32,
    clearance: Option<Clearance>)

  /** The process-wide counter made explicit: the ID the next agent gets. */
  datatype IdCounter = IdCounter(next: Int32)

  /** A newly built agent together with the counter after its construction. */
  datatype Built = Built(agent: Agent, ids: IdCounter)

  function InitialCounter(): IdCounter {
    IdCounter(FirstAgentId)
  }

  /** The counter after one post-increment: one more, except that the
      largest Java `int` wraps round to the smallest. */
  function Advance(ids: IdCounter): (r: IdCounter)
    ensures ids.next < TwoTo31 - 1 ==> r.next == ids.next + 1
    ensures ids.next == TwoTo31 - 1 ==> r.next == -TwoTo31
  {
    IdCounter(Wrap32(ids.next + 1))
  }

  /** The position of the last `@` in `s`, if any. */
  function LastAt(s: JString): (r: Option<nat>)
    ensures r.Some? ==> r.value < |s| && s[r.value] == AtChar
    ensures r.Some? ==> forall j :: r.value < j < |s| ==> s[j] != AtChar
    ensures r.None? ==> forall j :: 0 <= j < |s| ==> s[j] != AtChar
  {
    if |s| == 0 then None
    else if s[|s| - 1] == AtChar then Some(|s| - 1)
    else LastAt(s[..|s| - 1])
  }

  /** Reads a UID back as the code name before its last `@` and the number
      after it. */
  function SplitUid(uid: JString): Option<(JString, int)> {
    match LastAt(uid)
    case None => None
    case Some(k) =>
      match ParseDecimal(uid[k + 1..])
      case None => None
      case Some(n) => Some((uid[..k], n))
  }

  /** A UID that splits into a code name and a number is exactly that code
      name, `@` and the number's decimal rendering. */
  lemma UidFromSplit(uid: JString, codeName: JString, n: int)
    requires SplitUid(uid) == Some((codeName, n))
    ensures uid == codeName + [AtChar] + Decimal(n)
  {
    var k := LastAt(uid).value;
    ParsedIsDecimal(uid[k + 1..], n);
    assert uid == uid[..k] + [uid[k]] + uid[k + 1..];
  }

  /** `codeName + "@" + agentID` as Java evaluates it at construction time:
      the UID records exactly the code name and ID it was built from. */
  function MakeUid(codeName: Option<JString>, id: Int32): (r: JString)
    ensures SplitUid(r) == Some((OrNull(codeName), id as int))
  {
    var prefix := OrNull(codeName);
    var digits := Decimal(id);
    var uid := prefix + [AtChar] + digits;
    assert uid[..|prefix|] == prefix;
    assert uid[|prefix| + 1..] == digits;
    assert uid[|prefix|] == AtChar;
    assert forall j :: |prefix| < j < |uid| ==> uid[j] == digits[j - |prefix| - 1];
    assert LastAt(uid) == Some(|prefix|);
    DecimalRoundTrip(id);
    uid
  }

  /** `new Agent()`: names and clearance stay null; the UID is built from
      the null code name. */
  function NewAgent(ids: IdCounter): (r: Built)
    ensures r.agent.id == ids.next && r.ids.next == Wrap32(ids.next + 1)
    ensures SplitUid(r.agent.uid) == Some((Lit("null"), ids.next as int))
    ensures r.agent.name.None? && r.agent.codeName.None? && r.agent.clearance.None?
  {
    Built(Agent(None, None, MakeUid(None, ids.next), ids.next, None), Advance(ids))
  }

  /** `new Agent(agentName, codeName)`: clearance stays null. Either name
      may be null; a null code name is written as `null` in the UID. */
  function NewNamedAgent(name: Option<JString>, codeName: Option<JString>, ids: IdCounter): (r: Built)
    ensures r.agent.id == ids.next && r.ids.next == Wrap32(ids.next + 1)
    ensures SplitUid(r.agent.uid) == Some((OrNull(codeName), ids.next as int))
    ensures r.agent.name == name && r.agent.codeName == codeName
    ensures r.agent.clearance.None?
  {
    Built(Agent(name, codeName, MakeUid(codeName, ids.next), ids.next, None), Advance(ids))
  }

  /** `new Agent(agentName, codeName, agentClearance)`; any argument may be
      null. */
  function NewClearedAgent(name: Option<JString>, codeName: Option<JString>, clearance: Option<Clearance>,
                           ids: IdCounter): (r: Built)
    ensures r.agent.id == ids.next && r.ids.next == Wrap32(ids.next + 1)
    ensures SplitUid(r.agent.uid) == Some((OrNull(codeName), ids.next as int))
    ensures r.agent.name == name && r.agent.codeName == codeName
    ensures r.agent.clearance == clearance
  {
    Built(Agent(name, codeName, MakeUid(codeName, ids.next), ids.next, clearance), Advance(ids))
  }

  /** `setCodeName`: the UID captured at construction is not recomputed. */
  function SetCodeName(a: Agent, codeName: Option<JString>): (r: Agent)
    ensures r.codeName == codeName
    ensures r.uid == a.uid && r.id == a.id
    ensures r.name == a.name && r.clearance == a.clearance
  {
    a.(codeName := codeName)
  }

  /** `setAgentName`: only the name changes. */
  function SetAgentName(a: Agent, name: Option<JString>): (r: Agent)
    ensures r.name == name
    ensures r.uid == a.uid && r.id == a.id
    ensures r.codeName == a.codeName && r.clearance == a.clearance
  {
    a.(name := name)
  }

  /** `toString`: the name and the UID, each behind its label. */
  function ToString(a: Agent): (r: JString)
    ensures |r| == 12 + |OrNull(a.name)| + 7 + |a.uid|
    ensures r[..12] == Lit("Agent name: ")
    ensures r[12..12 + |OrNull(a.name)|] == OrNull(a.name)
    ensures r[|r| - |a.uid| - 7..] == Lit(", UID: ") + a.uid
  {
    Lit("Agent name: ") + OrNull(a.name) + Lit(", UID: ") + a.uid
  }

  /** How Java prints a possibly-null clearance in a concatenation. */
  function ClearanceText(c: Option<Clearance>): JString {
    match c
    case Some(level) => Name(level)
    case None => Lit("null")
  }

  /** `getAgentInfo`: the UID, then the clearance in parentheses. */
  function AgentInfo(a: Agent): (r: JString)
    ensures |r| == |a.uid| + 2 + |ClearanceText(a.clearance)| + 11
    ensures r[..|a.uid|] == a.uid
    ensures r[|a.uid|..|a.uid| + 2] == Lit(" (")
    ensures r[|r| - 11..] == Lit(" clearance)")
    ensures r[|a.uid| + 2..|r| - 11] == ClearanceText(a.clearance)
  {
    a.uid + Lit(" (") + ClearanceText(a.clearance) + Lit(" clearance)")
  }

  /** The IDs that `k` successive constructions receive, starting from `ids`. */
  function IssuedIds(ids: IdCounter, k: nat): (r: seq<Int32>)
    ensures |r| == k
    decreases k
  {
    if k == 0 then [] else [ids.next] + IssuedIds(Advance(ids), k - 1)
  }

  /** The i-th construction gets the seed plus i (as a Java `int`). */
  lemma {:induction false} IssuedIdsConsecutive(ids: IdCounter, k: nat)
    ensures forall i :: 0 <= i < k ==> IssuedIds(ids, k)[i] == Wrap32(ids.next + i)
    decreases k
  {
    if k > 0 {
      var rest := IssuedIds(Advance(ids), k - 1);
      IssuedIdsConsecutive(Advance(ids), k - 1);
      forall i | 1 <= i < k
        ensures IssuedIds(ids, k)[i] == Wrap32(ids.next + i)
      {
        assert IssuedIds(ids, k)[i] == rest[i - 1];
        WrapShift(ids.next + 1, i - 1);
      }
    }
  }

  /** Fewer than 2^32 successive constructions never hand out an ID twice. */
  lemma IssuedIdsDistinct(ids: IdCounter, k: nat)
    requires k <= TwoTo32
    ensures forall i, j :: 0 <= i < j < k ==> IssuedIds(ids, k)[i] != IssuedIds(ids, k)[j]
  {
    IssuedIdsConsecutive(ids, k);
    var issued := IssuedIds(ids, k);
    forall i, j | 0 <= i < j < k
      ensures issued[i] != issued[j]
    {
      IssuedPairDistinct(ids.next, issued[i], issued[j], i, j);
    }
  }

  /** The IDs handed out `i` and `j` constructions after `start` differ. */
  lemma IssuedPairDistinct(start: Int32, a: Int32, b: Int32, i: nat, j: nat)
    requires i < j < TwoTo32 && a == Wrap32(start + i) && b == Wrap32(start + j)
    ensures a != b
  {
    Wrap32Injective(start + i, start + j);
  }

  /** Renaming never changes what the UID says: it keeps the code name the
      agent was built with. */
  lemma UidCapturedAtConstruction(name: Option<JString>, codeName: Option<JString>,
                                  clearance: Option<Clearance>, ids: IdCounter, newCodeName: Option<JString>)
    ensures var a := NewClearedAgent(name, codeName, clearance, ids).agent;
            SetCodeName(a, newCodeName).uid == OrNull(codeName) + [AtChar] + Decimal(ids.next)
  {
    var a := NewClearedAgent(name, codeName, clearance, ids).agent;
    UidFromSplit(a.uid, OrNull(codeName), ids.next);
  }
}
