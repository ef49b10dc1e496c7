/** The agent unit test's construction sequence, run on the model from a
    fresh counter. */
module AgentScenarios {
  import opened JavaTypes
  import opened Agents

  /** The decimal digits shared by every ID the unit test sees: 54932x. */
  lemma SeedDigits()
    ensures Digits(54932) == [53, 52, 57, 51, 50]
  {
    assert Digits(5) == [53];
    assert Digits(54) == [53, 52];
    assert Digits(549) == [53, 52, 57];
    assert Digits(5493) == [53, 52, 57, 51];
  }

  /** The UID of an agent given code name `code` and an ID 54932d. */
  lemma UidOfSeedId(code: Option<JString>, d: nat)
    requires d < 10
    ensures MakeUid(code, 549320 + d) == OrNull(code) + [AtChar, 53, 52, 57, 51, 50, ZeroChar + d]
  {
    SeedIdDecimal(d);
  }

  /** The decimal rendering of the ID 54932d. */
  lemma SeedIdDecimal(d: nat)
    requires d < 10
    ensures Decimal(549320 + d) == [53, 52, 57, 51, 50, ZeroChar + d]
  {
    SeedDigits();
    assert (549320 + d) / 10 == 54932 && (549320 + d) % 10 == d;
    assert Digits(549320 + d) == Digits(54932) + [ZeroChar + d];
  }

  /** A Java literal `code@54932d`, as code units. */
  lemma UidLiteral(code: string, suffix: string, d: nat)
    requires d < 10 && suffix == "@54932" + [(48 + d) as char]
    ensures Lit(code + suffix) == Lit(code) + [AtChar, 53, 52, 57, 51, 50, ZeroChar + d]
  {
    LitConcat(code, suffix);
    assert Lit(suffix) == [AtChar, 53, 52, 57, 51, 50, ZeroChar + d];
  }

  /** The first agent built from a fresh counter gets the seed as its ID
      and `Alpha@549321` as its UID. */
  lemma FirstNamedAgent()
    ensures var b := NewNamedAgent(Some(Lit("Fatima")), Some(Lit("Alpha")), InitialCounter());
            && b.agent.uid == Lit("Alpha@549321") && b.agent.id == 549321
            && b.agent.name == Some(Lit("Fatima")) && b.agent.codeName == Some(Lit("Alpha"))
            && b.ids == IdCounter(549322)
  {
    assert Wrap32(549321 + 1) == 549322;
    FirstAgentUid();
  }

  /** The first construction's UID. */
  lemma FirstAgentUid()
    ensures NewNamedAgent(Some(Lit("Fatima")), Some(Lit("Alpha")), IdCounter(549321)).agent.uid == Lit("Alpha@549321")
  {
    UidOfSeedId(Some(Lit("Alpha")), 1);
    UidLiteral("Alpha", "@549321", 1);
    assert "Alpha" + "@549321" == "Alpha@549321";
  }

  /** An agent built with no names and named afterwards keeps the UID made
      from the null code name. */
  lemma DefaultAgentRenamed()
    ensures var b := NewAgent(IdCounter(549322));
            var renamed := SetCodeName(SetAgentName(b.agent, Some(Lit("Fatima"))), Some(Lit("Alpha")));
            && renamed.name == Some(Lit("Fatima")) && renamed.codeName == Some(Lit("Alpha"))
            && renamed.uid == Lit("null@549322") && b.ids == IdCounter(549323)
  {
    assert Wrap32(549322 + 1) == 549323;
    DefaultAgentUid();
  }

  /** The UID of the second construction, made from the null code name. */
  lemma DefaultAgentUid()
    ensures NewAgent(IdCounter(549322)).agent.uid == Lit("null@549322")
  {
    UidOfSeedId(None, 2);
    UidLiteral("null", "@549322", 2);
    assert "null" + "@549322" == "null@549322";
  }

  /** The fifth construction's UID. */
  lemma FifthAgentUid()
    ensures NewNamedAgent(Some(Lit("Alice")), Some(Lit("Gamma")), IdCounter(549325)).agent.uid == Lit("Gamma@549325")
  {
    UidOfSeedId(Some(Lit("Gamma")), 5);
    UidLiteral("Gamma", "@549325", 5);
    assert "Gamma" + "@549325" == "Gamma@549325";
  }

  /** The third to fifth constructions get the next IDs in turn. */
  lemma FollowingIds()
    ensures var b3 := NewNamedAgent(Some(Lit("Jane")), Some(Lit("Alpha")), IdCounter(549323));
            var b4 := NewNamedAgent(Some(Lit("John")), Some(Lit("Beta")), b3.ids);
            var b5 := NewNamedAgent(Some(Lit("Alice")), Some(Lit("Gamma")), b4.ids);
            && b3.agent.id == 549323 && b4.agent.id == 549324
            && b5.agent.uid == Lit("Gamma@549325") && b5.ids == IdCounter(549326)
  {
    assert Wrap32(549323 + 1) == 549324 && Wrap32(549324 + 1) == 549325;
    FifthAgentUid();
  }

  /** The sixth construction prints as `Sigma@549326`. */
  lemma SixthAgentToString(a: Agent)
    requires a.name == Some(Lit("Afifa")) && a.uid == Lit("Sigma@549326")
    ensures Agents.ToString(a) == Lit("Agent name: Afifa, UID: Sigma@549326")
  {
    LitConcat("Agent name: ", "Afifa");
    LitConcat("Agent name: Afifa", ", UID: ");
    LitConcat("Agent name: Afifa, UID: ", "Sigma@549326");
    assert "Agent name: " + "Afifa" == "Agent name: Afifa";
    assert "Agent name: Afifa" + ", UID: " == "Agent name: Afifa, UID: ";
    assert "Agent name: Afifa, UID: " + "Sigma@549326" == "Agent name: Afifa, UID: Sigma@549326";
  }

  /** The sixth construction's UID. */
  lemma SixthAgentUid()
    ensures NewNamedAgent(Some(Lit("Afifa")), Some(Lit("Sigma")), IdCounter(549326)).agent.uid == Lit("Sigma@549326")
  {
    UidOfSeedId(Some(Lit("Sigma")), 6);
    UidLiteral("Sigma", "@549326", 6);
    assert "Sigma" + "@549326" == "Sigma@549326";
  }

  /** The constructions of the agent unit test, in order, from a fresh
      counter: IDs 549321 to 549326, UIDs built from the code name given at
      construction. */
  lemma AgentUnitTestRun()
    ensures var b1 := NewNamedAgent(Some(Lit("Fatima")), Some(Lit("Alpha")), InitialCounter());
            var b2 := NewAgent(b1.ids);
            var renamed := SetCodeName(SetAgentName(b2.agent, Some(Lit("Fatima"))), Some(Lit("Alpha")));
            var b3 := NewNamedAgent(Some(Lit("Jane")), Some(Lit("Alpha")), b2.ids);
            var b4 := NewNamedAgent(Some(Lit("John")), Some(Lit("Beta")), b3.ids);
            var b5 := NewNamedAgent(Some(Lit("Alice")), Some(Lit("Gamma")), b4.ids);
            var b6 := NewNamedAgent(Some(Lit("Afifa")), Some(Lit("Sigma")), b5.ids);
            && b1.agent.uid == Lit("Alpha@549321") && b1.agent.id == 549321
            && renamed.uid == Lit("null@549322")
            && b3.agent.id == 549323 && b4.agent.id == 549324
            && b5.agent.uid == Lit("Gamma@549325")
            && Agents.ToString(b6.agent) == Lit("Agent name: Afifa, UID: Sigma@549326")
  {
    FirstNamedAgent();
    DefaultAgentRenamed();
    FollowingIds();
    SixthAgentUid();
    SixthAgentToString(NewNamedAgent(Some(Lit("Afifa")), Some(Lit("Sigma")), IdCounter(549326)).agent);
  }
}
