/**
 Corners of the ICE agent that its comments do not tell of, each reached by public calls on a new agent: a pair that
 replaces a redundant one is nominated without a check, and a request brings a redundant pair to a checklist that is
 full.
 */
module IceCorners {
  import opened Bytes
  import opened Stun
  import opened IcePair
  import opened IceCandidate
  import opened IceAgentSpec
  import opened IceAgentOps
  import opened IceFormation
  import Runs = IceAgentRuns

  // ---------- Replacement nominates ----------

  /** The place of the pair that a new one would be redundant with, if that pair has a lower priority. */
  function Replaces(a: Agent, l: nat, r: nat): Option<nat>
    requires CanForm(a, l, r)
  {
    var k := FindRedundant(a, a.local[l], a.remote[r], 0);
    if a.local[l].proto == a.remote[r].proto && k.Some? && a.pairs[k.value].prio < PrioOf(a, l, r) then k else None
  }

  /**
   A new pair is nominated if and only if it replaces one, and its nomination is confirmed if that one was nominated; it
   has had no check then, and no answer.
   */
  lemma ReplacementIsNominated(a: Agent, l: nat, r: nat)
    requires CanForm(a, l, r)
    ensures var k := Replaces(a, l, r);
            k.Some? ==>
              var p := FormPair(a, l, r).pairs[k.value];
              && p.IsNominated() && (p.nomination == Confirmed <==> a.pairs[k.value].IsNominated())
              && p.attempts == [] && p.state == Waiting && p.id == a.nextId
    ensures var k, a' := Replaces(a, l, r), FormPair(a, l, r);
            k.None? ==> a'.pairs == a.pairs || !a'.pairs[|a'.pairs| - 1].IsNominated()
  {
    hide FindRedundant, CalculatePrio;
  }

  /** So the agent takes itself to be connected when it looks next, with no check of the pair ever sent. */
  lemma ReplacementConnects(a: Agent, l: nat, r: nat, now: int)
    requires CanForm(a, l, r) && Replaces(a, l, r).Some? && a.state != New
    ensures EvaluateState(FormPair(a, l, r), now).state.IsConnected()
  {
    ReplacementIsNominated(a, l, r);
    var a', k := FormPair(a, l, r), Replaces(a, l, r).value;
    FindRedundantInRange(a, a.local[l], a.remote[r]);
    assert a'.pairs[k].IsNominated() && k < |a'.pairs|;
    hide FormPair;
    assert AnyNominated(a'.pairs);
    Runs.ConnectedIffNominated(a', now);
  }

  // ---------- Two remote candidates with one address ----------

  const MINE := Creds("l", "mine")
  const THEIRS := Creds("r", "theirs")
  const HERE := Address(1, 4000, false)
  const THERE := Address(2, 5000, false)

  function Given(addr: Address, kind: Kind, prio: nat): (c: Candidate)
    ensures c.Valid() && !c.discarded && c.Prio() == prio
  {
    Candidate(None, 1, Udp, Some(prio), addr, None, kind, None, None, None, false)
  }

  const LOCAL := Given(HERE, Host, 1000).(ufrag := Some("l"), setLocalPreference := Some(65534))
  const REFLEXIVE := Given(THERE, ServerReflexive, 100)
  const HOST := Given(THERE, Host, 200)

  /** An agent with one local candidate and room for one pair. */
  function Start(): Agent {
    NewAgent(MINE).(state := Checking, stateLog := [Checking], events := [IceRestarted(MINE), StateChange(Checking)],
                    maxCandidatePairs := Some(1), remoteCreds := Some(THEIRS), local := [LOCAL])
  }

  const SETUP: seq<Runs.Op> :=
    [Runs.Restart(MINE, false), Runs.SetMaxPairs(1), Runs.SetRemoteCreds(THEIRS), Runs.AddLocal(Given(HERE, Host, 1000))]

  lemma LocalIsAdded(a: Agent)
    requires Inv(a) && a.local == [] && a.remote == [] && a.pairs == [] && a.localCreds == MINE && !a.iceLite
    ensures HasPreferenceLeft(a, Given(HERE, Host, 1000))
    ensures AddLocalCandidate(a, Given(HERE, Host, 1000)).0 == a.(local := [LOCAL])
  {
    assert Adopted(a, Given(HERE, Host, 1000)) == LOCAL;
    assert [] + [LOCAL] == [LOCAL];
    var a2 := a.(local := [LOCAL]);
    PushLocalKeepsForming(a, LOCAL);
    FormingMeans(a2);
    NothingToPair(a2, [0]);
    assert PairableFrom(a.remote, false, 0) == [];
    hide FormPairs;
  }

  lemma {:induction false} NothingToPair(a: Agent, ls: seq<nat>)
    requires AllWellFormed(a.pairs, a.local, a.remote) && AllValid(a.local) && AllValid(a.remote)
    requires Usable(a.local, ls) && a.pairs == []
    ensures FormRows(a, ls, []) == a && FormPairs(a, ls, []) == a
  {
    if ls != [] {
      NothingToPair(a, ls[1..]);
    }
  }

  function Restarted(): Agent {
    NewAgent(MINE).(state := Checking, stateLog := [Checking], events := [IceRestarted(MINE), StateChange(Checking)])
  }

  lemma RestartIs()
    ensures Inv(NewAgent(MINE)) && IceRestart(NewAgent(MINE), MINE, false) == Restarted()
    ensures Inv(Restarted().(maxCandidatePairs := Some(1), remoteCreds := Some(THEIRS)))
    ensures Runs.Run(NewAgent(MINE), []) == NewAgent(MINE) && Runs.LegalRun(NewAgent(MINE), [])
  {
    assert [] + [IceRestarted(MINE)] + [StateChange(Checking)] == [IceRestarted(MINE), StateChange(Checking)];
    assert [] + [Checking] == [Checking];
  }

  lemma SetUpSteps()
    ensures Inv(NewAgent(MINE)) && Runs.Legal(NewAgent(MINE), SETUP[0])
    ensures Runs.Step(NewAgent(MINE), SETUP[0]) == Restarted() && Inv(Restarted())
    ensures Runs.Legal(Restarted(), SETUP[1])
    ensures var a := Restarted().(maxCandidatePairs := Some(1));
            Runs.Step(Restarted(), SETUP[1]) == a && Inv(a) && Runs.Legal(a, SETUP[2])
  {
    RestartIs();
    hide IceRestart;
  }

  lemma LastSteps()
    ensures var a := Restarted().(maxCandidatePairs := Some(1));
            var b := a.(remoteCreds := Some(THEIRS));
            && Inv(a) && Runs.Step(a, SETUP[2]) == b
            && Inv(b) && Runs.Legal(b, SETUP[3]) && Runs.Step(b, SETUP[3]) == Start()
  {
    RestartIs();
    LocalIsAdded(Restarted().(maxCandidatePairs := Some(1), remoteCreds := Some(THEIRS)));
    hide AddLocalCandidate, HasPreferenceLeft;
  }

  /** The agent after its setup. */
  lemma SetUp()
    ensures Inv(NewAgent(MINE)) && Runs.LegalRun(NewAgent(MINE), SETUP) && Runs.Run(NewAgent(MINE), SETUP) == Start()
  {
    var a := NewAgent(MINE);
    RestartIs();
    SetUpSteps();
    LastSteps();
    hide Runs.Run, Runs.LegalRun, Runs.Step, Runs.Legal, Inv, NewAgent, Restarted, Start;
    Runs.RunOneMore(a, [], SETUP[0]);
    Runs.RunOneMore(a, [] + [SETUP[0]], SETUP[1]);
    Runs.RunOneMore(a, [] + [SETUP[0]] + [SETUP[1]], SETUP[2]);
    Runs.RunOneMore(a, [] + [SETUP[0]] + [SETUP[1]] + [SETUP[2]], SETUP[3]);
    assert SETUP == [] + [SETUP[0]] + [SETUP[1]] + [SETUP[2]] + [SETUP[3]];
  }

  /** The pairs of the two remote candidates; the second one replaces the first. */
  function FirstPair(): Pair {
    NewPair(0, 0, 0, CalculatePrio(false, 100, 1000))
  }

  function SecondPair(): Pair {
    NewPair(1, 0, 1, CalculatePrio(false, 200, 1000)).Nominate(false)
  }

  lemma FirstIsFormed()
    ensures Inv(Start()) && AddRemoteCandidate(Start(), REFLEXIVE) ==
                            Start().(remote := [REFLEXIVE], pairs := [FirstPair()], nextId := 1)
  {
    var a := Start();
    assert Inv(a);
    assert FindTemp(a.remote, THERE) == None && [] + [REFLEXIVE] == [REFLEXIVE];
    assert PairableFrom(a.local, false, 0) == [0] by {
      assert PairableFrom(a.local, false, 1) == [];
    }
    var a1 := a.(remote := [REFLEXIVE]);
    assert a1.local[0].Prio() == 1000;
    var a2 := a1.(pairs := [FirstPair()], nextId := 1);
    assert FormPair(a1, 0, 0) == a2 by {
      assert [] + [FirstPair()] == [FirstPair()];
    }
    OnePairing(a1, a2, 0);
    hide Inv;
  }

  /** Forming one pair of the local candidate on a checklist with at most one pair afterwards. */
  lemma OnePairing(a: Agent, a': Agent, r: nat)
    requires CanForm(a, 0, r) && FormPair(a, 0, r) == a' && |a'.pairs| == 1 && Limit(a) == 1
    ensures FormPairs(a, [0], [r]) == a'
  {
    var none: seq<nat> := [];
    assert [r][1..] == none && [0][1..] == none;
    assert FormRow(a, 0, [r]) == FormRow(a', 0, none) == a';
    assert FormRows(a, [0], [r]) == a' by {
      assert FormRows(a', none, [r]) == a';
    }
    assert SortPairs(a'.pairs) == a'.pairs by {
      assert a'.pairs == [a'.pairs[0]] && a'.pairs[1..] == [];
    }
  }

  function AfterFirst(): Agent {
    Start().(remote := [REFLEXIVE], pairs := [FirstPair()], nextId := 1)
  }

  function AfterSecond(): Agent {
    Start().(remote := [REFLEXIVE, HOST], pairs := [SecondPair()], nextId := 2)
  }

  lemma Priorities()
    ensures CalculatePrio(false, 100, 1000) < CalculatePrio(false, 200, 1000)
  {
  }

  lemma SecondIsFormed()
    requires Inv(AfterFirst())
    ensures AddRemoteCandidate(AfterFirst(), HOST) == AfterSecond()
  {
    var a := AfterFirst();
    assert FindTemp(a.remote, THERE) == None && [REFLEXIVE] + [HOST] == [REFLEXIVE, HOST] by {
      assert a.remote[1..] == [];
    }
    assert PairableFrom(a.local, false, 0) == [0] by {
      assert PairableFrom(a.local, false, 1) == [];
    }
    var a1 := a.(remote := [REFLEXIVE, HOST]);
    assert a1.local[0].Prio() == 1000 && a1.remote[1].Prio() == 200;
    Priorities();
    hide CalculatePrio, Inv;
    assert FindRedundant(a1, a1.local[0], a1.remote[1], 0) == Some(0);
    assert FormPair(a1, 0, 1) == AfterSecond() by {
      assert [FirstPair()][0 := SecondPair()] == [SecondPair()];
    }
    OnePairing(a1, AfterSecond(), 1);
  }

  const FORMED: seq<Runs.Op> := SETUP + [Runs.AddRemote(REFLEXIVE)] + [Runs.AddRemote(HOST)]

  /** Two remote candidates with one address: the pair of the second one replaces that of the first. */
  lemma Formed()
    ensures Inv(NewAgent(MINE)) && Runs.LegalRun(NewAgent(MINE), FORMED) && Runs.Run(NewAgent(MINE), FORMED) == AfterSecond()
  {
    SetUp();
    FirstIsFormed();
    hide Runs.Run, Runs.LegalRun, Inv;
    Runs.RunOneMore(NewAgent(MINE), SETUP, Runs.AddRemote(REFLEXIVE));
    Runs.RunOneMore(NewAgent(MINE), SETUP + [Runs.AddRemote(REFLEXIVE)], Runs.AddRemote(HOST));
    SecondIsFormed();
  }

  /** The agent takes itself to be done, while no check was ever sent, and none answered. */
  lemma ConnectedWithoutCheck(now: int)
    ensures Inv(NewAgent(MINE)) && Runs.LegalRun(NewAgent(MINE), FORMED)
    ensures var a := Runs.Run(NewAgent(MINE), FORMED);
            NoAttempts(a.pairs) && EvaluateState(a, now).state == Completed
  {
    Formed();
    hide Runs.Run, Runs.LegalRun, CalculatePrio;
    var a := AfterSecond();
    assert a.pairs[0].IsNominated();
    assert AnyNominated(a.pairs) && !AnyStillPossible(a.pairs, now);
  }

  // ---------- Requests pass by limit and redundancy ----------

  const REQUEST := StunRequest(0, Udp, THERE, HERE, 7, 50, false, "r")
  const PACKET := Packet(Udp, THERE, HERE, Message(true, Request, 7, Some(("l", "r")), Some(50), false, None, _ => true))

  /** The pair of the first remote candidate comes back, although the list is full and it is redundant. */
  lemma RequestBringsPair()
    requires Inv(AfterSecond())
    ensures var a := WithPair(AfterSecond(), 0, 0);
            && a == AfterSecond().(pairs := [SecondPair(), NewPair(2, 0, 0, CalculatePrio(false, 100, 1000))], nextId := 3)
            && WithSource(AfterSecond(), REQUEST) == (AfterSecond(), 0)
            && FindDestination(AfterSecond().local, Udp, HERE) == Some(0)
            && FindPair(AfterSecond().pairs, 0, 0) == None
  {
    var a := AfterSecond();
    assert a.remote[0].Prio() == 100 && a.local[0].Prio() == 1000;
    assert a.pairs[1..] == [];
    Priorities();
    hide CalculatePrio;
    var p := NewPair(2, 0, 0, CalculatePrio(false, 100, 1000));
    assert a.pairs + [p] == [SecondPair(), p];
    assert [SecondPair(), p][1..] == [p] && [p][1..] == [];
    assert SortPairs([p]) == [p];
    assert SortPairs([SecondPair(), p]) == [SecondPair(), p];
  }

  /** The agent after the request is over its limit, with two redundant pairs. */
  lemma RequestIsAnswered()
    requires Inv(AfterSecond())
    ensures Parsed(PACKET.message)
    ensures var a := HandlePacket(AfterSecond(), 0, PACKET).0;
            && |a.pairs| == 2 && Limit(a) == 1
            && AllWellFormed(a.pairs, a.local, a.remote) && !NoneRedundant(a)
  {
    var a := AfterSecond();
    RequestBringsPair();
    HandlePacketKeepsInv(a, 0, PACKET);
    hide CalculatePrio, WithPair, WithSource, SortPairs;
    assert AcceptsMessage(a, PACKET.message);
    var b := WithPair(a, 0, 0);
    assert FindPair(b.pairs, 0, 0) == Some(1) by {
      assert FindPair(b.pairs[1..], 0, 0) == Some(0);
    }
    var a' := HandlePacket(a, 0, PACKET).0;
    assert a'.pairs[0].remoteIdx == 1 && a'.pairs[1].remoteIdx == 0;
    assert PairKey(a'.pairs[0], a'.local, a'.remote) == PairKey(a'.pairs[1], a'.local, a'.remote);
  }

  lemma ReceiveIs(a: Agent)
    requires Inv(a)
    ensures Runs.Legal(a, Runs.Receive(0, PACKET)) && Parsed(PACKET.message)
    ensures Runs.Step(a, Runs.Receive(0, PACKET)) == HandlePacket(a, 0, PACKET).0
  {
    hide HandlePacket, Inv;
  }

  /** Any request for a pair that is not on the checklist adds one, whatever the limit. */
  lemma RequestIgnoresLimit(a: Agent, l: nat, r: nat)
    requires Inv(a) && l < |a.local| && r < |a.remote| && FindPair(a.pairs, l, r).None?
    ensures |WithPair(a, l, r).pairs| == |a.pairs| + 1
  {
    hide Inv, FindPair, SortPairs;
    SortPairsFacts(a.pairs + [WithPairNew(a, l, r)]);
  }

  lemma RequestExceedsLimit()
    ensures Inv(NewAgent(MINE)) && Runs.LegalRun(NewAgent(MINE), FORMED + [Runs.Receive(0, PACKET)])
    ensures var a := Runs.Run(NewAgent(MINE), FORMED + [Runs.Receive(0, PACKET)]);
            && |a.pairs| == 2 && Limit(a) == 1
            && AllWellFormed(a.pairs, a.local, a.remote) && !NoneRedundant(a)
  {
    Formed();
    hide Runs.Run, Runs.LegalRun, Inv, HandlePacket, NoneRedundant, AllWellFormed, Runs.Legal, Runs.Step, AfterSecond;
    Runs.RunKeepsInv(NewAgent(MINE), FORMED);
    ReceiveIs(AfterSecond());
    RequestIsAnswered();
    Runs.RunOneMore(NewAgent(MINE), FORMED, Runs.Receive(0, PACKET));
  }
}
