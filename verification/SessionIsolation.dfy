/** When messages are attributed to their senders, and when all senders belong to a session's parties. */
module SessionIsolation {
  import opened Basics
  import Digits
  import opened Session
  import opened SessionProofs

  /** Whatever is queued at a party of a session was produced by the protocol at a party of the same
      session on the node it names, which is another node, as a broadcast or for this node. */
  ghost predicate Isolated(s: State) {
    forall r | 0 <= r < |s.parties| :: GenuineInbox(s, s.parties[r])
  }

  ghost predicate AlwaysIsolated(cfg: Config) {
    forall actions | Exec(cfg, actions).Some? :: Isolated(Exec(cfg, actions).value)
  }

  /** With distinct addresses, isolation holds in every run exactly when every id survives the cut
      to 16 bits or is refused, unless there is nobody to talk to or nothing parses. */
  lemma IsolationExactly(cfg: Config)
    requires cfg.Separate()
    ensures AlwaysIsolated(cfg) <==>
              || (forall i | i in cfg.ids :: i < 65536 || i % 65536 == 65535)
              || (forall i, j | i in cfg.ids && j in cfg.ids :: i == j)
              || (forall payload :: !cfg.parses(payload))
  {
    if cfg.Attributable() {
      forall actions | Exec(cfg, actions).Some? ensures Isolated(Exec(cfg, actions).value) {
        RunGenuine(cfg, actions);
      }
    } else if forall i, j | i in cfg.ids && j in cfg.ids :: i == j {
      forall actions | Exec(cfg, actions).Some? ensures Isolated(Exec(cfg, actions).value) {
        NothingSent(cfg, actions);
      }
    } else if forall payload :: !cfg.parses(payload) {
      forall actions | Exec(cfg, actions).Some? ensures Isolated(Exec(cfg, actions).value) {
        NothingParses(cfg, actions);
      }
    } else {
      var i :| i in cfg.ids && !(i < UINT16 || i % UINT16 == MAX_UINT16);
      var j :| j in cfg.ids && j != i;
      var payload :| cfg.parses(payload);
      var actions := Misattributed(cfg, i, j, payload);
    }
  }

  // ----- nobody to talk to, or nothing that parses

  ghost predicate Silent(s: State) {
    && s.inFlight == multiset{} && s.held == []
    && forall r | 0 <= r < |s.parties| :: s.parties[r].inbox == []
  }

  lemma NoCopies(cfg: Config, s: State, party: nat, step: Step)
    requires forall i, j | i in cfg.ids && j in cfg.ids :: i == j
    requires Wired(cfg, s) && CanProgress(s, party, step)
    ensures Started(s, party, step) == multiset{}
  {
    hide SessionsWired;
    if step.Emit? {
      var p := s.parties[party];
      assert p.node in cfg.ids && s.nodes[p.node].peers.Keys <= cfg.ids - {p.node};
      assert Fanout(p.node, s.nodes[p.node].peers, WireOf(p, p.out.calls[0])) == {};
    }
  }

  lemma SilentStep(cfg: Config, s: State, a: Action)
    requires forall i, j | i in cfg.ids && j in cfg.ids :: i == j
    requires Wired(cfg, s) && Silent(s) && Enabled(cfg, s, a)
    ensures Silent(Apply(cfg, s, a))
  {
    if a.Progress? {
      NoCopies(cfg, s, a.party, a.step);
    }
    hide Wired, Admit, Advance, Started;
  }

  /** Without a second node no copy is ever started. */
  lemma {:induction false} NothingSent(cfg: Config, actions: seq<Action>)
    requires forall i, j | i in cfg.ids && j in cfg.ids :: i == j
    requires Exec(cfg, actions).Some?
    ensures Silent(Exec(cfg, actions).value)
    decreases |actions|
  {
    if actions != [] {
      var m := |actions| - 1;
      NothingSent(cfg, actions[..m]);
      RunAccounted(cfg, actions[..m]);
      SilentStep(cfg, Exec(cfg, actions[..m]).value, actions[m]);
      hide Wired, Silent, Apply, Enabled;
    }
  }

  ghost predicate Unheard(s: State) { forall r | 0 <= r < |s.parties| :: s.parties[r].inbox == [] }

  lemma UnheardStep(cfg: Config, s: State, a: Action)
    requires (forall payload :: !cfg.parses(payload)) && Unheard(s) && Enabled(cfg, s, a)
    ensures Unheard(Apply(cfg, s, a))
  {
    hide Apply, Enabled, Advance;
    forall r | 0 <= r < |Apply(cfg, s, a).parties| ensures Apply(cfg, s, a).parties[r].inbox == [] {
      PartyStep(cfg, s, a, r);
    }
  }

  lemma {:induction false} NothingParses(cfg: Config, actions: seq<Action>)
    requires forall payload :: !cfg.parses(payload)
    requires Exec(cfg, actions).Some?
    ensures Unheard(Exec(cfg, actions).value)
    decreases |actions|
  {
    if actions != [] {
      var m := |actions| - 1;
      NothingParses(cfg, actions[..m]);
      UnheardStep(cfg, Exec(cfg, actions[..m]).value, actions[m]);
      hide Unheard, Apply, Enabled;
    }
  }

  // ----- one broadcast between two nodes

  lemma ExecStep(cfg: Config, actions: seq<Action>, a: Action)
    requires Exec(cfg, actions).Some? && Enabled(cfg, Exec(cfg, actions).value, a)
    ensures Exec(cfg, actions + [a]) == Some(Apply(cfg, Exec(cfg, actions).value, a))
  {
    assert (actions + [a])[..|actions|] == actions;
  }

  /** Only these nodes open a party of the session. */
  ghost predicate OpensOnly(actions: seq<Action>, session: string, active: set<nat>) {
    forall a | a in actions && a.Open? && a.session == session :: a.node in active
  }

  function Announcement(payload: Payload): Message { Message(payload, true, [], true) }

  /** Two nodes with a party of one session each, the first knowing the second. */
  lemma TwoParties(cfg: Config, session: string, i: nat, j: nat) returns (actions: seq<Action>)
    requires i in cfg.ids && j in cfg.ids && i != j
    ensures Exec(cfg, actions).Some? && OpensOnly(actions, session, {i, j})
    ensures var s := Exec(cfg, actions).value;
            && i in s.nodes && j in s.nodes
            && s.nodes[i].peers == map[j := cfg.address(j)] && s.nodes[j].parties == map[session := 1]
            && s.parties == [Party(i, session, [], 0, NOTHING), Party(j, session, [], 0, NOTHING)]
            && s.inFlight == multiset{} && s.held == []
  {
    var s := Initial(cfg);
    actions := [AddPeer(i, j), Open(i, session), Open(j, session)];
    ExecStep(cfg, [], AddPeer(i, j));
    ExecStep(cfg, [] + [AddPeer(i, j)], Open(i, session));
    ExecStep(cfg, [] + [AddPeer(i, j)] + [Open(i, session)], Open(j, session));
    assert actions == [] + [AddPeer(i, j)] + [Open(i, session)] + [Open(j, session)];
  }

  /** The first party announces a message to the second. */
  lemma Announced(cfg: Config, before: seq<Action>, s: State, session: string, i: nat, j: nat, payload: Payload)
    returns (actions: seq<Action>)
    requires Exec(cfg, before) == Some(s) && OpensOnly(before, session, {i, j}) && i in s.nodes && i != j
    requires s.nodes[i].peers == map[j := cfg.address(j)] && s.inFlight == multiset{}
    requires s.parties == [Party(i, session, [], 0, NOTHING), Party(j, session, [], 0, NOTHING)]
    ensures Exec(cfg, actions).Some? && OpensOnly(actions, session, {i, j})
    ensures var t, m := Exec(cfg, actions).value, Announcement(payload);
            && t.nodes == s.nodes && t.held == s.held
            && t.parties == [Party(i, session, [], 0, Outbox(true, [m], [], [], CallsOf(m))), s.parties[1]]
            && t.inFlight == multiset{Copy(j, cfg.address(j), Wire(session, i, 0, payload, true))}
  {
    var m := Announcement(payload);
    AnnouncementSteps(m);
    hide Exec, OpensOnly, Advance, Ready, CallsOf;
    ghost var one, two, three;
    actions, one := FirstProgresses(cfg, before, s, session, {i, j}, Produce(m));
    actions, two := FirstProgresses(cfg, actions, one, session, {i, j}, Take);
    SoleCopy(i, j, cfg.address(j), WireOf(two.parties[0], Call(payload, true, 0)));
    hide Fanout;
    actions, three := FirstProgresses(cfg, actions, two, session, {i, j}, Emit);
  }

  lemma AnnouncementSteps(m: Message)
    requires m.wires && m.broadcast
    ensures Ready(NOTHING, Produce(m)) && Advance(NOTHING, Produce(m)) == Outbox(true, [m], [m], [], [])
    ensures Advance(Outbox(true, [m], [m], [], []), Take) == Outbox(true, [m], [], CallsOf(m), [])
    ensures Advance(Outbox(true, [m], [], CallsOf(m), []), Emit) == Outbox(true, [m], [], [], CallsOf(m))
    ensures CallsOf(m) == [Call(m.payload, true, 0)]
    ensures Ready(Outbox(true, [m], [m], [], []), Take) && Ready(Outbox(true, [m], [], CallsOf(m), []), Emit)
  {
  }

  lemma FirstProgresses(cfg: Config, before: seq<Action>, s: State, session: string, active: set<nat>, step: Step)
    returns (actions: seq<Action>, t: State)
    requires Exec(cfg, before) == Some(s) && OpensOnly(before, session, active)
    requires |s.parties| == 2 && CanProgress(s, 0, step)
    ensures Exec(cfg, actions) == Some(t) && OpensOnly(actions, session, active)
    ensures t.nodes == s.nodes && t.held == s.held && t.inFlight == s.inFlight + Started(s, 0, step)
    ensures t.parties == [s.parties[0].(out := Advance(s.parties[0].out, step)), s.parties[1]]
  {
    hide Advance, Started;
    ExecStep(cfg, before, Progress(0, step));
    actions, t := before + [Progress(0, step)], Apply(cfg, s, Progress(0, step));
  }

  lemma SoleCopy(i: nat, j: nat, address: string, wire: Wire)
    requires i != j && wire.broadcast
    ensures Fanout(i, map[j := address], wire) == {Copy(j, address, wire)}
  {
    var peers := map[j := address];
    assert j in peers && peers[j] == address;
  }

  /** The only copy in flight is received and queued. */
  lemma Delivered(cfg: Config, before: seq<Action>, s: State, session: string, i: nat, copy: Copy)
    returns (actions: seq<Action>)
    requires Exec(cfg, before) == Some(s) && OpensOnly(before, session, {i, copy.peer})
    requires |s.parties| == 2 && s.parties[1] == Party(copy.peer, session, [], 0, NOTHING) && s.held == []
    requires copy.peer in s.nodes && s.nodes[copy.peer].parties == map[session := 1]
    requires copy.address == cfg.address(copy.peer) && copy.wire.session == session && copy.wire.from == i
    requires s.inFlight == multiset{copy} && cfg.parses(copy.wire.payload) && i % UINT16 != MAX_UINT16
    ensures Exec(cfg, actions).Some? && OpensOnly(actions, session, {i, copy.peer})
    ensures var t, q := Exec(cfg, actions).value, Queued(copy.wire.payload, i % UINT16, copy.wire.broadcast);
            t.parties == [s.parties[0], Party(copy.peer, session, [q], 0, NOTHING)]
  {
    var receive := Receive(copy.peer, copy);
    ExecStep(cfg, before, receive);
    var t := Apply(cfg, s, receive);
    hide Exec, Advance, Started;
    assert t.held == [Held(copy, 1)] && t.parties == s.parties;
    Queues(cfg, before + [receive], t, Held(copy, 1));
    actions := before + [receive] + [OnMsg(0)];
  }

  lemma Queues(cfg: Config, before: seq<Action>, t: State, h: Held)
    requires Exec(cfg, before) == Some(t) && t.held == [h] && h.party == 1 && |t.parties| == 2
    requires t.parties[1].inbox == [] && cfg.parses(h.copy.wire.payload) && h.copy.wire.from % UINT16 != MAX_UINT16
    ensures Exec(cfg, before + [OnMsg(0)]).Some?
    ensures var wire := h.copy.wire;
            var q := Queued(wire.payload, wire.from % UINT16, wire.broadcast);
            Exec(cfg, before + [OnMsg(0)]).value.parties == [t.parties[0], t.parties[1].(inbox := [q])]
  {
    hide Advance, Started;
    ExecStep(cfg, before, OnMsg(0));
    var p := t.parties[1];
    var q := Queued(h.copy.wire.payload, h.copy.wire.from % UINT16, h.copy.wire.broadcast);
    assert p.inbox + [q] == [q];
    assert Apply(cfg, t, OnMsg(0)).parties == t.parties[1 := p.(inbox := [q])];
  }

  /** Any node can broadcast to any other, which queues the message under the low 16 bits of its id. */
  lemma BroadcastRun(cfg: Config, session: string, i: nat, j: nat, payload: Payload) returns (actions: seq<Action>)
    requires i in cfg.ids && j in cfg.ids && i != j && cfg.parses(payload) && i % UINT16 != MAX_UINT16
    ensures Exec(cfg, actions).Some? && OpensOnly(actions, session, {i, j})
    ensures var m := Announcement(payload);
            Exec(cfg, actions).value.parties ==
              [Party(i, session, [], 0, Outbox(true, [m], [], [], CallsOf(m))),
               Party(j, session, [Queued(payload, i % UINT16, true)], 0, NOTHING)]
  {
    actions := TwoParties(cfg, session, i, j);
    hide Exec, OpensOnly;
    actions := Announced(cfg, actions, Exec(cfg, actions).value, session, i, j, payload);
    var copy := Copy(j, cfg.address(j), Wire(session, i, 0, payload, true));
    actions := Delivered(cfg, actions, Exec(cfg, actions).value, session, i, copy);
  }

  /** A node whose id does not survive the cut broadcasts, and the receiver queues the message under
      the id of a node that sent nothing. */
  lemma Misattributed(cfg: Config, i: nat, j: nat, payload: Payload) returns (actions: seq<Action>)
    requires i in cfg.ids && j in cfg.ids && i != j && cfg.parses(payload)
    requires i >= UINT16 && i % UINT16 != MAX_UINT16
    ensures Exec(cfg, actions).Some? && !Isolated(Exec(cfg, actions).value)
  {
    actions := BroadcastRun(cfg, "", i, j, payload);
    var s := Exec(cfg, actions).value;
    hide Exec;
    assert s.parties[1].out.produced == [];
    assert !Sent(s, "", i % UINT16, j, payload, true);
    var p := s.parties[1];
    assert !Sent(s, p.session, p.inbox[0].from, p.node, p.inbox[0].payload, p.inbox[0].broadcast);
  }

  // ----- senders outside the session's parties

  /** Every sender in the inboxes of the session is one of its parties. */
  ghost predicate FromMembers(s: State, session: string, members: set<nat>) {
    forall r, i | 0 <= r < |s.parties| && s.parties[r].session == session && 0 <= i < |s.parties[r].inbox| ::
      s.parties[r].inbox[i].from in members
  }

  ghost predicate AlwaysFromMembers(cfg: Config, session: string, active: set<nat>, members: set<nat>) {
    forall actions | Exec(cfg, actions).Some? && OpensOnly(actions, session, active) ::
      FromMembers(Exec(cfg, actions).value, session, members)
  }

  /** Parties of the session are on these nodes, and no queued sender is the refused number. */
  ghost predicate Placed(s: State, session: string, active: set<nat>) {
    forall r | 0 <= r < |s.parties| ::
      && (s.parties[r].session == session ==> s.parties[r].node in active)
      && forall i | 0 <= i < |s.parties[r].inbox| :: s.parties[r].inbox[i].from < MAX_UINT16
  }

  lemma PlacedStep(cfg: Config, s: State, a: Action, session: string, active: set<nat>)
    requires Placed(s, session, active) && Enabled(cfg, s, a)
    requires a.Open? && a.session == session ==> a.node in active
    ensures Placed(Apply(cfg, s, a), session, active)
  {
    hide Apply, Enabled, Advance;
    var t := Apply(cfg, s, a);
    forall r | 0 <= r < |t.parties|
      ensures t.parties[r].session == session ==> t.parties[r].node in active
      ensures forall i | 0 <= i < |t.parties[r].inbox| :: t.parties[r].inbox[i].from < MAX_UINT16
    {
      PartyStep(cfg, s, a, r);
    }
  }

  lemma {:induction false} RunPlaced(cfg: Config, actions: seq<Action>, session: string, active: set<nat>)
    requires Exec(cfg, actions).Some? && OpensOnly(actions, session, active)
    ensures Placed(Exec(cfg, actions).value, session, active)
    decreases |actions|
  {
    if actions != [] {
      var m := |actions| - 1;
      assert forall a | a in actions[..m] :: a in actions;
      assert actions[m] in actions;
      RunPlaced(cfg, actions[..m], session, active);
      PlacedStep(cfg, Exec(cfg, actions[..m]).value, actions[m], session, active);
      hide Placed, Apply, Enabled, OpensOnly;
    }
  }

  /** Among nodes whose ids survive the cut, the senders queued in a session are its parties in every run
      in which `active` nodes take part, exactly when every one of them that is not refused and has another
      to talk to is a party; `OnMsg` itself does not look at the parties. */
  lemma MembersExactly(cfg: Config, session: string, active: set<nat>, members: set<nat>)
    requires cfg.Separate() && cfg.Attributable() && active <= cfg.ids
    ensures AlwaysFromMembers(cfg, session, active, members) <==>
              || (forall payload :: !cfg.parses(payload))
              || forall i, j | i in active && j in active && i != j && i % 65536 != 65535 :: i in members
  {
    if forall payload :: !cfg.parses(payload) {
      forall actions | Exec(cfg, actions).Some? && OpensOnly(actions, session, active)
        ensures FromMembers(Exec(cfg, actions).value, session, members)
      {
        NothingParses(cfg, actions);
      }
    } else if forall i, j | i in active && j in active && i != j && i % UINT16 != MAX_UINT16 :: i in members {
      forall actions | Exec(cfg, actions).Some? && OpensOnly(actions, session, active)
        ensures FromMembers(Exec(cfg, actions).value, session, members)
      {
        RunGenuine(cfg, actions);
        RunPlaced(cfg, actions, session, active);
        SendersAreMembers(cfg, Exec(cfg, actions).value, session, active, members);
      }
    } else {
      var i, j :| i in active && j in active && i != j && i % UINT16 != MAX_UINT16 && i !in members;
      var payload :| cfg.parses(payload);
      var actions := OutsiderQueued(cfg, session, i, j, payload, members);
      assert OpensOnly(actions, session, active);
    }
  }

  lemma SendersAreMembers(cfg: Config, s: State, session: string, active: set<nat>, members: set<nat>)
    requires Genuine(cfg, s) && Placed(s, session, active)
    requires forall i, j | i in active && j in active && i != j && i % UINT16 != MAX_UINT16 :: i in members
    ensures FromMembers(s, session, members)
  {
    forall r, k | 0 <= r < |s.parties| && s.parties[r].session == session && 0 <= k < |s.parties[r].inbox|
      ensures s.parties[r].inbox[k].from in members
    {
      var p := s.parties[r];
      var q := p.inbox[k];
      assert GenuineInbox(s, p);
      assert Sent(s, session, q.from, p.node, q.payload, q.broadcast);
      Digits.DivModUnique(UINT16, 0, q.from);
    }
  }

  /** A node outside the parties broadcasts, and its message is queued like any other. */
  lemma OutsiderQueued(cfg: Config, session: string, i: nat, j: nat, payload: Payload, members: set<nat>)
    returns (actions: seq<Action>)
    requires cfg.Attributable() && i in cfg.ids && j in cfg.ids && i != j && cfg.parses(payload)
    requires i % UINT16 != MAX_UINT16 && i !in members
    ensures Exec(cfg, actions).Some? && OpensOnly(actions, session, {i, j})
    ensures !FromMembers(Exec(cfg, actions).value, session, members)
  {
    actions := BroadcastRun(cfg, session, i, j, payload);
    assert i % UINT16 == i by {
      Digits.DivModUnique(UINT16, 0, i);
    }
    hide Exec, OpensOnly, CallsOf, Announcement;
    var s := Exec(cfg, actions).value;
    assert s.parties[1].session == session && s.parties[1].inbox == [Queued(payload, i, true)];
    assert s.parties[1].inbox[0].from == i;
  }
}
