/** Every run of the session layer keeps its invariant. */
module SessionProofs {
  import opened Basics
  import Digits
  import opened Sequences
  import opened Session

  /** Parties and what they produced are only ever added. */
  ghost predicate Grows(s: State, t: State) {
    && |s.parties| <= |t.parties|
    && forall r | 0 <= r < |s.parties| ::
         && t.parties[r].node == s.parties[r].node && t.parties[r].session == s.parties[r].session
         && s.parties[r].out.produced <= t.parties[r].out.produced
  }

  /** What `OnMsg` queues of a held copy. */
  function QueuedFrom(h: Held): Queued {
    Queued(h.copy.wire.payload, h.copy.wire.from % UINT16, h.copy.wire.broadcast)
  }

  /** What one step does to one party. */
  lemma PartyStep(cfg: Config, s: State, a: Action, r: nat)
    requires Enabled(cfg, s, a) && r < |Apply(cfg, s, a).parties|
    ensures |s.parties| <= |Apply(cfg, s, a).parties|
    ensures var q := Apply(cfg, s, a).parties[r];
            if r >= |s.parties| then a.Open? && q == Party(a.node, a.session, [], 0, NOTHING)
            else
              var p := s.parties[r];
              && q.node == p.node && q.session == p.session
              && q.out == (if a.Progress? && a.party == r then Advance(p.out, a.step) else p.out)
              && (|| q.inbox == p.inbox
                  || (a == Consume(r) && p.inbox != [] && q.inbox == p.inbox[1..])
                  || (a.OnMsg? && r == s.held[a.index].party && |p.inbox| < CAPACITY
                      && s.held[a.index].copy.wire.from % UINT16 < MAX_UINT16
                      && cfg.parses(s.held[a.index].copy.wire.payload)
                      && q.inbox == p.inbox + [QueuedFrom(s.held[a.index])]))
  {
    hide Advance, Started, Opened, Closed, RemoveAt;
    match a {
      case OnMsg(_) =>
      case Consume(_) =>
      case Open(_, _) =>
      case Progress(_, _) =>
      case _ =>
    }
  }

  lemma AdvanceGrows(out: Outbox, step: Step)
    requires Ready(out, step)
    ensures out.produced <= Advance(out, step).produced
    ensures |out.queue| <= CAPACITY ==> |Advance(out, step).queue| <= CAPACITY
  {
  }

  lemma ApplyGrows(cfg: Config, s: State, a: Action)
    requires Enabled(cfg, s, a)
    ensures Grows(s, Apply(cfg, s, a))
  {
    var t := Apply(cfg, s, a);
    if a.Progress? {
      AdvanceGrows(s.parties[a.party].out, a.step);
    }
    PartiesKept(cfg, s, a);
    hide Apply, Advance, Enabled;
    forall r | 0 <= r < |s.parties|
      ensures t.parties[r].node == s.parties[r].node && t.parties[r].session == s.parties[r].session
      ensures s.parties[r].out.produced <= t.parties[r].out.produced
    {
      PartyStep(cfg, s, a, r);
    }
  }

  lemma PartiesKept(cfg: Config, s: State, a: Action)
    requires Enabled(cfg, s, a)
    ensures |s.parties| <= |Apply(cfg, s, a).parties|
  {
    hide Advance, Started, Opened, Closed, RemoveAt, Admit;
  }

  lemma SentGrows(s: State, t: State, session: string, from: nat, node: nat, payload: Payload, broadcast: bool)
    requires Grows(s, t) && Sent(s, session, from, node, payload, broadcast)
    ensures Sent(t, session, from, node, payload, broadcast)
  {
    var r: nat :| r < |s.parties| && s.parties[r].session == session && s.parties[r].node == from
               && Produced(s.parties[r].out, node, payload, broadcast);
    var m :| m in s.parties[r].out.produced && IsFor(m, node, payload, broadcast);
    assert m in t.parties[r].out.produced;
  }

  lemma CopyGrows(cfg: Config, s: State, t: State, c: Copy)
    requires Grows(s, t) && GenuineCopy(cfg, s, c)
    ensures GenuineCopy(cfg, t, c)
  {
    SentGrows(s, t, c.wire.session, c.wire.from, c.peer, c.wire.payload, c.wire.broadcast);
  }

  // ----- wiring

  lemma PeersStep(cfg: Config, s: State, a: Action)
    requires Wired(cfg, s) && Enabled(cfg, s, a)
    ensures PeersWired(cfg, Apply(cfg, s, a).nodes)
  {
    hide SessionsWired, Advance, Started, Admit, RemoveAt;
  }

  lemma SessionsStep(cfg: Config, s: State, a: Action)
    requires Wired(cfg, s) && Enabled(cfg, s, a)
    ensures SessionsWired(Apply(cfg, s, a).nodes, Apply(cfg, s, a).parties)
  {
    hide PeersWired, Advance, Started, Admit, RemoveAt;
    var t := Apply(cfg, s, a);
    ApplyGrows(cfg, s, a);
    forall i, session | i in t.nodes && session in t.nodes[i].parties
      ensures var r := t.nodes[i].parties[session];
              r < |t.parties| && t.parties[r].node == i && t.parties[r].session == session
    {
      if i in s.nodes && session in s.nodes[i].parties {
        assert t.nodes[i].parties[session] == s.nodes[i].parties[session];
      } else {
        assert a == Open(i, session);
      }
    }
  }

  lemma WiredStep(cfg: Config, s: State, a: Action)
    requires Wired(cfg, s) && Enabled(cfg, s, a)
    ensures Wired(cfg, Apply(cfg, s, a))
  {
    PeersStep(cfg, s, a);
    SessionsStep(cfg, s, a);
    hide SessionsWired;
  }

  // ----- the outgoing channel

  /** Taking the first message turns it into its calls. */
  lemma AdvanceOrdered(out: Outbox, step: Step)
    requires Ordered(out) && Ready(out, step)
    ensures Ordered(Advance(out, step))
  {
    AdvancePaced(out, step);
    AdvanceSequenced(out, step);
    hide Paced, Sequenced, Advance;
  }

  lemma AdvanceSequenced(out: Outbox, step: Step)
    requires Sequenced(out) && Ready(out, step)
    ensures Sequenced(Advance(out, step))
  {
    hide CallsOf;
    match step {
      case Produce(message) =>
        AllCallsConcat(out.queue, [message]);
        AllCallsConcat(out.produced, [message]);
      case Take => assert out.calls == [];
      case Emit => assert out.calls == [out.calls[0]] + out.calls[1..];
      case Stop =>
    }
  }

  lemma AdvancePaced(out: Outbox, step: Step)
    requires Paced(out) && Ready(out, step)
    ensures Paced(Advance(out, step))
  {
    hide CallsOf;
  }

  /** A message that is taken and whose calls are all made has its calls among those made: a broadcast its
      one call, any other message a call to every addressee. */
  lemma FinishedIsMade(out: Outbox, i: nat)
    requires Ordered(out) && i + |out.queue| + (if out.calls == [] then 0 else 1) < |out.produced|
    ensures var m := out.produced[i];
            && (m.wires && m.broadcast ==> Call(m.payload, true, 0) in out.made)
            && (m.wires && !m.broadcast ==> forall to | to in m.to :: Call(m.payload, false, to) in out.made)
  {
    var m := out.produced[i];
    hide CallsOf, Ordered;
    AllMade(out, i);
    CallsExactly(m);
    if m.wires && !m.broadcast {
      assert forall k | 0 <= k < |m.to| :: CallsOf(m)[k] in CallsOf(m);
    }
  }

  lemma AllMade(out: Outbox, i: nat)
    requires Ordered(out) && i + |out.queue| + (if out.calls == [] then 0 else 1) < |out.produced|
    ensures forall c | c in CallsOf(out.produced[i]) :: c in out.made
  {
    var m, taken := out.produced[i], |out.produced| - |out.queue|;
    var before, rest := out.produced[..i], out.produced[i + 1..taken];
    assert out.produced == before + [m] + rest + out.queue by {
      hide CallsOf, AllCalls, Sequenced;
    }
    hide CallsOf, AllCalls, Paced;
    RestIsLong(out, i);
    assert out.made + out.calls + AllCalls(out.queue)
        == AllCalls(before) + CallsOf(m) + AllCalls(rest) + AllCalls(out.queue) by {
      AllCallsConcat(before + [m] + rest, out.queue);
      AllCallsSplit(before, m, rest);
    }
    hide Sequenced;
    forall c | c in CallsOf(m) ensures c in out.made {
      InMade(out.made, out.calls, AllCalls(out.queue), AllCalls(before), CallsOf(m), AllCalls(rest), c);
    }
  }

  /** What comes before the calls still to make is made. */
  lemma InMade(made: seq<Call>, calls: seq<Call>, queue: seq<Call>, a: seq<Call>, mine: seq<Call>, b: seq<Call>,
      c: Call)
    requires made + calls + queue == a + mine + b + queue && |calls| <= |b| && c in mine
    ensures c in made
  {
    var all := made + calls + queue;
    var k: nat :| k < |mine| && mine[k] == c;
    assert all[|a| + k] == (a + mine + b + queue)[|a| + k] == c;
    assert |made| + |calls| == |a| + |mine| + |b|;
    assert all[|a| + k] == made[|a| + k];
  }

  /** The calls still to make are for a later message than a finished one. */
  lemma RestIsLong(out: Outbox, i: nat)
    requires Paced(out) && i + |out.queue| + (if out.calls == [] then 0 else 1) < |out.produced|
    ensures |out.calls| <= |AllCalls(out.produced[i + 1..|out.produced| - |out.queue|])|
  {
    hide CallsOf, AllCalls;
    if out.calls != [] {
      var taken := |out.produced| - |out.queue|;
      var last := out.produced[taken - 1];
      assert out.produced[i + 1..taken] == out.produced[i + 1..taken - 1] + [last] + [];
      AllCallsSplit(out.produced[i + 1..taken - 1], last, []);
    }
  }

  lemma OrderedStep(cfg: Config, s: State, a: Action)
    requires AllOrdered(s) && Enabled(cfg, s, a)
    ensures AllOrdered(Apply(cfg, s, a))
  {
    assert Ordered(NOTHING);
    if a.Progress? {
      AdvanceOrdered(s.parties[a.party].out, a.step);
    }
    hide Apply, Advance, Enabled, Ordered;
    forall r | 0 <= r < |Apply(cfg, s, a).parties| ensures Ordered(Apply(cfg, s, a).parties[r].out) {
      PartyStep(cfg, s, a, r);
    }
  }

  lemma {:induction false} CallOrigin(messages: seq<Message>, call: Call) returns (m: Message)
    requires call in AllCalls(messages)
    ensures m in messages && call in CallsOf(m)
    decreases |messages|
  {
    if call in CallsOf(messages[0]) {
      m := messages[0];
    } else {
      m := CallOrigin(messages[1..], call);
    }
  }

  /** A call to be made is for a produced message. */
  lemma CallIsProduced(out: Outbox, node: nat)
    requires Ordered(out) && out.calls != [] && (out.calls[0].broadcast || out.calls[0].to == node)
    ensures Produced(out, node, out.calls[0].payload, out.calls[0].broadcast)
  {
    assert (out.made + out.calls + AllCalls(out.queue))[|out.made|] == out.calls[0];
    var m := CallOrigin(out.produced, out.calls[0]);
    assert IsFor(m, node, out.calls[0].payload, out.calls[0].broadcast);
  }

  // ----- rounds of the sending loop

  function RunSteps(out: Outbox, steps: seq<Step>): Option<Outbox>
    decreases |steps|
  {
    if steps == [] then Some(out)
    else if Ready(out, steps[0]) then RunSteps(Advance(out, steps[0]), steps[1..])
    else None
  }

  lemma {:induction false} RunStepsConcat(out: Outbox, a: seq<Step>, b: seq<Step>)
    requires RunSteps(out, a).Some?
    ensures RunSteps(out, a + b) == RunSteps(RunSteps(out, a).value, b)
    decreases |a|
  {
    hide Advance, Ready;
    if a == [] {
      assert a + b == b;
    } else {
      RunStepsConcat(Advance(out, a[0]), a[1..], b);
      assert (a + b)[1..] == a[1..] + b;
    }
  }

  function Emits(n: nat): seq<Step> { seq(n, _ => Emit) }

  /** The calls for one message, one after the other. */
  lemma {:induction false} EmitAll(out: Outbox)
    ensures RunSteps(out, Emits(|out.calls|)) == Some(out.(calls := [], made := out.made + out.calls))
    decreases |out.calls|
  {
    if out.calls == [] {
      assert out.made + [] == out.made;
    } else {
      var next := Advance(out, Emit);
      EmitAll(next);
      assert Emits(|out.calls|)[1..] == Emits(|next.calls|);
      assert next.made + next.calls == out.made + out.calls;
    }
  }

  /** n rounds of the loop are steps of the sending half: they take the first n messages and make their
      calls, in order. */
  lemma {:induction false} LoopSteps(out: Outbox, n: nat) returns (steps: seq<Step>)
    requires out.open && out.calls == [] && n <= |out.queue|
    ensures forall step | step in steps :: step in {Take, Emit}
    ensures RunSteps(out, steps) ==
            Some(out.(queue := out.queue[n..], made := out.made + AllCalls(out.queue[..n])))
    decreases n
  {
    if n == 0 {
      steps := [];
      assert out.made + [] == out.made && out.queue[0..] == out.queue;
    } else {
      hide CallsOf, RunSteps, Ready, Advance;
      var first := Round(out);
      var next := RunSteps(out, first).value;
      var rest := LoopSteps(next, n - 1);
      steps := first + rest;
      RunStepsConcat(out, first, rest);
      RoundsJoin(out, n);
      hide AllCalls;
    }
  }

  lemma RoundsJoin(out: Outbox, n: nat)
    requires 0 < n <= |out.queue|
    ensures out.made + CallsOf(out.queue[0]) + AllCalls(out.queue[1..][..n - 1]) == out.made + AllCalls(out.queue[..n])
    ensures out.queue[1..][n - 1..] == out.queue[n..]
  {
    hide CallsOf;
    assert out.queue[..n][1..] == out.queue[1..][..n - 1];
  }

  lemma Round(out: Outbox) returns (steps: seq<Step>)
    requires out.open && out.calls == [] && out.queue != []
    ensures forall step | step in steps :: step in {Take, Emit}
    ensures RunSteps(out, steps) == Some(out.(queue := out.queue[1..], made := out.made + CallsOf(out.queue[0])))
  {
    hide CallsOf;
    var taken := Advance(out, Take);
    EmitAll(taken);
    steps := [Take] + Emits(|taken.calls|);
    assert steps[1..] == Emits(|taken.calls|);
  }

  // ----- genuineness

  /** A copy that a sender closure starts is genuine. */
  lemma StartedGenuine(cfg: Config, s: State, party: nat, step: Step, c: Copy)
    requires Wired(cfg, s) && CanProgress(s, party, step) && Ordered(s.parties[party].out)
    requires c in Started(s, party, step)
    ensures GenuineCopy(cfg, s, c)
  {
    var p := s.parties[party];
    var call := p.out.calls[0];
    var peers := s.nodes[p.node].peers;
    FanoutExactly(p.node, peers, WireOf(p, call));
    assert c in Fanout(p.node, peers, WireOf(p, call));
    assert c.peer in peers && c == Copy(c.peer, peers[c.peer], WireOf(p, call));
    assert c.peer in cfg.ids && c.peer != p.node && peers[c.peer] == cfg.address(c.peer) && p.node in cfg.ids;
    hide Wired, Fanout, Started, CanProgress;
    CallIsProduced(p.out, c.peer);
    hide Produced, Ordered;
    assert Sent(s, p.session, p.node, c.peer, call.payload, call.broadcast);
  }

  lemma FlightStep(cfg: Config, s: State, a: Action, c: Copy)
    requires Wired(cfg, s) && Genuine(cfg, s) && Enabled(cfg, s, a)
    requires AllOrdered(s) && c in Apply(cfg, s, a).inFlight
    ensures GenuineCopy(cfg, Apply(cfg, s, a), c)
  {
    ApplyGrows(cfg, s, a);
    if c !in s.inFlight {
      FlightComesFrom(cfg, s, a, c);
      StartedGenuine(cfg, s, a.party, a.step, c);
    }
    hide Apply, GenuineCopy, Enabled;
    CopyGrows(cfg, s, Apply(cfg, s, a), c);
  }

  /** Only a call adds a copy. */
  lemma FlightComesFrom(cfg: Config, s: State, a: Action, c: Copy)
    requires Enabled(cfg, s, a) && c in Apply(cfg, s, a).inFlight && c !in s.inFlight
    ensures a.Progress? && c in Started(s, a.party, a.step)
  {
    hide Started, Advance, Admit;
  }

  /** The receiver of a copy is the peer it was made for, since no two nodes share an address. */
  lemma ReceiveGenuine(cfg: Config, s: State, node: nat, copy: Copy)
    requires cfg.Separate() && cfg.Attributable() && Wired(cfg, s) && Genuine(cfg, s)
    requires Enabled(cfg, s, Receive(node, copy)) && copy.wire.session in s.nodes[node].parties
    ensures GenuineHeld(cfg, Apply(cfg, s, Receive(node, copy)),
                        Held(copy, s.nodes[node].parties[copy.wire.session]))
  {
    assert GenuineCopy(cfg, s, copy);
    assert node == copy.peer;
    ApplyGrows(cfg, s, Receive(node, copy));
    CopyGrows(cfg, s, Apply(cfg, s, Receive(node, copy)), copy);
  }

  /** Only a receive adds a held copy. */
  lemma HeldComesFrom(cfg: Config, s: State, a: Action, h: Held)
    requires Enabled(cfg, s, a) && h in Apply(cfg, s, a).held && h !in s.held
    ensures a.Receive? && a.copy.wire.session in s.nodes[a.node].parties
    ensures h == Held(a.copy, s.nodes[a.node].parties[a.copy.wire.session])
  {
    if a.OnMsg? {
      RemoveAtMultiset(s.held, a.index);
    }
  }

  lemma HeldStep(cfg: Config, s: State, a: Action, h: Held)
    requires cfg.Separate() && cfg.Attributable() && Wired(cfg, s) && Genuine(cfg, s) && Enabled(cfg, s, a)
    requires h in Apply(cfg, s, a).held
    ensures GenuineHeld(cfg, Apply(cfg, s, a), h)
  {
    ApplyGrows(cfg, s, a);
    if h in s.held {
      assert GenuineHeld(cfg, s, h);
      hide Apply, Enabled, Wired, Genuine, GenuineCopy, GenuineInbox, Sent, Config.Separate, Config.Attributable;
      CopyGrows(cfg, s, Apply(cfg, s, a), h.copy);
    } else {
      HeldComesFrom(cfg, s, a, h);
      hide Apply, Wired, Genuine, GenuineHeld;
      ReceiveGenuine(cfg, s, a.node, a.copy);
    }
  }

  /** What `OnMsg` queues was sent by the node it names, since the sender's id survives the cut. */
  lemma OnMsgGenuine(cfg: Config, s: State, index: nat)
    requires cfg.Attributable() && Genuine(cfg, s) && Enabled(cfg, s, OnMsg(index))
    requires s.held[index].copy.wire.from % UINT16 < MAX_UINT16
    ensures var h := s.held[index];
            Sent(s, s.parties[h.party].session, h.copy.wire.from % UINT16, s.parties[h.party].node,
                 h.copy.wire.payload, h.copy.wire.broadcast)
  {
    hide Sent;
    assert GenuineHeld(cfg, s, s.held[index]);
    Digits.DivModUnique(UINT16, 0, s.held[index].copy.wire.from);
  }

  /** An inbox entry is an old one or the one that `OnMsg` queues. */
  lemma InboxComesFrom(cfg: Config, s: State, a: Action, r: nat, i: nat)
    requires Enabled(cfg, s, a) && r < |Apply(cfg, s, a).parties| && i < |Apply(cfg, s, a).parties[r].inbox|
    ensures r < |s.parties|
    ensures var q := Apply(cfg, s, a).parties[r].inbox[i];
            || (exists j | 0 <= j < |s.parties[r].inbox| :: s.parties[r].inbox[j] == q)
            || (a.OnMsg? && r == s.held[a.index].party &&
                var wire := s.held[a.index].copy.wire;
                wire.from % UINT16 < MAX_UINT16 && q == Queued(wire.payload, wire.from % UINT16, wire.broadcast))
  {
    PartyStep(cfg, s, a, r);
    hide Apply, Enabled, Advance;
    var q := Apply(cfg, s, a).parties[r].inbox[i];
    if i < |s.parties[r].inbox| && s.parties[r].inbox[i] == q {
    } else if a == Consume(r) {
      assert s.parties[r].inbox[i + 1] == q;
    }
  }

  lemma InboxStep(cfg: Config, s: State, a: Action, r: nat)
    requires cfg.Separate() && cfg.Attributable() && Wired(cfg, s) && Genuine(cfg, s) && Enabled(cfg, s, a)
    requires r < |Apply(cfg, s, a).parties|
    ensures GenuineInbox(Apply(cfg, s, a), Apply(cfg, s, a).parties[r])
  {
    var t := Apply(cfg, s, a);
    ApplyGrows(cfg, s, a);
    var p := t.parties[r];
    forall i | 0 <= i < |p.inbox|
      ensures Sent(t, p.session, p.inbox[i].from, p.node, p.inbox[i].payload, p.inbox[i].broadcast)
    {
      InboxComesFrom(cfg, s, a, r, i);
      hide Apply, Sent, Enabled;
      if j :| 0 <= j < |s.parties[r].inbox| && s.parties[r].inbox[j] == p.inbox[i] {
        assert GenuineInbox(s, s.parties[r]);
      } else {
        OnMsgGenuine(cfg, s, a.index);
      }
      SentGrows(s, t, p.session, p.inbox[i].from, p.node, p.inbox[i].payload, p.inbox[i].broadcast);
    }
  }

  lemma GenuineStep(cfg: Config, s: State, a: Action)
    requires cfg.Separate() && cfg.Attributable() && Accounted(cfg, s) && Genuine(cfg, s) && Enabled(cfg, s, a)
    ensures Genuine(cfg, Apply(cfg, s, a))
  {
    var t := Apply(cfg, s, a);
    hide Apply, GenuineCopy, GenuineHeld, GenuineInbox, AllOrdered, Wired;
    forall c | c in t.inFlight ensures GenuineCopy(cfg, t, c) {
      FlightStep(cfg, s, a, c);
    }
    forall i | 0 <= i < |t.held| ensures GenuineHeld(cfg, t, t.held[i]) {
      HeldStep(cfg, s, a, t.held[i]);
    }
    forall r | 0 <= r < |t.parties| ensures GenuineInbox(t, t.parties[r]) {
      InboxStep(cfg, s, a, r);
    }
  }

  // ----- bounds and conservation

  lemma BoundedStep(cfg: Config, s: State, a: Action)
    requires Bounded(s) && Enabled(cfg, s, a)
    ensures Bounded(Apply(cfg, s, a))
  {
    if a.Progress? {
      AdvanceGrows(s.parties[a.party].out, a.step);
    }
    hide Apply, Advance, Enabled;
    var t := Apply(cfg, s, a);
    forall r | 0 <= r < |t.parties|
      ensures |t.parties[r].inbox| <= CAPACITY && |t.parties[r].out.queue| <= CAPACITY
    {
      PartyStep(cfg, s, a, r);
    }
  }

  /** Replacing one party changes what was accepted by that party's difference. */
  lemma {:induction false} EnqueuedUpdate(parties: seq<Party>, r: nat, p: Party)
    requires r < |parties|
    ensures Enqueued(parties[r := p]) + |parties[r].inbox| + parties[r].consumed
         == Enqueued(parties) + |p.inbox| + p.consumed
    decreases |parties|
  {
    var m := |parties| - 1;
    if r < m {
      EnqueuedUpdate(parties[..m], r, p);
      assert parties[r := p][..m] == parties[..m][r := p];
    } else {
      assert parties[r := p][..m] == parties[..m];
    }
  }

  lemma EnqueuedStep(cfg: Config, s: State, a: Action)
    requires |s.accepted| == Enqueued(s.parties) && Enabled(cfg, s, a)
    ensures |Apply(cfg, s, a).accepted| == Enqueued(Apply(cfg, s, a).parties)
  {
    var t := Apply(cfg, s, a);
    match a {
      case Open(_, _) =>
        if t.parties != s.parties {
          assert t.parties[..|s.parties|] == s.parties;
        }
      case OnMsg(index) =>
        var r := s.held[index].party;
        if t.parties != s.parties {
          EnqueuedUpdate(s.parties, r, t.parties[r]);
        }
      case Consume(r) => EnqueuedUpdate(s.parties, r, t.parties[r]);
      case Progress(r, _) => EnqueuedUpdate(s.parties, r, t.parties[r]);
      case _ =>
    }
  }

  lemma HeldWithout(held: seq<Held>, i: nat)
    requires i < |held|
    ensures multiset(HeldCopies(held)) == multiset(HeldCopies(RemoveAt(held, i))) + multiset{held[i].copy}
  {
    assert HeldCopies(RemoveAt(held, i)) == RemoveAt(HeldCopies(held), i);
    RemoveAtMultiset(HeldCopies(held), i);
  }

  /** One call of a sender closure creates the fan-out's copies, each once, and puts all of them in
      flight; the other steps of the sending half create none. */
  lemma EmitAdds(cfg: Config, s: State, party: nat, step: Step)
    requires Enabled(cfg, s, Progress(party, step))
    ensures Apply(cfg, s, Progress(party, step)).created == s.created + Started(s, party, step)
    ensures Places(Apply(cfg, s, Progress(party, step))) == Places(s) + Started(s, party, step)
  {
    hide Started, HeldCopies;
    var t := Apply(cfg, s, Progress(party, step));
    assert t.created == s.created + Started(s, party, step) && t.inFlight == s.inFlight + Started(s, party, step);
    assert Places(t) == Places(s) + Started(s, party, step);
  }

  lemma HeldWith(held: seq<Held>, h: Held)
    ensures multiset(HeldCopies(held + [h])) == multiset(HeldCopies(held)) + multiset{h.copy}
  {
    assert HeldCopies(held + [h]) == HeldCopies(held) + [h.copy];
  }

  lemma ReceiveMoves(cfg: Config, s: State, node: nat, copy: Copy)
    requires Enabled(cfg, s, Receive(node, copy))
    ensures var t := Apply(cfg, s, Receive(node, copy)); t.created == s.created && Places(t) == Places(s)
  {
    hide HeldCopies;
    if copy.wire.session in s.nodes[node].parties {
      HeldWith(s.held, Held(copy, s.nodes[node].parties[copy.wire.session]));
    }
  }

  lemma OnMsgMoves(cfg: Config, s: State, index: nat)
    requires Enabled(cfg, s, OnMsg(index))
    ensures var t := Apply(cfg, s, OnMsg(index)); t.created == s.created && Places(t) == Places(s)
  {
    HeldWithout(s.held, index);
    hide HeldCopies, Admit, RemoveAt;
  }

  lemma OthersKeep(cfg: Config, s: State, a: Action)
    requires Enabled(cfg, s, a) && !a.Progress? && !a.Receive? && !a.OnMsg?
    ensures var t := Apply(cfg, s, a); t.created == s.created && Places(t) == Places(s)
  {
    hide HeldCopies;
  }

  lemma ConservedStep(cfg: Config, s: State, a: Action)
    requires Conserved(s) && Enabled(cfg, s, a)
    ensures Conserved(Apply(cfg, s, a))
  {
    EnqueuedStep(cfg, s, a);
    hide Enqueued, Places, Started, Apply;
    match a {
      case OnMsg(index) => OnMsgMoves(cfg, s, index);
      case Receive(node, copy) => ReceiveMoves(cfg, s, node, copy);
      case Progress(party, step) => EmitAdds(cfg, s, party, step);
      case _ => OthersKeep(cfg, s, a);
    }
  }

  lemma JudgedStep(cfg: Config, s: State, a: Action)
    requires Judged(cfg, s) && Enabled(cfg, s, a)
    ensures Judged(cfg, Apply(cfg, s, a))
  {
  }

  // ----- runs

  lemma {:induction false} RunAccounted(cfg: Config, actions: seq<Action>)
    requires Exec(cfg, actions).Some?
    ensures Accounted(cfg, Exec(cfg, actions).value)
    decreases |actions|
  {
    if actions == [] {
      assert HeldCopies([]) == [];
    } else {
      var m := |actions| - 1;
      RunAccounted(cfg, actions[..m]);
      var s := Exec(cfg, actions[..m]).value;
      WiredStep(cfg, s, actions[m]);
      BoundedStep(cfg, s, actions[m]);
      ConservedStep(cfg, s, actions[m]);
      JudgedStep(cfg, s, actions[m]);
      OrderedStep(cfg, s, actions[m]);
      hide Wired, Bounded, Conserved, Judged, AllOrdered, Apply, Enabled;
    }
  }

  lemma {:induction false} RunGenuine(cfg: Config, actions: seq<Action>)
    requires cfg.Separate() && cfg.Attributable() && Exec(cfg, actions).Some?
    ensures Genuine(cfg, Exec(cfg, actions).value)
    decreases |actions|
  {
    if actions != [] {
      var m := |actions| - 1;
      RunGenuine(cfg, actions[..m]);
      RunAccounted(cfg, actions[..m]);
      GenuineStep(cfg, Exec(cfg, actions[..m]).value, actions[m]);
      hide Accounted, Genuine, Apply, Enabled;
    }
  }

  /** Message i was taken and its calls are made: it is before the messages that wait, and before the one
      whose calls are still to make. */
  predicate Finished(out: Outbox, i: nat) {
    i + |out.queue| + (if out.calls == [] then 0 else 1) < |out.produced|
  }

  /** In every run, every message the protocol produced is waiting in its channel, or the calls for it are
      made or still to make, in order; every copy ever created is in flight, lost, dropped for want of a
      party, held, rejected or accepted; exactly the messages to refuse are rejected; what is accepted is
      queued or consumed; and neither channel exceeds its capacity. */
  lemma Conservation(cfg: Config, actions: seq<Action>)
    requires Exec(cfg, actions).Some?
    ensures var s := Exec(cfg, actions).value;
            && AllOrdered(s)
            && (forall r, i: nat | 0 <= r < |s.parties| && Finished(s.parties[r].out, i) ::
                  var m, made := s.parties[r].out.produced[i], s.parties[r].out.made;
                  && (m.wires && m.broadcast ==> Call(m.payload, true, 0) in made)
                  && (m.wires && !m.broadcast ==> forall to | to in m.to :: Call(m.payload, false, to) in made))
            && |s.created| == |s.inFlight| + |s.lost| + |s.dropped| + |s.held| + |s.rejected| + |s.accepted|
            && (forall c | c in s.rejected :: !cfg.parses(c.wire.payload) || c.wire.from % 65536 == 65535)
            && (forall c | c in s.accepted :: cfg.parses(c.wire.payload) && c.wire.from % 65536 != 65535)
            && |s.accepted| == Enqueued(s.parties)
            && forall r | 0 <= r < |s.parties| ::
                 |s.parties[r].inbox| <= 1000 && |s.parties[r].out.queue| <= 1000
  {
    RunAccounted(cfg, actions);
    var s := Exec(cfg, actions).value;
    hide Exec, Wired, Enqueued, Ordered;
    forall r, i: nat | 0 <= r < |s.parties| && Finished(s.parties[r].out, i)
      ensures var m, made := s.parties[r].out.produced[i], s.parties[r].out.made;
              && (m.wires && m.broadcast ==> Call(m.payload, true, 0) in made)
              && (m.wires && !m.broadcast ==> forall to | to in m.to :: Call(m.payload, false, to) in made)
    {
      FinishedIsMade(s.parties[r].out, i);
    }
  }
}
