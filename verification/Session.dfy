/** The session layer between n nodes: the protocol hands messages to its party's outgoing channel, from
    which a loop calls the sender closure; each call fans copies out to peers; each copy travels on its
    own; the receiving node looks the session's party up and hands the copy to it. Delivery is unordered
    and may fail. */
module Session {
  import opened Basics
  import opened Sequences

  const MAX_UINT16: nat := 0xFFFF
  const CAPACITY: nat := 1000

  type Payload = seq<int>

  datatype Wire = Wire(session: string, from: nat, to: nat, payload: Payload, broadcast: bool)

  /** A copy of a message on its way to the peer that the fan-out chose. */
  datatype Copy = Copy(peer: nat, address: string, wire: Wire)

  /** An entry of a party's inbox. */
  datatype Queued = Queued(payload: Payload, from: nat, broadcast: bool)

  /** A message of the protocol, for everyone or for some party numbers; it has wire bytes or none. */
  datatype Message = Message(payload: Payload, broadcast: bool, to: seq<uint16>, wires: bool)

  /** One call of a sender closure. */
  datatype Call = Call(payload: Payload, broadcast: bool, to: uint16)

  // ----- what one node does

  /** The calls that the sending loop makes for a message: one for a broadcast, one for each addressee of
      any other, none without wire bytes. */
  function CallsOf(m: Message): seq<Call> {
    if !m.wires then []
    else if m.broadcast then [Call(m.payload, true, 0)]
    else seq(|m.to|, i requires 0 <= i < |m.to| => Call(m.payload, false, m.to[i]))
  }

  /** A wired broadcast makes one broadcast call with its payload; any other wired message makes one call
      for each addressee, in order; a message without wire bytes makes none. */
  lemma CallsExactly(m: Message)
    ensures !m.wires ==> CallsOf(m) == []
    ensures m.wires && m.broadcast ==> CallsOf(m) == [Call(m.payload, true, 0)]
    ensures m.wires && !m.broadcast ==>
              && |CallsOf(m)| == |m.to|
              && forall i | 0 <= i < |m.to| :: CallsOf(m)[i] == Call(m.payload, false, m.to[i])
  {
  }

  function AllCalls(messages: seq<Message>): seq<Call> {
    if messages == [] then [] else CallsOf(messages[0]) + AllCalls(messages[1..])
  }

  lemma {:induction false} AllCallsConcat(a: seq<Message>, b: seq<Message>)
    ensures AllCalls(a + b) == AllCalls(a) + AllCalls(b)
    decreases |a|
  {
    hide CallsOf;
    if a == [] {
      assert a + b == b;
    } else {
      AllCallsConcat(a[1..], b);
      assert (a + b)[1..] == a[1..] + b;
    }
  }

  /** The calls for a list of messages are the calls for each, one after the other. */
  lemma AllCallsSplit(a: seq<Message>, m: Message, b: seq<Message>)
    ensures AllCalls([]) == []
    ensures AllCalls(a + [m] + b) == AllCalls(a) + CallsOf(m) + AllCalls(b)
  {
    AllCallsConcat(a, [m]);
    AllCallsConcat(a + [m], b);
    hide CallsOf;
    assert AllCalls([m]) == CallsOf(m) + [];
  }

  /** The party of a session, created when there is none. */
  function Opened<P>(parties: map<string, P>, session: string, created: P): map<string, P> {
    if session in parties then parties else parties[session := created]
  }

  function Closed<P>(parties: map<string, P>, session: string): map<string, P> {
    map s | s in parties && s != session :: parties[s]
  }

  /** The copies that one call of the sender closure starts. */
  function Fanout(self: nat, peers: map<nat, string>, wire: Wire): set<Copy> {
    if wire.broadcast then set p | p in peers && p != self :: Copy(p, peers[p], wire)
    else if wire.to in peers then {Copy(wire.to, peers[wire.to], wire)}
    else {}
  }

  datatype Verdict = Accepted | Rejected | Blocked

  /** What `OnMsg` does with a message from a 16-bit sender; a full inbox makes it wait. */
  function Admit(parses: Payload -> bool, payload: Payload, from: nat, inbox: seq<Queued>): Verdict
    requires from < UINT16
  {
    if !parses(payload) then Rejected
    else if from >= MAX_UINT16 then Rejected
    else if |inbox| < CAPACITY then Accepted
    else Blocked
  }

  /** A message is rejected exactly when it does not parse or comes from 65535, and any other is accepted
      exactly when the inbox has fewer than 1000 entries. */
  lemma AdmitExactly(parses: Payload -> bool, payload: Payload, from: nat, inbox: seq<Queued>)
    requires from < 65536
    ensures Admit(parses, payload, from, inbox).Rejected? <==> !parses(payload) || from == 65535
    ensures Admit(parses, payload, from, inbox).Accepted? <==> parses(payload) && from != 65535 && |inbox| < 1000
  {
  }

  /** A broadcast starts exactly one copy for every peer and none for its sender; any other message
      starts exactly one copy, for its addressee, when that is a peer, and otherwise none. */
  lemma FanoutExactly(self: nat, peers: map<nat, string>, wire: Wire)
    ensures wire.broadcast ==>
              && |Fanout(self, peers, wire)| == |peers.Keys - {self}|
              && forall p | p in peers :: Copy(p, peers[p], wire) in Fanout(self, peers, wire) <==> p != self
    ensures !wire.broadcast ==> |Fanout(self, peers, wire)| == if wire.to in peers then 1 else 0
    ensures forall c | c in Fanout(self, peers, wire) ::
              c.peer in peers && c == Copy(c.peer, peers[c.peer], wire) && (wire.broadcast || c.peer == wire.to)
  {
    if wire.broadcast {
      CopiesCardinality(peers.Keys - {self}, peers, wire);
      assert Fanout(self, peers, wire) == CopiesFor(peers.Keys - {self}, peers, wire);
    }
  }

  function CopiesFor(ids: set<nat>, peers: map<nat, string>, wire: Wire): set<Copy>
    requires ids <= peers.Keys
  {
    set p | p in ids :: Copy(p, peers[p], wire)
  }

  lemma {:induction false} CopiesCardinality(ids: set<nat>, peers: map<nat, string>, wire: Wire)
    requires ids <= peers.Keys
    ensures |CopiesFor(ids, peers, wire)| == |ids|
  {
    if p :| p in ids {
      CopiesCardinality(ids - {p}, peers, wire);
      assert CopiesFor(ids, peers, wire) == CopiesFor(ids - {p}, peers, wire) + {Copy(p, peers[p], wire)};
    }
  }

  // ----- the system

  datatype Config = Config(ids: set<nat>, address: nat -> string, parses: Payload -> bool) {
    /** No two nodes listen on one address. */
    ghost predicate Separate() {
      forall i, j | i in ids && j in ids && address(i) == address(j) :: i == j
    }

    /** Cutting an id to 16 bits keeps it, or makes it the one number that receivers refuse. */
    predicate Attributable() {
      forall i | i in ids :: i < UINT16 || i % UINT16 == MAX_UINT16
    }
  }

  datatype Node = Node(peers: map<nat, string>, parties: map<string, nat>)

  /** The sending half of a party: what the protocol has produced, what of it waits in the channel, the
      calls still to make for the message taken last, and the calls made. */
  datatype Outbox = Outbox(
    open: bool, produced: seq<Message>, queue: seq<Message>, calls: seq<Call>, made: seq<Call>)

  const NOTHING := Outbox(true, [], [], [], [])

  /** The protocol hands a message out; the loop takes the next one, makes a call, or is told to stop. */
  datatype Step = Produce(message: Message) | Take | Emit | Stop

  /** A full channel makes the protocol wait, and the loop takes a message when it has made all calls for
      the last. */
  predicate Ready(out: Outbox, step: Step) {
    match step
    case Produce(_) => |out.queue| < CAPACITY
    case Take => out.open && out.calls == [] && out.queue != []
    case Emit => out.calls != []
    case Stop => true
  }

  function Advance(out: Outbox, step: Step): Outbox
    requires Ready(out, step)
  {
    match step
    case Produce(message) => out.(produced := out.produced + [message], queue := out.queue + [message])
    case Take => out.(queue := out.queue[1..], calls := CallsOf(out.queue[0]))
    case Emit => out.(calls := out.calls[1..], made := out.made + [out.calls[0]])
    case Stop => out.(open := false)
  }

  /** A party object; it outlives its entry in the session map. */
  datatype Party = Party(node: nat, session: string, inbox: seq<Queued>, consumed: nat, out: Outbox)

  /** A copy whose receiver has found the party but not yet finished `OnMsg`. */
  datatype Held = Held(copy: Copy, party: nat)

  datatype State = State(
    nodes: map<nat, Node>,
    parties: seq<Party>,
    created: multiset<Copy>,
    inFlight: multiset<Copy>,
    lost: multiset<Copy>,
    dropped: multiset<Copy>,
    held: seq<Held>,
    rejected: multiset<Copy>,
    accepted: multiset<Copy>)

  datatype Action =
    | AddPeer(node: nat, peer: nat)
    | Open(node: nat, session: string)
    | Close(node: nat, session: string)
    | Progress(party: nat, step: Step)
    | Lose(copy: Copy)
    | Receive(node: nat, copy: Copy)
    | OnMsg(index: nat)
    | Consume(party: nat)

  function Initial(cfg: Config): State {
    State(map i | i in cfg.ids :: Node(map[], map[]), [], multiset{}, multiset{}, multiset{},
          multiset{}, [], multiset{}, multiset{})
  }

  /** The message that a party's sender closure builds. */
  function WireOf(p: Party, call: Call): Wire { Wire(p.session, p.node, call.to, call.payload, call.broadcast) }

  /** A step of a party's sending half. */
  predicate CanProgress(s: State, party: nat, step: Step) {
    party < |s.parties| && s.parties[party].node in s.nodes && Ready(s.parties[party].out, step)
  }

  /** The copies that the step starts: the fan-out of a call, and none otherwise. */
  function Started(s: State, party: nat, step: Step): multiset<Copy>
    requires CanProgress(s, party, step)
  {
    var p := s.parties[party];
    if step.Emit? then multiset(Fanout(p.node, s.nodes[p.node].peers, WireOf(p, p.out.calls[0]))) else multiset{}
  }

  predicate Enabled(cfg: Config, s: State, a: Action) {
    match a
    case AddPeer(node, peer) => node in s.nodes && peer in cfg.ids && peer != node
    case Open(node, _) => node in s.nodes
    case Close(node, _) => node in s.nodes
    case Progress(party, step) => CanProgress(s, party, step)
    case Lose(copy) => copy in s.inFlight
    case Receive(node, copy) => node in s.nodes && copy in s.inFlight && copy.address == cfg.address(node)
    case OnMsg(index) =>
      && index < |s.held| && s.held[index].party < |s.parties|
      && var h := s.held[index];
         !Admit(cfg.parses, h.copy.wire.payload, h.copy.wire.from % UINT16, s.parties[h.party].inbox).Blocked?
    case Consume(party) => party < |s.parties| && s.parties[party].inbox != []
  }

  function Apply(cfg: Config, s: State, a: Action): State
    requires Enabled(cfg, s, a)
  {
    match a
    case AddPeer(node, peer) =>
      var n := s.nodes[node];
      s.(nodes := s.nodes[node := n.(peers := n.peers[peer := cfg.address(peer)])])
    case Open(node, session) =>
      var n := s.nodes[node];
      if session in n.parties then s else
        s.(nodes := s.nodes[node := n.(parties := Opened(n.parties, session, |s.parties|))],
           parties := s.parties + [Party(node, session, [], 0, NOTHING)])
    case Close(node, session) =>
      var n := s.nodes[node];
      s.(nodes := s.nodes[node := n.(parties := Closed(n.parties, session))])
    case Progress(party, step) =>
      var p := s.parties[party];
      var copies := Started(s, party, step);
      s.(parties := s.parties[party := p.(out := Advance(p.out, step))],
         created := s.created + copies, inFlight := s.inFlight + copies)
    case Lose(copy) =>
      s.(inFlight := s.inFlight - multiset{copy}, lost := s.lost + multiset{copy})
    case Receive(node, copy) =>
      var parties := s.nodes[node].parties;
      var s' := s.(inFlight := s.inFlight - multiset{copy});
      if copy.wire.session in parties then
        s'.(held := s.held + [Held(copy, parties[copy.wire.session])])
      else
        s'.(dropped := s.dropped + multiset{copy})
    case OnMsg(index) =>
      var h := s.held[index];
      var p := s.parties[h.party];
      var wire := h.copy.wire;
      var from := wire.from % UINT16;
      var s' := s.(held := RemoveAt(s.held, index));
      if Admit(cfg.parses, wire.payload, from, p.inbox).Accepted? then
        s'.(parties := s.parties[h.party := p.(inbox := p.inbox + [Queued(wire.payload, from, wire.broadcast)])],
            accepted := s.accepted + multiset{h.copy})
      else
        s'.(rejected := s.rejected + multiset{h.copy})
    case Consume(party) =>
      var p := s.parties[party];
      s.(parties := s.parties[party := p.(inbox := p.inbox[1..], consumed := p.consumed + 1)])
  }

  /** The state after a run, or None when an action was not enabled. */
  function Exec(cfg: Config, actions: seq<Action>): (r: Option<State>) {
    if actions == [] then Some(Initial(cfg)) else
      var m := |actions| - 1;
      match Exec(cfg, actions[..m])
      case None => None
      case Some(s) => if Enabled(cfg, s, actions[m]) then Some(Apply(cfg, s, actions[m])) else None
  }

  // ----- what some steps do

  /** Once a session is closed on a node, a copy for it is dropped there, and other sessions stay as they are. */
  lemma ClosedDrops(cfg: Config, s: State, node: nat, session: string, copy: Copy)
    requires Enabled(cfg, s, Close(node, session)) && copy.wire.session == session
    requires Enabled(cfg, Apply(cfg, s, Close(node, session)), Receive(node, copy))
    ensures var t := Apply(cfg, s, Close(node, session));
            && t.nodes[node].parties == s.nodes[node].parties - {session} && t.nodes[node].peers == s.nodes[node].peers
            && Apply(cfg, t, Receive(node, copy)).dropped == s.dropped + multiset{copy}
            && Apply(cfg, t, Receive(node, copy)).held == s.held
  {
  }

  /** A received copy is held for the party of its session on the node. */
  lemma OpenedHolds(cfg: Config, s: State, node: nat, session: string, copy: Copy)
    requires Enabled(cfg, s, Open(node, session)) && copy.wire.session == session
    requires Enabled(cfg, Apply(cfg, s, Open(node, session)), Receive(node, copy))
    ensures var t := Apply(cfg, s, Open(node, session));
            && session in t.nodes[node].parties
            && (session in s.nodes[node].parties ==> t == s)
            && (session !in s.nodes[node].parties ==> t.nodes[node].parties[session] == |s.parties|)
            && Apply(cfg, t, Receive(node, copy)).held == s.held + [Held(copy, t.nodes[node].parties[session])]
            && Apply(cfg, t, Receive(node, copy)).dropped == s.dropped
  {
  }

  /** A stopped loop takes no more messages. */
  lemma StopsTaking(out: Outbox)
    ensures !Ready(Advance(out, Stop), Take)
  {
  }

  // ----- invariants

  /** Peers are other nodes under their own addresses. */
  ghost predicate PeersWired(cfg: Config, nodes: map<nat, Node>) {
    && nodes.Keys == cfg.ids
    && forall i, p | i in nodes && p in nodes[i].peers ::
         p in cfg.ids && p != i && nodes[i].peers[p] == cfg.address(p)
  }

  /** A session's entry is a party of that session on that node. */
  ghost predicate SessionsWired(nodes: map<nat, Node>, parties: seq<Party>) {
    forall i, session | i in nodes && session in nodes[i].parties ::
      var r := nodes[i].parties[session];
      r < |parties| && parties[r].node == i && parties[r].session == session
  }

  ghost predicate Wired(cfg: Config, s: State) {
    && PeersWired(cfg, s.nodes)
    && SessionsWired(s.nodes, s.parties)
    && (forall r | 0 <= r < |s.parties| :: s.parties[r].node in cfg.ids)
  }

  /** Calls are made in the order of the messages, and none is lost or made twice. */
  ghost predicate Ordered(out: Outbox) {
    Paced(out) && Sequenced(out)
  }

  ghost predicate Sequenced(out: Outbox) { out.made + out.calls + AllCalls(out.queue) == AllCalls(out.produced) }

  /** The channel holds the messages produced last, and the calls to make are for the one taken last. */
  ghost predicate Paced(out: Outbox) {
    && |out.queue| <= |out.produced| && out.queue == out.produced[|out.produced| - |out.queue|..]
    && (out.calls != [] ==>
          && |out.queue| < |out.produced|
          && |out.calls| <= |CallsOf(out.produced[|out.produced| - |out.queue| - 1])|)
  }

  ghost predicate AllOrdered(s: State) { forall r | 0 <= r < |s.parties| :: Ordered(s.parties[r].out) }

  /** A message is for a node: it is a broadcast, or one of its addressees is the node. */
  ghost predicate IsFor(m: Message, node: nat, payload: Payload, broadcast: bool) {
    m.wires && m.payload == payload && m.broadcast == broadcast && (broadcast || node in m.to)
  }

  ghost predicate Produced(out: Outbox, node: nat, payload: Payload, broadcast: bool) {
    exists m | m in out.produced :: IsFor(m, node, payload, broadcast)
  }

  /** The protocol at some party of the session on node `from` produced this message for `node`, which
      is another node. */
  ghost predicate Sent(s: State, session: string, from: nat, node: nat, payload: Payload, broadcast: bool) {
    && from != node
    && exists r: nat ::
         && r < |s.parties| && s.parties[r].session == session && s.parties[r].node == from
         && Produced(s.parties[r].out, node, payload, broadcast)
  }

  ghost predicate GenuineCopy(cfg: Config, s: State, c: Copy) {
    && c.peer in cfg.ids && c.wire.from in cfg.ids && c.address == cfg.address(c.peer)
    && Sent(s, c.wire.session, c.wire.from, c.peer, c.wire.payload, c.wire.broadcast)
  }

  ghost predicate GenuineHeld(cfg: Config, s: State, h: Held) {
    && GenuineCopy(cfg, s, h.copy)
    && h.party < |s.parties|
    && s.parties[h.party].node == h.copy.peer && s.parties[h.party].session == h.copy.wire.session
  }

  ghost predicate GenuineInbox(s: State, p: Party) {
    forall i | 0 <= i < |p.inbox| ::
      Sent(s, p.session, p.inbox[i].from, p.node, p.inbox[i].payload, p.inbox[i].broadcast)
  }

  ghost predicate Genuine(cfg: Config, s: State) {
    && (forall c | c in s.inFlight :: GenuineCopy(cfg, s, c))
    && (forall i | 0 <= i < |s.held| :: GenuineHeld(cfg, s, s.held[i]))
    && (forall r | 0 <= r < |s.parties| :: GenuineInbox(s, s.parties[r]))
  }

  ghost predicate Bounded(s: State) {
    forall r | 0 <= r < |s.parties| ::
      |s.parties[r].inbox| <= CAPACITY && |s.parties[r].out.queue| <= CAPACITY
  }

  function HeldCopies(held: seq<Held>): (c: seq<Copy>)
    ensures |c| == |held|
  {
    seq(|held|, i requires 0 <= i < |held| => held[i].copy)
  }

  /** What a party has ever accepted. */
  function Enqueued(parties: seq<Party>): nat {
    if parties == [] then 0 else
      var m := |parties| - 1;
      Enqueued(parties[..m]) + |parties[m].inbox| + parties[m].consumed
  }

  /** Where the copies are. */
  function Places(s: State): multiset<Copy> {
    s.inFlight + s.lost + s.dropped + multiset(HeldCopies(s.held)) + s.rejected + s.accepted
  }

  /** Every copy is in exactly one place, and accepted copies are queued or consumed. */
  ghost predicate Conserved(s: State) {
    s.created == Places(s) && |s.accepted| == Enqueued(s.parties)
  }

  /** A message that `OnMsg` must refuse. */
  predicate Refused(cfg: Config, c: Copy) {
    !cfg.parses(c.wire.payload) || c.wire.from % UINT16 == MAX_UINT16
  }

  /** Exactly the messages to refuse are rejected. */
  ghost predicate Judged(cfg: Config, s: State) {
    && (forall c | c in s.rejected :: Refused(cfg, c))
    && (forall c | c in s.accepted :: !Refused(cfg, c))
  }

  /** What holds in every configuration. */
  ghost predicate Accounted(cfg: Config, s: State) {
    && Wired(cfg, s) && Bounded(s) && Conserved(s) && Judged(cfg, s)
    && AllOrdered(s)
  }
}
