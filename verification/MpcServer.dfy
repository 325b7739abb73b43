/** The server and party objects, whose methods are the node-level steps of the session layer. */
module MpcServer {
  import opened Basics
  import opened Digits
  import opened PartyIds
  import opened Sequences
  import S = Session
  import Decimal

  class Party {
    const id: uint16
    var ids: seq<PartyID>
    var index: int
    var sender: Option<string>  // the session of the sender closure
    var inbox: seq<S.Queued>
    var out: seq<S.Message>

    constructor (id: uint16)
      ensures this.id == id && ids == [] && sender == None && inbox == [] && out == []
    {
      this.id := id;
      ids, index, sender, inbox, out := [], -1, None, [], [];
    }

    /** The parties of a session, this party's place among them and the closure that sends for it; the
        sending loop starts. */
    method Init(parties: seq<uint16>, sessionID: string)
      modifies this`ids, this`index, this`sender
      ensures ids == PartyIDs(parties) && sender == Some(sessionID)
      ensures index == if id in parties then CountBelow(parties, id) else -1
    {
      var partyIDs := PartyIDsFromNumbers(parties);
      ids := partyIDs;
      index := LocatePartyIndex(ids, PartyID(Key(id), -1));
      sender := Some(sessionID);
      IndexIsRank(parties, id);
    }

    /** The sending loop up to its stop after some messages: takes them in order and makes their calls. */
    method SendMessages(rounds: nat) returns (calls: seq<S.Call>)
      requires rounds <= |out|
      modifies this`out
      ensures calls == S.AllCalls(old(out)[..rounds]) && out == old(out)[rounds..]
    {
      calls := [];
      assert old(out)[..0] == [];
      hide S.CallsOf;
      for round := 0 to rounds
        invariant out == old(out)[round..] && calls == S.AllCalls(old(out)[..round])
      {
        var msg := out[0];
        out := out[1..];
        var next := CallsForMessage(msg);
        S.AllCallsConcat(old(out)[..round], [msg]);
        assert old(out)[..round + 1] == old(out)[..round] + [msg];
        assert S.AllCalls([msg]) == S.CallsOf(msg) + [];
        calls := calls + next;
      }
    }

    /** One call for a broadcast, one for each addressee of another message. */
    method CallsForMessage(msg: S.Message) returns (calls: seq<S.Call>)
      ensures calls == S.CallsOf(msg)
      ensures !msg.wires ==> calls == []
      ensures msg.wires && msg.broadcast ==> calls == [S.Call(msg.payload, true, 0)]
      ensures msg.wires && !msg.broadcast ==>
                && |calls| == |msg.to|
                && forall i | 0 <= i < |msg.to| :: calls[i] == S.Call(msg.payload, false, msg.to[i])
    {
      if !msg.wires {
        return [];
      }
      if msg.broadcast {
        return [S.Call(msg.payload, true, 0)];
      }
      calls := [];
      hide Key, Number, S.CallsOf;
      for i := 0 to |msg.to|
        invariant |calls| == i && forall j | 0 <= j < i :: calls[j] == S.Call(msg.payload, false, msg.to[j])
      {
        var key := Key(msg.to[i]);
        KeyRoundTrip(msg.to[i]);
        calls := calls + [S.Call(msg.payload, false, Number(key) % UINT16)];
      }
      S.CallsExactly(msg);
    }

    /** Queues a message that parses, unless its sender is the refused number; a full queue makes the
        caller wait. */
    method OnMsg(parses: S.Payload -> bool, payload: S.Payload, from: uint16, broadcast: bool)
      returns (verdict: S.Verdict)
      modifies this`inbox
      ensures verdict == S.Admit(parses, payload, from, old(inbox))
      ensures verdict.Rejected? <==> !parses(payload) || from == 65535
      ensures verdict.Accepted? <==> parses(payload) && from < 65535 && |old(inbox)| < 1000
      ensures inbox == if verdict.Accepted? then old(inbox) + [S.Queued(payload, from, broadcast)] else old(inbox)
    {
      KeyRoundTrip(from);
      S.AdmitExactly(parses, payload, from, inbox);
      hide S.Admit, Key, Number, Locate;
      var index := LocatePartyIndex(ids, PartyID(Key(from), -1));
      var sender := PartyID(Key(from), index);
      if !parses(payload) {
        return S.Rejected;
      }
      var key := Number(sender.key);
      if key >= S.MAX_UINT16 {
        return S.Rejected;
      }
      var claimedFrom := key % UINT16;
      if claimedFrom != from {
        return S.Rejected;
      }
      if |inbox| >= S.CAPACITY {
        return S.Blocked;
      }
      inbox := inbox + [S.Queued(payload, from, broadcast)];
      return S.Accepted;
    }
  }

  datatype Dispatched = NoParty | Handed(verdict: S.Verdict)

  class Server {
    const nodeID: uint32
    var parties: map<string, Party>
    var peers: map<nat, string>

    constructor (nodeID: uint32)
      ensures this.nodeID == nodeID && parties == map[] && peers == map[]
    {
      this.nodeID := nodeID;
      parties, peers := map[], map[];
    }

    method AddPeer(id: nat, address: string)
      modifies this`peers
      ensures peers == old(peers)[id := address]
    {
      peers := peers[id := address];
    }

    /** No two sessions share a party. */
    ghost predicate Valid()
      reads this
    {
      forall s, t | s in parties && t in parties && parties[s] == parties[t] :: s == t
    }

    /** The inbox of every session. */
    ghost function View(): Inboxes
      reads this, parties.Values
    {
      map session | session in parties :: parties[session].inbox
    }

    method GetOrCreateParty(sessionID: string) returns (p: Party)
      modifies this`parties
      ensures old(Valid()) ==> Valid()
      ensures parties == S.Opened(old(parties), sessionID, p) && parties[sessionID] == p
      ensures parties == if sessionID in old(parties) then old(parties) else old(parties)[sessionID := p]
      ensures sessionID !in old(parties) ==> fresh(p) && p.inbox == [] && p.id == nodeID % UINT16
    {
      if sessionID in parties {
        return parties[sessionID];
      }
      p := new Party(nodeID % UINT16);
      parties := parties[sessionID := p];
    }

    method RemoveParty(sessionID: string)
      modifies this`parties
      ensures old(Valid()) ==> Valid()
      ensures parties == S.Closed(old(parties), sessionID) && parties == old(parties) - {sessionID}
    {
      parties := parties - {sessionID};
    }

    /** One call of a party's sender closure: the copies it starts, each once. */
    method SendMessage(sessionID: string, msg: S.Payload, broadcast: bool, to: uint16) returns (copies: seq<S.Copy>)
      ensures multiset(copies) == multiset(S.Fanout(nodeID, peers, S.Wire(sessionID, nodeID, to, msg, broadcast)))
    {
      var streamMsg := S.Wire(sessionID, nodeID, to, msg, broadcast);
      if broadcast {
        copies := StartCopies(streamMsg);
        assert CopiesTo(peers.Keys, streamMsg) == S.Fanout(nodeID, peers, streamMsg);
      } else if to in peers {
        copies := [S.Copy(to, peers[to], streamMsg)];
      } else {
        copies := [];
      }
    }

    /** Visits the peers in some order and starts a copy for each but this node. */
    method StartCopies(wire: S.Wire) returns (copies: seq<S.Copy>)
      ensures multiset(copies) == multiset(CopiesTo(peers.Keys, wire))
    {
      copies := [];
      var visited: set<nat> := {};
      while peers.Keys - visited != {}
        invariant visited <= peers.Keys && multiset(copies) == multiset(CopiesTo(visited, wire))
        decreases peers.Keys - visited
      {
        var peerID :| peerID in peers.Keys - visited;
        NextCopy(visited, peerID, wire);
        if peerID != nodeID {
          copies := copies + [S.Copy(peerID, peers[peerID], wire)];
        }
        visited := visited + {peerID};
      }
      assert visited == peers.Keys;
    }

    ghost function CopiesTo(visited: set<nat>, wire: S.Wire): set<S.Copy>
      requires visited <= peers.Keys
      reads this
    {
      set p | p in visited && p != nodeID :: S.Copy(p, peers[p], wire)
    }

    lemma NextCopy(visited: set<nat>, p: nat, wire: S.Wire)
      requires visited <= peers.Keys && p in peers && p !in visited
      ensures multiset(CopiesTo(visited + {p}, wire))
           == multiset(CopiesTo(visited, wire))
              + if p == nodeID then multiset{} else multiset{S.Copy(p, peers[p], wire)}
    {
      var c := S.Copy(p, peers[p], wire);
      assert CopiesTo(visited + {p}, wire) == CopiesTo(visited, wire) + if p == nodeID then {} else {c};
      assert c !in CopiesTo(visited, wire);
    }

    /** One round of the receive loop: the session's party gets the message, cut to a 16-bit sender,
        and nobody else does. */
    method Dispatch(parses: S.Payload -> bool, msg: S.Wire) returns (d: Dispatched)
      modifies parties.Values`inbox
      ensures d.NoParty? <==> msg.session !in parties
      ensures d.Handed? ==>
                && var p := parties[msg.session];
                && var from := msg.from % UINT16;
                && d.verdict == S.Admit(parses, msg.payload, from, old(p.inbox))
                && p.inbox == if d.verdict.Accepted? then old(p.inbox) + [S.Queued(msg.payload, from, msg.broadcast)]
                              else old(p.inbox)
      ensures forall p | p in parties.Values && (d.NoParty? || p != parties[msg.session]) :: p.inbox == old(p.inbox)
      ensures Valid() ==> Deliver(parses, old(View()), msg) == if d == Handed(S.Blocked) then None else Some(View())
    {
      if msg.session !in parties {
        return NoParty;
      }
      var p := parties[msg.session];
      var verdict := p.OnMsg(parses, msg.payload, msg.from % UINT16, msg.broadcast);
      assert Valid() ==>
          View() == if verdict.Accepted? then old(View())[msg.session := p.inbox] else old(View());
      return Handed(verdict);
    }

    /** The receive loop on the messages of one stream, which ends when a receive fails. It handles them in
        order as far as no inbox is full; the message at which one is keeps it waiting. */
    method StreamMessages(parses: S.Payload -> bool, stream: seq<S.Wire>) returns (handled: nat)
      requires Valid()
      modifies parties.Values`inbox
      ensures handled <= |stream| && DeliverAll(parses, old(View()), stream[..handled]) == Some(View())
      ensures handled < |stream| ==> Deliver(parses, View(), stream[handled]) == None
    {
      handled := 0;
      while handled < |stream|
        invariant handled <= |stream| && DeliverAll(parses, old(View()), stream[..handled]) == Some(View())
      {
        ghost var before := View();
        DeliverOne(parses, old(View()), stream, handled);
        hide Deliver, DeliverAll;
        var d := Dispatch(parses, stream[handled]);
        if d == Handed(S.Blocked) {
          assert View() == before;
          return;
        }
        handled := handled + 1;
      }
    }
  }

  // ----- the inboxes of one node

  type Inboxes = map<string, seq<S.Queued>>

  /** What a received message does, or None when its inbox is full. */
  function Deliver(parses: S.Payload -> bool, boxes: Inboxes, msg: S.Wire): Option<Inboxes> {
    if msg.session !in boxes then Some(boxes) else
      var from := msg.from % UINT16;
      match S.Admit(parses, msg.payload, from, boxes[msg.session])
      case Accepted =>
        Some(boxes[msg.session := boxes[msg.session] + [S.Queued(msg.payload, from, msg.broadcast)]])
      case Rejected => Some(boxes)
      case Blocked => None
  }

  function DeliverAll(parses: S.Payload -> bool, boxes: Inboxes, stream: seq<S.Wire>): Option<Inboxes> {
    if stream == [] then Some(boxes) else
      var m := |stream| - 1;
      match DeliverAll(parses, boxes, stream[..m])
      case None => None
      case Some(b) => Deliver(parses, b, stream[m])
  }

  lemma DeliverOne(parses: S.Payload -> bool, boxes: Inboxes, stream: seq<S.Wire>, n: nat)
    requires n < |stream| && DeliverAll(parses, boxes, stream[..n]).Some?
    ensures DeliverAll(parses, boxes, stream[..n + 1])
         == Deliver(parses, DeliverAll(parses, boxes, stream[..n]).value, stream[n])
  {
    hide Deliver;
    var next := stream[..n + 1];
    assert next[..n] == stream[..n] && next[n] == stream[n];
  }

  /** The messages of a session that parse and do not come from the refused number, in order. */
  function Admissible(parses: S.Payload -> bool, stream: seq<S.Wire>, session: string): seq<S.Queued> {
    if stream == [] then [] else
      var m := |stream| - 1;
      var w := stream[m];
      Admissible(parses, stream[..m], session)
      + if w.session == session && parses(w.payload) && w.from % UINT16 != S.MAX_UINT16
        then [S.Queued(w.payload, w.from % UINT16, w.broadcast)] else []
  }

  predicate Taken(parses: S.Payload -> bool, w: S.Wire, session: string) {
    w.session == session && parses(w.payload) && w.from % 65536 != 65535
  }

  function Entry(w: S.Wire): S.Queued { S.Queued(w.payload, w.from % 65536, w.broadcast) }

  lemma AdmissibleStep(parses: S.Payload -> bool, stream: seq<S.Wire>, session: string)
    requires stream != []
    ensures var m := |stream| - 1;
            Admissible(parses, stream, session) == Admissible(parses, stream[..m], session)
              + if Taken(parses, stream[m], session) then [Entry(stream[m])] else []
  {
  }

  function Entries(stream: seq<S.Wire>): seq<S.Queued> {
    seq(|stream|, i requires 0 <= i < |stream| => Entry(stream[i]))
  }

  function Takes(parses: S.Payload -> bool, stream: seq<S.Wire>, session: string): seq<bool> {
    seq(|stream|, i requires 0 <= i < |stream| => Taken(parses, stream[i], session))
  }

  lemma {:induction false} PlacesOf(parses: S.Payload -> bool, stream: seq<S.Wire>, session: string)
    returns (places: seq<nat>)
    ensures Picks(Admissible(parses, stream, session), places, Entries(stream), Takes(parses, stream, session))
    decreases |stream|
  {
    if stream == [] {
      places := [];
    } else {
      var m := |stream| - 1;
      AdmissibleStep(parses, stream, session);
      hide Admissible, Taken, Entry, Picks;
      places := PlacesOf(parses, stream[..m], session);
      var picked, all := Admissible(parses, stream[..m], session), Entries(stream[..m]);
      var keep := Takes(parses, stream[..m], session);
      assert Entries(stream) == all + [Entry(stream[m])];
      assert Takes(parses, stream, session) == keep + [Taken(parses, stream[m], session)];
      if Taken(parses, stream[m], session) {
        PicksKept(picked, places, all, keep, Entry(stream[m]));
        places := places + [m];
      } else {
        PicksLeft(picked, places, all, keep, Entry(stream[m]));
        assert picked + [] == picked;
      }
    }
  }

  /** Those are the entries for the places of the stream with a message of the session that parses and does
      not come from 65535, in the order of the stream. */
  lemma AdmissibleExactly(parses: S.Payload -> bool, stream: seq<S.Wire>, session: string)
    returns (places: seq<nat>)
    ensures forall j, k | 0 <= j < k < |places| :: places[j] < places[k]
    ensures forall i: nat :: i in places <==>
              && i < |stream| && stream[i].session == session
              && parses(stream[i].payload) && stream[i].from % 65536 != 65535
    ensures |Admissible(parses, stream, session)| == |places|
    ensures forall j | 0 <= j < |places| ::
              && places[j] < |stream|
              && var w := stream[places[j]];
                 Admissible(parses, stream, session)[j] == S.Queued(w.payload, w.from % 65536, w.broadcast)
  {
    places := PlacesOf(parses, stream, session);
    hide Admissible;
    assert forall i | 0 <= i < |stream| :: Entries(stream)[i] == Entry(stream[i]);
  }

  /** A stream appends to each session's inbox exactly the session's admissible messages, in order. */
  lemma {:induction false} StreamAppends(parses: S.Payload -> bool, boxes: Inboxes, stream: seq<S.Wire>)
    requires DeliverAll(parses, boxes, stream).Some?
    ensures var after := DeliverAll(parses, boxes, stream).value;
            && after.Keys == boxes.Keys
            && forall session | session in boxes ::
                 after[session] == boxes[session] + Admissible(parses, stream, session)
    decreases |stream|
  {
    if stream != [] {
      StreamAppends(parses, boxes, stream[..|stream| - 1]);
    }
  }

  // ----- start-up

  datatype Endpoint = Endpoint(id: uint32, address: string)

  function AddressFor(port: int): string { "localhost:" + Decimal.Itoa(port) }

  function ServerAt(baseID: nat, basePort: int, i: nat): Endpoint {
    Endpoint((baseID + i) % UINT32, AddressFor(basePort + i))
  }

  /** Consecutive ids and ports; a negative capacity panics. */
  method InitializeServers(baseID: uint32, basePort: int, nodeNumber: int) returns (servers: Option<seq<Endpoint>>)
    ensures servers.None? <==> nodeNumber < 0
    ensures servers.Some? ==>
              && |servers.value| == nodeNumber
              && IsFleet(servers.value, baseID, basePort)
              && forall i | 0 <= i < nodeNumber ::
                   && servers.value[i].id == (baseID + i) % 0x1_0000_0000
                   && servers.value[i].address == "localhost:" + Decimal.Itoa(basePort + i)
  {
    if nodeNumber < 0 {
      return None;
    }
    var list: seq<Endpoint> := [];
    FleetGrows(list, baseID, basePort);
    hide ServerAt, IsFleet, AddressFor;
    for i := 0 to nodeNumber
      invariant |list| == i && IsFleet(list, baseID, basePort)
    {
      FleetGrows(list, baseID, basePort);
      list := list + [ServerAt(baseID, basePort, i)];
    }
    FleetShows(list, baseID, basePort);
    return Some(list);
  }

  lemma FleetGrows(list: seq<Endpoint>, baseID: nat, basePort: int)
    ensures IsFleet([], baseID, basePort)
    ensures IsFleet(list, baseID, basePort) ==>
              IsFleet(list + [ServerAt(baseID, basePort, |list|)], baseID, basePort)
  {
    hide ServerAt;
  }

  lemma FleetShows(servers: seq<Endpoint>, baseID: nat, basePort: int)
    requires IsFleet(servers, baseID, basePort)
    ensures forall i | 0 <= i < |servers| ::
              && servers[i].id == (baseID + i) % 0x1_0000_0000
              && servers[i].address == "localhost:" + Decimal.Itoa(basePort + i)
  {
  }

  /** What storing every server in turn leaves: the last address of each id. */
  function PeerMap(servers: seq<Endpoint>): map<nat, string> {
    if servers == [] then map[] else
      var m := |servers| - 1;
      PeerMap(servers[..m])[servers[m].id := servers[m].address]
  }

  method CreatePeerMap(servers: seq<Endpoint>) returns (peerMap: map<nat, string>)
    ensures peerMap == PeerMap(servers)
  {
    peerMap := map[];
    for n := 0 to |servers|
      invariant peerMap == PeerMap(servers[..n])
    {
      peerMap := peerMap[servers[n].id := servers[n].address];
      assert servers[..n + 1][..n] == servers[..n];
    }
    assert servers[..|servers|] == servers;
  }

  /** An id has the address of the last server with this id, and no other ids have one. */
  lemma {:induction false} PeerMapLast(servers: seq<Endpoint>, id: nat)
    ensures id in PeerMap(servers) <==> exists e | e in servers :: e.id == id
    ensures forall i | 0 <= i < |servers| && servers[i].id == id
                    && (forall j | i < j < |servers| :: servers[j].id != id) ::
              PeerMap(servers)[id] == servers[i].address
  {
    if servers != [] {
      var m := |servers| - 1;
      PeerMapLast(servers[..m], id);
      assert servers == servers[..m] + [servers[m]];
      assert servers[m] in servers;
    }
  }

  lemma {:induction false} PeerMapSize(servers: seq<Endpoint>)
    requires forall i, j | 0 <= i < j < |servers| :: servers[i].id != servers[j].id
    ensures |PeerMap(servers)| == |servers|
    decreases |servers|
  {
    if servers != [] {
      var m := |servers| - 1;
      PeerMapSize(servers[..m]);
      PeerMapLast(servers[..m], servers[m].id);
      assert servers[m].id !in PeerMap(servers[..m]);
    }
  }

  /** With different ids every server keeps its own address. */
  lemma PeerMapExactly(servers: seq<Endpoint>)
    requires forall i, j | 0 <= i < j < |servers| :: servers[i].id != servers[j].id
    ensures forall e | e in servers :: e.id in PeerMap(servers) && PeerMap(servers)[e.id] == e.address
    ensures PeerMap(servers).Keys == set e | e in servers :: e.id
    ensures |PeerMap(servers)| == |servers|
  {
    PeerMapSize(servers);
    hide PeerMap;
    forall e | e in servers ensures e.id in PeerMap(servers) && PeerMap(servers)[e.id] == e.address {
      var i :| 0 <= i < |servers| && servers[i] == e;
      PeerMapLast(servers, e.id);
    }
    forall id ensures id in PeerMap(servers) <==> id in set e | e in servers :: e.id {
      PeerMapLast(servers, id);
    }
  }

  /** Every other server of the map becomes a peer. */
  method SetupPeerConnections(server: Server, id: nat, peerMap: map<nat, string>)
    modifies server`peers
    ensures server.peers == old(server.peers) + (peerMap - {id})
  {
    JoinedEnds(server.peers, peerMap, id);
    hide Joined;
    var left := peerMap.Keys;
    while left != {}
      invariant left <= peerMap.Keys
      invariant server.peers == Joined(old(server.peers), peerMap, left, id)
      decreases |left|
    {
      var peerID :| peerID in left;
      JoinedStep(old(server.peers), peerMap, left, peerID, id);
      left := left - {peerID};
      if peerID != id {
        server.AddPeer(peerID, peerMap[peerID]);
      }
    }
  }

  /** The peers when all of the map but `left` has been visited. */
  ghost function Joined(before: map<nat, string>, peerMap: map<nat, string>, left: set<nat>, id: nat)
    : map<nat, string>
  {
    before + (peerMap - left - {id})
  }

  lemma JoinedEnds(before: map<nat, string>, peerMap: map<nat, string>, id: nat)
    ensures Joined(before, peerMap, peerMap.Keys, id) == before
    ensures Joined(before, peerMap, {}, id) == before + (peerMap - {id})
  {
    assert peerMap - peerMap.Keys - {id} == map[];
    assert peerMap - {} - {id} == peerMap - {id};
  }

  lemma JoinedStep(before: map<nat, string>, peerMap: map<nat, string>, left: set<nat>, p: nat, id: nat)
    requires p in left && p in peerMap
    ensures Joined(before, peerMap, left - {p}, id)
         == if p == id then Joined(before, peerMap, left, id) else Joined(before, peerMap, left, id)[p := peerMap[p]]
  {
    if p == id {
      assert peerMap - (left - {p}) - {id} == peerMap - left - {id};
    } else {
      assert peerMap - (left - {p}) - {id} == (peerMap - left - {id})[p := peerMap[p]];
    }
  }

  lemma Wraps(base: nat, i: nat, j: nat)
    requires i < j < UINT32
    ensures (base + i) % UINT32 != (base + j) % UINT32
  {
    DivMod(UINT32, base + i);
    DivMod(UINT32, base + j);
  }

  lemma PortShows(port: int)
    ensures AddressFor(port) == "localhost:" + Decimal.Itoa(port)
    ensures |AddressFor(port)| >= 10 && AddressFor(port)[10..] == Decimal.Itoa(port)
  {
    hide Decimal.Itoa;
    var prefix := "localhost:";
    assert (prefix + Decimal.Itoa(port))[|prefix|..] == Decimal.Itoa(port);
  }

  /** Fewer than 2^32 consecutive ids are different even when they wrap, and so are the addresses. */
  lemma ServersDistinct(baseID: uint32, basePort: int, i: nat, j: nat)
    requires i < j < UINT32
    ensures (baseID + i) % UINT32 != (baseID + j) % UINT32
    ensures AddressFor(basePort + i) != AddressFor(basePort + j)
  {
    Wraps(baseID, i, j);
    PortShows(basePort + i);
    PortShows(basePort + j);
    hide AddressFor, Decimal.Itoa;
    if AddressFor(basePort + i) == AddressFor(basePort + j) {
      Decimal.ItoaInjective(basePort + i, basePort + j);
    }
  }

  /** What `InitializeServers` returns. */
  predicate IsFleet(servers: seq<Endpoint>, baseID: nat, basePort: int) {
    forall i | 0 <= i < |servers| ::
      servers[i] == ServerAt(baseID, basePort, i)
  }

  /** The configuration of the session layer after start-up. */
  function Started(servers: seq<Endpoint>, parses: S.Payload -> bool): S.Config {
    var peerMap := PeerMap(servers);
    S.Config(peerMap.Keys, id => if id in peerMap then peerMap[id] else "", parses)
  }

  lemma FleetDistinct(servers: seq<Endpoint>, baseID: uint32, basePort: int)
    requires IsFleet(servers, baseID, basePort) && baseID + |servers| <= UINT16
    ensures forall i, j | 0 <= i < j < |servers| ::
              servers[i].id != servers[j].id && servers[i].address != servers[j].address
    ensures forall i | 0 <= i < |servers| :: servers[i].id < UINT16
  {
    hide AddressFor;
    forall i, j | 0 <= i < j < |servers|
      ensures servers[i].id != servers[j].id && servers[i].address != servers[j].address
    {
      ServersDistinct(baseID, basePort, i, j);
    }
    forall i | 0 <= i < |servers| ensures servers[i].id < UINT16 {
      DivModUnique(UINT32, 0, baseID + i);
    }
  }

  /** Start-up with ids below 65536 meets what isolation needs. */
  lemma StartedIsIsolating(servers: seq<Endpoint>, baseID: uint32, basePort: int, parses: S.Payload -> bool)
    requires IsFleet(servers, baseID, basePort) && baseID + |servers| <= UINT16
    ensures Started(servers, parses).Separate() && Started(servers, parses).Attributable()
    ensures |Started(servers, parses).ids| == |servers|
  {
    FleetDistinct(servers, baseID, basePort);
    PeerMapExactly(servers);
    hide PeerMap, AddressFor, IsFleet;
    var cfg := Started(servers, parses);
    forall x | x in cfg.ids
      ensures exists e :: e in servers && e.id == x && cfg.address(x) == e.address
    {
      var e :| e in servers && e.id == x;
    }
    forall x, y | x in cfg.ids && y in cfg.ids && cfg.address(x) == cfg.address(y) ensures x == y {
      var e :| e in servers && e.id == x && cfg.address(x) == e.address;
      var f :| f in servers && f.id == y && cfg.address(y) == f.address;
      var i :| 0 <= i < |servers| && servers[i] == e;
      var j :| 0 <= j < |servers| && servers[j] == f;
    }
  }

  /** Once set up, a broadcast starts one copy for every other server of the map. */
  lemma FullMeshBroadcast(self: nat, peerMap: map<nat, string>, wire: S.Wire)
    requires self in peerMap && wire.broadcast
    ensures |S.Fanout(self, peerMap - {self}, wire)| == |peerMap| - 1
  {
    S.FanoutExactly(self, peerMap - {self}, wire);
    assert (peerMap - {self}).Keys - {self} == peerMap.Keys - {self};
    assert |peerMap.Keys| == |peerMap|;
  }
}
