/** Encrypted shares in the database that all nodes use, and the share each node signs with. */
module ShareStore {
  import opened Basics

  const NONCE_SIZE: nat := 12

  type Bytes = seq<byte>

  /** The AES-GCM library: sealing and opening under a key and a nonce. */
  datatype Aead = Aead(seal: (Bytes, Bytes, Bytes) -> Bytes, open: (Bytes, Bytes, Bytes) -> Option<Bytes>) {
    ghost predicate Lawful() {
      forall key, nonce, plaintext | |nonce| == NONCE_SIZE ::
        open(key, nonce, seal(key, nonce, plaintext)) == Some(plaintext)
    }
  }

  /** AES accepts keys of three sizes. */
  predicate ValidKey(key: Bytes) { |key| == 16 || |key| == 24 || |key| == 32 }

  /** The nonce, followed by the sealed plaintext; an error for a key of another size or when the random
      source yields too few bytes. */
  function Encrypt(aead: Aead, plaintext: Bytes, key: Bytes, random: Bytes): Option<Bytes> {
    if ValidKey(key) && |random| >= NONCE_SIZE
    then Some(random[..NONCE_SIZE] + aead.seal(key, random[..NONCE_SIZE], plaintext))
    else None
  }

  function Decrypt(aead: Aead, ciphertext: Bytes, key: Bytes): Option<Bytes> {
    if !ValidKey(key) || |ciphertext| < NONCE_SIZE then None
    else aead.open(key, ciphertext[..NONCE_SIZE], ciphertext[NONCE_SIZE..])
  }

  /** A share is encrypted exactly when the key has 16, 24 or 32 bytes and 12 random bytes are drawn, which
      become the nonce and the start of the frame. */
  lemma EncryptExactly(aead: Aead, plaintext: Bytes, key: Bytes, random: Bytes)
    ensures Encrypt(aead, plaintext, key, random).Some? <==> |key| in {16, 24, 32} && |random| >= 12
    ensures Encrypt(aead, plaintext, key, random).Some? ==>
              var frame := Encrypt(aead, plaintext, key, random).value;
              && |frame| >= 12 && frame[..12] == random[..12]
              && frame[12..] == aead.seal(key, random[..12], plaintext)
  {
    if Encrypt(aead, plaintext, key, random).Some? {
      var nonce, sealed := random[..12], aead.seal(key, random[..12], plaintext);
      assert (nonce + sealed)[..12] == nonce && (nonce + sealed)[12..] == sealed;
    }
  }

  /** A frame is opened under its first 12 bytes as nonce; a shorter one or a key of another size fails. */
  lemma DecryptExactly(aead: Aead, frame: Bytes, key: Bytes, plaintext: Bytes)
    ensures Decrypt(aead, frame, key) == Some(plaintext) <==>
              && |key| in {16, 24, 32} && |frame| >= 12
              && aead.open(key, frame[..12], frame[12..]) == Some(plaintext)
  {
  }

  /** Decryption splits the frame where encryption joined it. */
  lemma DecryptUndoesEncrypt(aead: Aead, plaintext: Bytes, key: Bytes, random: Bytes)
    requires aead.Lawful() && Encrypt(aead, plaintext, key, random).Some?
    ensures Decrypt(aead, Encrypt(aead, plaintext, key, random).value, key) == Some(plaintext)
  {
    var nonce := random[..NONCE_SIZE];
    var sealed := aead.seal(key, nonce, plaintext);
    assert (nonce + sealed)[..NONCE_SIZE] == nonce && (nonce + sealed)[NONCE_SIZE..] == sealed;
  }

  method EncryptAESGCM(aead: Aead, plaintext: Bytes, key: Bytes, random: Bytes) returns (c: Option<Bytes>)
    ensures c == Encrypt(aead, plaintext, key, random)
  {
    if !ValidKey(key) {
      return None;
    }
    var nonce := new byte[NONCE_SIZE];
    if |random| < nonce.Length {
      return None;
    }
    for i := 0 to NONCE_SIZE
      invariant nonce[..i] == random[..i]
    {
      nonce[i] := random[i];
    }
    assert nonce[..NONCE_SIZE] == nonce[..];
    return Some(nonce[..] + aead.seal(key, nonce[..], plaintext));
  }

  // ----- the two tables

  datatype Tables = Tables(shareKeys1: map<nat, Bytes>, shareKeys2: map<nat, Bytes>)

  datatype Error = BadKeyOrFrame | UnsupportedNode | NoRow

  datatype Loaded = Share(plaintext: Bytes) | Failed(error: Error)

  /** What a deployment fixes: the library, the key of the configuration, and how session ids are read
      as UUIDs. Spellings that differ in case or dashes denote one UUID; other strings denote none. */
  datatype Env = Env(aead: Aead, key: Bytes, uuid: string -> Option<nat>)

  /** An upsert, which the database carries out or not; a NULL key violates the primary key. */
  function Upsert(table: map<nat, Bytes>, id: Option<nat>, row: Bytes, accepted: bool): Option<map<nat, Bytes>> {
    if accepted && id.Some? then Some(table[id.value := row]) else None
  }

  /** The tables after a node handled a keygen request with this outcome, or None on an error. */
  function Stored(env: Env, t: Tables, node: nat, session: string, share: Bytes, random: Bytes, accepted: bool)
    : Option<Tables>
  {
    match Encrypt(env.aead, share, env.key, random)
    case None => None
    case Some(encrypted) =>
      match node
      case 2 =>
        var u := Upsert(t.shareKeys1, env.uuid(session), encrypted, accepted);
        if u.Some? then Some(t.(shareKeys1 := u.value)) else None
      case 3 =>
        var u := Upsert(t.shareKeys2, env.uuid(session), encrypted, accepted);
        if u.Some? then Some(t.(shareKeys2 := u.value)) else None
      case _ => Some(t)
  }

  /** The share a node signs with: the one provided, or else its row. */
  function Load(env: Env, t: Tables, node: nat, session: string, provided: Option<Bytes>): Loaded {
    if provided.Some? then Opened(env, provided.value) else
      var id := env.uuid(session);
      match node
      case 2 => if id.Some? && id.value in t.shareKeys1 then Opened(env, t.shareKeys1[id.value]) else Failed(NoRow)
      case 3 => if id.Some? && id.value in t.shareKeys2 then Opened(env, t.shareKeys2[id.value]) else Failed(NoRow)
      case _ => Failed(UnsupportedNode)
  }

  function Opened(env: Env, ciphertext: Bytes): Loaded {
    var p := Decrypt(env.aead, ciphertext, env.key);
    if p.Some? then Share(p.value) else Failed(BadKeyOrFrame)
  }

  /** A keygen fails when the share cannot be encrypted, and on nodes 2 and 3 also when the session id is no
      UUID or the database refuses the row; otherwise nodes 2 and 3 write one row of the table that is theirs,
      and other nodes write nothing. */
  lemma StoredExactly(env: Env, t: Tables, node: nat, session: string, share: Bytes, random: Bytes, accepted: bool)
    ensures var frame, id := Encrypt(env.aead, share, env.key, random), env.uuid(session);
            var s := Stored(env, t, node, session, share, random, accepted);
            && (s.Some? <==> frame.Some? && (node in {2, 3} ==> accepted && id.Some?))
            && (s.Some? && node == 2 ==> s.value == Tables(t.shareKeys1[id.value := frame.value], t.shareKeys2))
            && (s.Some? && node == 3 ==> s.value == Tables(t.shareKeys1, t.shareKeys2[id.value := frame.value]))
            && (s.Some? && node !in {2, 3} ==> s.value == t)
  {
  }

  /** A node signs with the share it is given, or else with the row of the table that is its own; without a
      row, on another node, or with an unreadable frame it fails with the error of the case. */
  lemma LoadExactly(env: Env, t: Tables, node: nat, session: string, provided: Option<Bytes>)
    ensures var id := env.uuid(session);
            var table := if node == 2 then t.shareKeys1 else t.shareKeys2;
            var frame := if provided.Some? then provided
                         else if node in {2, 3} && id.Some? && id.value in table then Some(table[id.value]) else None;
            Load(env, t, node, session, provided) ==
            if frame.None? then Failed(if node in {2, 3} then NoRow else UnsupportedNode)
            else if Decrypt(env.aead, frame.value, env.key).None? then Failed(BadKeyOrFrame)
            else Share(Decrypt(env.aead, frame.value, env.key).value)
  {
  }

  class Database {
    var shareKeys1: map<nat, Bytes>
    var shareKeys2: map<nat, Bytes>

    constructor ()
      ensures View() == Tables(map[], map[])
    {
      shareKeys1, shareKeys2 := map[], map[];
    }

    function View(): Tables
      reads this
    {
      Tables(shareKeys1, shareKeys2)
    }

    /** The end of a keygen that a peer asked for: encrypt the share and store it. */
    method HandleKeygen(env: Env, nodeID: nat, sessionID: string, shareData: Bytes, random: Bytes, accepted: bool)
      returns (ok: bool)
      modifies this
      ensures var s := Stored(env, old(View()), nodeID, sessionID, shareData, random, accepted);
              ok == s.Some? && View() == if s.Some? then s.value else old(View())
    {
      var encrypted := EncryptAESGCM(env.aead, shareData, env.key, random);
      if encrypted.None? {
        return false;
      }
      var sessionUUID := env.uuid(sessionID);
      ok := true;
      match nodeID {
        case 2 =>
          var table := Upsert(shareKeys1, sessionUUID, encrypted.value, accepted);
          ok := table.Some?;
          shareKeys1 := if ok then table.value else shareKeys1;
        case 3 =>
          var table := Upsert(shareKeys2, sessionUUID, encrypted.value, accepted);
          ok := table.Some?;
          shareKeys2 := if ok then table.value else shareKeys2;
        case _ =>
      }
    }

    method GetDecryptedShareData(env: Env, nodeID: nat, sessionID: string, shareData: Option<Bytes>)
      returns (share: Loaded)
      ensures share == Load(env, View(), nodeID, sessionID, shareData)
    {
      var encryptedShare: Bytes;
      if shareData.Some? {
        encryptedShare := shareData.value;
      } else {
        var sessionUUID := env.uuid(sessionID);
        if nodeID == 2 {
          if sessionUUID.None? || sessionUUID.value !in shareKeys1 {
            return Failed(NoRow);
          }
          encryptedShare := shareKeys1[sessionUUID.value];
        } else if nodeID == 3 {
          if sessionUUID.None? || sessionUUID.value !in shareKeys2 {
            return Failed(NoRow);
          }
          encryptedShare := shareKeys2[sessionUUID.value];
        } else {
          return Failed(UnsupportedNode);
        }
      }
      var plaintext := Decrypt(env.aead, encryptedShare, env.key);
      return if plaintext.Some? then Share(plaintext.value) else Failed(BadKeyOrFrame);
    }
  }

  // ----- requests between nodes

  datatype Request = Request(session: string, parties: seq<nat>, threshold: nat, msgHash: Bytes, share: Option<Bytes>)

  /** What the node that starts a signing sends to its peers: everything but the share. */
  function PeerRequest(req: Request): Request {
    Request(req.session, req.parties, req.threshold, req.msgHash, None)
  }

  // ----- runs

  /** A keygen that a node handled to the end, with the random bytes it drew, and whether the database
      carries out the upsert. */
  datatype Event = Keygen(node: nat, session: string, share: Bytes, random: Bytes, accepted: bool)

  /** The tables after a run; signing does not change them. */
  function Run(env: Env, events: seq<Event>): Tables {
    if events == [] then Tables(map[], map[]) else
      var m := |events| - 1;
      var e := events[m];
      var t := Run(env, events[..m]);
      var s := Stored(env, t, e.node, e.session, e.share, e.random, e.accepted);
      if s.Some? then s.value else t
  }

  /** The event is a keygen of this node for this UUID whose share was encrypted and stored. */
  predicate StoresFor(env: Env, e: Event, node: nat, id: nat) {
    && e.node == node && env.uuid(e.session) == Some(id)
    && e.accepted && ValidKey(env.key) && |e.random| >= NONCE_SIZE
  }

  /** Event i is the last such keygen. */
  ghost predicate LastStore(env: Env, events: seq<Event>, node: nat, id: nat, i: nat) {
    && i < |events| && StoresFor(env, events[i], node, id)
    && forall j | i < j < |events| :: !StoresFor(env, events[j], node, id)
  }

  /** In every run, what a peer of kind 2 or 3 loads for a signing is the share that the same node
      last stored for the session's UUID, and nothing exactly when it stored none. */
  lemma {:induction false} OwnShare(env: Env, events: seq<Event>, node: nat, req: Request, id: nat)
    requires env.aead.Lawful() && (node == 2 || node == 3) && env.uuid(req.session) == Some(id)
    ensures var loaded := Load(env, Run(env, events), node, req.session, PeerRequest(req).share);
            && (forall i: nat | LastStore(env, events, node, id, i) :: loaded == Share(events[i].share))
            && (loaded.Failed? <==> !exists i: nat :: LastStore(env, events, node, id, i))
            && (loaded.Failed? ==> loaded.error == NoRow)
    decreases |events|
  {
    if events != [] {
      var m := |events| - 1;
      var e := events[m];
      LastStoreStep(env, events, node, id);
      if StoresFor(env, e, node, id) {
        DecryptUndoesEncrypt(env.aead, e.share, env.key, e.random);
        assert LastStore(env, events, node, id, m);
      } else {
        OwnShare(env, events[..m], node, req, id);
        OtherRowsStay(env, Run(env, events[..m]), e, node, req.session);
      }
      hide Encrypt, Decrypt, Stored, Load;
    }
  }

  /** Any other keygen leaves the row alone. */
  lemma OtherRowsStay(env: Env, t: Tables, e: Event, node: nat, session: string)
    requires (node == 2 || node == 3) && env.uuid(session).Some?
    requires !StoresFor(env, e, node, env.uuid(session).value)
    ensures var s := Stored(env, t, e.node, e.session, e.share, e.random, e.accepted);
            s.Some? ==> Load(env, s.value, node, session, None) == Load(env, t, node, session, None)
  {
    hide Decrypt;
  }

  lemma LastStoreStep(env: Env, events: seq<Event>, node: nat, id: nat)
    requires events != []
    ensures var m := |events| - 1;
            if StoresFor(env, events[m], node, id)
            then forall i: nat :: LastStore(env, events, node, id, i) <==> i == m
            else forall i: nat :: LastStore(env, events, node, id, i) <==> LastStore(env, events[..m], node, id, i)
  {
    var m := |events| - 1;
    assert forall j | 0 <= j < m :: events[..m][j] == events[j];
  }

  // ----- session ids that denote one UUID

  /** Event i is the last keygen that this node stored under this very session id. */
  ghost predicate LastOwn(env: Env, events: seq<Event>, node: nat, session: string, i: nat) {
    && env.uuid(session).Some? && i < |events|
    && StoresFor(env, events[i], node, env.uuid(session).value) && events[i].session == session
    && forall j | i < j < |events| && events[j].session == session ::
         !StoresFor(env, events[j], node, env.uuid(session).value)
  }

  /** A peer loads the share last stored under its own session id, and none when there is none. */
  ghost predicate LoadsOwn(env: Env, events: seq<Event>, node: nat, session: string) {
    var loaded := Load(env, Run(env, events), node, session, None);
    && (forall i: nat | LastOwn(env, events, node, session, i) :: loaded == Share(events[i].share))
    && (loaded.Share? ==> exists i: nat :: LastOwn(env, events, node, session, i))
  }

  ghost predicate SessionsIn(events: seq<Event>, sessions: iset<string>) {
    forall e | e in events :: e.session in sessions
  }

  lemma OnlySpelling(env: Env, events: seq<Event>, sessions: iset<string>, node: nat, session: string)
    requires env.aead.Lawful() && (node == 2 || node == 3) && env.uuid(session).Some?
    requires SessionsIn(events, sessions)
    requires forall other | other in sessions && env.uuid(other) == env.uuid(session) :: other == session
    ensures LoadsOwn(env, events, node, session)
  {
    var id := env.uuid(session).value;
    OwnShare(env, events, node, Request(session, [], 0, [], None), id);
    forall i: nat ensures LastOwn(env, events, node, session, i) <==> LastStore(env, events, node, id, i) {
      assert forall j | 0 <= j < |events| :: events[j] in events;
    }
  }

  /** One keygen under another spelling is enough. */
  lemma OtherSpelling(env: Env, node: nat, session: string, other: string, share: Bytes) returns (e: Event)
    requires env.aead.Lawful() && ValidKey(env.key) && (node == 2 || node == 3)
    requires env.uuid(session).Some? && env.uuid(other) == env.uuid(session) && other != session
    ensures e.session == other && Load(env, Run(env, [e]), node, session, None) == Share(share)
    ensures !LoadsOwn(env, [e], node, session)
  {
    e := Keygen(node, other, share, seq(NONCE_SIZE, _ => 0), true);
    assert [e][..0] == [];
    assert LastStore(env, [e], node, env.uuid(session).value, 0);
    OwnShare(env, [e], node, Request(session, [], 0, [], None), env.uuid(session).value);
  }

  /** A peer loads only what it stored under its own session id, in every run over some session ids,
      exactly when no other of these ids denotes the same UUID. */
  lemma OwnSessionExactly(env: Env, sessions: iset<string>, node: nat, session: string)
    requires env.aead.Lawful() && ValidKey(env.key) && (node == 2 || node == 3) && env.uuid(session).Some?
    ensures (forall events | SessionsIn(events, sessions) :: LoadsOwn(env, events, node, session))
       <==> forall other | other in sessions && env.uuid(other) == env.uuid(session) :: other == session
  {
    if forall other | other in sessions && env.uuid(other) == env.uuid(session) :: other == session {
      forall events | SessionsIn(events, sessions) ensures LoadsOwn(env, events, node, session) {
        OnlySpelling(env, events, sessions, node, session);
      }
    } else {
      var other :| other in sessions && env.uuid(other) == env.uuid(session) && other != session;
      var e := OtherSpelling(env, node, session, other, []);
      assert SessionsIn([e], sessions);
    }
  }

  // ----- the node that starts a session

  /** Base64 of encoding/base64. */
  datatype Base64 = Base64(encode: Bytes -> string, decode: string -> Option<Bytes>) {
    ghost predicate Lawful() { forall b :: decode(encode(b)) == Some(b) }
  }

  /** What the node that started a keygen publishes of its share, or None on an error. */
  function Published(env: Env, base64: Base64, share: Bytes, random: Bytes): Option<string> {
    var encrypted := Encrypt(env.aead, share, env.key, random);
    if encrypted.Some? then Some(base64.encode(encrypted.value)) else None
  }

  /** The signing request of the client for the share data that its user kept. */
  function ClientRequest(base64: Base64, session: string, parties: seq<nat>, threshold: nat, shareData: string,
      message: Bytes): Option<Request>
  {
    var encrypted := base64.decode(shareData);
    if encrypted.Some? then Some(Request(session, parties, threshold, message, encrypted)) else None
  }

  /** From key generation to signing through the client: the initiator signs with the share it generated,
      whatever the tables hold, while its peers are sent no share; only a bad key or too few random bytes
      keep the share from being published. */
  lemma InitiatorShare(env: Env, base64: Base64, t: Tables, node: nat, session: string, parties: seq<nat>,
      threshold: nat, message: Bytes, share: Bytes, random: Bytes)
    requires env.aead.Lawful() && base64.Lawful()
    ensures var published := Published(env, base64, share, random);
            && (published.Some? <==> ValidKey(env.key) && |random| >= NONCE_SIZE)
            && (published.Some? ==>
                  && var req := ClientRequest(base64, session, parties, threshold, published.value, message);
                  && req.Some?
                  && Load(env, t, node, session, req.value.share) == Share(share)
                  && PeerRequest(req.value) == Request(session, parties, threshold, message, None))
  {
    if Encrypt(env.aead, share, env.key, random).Some? {
      DecryptUndoesEncrypt(env.aead, share, env.key, random);
    }
  }

  /** A handled keygen can be signed with later exactly on nodes 2 and 3: every other node reports
      success and keeps nothing. */
  lemma StoredIsLoadableExactly(env: Env, t: Tables, node: nat, session: string, share: Bytes, random: Bytes,
      accepted: bool)
    requires env.aead.Lawful() && Stored(env, t, node, session, share, random, accepted).Some?
    ensures Load(env, Stored(env, t, node, session, share, random, accepted).value, node, session, None) == Share(share)
       <==> node == 2 || node == 3
  {
    DecryptUndoesEncrypt(env.aead, share, env.key, random);
  }
}
