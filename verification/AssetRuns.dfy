/** Cached reads that run at the same time: every step of a call can come between any two of another. */
module AssetRuns {
  import opened Basics
  import opened Assets
  import opened AssetCache

  /** Where a call is: before its lookup; before the lookup, the read and the store of its chain; before the
      read and the store of its own rows; finished, with the time of its reply. */
  datatype Phase =
    | Lookup
    | ChainLookup
    | ChainRead
    | ChainStore(chain: ChainResponse, chainAt: int)
    | Read(parent: Option<ChainResponse>, chainAt: int)
    | Store(data: Json, origin: Origin)
    | Done(reply: Result<Json>, origin: Origin, at: int)

  datatype Reader = Reader(question: Question, start: int, phase: Phase)

  datatype State = State(now: int, cache: Cache, origins: map<string, Origin>, calls: seq<Reader>)

  /** Time passes, the store evicts, a call starts, or a call takes its next step, in which a lookup or a
      store may fail. */
  datatype Action =
    | Pass(until: int)
    | Evict(keys: set<string>)
    | Begin(question: Question)
    | Next(call: nat, fails: bool)

  /** No call takes longer than the latency. */
  predicate OnTime(env: Env, c: Reader, now: int) { c.phase.Done? || now <= c.start + env.latency }

  predicate Enabled(env: Env, s: State, a: Action) {
    match a
    case Pass(until) => s.now <= until && forall i | 0 <= i < |s.calls| :: OnTime(env, s.calls[i], until)
    case Evict(_) => true
    case Begin(_) => true
    case Next(i, _) => i < |s.calls| && !s.calls[i].phase.Done?
  }

  function Initial(now: int): State { State(now, map[], map[], []) }

  /** The document found for a question, if the lookup succeeds, the entry lives and it decodes. */
  function Found(env: Env, s: State, q: Question, fails: bool): Option<Json> {
    if !fails && Live(s.cache, KeyOf(q), s.now) then Decoded(env, q, s.cache[KeyOf(q)].data) else None
  }

  function OriginOf(s: State, q: Question): Origin {
    if KeyOf(q) in s.origins then s.origins[KeyOf(q)] else Origin(s.now, s.now)
  }

  predicate NeedsChain(q: Question) { q.TokensOf? || q.TokenOf? }

  /** The question about the chain of a question about tokens. */
  function ParentOf(q: Question): (p: Question)
    ensures p.ChainOf?
  {
    ChainOf(if q.AllChains? then 0 else q.chainID)
  }

  /** The rows that a question is about, read now; tokens are read for a chain. */
  function Rows(db: Database, q: Question, parent: Option<ChainResponse>): Result<Json> {
    match q
    case AllChains => Wrapped(Chains(db), v => ChainsJson(v))
    case ChainOf(c) => Wrapped(ChainByID(db, c), v => ChainJson(v))
    case TokensOf(_) =>
      if parent.None? then Err(ChainNotFound) else Wrapped(TokensOfChain(db, parent.value.id), v => TokensJson(v))
    case TokenOf(_, symbol) =>
      if parent.None? then Err(ChainNotFound) else Wrapped(TokenOfChain(db, parent.value.id, symbol), v => TokenJson(v))
  }

  /** The next phase of a call. */
  function Advance(env: Env, s: State, c: Reader, fails: bool): Phase
    requires !c.phase.Done?
  {
    var q, now := c.question, s.now;
    match c.phase
    case Lookup =>
      var data := Found(env, s, q, fails);
      if data.Some? then Done(Ok(data.value), OriginOf(s, q), now)
      else if NeedsChain(q) then ChainLookup
      else Read(None, now)
    case ChainLookup =>
      var data := Found(env, s, ParentOf(q), fails);
      if data.Some? && data.value.ChainJson? then Read(Some(data.value.chain), OriginOf(s, ParentOf(q)).rowsAt)
      else ChainRead
    case ChainRead =>
      (match ChainByID(env.history(now), ParentOf(q).chainID)
       case Err(e) => Done(Err(e), Origin(now, now), now)
       case Ok(chain) => ChainStore(chain, now))
    case ChainStore(chain, chainAt) => Read(Some(chain), chainAt)
    case Read(parent, chainAt) =>
      var origin := Origin(if NeedsChain(q) then chainAt else now, now);
      (match Rows(env.history(now), q, parent)
       case Err(e) => Done(Err(e), origin, now)
       case Ok(data) => Store(data, origin))
    case Store(data, origin) => Done(Ok(data), origin, now)
  }

  function Put(s: State, q: Question, data: Json, origin: Origin): State {
    s.(cache := s.cache[KeyOf(q) := Entry(data, s.now)], origins := s.origins[KeyOf(q) := origin])
  }

  /** What the step does to the cache. */
  function Stored(s: State, c: Reader, fails: bool): State {
    match c.phase
    case ChainStore(chain, chainAt) =>
      if fails then s else Put(s, ParentOf(c.question), ChainJson(chain), Origin(chainAt, chainAt))
    case Store(data, origin) => if fails then s else Put(s, c.question, data, origin)
    case _ => s
  }

  function Apply(env: Env, s: State, a: Action): State
    requires Enabled(env, s, a)
  {
    match a
    case Pass(until) => s.(now := until)
    case Evict(keys) => s.(cache := s.cache - keys)
    case Begin(question) => s.(calls := s.calls + [Reader(question, s.now, Lookup)])
    case Next(i, fails) =>
      var c := s.calls[i];
      Stored(s, c, fails).(calls := s.calls[i := c.(phase := Advance(env, s, c, fails))])
  }

  function Exec(env: Env, start: int, actions: seq<Action>): Option<State> {
    if actions == [] then Some(Initial(start)) else
      var m := |actions| - 1;
      match Exec(env, start, actions[..m])
      case None => None
      case Some(s) => if Enabled(env, s, actions[m]) then Some(Apply(env, s, actions[m])) else None
  }

  /** A call that stores without failing leaves its chain, or its answer, under the key of its question, and
      no other step of a call changes the cache. */
  lemma StoresExactly(env: Env, s: State, i: nat, fails: bool)
    requires Enabled(env, s, Next(i, fails))
    ensures var c, t := s.calls[i], Apply(env, s, Next(i, fails));
            && (c.phase.ChainStore? && !fails ==>
                  && t.cache == s.cache[KeyOf(ParentOf(c.question)) := Entry(ChainJson(c.phase.chain), s.now)]
                  && t.origins[KeyOf(ParentOf(c.question))] == Origin(c.phase.chainAt, c.phase.chainAt))
            && (c.phase.Store? && !fails ==>
                  && t.cache == s.cache[KeyOf(c.question) := Entry(c.phase.data, s.now)]
                  && t.origins[KeyOf(c.question)] == c.phase.origin)
            && (fails || !(c.phase.ChainStore? || c.phase.Store?) ==> t.cache == s.cache && t.origins == s.origins)
  {
    hide KeyOf, Advance;
  }

  // ----- what every step keeps

  /** A chain row that a call holds is the chain it asks for, read at most a lifetime before the call. */
  predicate HoldsChain(env: Env, c: Reader, chain: ChainResponse, chainAt: int, now: int) {
    && NeedsChain(c.question) && ChainByID(env.history(chainAt), ParentOf(c.question).chainID) == Ok(chain)
    && chainAt <= now && c.start < chainAt + DEFAULT_CACHE_TTL + env.latency
  }

  /** A finished call gave the uncached answer for rows at most one lifetime old, and a chain row at most
      two, up to the duration of the calls. */
  predicate AnswersTruly(env: Env, c: Reader)
    requires c.phase.Done?
  {
    var o, at := c.phase.origin, c.phase.at;
    && Uncached(env, c.question, o) == c.phase.reply
    && o.rowsAt <= at < o.rowsAt + DEFAULT_CACHE_TTL + env.latency
    && o.chainAt <= at <= o.chainAt + 2 * (DEFAULT_CACHE_TTL + env.latency - 1)
  }

  predicate PhaseTrue(env: Env, c: Reader, now: int) {
    match c.phase
    case Lookup => true
    case ChainLookup => NeedsChain(c.question)
    case ChainRead => NeedsChain(c.question)
    case ChainStore(chain, chainAt) => HoldsChain(env, c, chain, chainAt, now) && c.start <= chainAt
    case Read(parent, chainAt) =>
      NeedsChain(c.question) ==> parent.Some? && HoldsChain(env, c, parent.value, chainAt, now)
    case Store(data, o) =>
      && Uncached(env, c.question, o) == Ok(data) && c.start <= o.rowsAt <= now
      && o.chainAt <= now && c.start < o.chainAt + DEFAULT_CACHE_TTL + env.latency
    case Done(_, _, at) => at <= now && AnswersTruly(env, c)
  }

  predicate CallTrue(env: Env, c: Reader, now: int) {
    c.start <= now && OnTime(env, c, now) && PhaseTrue(env, c, now)
  }

  ghost predicate Invariant(env: Env, s: State) {
    && Truthful(env, s.cache, s.origins, s.now)
    && forall i | 0 <= i < |s.calls| :: CallTrue(env, s.calls[i], s.now)
  }

  /** A document found is the uncached answer from the rows of its entry. */
  lemma FoundAnswers(env: Env, s: State, q: Question, fails: bool)
    requires env.decoders.Lawful() && Truthful(env, s.cache, s.origins, s.now) && Found(env, s, q, fails).Some?
    ensures var o := OriginOf(s, q);
            && Uncached(env, q, o) == Ok(Found(env, s, q, fails).value)
            && o.rowsAt <= s.now < o.rowsAt + DEFAULT_CACHE_TTL + env.latency
            && o.chainAt <= s.now <= o.chainAt + 2 * (DEFAULT_CACHE_TTL + env.latency - 1)
  {
    HitAnswers(env, s.cache, s.origins, s.now, q);
  }

  lemma LookupTrue(env: Env, s: State, c: Reader, fails: bool)
    requires env.decoders.Lawful() && Truthful(env, s.cache, s.origins, s.now) && CallTrue(env, c, s.now)
    requires c.phase.Lookup? || c.phase.ChainLookup?
    ensures CallTrue(env, c.(phase := Advance(env, s, c, fails)), s.now)
  {
    var q := if c.phase.Lookup? then c.question else ParentOf(c.question);
    if Found(env, s, q, fails).Some? {
      FoundAnswers(env, s, q, fails);
    }
    hide Truthful, Found, OriginOf;
  }

  lemma ReadTrue(env: Env, s: State, c: Reader, fails: bool)
    requires CallTrue(env, c, s.now) && (c.phase.ChainRead? || c.phase.ChainStore? || c.phase.Read? || c.phase.Store?)
    ensures CallTrue(env, c.(phase := Advance(env, s, c, fails)), s.now)
  {
    hide Chains, ChainByID, TokensOfChain, TokenOfChain;
  }

  /** What a call stores keeps the cache truthful, however old its reads have become in the meantime. */
  lemma StoredTruthful(env: Env, s: State, c: Reader, fails: bool)
    requires Truthful(env, s.cache, s.origins, s.now) && CallTrue(env, c, s.now)
    ensures var t := Stored(s, c, fails);
            t.now == s.now && t.calls == s.calls && Truthful(env, t.cache, t.origins, t.now)
  {
    hide Truthful;
    match c.phase {
      case ChainStore(chain, chainAt) =>
        StoreAnswer(env, s.cache, s.origins, s.now, ParentOf(c.question), ChainJson(chain),
                    Origin(chainAt, chainAt));
      case Store(data, origin) => StoreAnswer(env, s.cache, s.origins, s.now, c.question, data, origin);
      case _ =>
    }
  }

  lemma NextStep(env: Env, s: State, i: nat, fails: bool)
    requires env.decoders.Lawful() && Invariant(env, s) && Enabled(env, s, Next(i, fails))
    ensures Invariant(env, Apply(env, s, Next(i, fails)))
  {
    var c := s.calls[i];
    if c.phase.Lookup? || c.phase.ChainLookup? {
      LookupTrue(env, s, c, fails);
    } else {
      ReadTrue(env, s, c, fails);
    }
    StoredTruthful(env, s, c, fails);
    hide Truthful, CallTrue, Advance, Stored;
  }

  /** Time alone makes nothing untrue. */
  lemma PassStep(env: Env, s: State, until: int)
    requires Invariant(env, s) && Enabled(env, s, Pass(until))
    ensures Invariant(env, Apply(env, s, Pass(until)))
  {
    hide Answers, AnswersTruly, Uncached, ChainByID;
  }

  lemma InvariantStep(env: Env, s: State, a: Action)
    requires env.decoders.Lawful() && Invariant(env, s) && Enabled(env, s, a)
    ensures Invariant(env, Apply(env, s, a))
  {
    match a {
      case Pass(until) => PassStep(env, s, until);
      case Evict(_) => hide Answers, CallTrue;
      case Begin(_) => hide Truthful, Uncached;
      case Next(i, fails) => NextStep(env, s, i, fails);
    }
  }

  lemma {:induction false} RunInvariant(env: Env, start: int, actions: seq<Action>)
    requires env.decoders.Lawful() && Exec(env, start, actions).Some?
    ensures Invariant(env, Exec(env, start, actions).value)
    decreases |actions|
  {
    if actions != [] {
      var m := |actions| - 1;
      RunInvariant(env, start, actions[..m]);
      InvariantStep(env, Exec(env, start, actions[..m]).value, actions[m]);
      hide Invariant, Apply, Enabled;
    }
  }

  /** However the steps of all calls interleave, every finished call gave the uncached answer for rows that
      were at most one lifetime old and a chain row at most two, and on a fixed database the uncached answer. */
  lemma EveryAnswerTrue(env: Env, start: int, actions: seq<Action>, i: nat, at: int)
    requires env.decoders.Lawful() && Exec(env, start, actions).Some?
    requires i < |Exec(env, start, actions).value.calls| && Exec(env, start, actions).value.calls[i].phase.Done?
    ensures var c := Exec(env, start, actions).value.calls[i];
            && Uncached(env, c.question, c.phase.origin) == c.phase.reply
            && c.phase.origin.rowsAt <= c.phase.at < c.phase.origin.rowsAt + 86400 + env.latency
            && c.phase.origin.chainAt <= c.phase.at <= c.phase.origin.chainAt + 2 * (86400 + env.latency - 1)
            && (env.Fixed() ==> c.phase.reply == Uncached(env, c.question, Origin(at, at)))
  {
    RunInvariant(env, start, actions);
    var c := Exec(env, start, actions).value.calls[i];
    hide Exec, Truthful;
    assert CallTrue(env, c, Exec(env, start, actions).value.now);
    if env.Fixed() {
      assert env.history(c.phase.origin.rowsAt) == env.history(at);
      assert env.history(c.phase.origin.chainAt) == env.history(at);
    }
  }

  // ----- a run that reaches the age of two lifetimes

  ghost predicate Reaches(env: Env, start: int, actions: seq<Action>, s: State) {
    Exec(env, start, actions) == Some(s)
  }

  lemma Act(env: Env, start: int, before: seq<Action>, s: State, a: Action) returns (actions: seq<Action>)
    requires Reaches(env, start, before, s) && Enabled(env, s, a)
    ensures Reaches(env, start, actions, Apply(env, s, a))
  {
    hide Enabled, Apply;
    actions := before + [a];
    assert actions[..|before|] == before;
  }

  predicate AllDone(s: State) { forall c | c in s.calls :: c.phase.Done? }

  function WithCall(s: State, c: Reader): State { s.(calls := s.calls + [c]) }

  /** The last call takes a step that stores nothing. */
  lemma LastAdvances(env: Env, s: State, c: Reader, fails: bool)
    requires c.phase.Lookup? || c.phase.ChainLookup? || c.phase.Read?
    ensures Enabled(env, WithCall(s, c), Next(|s.calls|, fails))
    ensures Apply(env, WithCall(s, c), Next(|s.calls|, fails))
         == WithCall(s, c.(phase := Advance(env, s, c, fails)))
  {
    hide KeyOf, Live, Decoded, Rows;
  }

  /** The last call stores its answer and is done. */
  lemma LastStores(env: Env, s: State, c: Reader)
    requires c.phase.Store?
    ensures var data, o := c.phase.data, c.phase.origin;
            && Enabled(env, WithCall(s, c), Next(|s.calls|, false))
            && Apply(env, WithCall(s, c), Next(|s.calls|, false))
            == WithCall(Put(s, c.question, data, o), c.(phase := Done(Ok(data), o, s.now)))
  {
    hide KeyOf;
  }

  lemma LastWaits(env: Env, s: State, c: Reader, until: int)
    requires AllDone(s) && s.now <= until && OnTime(env, c, until)
    ensures Enabled(env, WithCall(s, c), Pass(until))
    ensures Apply(env, WithCall(s, c), Pass(until)) == WithCall(s.(now := until), c)
  {
  }

  /** A call that holds its answer waits for as long as a call can take and stores it. */
  lemma StoresLate(env: Env, start: int, before: seq<Action>, s: State, c: Reader)
    returns (actions: seq<Action>, t: State)
    requires Reaches(env, start, before, WithCall(s, c)) && AllDone(s) && c.phase.Store? && c.start == s.now
    ensures Reaches(env, start, actions, t) && AllDone(t)
    ensures t.now == s.now + env.latency
    ensures t.cache == s.cache[KeyOf(c.question) := Entry(c.phase.data, t.now)]
    ensures t.origins == s.origins[KeyOf(c.question) := c.phase.origin]
  {
    var until := s.now + env.latency;
    var waited := s.(now := until);
    LastWaits(env, s, c, until);
    LastStores(env, waited, c);
    hide Reaches, Enabled, Apply, KeyOf;
    actions := Act(env, start, before, WithCall(s, c), Pass(until));
    actions := Act(env, start, actions, WithCall(waited, c), Next(|s.calls|, false));
    t := WithCall(Put(waited, c.question, c.phase.data, c.phase.origin),
                  c.(phase := Done(Ok(c.phase.data), c.phase.origin, until)));
  }

  /** A chain is read at the start and stored at the end of its call. */
  lemma ChainIsCached(env: Env, start: int, chainID: int, chain: ChainResponse)
    returns (actions: seq<Action>, t: State)
    requires ChainByID(env.history(start), chainID) == Ok(chain)
    ensures Reaches(env, start, actions, t) && AllDone(t) && t.now == start + env.latency
    ensures t.cache == map[KeyOf(ChainOf(chainID)) := Entry(ChainJson(chain), t.now)]
    ensures t.origins == map[KeyOf(ChainOf(chainID)) := Origin(start, start)]
  {
    var q, s := ChainOf(chainID), Initial(start);
    var c := Reader(q, start, Lookup);
    var reading, storing := c.(phase := Read(None, start)), c.(phase := Store(ChainJson(chain), Origin(start, start)));
    assert Reaches(env, start, [], s);
    assert Enabled(env, s, Begin(q)) && Apply(env, s, Begin(q)) == WithCall(s, c);
    LastAdvances(env, s, c, true);
    LastAdvances(env, s, reading, false);
    assert Advance(env, s, c, true) == reading.phase && Advance(env, s, reading, false) == storing.phase;
    hide Reaches, Enabled, Apply, Advance, KeyOf, ChainByID;
    actions := Act(env, start, [], s, Begin(q));
    actions := Act(env, start, actions, WithCall(s, c), Next(0, true));
    actions := Act(env, start, actions, WithCall(s, reading), Next(0, false));
    actions, t := StoresLate(env, start, actions, s, storing);
  }

  /** Tokens are read for the cached chain in its last moment, and stored at the end of their call. */
  lemma TokensAreCached(env: Env, start: int, before: seq<Action>, s: State, chainID: int, chain: ChainResponse,
      tokens: seq<TokenResponse>) returns (actions: seq<Action>, t: State)
    requires env.decoders.Lawful() && Reaches(env, start, before, s) && AllDone(s)
    requires Live(s.cache, KeyOf(ChainOf(chainID)), s.now)
    requires s.cache[KeyOf(ChainOf(chainID))].data == ChainJson(chain)
    requires KeyOf(ChainOf(chainID)) in s.origins && s.origins[KeyOf(ChainOf(chainID))].rowsAt == start
    requires TokensOfChain(env.history(s.now), chain.id) == Ok(tokens)
    ensures Reaches(env, start, actions, t) && AllDone(t) && t.now == s.now + env.latency
    ensures KeyOf(TokensOf(chainID)) in t.cache && KeyOf(TokensOf(chainID)) in t.origins
    ensures t.cache[KeyOf(TokensOf(chainID))] == Entry(TokensJson(tokens), t.now)
    ensures t.origins[KeyOf(TokensOf(chainID))] == Origin(start, s.now)
  {
    var q := TokensOf(chainID);
    var c := Reader(q, s.now, Lookup);
    var asking, reading := c.(phase := ChainLookup), c.(phase := Read(Some(chain), start));
    var storing := c.(phase := Store(TokensJson(tokens), Origin(start, s.now)));
    hide KeyOf;
    assert Enabled(env, s, Begin(q)) && Apply(env, s, Begin(q)) == WithCall(s, c);
    LastAdvances(env, s, c, true);
    LastAdvances(env, s, asking, false);
    LastAdvances(env, s, reading, false);
    assert Advance(env, s, c, true) == asking.phase && Advance(env, s, asking, false) == reading.phase;
    assert Advance(env, s, reading, false) == storing.phase;
    hide Reaches, Enabled, Apply, Advance;
    actions := Act(env, start, before, s, Begin(q));
    actions := Act(env, start, actions, WithCall(s, c), Next(|s.calls|, true));
    actions := Act(env, start, actions, WithCall(s, asking), Next(|s.calls|, false));
    actions := Act(env, start, actions, WithCall(s, reading), Next(|s.calls|, false));
    actions, t := StoresLate(env, start, actions, s, storing);
  }

  lemma TimePasses(env: Env, start: int, before: seq<Action>, s: State, until: int) returns (actions: seq<Action>)
    requires Reaches(env, start, before, s) && AllDone(s) && s.now <= until
    ensures Reaches(env, start, actions, s.(now := until)) && AllDone(s.(now := until))
  {
    assert forall i | 0 <= i < |s.calls| :: s.calls[i] in s.calls;
    actions := Act(env, start, before, s, Pass(until));
  }

  /** The bound of two lifetimes is reached: tokens are answered for a chain row of that age. */
  lemma OldestChainRow(env: Env, start: int, chainID: int, chain: ChainResponse, tokens: seq<TokenResponse>)
    returns (actions: seq<Action>, i: nat)
    requires env.decoders.Lawful() && ChainByID(env.history(start), chainID) == Ok(chain)
    requires TokensOfChain(env.history(start + 86400 + env.latency - 1), chain.id) == Ok(tokens)
    ensures Exec(env, start, actions).Some? && i < |Exec(env, start, actions).value.calls|
    ensures var c := Exec(env, start, actions).value.calls[i];
            && c.question == TokensOf(chainID) && c.phase.Done? && c.phase.reply == Ok(TokensJson(tokens))
            && c.phase.at - c.phase.origin.chainAt == 2 * (86400 + env.latency - 1)
  {
    ghost var s;
    hide Reaches, KeyOf, ChainByID, TokensOfChain, AllDone;
    actions, s := ChainIsCached(env, start, chainID, chain);
    actions := TimePasses(env, start, actions, s, s.now + DEFAULT_CACHE_TTL - 1);
    s := s.(now := s.now + DEFAULT_CACHE_TTL - 1);
    actions, s := TokensAreCached(env, start, actions, s, chainID, chain, tokens);
    actions := TimePasses(env, start, actions, s, s.now + DEFAULT_CACHE_TTL - 1);
    s := s.(now := s.now + DEFAULT_CACHE_TTL - 1);
    actions := Hits(env, start, actions, s, chainID, tokens);
    i := |s.calls|;
  }

  /** A live tokens' entry answers at once. */
  lemma Hits(env: Env, start: int, before: seq<Action>, s: State, chainID: int, tokens: seq<TokenResponse>)
    returns (actions: seq<Action>)
    requires env.decoders.Lawful() && Reaches(env, start, before, s)
    requires Live(s.cache, KeyOf(TokensOf(chainID)), s.now) && KeyOf(TokensOf(chainID)) in s.origins
    requires s.cache[KeyOf(TokensOf(chainID))].data == TokensJson(tokens)
    ensures Exec(env, start, actions).Some? && |s.calls| < |Exec(env, start, actions).value.calls|
    ensures Exec(env, start, actions).value.calls[|s.calls|] ==
            Reader(TokensOf(chainID), s.now, Done(Ok(TokensJson(tokens)), s.origins[KeyOf(TokensOf(chainID))], s.now))
  {
    var q := TokensOf(chainID);
    var c := Reader(q, s.now, Lookup);
    hide KeyOf;
    assert Enabled(env, s, Begin(q)) && Apply(env, s, Begin(q)) == WithCall(s, c);
    LastAdvances(env, s, c, false);
    hide Exec;
    actions := Act(env, start, before, s, Begin(q));
    actions := Act(env, start, actions, WithCall(s, c), Next(|s.calls|, false));
  }
}
