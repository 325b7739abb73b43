/** What the asset cache holds: for each question its key, and for each entry when its rows were read. */
module AssetCache {
  import opened Basics
  import opened Assets

  /** Seconds that an entry lives: a day. */
  const DEFAULT_CACHE_TTL: int := 86400

  /** A cached document. */
  datatype Json =
    | ChainsJson(chains: seq<ChainResponse>)
    | TokensJson(tokens: seq<TokenResponse>)
    | ChainJson(chain: ChainResponse)
    | TokenJson(token: TokenResponse)

  /** The JSON decoders: each reads back what its type's encoder wrote, and may read anything, or
      nothing, from a document of another type. */
  datatype Decoders = Decoders(
    chains: Json -> Option<seq<ChainResponse>>, tokens: Json -> Option<seq<TokenResponse>>,
    chain: Json -> Option<ChainResponse>, token: Json -> Option<TokenResponse>)
  {
    ghost predicate Lawful() {
      && (forall v :: chains(ChainsJson(v)) == Some(v))
      && (forall v :: tokens(TokensJson(v)) == Some(v))
      && (forall v :: chain(ChainJson(v)) == Some(v))
      && (forall v :: token(TokenJson(v)) == Some(v))
    }
  }

  /** The database at every moment, the decoders, and how long a call can take. */
  datatype Env = Env(history: int -> Database, decoders: Decoders, latency: nat) {
    /** The database never changes. */
    ghost predicate Fixed() { forall t, u :: history(t) == history(u) }
  }

  // ----- questions

  datatype Question =
    | AllChains
    | ChainOf(chainID: int)
    | TokensOf(chainID: int)
    | TokenOf(chainID: int, symbol: string)

  function KeyOf(q: Question): string {
    match q
    case AllChains => ChainsKey()
    case ChainOf(c) => ChainKey(c)
    case TokensOf(c) => TokensKey(c)
    case TokenOf(c, s) => TokenKey(c, s)
  }

  function Symbol(q: Question): string { if q.TokenOf? then q.symbol else "" }

  /** A key is the key of one question only. */
  lemma KeyOfInjective(q: Question, r: Question)
    requires KeyOf(q) == KeyOf(r)
    ensures q == r
  {
    var c, d := if q.AllChains? then 0 else q.chainID, if r.AllChains? then 0 else r.chainID;
    KeysInjective(c, d, Symbol(q), Symbol(r));
    KeysDisjoint(c, d, Symbol(r));
    KeysDisjoint(d, c, Symbol(q));
    KeysDisjoint(c, c, Symbol(q));
    KeysDisjoint(d, d, Symbol(r));
    hide ChainsKey, ChainKey, TokensKey, TokenKey;
  }

  /** When the chain row and the other rows behind an answer were read. */
  datatype Origin = Origin(chainAt: int, rowsAt: int)

  function Wrapped<T>(r: Result<T>, json: T -> Json): Result<Json> {
    match r
    case Ok(v) => Ok(json(v))
    case Err(e) => Err(e)
  }

  /** The answer of the uncached service from the rows of these moments, as a document. */
  function Uncached(env: Env, q: Question, o: Origin): Result<Json> {
    var db := env.history(o.rowsAt);
    match q
    case AllChains => Wrapped(Chains(db), v => ChainsJson(v))
    case ChainOf(c) => Wrapped(ChainByID(db, c), v => ChainJson(v))
    case TokensOf(c) => Wrapped(TokensByChain(env.history(o.chainAt), db, c), v => TokensJson(v))
    case TokenOf(c, s) => Wrapped(TokenBySymbol(env.history(o.chainAt), db, c, s), v => TokenJson(v))
  }

  /** What a caller reads from a document. */
  function Decoded(env: Env, q: Question, data: Json): Option<Json> {
    match q
    case AllChains => var v := env.decoders.chains(data); if v.Some? then Some(ChainsJson(v.value)) else None
    case ChainOf(_) => var v := env.decoders.chain(data); if v.Some? then Some(ChainJson(v.value)) else None
    case TokensOf(_) => var v := env.decoders.tokens(data); if v.Some? then Some(TokensJson(v.value)) else None
    case TokenOf(_, _) => var v := env.decoders.token(data); if v.Some? then Some(TokenJson(v.value)) else None
  }

  // ----- entries

  datatype Entry = Entry(data: Json, storedAt: int)

  /** Rows behind an entry were read within the call that stored it. */
  predicate Recent(env: Env, e: Entry, at: int) {
    at <= e.storedAt && e.storedAt - at <= env.latency
  }

  /** A chain row behind an entry may itself come from an entry that was then alive. */
  predicate Inherited(env: Env, e: Entry, at: int) {
    at <= e.storedAt && e.storedAt - at < DEFAULT_CACHE_TTL + 2 * env.latency
  }

  /** An entry answers what its key asks, from rows as old as its origin says. */
  ghost predicate Answers(env: Env, key: string, e: Entry, o: Origin) {
    && Recent(env, e, o.rowsAt) && Inherited(env, e, o.chainAt)
    && forall q | KeyOf(q) == key :: Uncached(env, q, o) == Ok(e.data)
  }

  /** An entry under the key of a question can only answer that question. */
  lemma OwnKeyAnswers(env: Env, q: Question, e: Entry, o: Origin)
    ensures Answers(env, KeyOf(q), e, o) <==>
              Recent(env, e, o.rowsAt) && Inherited(env, e, o.chainAt) && Uncached(env, q, o) == Ok(e.data)
  {
    forall r | KeyOf(r) == KeyOf(q) ensures r == q {
      KeyOfInjective(r, q);
    }
  }

  type Cache = map<string, Entry>

  /** Every entry was stored by now and answers what its key asks. */
  ghost predicate Truthful(env: Env, cache: Cache, origins: map<string, Origin>, now: int) {
    forall key | key in cache ::
      key in origins && cache[key].storedAt <= now && Answers(env, key, cache[key], origins[key])
  }

  predicate Live(cache: Cache, key: string, now: int) {
    key in cache && now < cache[key].storedAt + DEFAULT_CACHE_TTL
  }

  /** A live entry, once decoded, is the uncached answer from its rows. */
  lemma HitAnswers(env: Env, cache: Cache, origins: map<string, Origin>, now: int, q: Question)
    requires env.decoders.Lawful() && Truthful(env, cache, origins, now) && KeyOf(q) in cache
    ensures KeyOf(q) in origins && cache[KeyOf(q)].storedAt <= now
    ensures var o := origins[KeyOf(q)];
            && Recent(env, cache[KeyOf(q)], o.rowsAt) && Inherited(env, cache[KeyOf(q)], o.chainAt)
            && Uncached(env, q, o) == Ok(cache[KeyOf(q)].data)
            && Decoded(env, q, cache[KeyOf(q)].data) == Some(cache[KeyOf(q)].data)
  {
    OwnKeyAnswers(env, q, cache[KeyOf(q)], origins[KeyOf(q)]);
  }

  /** Storing an answer under the key of its question keeps the cache truthful. */
  lemma StoreAnswer(env: Env, cache: Cache, origins: map<string, Origin>, now: int, q: Question, data: Json, o: Origin)
    requires Truthful(env, cache, origins, now) && Uncached(env, q, o) == Ok(data)
    requires o.rowsAt <= now <= o.rowsAt + env.latency
    requires o.chainAt <= now < o.chainAt + DEFAULT_CACHE_TTL + 2 * env.latency
    ensures Truthful(env, cache[KeyOf(q) := Entry(data, now)], origins[KeyOf(q) := o], now)
  {
    OwnKeyAnswers(env, q, Entry(data, now), o);
    hide KeyOf, Uncached, Answers;
  }
}
