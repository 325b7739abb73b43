/** The read-through cache in front of the asset queries, over a database that changes in time. */
module AssetService {
  import opened Basics
  import opened Assets
  import opened AssetCache

  class Service {
    const env: Env
    var now: int
    var cache: Cache
    ghost var origins: map<string, Origin>

    ghost predicate Valid()
      reads this
    {
      env.decoders.Lawful() && Truthful(env, cache, origins, now)
    }

    /** Rows read at `at` are at most one lifetime old, up to the duration of a call. */
    ghost predicate OneLifetime(at: int)
      reads this`now
    {
      at <= now < at + 86400 + env.latency
    }

    /** Rows read at `at` are at most two lifetimes old, up to the duration of two calls. */
    ghost predicate TwoLifetimes(at: int)
      reads this`now
    {
      at <= now <= at + 2 * (86400 + env.latency - 1)
    }

    constructor (env: Env, now: int)
      requires env.decoders.Lawful()
      ensures Valid() && this.env == env && cache == map[]
    {
      this.env, this.now := env, now;
      cache, origins := map[], map[];
    }

    /** Time passes, up to a deadline, and other calls and the store do what they like with the cache as
        long as it stays truthful; `AssetRuns` proves that the steps of every other call do. */
    method Others(deadline: int)
      requires Valid() && now <= deadline
      modifies this`now, this`cache, this`origins
      ensures Valid() && old(now) <= now <= deadline
    {
      var t: int :| now <= t <= deadline;
      now := t;
      var keys: set<string> := *;
      Evict(keys);
    }

    /** The store may evict entries at any time. */
    method Evict(keys: set<string>)
      requires Valid()
      modifies this`cache
      ensures Valid() && cache == old(cache) - keys
    {
      cache := cache - keys;
    }

    /** The document of a live entry, unless the lookup fails. */
    method Get(key: string, fails: bool) returns (data: Option<Json>)
      requires Valid()
      ensures data == if !fails && key in cache && now < cache[key].storedAt + 86400 then Some(cache[key].data)
                      else None
    {
      if fails || !Live(cache, key, now) {
        return None;
      }
      return Some(cache[key].data);
    }

    /** Stores the answer to a question, unless storing fails. */
    method Set(ghost q: Question, key: string, data: Json, ghost origin: Origin, fails: bool)
      requires Valid() && key == KeyOf(q) && Uncached(env, q, origin) == Ok(data)
      requires origin.rowsAt <= now <= origin.rowsAt + env.latency
      requires origin.chainAt <= now < origin.chainAt + DEFAULT_CACHE_TTL + 2 * env.latency
      modifies this`cache, this`origins
      ensures Valid() && cache == if fails then old(cache) else old(cache)[key := Entry(data, now)]
    {
      if !fails {
        StoreAnswer(env, cache, origins, now, q, data, origin);
        cache := cache[key := Entry(data, now)];
        origins := origins[key := origin];
      }
    }

    // ----- the cached reads, each of which lets others in between its lookup, its read and its store

    method GetChains(deadline: int) returns (r: Result<seq<ChainResponse>>, ghost rowsAt: int)
      requires Valid() && now <= deadline <= now + env.latency
      modifies this`now, this`cache, this`origins
      ensures Valid() && old(now) <= now <= deadline
      ensures OneLifetime(rowsAt) && r == Chains(env.history(rowsAt))
      ensures env.Fixed() ==> r == Chains(env.history(now))
    {
      hide Truthful, Answers, Chains, ChainsKey;
      Others(deadline);
      var misses: bool, loses: bool := *, *;
      var data := Get(ChainsKey(), misses);
      if data.Some? {
        HitAnswers(env, cache, origins, now, AllChains);
        var result := env.decoders.chains(data.value);
        if result.Some? {
          return Ok(result.value), origins[ChainsKey()].rowsAt;
        }
      }
      rowsAt := now;
      r := Chains(env.history(now));
      Others(deadline);
      if r.Ok? {
        Set(AllChains, ChainsKey(), ChainsJson(r.value), Origin(rowsAt, rowsAt), loses);
      }
    }

    method GetChainByChainID(chainID: int, deadline: int) returns (r: Result<ChainResponse>, ghost rowsAt: int)
      requires Valid() && now <= deadline <= now + env.latency
      modifies this`now, this`cache, this`origins
      ensures Valid() && old(now) <= now <= deadline
      ensures OneLifetime(rowsAt) && r == ChainByID(env.history(rowsAt), chainID)
      ensures env.Fixed() ==> r == ChainByID(env.history(now), chainID)
    {
      hide Truthful, Answers, ChainByID, ChainKey;
      Others(deadline);
      var key := ChainKey(chainID);
      var misses: bool, loses: bool := *, *;
      var data := Get(key, misses);
      if data.Some? {
        HitAnswers(env, cache, origins, now, ChainOf(chainID));
        var result := env.decoders.chain(data.value);
        if result.Some? {
          return Ok(result.value), origins[key].rowsAt;
        }
      }
      rowsAt := now;
      r := ChainByID(env.history(now), chainID);
      Others(deadline);
      if r.Ok? {
        Set(ChainOf(chainID), key, ChainJson(r.value), Origin(rowsAt, rowsAt), loses);
      }
    }

    /** The chain comes from a nested cached read, whose age adds to that of the tokens' entry. */
    method GetTokensByChainID(chainID: int, deadline: int)
      returns (r: Result<seq<TokenResponse>>, ghost chainAt: int, ghost rowsAt: int)
      requires Valid() && now <= deadline <= now + env.latency
      modifies this`now, this`cache, this`origins
      ensures Valid() && old(now) <= now <= deadline
      ensures OneLifetime(rowsAt) && TwoLifetimes(chainAt)
      ensures r == TokensByChain(env.history(chainAt), env.history(rowsAt), chainID)
      ensures env.Fixed() ==> r == TokensByChain(env.history(now), env.history(now), chainID)
    {
      hide Truthful, Answers, ChainByID, TokensOfChain, TokensKey;
      Others(deadline);
      var key := TokensKey(chainID);
      var misses: bool, loses: bool := *, *;
      var data := Get(key, misses);
      if data.Some? {
        HitAnswers(env, cache, origins, now, TokensOf(chainID));
        var result := env.decoders.tokens(data.value);
        if result.Some? {
          return Ok(result.value), origins[key].chainAt, origins[key].rowsAt;
        }
      }
      var chain;
      chain, chainAt := GetChainByChainID(chainID, deadline);
      if chain.Err? {
        return Err(chain.error), chainAt, now;
      }
      Others(deadline);
      rowsAt := now;
      r := TokensOfChain(env.history(now), chain.value.id);
      Others(deadline);
      if r.Ok? {
        Set(TokensOf(chainID), key, TokensJson(r.value), Origin(chainAt, rowsAt), loses);
      }
    }

    method GetTokenBySymbol(chainID: int, symbol: string, deadline: int)
      returns (r: Result<TokenResponse>, ghost chainAt: int, ghost rowsAt: int)
      requires Valid() && now <= deadline <= now + env.latency
      modifies this`now, this`cache, this`origins
      ensures Valid() && old(now) <= now <= deadline
      ensures OneLifetime(rowsAt) && TwoLifetimes(chainAt)
      ensures r == TokenBySymbol(env.history(chainAt), env.history(rowsAt), chainID, symbol)
      ensures env.Fixed() ==> r == TokenBySymbol(env.history(now), env.history(now), chainID, symbol)
    {
      hide Truthful, Answers, ChainByID, TokenOfChain, TokenKey;
      Others(deadline);
      var key := TokenKey(chainID, symbol);
      var misses: bool, loses: bool := *, *;
      var data := Get(key, misses);
      if data.Some? {
        HitAnswers(env, cache, origins, now, TokenOf(chainID, symbol));
        var result := env.decoders.token(data.value);
        if result.Some? {
          return Ok(result.value), origins[key].chainAt, origins[key].rowsAt;
        }
      }
      var chain;
      chain, chainAt := GetChainByChainID(chainID, deadline);
      if chain.Err? {
        return Err(chain.error), chainAt, now;
      }
      Others(deadline);
      rowsAt := now;
      r := TokenOfChain(env.history(now), chain.value.id, symbol);
      Others(deadline);
      if r.Ok? {
        Set(TokenOf(chainID, symbol), key, TokenJson(r.value), Origin(chainAt, rowsAt), loses);
      }
    }
  }
}
