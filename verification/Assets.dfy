/** What the asset service answers without a cache, and the keys under which it caches answers. */
module Assets {
  import opened Basics
  import opened Decimal
  import opened Sequences

  datatype Chain = Chain(
    id: nat, name: string, chainID: int, rpcURL: string, explorerURL: string, nativeCurrency: string,
    status: string)

  datatype Token = Token(
    id: nat, chainID: nat, contractAddress: string, name: string, symbol: string, decimals: int,
    logoURL: string, kind: string, status: string)

  datatype ChainResponse = ChainResponse(
    id: nat, name: string, chainID: int, rpcURL: string, explorerURL: string, nativeCurrency: string)

  datatype TokenResponse = TokenResponse(
    id: nat, chainID: nat, contractAddress: string, name: string, symbol: string, decimals: int,
    logoURL: string, kind: string)

  function ToChainResponse(c: Chain): ChainResponse {
    ChainResponse(c.id, c.name, c.chainID, c.rpcURL, c.explorerURL, c.nativeCurrency)
  }

  function ToTokenResponse(t: Token): TokenResponse {
    TokenResponse(t.id, t.chainID, t.contractAddress, t.name, t.symbol, t.decimals, t.logoURL, t.kind)
  }

  datatype Error = ChainNotFound | TokenNotFound | QueryFailed

  datatype Result<T> = Ok(value: T) | Err(error: Error)

  // ----- the database

  /** The rows at one moment, or an outage in which every query fails. */
  datatype Database = Rows(chains: seq<Chain>, tokens: seq<Token>) | Outage

  const NIL: nat := 0

  function FindChain(chains: seq<Chain>, chainID: int): Option<Chain> {
    if chains == [] then None
    else if chains[0].chainID == chainID then Some(chains[0])
    else FindChain(chains[1..], chainID)
  }

  function FindToken(tokens: seq<Token>, chain: nat, symbol: string): Option<Token> {
    if tokens == [] then None
    else if tokens[0].chainID == chain && tokens[0].symbol == symbol then Some(tokens[0])
    else FindToken(tokens[1..], chain, symbol)
  }

  function TokensOn(tokens: seq<Token>, chain: nat): seq<Token> {
    if tokens == [] then []
    else (if tokens[0].chainID == chain then [tokens[0]] else []) + TokensOn(tokens[1..], chain)
  }

  // ----- the answers of the uncached service

  function Chains(db: Database): Result<seq<ChainResponse>> {
    match db
    case Outage => Err(QueryFailed)
    case Rows(chains, _) =>
      if chains == [] then Err(ChainNotFound)
      else Ok(seq(|chains|, i requires 0 <= i < |chains| => ToChainResponse(chains[i])))
  }

  /** A failed query leaves a row with the nil id, which reads as not found. */
  function ChainByID(db: Database, chainID: int): Result<ChainResponse> {
    match db
    case Outage => Err(ChainNotFound)
    case Rows(chains, _) =>
      var row := FindChain(chains, ToInt32(chainID));
      if row.None? || row.value.id == NIL then Err(ChainNotFound) else Ok(ToChainResponse(row.value))
  }

  /** The tokens of a chain row read from one database and token rows read from another. */
  function TokensByChain(chainDb: Database, tokenDb: Database, chainID: int): Result<seq<TokenResponse>> {
    match ChainByID(chainDb, chainID)
    case Err(e) => Err(e)
    case Ok(chain) => TokensOfChain(tokenDb, chain.id)
  }

  function TokensOfChain(db: Database, chain: nat): Result<seq<TokenResponse>> {
    match db
    case Outage => Err(QueryFailed)
    case Rows(_, tokens) =>
      var rows := TokensOn(tokens, chain);
      if rows == [] then Err(TokenNotFound)
      else Ok(seq(|rows|, i requires 0 <= i < |rows| => ToTokenResponse(rows[i])))
  }

  function TokenBySymbol(chainDb: Database, tokenDb: Database, chainID: int, symbol: string): Result<TokenResponse> {
    match ChainByID(chainDb, chainID)
    case Err(e) => Err(e)
    case Ok(chain) => TokenOfChain(tokenDb, chain.id, symbol)
  }

  function TokenOfChain(db: Database, chain: nat, symbol: string): Result<TokenResponse> {
    match db
    case Outage => Err(TokenNotFound)
    case Rows(_, tokens) =>
      var row := FindToken(tokens, chain, symbol);
      if row.None? || row.value.id == NIL then Err(TokenNotFound) else Ok(ToTokenResponse(row.value))
  }

  // ----- what the answers are, by rows

  /** Responses carry the fields of their rows. */
  lemma FieldsCopied(c: Chain, t: Token)
    ensures var r := ToChainResponse(c);
            && r.id == c.id && r.name == c.name && r.chainID == c.chainID && r.rpcURL == c.rpcURL
            && r.explorerURL == c.explorerURL && r.nativeCurrency == c.nativeCurrency
    ensures var r := ToTokenResponse(t);
            && r.id == t.id && r.chainID == t.chainID && r.contractAddress == t.contractAddress && r.name == t.name
            && r.symbol == t.symbol && r.decimals == t.decimals && r.logoURL == t.logoURL && r.kind == t.kind
  {
  }

  lemma {:induction false} FirstChain(chains: seq<Chain>, chainID: int)
    ensures FindChain(chains, chainID).None? <==> forall c | c in chains :: c.chainID != chainID
    ensures forall i | 0 <= i < |chains| && chains[i].chainID == chainID
                    && (forall j | 0 <= j < i :: chains[j].chainID != chainID) ::
              FindChain(chains, chainID) == Some(chains[i])
    decreases |chains|
  {
    if chains != [] {
      FirstChain(chains[1..], chainID);
      assert chains == [chains[0]] + chains[1..];
      if chains[0].chainID != chainID {
        forall i | 0 <= i < |chains| && chains[i].chainID == chainID
                && (forall j | 0 <= j < i :: chains[j].chainID != chainID)
          ensures FindChain(chains, chainID) == Some(chains[i])
        {
          assert chains[1..][i - 1] == chains[i];
          assert forall j | 0 <= j < i - 1 :: chains[1..][j] == chains[j + 1];
        }
      } else {
        assert chains[0] in chains;
      }
    }
  }

  lemma {:induction false} FirstToken(tokens: seq<Token>, chain: nat, symbol: string)
    ensures FindToken(tokens, chain, symbol).None? <==>
              forall t | t in tokens :: t.chainID != chain || t.symbol != symbol
    ensures forall i | 0 <= i < |tokens| && tokens[i].chainID == chain && tokens[i].symbol == symbol
                    && (forall j | 0 <= j < i :: tokens[j].chainID != chain || tokens[j].symbol != symbol) ::
              FindToken(tokens, chain, symbol) == Some(tokens[i])
    decreases |tokens|
  {
    if tokens != [] {
      FirstToken(tokens[1..], chain, symbol);
      assert tokens == [tokens[0]] + tokens[1..];
      if tokens[0].chainID != chain || tokens[0].symbol != symbol {
        forall i | 0 <= i < |tokens| && tokens[i].chainID == chain && tokens[i].symbol == symbol
                && (forall j | 0 <= j < i :: tokens[j].chainID != chain || tokens[j].symbol != symbol)
          ensures FindToken(tokens, chain, symbol) == Some(tokens[i])
        {
          assert tokens[1..][i - 1] == tokens[i];
          assert forall j | 0 <= j < i - 1 :: tokens[1..][j] == tokens[j + 1];
        }
      } else {
        assert tokens[0] in tokens;
      }
    }
  }

  /** A chain id is cut to the 32-bit number that differs from it by a multiple of 2^32. */
  lemma CutIs(chainID: int, cut: int)
    requires -0x8000_0000 <= cut < 0x8000_0000 && (chainID - cut) % 0x1_0000_0000 == 0
    ensures ToInt32(chainID) == cut
  {
  }

  /** A chain is answered exactly from the first row with the cut id, when that row's own id is not nil;
      any other question about a chain finds none. */
  lemma ChainByIDExactly(db: Database, chainID: int, cut: int)
    requires -0x8000_0000 <= cut < 0x8000_0000 && (chainID - cut) % 0x1_0000_0000 == 0
    ensures db.Outage? ==> ChainByID(db, chainID) == Err(ChainNotFound)
    ensures db.Rows? && (forall c | c in db.chains :: c.chainID != cut) ==> ChainByID(db, chainID) == Err(ChainNotFound)
    ensures db.Rows? ==>
              forall i | 0 <= i < |db.chains| && db.chains[i].chainID == cut
                      && (forall j | 0 <= j < i :: db.chains[j].chainID != cut) ::
                ChainByID(db, chainID) ==
                if db.chains[i].id == 0 then Err(ChainNotFound) else Ok(ToChainResponse(db.chains[i]))
  {
    CutIs(chainID, cut);
    if db.Rows? {
      FirstChain(db.chains, cut);
    }
    hide FindChain, ToInt32;
  }

  /** A token of a chain is answered exactly from the first row with the chain and the symbol, when the
      row's own id is not nil. */
  lemma TokenOfChainExactly(db: Database, chain: nat, symbol: string)
    ensures db.Outage? ==> TokenOfChain(db, chain, symbol) == Err(TokenNotFound)
    ensures db.Rows? && (forall t | t in db.tokens :: t.chainID != chain || t.symbol != symbol) ==>
              TokenOfChain(db, chain, symbol) == Err(TokenNotFound)
    ensures db.Rows? ==>
              forall i | 0 <= i < |db.tokens| && db.tokens[i].chainID == chain && db.tokens[i].symbol == symbol
                      && (forall j | 0 <= j < i :: db.tokens[j].chainID != chain || db.tokens[j].symbol != symbol) ::
                TokenOfChain(db, chain, symbol) ==
                if db.tokens[i].id == 0 then Err(TokenNotFound) else Ok(ToTokenResponse(db.tokens[i]))
  {
    if db.Rows? {
      FirstToken(db.tokens, chain, symbol);
    }
    hide FindToken;
  }

  lemma {:induction false} TokensOnAppend(tokens: seq<Token>, last: Token, chain: nat)
    ensures TokensOn(tokens + [last], chain) == TokensOn(tokens, chain) + if last.chainID == chain then [last] else []
    decreases |tokens|
  {
    if tokens == [] {
      assert [last][1..] == [];
    } else {
      TokensOnAppend(tokens[1..], last, chain);
      var head := if tokens[0].chainID == chain then [tokens[0]] else [];
      assert (tokens + [last])[1..] == tokens[1..] + [last] && (tokens + [last])[0] == tokens[0];
      assert TokensOn(tokens, chain) == head + TokensOn(tokens[1..], chain);
      assert TokensOn(tokens + [last], chain) == head + TokensOn(tokens[1..] + [last], chain);
      hide TokensOn;
    }
  }

  function OnChain(tokens: seq<Token>, chain: nat): seq<bool> {
    seq(|tokens|, i requires 0 <= i < |tokens| => tokens[i].chainID == chain)
  }

  lemma {:induction false} TokenPlaces(tokens: seq<Token>, chain: nat) returns (places: seq<nat>)
    ensures Picks(TokensOn(tokens, chain), places, tokens, OnChain(tokens, chain))
    decreases |tokens|
  {
    if tokens == [] {
      places := [];
    } else {
      var m := |tokens| - 1;
      TokensOnAppend(tokens[..m], tokens[m], chain);
      hide TokensOn, Picks;
      places := TokenPlaces(tokens[..m], chain);
      var picked, keep := TokensOn(tokens[..m], chain), OnChain(tokens[..m], chain);
      assert tokens == tokens[..m] + [tokens[m]];
      assert OnChain(tokens, chain) == keep + [tokens[m].chainID == chain];
      if tokens[m].chainID == chain {
        PicksKept(picked, places, tokens[..m], keep, tokens[m]);
        places := places + [m];
      } else {
        PicksLeft(picked, places, tokens[..m], keep, tokens[m]);
        assert picked + [] == picked;
      }
    }
  }

  /** The tokens of a chain are in order the rows with the chain; none is an error, as is an outage. */
  lemma TokensOfChainExactly(db: Database, chain: nat) returns (places: seq<nat>)
    ensures db.Outage? ==> TokensOfChain(db, chain) == Err(QueryFailed)
    ensures db.Rows? ==>
              && (forall i, j | 0 <= i < j < |places| :: places[i] < places[j])
              && (forall i: nat :: i in places <==> i < |db.tokens| && db.tokens[i].chainID == chain)
              && (places == [] ==> TokensOfChain(db, chain) == Err(TokenNotFound))
              && (places != [] ==>
                    && TokensOfChain(db, chain).Ok? && |TokensOfChain(db, chain).value| == |places|
                    && forall j | 0 <= j < |places| ::
                         && places[j] < |db.tokens|
                         && TokensOfChain(db, chain).value[j] == ToTokenResponse(db.tokens[places[j]]))
  {
    places := [];
    if db.Rows? {
      places := TokenPlaces(db.tokens, chain);
    }
    hide TokensOn;
  }

  /** All chains are in order all rows; none is an error, as is an outage. */
  lemma ChainsExactly(db: Database)
    ensures db.Outage? ==> Chains(db) == Err(QueryFailed)
    ensures db.Rows? && db.chains == [] ==> Chains(db) == Err(ChainNotFound)
    ensures db.Rows? && db.chains != [] ==>
              && Chains(db).Ok? && |Chains(db).value| == |db.chains|
              && forall i | 0 <= i < |db.chains| :: Chains(db).value[i] == ToChainResponse(db.chains[i])
  {
  }

  /** Tokens are asked for the own id of the chain that is found, and a chain that is not found is the error. */
  lemma ByChainExactly(chainDb: Database, tokenDb: Database, chainID: int, symbol: string)
    ensures ChainByID(chainDb, chainID).Err? ==>
              && TokensByChain(chainDb, tokenDb, chainID) == Err(ChainByID(chainDb, chainID).error)
              && TokenBySymbol(chainDb, tokenDb, chainID, symbol) == Err(ChainByID(chainDb, chainID).error)
    ensures ChainByID(chainDb, chainID).Ok? ==>
              var id := ChainByID(chainDb, chainID).value.id;
              && TokensByChain(chainDb, tokenDb, chainID) == TokensOfChain(tokenDb, id)
              && TokenBySymbol(chainDb, tokenDb, chainID, symbol) == TokenOfChain(tokenDb, id, symbol)
  {
  }

  // ----- keys

  function BuildKey(key: string): string { "asset:" + key }

  function ChainsKey(): string { BuildKey("chains") }

  function TokensKey(chainID: int): string { BuildKey("tokens:" + Itoa(chainID)) }

  function TokenKey(chainID: int, symbol: string): string { BuildKey("token:" + Itoa(chainID) + ":" + symbol) }

  function ChainKey(chainID: int): string { BuildKey("token:" + Itoa(chainID)) }

  /** The keys as they are written to the store. */
  lemma KeysSpelled(c: int, symbol: string)
    ensures ChainsKey() == "asset:chains" && TokensKey(c) == "asset:tokens:" + Itoa(c)
    ensures ChainKey(c) == "asset:token:" + Itoa(c) && TokenKey(c, symbol) == "asset:token:" + Itoa(c) + ":" + symbol
  {
    hide Itoa;
  }

  lemma StripPrefix(p: string, a: string, b: string)
    requires p + a == p + b
    ensures a == b
  {
    assert (p + a)[|p|..] == a && (p + b)[|p|..] == b;
  }

  /** Keys of one kind are different for different arguments. */
  lemma KeysInjective(c: int, d: int, s: string, t: string)
    ensures TokensKey(c) == TokensKey(d) ==> c == d
    ensures ChainKey(c) == ChainKey(d) ==> c == d
    ensures TokenKey(c, s) == TokenKey(d, t) ==> c == d && s == t
  {
    hide Itoa;
    if TokensKey(c) == TokensKey(d) {
      StripPrefix("asset:", "tokens:" + Itoa(c), "tokens:" + Itoa(d));
      StripPrefix("tokens:", Itoa(c), Itoa(d));
      ItoaInjective(c, d);
    }
    if ChainKey(c) == ChainKey(d) {
      StripPrefix("asset:", "token:" + Itoa(c), "token:" + Itoa(d));
      StripPrefix("token:", Itoa(c), Itoa(d));
      ItoaInjective(c, d);
    }
    if TokenKey(c, s) == TokenKey(d, t) {
      StripPrefix("asset:", "token:" + Itoa(c) + ":" + s, "token:" + Itoa(d) + ":" + t);
      assert "token:" + Itoa(c) + ":" + s == "token:" + (Itoa(c) + (":" + s));
      assert "token:" + Itoa(d) + ":" + t == "token:" + (Itoa(d) + (":" + t));
      StripPrefix("token:", Itoa(c) + (":" + s), Itoa(d) + (":" + t));
      ItoaPrefix(c, d, ":" + s, ":" + t);
      StripPrefix(":", s, t);
    }
  }

  /** Keys of different kinds are different for all arguments. */
  lemma KeysDisjoint(c: int, d: int, s: string)
    ensures ChainsKey() != TokensKey(c) && ChainsKey() != ChainKey(c) && ChainsKey() != TokenKey(c, s)
    ensures TokensKey(c) != ChainKey(d) && TokensKey(c) != TokenKey(d, s)
    ensures ChainKey(c) != TokenKey(d, s)
  {
    hide Itoa;
    assert ChainsKey()[6] == 'c' && TokensKey(c)[6] == 't' && ChainKey(c)[6] == 't' && TokenKey(c, s)[6] == 't';
    assert TokensKey(c)[11] == 's' && ChainKey(d)[11] == ':' && TokenKey(d, s)[11] == ':';
    if ChainKey(c) == TokenKey(d, s) {
      StripPrefix("asset:", "token:" + Itoa(c), "token:" + Itoa(d) + ":" + s);
      assert "token:" + Itoa(d) + ":" + s == "token:" + (Itoa(d) + (":" + s));
      StripPrefix("token:", Itoa(c), Itoa(d) + (":" + s));
      assert Itoa(c) + "" == Itoa(c);
      ItoaPrefix(c, d, "", ":" + s);
    }
  }
}
