/**
 The strategies that name currency pairs by number and represent prices as bytes
 (abci/strategies/currencypair).  The hash and the delta strategy embed the default one; the class at the end has
 the fields of all three and a constant that says which strategy it is.

 The oracle state is part of the context, as in the SDK.  The functions give, for each call, the next caches and the
 answer; the methods of the class are proved equal to them.
 */
module CurrencyPairStrategy {
  import opened Varint
  import opened Abci
  import opened Wrappers
  import opened GobInt

  datatype StrategyError = PairNotFound | IdNotFound | NegativePrice | BadEncoding | CounterMissing

  datatype Kind = Default | Delta | Hash(hash: string -> uint64)

  /** The fields of a strategy object: the ID cache with its height, and the price cache with its own height. */
  datatype Caches = Caches(
    idCache: map<uint64, CurrencyPair>, idHeight: int,
    priceCache: map<CurrencyPair, int>, priceHeight: int)

  const NEW_CACHES := Caches(map[], 0, map[], 0)

  // ---------------------------------------------------------------- ID and FromID

  function RefreshIds(c: Caches, height: int): Caches {
    if height != c.idHeight then c.(idCache := map[], idHeight := height) else c
  }

  function IdOf(kind: Kind, o: OracleState, cp: CurrencyPair): uint64
    requires cp in o.pairs
  {
    match kind case Hash(hash) => hash(cp.String()) case _ => o.pairs[cp].id
  }

  function AfterID(kind: Kind, c: Caches, ctx: Ctx, cp: CurrencyPair): (Caches, Result<uint64, StrategyError>) {
    var c' := RefreshIds(c, ctx.height);
    if cp !in ctx.oracle.pairs then (c', Failure(PairNotFound))
    else
      var id := IdOf(kind, ctx.oracle, cp);
      (c'.(idCache := c'.idCache[id := cp]), Success(id))
  }

  /** The hash strategy's loop that caches every listed pair. */
  function FillWithHashes(hash: string -> uint64, cache: map<uint64, CurrencyPair>, all: seq<CurrencyPair>): map<uint64, CurrencyPair> {
    if all == [] then cache
    else
      var n := |all| - 1;
      FillWithHashes(hash, cache, all[..n])[hash(all[n].String()) := all[n]]
  }

  /** The cache after a miss. */
  function Filled(kind: Kind, c: Caches, o: OracleState, id: uint64): map<uint64, CurrencyPair> {
    match kind
    case Hash(hash) => FillWithHashes(hash, c.idCache, o.all)
    case _ => if id in o.byId then c.idCache[id := o.byId[id]] else c.idCache
  }

  function AfterFromID(kind: Kind, c: Caches, ctx: Ctx, id: uint64): (Caches, Result<CurrencyPair, StrategyError>) {
    var c' := RefreshIds(c, ctx.height);
    if id in c'.idCache then (c', Success(c'.idCache[id]))
    else
      var filled := Filled(kind, c', ctx.oracle, id);
      (c'.(idCache := filled), if id in filled then Success(filled[id]) else Failure(IdNotFound))
  }

  // ---------------------------------------------------------------- prices

  function RefreshPrices(c: Caches, height: int): Caches {
    if height != c.priceHeight then c.(priceCache := map[], priceHeight := height) else c
  }

  /** The on-chain price: zero for a pair without a price, an error for an unknown pair. */
  function KeeperPrice(o: OracleState, cp: CurrencyPair): Result<int, StrategyError> {
    if cp !in o.pairs then Failure(PairNotFound)
    else match o.pairs[cp].price case None => Success(0) case Some(quote) => Success(quote.price)
  }

  function AfterOnChainPrice(c: Caches, ctx: Ctx, cp: CurrencyPair): (Caches, Result<int, StrategyError>) {
    var c' := RefreshPrices(c, ctx.height);
    if cp in c'.priceCache then (c', Success(c'.priceCache[cp]))
    else
      match KeeperPrice(ctx.oracle, cp)
      case Failure(e) => (c', Failure(e))
      case Success(p) => (c'.(priceCache := c'.priceCache[cp := p]), Success(p))
  }

  function AfterEncode(kind: Kind, c: Caches, ctx: Ctx, cp: CurrencyPair, price: int): (Caches, Result<bytes, StrategyError>) {
    if price < 0 then (c, Failure(NegativePrice))
    else if kind != Delta then (c, Success(GobEncode(price)))
    else
      var (c', onChain) := AfterOnChainPrice(c, ctx, cp);
      match onChain
      case Failure(e) => (c', Failure(e))
      case Success(base) => (c', Success(GobEncode(price - base)))
  }

  function AfterDecode(kind: Kind, c: Caches, ctx: Ctx, cp: CurrencyPair, b: bytes): (Caches, Result<int, StrategyError>) {
    if kind == Delta then
      var (c', onChain) := AfterOnChainPrice(c, ctx, cp);
      match onChain
      case Failure(e) => (c', Failure(e))
      case Success(base) => (c', DecodedFrom(b, base))
    else (c, DecodedFrom(b, 0))
  }

  function DecodedFrom(b: bytes, base: int): (r: Result<int, StrategyError>)
    ensures r.Success? ==> r.value >= 0
  {
    match GobDecode(b)
    case Failure(_) => Failure(BadEncoding)
    case Success(d) => if d + base < 0 then Failure(NegativePrice) else Success(d + base)
  }

  /** How many pairs an extension may carry: while proposals are handled, pairs removed in the last block count too. */
  function MaxNumCP(ctx: Ctx): Result<uint64, StrategyError> {
    match ctx.oracle.numPairs
    case None => Failure(CounterMissing)
    case Some(current) =>
      if ctx.mode == PrepareProposal || ctx.mode == ProcessProposal then
        match ctx.oracle.numRemoved
        case None => Failure(CounterMissing)
        case Some(removed) => Success((current + removed) % TWO_TO_THE_64)
      else Success(current)
  }

  // ---------------------------------------------------------------- the objects

  class Strategy {
    const kind: Kind
    var idCache: map<uint64, CurrencyPair>
    var idHeight: int
    var priceCache: map<CurrencyPair, int>
    var priceHeight: int

    constructor (kind: Kind)
      ensures this.kind == kind && Contents() == NEW_CACHES
    {
      this.kind := kind;
      idCache, idHeight := map[], 0;
      priceCache, priceHeight := map[], 0;
    }

    function Contents(): Caches
      reads this
    {
      Caches(idCache, idHeight, priceCache, priceHeight)
    }

    method ID(ctx: Ctx, cp: CurrencyPair) returns (r: Result<uint64, StrategyError>)
      modifies this`idCache, this`idHeight
      ensures (Contents(), r) == AfterID(kind, old(Contents()), ctx, cp)
    {
      if ctx.height != idHeight {
        idCache := map[];
        idHeight := ctx.height;
      }
      if cp !in ctx.oracle.pairs {
        return Failure(PairNotFound);
      }
      var id: uint64;
      match kind {
        case Hash(hash) => id := hash(cp.String());
        case _ => id := ctx.oracle.pairs[cp].id;
      }
      idCache := idCache[id := cp];
      r := Success(id);
    }

    method FromID(ctx: Ctx, id: uint64) returns (r: Result<CurrencyPair, StrategyError>)
      modifies this`idCache, this`idHeight
      ensures (Contents(), r) == AfterFromID(kind, old(Contents()), ctx, id)
    {
      if ctx.height != idHeight {
        idCache := map[];
        idHeight := ctx.height;
      }
      if id in idCache {
        return Success(idCache[id]);
      }
      match kind {
        case Hash(hash) =>
          ghost var before := idCache;
          var i := 0;
          while i < |ctx.oracle.all|
            invariant 0 <= i <= |ctx.oracle.all|
            invariant idHeight == ctx.height
            invariant idCache == FillWithHashes(hash, before, ctx.oracle.all[..i])
          {
            var cp := ctx.oracle.all[i];
            idCache := idCache[hash(cp.String()) := cp];
            i := i + 1;
            assert ctx.oracle.all[..i][..i - 1] == ctx.oracle.all[..i - 1];
          }
          assert ctx.oracle.all[..i] == ctx.oracle.all;
          if id !in idCache {
            return Failure(IdNotFound);
          }
          r := Success(idCache[id]);
        case _ =>
          if id !in ctx.oracle.byId {
            return Failure(IdNotFound);
          }
          var cp := ctx.oracle.byId[id];
          idCache := idCache[id := cp];
          r := Success(cp);
      }
    }

    method GetOnChainPrice(ctx: Ctx, cp: CurrencyPair) returns (r: Result<int, StrategyError>)
      modifies this`priceCache, this`priceHeight
      ensures (Contents(), r) == AfterOnChainPrice(old(Contents()), ctx, cp)
    {
      if ctx.height != priceHeight {
        priceCache := map[];
        priceHeight := ctx.height;
      }
      if cp in priceCache {
        return Success(priceCache[cp]);
      }
      var currentPrice := 0;
      if cp !in ctx.oracle.pairs {
        return Failure(PairNotFound);
      }
      var quote := ctx.oracle.pairs[cp].price;
      if quote.Some? {
        currentPrice := quote.value.price;
      }
      priceCache := priceCache[cp := currentPrice];
      r := Success(currentPrice);
    }

    method GetEncodedPrice(ctx: Ctx, cp: CurrencyPair, price: int) returns (r: Result<bytes, StrategyError>)
      modifies this`priceCache, this`priceHeight
      ensures (Contents(), r) == AfterEncode(kind, old(Contents()), ctx, cp, price)
    {
      if price < 0 {
        return Failure(NegativePrice);
      }
      if kind != Delta {
        return Success(GobEncode(price));
      }
      var onChainPrice := GetOnChainPrice(ctx, cp);
      if onChainPrice.Failure? {
        return Failure(onChainPrice.error);
      }
      r := Success(GobEncode(price - onChainPrice.value));
    }

    method GetDecodedPrice(ctx: Ctx, cp: CurrencyPair, priceBytes: bytes) returns (r: Result<int, StrategyError>)
      modifies this`priceCache, this`priceHeight
      ensures (Contents(), r) == AfterDecode(kind, old(Contents()), ctx, cp, priceBytes)
    {
      var base := 0;
      if kind == Delta {
        var onChainPrice := GetOnChainPrice(ctx, cp);
        if onChainPrice.Failure? {
          return Failure(onChainPrice.error);
        }
        base := onChainPrice.value;
      }
      var delta := GobDecode(priceBytes);
      if delta.Failure? {
        return Failure(BadEncoding);
      }
      var updatedPrice := delta.value + base;
      if updatedPrice < 0 {
        return Failure(NegativePrice);
      }
      r := Success(updatedPrice);
    }

    method GetMaxNumCP(ctx: Ctx) returns (r: Result<uint64, StrategyError>)
      ensures r == MaxNumCP(ctx)
    {
      var current := ctx.oracle.numPairs;
      if current.None? {
        return Failure(CounterMissing);
      }
      if ctx.mode == PrepareProposal || ctx.mode == ProcessProposal {
        var removed := ctx.oracle.numRemoved;
        if removed.None? {
          return Failure(CounterMissing);
        }
        return Success((current.value + removed.value) % TWO_TO_THE_64);
      }
      r := Success(current.value);
    }
  }

  // ---------------------------------------------------------------- the ID cache is transparent

  /** What a lookup without any cache would use: for each ID the pair it names. */
  ghost function Names(kind: Kind, o: OracleState): map<uint64, CurrencyPair> {
    match kind
    case Hash(hash) => FillWithHashes(hash, map[], o.all)
    case _ => o.byId
  }

  /** No two on-chain pairs have the same ID; only the hash strategy can violate this. */
  ghost predicate Unambiguous(kind: Kind, o: OracleState) {
    forall cp1, cp2 :: cp1 in o.pairs && cp2 in o.pairs && IdOf(kind, o, cp1) == IdOf(kind, o, cp2) ==> cp1 == cp2
  }

  datatype IdCall = CallID(ctx: Ctx, cp: CurrencyPair) | CallFromID(ctx: Ctx, id: uint64)

  datatype IdAnswer = AnsID(r: Result<uint64, StrategyError>) | AnsFromID(cp: Result<CurrencyPair, StrategyError>)

  function Step(kind: Kind, c: Caches, call: IdCall): (Caches, IdAnswer) {
    match call
    case CallID(ctx, cp) => var (c', r) := AfterID(kind, c, ctx, cp); (c', AnsID(r))
    case CallFromID(ctx, id) => var (c', r) := AfterFromID(kind, c, ctx, id); (c', AnsFromID(r))
  }

  function Run(kind: Kind, c: Caches, calls: seq<IdCall>): seq<IdAnswer>
    decreases |calls|
  {
    if calls == [] then [] else
    var (c', a) := Step(kind, c, calls[0]);
    [a] + Run(kind, c', calls[1..])
  }

  /** The answer without a cache. */
  ghost function Uncached(kind: Kind, call: IdCall): IdAnswer {
    match call
    case CallID(ctx, cp) =>
      AnsID(if cp in ctx.oracle.pairs then Success(IdOf(kind, ctx.oracle, cp)) else Failure(PairNotFound))
    case CallFromID(ctx, id) =>
      AnsFromID(if id in Names(kind, ctx.oracle) then Success(Names(kind, ctx.oracle)[id]) else Failure(IdNotFound))
  }

  ghost predicate SoundState(kind: Kind, o: OracleState) {
    Consistent(o) && Unambiguous(kind, o)
  }

  /** Within one height the pairs, their IDs and their order do not change (prices may). */
  ghost predicate SteadyWithinHeight(kind: Kind, calls: seq<IdCall>) {
    && (forall call <- calls :: SoundState(kind, call.ctx.oracle))
    && (forall i, j :: 0 <= i < j < |calls| && calls[i].ctx.height == calls[j].ctx.height
          ==> Names(kind, calls[i].ctx.oracle) == Names(kind, calls[j].ctx.oracle))
  }

  /** Every cached entry is what the keeper says. */
  ghost predicate Agrees(c: Caches, names: map<uint64, CurrencyPair>) {
    forall id <- c.idCache :: id in names && names[id] == c.idCache[id]
  }

  lemma {:induction false} FillLooksUp(hash: string -> uint64, cache: map<uint64, CurrencyPair>, all: seq<CurrencyPair>, id: uint64)
    requires forall cp1, cp2 :: cp1 in all && cp2 in all && hash(cp1.String()) == hash(cp2.String()) ==> cp1 == cp2
    ensures var m := FillWithHashes(hash, cache, all);
            && (forall cp :: cp in all && hash(cp.String()) == id ==> id in m && m[id] == cp)
            && ((forall cp :: cp in all ==> hash(cp.String()) != id) ==> (id in m <==> id in cache) && (id in cache ==> m[id] == cache[id]))
  {
    if all != [] {
      var n := |all| - 1;
      assert all == all[..n] + [all[n]];
      FillLooksUp(hash, cache, all[..n], id);
    }
  }

  /** Names is the inverse of IdOf. */
  lemma NamesInverse(kind: Kind, o: OracleState)
    requires SoundState(kind, o)
    ensures forall cp <- o.pairs :: IdOf(kind, o, cp) in Names(kind, o) && Names(kind, o)[IdOf(kind, o, cp)] == cp
    ensures forall id <- Names(kind, o) :: Names(kind, o)[id] in o.pairs && IdOf(kind, o, Names(kind, o)[id]) == id
  {
    if kind.Hash? {
      forall id: uint64
        ensures forall cp :: cp in o.all && kind.hash(cp.String()) == id ==> id in Names(kind, o) && Names(kind, o)[id] == cp
        ensures id in Names(kind, o) ==> exists cp :: cp in o.all && kind.hash(cp.String()) == id
      {
        FillLooksUp(kind.hash, map[], o.all, id);
      }
    }
  }

  /** A fill adds the keeper's entries to a cache that agrees with the keeper. */
  lemma FillAgrees(kind: Kind, c: Caches, o: OracleState, id: uint64)
    requires SoundState(kind, o) && Agrees(c, Names(kind, o))
    ensures Agrees(c.(idCache := Filled(kind, c, o, id)), Names(kind, o))
    ensures id in Filled(kind, c, o, id) <==> id in Names(kind, o)
  {
    match kind
    case Hash(hash) =>
      forall id': uint64
        ensures id' in Filled(kind, c, o, id) <==> id' in Names(kind, o)
        ensures id' in Names(kind, o) ==> Filled(kind, c, o, id)[id'] == Names(kind, o)[id']
      {
        FillLooksUp(hash, c.idCache, o.all, id');
        FillLooksUp(hash, map[], o.all, id');
      }
    case _ =>
  }

  lemma StepTransparent(kind: Kind, c: Caches, call: IdCall)
    requires SoundState(kind, call.ctx.oracle)
    requires c.idHeight == call.ctx.height ==> Agrees(c, Names(kind, call.ctx.oracle))
    ensures Step(kind, c, call).1 == Uncached(kind, call)
    ensures Step(kind, c, call).0.idHeight == call.ctx.height
    ensures Agrees(Step(kind, c, call).0, Names(kind, call.ctx.oracle))
  {
    var o := call.ctx.oracle;
    var c' := RefreshIds(c, call.ctx.height);
    NamesInverse(kind, o);
    match call
    case CallID(_, _) =>
    case CallFromID(_, id) => FillAgrees(kind, c', o, id);
  }

  lemma {:induction false} RunTransparent(kind: Kind, c: Caches, calls: seq<IdCall>)
    requires SteadyWithinHeight(kind, calls)
    requires forall call <- calls :: call.ctx.height == c.idHeight ==> Agrees(c, Names(kind, call.ctx.oracle))
    ensures Run(kind, c, calls) == seq(|calls|, i requires 0 <= i < |calls| => Uncached(kind, calls[i]))
    decreases |calls|
  {
    if calls != [] {
      var c' := Step(kind, c, calls[0]).0;
      StepTransparent(kind, c, calls[0]);
      RunTransparent(kind, c', calls[1..]);
    }
  }

  /**
   Cache transparency: over any sequence of calls on a new strategy object, at any heights, every answer is the one
   an uncached lookup gives, as long as the pair/ID relation is fixed within each height.
   */
  lemma CacheTransparency(kind: Kind, calls: seq<IdCall>)
    requires SteadyWithinHeight(kind, calls)
    ensures Run(kind, NEW_CACHES, calls) == seq(|calls|, i requires 0 <= i < |calls| => Uncached(kind, calls[i]))
  {
    RunTransparent(kind, NEW_CACHES, calls);
  }

  /** ID and FromID are mutually inverse, from any reachable cache. */
  lemma IdsInvert(kind: Kind, c: Caches, ctx: Ctx)
    requires SoundState(kind, ctx.oracle)
    requires c.idHeight == ctx.height ==> Agrees(c, Names(kind, ctx.oracle))
    ensures forall cp :: AfterID(kind, c, ctx, cp).1.Success? ==>
              AfterFromID(kind, AfterID(kind, c, ctx, cp).0, ctx, AfterID(kind, c, ctx, cp).1.value).1 == Success(cp)
    ensures forall id: uint64 :: AfterFromID(kind, c, ctx, id).1.Success? ==>
              AfterID(kind, AfterFromID(kind, c, ctx, id).0, ctx, AfterFromID(kind, c, ctx, id).1.value).1 == Success(id)
  {
    NamesInverse(kind, ctx.oracle);
    forall id: uint64 ensures AfterFromID(kind, c, ctx, id).1.Success? ==>
              AfterID(kind, AfterFromID(kind, c, ctx, id).0, ctx, AfterFromID(kind, c, ctx, id).1.value).1 == Success(id)
    {
      StepTransparent(kind, c, CallFromID(ctx, id));
    }
  }

  /** The pair cached for an ID at this height, if any, is the one the keeper names now. */
  ghost predicate CacheIsCurrent(kind: Kind, c: Caches, call: IdCall) {
    var names := Names(kind, call.ctx.oracle);
    call.CallFromID? && c.idHeight == call.ctx.height && call.id in c.idCache ==>
      call.id in names && names[call.id] == c.idCache[call.id]
  }

  /** What a fill adds does not depend on the cache. */
  lemma {:induction false} FillMisses(hash: string -> uint64, cache: map<uint64, CurrencyPair>, all: seq<CurrencyPair>, id: uint64)
    requires id !in cache
    ensures id in FillWithHashes(hash, cache, all) <==> id in FillWithHashes(hash, map[], all)
    ensures id in FillWithHashes(hash, cache, all) ==> FillWithHashes(hash, cache, all)[id] == FillWithHashes(hash, map[], all)[id]
  {
    if all != [] {
      FillMisses(hash, cache, all[..|all| - 1], id);
    }
  }

  lemma StepExact(kind: Kind, c: Caches, call: IdCall)
    ensures Step(kind, c, call).1 == Uncached(kind, call) <==> CacheIsCurrent(kind, c, call)
  {
    if call.CallFromID? && kind.Hash? {
      var c' := RefreshIds(c, call.ctx.height);
      if call.id !in c'.idCache {
        FillMisses(kind.hash, c'.idCache, call.ctx.oracle.all, call.id);
      }
    }
  }

  /** A fill sets every name of the keeper and leaves the other entries of the cache. */
  lemma {:induction false} FillOver(hash: string -> uint64, cache: map<uint64, CurrencyPair>, all: seq<CurrencyPair>, id: uint64)
    ensures var names, filled := FillWithHashes(hash, map[], all), FillWithHashes(hash, cache, all);
            && (id in filled <==> id in names || id in cache)
            && (id in filled ==> filled[id] == if id in names then names[id] else cache[id])
  {
    if all != [] {
      FillOver(hash, cache, all[..|all| - 1], id);
    }
  }

  /**
   The pair that earlier calls at this height have tied to an ID, told from the calls and the keeper's answers alone: an ID call ties the
   pair it was asked about, a FromID call for an ID not tied yet ties what the keeper names (all names, for the hash strategy),
   and a call at another height unties everything.
   */
  ghost function Tied(kind: Kind, calls: seq<IdCall>, id: uint64, height: int): Option<CurrencyPair>
    decreases |calls|
  {
    if calls == [] then None else
    var n := |calls| - 1;
    if calls[n].ctx.height != height then None else
    var before := Tied(kind, calls[..n], id, height);
    match calls[n]
    case CallID(ctx, cp) => if cp in ctx.oracle.pairs && IdOf(kind, ctx.oracle, cp) == id then Some(cp) else before
    case CallFromID(ctx, asked) =>
      if Tied(kind, calls[..n], asked, height).None? && id in Names(kind, ctx.oracle) && (kind.Hash? || id == asked)
      then Some(Names(kind, ctx.oracle)[id]) else before
  }

  /** The caches after some calls. */
  function CachesFrom(kind: Kind, c: Caches, calls: seq<IdCall>): Caches
    decreases |calls|
  {
    if calls == [] then c else CachesFrom(kind, Step(kind, c, calls[0]).0, calls[1..])
  }

  lemma {:induction false} RunAppends(kind: Kind, c: Caches, calls: seq<IdCall>, call: IdCall)
    ensures CachesFrom(kind, c, calls + [call]) == Step(kind, CachesFrom(kind, c, calls), call).0
    ensures Run(kind, c, calls + [call]) == Run(kind, c, calls) + [Step(kind, CachesFrom(kind, c, calls), call).1]
    decreases |calls|
  {
    hide Step;
    if calls == [] {
      assert [call][1..] == [] && [] + [call] == [call];
    } else {
      assert (calls + [call])[1..] == calls[1..] + [call];
      RunAppends(kind, Step(kind, c, calls[0]).0, calls[1..], call);
    }
  }

  /** One more call changes what is tied as it changes the cache. */
  lemma TiedStep(kind: Kind, c: Caches, calls: seq<IdCall>, call: IdCall, id: uint64, height: int)
    requires forall id: uint64, height :: Tied(kind, calls, id, height) == if c.idHeight == height && id in c.idCache then Some(c.idCache[id]) else None
    ensures var c' := Step(kind, c, call).0;
            Tied(kind, calls + [call], id, height) == if c'.idHeight == height && id in c'.idCache then Some(c'.idCache[id]) else None
  {
    assert (calls + [call])[..|calls|] == calls;
    var c' := RefreshIds(c, call.ctx.height);
    match call
    case CallID(_, _) =>
    case CallFromID(ctx, asked) =>
      if kind.Hash? {
        FillOver(kind.hash, c'.idCache, ctx.oracle.all, id);
      }
  }

  lemma {:induction false} TiedIsCached(kind: Kind, calls: seq<IdCall>, id: uint64, height: int)
    ensures var c := CachesFrom(kind, NEW_CACHES, calls);
            Tied(kind, calls, id, height) == if c.idHeight == height && id in c.idCache then Some(c.idCache[id]) else None
    decreases |calls|
  {
    hide Step;
    if calls != [] {
      var n := |calls| - 1;
      forall id: uint64, height
        ensures var c := CachesFrom(kind, NEW_CACHES, calls[..n]);
                Tied(kind, calls[..n], id, height) == if c.idHeight == height && id in c.idCache then Some(c.idCache[id]) else None
      {
        TiedIsCached(kind, calls[..n], id, height);
      }
      assert calls == calls[..n] + [calls[n]];
      RunAppends(kind, NEW_CACHES, calls[..n], calls[n]);
      TiedStep(kind, CachesFrom(kind, NEW_CACHES, calls[..n]), calls[..n], calls[n], id, height);
    }
  }

  /** The j-th call is no lookup of an ID tied to a pair that the keeper no longer names. */
  ghost predicate LooksUpCurrent(kind: Kind, calls: seq<IdCall>, j: nat)
    requires j < |calls|
  {
    calls[j].CallFromID? ==>
      var names, tied := Names(kind, calls[j].ctx.oracle), Tied(kind, calls[..j], calls[j].id, calls[j].ctx.height);
      tied.Some? ==> calls[j].id in names && names[calls[j].id] == tied.value
  }

  lemma LastIsCurrent(kind: Kind, calls: seq<IdCall>, call: IdCall)
    ensures LooksUpCurrent(kind, calls + [call], |calls|) <==> CacheIsCurrent(kind, CachesFrom(kind, NEW_CACHES, calls), call)
  {
    hide CachesFrom, Tied, Names;
    assert (calls + [call])[..|calls|] == calls;
    if call.CallFromID? {
      TiedIsCached(kind, calls, call.id, call.ctx.height);
    }
  }

  ghost function AllUncached(kind: Kind, calls: seq<IdCall>): (answers: seq<IdAnswer>)
    ensures |answers| == |calls|
  {
    seq(|calls|, i requires 0 <= i < |calls| => Uncached(kind, calls[i]))
  }

  /**
   With no assumption on the keeper at all, for every strategy: the answers of a run on a new strategy object are the uncached ones
   exactly when no lookup of the run asks for an ID that earlier calls at its height tied to a pair the keeper no longer names.
   */
  lemma {:induction false} RunExact(kind: Kind, calls: seq<IdCall>)
    ensures Run(kind, NEW_CACHES, calls) == AllUncached(kind, calls)
            <==> forall j :: 0 <= j < |calls| ==> LooksUpCurrent(kind, calls, j)
    decreases |calls|
  {
    hide Step, Uncached, CacheIsCurrent, LooksUpCurrent, CachesFrom, Run;
    if calls != [] {
      var n := |calls| - 1;
      var init, call := calls[..n], calls[n];
      assert calls == init + [call];
      RunExact(kind, init);
      RunAppends(kind, NEW_CACHES, init, call);
      var answer := Step(kind, CachesFrom(kind, NEW_CACHES, init), call).1;
      StepExact(kind, CachesFrom(kind, NEW_CACHES, init), call);
      LastIsCurrent(kind, init, call);
      assert AllUncached(kind, calls) == AllUncached(kind, init) + [Uncached(kind, call)];
      SameLength(kind, NEW_CACHES, init);
      SplitEqual(Run(kind, NEW_CACHES, init), AllUncached(kind, init), answer, Uncached(kind, call));
      forall j | 0 <= j < n
        ensures LooksUpCurrent(kind, calls, j) <==> LooksUpCurrent(kind, init, j)
      {
        PrefixLooksUp(kind, calls, n, j);
      }
    } else {
      NoAnswers(kind);
    }
  }

  lemma NoAnswers(kind: Kind)
    ensures Run(kind, NEW_CACHES, []) == []
  {
  }

  lemma {:induction false} SameLength(kind: Kind, c: Caches, calls: seq<IdCall>)
    ensures |Run(kind, c, calls)| == |calls|
    decreases |calls|
  {
    hide Step;
    if calls != [] {
      SameLength(kind, Step(kind, c, calls[0]).0, calls[1..]);
    }
  }

  lemma SplitEqual(s: seq<IdAnswer>, t: seq<IdAnswer>, x: IdAnswer, y: IdAnswer)
    requires |s| == |t|
    ensures s + [x] == t + [y] <==> s == t && x == y
  {
    if s + [x] == t + [y] {
      assert (s + [x])[..|s|] == s && (t + [y])[..|s|] == t;
      assert (s + [x])[|s|] == x && (t + [y])[|s|] == y;
    }
  }

  lemma PrefixLooksUp(kind: Kind, calls: seq<IdCall>, n: nat, j: nat)
    requires j < n <= |calls|
    ensures LooksUpCurrent(kind, calls, j) <==> LooksUpCurrent(kind, calls[..n], j)
  {
    assert calls[..n][..j] == calls[..j];
  }

  // ---------------------------------------------------------------- prices: encode and decode invert

  datatype PriceCall =
    | CallEncode(ctx: Ctx, cp: CurrencyPair, price: int)
    | CallDecode(ctx: Ctx, cp: CurrencyPair, b: bytes)

  function AfterPriceCall(kind: Kind, c: Caches, call: PriceCall): Caches {
    match call
    case CallEncode(ctx, cp, price) => AfterEncode(kind, c, ctx, cp, price).0
    case CallDecode(ctx, cp, b) => AfterDecode(kind, c, ctx, cp, b).0
  }

  function AfterPriceCalls(kind: Kind, c: Caches, calls: seq<PriceCall>): Caches
    decreases |calls|
  {
    if calls == [] then c else AfterPriceCalls(kind, AfterPriceCall(kind, c, calls[0]), calls[1..])
  }

  /** Within a height a cached price stays, whatever is called and whatever the keeper holds by then. */
  lemma {:induction false} CachedPriceStays(kind: Kind, c: Caches, calls: seq<PriceCall>, cp: CurrencyPair)
    requires cp in c.priceCache
    requires forall call <- calls :: call.ctx.height == c.priceHeight
    ensures AfterPriceCalls(kind, c, calls).priceHeight == c.priceHeight
    ensures cp in AfterPriceCalls(kind, c, calls).priceCache
    ensures AfterPriceCalls(kind, c, calls).priceCache[cp] == c.priceCache[cp]
    decreases |calls|
  {
    if calls != [] {
      CachedPriceStays(kind, AfterPriceCall(kind, c, calls[0]), calls[1..], cp);
    }
  }

  /**
   Encoding succeeds exactly for a non-negative price of a pair whose on-chain price is cached or can be read.  Decoding the bytes
   later in the same height then gives the price back, with any calls for any pairs in between, and even if the oracle
   state has changed.
   */
  lemma EncodeThenDecode(kind: Kind, c: Caches, ctx: Ctx, cp: CurrencyPair, price: int, between: seq<PriceCall>, ctx': Ctx)
    requires ctx'.height == ctx.height
    requires forall call <- between :: call.ctx.height == ctx.height
    ensures var (c1, b) := AfterEncode(kind, c, ctx, cp, price);
            && (b.Success? <==> price >= 0 && (kind != Delta || cp in ctx.oracle.pairs || cp in RefreshPrices(c, ctx.height).priceCache))
            && (b.Success? ==> AfterDecode(kind, AfterPriceCalls(kind, c1, between), ctx', cp, b.value).1 == Success(price))
  {
    var (c1, b) := AfterEncode(kind, c, ctx, cp, price);
    if b.Success? && kind == Delta {
      CachedPriceStays(kind, c1, between, cp);
      GobRoundTrip(price - c1.priceCache[cp]);
    } else if b.Success? {
      GobRoundTrip(price);
    }
  }

  // ---------------------------------------------------------------- deltas across heights

  /** The price a delta is taken against. */
  function BasePrice(c: Caches, ctx: Ctx, cp: CurrencyPair): Result<int, StrategyError> {
    AfterOnChainPrice(c, ctx, cp).1
  }

  /**
   A delta made at one height and decoded at another gives the price back exactly when both sides measure it against
   the same price.
   */
  lemma DeltaAcrossHeights(c: Caches, ctx: Ctx, c': Caches, ctx': Ctx, cp: CurrencyPair, price: int)
    requires price >= 0
    requires BasePrice(c, ctx, cp).Success? && BasePrice(c', ctx', cp).Success?
    ensures AfterEncode(Delta, c, ctx, cp, price).1.Success?
    ensures AfterDecode(Delta, c', ctx', cp, AfterEncode(Delta, c, ctx, cp, price).1.value).1 == Success(price)
            <==> BasePrice(c, ctx, cp) == BasePrice(c', ctx', cp)
  {
    GobRoundTrip(price - BasePrice(c, ctx, cp).value);
  }

  /** The context at some height, with a new price for one pair, as writing a block's prices leaves it. */
  function Wrote(ctx: Ctx, height: int, cp: CurrencyPair, quote: QuotePrice): Ctx
    requires cp in ctx.oracle.pairs
  {
    ctx.(height := height,
         oracle := ctx.oracle.(pairs := ctx.oracle.pairs[cp := ctx.oracle.pairs[cp].(price := Some(quote))]))
  }

  /** An object that has no price of the pair cached at this height, or this one. */
  predicate CachesNoOther(c: Caches, height: int, cp: CurrencyPair, price: int) {
    c.priceHeight == height && cp in c.priceCache ==> c.priceCache[cp] == price
  }

  /**
   ExtendVote: the price applier decodes votes (caching the pair's price), the new price is written, and then the
   encoder takes its delta; the bytes are decoded one height later against the written price.  With an encoder object of its own,
   as the integration guide demands, the price survives exactly when that object has not cached another price at this height.
   */
  lemma SeparateStrategiesRoundTrip(encoder: Caches, later: Caches, ctx: Ctx, cp: CurrencyPair, quote: QuotePrice, price: int)
    requires cp in ctx.oracle.pairs && price >= 0
    requires later.priceHeight != ctx.height + 1
    ensures var sent := AfterEncode(Delta, encoder, Wrote(ctx, ctx.height, cp, quote), cp, price).1;
            sent.Success? &&
            (AfterDecode(Delta, later, Wrote(ctx, ctx.height + 1, cp, quote), cp, sent.value).1 == Success(price)
             <==> CachesNoOther(encoder, ctx.height, cp, quote.price))
  {
    DeltaAcrossHeights(encoder, Wrote(ctx, ctx.height, cp, quote), later, Wrote(ctx, ctx.height + 1, cp, quote), cp, price);
  }

  /**
   Two consensus rounds of one height: the vote is extended after q1 would have been written, and again after q2, which is the price
   that the height ends with.  The price cache is keyed by height alone, so the second extension keeps its price exactly when the two
   proposals write the same price.
   */
  lemma SecondRoundRoundTrip(encoder: Caches, later: Caches, ctx: Ctx, cp: CurrencyPair, q1: QuotePrice, price1: int, q2: QuotePrice, price2: int)
    requires cp in ctx.oracle.pairs && price1 >= 0 && price2 >= 0
    requires encoder.priceHeight != ctx.height && later.priceHeight != ctx.height + 1
    ensures var first := AfterEncode(Delta, encoder, Wrote(ctx, ctx.height, cp, q1), cp, price1).0;
            var sent := AfterEncode(Delta, first, Wrote(ctx, ctx.height, cp, q2), cp, price2).1;
            sent.Success? &&
            (AfterDecode(Delta, later, Wrote(ctx, ctx.height + 1, cp, q2), cp, sent.value).1 == Success(price2) <==> q1.price == q2.price)
  {
    var first := AfterEncode(Delta, encoder, Wrote(ctx, ctx.height, cp, q1), cp, price1).0;
    SeparateStrategiesRoundTrip(first, later, ctx, cp, q2, price2);
  }

  /**
   With one shared object the encoder finds the price cached before the write, and the round trip works exactly when
   the block did not change the pair's price.
   */
  lemma SharedStrategyRoundTrip(shared: Caches, later: Caches, ctx: Ctx, cp: CurrencyPair, vote: bytes, quote: QuotePrice, price: int)
    requires cp in ctx.oracle.pairs && price >= 0
    requires shared.priceHeight != ctx.height && later.priceHeight != ctx.height + 1
    ensures var applied := AfterDecode(Delta, shared, ctx, cp, vote).0;
            var sent := AfterEncode(Delta, applied, Wrote(ctx, ctx.height, cp, quote), cp, price).1;
            sent.Success? &&
            (AfterDecode(Delta, later, Wrote(ctx, ctx.height + 1, cp, quote), cp, sent.value).1 == Success(price)
             <==> KeeperPrice(ctx.oracle, cp) == Success(quote.price))
  {
    var applied := AfterDecode(Delta, shared, ctx, cp, vote).0;
    DeltaAcrossHeights(applied, Wrote(ctx, ctx.height, cp, quote), later, Wrote(ctx, ctx.height + 1, cp, quote), cp, price);
  }

  // ---------------------------------------------------------------- answers from the keeper

  /** With no price cached at this height: bytes decode to their number, for the delta strategy on top of the pair's price on chain. */
  lemma DecodedExactly(kind: Kind, c: Caches, ctx: Ctx, cp: CurrencyPair, b: bytes)
    requires c.priceHeight != ctx.height
    ensures AfterDecode(kind, c, ctx, cp, b).1 ==
            if kind.Delta? && cp !in ctx.oracle.pairs then Failure(PairNotFound)
            else match GobDecode(b)
                 case Failure(_) => Failure(BadEncoding)
                 case Success(d) =>
                   var price := if kind.Delta? && ctx.oracle.pairs[cp].price.Some? then d + ctx.oracle.pairs[cp].price.value.price else d;
                   if price >= 0 then Success(price) else Failure(NegativePrice)
  {
  }

  /** With no price cached at this height: what is sent is the price itself or, for the delta strategy, its distance from the price on chain. */
  lemma EncodedExactly(kind: Kind, c: Caches, ctx: Ctx, cp: CurrencyPair, price: int)
    requires c.priceHeight != ctx.height
    ensures match AfterEncode(kind, c, ctx, cp, price).1
            case Failure(e) => (price < 0 && e == NegativePrice) || (price >= 0 && kind.Delta? && cp !in ctx.oracle.pairs && e == PairNotFound)
            case Success(b) =>
              && price >= 0 && (kind.Delta? ==> cp in ctx.oracle.pairs)
              && GobDecode(b) == Success(if kind.Delta? && ctx.oracle.pairs[cp].price.Some? then price - ctx.oracle.pairs[cp].price.value.price
                                         else price)
  {
    var (_, r) := AfterEncode(kind, c, ctx, cp, price);
    if r.Success? {
      GobRoundTrip(if kind.Delta? && ctx.oracle.pairs[cp].price.Some? then price - ctx.oracle.pairs[cp].price.value.price else price);
    }
  }

  /** An ID is the pair's number on chain or the hash of BASE/QUOTE, whatever is cached. */
  lemma IdExactly(kind: Kind, c: Caches, ctx: Ctx, cp: CurrencyPair)
    ensures AfterID(kind, c, ctx, cp).1 == if cp !in ctx.oracle.pairs then Failure(PairNotFound)
                                           else Success(if kind.Hash? then kind.hash(cp.base + "/" + cp.quote) else ctx.oracle.pairs[cp].id)
  {
  }

  /** With nothing cached at this height, an ID names the pair of the keeper's index or, by hashes, the last listed pair with this hash. */
  lemma FromIdExactly(kind: Kind, c: Caches, ctx: Ctx, id: uint64)
    requires c.idHeight != ctx.height
    ensures !kind.Hash? ==> AfterFromID(kind, c, ctx, id).1
                            == if id in ctx.oracle.byId then Success(ctx.oracle.byId[id]) else Failure(IdNotFound)
    ensures kind.Hash? && (forall cp <- ctx.oracle.all :: !HashesTo(kind.hash, cp, id))
            ==> AfterFromID(kind, c, ctx, id).1 == Failure(IdNotFound)
    ensures kind.Hash? ==>
              forall i: nat :: IsLastWith(kind.hash, ctx.oracle.all, id, i) ==> AfterFromID(kind, c, ctx, id).1 == Success(ctx.oracle.all[i])
  {
    if kind.Hash? {
      var all := ctx.oracle.all;
      hide FillWithHashes;
      FilledByLast(kind.hash, all, id);
    }
  }

  /** The pair's name hashes to the ID. */
  predicate HashesTo(hash: string -> uint64, cp: CurrencyPair, id: uint64) {
    hash(cp.base + "/" + cp.quote) == id
  }

  predicate IsLastWith(hash: string -> uint64, all: seq<CurrencyPair>, id: uint64, i: nat) {
    i < |all| && HashesTo(hash, all[i], id) && forall j :: i < j < |all| ==> !HashesTo(hash, all[j], id)
  }

  lemma {:induction false} FilledByLast(hash: string -> uint64, all: seq<CurrencyPair>, id: uint64)
    ensures (forall cp <- all :: !HashesTo(hash, cp, id)) ==> id !in FillWithHashes(hash, map[], all)
    ensures forall i: nat :: IsLastWith(hash, all, id, i) ==> id in FillWithHashes(hash, map[], all) && FillWithHashes(hash, map[], all)[id] == all[i]
  {
    if all != [] {
      var n := |all| - 1;
      var before := FillWithHashes(hash, map[], all[..n]);
      FilledByLast(hash, all[..n], id);
      assert hash(all[n].String()) == id <==> HashesTo(hash, all[n], id);
      assert FillWithHashes(hash, map[], all) == before[hash(all[n].String()) := all[n]];
      hide FillWithHashes, HashesTo;
      forall i: nat | IsLastWith(hash, all, id, i) && i < n
        ensures IsLastWith(hash, all[..n], id, i) && !HashesTo(hash, all[n], id)
      {
      }
    }
  }

  /** How many entries an extension may have: the pairs on chain and, while proposals are handled, those the last block removed. */
  lemma MaxNumExactly(ctx: Ctx, n: uint64)
    requires ctx.oracle.numPairs.Some? && ctx.oracle.numRemoved.Some?
    requires ctx.oracle.numPairs.value + ctx.oracle.numRemoved.value < TWO_TO_THE_64
    ensures MaxNumCP(ctx) == Success(n)
            <==> n == match ctx.mode
                      case OtherMode => ctx.oracle.numPairs.value
                      case _ => ctx.oracle.numPairs.value + ctx.oracle.numRemoved.value
  {
  }
}
