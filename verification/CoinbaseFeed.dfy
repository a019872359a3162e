/**
 Prices from Coinbase messages: the websocket handler's sequence numbers and trade IDs
 (providers/websockets/coinbase/parse.go) and the provider's store that the responses are delivered to, in order
 (providers/base/fetch.go).  The clock is a parameter of every message.
 */
module CoinbaseFeed {
  import opened Wrappers

  /** A supported ticker, as the handler's cache resolves it. */
  type ProviderTicker = string

  datatype Message =
    | TickerMessage(ticker: string, sequence: int, price: string, tradeID: int)
    | HeartbeatMessage(ticker: string, sequence: int, lastTradeID: int)

  /** isUnchanged is the response code of a heartbeat; the price that comes with it is zero. */
  datatype PriceResult = PriceResult(value: real, timestamp: int, isUnchanged: bool)

  type Data = map<ProviderTicker, PriceResult>

  datatype HandlerState = HandlerState(sequence: map<ProviderTicker, int>, tradeIDs: map<ProviderTicker, int>)

  /** The tickers the handler was set up with, and the price parser. */
  datatype Feed = Feed(cache: map<string, ProviderTicker>, parse: string -> Option<real>)

  datatype Response = Response(resolved: Data, unresolved: set<ProviderTicker>)

  // ---------------------------------------------------------------- what one message does

  function AfterMessage(feed: Feed, h: HandlerState, msg: Message, now: int): (HandlerState, Response) {
    if msg.ticker !in feed.cache then (h, Response(map[], {}))
    else
      var t := feed.cache[msg.ticker];
      if t in h.sequence && h.sequence[t] > msg.sequence then (h, Response(map[], {t}))
      else
        var h' := h.(sequence := h.sequence[t := msg.sequence]);
        match msg
        case TickerMessage(_, _, price, tradeID) =>
          if feed.parse(price).None? then (h', Response(map[], {t}))
          else (h'.(tradeIDs := h.tradeIDs[t := tradeID]), Response(map[t := PriceResult(feed.parse(price).value, now, false)], {}))
        case HeartbeatMessage(_, _, lastTradeID) =>
          if t !in h.tradeIDs || h.tradeIDs[t] != lastTradeID then (h', Response(map[], {t}))
          else (h', Response(map[t := PriceResult(0.0, now, true)], {}))
  }

  function AfterResult(data: Data, id: ProviderTicker, result: PriceResult): Data {
    if id !in data then (if result.isUnchanged then data else data[id := result])
    else if result.timestamp < data[id].timestamp then data
    else if result.isUnchanged then data[id := data[id].(timestamp := result.timestamp)]
    else data[id := result]
  }

  function Entry(data: Data, t: ProviderTicker): Option<PriceResult> {
    if t in data then Some(data[t]) else None
  }

  /** A response of this handler resolves at most one ticker. */
  function AfterResponse(data: Data, r: Response, t: ProviderTicker): Data {
    if t in r.resolved then AfterResult(data, t, r.resolved[t]) else data
  }

  // ---------------------------------------------------------------- the objects

  class WebSocketHandler {
    const feed: Feed
    var sequence: map<ProviderTicker, int>
    var tradeIDs: map<ProviderTicker, int>

    constructor (feed: Feed)
      ensures this.feed == feed && State() == HandlerState(map[], map[])
    {
      this.feed := feed;
      sequence, tradeIDs := map[], map[];
    }

    function State(): HandlerState
      reads this
    {
      HandlerState(sequence, tradeIDs)
    }

    method CheckSequenceNumber(ticker: ProviderTicker, number: int) returns (ok: bool)
      modifies this`sequence
      ensures ok <==> ticker in old(sequence) ==> old(sequence)[ticker] <= number
      ensures sequence == if ok then old(sequence)[ticker := number] else old(sequence)
    {
      if ticker !in sequence || sequence[ticker] <= number {
        sequence := sequence[ticker := number];
        return true;
      }
      ok := false;
    }

    method HandleMessage(msg: Message, now: int) returns (r: Response)
      modifies this`sequence, this`tradeIDs
      ensures (State(), r) == AfterMessage(feed, old(State()), msg, now)
      ensures |r.resolved| <= 1
    {
      match msg {
        case TickerMessage(_, _, _, _) => r := ParseTickerResponseMessage(msg, now);
        case HeartbeatMessage(_, _, _) => r := ParseHeartbeatResponseMessage(msg, now);
      }
    }

    method ParseTickerResponseMessage(msg: Message, now: int) returns (r: Response)
      requires msg.TickerMessage?
      modifies this`sequence, this`tradeIDs
      ensures (State(), r) == AfterMessage(feed, old(State()), msg, now)
      ensures |r.resolved| <= 1
    {
      if msg.ticker !in feed.cache {
        return Response(map[], {});
      }
      var ticker := feed.cache[msg.ticker];
      var inOrder := CheckSequenceNumber(ticker, msg.sequence);
      if !inOrder {
        return Response(map[], {ticker});
      }
      var price := feed.parse(msg.price);
      if price.None? {
        return Response(map[], {ticker});
      }
      tradeIDs := tradeIDs[ticker := msg.tradeID];
      r := Response(map[ticker := PriceResult(price.value, now, false)], {});
    }

    method ParseHeartbeatResponseMessage(msg: Message, now: int) returns (r: Response)
      requires msg.HeartbeatMessage?
      modifies this`sequence
      ensures (State(), r) == AfterMessage(feed, old(State()), msg, now)
      ensures |r.resolved| <= 1
    {
      if msg.ticker !in feed.cache {
        return Response(map[], {});
      }
      var ticker := feed.cache[msg.ticker];
      var inOrder := CheckSequenceNumber(ticker, msg.sequence);
      if !inOrder {
        return Response(map[], {ticker});
      }
      if ticker !in tradeIDs || tradeIDs[ticker] != msg.lastTradeID {
        return Response(map[], {ticker});
      }
      r := Response(map[ticker := PriceResult(0.0, now, true)], {});
    }
  }

  class Provider {
    var data: Data

    constructor ()
      ensures data == map[]
    {
      data := map[];
    }

    method UpdateData(id: ProviderTicker, result: PriceResult)
      modifies this
      ensures data == AfterResult(old(data), id, result)
    {
      if id !in data {
        if result.isUnchanged {
          return;
        }
        data := data[id := result];
        return;
      }
      var current := data[id];
      if result.timestamp < current.timestamp {
        return;
      }
      if result.isUnchanged {
        current := current.(timestamp := result.timestamp);
        data := data[id := current];
      } else {
        data := data[id := result];
      }
    }

    /** One delivered response; its tickers are visited in some order, which makes no difference. */
    method Recv(r: Response)
      modifies this
      ensures forall t :: Entry(data, t) == if t in r.resolved then Entry(AfterResult(old(data), t, r.resolved[t]), t) else Entry(old(data), t)
    {
      var todo := r.resolved.Keys;
      while todo != {}
        invariant todo <= r.resolved.Keys
        invariant forall t :: Entry(data, t) == if t in r.resolved && t !in todo then Entry(AfterResult(old(data), t, r.resolved[t]), t)
                                                else Entry(old(data), t)
        decreases |todo|
      {
        hide AfterResult;
        var id :| id in todo;
        ghost var before := data;
        assert Entry(before, id) == Entry(old(data), id);
        OtherEntriesStay(before, old(data), id, r.resolved[id]);
        UpdateData(id, r.resolved[id]);
        todo := todo - {id};
      }
    }
  }

  datatype Event = Event(msg: Message, now: int)

  function AfterEvent(feed: Feed, h: HandlerState, data: Data, e: Event): (HandlerState, Data) {
    var (h', r) := AfterMessage(feed, h, e.msg, e.now);
    (h', if e.msg.ticker in feed.cache then AfterResponse(data, r, feed.cache[e.msg.ticker]) else data)
  }

  function Run(feed: Feed, events: seq<Event>): (HandlerState, Data) {
    if events == [] then (HandlerState(map[], map[]), map[]) else
    var n := |events| - 1;
    var (h, data) := Run(feed, events[..n]);
    AfterEvent(feed, h, data, events[n])
  }

  /** A result changes the entry of its own ticker only, and only that entry matters for it. */
  lemma OtherEntriesStay(data: Data, data': Data, id: ProviderTicker, result: PriceResult)
    requires Entry(data, id) == Entry(data', id)
    ensures forall t | t != id :: Entry(AfterResult(data, id, result), t) == Entry(data, t)
    ensures Entry(AfterResult(data, id, result), id) == Entry(AfterResult(data', id, result), id)
  {
  }

  lemma SameEntries(a: Data, b: Data)
    ensures (forall t :: Entry(a, t) == Entry(b, t)) ==> a == b
  {
    if forall t :: Entry(a, t) == Entry(b, t) {
      forall t
        ensures t in a <==> t in b
        ensures t in a ==> a[t] == b[t]
      {
        assert Entry(a, t) == Entry(b, t);
      }
    }
  }

  /** Delivering a response changes what one message changes. */
  lemma OneResponse(feed: Feed, h: HandlerState, data: Data, e: Event, data': Data)
    requires var r := AfterMessage(feed, h, e.msg, e.now).1;
             forall t :: Entry(data', t) == if t in r.resolved then Entry(AfterResult(data, t, r.resolved[t]), t) else Entry(data, t)
    ensures data' == AfterEvent(feed, h, data, e).1
  {
    SameEntries(data', AfterEvent(feed, h, data, e).1);
  }

  /** The message loop: every response is delivered, in order, before the next message is handled. */
  method Receive(feed: Feed, events: seq<Event>) returns (h: WebSocketHandler, p: Provider)
    ensures (h.State(), p.data) == Run(feed, events)
  {
    h := new WebSocketHandler(feed);
    p := new Provider();
    var i := 0;
    while i < |events|
      invariant 0 <= i <= |events|
      invariant h.feed == feed && (h.State(), p.data) == Run(feed, events[..i])
    {
      hide AfterMessage, Run;
      var e := events[i];
      ghost var state, before := h.State(), p.data;
      var r := h.HandleMessage(e.msg, e.now);
      p.Recv(r);
      OneResponse(feed, state, before, e, p.data);
      RunStep(feed, events[..i], e);
      assert events[..i + 1] == events[..i] + [e];
      i := i + 1;
    }
    assert events[..i] == events;
  }

  // ---------------------------------------------------------------- the history says what is stored

  predicate About(feed: Feed, e: Event, t: ProviderTicker) {
    e.msg.ticker in feed.cache && feed.cache[e.msg.ticker] == t
  }

  /** No earlier message about the ticker has a higher sequence number. */
  predicate InOrder(feed: Feed, events: seq<Event>, k: nat, t: ProviderTicker)
    requires k < |events|
  {
    About(feed, events[k], t) && forall i :: 0 <= i < k && About(feed, events[i], t) ==> events[i].msg.sequence <= events[k].msg.sequence
  }

  /** A ticker message in order, with a price that parses. */
  predicate Accepted(feed: Feed, events: seq<Event>, k: nat, t: ProviderTicker)
    requires k < |events|
  {
    InOrder(feed, events, k, t) && events[k].msg.TickerMessage? && feed.parse(events[k].msg.price).Some?
  }

  predicate LastAccepted(feed: Feed, events: seq<Event>, k: nat, t: ProviderTicker) {
    && k < |events| && Accepted(feed, events, k, t)
    && forall i :: k < i < |events| ==> !Accepted(feed, events, i, t)
  }

  /** A heartbeat in order that names the trade of message k. */
  predicate Confirms(feed: Feed, events: seq<Event>, k: nat, m: nat, t: ProviderTicker)
    requires k < |events| && m < |events|
  {
    && events[k].msg.TickerMessage? && InOrder(feed, events, m, t)
    && events[m].msg.HeartbeatMessage? && events[m].msg.lastTradeID == events[k].msg.tradeID
  }

  /** The last message from k on that confirms the trade of message k, or k itself. */
  function LastTouch(feed: Feed, events: seq<Event>, k: nat, t: ProviderTicker): (m: nat)
    requires k < |events|
    ensures k <= m < |events|
  {
    var n := |events| - 1;
    if n == k then k else if Confirms(feed, events, k, n, t) then n else LastTouch(feed, events[..n], k, t)
  }

  predicate ClockNeverGoesBack(events: seq<Event>) {
    forall i, j :: 0 <= i < j < |events| ==> events[i].now <= events[j].now
  }

  /** The handler's sequence number for a ticker is the highest one seen. */
  ghost predicate SequenceIsHighest(feed: Feed, h: HandlerState, events: seq<Event>, t: ProviderTicker) {
    && (t in h.sequence <==> exists i :: 0 <= i < |events| && About(feed, events[i], t))
    && (t in h.sequence ==>
          (forall i :: 0 <= i < |events| && About(feed, events[i], t) ==> events[i].msg.sequence <= h.sequence[t]) &&
          (exists i :: 0 <= i < |events| && About(feed, events[i], t) && events[i].msg.sequence == h.sequence[t]))
  }

  lemma {:induction false} SequenceTracksHighest(feed: Feed, events: seq<Event>, t: ProviderTicker)
    ensures SequenceIsHighest(feed, Run(feed, events).0, events, t)
  {
    if events != [] {
      var n := |events| - 1;
      SequenceTracksHighest(feed, events[..n], t);
      var h, h' := Run(feed, events[..n]).0, Run(feed, events).0;
      if t in h.sequence {
        var i :| 0 <= i < n && About(feed, events[..n][i], t) && events[..n][i].msg.sequence == h.sequence[t];
        assert events[..n][i] == events[i];
      }
      assert forall i :: 0 <= i < n ==> events[..n][i] == events[i];
      if About(feed, events[n], t) {
        assert About(feed, events[|events| - 1], t);
      }
    }
  }

  /** A message about the ticker passes the sequence check exactly when it is in order. */
  lemma InOrderPasses(feed: Feed, events: seq<Event>, t: ProviderTicker)
    requires events != [] && About(feed, events[|events| - 1], t)
    ensures var h := Run(feed, events[..|events| - 1]).0;
            InOrder(feed, events, |events| - 1, t) <==> (t in h.sequence ==> h.sequence[t] <= events[|events| - 1].msg.sequence)
  {
    var n := |events| - 1;
    var h := Run(feed, events[..n]).0;
    SequenceTracksHighest(feed, events[..n], t);
    assert forall i :: 0 <= i < n ==> events[..n][i] == events[i];
    if t in h.sequence {
      var i :| 0 <= i < n && About(feed, events[..n][i], t) && events[..n][i].msg.sequence == h.sequence[t];
      assert About(feed, events[i], t);
    }
  }

  /** What the handler and the store hold for a ticker, in terms of the history. */
  ghost predicate Explained(feed: Feed, h: HandlerState, data: Data, events: seq<Event>, t: ProviderTicker) {
    && (t in data <==> exists k: nat :: LastAccepted(feed, events, k, t))
    && (t in h.tradeIDs <==> t in data)
    && (forall k: nat :: LastAccepted(feed, events, k, t) ==>
          && t in data && h.tradeIDs[t] == events[k].msg.tradeID
          && data[t] == PriceResult(feed.parse(events[k].msg.price).value, events[LastTouch(feed, events, k, t)].now, false))
  }

  /** A longer history does not change what was accepted in its beginning. */
  lemma PrefixAccepted(feed: Feed, events: seq<Event>, k: nat, t: ProviderTicker)
    requires k < |events| - 1
    ensures Accepted(feed, events, k, t) == Accepted(feed, events[..|events| - 1], k, t)
  {
  }

  lemma LastAcceptedGrows(feed: Feed, events: seq<Event>, k: nat, t: ProviderTicker)
    requires events != []
    ensures LastAccepted(feed, events, k, t) <==>
              if Accepted(feed, events, |events| - 1, t) then k == |events| - 1 else LastAccepted(feed, events[..|events| - 1], k, t)
  {
    hide Accepted;
    forall i: nat | i < |events| - 1
      ensures Accepted(feed, events, i, t) == Accepted(feed, events[..|events| - 1], i, t)
    {
      PrefixAccepted(feed, events, i, t);
    }
    var n := |events| - 1;
    if !Accepted(feed, events, n, t) {
      assert LastAccepted(feed, events, k, t) ==> k != n;
      if LastAccepted(feed, events[..n], k, t) {
        assert forall i :: k < i < n ==> !Accepted(feed, events[..n], i, t);
      }
      if LastAccepted(feed, events, k, t) {
        forall i: nat | k < i < n
          ensures !Accepted(feed, events[..n], i, t)
        {
          assert !Accepted(feed, events, i, t);
        }
      }
    }
  }

  /** The part of the handler's and the store's state that belongs to one ticker, before and after the last message. */
  lemma LastEvent(feed: Feed, events: seq<Event>, t: ProviderTicker)
    requires events != []
    ensures var n := |events| - 1;
            var (h, data) := Run(feed, events[..n]);
            var (h', data') := Run(feed, events);
            if Accepted(feed, events, n, t) then
              && t in h'.tradeIDs && h'.tradeIDs[t] == events[n].msg.tradeID
              && data' == AfterResult(data, t, PriceResult(feed.parse(events[n].msg.price).value, events[n].now, false))
            else
              && (t in h'.tradeIDs <==> t in h.tradeIDs) && (t in h.tradeIDs ==> h'.tradeIDs[t] == h.tradeIDs[t])
              && (if InOrder(feed, events, n, t) && events[n].msg.HeartbeatMessage? && t in h.tradeIDs && h.tradeIDs[t] == events[n].msg.lastTradeID
                  then data' == AfterResult(data, t, PriceResult(0.0, events[n].now, true))
                  else (t in data' <==> t in data) && (t in data ==> data'[t] == data[t]))
  {
    hide InOrder;
    var n := |events| - 1;
    if About(feed, events[n], t) {
      InOrderPasses(feed, events, t);
    } else {
      NotAbout(feed, events, t);
    }
  }

  lemma NotAbout(feed: Feed, events: seq<Event>, t: ProviderTicker)
    requires events != [] && !About(feed, events[|events| - 1], t)
    ensures !InOrder(feed, events, |events| - 1, t)
  {
  }

  /**
   Freshness over every history: as long as the clock does not go back, a ticker has an entry exactly when some ticker
   message for it was accepted; the entry holds the price of the last accepted one, and its timestamp is that of the last
   heartbeat, if any, that was in order and named that message's trade.
   */
  lemma {:induction false} Freshness(feed: Feed, events: seq<Event>, t: ProviderTicker)
    requires ClockNeverGoesBack(events)
    ensures Explained(feed, Run(feed, events).0, Run(feed, events).1, events, t)
    decreases |events|, 1
  {
    if events == [] {
      assert forall k: nat :: !LastAccepted(feed, events, k, t);
    } else {
      FreshnessStep(feed, events, t);
    }
  }

  lemma {:induction false} FreshnessStep(feed: Feed, events: seq<Event>, t: ProviderTicker)
    requires ClockNeverGoesBack(events) && events != []
    ensures Explained(feed, Run(feed, events).0, Run(feed, events).1, events, t)
    decreases |events|, 0
  {
    hide Run, Accepted, InOrder, LastAccepted;
    var n := |events| - 1;
    var (h, data) := Run(feed, events[..n]);
    var (h', data') := Run(feed, events);
    Freshness(feed, events[..n], t);
    LastEvent(feed, events, t);
    forall k: nat
      ensures LastAccepted(feed, events, k, t) <==>
                if Accepted(feed, events, n, t) then k == n else LastAccepted(feed, events[..n], k, t)
      ensures LastAccepted(feed, events[..n], k, t) ==> k < n && data[t].timestamp <= events[n].now
    {
      LastAcceptedGrows(feed, events, k, t);
      if LastAccepted(feed, events[..n], k, t) {
        LastAcceptedIndex(feed, events[..n], k, t);
      }
    }
    if Accepted(feed, events, n, t) {
      assert LastAccepted(feed, events, n, t);
    } else {
      forall k: nat | LastAccepted(feed, events, k, t)
        ensures k < |events| && events[k].msg.TickerMessage? && feed.parse(events[k].msg.price).Some?
        ensures t in data' && h'.tradeIDs[t] == events[k].msg.tradeID
        ensures data'[t] == PriceResult(feed.parse(events[k].msg.price).value, events[LastTouch(feed, events, k, t)].now, false)
      {
        LastAcceptedIndex(feed, events[..n], k, t);
        assert events[..n][k] == events[k];
      }
    }
  }

  lemma LastAcceptedIndex(feed: Feed, events: seq<Event>, k: nat, t: ProviderTicker)
    requires LastAccepted(feed, events, k, t)
    ensures k < |events| && events[k].msg.TickerMessage? && feed.parse(events[k].msg.price).Some?
  {
  }

  /** Whatever the clock does, no message turns a stored timestamp back or removes an entry. */
  lemma TimestampsNeverDecrease(feed: Feed, h: HandlerState, data: Data, e: Event)
    ensures forall t <- data :: t in AfterEvent(feed, h, data, e).1 && AfterEvent(feed, h, data, e).1[t].timestamp >= data[t].timestamp
  {
  }

  /** A heartbeat never creates an entry and never changes a price. */
  lemma HeartbeatOnlyRefreshes(feed: Feed, h: HandlerState, data: Data, e: Event)
    requires e.msg.HeartbeatMessage?
    ensures AfterEvent(feed, h, data, e).1.Keys == data.Keys
    ensures forall t <- data :: AfterEvent(feed, h, data, e).1[t].value == data[t].value
  {
  }

  /**
   On every history, whatever the clock does: the stored price is the one of the last accepted ticker message, unless the
   store already held an entry with a later timestamp when that message arrived; then it is still the price held then.
   */
  lemma {:induction false} PriceOnAnyClock(feed: Feed, events: seq<Event>, k: nat, t: ProviderTicker)
    requires LastAccepted(feed, events, k, t)
    ensures k < |events| && events[k].msg.TickerMessage? && feed.parse(events[k].msg.price).Some? && t in Run(feed, events).1
    ensures var before := Run(feed, events[..k]).1;
            Run(feed, events).1[t].value == if t in before && events[k].now < before[t].timestamp then before[t].value
                                            else feed.parse(events[k].msg.price).value
    decreases |events|
  {
    hide Run, Accepted, InOrder, LastAccepted;
    LastAcceptedIndex(feed, events, k, t);
    var n := |events| - 1;
    LastAcceptedGrows(feed, events, k, t);
    LastEvent(feed, events, t);
    if !Accepted(feed, events, n, t) {
      PriceOnAnyClock(feed, events[..n], k, t);
      assert events[..n][..k] == events[..k] && events[..n][k] == events[k];
    }
  }

  /**
   The condition on the clock is needed.  A ticker message with an earlier time is dropped by the store but
   remembered by the handler, so a later heartbeat for its trade marks the older price as fresh.
   */
  lemma StalePriceRefreshed(feed: Feed)
    requires feed.cache == map["t" := "t"] && feed.parse("1") == Some(1.0) && feed.parse("2") == Some(2.0)
    ensures Run(feed, [Event(TickerMessage("t", 1, "1", 7), 10), Event(TickerMessage("t", 2, "2", 8), 5),
                       Event(HeartbeatMessage("t", 3, 8), 11)]).1
            == map["t" := PriceResult(1.0, 11, false)]
  {
    var e1, e2, e3 := Event(TickerMessage("t", 1, "1", 7), 10), Event(TickerMessage("t", 2, "2", 8), 5), Event(HeartbeatMessage("t", 3, 8), 11);
    RunStep(feed, [], e1);
    RunStep(feed, [e1], e2);
    RunStep(feed, [e1, e2], e3);
    assert [] + [e1] == [e1] && [e1] + [e2] == [e1, e2] && [e1, e2] + [e3] == [e1, e2, e3];
    assert AfterEvent(feed, HandlerState(map[], map[]), map[], e1) == (HandlerState(map["t" := 1], map["t" := 7]), map["t" := PriceResult(1.0, 10, false)]);
    var (h, data) := Run(feed, [e1, e2]);
    assert h.sequence["t"] == 2 && h.tradeIDs["t"] == 8;
    assert data == map["t" := PriceResult(1.0, 10, false)];
  }

  lemma RunStep(feed: Feed, events: seq<Event>, e: Event)
    ensures Run(feed, events + [e]) == AfterEvent(feed, Run(feed, events).0, Run(feed, events).1, e)
  {
  }

  /**
   The exact condition on any clock: after any history the stored price is that of the last accepted ticker message if and only if that
   message found no entry with a later timestamp, or one that held the same price.
   */
  lemma LastPriceStoredExactly(feed: Feed, events: seq<Event>, k: nat, t: ProviderTicker)
    requires LastAccepted(feed, events, k, t)
    ensures k < |events| && events[k].msg.TickerMessage? && feed.parse(events[k].msg.price).Some? && t in Run(feed, events).1
    ensures var price, before := feed.parse(events[k].msg.price).value, Run(feed, events[..k]).1;
            Run(feed, events).1[t].value == price
            <==> (t in before ==> before[t].timestamp <= events[k].now || before[t].value == price)
  {
    hide Run, LastAccepted;
    PriceOnAnyClock(feed, events, k, t);
  }

  // ---------------------------------------------------------------- the response to one message

  /**
   After any history, a message gets an answer for exactly its own ticker, if that is a supported one: a result when it is an accepted price or a
   heartbeat in order for the recorded trade, and an error otherwise.
   */
  lemma AnsweredExactly(feed: Feed, events: seq<Event>)
    requires events != []
    ensures var n := |events| - 1;
            var h := Run(feed, events[..n]).0;
            var r := AfterMessage(feed, h, events[n].msg, events[n].now).1;
            && r.resolved.Keys !! r.unresolved
            && forall t :: (t in r.resolved || t in r.unresolved <==> About(feed, events[n], t))
                 && (t in r.resolved <==> Accepted(feed, events, n, t)
                                          || (&& InOrder(feed, events, n, t) && events[n].msg.HeartbeatMessage?
                                              && t in h.tradeIDs && h.tradeIDs[t] == events[n].msg.lastTradeID))
  {
    hide InOrder, Run;
    var n := |events| - 1;
    if events[n].msg.ticker in feed.cache {
      InOrderPasses(feed, events, feed.cache[events[n].msg.ticker]);
    }
    forall t | !About(feed, events[n], t) ensures !InOrder(feed, events, n, t) {
      NotAbout(feed, events, t);
    }
  }
}
