/** The per-client token bucket.  Time is read in clock ticks and never goes back; size_t arithmetic
    wraps at 2^64. */
module RateLimiter {

  const WORD := 0x1_0000_0000_0000_0000
  const SECOND := 1_000_000_000

  datatype Bucket = Bucket(tokens: nat, lastRefill: int)

  type Buckets = map<string, Bucket>

  datatype Call = Call(client: string, now: int)

  function Min(a: nat, b: nat): nat { if a < b then a else b }

  /** Whole seconds, rounded towards zero. */
  function Seconds(ticks: int): int { if ticks < 0 then -(-ticks / SECOND) else ticks / SECOND }

  function Refill(max: nat, elapsed: int): nat
    requires elapsed >= 0
  {
    elapsed * max % WORD / 60
  }

  /** A bucket brought up to date. */
  function Refreshed(max: nat, b: Bucket, now: int): Bucket {
    var elapsed := Seconds(now - b.lastRefill);
    if elapsed > 0 then Bucket(Min(max, (b.tokens + Refill(max, elapsed)) % WORD), now) else b
  }

  function Spend(b: Bucket): Bucket { if b.tokens > 0 then b.(tokens := b.tokens - 1) else b }

  function NewBucket(max: nat, now: int): Bucket { Bucket((max + WORD - 1) % WORD, now) }

  /** Whether a call is allowed, and the buckets after it. */
  predicate Allows(max: nat, m: Buckets, c: Call) {
    c.client in m ==> Refreshed(max, m[c.client], c.now).tokens > 0
  }

  function Next(max: nat, m: Buckets, c: Call): Buckets {
    if c.client !in m then m[c.client := NewBucket(max, c.now)]
    else m[c.client := Spend(Refreshed(max, m[c.client], c.now))]
  }

  function After(max: nat, m: Buckets, calls: seq<Call>): Buckets
    decreases |calls|
  {
    if calls == [] then m else After(max, Next(max, m, calls[0]), calls[1..])
  }

  /** How many of the calls are calls of `client` that are allowed. */
  function Allowed(max: nat, m: Buckets, calls: seq<Call>, client: string): nat
    decreases |calls|
  {
    if calls == [] then 0
    else (if calls[0].client == client && Allows(max, m, calls[0]) then 1 else 0)
         + Allowed(max, Next(max, m, calls[0]), calls[1..], client)
  }

  ghost predicate InOrder(calls: seq<Call>) {
    forall i, j :: 0 <= i < j < |calls| ==> calls[i].now <= calls[j].now
  }

  class Limiter {
    const max: nat
    var buckets: Buckets

    constructor (requestsPerMinute: nat)
      ensures max == requestsPerMinute && buckets == map[]
    {
      max, buckets := requestsPerMinute, map[];
    }

    method AllowRequest(client: string, now: int) returns (ok: bool)
      modifies this
      ensures buckets == Next(max, old(buckets), Call(client, now))
      ensures ok == Allows(max, old(buckets), Call(client, now))
      ensures forall other :: other != client && other in old(buckets) ==>
        other in buckets && buckets[other] == old(buckets)[other]
    {
      if client !in buckets {
        buckets := buckets[client := Bucket((max + WORD - 1) % WORD, now)];
        return true;
      }
      var tokens, lastRefill := buckets[client].tokens, buckets[client].lastRefill;
      var elapsed := Seconds(now - lastRefill);
      if elapsed > 0 {
        var refill := elapsed * max % WORD / 60;
        tokens := Min(max, (tokens + refill) % WORD);
        lastRefill := now;
      }
      ok := tokens > 0;
      if ok {
        tokens := tokens - 1;
      }
      buckets := buckets[client := Bucket(tokens, lastRefill)];
    }

    method Reset()
      modifies this
      ensures buckets == map[]
    {
      buckets := map[];
    }
  }

  // ---------------------------------------------------------------------------------------------
  // Between calls a bucket is never full

  ghost predicate Sound(max: nat, m: Buckets, now: int) {
    forall c :: c in m ==> m[c].tokens < max && m[c].lastRefill <= now
  }

  lemma NextSound(max: nat, m: Buckets, c: Call, now: int)
    requires 1 <= max < WORD && Sound(max, m, now) && now <= c.now
    ensures Sound(max, Next(max, m, c), c.now)
  {
    hide Refill;
  }

  /** From the empty map, whatever the clients do, no bucket ever holds `max` tokens after a call
      (and so none more than `max` during one). */
  lemma {:induction false} TokensBounded(max: nat, m: Buckets, calls: seq<Call>, now: int)
    requires 1 <= max < WORD && Sound(max, m, now) && InOrder(calls) && (calls != [] ==> now <= calls[0].now)
    ensures Sound(max, After(max, m, calls), if calls == [] then now else calls[|calls| - 1].now)
    decreases |calls|
  {
    if calls != [] {
      NextSound(max, m, calls[0], now);
      assert forall k :: 0 <= k < |calls[1..]| ==> calls[1..][k] == calls[k + 1];
      TokensBounded(max, Next(max, m, calls[0]), calls[1..], calls[0].now);
    }
  }

  // ---------------------------------------------------------------------------------------------
  // The bound over a window

  lemma FloorSum(a: nat, b: nat)
    ensures a / 60 + b / 60 <= (a + b) / 60
  {
  }

  lemma RefillAtMost(max: nat, e: nat, budget: nat)
    requires e <= budget
    ensures Refill(max, e) + (budget - e) * max / 60 <= budget * max / 60
  {
    var p := e * max;
    assert p % WORD <= p;
    FloorSum(p, (budget - e) * max);
    assert p + (budget - e) * max == budget * max;
  }

  /** A refresh pays for the tokens it adds out of the seconds it uses up. */
  lemma RefreshPaid(max: nat, b: Bucket, now: int, budget: nat)
    requires b.lastRefill <= now < b.lastRefill + (budget + 1) * SECOND
    ensures
      var e, r := Seconds(now - b.lastRefill), Refreshed(max, b, now);
      && 0 <= e <= budget && r.lastRefill <= now && b.lastRefill + e * SECOND <= r.lastRefill
      && r.tokens + (budget - e) * max / 60 <= b.tokens + budget * max / 60
  {
    hide Refill;
    var e := Seconds(now - b.lastRefill);
    RefillAtMost(max, e, budget);
    var s := b.tokens + Refill(max, e);
    assert s % WORD <= s;
  }

  lemma AllowedNone(max: nat, m: Buckets, client: string)
    ensures Allowed(max, m, [], client) == 0
  {
  }

  /** A bucket that can be refilled for at most `budget` more seconds gives at most its tokens and
      `budget` seconds' worth of refill. */
  lemma {:induction false} BudgetBound(max: nat, m: Buckets, calls: seq<Call>, client: string, budget: nat)
    requires client in m && InOrder(calls)
    requires forall k :: 0 <= k < |calls| ==>
      m[client].lastRefill <= calls[k].now < m[client].lastRefill + (budget + 1) * SECOND
    ensures Allowed(max, m, calls, client) <= m[client].tokens + budget * max / 60
    decreases |calls|
  {
    hide Refreshed, Allowed;
    if calls != [] {
      var c, rest := calls[0], calls[1..];
      assert forall k :: 0 <= k < |rest| ==> rest[k] == calls[k + 1];
      AllowedStep(max, m, calls, client);
      if c.client != client {
        BudgetBound(max, Next(max, m, c), rest, client, budget);
      } else {
        var e := Seconds(c.now - m[client].lastRefill);
        RefreshPaid(max, m[client], c.now, budget);
        BudgetBound(max, Next(max, m, c), rest, client, budget - e);
      }
    } else {
      AllowedNone(max, m, client);
    }
  }

  /** From the client's first call on: either that call restarts the clock, or the clock started
      less than a second before it, and then a token was spent since the bucket was full. */
  lemma SpanFromOwnCall(max: nat, m: Buckets, calls: seq<Call>, client: string, seconds: nat)
    requires calls != [] && calls[0].client == client && InOrder(calls)
    requires 1 <= max < WORD && Sound(max, m, calls[0].now)
    requires forall k :: 0 <= k < |calls| ==> calls[k].now <= calls[0].now + seconds * SECOND
    ensures Allowed(max, m, calls, client) <= max + seconds * max / 60
  {
    hide Refill, Allowed;
    var c, m' := calls[0], Next(max, m, calls[0]);
    if client in m && Seconds(c.now - m[client].lastRefill) == 0 {
      BudgetBound(max, m, calls, client, seconds);
    } else {
      var rest := calls[1..];
      assert forall k :: 0 <= k < |rest| ==> rest[k] == calls[k + 1];
      BudgetBound(max, m', rest, client, seconds);
      AllowedStep(max, m, calls, client);
    }
  }

  lemma AllowedStep(max: nat, m: Buckets, calls: seq<Call>, client: string)
    requires calls != []
    ensures Allowed(max, m, calls, client)
         == (if calls[0].client == client && Allows(max, m, calls[0]) then 1 else 0)
            + Allowed(max, Next(max, m, calls[0]), calls[1..], client)
  {
  }

  /** The bound for a stretch of calls that starts anywhere. */
  lemma {:induction false} SpanBound(max: nat, m: Buckets, calls: seq<Call>, client: string, from: int, seconds: nat)
    requires 1 <= max < WORD && Sound(max, m, from) && InOrder(calls)
    requires forall k :: 0 <= k < |calls| ==> from <= calls[k].now <= from + seconds * SECOND
    ensures Allowed(max, m, calls, client) <= max + seconds * max / 60
    decreases |calls|
  {
    hide Refill, Refreshed;
    if calls != [] {
      if calls[0].client != client {
        var rest := calls[1..];
        assert forall k :: 0 <= k < |rest| ==> rest[k] == calls[k + 1];
        NextSound(max, m, calls[0], from);
        SpanBound(max, Next(max, m, calls[0]), rest, client, calls[0].now, seconds);
      } else {
        SpanFromOwnCall(max, m, calls, client, seconds);
      }
    }
  }

  /** In any run from an empty limiter, over any stretch of calls that takes at most `seconds`
      seconds, one client is allowed at most one bucket and `seconds` seconds' worth of refill. */
  lemma WindowBound(max: nat, before: seq<Call>, window: seq<Call>, client: string, seconds: nat)
    requires 1 <= max < WORD && InOrder(before + window)
    requires window != [] && window[|window| - 1].now <= window[0].now + seconds * SECOND
    ensures Allowed(max, After(max, map[], before), window, client) <= max + seconds * max / 60
  {
    var all, start := before + window, window[0].now;
    assert forall k :: 0 <= k < |before| ==> all[k] == before[k];
    assert forall k :: 0 <= k < |window| ==> all[|before| + k] == window[k];
    var m := After(max, map[], before);
    if before != [] {
      TokensBounded(max, map[], before, before[0].now);
      assert all[|before| - 1].now <= all[|before|].now;
    }
    assert Sound(max, m, start);
    SpanBound(max, m, window, client, start, seconds);
  }

  // ---------------------------------------------------------------------------------------------
  // Clients do not disturb one another

  function Of(calls: seq<Call>, client: string): seq<Call> {
    if calls == [] then []
    else (if calls[0].client == client then [calls[0]] else []) + Of(calls[1..], client)
  }

  /** What a client is allowed depends on its own calls and its own bucket. */
  lemma {:induction false} ClientsIndependent(max: nat, m: Buckets, other: Buckets, calls: seq<Call>, client: string)
    requires client in m <==> client in other
    requires client in m ==> m[client] == other[client]
    ensures Allowed(max, m, calls, client) == Allowed(max, other, Of(calls, client), client)
    decreases |calls|
  {
    hide Refreshed;
    if calls != [] {
      var c := calls[0];
      if c.client == client {
        var own := [c] + Of(calls[1..], client);
        assert own[1..] == Of(calls[1..], client);
        ClientsIndependent(max, Next(max, m, c), Next(max, other, c), calls[1..], client);
      } else {
        assert [] + Of(calls[1..], client) == Of(calls[1..], client);
        ClientsIndependent(max, Next(max, m, c), other, calls[1..], client);
      }
    }
  }

  // ---------------------------------------------------------------------------------------------
  // Refilling in practice

  ghost predicate AllBy(calls: seq<Call>, client: string) {
    forall k :: 0 <= k < |calls| ==> calls[k].client == client
  }

  /** No product or sum on the way to `last` leaves a machine word. */
  ghost predicate NoWrap(max: nat, b: Bucket, last: int) {
    b.tokens <= max && last >= b.lastRefill && (last - b.lastRefill) / SECOND * max + max < WORD
  }

  lemma {:induction false} TokensSpend(max: nat, m: Buckets, calls: seq<Call>, client: string)
    requires client in m && InOrder(calls) && AllBy(calls, client) && |calls| <= m[client].tokens
    requires calls != [] ==> m[client].lastRefill <= calls[0].now && NoWrap(max, m[client], calls[|calls| - 1].now)
    ensures Allowed(max, m, calls, client) == |calls|
    decreases |calls|
  {
    if calls != [] {
      var c, b, last := calls[0], m[client], calls[|calls| - 1].now;
      RefreshKeeps(max, b, c.now, last);
      hide Refreshed;
      var rest := calls[1..];
      assert forall k :: 0 <= k < |rest| ==> rest[k] == calls[k + 1];
      TokensSpend(max, Next(max, m, c), rest, client);
    }
  }

  lemma RefillExact(max: nat, e: nat, span: nat)
    requires e <= span && span * max + max < WORD
    ensures Refill(max, e) == e * max / 60 <= span * max
    ensures e >= 60 ==> Refill(max, e) >= max
  {
    Monotone(e, span, max);
    var p := e * max;
    assert p % WORD == p;
    if e >= 60 {
      Monotone(60, e, max);
    }
  }

  /** Without wrap-around a refresh never takes tokens away and never fills past `max`. */
  lemma RefreshKeeps(max: nat, b: Bucket, now: int, last: int)
    requires b.lastRefill <= now <= last && NoWrap(max, b, last)
    ensures
      var r := Refreshed(max, b, now);
      && b.tokens <= r.tokens <= max && b.lastRefill <= r.lastRefill <= now && NoWrap(max, r, last)
      && (now - b.lastRefill >= 60 * SECOND ==> r.tokens == max)
  {
    hide Refill;
    var e, span := Seconds(now - b.lastRefill), (last - b.lastRefill) / SECOND;
    RefillExact(max, e, span);
    var left := (last - now) / SECOND;
    assert 0 <= left <= span;
    Monotone(left, span, max);
  }

  lemma Monotone(a: nat, b: nat, c: nat)
    requires a <= b
    ensures a * c <= b * c
  {
  }

  lemma {:induction false} OfIsOwn(calls: seq<Call>, client: string)
    requires InOrder(calls)
    ensures AllBy(Of(calls, client), client) && InOrder(Of(calls, client))
    ensures calls != [] ==> forall c :: c in Of(calls, client) ==> calls[0].now <= c.now
  {
    if calls != [] {
      var rest, own := calls[1..], Of(calls[1..], client);
      assert forall k :: 0 <= k < |rest| ==> rest[k] == calls[k + 1];
      OfIsOwn(rest, client);
      forall c | c in own ensures calls[0].now <= c.now {
        assert calls[0].now <= rest[0].now;
      }
      InOrderCons(calls[0], own);
      assert [] + own == own;
    }
  }

  lemma InOrderCons(c: Call, rest: seq<Call>)
    requires InOrder(rest) && forall d :: d in rest ==> c.now <= d.now
    ensures InOrder([c] + rest)
  {
    var all := [c] + rest;
    forall i, j | 0 <= i < j < |all| ensures all[i].now <= all[j].now {
      assert all[j] == rest[j - 1];
      assert i > 0 ==> all[i] == rest[i - 1];
    }
  }

  /** After sixty idle seconds a client has its whole allowance: its next `max` calls pass, whatever
      other clients do in between. */
  lemma IdleMinuteRestores(max: nat, m: Buckets, calls: seq<Call>, client: string)
    requires client in m && InOrder(calls) && 0 < |Of(calls, client)| <= max
    requires Of(calls, client)[0].now - m[client].lastRefill >= 60 * SECOND
    requires NoWrap(max, m[client], Of(calls, client)[|Of(calls, client)| - 1].now)
    ensures Allowed(max, m, calls, client) == |Of(calls, client)|
  {
    hide Refreshed, Of, Allowed, NoWrap, InOrder, AllBy;
    ClientsIndependent(max, m, m, calls, client);
    OfIsOwn(calls, client);
    OwnMinuteRestores(max, m, Of(calls, client), client);
  }

  lemma OwnMinuteRestores(max: nat, m: Buckets, calls: seq<Call>, client: string)
    requires client in m && InOrder(calls) && AllBy(calls, client) && 0 < |calls| <= max
    requires calls[0].now - m[client].lastRefill >= 60 * SECOND
    requires NoWrap(max, m[client], calls[|calls| - 1].now)
    ensures Allowed(max, m, calls, client) == |calls|
  {
    var c, b, last := calls[0], m[client], calls[|calls| - 1].now;
    RefreshKeeps(max, b, c.now, last);
    hide Refreshed;
    var rest := calls[1..];
    assert forall k :: 0 <= k < |rest| ==> rest[k] == calls[k + 1];
    TokensSpend(max, Next(max, m, c), rest, client);
  }

  /** A client not seen before has it at once. */
  lemma NewClientPasses(max: nat, m: Buckets, calls: seq<Call>, client: string)
    requires client !in m && InOrder(calls) && 0 < |Of(calls, client)| <= max
    requires
      var own := Of(calls, client);
      NoWrap(max, Bucket(max - 1, own[0].now), own[|own| - 1].now)
    ensures Allowed(max, m, calls, client) == |Of(calls, client)|
  {
    hide Refreshed, Of, Allowed, NoWrap, InOrder, AllBy;
    ClientsIndependent(max, m, m, calls, client);
    OfIsOwn(calls, client);
    OwnFirstCalls(max, m, Of(calls, client), client);
  }

  lemma OwnFirstCalls(max: nat, m: Buckets, calls: seq<Call>, client: string)
    requires client !in m && InOrder(calls) && AllBy(calls, client) && 0 < |calls| <= max
    requires NoWrap(max, Bucket(max - 1, calls[0].now), calls[|calls| - 1].now)
    ensures Allowed(max, m, calls, client) == |calls|
  {
    hide Refreshed;
    var rest := calls[1..];
    assert forall k :: 0 <= k < |rest| ==> rest[k] == calls[k + 1];
    assert (max + WORD - 1) % WORD == max - 1;
    TokensSpend(max, Next(max, m, calls[0]), rest, client);
  }

  /** `n` calls, `period` ticks apart, the first one `period` after `start`. */
  function Polling(client: string, start: int, period: nat, n: nat): (calls: seq<Call>)
    ensures |calls| == n
    decreases n
  {
    if n == 0 then []
    else [Call(client, start + period)] + Polling(client, start + period, period, n - 1)
  }

  lemma EmptyPoll(max: nat, b: Bucket, period: nat)
    requires b.tokens == 0 && SECOND <= period && 1 <= max && period / SECOND * max + max < WORD
    ensures
      var r := Refreshed(max, b, b.lastRefill + period);
      r.lastRefill == b.lastRefill + period && (r.tokens == 0 <==> period / SECOND * max < 60)
  {
    hide Refill;
    RefillExact(max, period / SECOND, period / SECOND);
    assert Seconds(period) == period / SECOND >= 1;
  }

  /** An empty bucket polled at any period of a second or more stays empty for ever exactly when the
      whole seconds of one period earn less than a whole token: each poll restarts the clock and the
      fractions, of the second and of the token, are lost. So a limit below 60 a minute starves a client
      that retries every second, or every 1.9 seconds. */
  lemma {:induction false} PollingStarves(max: nat, m: Buckets, client: string, period: nat, n: nat)
    requires client in m && m[client].tokens == 0 && 1 <= n && SECOND <= period && 1 <= max
    requires period / SECOND * max + max < WORD
    ensures
      var calls := Polling(client, m[client].lastRefill, period, n);
      Allowed(max, m, calls, client) == 0 <==> period / SECOND * max < 60
    decreases n
  {
    hide Refreshed;
    var start := m[client].lastRefill;
    var c := Call(client, start + period);
    var rest := Polling(client, start + period, period, n - 1);
    assert ([c] + rest)[1..] == rest;
    EmptyPoll(max, m[client], period);
    if period / SECOND * max < 60 && n > 1 {
      PollingStarves(max, Next(max, m, c), client, period, n - 1);
    }
  }

  lemma {:induction false} AllowedConcat(max: nat, m: Buckets, a: seq<Call>, b: seq<Call>, client: string)
    ensures Allowed(max, m, a + b, client) == Allowed(max, m, a, client) + Allowed(max, After(max, m, a), b, client)
    decreases |a|
  {
    hide Next, Allows;
    if a == [] {
      assert a + b == b;
    } else {
      assert (a + b)[1..] == a[1..] + b;
      AllowedConcat(max, Next(max, m, a[0]), a[1..], b, client);
    }
  }

  /** `n` calls at once. */
  function Burst(client: string, now: int, n: nat): (calls: seq<Call>)
    ensures |calls| == n
  {
    if n == 0 then [] else [Call(client, now)] + Burst(client, now, n - 1)
  }

  lemma {:induction false} BurstSpends(max: nat, m: Buckets, client: string, n: nat)
    requires client in m && m[client].tokens == n
    ensures
      var calls := Burst(client, m[client].lastRefill, n);
      && Allowed(max, m, calls, client) == n
      && client in After(max, m, calls) && After(max, m, calls)[client] == Bucket(0, m[client].lastRefill)
    decreases n
  {
    if n > 0 {
      var now := m[client].lastRefill;
      assert ([Call(client, now)] + Burst(client, now, n - 1))[1..] == Burst(client, now, n - 1);
      assert Refreshed(max, m[client], now) == m[client];
      BurstSpends(max, Next(max, m, Call(client, now)), client, n - 1);
    }
  }

  lemma {:induction false} BurstSameSecond(max: nat, m: Buckets, client: string, now: int, n: nat)
    requires client in m && m[client].lastRefill <= now < m[client].lastRefill + SECOND
    ensures Allowed(max, m, Burst(client, now, n), client) == if n < m[client].tokens then n else m[client].tokens
    decreases n
  {
    if n > 0 {
      var c, rest := Call(client, now), Burst(client, now, n - 1);
      assert ([c] + rest)[1..] == rest;
      assert Refreshed(max, m[client], now) == m[client];
      BurstSameSecond(max, Next(max, m, c), client, now, n - 1);
    }
  }

  /** Exactly how many of `n` calls at once pass: the tokens the bucket held and a sixtieth of the limit
      for each whole second since its last refill, rounded down, up to the limit. */
  lemma BurstAfterIdle(max: nat, m: Buckets, client: string, idle: nat, n: nat)
    requires client in m && NoWrap(max, m[client], m[client].lastRefill + idle)
    ensures
      var earned := m[client].tokens + idle / 1_000_000_000 * max / 60;
      var held := if earned < max then earned else max;
      Allowed(max, m, Burst(client, m[client].lastRefill + idle, n), client) == if n < held then n else held
  {
    hide Refreshed, Burst, Allowed, NoWrap;
    var b, now, e := m[client], m[client].lastRefill + idle, idle / SECOND;
    RefreshedIs(max, b, idle);
    if e == 0 {
      BurstSameSecond(max, m, client, now, n);
    } else if n > 0 {
      var c, rest := Call(client, now), Burst(client, now, n - 1);
      BurstFrom(max, m, c, rest, client);
      BurstStep(client, now, n);
      BurstSameSecond(max, Next(max, m, c), client, now, n - 1);
    } else {
      BurstFromNothing(max, m, client, now);
    }
  }

  lemma RefreshedIs(max: nat, b: Bucket, idle: nat)
    requires NoWrap(max, b, b.lastRefill + idle)
    ensures
      var e := idle / SECOND;
      var earned := b.tokens + e * max / 60;
      Refreshed(max, b, b.lastRefill + idle)
        == if e == 0 then b else Bucket(if earned < max then earned else max, b.lastRefill + idle)
    ensures b.tokens <= max
  {
    hide Refill;
    var e := idle / SECOND;
    RefillExact(max, e, e);
    assert Seconds(idle) == e;
  }

  lemma BurstStep(client: string, now: int, n: nat)
    requires n > 0
    ensures Burst(client, now, n) == [Call(client, now)] + Burst(client, now, n - 1)
  {
  }

  lemma BurstFromNothing(max: nat, m: Buckets, client: string, now: int)
    ensures Allowed(max, m, Burst(client, now, 0), client) == 0
  {
  }

  lemma BurstFrom(max: nat, m: Buckets, c: Call, rest: seq<Call>, client: string)
    ensures
      Allowed(max, m, [c] + rest, client)
        == (if c.client == client && Allows(max, m, c) then 1 else 0) + Allowed(max, Next(max, m, c), rest, client)
  {
    hide Allows, Next;
    assert ([c] + rest)[1..] == rest;
  }

  /** From a new limiter: a client that uses up its allowance at once and then retries at a period of a
      second or more is never allowed anything more exactly when the whole seconds of a period earn less
      than a token. */
  lemma StarvesFromStart(max: nat, client: string, now: int, period: nat, n: nat)
    requires 1 <= max && SECOND <= period && 1 <= n && period / SECOND * max + max < WORD
    ensures
      var calls := Burst(client, now, max) + Polling(client, now, period, n);
      && Allowed(max, map[], Burst(client, now, max), client) == max
      && (Allowed(max, map[], calls, client) == max <==> period / SECOND * max < 60)
  {
    hide Refreshed, Polling;
    var first, burst, polls := Call(client, now), Burst(client, now, max), Polling(client, now, period, n);
    assert (max + WORD - 1) % WORD == max - 1;
    var m := Next(max, map[], first);
    assert burst[1..] == Burst(client, now, max - 1);
    BurstSpends(max, m, client, max - 1);
    PollingStarves(max, After(max, map[], burst), client, period, n);
    AllowedConcat(max, map[], burst, polls, client);
  }

  // ---------------------------------------------------------------------------------------------
  // A limit of zero

  /** A limit of zero lets a first request through and leaves its bucket with 2^64 - 1 tokens. */
  lemma ZeroLimitLeaks(client: string, now: int)
    ensures Allows(0, map[], Call(client, now))
    ensures Next(0, map[], Call(client, now))[client].tokens == 18446744073709551615
  {
  }

  lemma {:induction false} AfterSnoc(max: nat, m: Buckets, calls: seq<Call>, c: Call)
    ensures After(max, m, calls + [c]) == Next(max, After(max, m, calls), c)
    decreases |calls|
  {
    hide Next;
    if calls == [] {
      assert ([] + [c])[1..] == [];
    } else {
      assert (calls + [c])[1..] == calls[1..] + [c];
      AfterSnoc(max, Next(max, m, calls[0]), calls[1..], c);
    }
  }

  lemma {:induction false} OfSnoc(calls: seq<Call>, c: Call, client: string)
    ensures Of(calls + [c], client) == Of(calls, client) + if c.client == client then [c] else []
  {
    if calls == [] {
      assert ([] + [c])[1..] == [];
    } else {
      assert (calls + [c])[1..] == calls[1..] + [c];
      OfSnoc(calls[1..], c, client);
    }
  }

  /** The buckets under a limit of zero after the client's own calls `own`: within a second of the first
      it has nearly 2^64 tokens, from then on it has none. */
  ghost predicate ZeroBucket(m: Buckets, own: seq<Call>, client: string) {
    if own == [] then client !in m
    else
      && client in m && m[client].lastRefill <= own[|own| - 1].now
      && if own[|own| - 1].now < own[0].now + SECOND
         then m[client] == Bucket(if |own| < WORD then WORD - |own| else 0, own[0].now)
         else m[client].tokens == 0
  }

  lemma ZeroStep(m: Buckets, own: seq<Call>, c: Call)
    requires ZeroBucket(m, own, c.client) && (own != [] ==> own[0].now <= own[|own| - 1].now <= c.now)
    ensures ZeroBucket(Next(0, m, c), own + [c], c.client)
    ensures Allows(0, m, c) <==> own == [] || (c.now < own[0].now + SECOND && |own| < WORD)
  {
    assert forall e: int :: e >= 0 ==> Refill(0, e) == 0;
  }

  lemma {:induction false} ZeroRun(calls: seq<Call>, client: string)
    requires InOrder(calls)
    ensures ZeroBucket(After(0, map[], calls), Of(calls, client), client)
    ensures Of(calls, client) != [] ==>
      Of(calls, client)[0].now <= Of(calls, client)[|Of(calls, client)| - 1].now <= calls[|calls| - 1].now
    decreases |calls|
  {
    hide Next, ZeroBucket;
    if calls == [] {
      ZeroNothing(client);
    } else {
      var n := |calls| - 1;
      var before, c := calls[..n], calls[n];
      assert calls == before + [c];
      ZeroRun(before, client);
      AfterSnoc(0, map[], before, c);
      OfSnoc(before, c, client);
      var own := Of(before, client);
      if own != [] {
        assert before != [];
        assert before[n - 1].now <= c.now;
      }
      if c.client == client {
        ZeroStep(After(0, map[], before), own, c);
      } else {
        ZeroOther(After(0, map[], before), own, c, client);
        assert own + [] == own;
      }
    }
  }

  lemma ZeroNothing(client: string)
    ensures ZeroBucket(map[], [], client)
  {
  }

  lemma ZeroOther(m: Buckets, own: seq<Call>, c: Call, client: string)
    requires ZeroBucket(m, own, client) && c.client != client
    ensures ZeroBucket(Next(0, m, c), own, client)
  {
    hide Refreshed;
  }

  /** From a new limiter with limit zero, a call is allowed exactly when it is the client's first, or
      comes less than a second after it while the 2^64 - 1 tokens last; so every client has one free
      second, and then nothing. */
  lemma ZeroLimitExact(before: seq<Call>, c: Call)
    requires InOrder(before + [c])
    ensures
      var own := Of(before, c.client);
      Allows(0, After(0, map[], before), c) <==> own == [] || (c.now < own[0].now + SECOND && |own| < WORD)
  {
    hide Of, Allows, After, ZeroBucket;
    var all, own := before + [c], Of(before, c.client);
    assert forall k :: 0 <= k < |before| ==> all[k] == before[k];
    ZeroRun(before, c.client);
    if own != [] {
      OfNothing(c.client);
      assert before != [];
      assert all[|before| - 1].now <= all[|before|].now;
    }
    ZeroStep(After(0, map[], before), own, c);
  }

  lemma OfNothing(client: string)
    ensures Of([], client) == []
  {
  }
}
