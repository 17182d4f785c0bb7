/**
 The per-(endpoint, token, source) token bucket. Times and token counts are
 exact reals; the implementation uses `f64`.
 */
module RateLimit {
  import opened Wrappers
  import opened Storage

  datatype Limit = Limit(perMinute: nat, burst: nat) {
    function Rate(): real { perMinute as real / 60.0 }
    function Full(): real { burst as real }
  }

  datatype Bucket = Bucket(tokens: real, lastRefill: real)

  function Min(a: real, b: real): real { if a <= b then a else b }

  /** `Instant::duration_since`, which saturates at zero. */
  function Elapsed(since: real, now: real): real { if since <= now then now - since else 0.0 }

  /** Tokens accrued in a span of time. */
  function Earned(l: Limit, seconds: real): real { seconds * l.Rate() }

  lemma EarnedAdds(l: Limit, a: real, b: real)
    ensures Earned(l, a + b) == Earned(l, a) + Earned(l, b)
  {
  }

  lemma EarnedNonNegative(l: Limit, a: real)
    requires a >= 0.0
    ensures Earned(l, a) >= 0.0
  {
  }

  /** The bucket just before the decision: created full, or lazily refilled. */
  function Refill(l: Limit, b: Option<Bucket>, now: real): Bucket {
    var bucket := if b.Some? then b.value else Bucket(l.Full(), now);
    Bucket(Min(bucket.tokens + Earned(l, Elapsed(bucket.lastRefill, now)), l.Full()), now)
  }

  function Spend(b: Bucket): Bucket {
    if b.tokens >= 1.0 then b.(tokens := b.tokens - 1.0) else b
  }

  // ------------------------------------------------------------ one bucket

  /** The bucket after checks at the times `ts`. */
  function After(l: Limit, ts: seq<real>): Option<Bucket> {
    if ts == [] then None
    else
      var n := |ts| - 1;
      Some(Spend(Refill(l, After(l, ts[..n]), ts[n])))
  }

  /** Tokens available to check number `i`. */
  function Tokens(l: Limit, ts: seq<real>, i: nat): real
    requires i < |ts|
  {
    Refill(l, After(l, ts[..i]), ts[i]).tokens
  }

  function Decisions(l: Limit, ts: seq<real>): seq<bool> {
    seq(|ts|, i requires 0 <= i < |ts| => Tokens(l, ts, i) >= 1.0)
  }

  ghost predicate Ordered(ts: seq<real>) {
    forall i, j :: 0 <= i <= j < |ts| ==> ts[i] <= ts[j]
  }

  /** How many of the entries `i..j` are true. */
  function Ones(bs: seq<bool>, i: nat, j: nat): nat
    requires i <= j <= |bs|
    decreases j - i
  {
    if i == j then 0 else Ones(bs, i, j - 1) + if bs[j - 1] then 1 else 0
  }

  lemma {:induction false} OnesSplit(bs: seq<bool>, i: nat, j: nat, k: nat)
    requires i <= j <= k <= |bs|
    ensures Ones(bs, i, k) == Ones(bs, i, j) + Ones(bs, j, k)
    decreases k - j
  {
    if j < k {
      OnesSplit(bs, i, j, k - 1);
    }
  }

  /** The most checks that may be admitted from check `i` to check `k`: the burst,
      and `perMinute` for every sixty seconds between them. */
  function Window(l: Limit, ts: seq<real>, i: nat, k: nat): real
    requires i <= k < |ts|
  {
    l.burst as real + Granted(ts[k] - ts[i], l.perMinute)
  }

  /** So many for every sixty seconds. */
  function Granted(seconds: real, perMinute: nat): real { seconds * perMinute as real / 60.0 }

  lemma EarnedIsGranted(l: Limit, seconds: real)
    ensures Earned(l, seconds) == Granted(seconds, l.perMinute)
  {
  }

  lemma WindowEarned(l: Limit, ts: seq<real>, i: nat, k: nat)
    requires i <= k < |ts|
    ensures Window(l, ts, i, k) == l.Full() + Earned(l, ts[k] - ts[i])
  {
    EarnedIsGranted(l, ts[k] - ts[i]);
  }

  lemma NextTokens(l: Limit, ts: seq<real>, i: nat)
    requires Ordered(ts) && i + 1 < |ts|
    ensures Tokens(l, ts, i + 1) ==
            Min(Tokens(l, ts, i) - (if Decisions(l, ts)[i] then 1.0 else 0.0) + Earned(l, ts[i + 1] - ts[i]),
                l.Full())
  {
    assert ts[..i + 1][..i] == ts[..i];
  }

  lemma WindowStep(l: Limit, ts: seq<real>, j: nat, i: nat)
    requires j <= i && i + 1 < |ts|
    ensures Window(l, ts, j, i + 1) == Window(l, ts, j, i) + Earned(l, ts[i + 1] - ts[i])
  {
    EarnedAdds(l, ts[i] - ts[j], ts[i + 1] - ts[i]);
    WindowEarned(l, ts, j, i + 1);
    WindowEarned(l, ts, j, i);
  }

  /** The count never exceeds what any earlier check leaves over. */
  lemma {:induction false} TokensBelow(l: Limit, ts: seq<real>, j: nat, i: nat)
    requires Ordered(ts) && j <= i < |ts|
    ensures Tokens(l, ts, i) <= Window(l, ts, j, i) - Ones(Decisions(l, ts), j, i) as real
  {
    if j == i {
      assert Earned(l, 0.0) == 0.0;
    } else {
      TokensBelow(l, ts, j, i - 1);
      NextTokens(l, ts, i - 1);
      WindowStep(l, ts, j, i - 1);
    }
  }

  lemma {:induction false} TokensInRange(l: Limit, ts: seq<real>, i: nat)
    requires Ordered(ts) && i < |ts|
    ensures 0.0 <= Tokens(l, ts, i) <= l.Full()
  {
    if i > 0 {
      TokensInRange(l, ts, i - 1);
      NextTokens(l, ts, i - 1);
      EarnedNonNegative(l, ts[i] - ts[i - 1]);
    } else {
      assert ts[..0] == [] && Earned(l, 0.0) == 0.0;
    }
  }

  lemma {:induction false} TokensAttained(l: Limit, ts: seq<real>, i: nat) returns (at: nat)
    requires Ordered(ts) && i < |ts|
    ensures at <= i && Tokens(l, ts, i) == Window(l, ts, at, i) - Ones(Decisions(l, ts), at, i) as real
  {
    assert Earned(l, 0.0) == 0.0;
    if i == 0 {
      at := 0;
      assert ts[..0] == [];
    } else {
      NextTokens(l, ts, i - 1);
      if Tokens(l, ts, i) == l.Full() {
        at := i;
      } else {
        at := TokensAttained(l, ts, i - 1);
        WindowStep(l, ts, at, i - 1);
      }
    }
  }

  /** Closed form of the lazy refill: the count before check `i` is the minimum,
      over the earlier or equal checks `j`, of `burst + rate * (t_i - t_j)` less
      the admissions since `j`. The one attaining it is returned. */
  lemma ClosedForm(l: Limit, ts: seq<real>, i: nat) returns (at: nat)
    requires Ordered(ts) && i < |ts|
    ensures forall j :: 0 <= j <= i ==>
              Tokens(l, ts, i) <= Window(l, ts, j, i) - Ones(Decisions(l, ts), j, i) as real
    ensures at <= i && Tokens(l, ts, i) == Window(l, ts, at, i) - Ones(Decisions(l, ts), at, i) as real
    ensures 0.0 <= Tokens(l, ts, i) <= l.Full()
  {
    forall j | 0 <= j <= i
      ensures Tokens(l, ts, i) <= Window(l, ts, j, i) - Ones(Decisions(l, ts), j, i) as real
    {
      TokensBelow(l, ts, j, i);
    }
    TokensInRange(l, ts, i);
    at := TokensAttained(l, ts, i);
  }

  /** No window of checks admits more than `burst + rate * length`. */
  lemma WindowBound(l: Limit, ts: seq<real>, i: nat, k: nat)
    requires Ordered(ts) && i <= k < |ts|
    ensures Ones(Decisions(l, ts), i, k + 1) as real <= Window(l, ts, i, k)
  {
    TokensBelow(l, ts, i, k);
    TokensInRange(l, ts, k);
  }

  /** No minute admits more than the burst and the requests of one minute. */
  lemma MinuteBound(l: Limit, ts: seq<real>, i: nat, k: nat)
    requires Ordered(ts) && i <= k < |ts| && ts[k] - ts[i] <= 60.0
    ensures Ones(Decisions(l, ts), i, k + 1) <= l.burst + l.perMinute
  {
    WindowBound(l, ts, i, k);
    MinuteWindow(l, ts, i, k);
    WholeNumbers(Ones(Decisions(l, ts), i, k + 1), Window(l, ts, i, k), l.burst, l.perMinute);
  }

  lemma WholeNumbers(n: nat, bound: real, a: nat, b: nat)
    requires n as real <= bound <= a as real + b as real
    ensures n <= a + b
  {
  }

  lemma MinuteWindow(l: Limit, ts: seq<real>, i: nat, k: nat)
    requires i <= k < |ts| && ts[k] - ts[i] <= 60.0
    ensures Window(l, ts, i, k) <= l.burst as real + l.perMinute as real
  {
    AtMostMinute(ts[k] - ts[i], l.perMinute);
  }

  lemma AtMostMinute(seconds: real, n: nat)
    requires seconds <= 60.0
    ensures Granted(seconds, n) <= n as real
  {
    assert (60.0 - seconds) * n as real >= 0.0;
  }

  /** A clock that goes back earns nothing. */
  lemma BackwardsEarnsNothing(l: Limit, b: Bucket, now: real)
    requires now <= b.lastRefill && 0.0 <= b.tokens <= l.burst as real
    ensures Refill(l, Some(b), now).tokens == b.tokens
  {
    assert Earned(l, 0.0) == 0.0;
  }

  /** A choice of checks that keeps to the envelope in every window. */
  ghost predicate WithinEnvelope(l: Limit, ts: seq<real>, chosen: seq<bool>)
    requires |chosen| == |ts|
  {
    forall i, k :: 0 <= i <= k < |ts| ==> Ones(chosen, i, k + 1) as real <= Window(l, ts, i, k)
  }

  /** The bucket is greedy-optimal: no choice within the envelope admits more of
      any prefix of the run, and the bucket's own choice is within the envelope. */
  lemma {:induction false} GreedyOptimal(l: Limit, ts: seq<real>, chosen: seq<bool>, n: nat)
    requires Ordered(ts) && |chosen| == |ts| && n <= |ts|
    requires WithinEnvelope(l, ts, chosen)
    ensures Ones(Decisions(l, ts), 0, n) >= Ones(chosen, 0, n)
  {
    var d := Decisions(l, ts);
    if n > 0 {
      var k := n - 1;
      GreedyOptimal(l, ts, chosen, k);
      if !d[k] && chosen[k] {
        var j := TokensAttained(l, ts, k);
        assert Ones(chosen, j, k + 1) as real <= Window(l, ts, j, k);
        assert Ones(chosen, j, n) <= Ones(d, j, n);
        GreedyOptimal(l, ts, chosen, j);
        OnesSplit(d, 0, j, n);
        OnesSplit(chosen, 0, j, n);
      }
    }
  }

  lemma BucketWithinEnvelope(l: Limit, ts: seq<real>)
    requires Ordered(ts)
    ensures WithinEnvelope(l, ts, Decisions(l, ts))
  {
    forall i, k | 0 <= i <= k < |ts| ensures Ones(Decisions(l, ts), i, k + 1) as real <= Window(l, ts, i, k) {
      WindowBound(l, ts, i, k);
    }
  }

  // ----------------------------------------------- rejected checks leave no trace

  function Keep<T>(xs: seq<T>, mask: seq<bool>): seq<T>
    requires |xs| == |mask|
  {
    if xs == [] then []
    else
      var n := |xs| - 1;
      Keep(xs[..n], mask[..n]) + if mask[n] then [xs[n]] else []
  }

  /** Two buckets no later check can tell apart. */
  ghost predicate Alike(l: Limit, a: Option<Bucket>, b: Option<Bucket>, from: real) {
    forall now :: from <= now ==> Refill(l, a, now) == Refill(l, b, now)
  }

  lemma RefillTwice(l: Limit, b: Option<Bucket>, mid: real, now: real)
    requires mid <= now && (b.Some? ==> b.value.lastRefill <= mid)
    ensures Refill(l, Some(Refill(l, b, mid)), now) == Refill(l, b, now)
  {
    assert Earned(l, 0.0) == 0.0;
    if b.Some? {
      EarnedAdds(l, mid - b.value.lastRefill, now - mid);
    }
    EarnedNonNegative(l, now - mid);
  }

  lemma {:induction false} KeptStateAlike(l: Limit, ts: seq<real>, mask: seq<bool>, from: real)
    requires Ordered(ts) && |mask| == |ts|
    requires forall i :: 0 <= i < |ts| ==> mask[i] || !Decisions(l, ts)[i]
    requires ts != [] ==> ts[|ts| - 1] <= from
    ensures Alike(l, After(l, Keep(ts, mask)), After(l, ts), from)
    ensures Decisions(l, Keep(ts, mask)) == Keep(Decisions(l, ts), mask)
    decreases |ts|
  {
    if ts != [] {
      var n := |ts| - 1;
      DecisionsPrefix(l, ts, n);
      KeptStateAlike(l, ts[..n], mask[..n], ts[n]);
      KeptStep(l, Keep(ts[..n], mask[..n]), ts[..n], ts[n], mask[n], from);
      AppendCheck(l, ts[..n], ts[n]);
      assert ts == ts[..n] + [ts[n]];
    }
  }

  /** One more check, kept or (if rejected) dropped. */
  lemma KeptStep(l: Limit, us: seq<real>, ts: seq<real>, t: real, kept: bool, from: real)
    requires Alike(l, After(l, us), After(l, ts), t) && t <= from
    requires ts != [] ==> ts[|ts| - 1] <= t
    requires kept || Refill(l, After(l, ts), t).tokens < 1.0
    ensures Alike(l, After(l, us + if kept then [t] else []), After(l, ts + [t]), from)
    ensures Decisions(l, us + if kept then [t] else []) ==
            Decisions(l, us) + if kept then [Refill(l, After(l, ts), t).tokens >= 1.0] else []
  {
    AppendCheck(l, ts, t);
    if kept {
      AppendCheck(l, us, t);
    } else {
      assert us + [] == us && Decisions(l, us) + [] == Decisions(l, us);
      forall now | from <= now ensures Refill(l, After(l, us), now) == Refill(l, After(l, ts + [t]), now) {
        RefillTwice(l, After(l, ts), t, now);
      }
    }
  }

  lemma DecisionsPrefix(l: Limit, ts: seq<real>, n: nat)
    requires n <= |ts|
    ensures Decisions(l, ts[..n]) == Decisions(l, ts)[..n]
  {
    forall i | 0 <= i < n ensures Tokens(l, ts[..n], i) == Tokens(l, ts, i) {
      assert ts[..n][..i] == ts[..i];
    }
  }

  lemma AppendCheck(l: Limit, ts: seq<real>, t: real)
    ensures After(l, ts + [t]) == Some(Spend(Refill(l, After(l, ts), t)))
    ensures Decisions(l, ts + [t]) == Decisions(l, ts) + [Refill(l, After(l, ts), t).tokens >= 1.0]
  {
    var us := ts + [t];
    assert us[..|ts|] == ts;
    DecisionsPrefix(l, us, |ts|);
  }

  /** Deleting any rejected checks from a run changes no other decision. */
  lemma RejectedChecksLeaveNoTrace(l: Limit, ts: seq<real>, mask: seq<bool>)
    requires Ordered(ts) && |mask| == |ts|
    requires forall i :: 0 <= i < |ts| ==> mask[i] || !Decisions(l, ts)[i]
    ensures Decisions(l, Keep(ts, mask)) == Keep(Decisions(l, ts), mask)
  {
    KeptStateAlike(l, ts, mask, if ts == [] then 0.0 else ts[|ts| - 1]);
  }

  // --------------------------------------------------------- the whole limiter

  datatype Endpoint = Logs | Crashes

  datatype Config = Config(logs: Limit, crashes: Limit) {
    function For(endpoint: Endpoint): Limit { if endpoint.Logs? then logs else crashes }
  }

  datatype RateKey = RateKey(endpoint: Endpoint, tokenId: string, source: string)

  /** Who a check is charged to. */
  datatype Client = Client(endpoint: Endpoint, tokenId: string, source: SourceKey)

  function KeyOf(c: Client): RateKey {
    RateKey(c.endpoint, c.tokenId, Canonical(c.source))
  }

  datatype Request = Request(client: Client, at: real)

  type Buckets = map<RateKey, Bucket>

  function Lookup(buckets: Buckets, key: RateKey): Option<Bucket> {
    if key in buckets then Some(buckets[key]) else None
  }

  function Charge(config: Config, buckets: Buckets, r: Request): Buckets {
    var key := KeyOf(r.client);
    buckets[key := Spend(Refill(config.For(r.client.endpoint), Lookup(buckets, key), r.at))]
  }

  function Admits(config: Config, buckets: Buckets, r: Request): bool {
    Refill(config.For(r.client.endpoint), Lookup(buckets, KeyOf(r.client)), r.at).tokens >= 1.0
  }

  class RateLimiter {
    var buckets: Buckets
    const config: Config

    constructor (config: Config)
      ensures buckets == map[] && this.config == config
    {
      this.config := config;
      buckets := map[];
    }

    /** `RateLimiter::check`, run while the bucket map is locked. */
    method Check(client: Client, now: real) returns (ok: bool)
      modifies this
      ensures ok == Admits(config, old(buckets), Request(client, now))
      ensures buckets == Charge(config, old(buckets), Request(client, now))
    {
      var limit := config.For(client.endpoint);
      var key := KeyOf(client);
      if key !in buckets {
        buckets := buckets[key := Bucket(limit.Full(), now)];
      }
      var bucket := buckets[key];
      var tokens := Min(bucket.tokens + Earned(limit, Elapsed(bucket.lastRefill, now)), limit.Full());
      buckets := buckets[key := Bucket(tokens, now)];
      ok := tokens >= 1.0;
      if ok {
        buckets := buckets[key := Bucket(tokens - 1.0, now)];
      }
    }
  }

  /** The bucket map after the requests `rs`, starting from an empty limiter. */
  function Charged(config: Config, rs: seq<Request>): Buckets {
    if rs == [] then map[] else Charge(config, Charged(config, rs[..|rs| - 1]), rs[|rs| - 1])
  }

  function Verdicts(config: Config, rs: seq<Request>): seq<bool> {
    seq(|rs|, i requires 0 <= i < |rs| => Admits(config, Charged(config, rs[..i]), rs[i]))
  }

  function Mine(rs: seq<Request>, c: Client): seq<bool> {
    seq(|rs|, i requires 0 <= i < |rs| => rs[i].client == c)
  }

  function Times(rs: seq<Request>): seq<real> {
    seq(|rs|, i requires 0 <= i < |rs| => rs[i].at)
  }

  ghost predicate ValidSources(rs: seq<Request>) {
    forall i :: 0 <= i < |rs| ==> ValidSource(rs[i].client.source)
  }

  /** The request times of client `c`. */
  function TimesOf(rs: seq<Request>, c: Client): seq<real> {
    Keep(Times(rs), Mine(rs, c))
  }

  lemma TimesOfStep(rs: seq<Request>, c: Client)
    requires rs != []
    ensures TimesOf(rs, c) ==
            TimesOf(rs[..|rs| - 1], c) + if rs[|rs| - 1].client == c then [rs[|rs| - 1].at] else []
  {
    var n := |rs| - 1;
    assert Times(rs)[..n] == Times(rs[..n]) && Mine(rs, c)[..n] == Mine(rs[..n], c);
  }

  lemma {:induction false} BucketOfClient(config: Config, rs: seq<Request>, c: Client)
    requires ValidSources(rs) && ValidSource(c.source)
    ensures Lookup(Charged(config, rs), KeyOf(c)) == After(config.For(c.endpoint), TimesOf(rs, c))
  {
    if rs != [] {
      var n := |rs| - 1;
      BucketOfClient(config, rs[..n], c);
      TimesOfStep(rs, c);
      if rs[n].client == c {
        AppendCheck(config.For(c.endpoint), TimesOf(rs[..n], c), rs[n].at);
      } else {
        KeysDiffer(rs[n].client, c);
        assert TimesOf(rs, c) == TimesOf(rs[..n], c);
      }
    }
  }

  /** In any interleaving, the verdicts one client sees are the decisions of a
      single bucket on that client's own request times. */
  lemma BucketIsolation(config: Config, rs: seq<Request>, c: Client)
    requires ValidSources(rs) && ValidSource(c.source)
    ensures Keep(Verdicts(config, rs), Mine(rs, c)) ==
            Decisions(if c.endpoint == Logs then config.logs else config.crashes, TimesOf(rs, c))
  {
    OwnVerdicts(config, rs, c);
  }

  lemma {:induction false} OwnVerdicts(config: Config, rs: seq<Request>, c: Client)
    requires ValidSources(rs) && ValidSource(c.source)
    ensures Keep(Verdicts(config, rs), Mine(rs, c)) == Decisions(config.For(c.endpoint), TimesOf(rs, c))
  {
    if rs != [] {
      var n := |rs| - 1;
      OwnVerdicts(config, rs[..n], c);
      BucketOfClient(config, rs[..n], c);
      TimesOfStep(rs, c);
      OwnVerdictsStep(config, rs, c);
      if rs[n].client == c {
        AppendCheck(config.For(c.endpoint), TimesOf(rs[..n], c), rs[n].at);
      } else {
        assert TimesOf(rs, c) == TimesOf(rs[..n], c);
      }
    }
  }

  lemma OwnVerdictsStep(config: Config, rs: seq<Request>, c: Client)
    requires rs != []
    ensures var n := |rs| - 1;
            Keep(Verdicts(config, rs), Mine(rs, c)) ==
            Keep(Verdicts(config, rs[..n]), Mine(rs[..n], c))
            + if rs[n].client == c then [Admits(config, Charged(config, rs[..n]), rs[n])] else []
  {
    var n := |rs| - 1;
    VerdictsPrefix(config, rs, n);
    assert Mine(rs, c)[..n] == Mine(rs[..n], c);
  }

  lemma KeysDiffer(a: Client, b: Client)
    requires ValidSource(a.source) && ValidSource(b.source) && a != b
    ensures KeyOf(a) != KeyOf(b)
  {
    if Canonical(a.source) == Canonical(b.source) {
      CanonicalInjective(a.source, b.source);
    }
  }

  lemma VerdictsPrefix(config: Config, rs: seq<Request>, n: nat)
    requires n <= |rs|
    ensures Verdicts(config, rs)[..n] == Verdicts(config, rs[..n])
  {
    forall i | 0 <= i < n ensures Verdicts(config, rs)[i] == Verdicts(config, rs[..n])[i] {
      assert rs[..n][..i] == rs[..i];
    }
  }

  lemma {:induction false} KeepOrdered(ts: seq<real>, mask: seq<bool>)
    requires Ordered(ts) && |mask| == |ts|
    ensures Ordered(Keep(ts, mask))
    ensures ts != [] ==> forall i :: 0 <= i < |Keep(ts, mask)| ==> Keep(ts, mask)[i] <= ts[|ts| - 1]
  {
    if ts != [] {
      KeepOrdered(ts[..|ts| - 1], mask[..|ts| - 1]);
    }
  }

  /** However requests interleave, no client is admitted more than its burst
      plus what the rate grants it over any stretch of its own requests. */
  lemma ClientWindowBound(config: Config, rs: seq<Request>, c: Client, i: nat, k: nat)
    requires ValidSources(rs) && ValidSource(c.source) && Ordered(Times(rs))
    requires i <= k < |TimesOf(rs, c)|
    ensures |Keep(Verdicts(config, rs), Mine(rs, c))| == |TimesOf(rs, c)|
    ensures Ones(Keep(Verdicts(config, rs), Mine(rs, c)), i, k + 1) as real <=
            Window(if c.endpoint == Logs then config.logs else config.crashes, TimesOf(rs, c), i, k)
  {
    BucketIsolation(config, rs, c);
    KeepOrdered(Times(rs), Mine(rs, c));
    WindowBound(config.For(c.endpoint), TimesOf(rs, c), i, k);
  }
}
