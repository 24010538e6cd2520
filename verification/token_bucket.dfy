/** The token bucket of crates/kynos/examples/token_bucket.rs: continuous refill,
    refusal with a solved wait, and an amortised sweep. Tokens and instants are
    reals. */
module TokenBucket {
  import opened Options

  // --- One step, on values ----------------------------------------------

  datatype Config = Config(capacity: nat, rate: real)

  /** A conversion to `Duration` refuses any other rate. */
  predicate Usable(config: Config) {
    config.rate > 0.0
  }

  datatype Bucket = Bucket(tokens: real, at: real)

  datatype Buckets = Buckets(perKey: map<string, Bucket>, sweptAt: real)

  datatype Limit = Limit(quota: nat, remaining: nat, reset: real)

  datatype Answer = Granted(limit: Limit) | Refused(wait: real, limit: Limit)

  datatype Decision = Allow(limit: Limit) | Deny(wait: real, limit: Limit)

  function Min(a: real, b: real): real {
    if a <= b then a else b
  }

  /** `Instant::duration_since`, which saturates at zero. */
  function Since(now: real, earlier: real): real {
    if now >= earlier then now - earlier else 0.0
  }

  /** From no tokens to `capacity`, in seconds. */
  function FillTime(config: Config): real
    requires Usable(config)
  {
    config.capacity as real / config.rate
  }

  /** The tokens added over `gap` seconds. */
  function Accrued(config: Config, gap: real): real {
    gap * config.rate
  }

  /** The seconds `tokens` take to accrue. */
  function TimeFor(config: Config, tokens: real): real
    requires Usable(config)
  {
    tokens / config.rate
  }

  /** What `bucket` holds once brought up to date. */
  function Refilled(config: Config, bucket: Bucket, now: real): real {
    Min(bucket.tokens + Accrued(config, Since(now, bucket.at)), config.capacity as real)
  }

  /** What a spend answers when it finds `level` tokens. */
  function AnswerAt(config: Config, level: real): Answer
    requires Usable(config)
  {
    if level < 1.0 then
      var wait := (1.0 - level) / config.rate;
      Refused(wait, Limit(config.capacity, 0, wait))
    else
      var left := level - 1.0;
      Granted(Limit(config.capacity, left.Floor, (config.capacity as real - left) / config.rate))
  }

  function Left(level: real): real {
    if level < 1.0 then level else level - 1.0
  }

  function Sweep(config: Config, buckets: Buckets, now: real): Buckets
    requires Usable(config)
  {
    if Since(now, buckets.sweptAt) >= FillTime(config) then
      Buckets(
        map key | key in buckets.perKey && Since(now, buckets.perKey[key].at) < 2.0 * FillTime(config) ::
          buckets.perKey[key],
        now)
    else buckets
  }

  /** The tokens a spend for `key` at `now` finds: in its bucket if the sweep left
      one, or in a fresh one. */
  function FoundLevel(config: Config, buckets: Buckets, key: string, now: real): real
    requires Usable(config)
  {
    var swept := Sweep(config, buckets, now);
    Refilled(config, if key in swept.perKey then swept.perKey[key] else Bucket(config.capacity as real, now), now)
  }

  /** What a spend answers, and the buckets it leaves. */
  function Answered(config: Config, buckets: Buckets, key: string, now: real): Answer
    requires Usable(config)
  {
    AnswerAt(config, FoundLevel(config, buckets, key, now))
  }

  function After(config: Config, buckets: Buckets, key: string, now: real): Buckets
    requires Usable(config)
  {
    var swept := Sweep(config, buckets, now);
    swept.(perKey := swept.perKey[key := Bucket(Left(FoundLevel(config, buckets, key, now)), now)])
  }

  // --- The limiter ------------------------------------------------------

  class TokenBucket {
    const config: Config
    const capacity: real
    const idleBeforeFull: real
    const exempt: set<string>
    var perKey: map<string, Bucket>
    var sweptAt: real

    ghost predicate Valid() {
      Usable(config) && capacity == config.capacity as real && idleBeforeFull == FillTime(config)
    }

    ghost function Contents(): Buckets
      reads this
    {
      Buckets(perKey, sweptAt)
    }

    constructor (capacity: nat, rate: real, exempt: set<string>, now: real)
      requires rate > 0.0
      ensures Valid() && config == Config(capacity, rate) && this.exempt == exempt
      ensures Contents() == Buckets(map[], now)
    {
      this.config := Config(capacity, rate);
      this.capacity := capacity as real;
      this.idleBeforeFull := capacity as real / rate;
      this.exempt := exempt;
      perKey, sweptAt := map[], now;
    }

    /** The limit of a bucket nothing was taken from. */
    function Full(): Limit
      requires Valid()
    {
      Limit(capacity.Floor, capacity.Floor, 0.0)
    }

    /** A grant leaves a token less for `key`; a refusal names the wait and leaves what
        was found. */
    method SpendOne(key: string, now: real) returns (answer: Answer)
      requires Valid()
      modifies this
      ensures answer == Answered(config, old(Contents()), key, now)
      ensures Contents() == After(config, old(Contents()), key, now)
    {
      hide Refilled, AnswerAt, FoundLevel, Accrued, TimeFor;
      if Since(now, sweptAt) >= idleBeforeFull {
        var idleLimit := 2.0 * idleBeforeFull;
        perKey := map k | k in perKey && Since(now, perKey[k].at) < idleLimit :: perKey[k];
        sweptAt := now;
      }
      ghost var swept := Sweep(config, old(Contents()), now);
      assert Contents() == swept;
      hide Sweep, FillTime;
      if key !in perKey {
        perKey := perKey[key := Bucket(capacity, now)];
      }
      FoundIsRefilled(config, old(Contents()), key, now);
      RefillIsAccrual(config, perKey[key], now);
      var elapsed := Since(now, perKey[key].at);
      var tokens := Min(perKey[key].tokens + Accrued(config, elapsed), capacity);
      assert tokens == FoundLevel(config, old(Contents()), key, now);
      hide Since, Min;
      Overwritten(swept.perKey, key, Bucket(capacity, now), Bucket(tokens, now));
      perKey := perKey[key := Bucket(tokens, now)];
      assert perKey == swept.perKey[key := Bucket(tokens, now)];
      AnswerIsExplicit(config, tokens);
      var ceiling := capacity.Floor;
      if tokens < 1.0 {
        var wait := TimeFor(config, 1.0 - tokens);
        return Refused(wait, Limit(ceiling, 0, wait));
      }
      Overwritten(swept.perKey, key, Bucket(tokens, now), Bucket(tokens - 1.0, now));
      perKey := perKey[key := Bucket(tokens - 1.0, now)];
      answer := Granted(Limit(ceiling, (tokens - 1.0).Floor, TimeFor(config, capacity - (tokens - 1.0))));
    }

    lemma {:induction false} Overwritten(perKey: map<string, Bucket>, key: string, first: Bucket, last: Bucket)
      ensures perKey[key := first][key := last] == perKey[key := last]
    {
    }

    lemma {:induction false} FoundIsRefilled(config: Config, buckets: Buckets, key: string, now: real)
      requires Usable(config)
      ensures var swept := Sweep(config, buckets, now);
        FoundLevel(config, buckets, key, now)
          == Refilled(
               config, if key in swept.perKey then swept.perKey[key] else Bucket(config.capacity as real, now), now)
    {
    }

    lemma {:induction false} RefillIsAccrual(config: Config, bucket: Bucket, now: real)
      ensures Refilled(config, bucket, now)
        == Min(bucket.tokens + Accrued(config, Since(now, bucket.at)), config.capacity as real)
    {
    }

    lemma {:induction false} AnswerIsExplicit(config: Config, tokens: real)
      requires Usable(config)
      ensures AnswerAt(config, tokens) ==
        var left := tokens - 1.0;
        if tokens < 1.0 then
          Refused(TimeFor(config, 1.0 - tokens), Limit(config.capacity, 0, TimeFor(config, 1.0 - tokens)))
        else Granted(Limit(config.capacity, left.Floor, TimeFor(config, config.capacity as real - left)))
    {
    }

    /** `check`: an exempt operation, and a request no key can be formed for,
        change no bucket and report a full one. */
    method Check(operation: string, key: Option<string>, now: real) returns (decision: Decision)
      requires Valid()
      modifies this
      ensures operation in exempt || key == None ==>
        decision == Allow(Limit(config.capacity, config.capacity, 0.0)) && Contents() == old(Contents())
      ensures operation !in exempt && key.Some? ==>
        && Contents() == After(config, old(Contents()), key.value, now)
        && decision == match Answered(config, old(Contents()), key.value, now) {
             case Granted(limit) => Allow(limit)
             case Refused(wait, limit) => Deny(wait, limit)
           }
    {
      if operation in exempt {
        return Allow(Full());
      }
      if key == None {
        return Allow(Full());
      }
      var answer := SpendOne(key.value, now);
      match answer
      case Granted(limit) => decision := Allow(limit);
      case Refused(wait, limit) => decision := Deny(wait, limit);
    }
  }

  // --- Arithmetic -------------------------------------------------------

  lemma {:induction false} ReachesIff(config: Config, gap: real, amount: real)
    requires Usable(config)
    ensures gap >= amount / config.rate <==> Accrued(config, gap) >= amount
  {
    var q := amount / config.rate;
    assert q * config.rate == amount;
    if gap >= q {
      assert (gap - q) * config.rate >= 0.0;
    } else {
      assert (q - gap) * config.rate > 0.0;
    }
  }

  lemma {:induction false} Accrues(config: Config, a: real, b: real, c: real)
    requires a <= b <= c && Usable(config)
    ensures Accrued(config, c - a) == Accrued(config, b - a) + Accrued(config, c - b)
    ensures Accrued(config, b - a) >= 0.0 && Accrued(config, c - b) >= 0.0
    ensures Accrued(config, 0.0) == 0.0
    ensures a < b ==> Accrued(config, b - a) > 0.0
  {
  }

  // --- The level of a key -----------------------------------------------

  /** How many tokens a spend for `key` at `now` would find. */
  function Level(config: Config, buckets: Buckets, key: string, now: real): real {
    if key in buckets.perKey then Refilled(config, buckets.perKey[key], now) else config.capacity as real
  }

  lemma {:induction false} UntouchedIsFull(config: Config, buckets: Buckets, key: string, now: real)
    requires key !in buckets.perKey
    ensures Level(config, buckets, key, now) == config.capacity as real
  {
  }

  /** What holds of every reachable state no earlier reading than `now` will see. */
  ghost predicate Sound(config: Config, buckets: Buckets, now: real) {
    && Usable(config)
    && buckets.sweptAt <= now
    && forall key :: key in buckets.perKey ==>
         && 0.0 <= buckets.perKey[key].tokens <= config.capacity as real
         && buckets.perKey[key].at <= now
  }

  /** A bucket the sweep drops is full, so dropping it changes no level. */
  lemma {:induction false} SweepKeepsLevels(config: Config, buckets: Buckets, now: real, key: string, later: real)
    requires Sound(config, buckets, now) && now <= later
    ensures Level(config, Sweep(config, buckets, now), key, later) == Level(config, buckets, key, later)
  {
    if key in buckets.perKey && key !in Sweep(config, buckets, now).perKey {
      var bucket := buckets.perKey[key];
      ReachesIff(config, later - bucket.at, config.capacity as real);
      assert FillTime(config) >= 0.0;
    }
  }

  /** A sweep is due once the buckets have had the time to fill since the last one, and
      drops the buckets idle for twice that time and no others. */
  lemma {:induction false} SweepDropsIff(config: Config, buckets: Buckets, key: string, now: real, k: string)
    requires Sound(config, buckets, now) && k != key
    ensures var fill, after := config.capacity as real / config.rate, After(config, buckets, key, now);
      && (k in after.perKey <==>
            k in buckets.perKey && (now - buckets.sweptAt < fill || now - buckets.perKey[k].at < 2.0 * fill))
      && (k in after.perKey ==> after.perKey[k] == buckets.perKey[k])
      && after.sweptAt == if now - buckets.sweptAt < fill then buckets.sweptAt else now
  {
  }

  /** What an answer reports besides: the capacity, and of a refusal that nothing is
      left and the reset is the wait. */
  lemma {:induction false} LimitsAreReported(config: Config, buckets: Buckets, key: string, now: real)
    requires Sound(config, buckets, now)
    ensures match Answered(config, buckets, key, now) {
      case Granted(limit) => limit.quota == config.capacity && limit.remaining < config.capacity && limit.reset > 0.0
      case Refused(wait, limit) => limit == Limit(config.capacity, 0, wait) && wait > 0.0
    }
  {
    SpendAnswers(config, buckets, key, now);
    LevelsAreBounded(config, buckets, key, now);
    var level := Level(config, buckets, key, now);
    ReachesIff(config, 0.0, 1.0 - level);
    ReachesIff(config, 0.0, config.capacity as real - (level - 1.0));
    assert level >= 1.0 ==> (level - 1.0).Floor < config.capacity;
  }

  /** A spend answers from its key's level alone. */
  lemma {:induction false} SpendAnswers(config: Config, buckets: Buckets, key: string, now: real)
    requires Sound(config, buckets, now)
    ensures FoundLevel(config, buckets, key, now) == Level(config, buckets, key, now)
    ensures Answered(config, buckets, key, now) == AnswerAt(config, Level(config, buckets, key, now))
    ensures Answered(config, buckets, key, now).Granted? <==> Level(config, buckets, key, now) >= 1.0
  {
    SweepKeepsLevels(config, buckets, now, key, now);
  }

  lemma {:induction false} SpendStaysSound(config: Config, buckets: Buckets, key: string, now: real)
    requires Sound(config, buckets, now)
    ensures Sound(config, After(config, buckets, key, now), now)
  {
    SweepKeepsLevels(config, buckets, now, key, now);
    LevelsAreBounded(config, buckets, key, now);
  }

  /** A spend takes a token from its key's level when it grants, and changes no
      other key's. */
  lemma {:induction false} SpendTakes(config: Config, buckets: Buckets, key: string, now: real, k: string, later: real)
    requires Sound(config, buckets, now) && now <= later
    ensures Level(config, After(config, buckets, key, now), k, later) ==
      if k == key then
        Min(Left(Level(config, buckets, key, now)) + Accrued(config, later - now), config.capacity as real)
      else Level(config, buckets, k, later)
  {
    SweepKeepsLevels(config, buckets, now, key, now);
    SweepKeepsLevels(config, buckets, now, k, later);
  }

  lemma {:induction false} LevelsAreBounded(config: Config, buckets: Buckets, key: string, now: real)
    requires Sound(config, buckets, now)
    ensures 0.0 <= Level(config, buckets, key, now) <= config.capacity as real
  {
    if key in buckets.perKey {
      Accrues(config, buckets.perKey[key].at, now, now);
    }
  }

  // --- Runs -------------------------------------------------------------

  datatype Request = Request(key: string, now: real)

  /** Readings never step back, in the order the lock is taken. */
  ghost predicate Ordered(requests: seq<Request>, start: real) {
    forall i :: 0 <= i < |requests| ==>
      start <= requests[i].now && (i > 0 ==> requests[i - 1].now <= requests[i].now)
  }

  function Last(requests: seq<Request>, start: real): real {
    if requests == [] then start else requests[|requests| - 1].now
  }

  function Run(config: Config, buckets: Buckets, requests: seq<Request>): Buckets
    requires Usable(config)
  {
    if requests == [] then buckets
    else
      var last := requests[|requests| - 1];
      After(config, Run(config, buckets, requests[..|requests| - 1]), last.key, last.now)
  }

  /** What the last of `requests` is answered. */
  function AnswerOf(config: Config, buckets: Buckets, requests: seq<Request>): Answer
    requires Usable(config) && requests != []
  {
    var last := requests[|requests| - 1];
    Answered(config, Run(config, buckets, requests[..|requests| - 1]), last.key, last.now)
  }

  lemma {:induction false} OrderedPrefix(requests: seq<Request>, start: real)
    requires Ordered(requests, start) && requests != []
    ensures Ordered(requests[..|requests| - 1], start)
    ensures Last(requests[..|requests| - 1], start) <= Last(requests, start) && start <= Last(requests, start)
  {
    var before := requests[..|requests| - 1];
    assert forall i :: 0 <= i < |before| ==> before[i] == requests[i];
  }

  lemma {:induction false} SoundLater(config: Config, buckets: Buckets, now: real, later: real)
    requires Sound(config, buckets, now) && now <= later
    ensures Sound(config, buckets, later)
  {
  }

  lemma {:induction false} RunStaysSound(config: Config, buckets: Buckets, requests: seq<Request>, start: real)
    requires Sound(config, buckets, start) && Ordered(requests, start)
    ensures Sound(config, Run(config, buckets, requests), Last(requests, start))
    decreases |requests|, 1
  {
    if requests != [] {
      var last := requests[|requests| - 1];
      BeforeLast(config, buckets, requests, start);
      SpendStaysSound(config, Run(config, buckets, requests[..|requests| - 1]), last.key, last.now);
    }
  }

  /** The state the last request finds is sound at its reading. */
  lemma {:induction false} BeforeLast(config: Config, buckets: Buckets, requests: seq<Request>, start: real)
    requires Sound(config, buckets, start) && Ordered(requests, start) && requests != []
    ensures var before := requests[..|requests| - 1];
      && Ordered(before, start)
      && start <= Last(before, start) <= Last(requests, start)
      && Sound(config, Run(config, buckets, before), Last(before, start))
      && Sound(config, Run(config, buckets, before), Last(requests, start))
    decreases |requests|, 0
  {
    var before := requests[..|requests| - 1];
    OrderedPrefix(requests, start);
    RunStaysSound(config, buckets, before, start);
    StartsBefore(before, start);
    SoundLater(config, Run(config, buckets, before), Last(before, start), Last(requests, start));
  }

  lemma {:induction false} StartsBefore(requests: seq<Request>, start: real)
    requires Ordered(requests, start)
    ensures start <= Last(requests, start)
  {
  }

  // --- Refinement: one pure bucket per key, never evicted ---------------

  /** The instants `key` was requested at. */
  function TimesOf(requests: seq<Request>, key: string): seq<real> {
    if requests == [] then []
    else
      var before, last := TimesOf(requests[..|requests| - 1], key), requests[|requests| - 1];
      if last.key == key then before + [last.now] else before
  }

  /** The simple model: the level at `now` of a bucket that was full to begin with
      and was spent from at `times`, and at nothing else. */
  function LevelAfter(config: Config, times: seq<real>, now: real): real {
    if times == [] then config.capacity as real
    else
      var before, last := times[..|times| - 1], times[|times| - 1];
      Min(Left(LevelAfter(config, before, last)) + Accrued(config, now - last), config.capacity as real)
  }

  lemma {:induction false} RunRefinesLevels(config: Config, requests: seq<Request>, start: real, key: string, now: real)
    requires Usable(config) && Ordered(requests, start) && Last(requests, start) <= now
    ensures Level(config, Run(config, Buckets(map[], start), requests), key, now)
      == LevelAfter(config, TimesOf(requests, key), now)
  {
    hide Level, Accrued;
    if requests == [] {
      UntouchedIsFull(config, Buckets(map[], start), key, now);
    } else {
      var before, last := requests[..|requests| - 1], requests[|requests| - 1];
      BeforeLast(config, Buckets(map[], start), requests, start);
      SpendTakes(config, Run(config, Buckets(map[], start), before), last.key, last.now, key, now);
      if last.key == key {
        RunRefinesLevels(config, before, start, key, last.now);
        var times := TimesOf(before, key);
        assert (times + [last.now])[..|times|] == times;
      } else {
        RunRefinesLevels(config, before, start, key, now);
      }
    }
  }

  /** Eviction is invisible, and keys never affect one another: in every run, a
      request is answered what a bucket of its key alone, never evicted, would
      answer. */
  lemma {:induction false} EvictionIsInvisible(config: Config, requests: seq<Request>, start: real)
    requires Usable(config) && Ordered(requests, start) && requests != []
    ensures var before, last := requests[..|requests| - 1], requests[|requests| - 1];
      AnswerOf(config, Buckets(map[], start), requests) ==
      AnswerAt(config, LevelAfter(config, TimesOf(before, last.key), last.now))
  {
    var before, last := requests[..|requests| - 1], requests[|requests| - 1];
    BeforeLast(config, Buckets(map[], start), requests, start);
    SpendAnswers(config, Run(config, Buckets(map[], start), before), last.key, last.now);
    RunRefinesLevels(config, before, start, last.key, last.now);
  }

  // --- Memory -----------------------------------------------------------

  /** Every bucket held was used less than three fill times before `now`. */
  ghost predicate Recent(config: Config, buckets: Buckets, now: real)
    requires Usable(config)
  {
    && now - buckets.sweptAt < FillTime(config)
    && forall key :: key in buckets.perKey ==>
         && buckets.sweptAt - buckets.perKey[key].at < 2.0 * FillTime(config)
         && now - buckets.perKey[key].at < 3.0 * FillTime(config)
  }

  lemma {:induction false} SpendStaysRecent(config: Config, buckets: Buckets, key: string, now: real)
    requires Sound(config, buckets, now) && config.capacity >= 1
    requires forall k :: k in buckets.perKey ==> buckets.sweptAt - buckets.perKey[k].at < 2.0 * FillTime(config)
    ensures Recent(config, After(config, buckets, key, now), now)
  {
    ReachesIff(config, 0.0, config.capacity as real);
    assert FillTime(config) > 0.0;
  }

  /** Memory is bounded: whatever the run, each bucket held was last used under
      three fill times ago, and by its own key. */
  lemma {:induction false} MemoryIsBounded(config: Config, requests: seq<Request>, start: real)
    requires Usable(config) && config.capacity >= 1 && Ordered(requests, start)
    ensures var state := Run(config, Buckets(map[], start), requests);
      && Recent(config, state, Last(requests, start))
      && forall key :: key in state.perKey ==> exists i ::
           0 <= i < |requests| && requests[i] == Request(key, state.perKey[key].at)
  {
    if requests == [] {
      ReachesIff(config, 0.0, config.capacity as real);
    } else {
      var before, last := requests[..|requests| - 1], requests[|requests| - 1];
      var earlier := Run(config, Buckets(map[], start), before);
      var state := Run(config, Buckets(map[], start), requests);
      BeforeLast(config, Buckets(map[], start), requests, start);
      MemoryIsBounded(config, before, start);
      SpendStaysRecent(config, earlier, last.key, last.now);
      forall key | key in state.perKey
        ensures exists i :: 0 <= i < |requests| && requests[i] == Request(key, state.perKey[key].at)
      {
        if key == last.key {
          assert requests[|requests| - 1] == Request(key, state.perKey[key].at);
        } else {
          assert key in earlier.perKey && state.perKey[key] == earlier.perKey[key];
          var i :| 0 <= i < |before| && before[i] == Request(key, earlier.perKey[key].at);
          assert requests[i] == before[i];
        }
      }
    }
  }

  // --- The rate bound ---------------------------------------------------

  /** How many of `requests`, made from `buckets` on, were granted to `key`. */
  function Grants(config: Config, buckets: Buckets, requests: seq<Request>, key: string): nat
    requires Usable(config)
  {
    if requests == [] then 0
    else
      var before, last := requests[..|requests| - 1], requests[|requests| - 1];
      Grants(config, buckets, before, key) +
      if last.key == key && AnswerOf(config, buckets, requests).Granted? then 1 else 0
  }

  /** The tokens `key`'s bucket had no room for, over a run from `start` on. */
  function Overflow(
      config: Config, buckets: Buckets, requests: seq<Request>, start: real, key: string): (overflow: real)
    requires Usable(config)
    ensures overflow >= 0.0
  {
    if requests == [] then 0.0
    else
      var before := requests[..|requests| - 1];
      var brim := Level(config, Run(config, buckets, before), key, Last(before, start))
        + Accrued(config, Last(requests, start) - Last(before, start));
      Overflow(config, buckets, before, start, key) +
        if brim <= config.capacity as real then 0.0 else brim - config.capacity as real
  }

  /** Tokens are conserved: what is left, what was granted and what overflowed are
      what was there and what accrued. */
  lemma {:induction false} TokensAreConserved(
      config: Config, buckets: Buckets, requests: seq<Request>, start: real, key: string)
    requires Sound(config, buckets, start) && Ordered(requests, start)
    ensures
      Level(config, Run(config, buckets, requests), key, Last(requests, start))
      + Grants(config, buckets, requests, key) as real
      + Overflow(config, buckets, requests, start, key)
      == Level(config, buckets, key, start) + Accrued(config, Last(requests, start) - start)
  {
    if requests == [] {
      hide Level, Accrued;
      Accrues(config, start, start, start);
    } else {
      hide Level, Accrued, Grants, Overflow, Run, Answered, After;
      var before := requests[..|requests| - 1];
      BeforeLast(config, buckets, requests, start);
      TokensAreConserved(config, buckets, before, start, key);
      LastIsConserved(config, buckets, requests, start, key);
      Accrues(config, start, Last(before, start), Last(requests, start));
    }
  }

  lemma {:induction false} LastIsConserved(
      config: Config, buckets: Buckets, requests: seq<Request>, start: real, key: string)
    requires Sound(config, buckets, start) && Ordered(requests, start) && requests != []
    ensures var before := requests[..|requests| - 1];
      Level(config, Run(config, buckets, requests), key, Last(requests, start))
      + Grants(config, buckets, requests, key) as real
      + Overflow(config, buckets, requests, start, key)
      == Level(config, Run(config, buckets, before), key, Last(before, start))
      + Grants(config, buckets, before, key) as real
      + Overflow(config, buckets, before, start, key)
      + Accrued(config, Last(requests, start) - Last(before, start))
  {
    hide Level, Accrued, Answered, After;
    var before, last := requests[..|requests| - 1], requests[|requests| - 1];
    var state := Run(config, buckets, before);
    BeforeLast(config, buckets, requests, start);
    LevelAccrues(config, state, key, Last(before, start), last.now);
    SpendKeepsTokens(config, state, last.key, last.now, key);
  }

  /** At the instant of a spend, a level falls by what is granted. */
  lemma {:induction false} SpendKeepsTokens(config: Config, buckets: Buckets, key: string, now: real, k: string)
    requires Sound(config, buckets, now)
    ensures var granted := if key == k && Answered(config, buckets, key, now).Granted? then 1.0 else 0.0;
      Level(config, After(config, buckets, key, now), k, now) == Level(config, buckets, k, now) - granted
  {
    SpendAnswers(config, buckets, key, now);
    SpendTakes(config, buckets, key, now, k, now);
    LevelsAreBounded(config, buckets, key, now);
  }

  /** Between two instants a level rises by what accrues, or to capacity. */
  lemma {:induction false} LevelAccrues(config: Config, buckets: Buckets, key: string, now: real, later: real)
    requires Sound(config, buckets, now) && now <= later
    ensures Level(config, buckets, key, later) ==
      Min(Level(config, buckets, key, now) + Accrued(config, later - now), config.capacity as real)
  {
    if key in buckets.perKey {
      Accrues(config, buckets.perKey[key].at, now, later);
    } else {
      Accrues(config, now, now, later);
    }
  }

  /** The rate bound over every window: after any run, any further requests grant
      `key` at most a full bucket and what accrues from the first of them to the
      last. */
  lemma {:induction false} GrantsAreBounded(
      config: Config, history: seq<Request>, window: seq<Request>, start: real, key: string)
    requires Usable(config) && Ordered(history + window, start) && window != []
    ensures var length := window[|window| - 1].now - window[0].now;
      Grants(config, Run(config, Buckets(map[], start), history), window, key) as real
        <= config.capacity as real + Accrued(config, length)
  {
    hide Level, Accrued;
    var first := window[0].now;
    var state := Run(config, Buckets(map[], start), history);
    OrderedParts(history, window, start);
    RunStaysSound(config, Buckets(map[], start), history, start);
    SoundLater(config, state, Last(history, start), first);
    TokensAreConserved(config, state, window, first, key);
    LevelsAreBounded(config, state, key, first);
    RunStaysSound(config, state, window, first);
    LevelsAreBounded(config, Run(config, state, window), key, Last(window, first));
  }

  lemma {:induction false} OrderedParts(history: seq<Request>, window: seq<Request>, start: real)
    requires Ordered(history + window, start) && window != []
    ensures Ordered(history, start) && Last(history, start) <= window[0].now && Ordered(window, window[0].now)
  {
    var all := history + window;
    assert forall i :: 0 <= i < |history| ==> all[i] == history[i];
    assert forall i :: 0 <= i < |window| ==> all[|history| + i] == window[i];
    if history != [] {
      assert all[|history| - 1].now <= all[|history|].now;
    }
    forall i | 0 < i < |window| ensures window[i - 1].now <= window[i].now {
      assert all[|history| + i - 1].now <= all[|history| + i].now;
    }
    OrderedFrom(window, window[0].now);
  }

  lemma {:induction false} OrderedFrom(window: seq<Request>, first: real)
    requires window != [] && first == window[0].now
    requires forall i :: 0 < i < |window| ==> window[i - 1].now <= window[i].now
    ensures Ordered(window, first)
  {
    if |window| > 1 {
      var before := window[..|window| - 1];
      assert forall i :: 0 <= i < |before| ==> before[i] == window[i];
      OrderedFrom(before, first);
      assert before[|window| - 2].now <= window[|window| - 1].now;
    }
  }

  // --- The wait, the reset and the remaining count -----------------------

  /** A refused attempt changes no later level, of any key. */
  lemma {:induction false} RefusalChangesNothing(
      config: Config, buckets: Buckets, key: string, now: real, k: string, later: real)
    requires Sound(config, buckets, now) && now <= later && Answered(config, buckets, key, now).Refused?
    ensures Level(config, After(config, buckets, key, now), k, later) == Level(config, buckets, k, later)
  {
    SpendAnswers(config, buckets, key, now);
    SpendTakes(config, buckets, key, now, k, later);
    LevelAccrues(config, buckets, key, now, later);
  }

  /** The instant a level of `level` at `now` reaches `goal`. */
  lemma {:induction false} ReachesGoal(
      config: Config, buckets: Buckets, key: string, now: real, goal: real, later: real)
    requires Sound(config, buckets, now) && now <= later && goal <= config.capacity as real
    ensures Level(config, buckets, key, later) >= goal <==>
      later - now >= (goal - Level(config, buckets, key, now)) / config.rate
  {
    LevelAccrues(config, buckets, key, now, later);
    ReachesIff(config, later - now, goal - Level(config, buckets, key, now));
  }

  /** The wait is exact: after a refusal with wait `w`, however often `key` is
      refused in between and whatever other keys do, a spend at `later` is granted
      exactly from `now + w` on. */
  lemma {:induction false} WaitIsExact(
      config: Config, buckets: Buckets, key: string, now: real, between: seq<Request>, later: real)
    requires Sound(config, buckets, now) && config.capacity >= 1
    requires Ordered(between, now) && Last(between, now) <= later
    ensures var first := Answered(config, buckets, key, now);
      first.Refused? && AllBefore(between, key, now + first.wait) ==>
        (var left := Run(config, After(config, buckets, key, now), between);
         Answered(config, left, key, later).Granted? <==> later >= now + first.wait)
  {
    var first := Answered(config, buckets, key, now);
    if first.Refused? && AllBefore(between, key, now + first.wait) {
      WaitIsSolved(config, buckets, key, now, between, later);
    }
  }

  lemma {:induction false} WaitIsSolved(
      config: Config, buckets: Buckets, key: string, now: real, between: seq<Request>, later: real)
    requires Sound(config, buckets, now) && config.capacity >= 1
    requires Answered(config, buckets, key, now).Refused?
    requires Ordered(between, now) && Last(between, now) <= later
    requires AllBefore(between, key, now + Answered(config, buckets, key, now).wait)
    ensures Answered(config, Run(config, After(config, buckets, key, now), between), key, later).Granted?
      <==> later >= now + Answered(config, buckets, key, now).wait
  {
    var after := After(config, buckets, key, now);
    SpendAnswers(config, buckets, key, now);
    LevelIsLeft(config, buckets, key, now, between, later);
    SpendStaysSound(config, buckets, key, now);
    RunStaysSound(config, after, between, now);
    StartsBefore(between, now);
    SoundLater(config, Run(config, after, between), Last(between, now), later);
    SpendAnswers(config, Run(config, after, between), key, later);
    ReachesGoal(config, buckets, key, now, 1.0, later);
  }

  ghost predicate AllBefore(requests: seq<Request>, key: string, instant: real) {
    forall i :: 0 <= i < |requests| && requests[i].key == key ==> requests[i].now < instant
  }

  /** Until the wait is over, attempts leave the key's level as if none were made. */
  lemma {:induction false} LevelIsLeft(
      config: Config, buckets: Buckets, key: string, now: real, between: seq<Request>, later: real)
    requires Sound(config, buckets, now) && config.capacity >= 1
    requires Answered(config, buckets, key, now).Refused?
    requires Ordered(between, now) && Last(between, now) <= later
    requires AllBefore(between, key, now + Answered(config, buckets, key, now).wait)
    ensures Level(config, Run(config, After(config, buckets, key, now), between), key, later)
      == Level(config, buckets, key, later)
    decreases |between|
  {
    var after := After(config, buckets, key, now);
    if between == [] {
      RefusalChangesNothing(config, buckets, key, now, key, later);
    } else {
      var before, last := between[..|between| - 1], between[|between| - 1];
      SpendStaysSound(config, buckets, key, now);
      BeforeLast(config, after, between, now);
      assert AllBefore(before, key, now + Answered(config, buckets, key, now).wait);
      var earlier := Run(config, after, before);
      LevelIsLeft(config, buckets, key, now, before, later);
      if last.key == key {
        LevelIsLeft(config, buckets, key, now, before, last.now);
        SpendAnswers(config, buckets, key, now);
        ReachesGoal(config, buckets, key, now, 1.0, last.now);
        SpendAnswers(config, earlier, key, last.now);
        RefusalChangesNothing(config, earlier, key, last.now, key, later);
      } else {
        SpendTakes(config, earlier, last.key, last.now, key, later);
      }
    }
  }

  /** A bucket of no capacity is told to wait too, but no wait is ever enough: the
      wait is kept exactly when the bucket can hold a token. */
  lemma {:induction false} WaitIsKeptIff(config: Config, buckets: Buckets, key: string, now: real)
    requires Sound(config, buckets, now) && Answered(config, buckets, key, now).Refused?
    ensures var later := now + Answered(config, buckets, key, now).wait;
      Answered(config, After(config, buckets, key, now), key, later).Granted? <==> config.capacity >= 1
  {
    var after, later := After(config, buckets, key, now), now + Answered(config, buckets, key, now).wait;
    SpendAnswers(config, buckets, key, now);
    ReachesIff(config, 0.0, 1.0 - Level(config, buckets, key, now));
    assert now <= later;
    if config.capacity >= 1 {
      WaitIsExact(config, buckets, key, now, [], later);
    } else {
      SpendStaysSound(config, buckets, key, now);
      SoundLater(config, after, now, later);
      SpendAnswers(config, after, key, later);
      LevelsAreBounded(config, after, key, later);
    }
  }

  /** A wait that is not kept: a bucket of no capacity refuses at the end of it. */
  lemma {:induction false} NoCapacityKeepsNoWait(key: string)
    ensures var config, start := Config(0, 1.0), Buckets(map[], 0.0);
      && Answered(config, start, key, 0.0) == Refused(1.0, Limit(0, 0, 1.0))
      && Answered(config, After(config, start, key, 0.0), key, 1.0).Refused?
  {
    var config, start := Config(0, 1.0), Buckets(map[], 0.0);
    NoneIsRefused(config);
    hide After, FoundLevel, Sweep, Refilled, AnswerAt, Accrued, FillTime;
    UntouchedIsFull(config, start, key, 0.0);
    SpendAnswers(config, start, key, 0.0);
    WaitIsKeptIff(config, start, key, 0.0);
  }

  lemma {:induction false} NoneIsRefused(config: Config)
    requires config.rate == 1.0
    ensures AnswerAt(config, 0.0) == Refused(1.0, Limit(config.capacity, 0, 1.0))
  {
  }

  /** The reset is exact: left alone, the bucket is full again from then on and no
      earlier. */
  lemma {:induction false} ResetIsExact(config: Config, buckets: Buckets, key: string, now: real, later: real)
    requires Sound(config, buckets, now) && now <= later && Answered(config, buckets, key, now).Granted?
    ensures Level(config, After(config, buckets, key, now), key, later) == config.capacity as real
      <==> later >= now + Answered(config, buckets, key, now).limit.reset
  {
    var after := After(config, buckets, key, now);
    SpendAnswers(config, buckets, key, now);
    SpendKeepsTokens(config, buckets, key, now, key);
    SpendStaysSound(config, buckets, key, now);
    ReachesGoal(config, after, key, now, config.capacity as real, later);
    SoundLater(config, after, now, later);
    LevelsAreBounded(config, after, key, later);
  }

  /** `remaining` is exact: at the same instant, that many more spends are granted
      and no more. */
  lemma {:induction false} RemainingIsExact(config: Config, buckets: Buckets, key: string, now: real, more: nat)
    requires Sound(config, buckets, now) && Answered(config, buckets, key, now).Granted?
    ensures Answered(config, Run(config, After(config, buckets, key, now), Burst(key, now, more)), key, now).Granted?
      <==> more < Answered(config, buckets, key, now).limit.remaining
  {
    var after := After(config, buckets, key, now);
    SpendAnswers(config, buckets, key, now);
    SpendKeepsTokens(config, buckets, key, now, key);
    SpendStaysSound(config, buckets, key, now);
    LevelsAreBounded(config, after, key, now);
    BurstTakes(config, after, key, now, more);
    SpendAnswers(config, Run(config, after, Burst(key, now, more)), key, now);
  }

  /** A burst takes a token a request, as long as there is one. */
  lemma {:induction false} BurstTakes(config: Config, buckets: Buckets, key: string, now: real, more: nat)
    requires Sound(config, buckets, now)
    ensures Sound(config, Run(config, buckets, Burst(key, now, more)), now)
    ensures var level := Level(config, buckets, key, now);
      var left := Level(config, Run(config, buckets, Burst(key, now, more)), key, now);
      if more as real <= level then left == level - more as real else left < 1.0
    decreases more
  {
    if more > 0 {
      var burst := Burst(key, now, more);
      assert burst[..more - 1] == Burst(key, now, more - 1);
      BurstTakes(config, buckets, key, now, more - 1);
      var earlier := Run(config, buckets, Burst(key, now, more - 1));
      SpendStaysSound(config, earlier, key, now);
      SpendAnswers(config, earlier, key, now);
      SpendKeepsTokens(config, earlier, key, now, key);
    }
  }

  function Burst(key: string, now: real, more: nat): seq<Request> {
    seq(more, _ => Request(key, now))
  }

  // --- Readings out of order --------------------------------------------

  /** The clock is read before the lock is taken, so readings may reach a bucket out of
      order. A refused attempt leaves every later level as it was exactly when its
      reading is no earlier than the bucket's. */
  lemma {:induction false} RefusalIsHarmlessIff(config: Config, bucket: Bucket, now: real)
    requires Usable(config) && config.capacity >= 1 && 0.0 <= bucket.tokens && Refilled(config, bucket, now) < 1.0
    ensures
      (forall later | later >= now && later >= bucket.at ::
         Refilled(config, Bucket(Left(Refilled(config, bucket, now)), now), later) == Refilled(config, bucket, later))
      <==> now >= bucket.at
  {
    var held := Bucket(Left(Refilled(config, bucket, now)), now);
    if now >= bucket.at {
      forall later | later >= now && later >= bucket.at
        ensures Refilled(config, held, later) == Refilled(config, bucket, later)
      {
        Accrues(config, bucket.at, now, later);
      }
    } else {
      Accrues(config, now, now, bucket.at);
      assert Accrued(config, bucket.at - now) > 0.0;
      assert Refilled(config, held, bucket.at) != Refilled(config, bucket, bucket.at);
    }
  }

  function Max(a: real, b: real): real {
    if a >= b then a else b
  }

  /** A grant at a late reading dates the bucket back, so it is refilled twice for the
      time in between: the grant takes one token from every later level exactly when
      its reading is not late. */
  lemma {:induction false} GrantTakesOneIff(config: Config, bucket: Bucket, now: real)
    requires Usable(config) && Refilled(config, bucket, now) >= 1.0
    ensures var from := Max(now, bucket.at);
      (forall later | later >= from ::
         Refilled(config, Bucket(Left(Refilled(config, bucket, now)), now), later)
         == Min(Refilled(config, bucket, from) - 1.0 + Accrued(config, later - from), config.capacity as real))
      <==> now >= bucket.at
  {
    var held := Bucket(Left(Refilled(config, bucket, now)), now);
    if now < bucket.at {
      Accrues(config, now, now, bucket.at);
      assert Refilled(config, bucket, bucket.at) == Refilled(config, bucket, now);
      assert Refilled(config, held, bucket.at) != held.tokens;
    }
  }

  /** With a late reading between them, one bucket of one token grants two requests
      at one instant. */
  lemma {:induction false} LateReadingMintsAToken()
    ensures var config, late := Config(1, 1.0), [Request("k", 10.0), Request("k", 5.0), Request("k", 10.0)];
      && Grants(config, Buckets(map[], 10.0), late, "k") == 2
      && AnswerOf(config, Buckets(map[], 10.0), late[..1]).Granted?
      && AnswerOf(config, Buckets(map[], 10.0), late).Granted?
      && late[0].now == late[2].now
  {
    var config := Config(1, 1.0);
    var late := [Request("k", 10.0), Request("k", 5.0), Request("k", 10.0)];
    var start := Buckets(map[], 10.0);
    LateSteps("k");
    hide After, Answered;
    assert late[..|late| - 1] == late[..2] && late[..2][..1] == late[..1] && late[..1][..0] == [];
    assert Run(config, start, late[..1]) == After(config, start, "k", 10.0);
    assert Run(config, start, late[..2]) == After(config, Run(config, start, late[..1]), "k", 5.0);
    assert Grants(config, start, late[..1], "k") == 1;
    assert Grants(config, start, late[..2], "k") == 1;
  }

  /** A grant at 10, a refusal at 5 and a grant at 10. */
  lemma {:induction false} LateSteps(key: string)
    ensures var config, start := Config(1, 1.0), Buckets(map[], 10.0);
      var first := After(config, start, key, 10.0);
      var second := After(config, first, key, 5.0);
      && Answered(config, start, key, 10.0).Granted?
      && Answered(config, first, key, 5.0).Refused?
      && Answered(config, second, key, 10.0).Granted?
  {
    var config, start := Config(1, 1.0), Buckets(map[], 10.0);
    assert After(config, start, key, 10.0) == Buckets(map[key := Bucket(0.0, 10.0)], 10.0);
    var first := Buckets(map[key := Bucket(0.0, 10.0)], 10.0);
    assert After(config, first, key, 5.0) == Buckets(map[key := Bucket(0.0, 5.0)], 10.0);
  }
}
