/** services/kova-gateway/src/middleware/rate_limit.rs: one Redis counter per tier,
    identifier and minute. Times are milliseconds since 1970. */
module RateLimit {
  import opened Common
  import Arithmetic
  import Decimals

  const MINUTE: nat := 60_000

  datatype Tier = Auth | Standard | Payment

  function Name(tier: Tier): string {
    match tier
    case Auth => "auth"
    case Standard => "standard"
    case Payment => "payment"
  }

  function Limit(tier: Tier): nat {
    match tier
    case Auth => 10
    case Standard => 100
    case Payment => 30
  }

  /** 60 seconds and one more. */
  const TTL: nat := 61_000

  predicate StartsWith(s: string, prefix: string) {
    prefix <= s
  }

  function TierFor(path: string): Tier {
    if StartsWith(path, "/api/v1/kova/auth/otp") then Auth
    else if StartsWith(path, "/api/v1/kova/payments") then Payment
    else Standard
  }

  function Key(tier: Tier, id: string, minute: nat): string {
    "kova:ratelimit:" + Name(tier) + ":" + id + ":" + Decimals.Digits(minute, 1)
  }

  // ---- Distinct windows have distinct keys ----------------------------------

  /** A prefix that holds no ':' is found again in front of the first ':'. */
  lemma SplitFirst(a: string, b: string, a': string, b': string)
    requires ':' !in a && ':' !in a' && a + ":" + b == a' + ":" + b'
    ensures a == a' && b == b'
  {
    var s, s' := a + ":" + b, a' + ":" + b';
    assert s[..|a|] == a && s'[..|a'|] == a';
    assert forall k :: 0 <= k < |a| ==> s[k] == a[k];
    assert forall k :: 0 <= k < |a'| ==> s'[k] == a'[k];
    assert s[|a|] == ':' && s'[|a'|] == ':';
    assert |a| <= |a'| && |a'| <= |a|;
    assert s[|a| + 1..] == b && s'[|a| + 1..] == b';
  }

  /** And a suffix that holds none behind the last one. */
  lemma SplitLast(a: string, b: string, a': string, b': string)
    requires ':' !in b && ':' !in b' && a + ":" + b == a' + ":" + b'
    ensures a == a' && b == b'
  {
    var s, s' := a + ":" + b, a' + ":" + b';
    assert s[|a| + 1..] == b && s'[|a'| + 1..] == b';
    assert forall k :: |a| < k < |s| ==> s[k] == b[k - |a| - 1];
    assert forall k :: |a'| < k < |s'| ==> s'[k] == b'[k - |a'| - 1];
    assert s[|a|] == ':' && s'[|a'|] == ':';
    assert |a| >= |a'| && |a'| >= |a|;
    assert s[..|a|] == a && s'[..|a|] == a';
  }

  lemma SameFront(front: string, a: string, b: string)
    requires front + a == front + b
    ensures a == b
  {
    assert (front + a)[|front|..] == a && (front + b)[|front|..] == b;
  }

  /** The key as text: of the tier, the identifier and the minute in decimal digits. */
  lemma KeyReads(id: string, minute: nat) returns (digits: string)
    ensures Decimals.Written(digits, minute, 0)
    ensures
      && Key(Auth, id, minute) == "kova:ratelimit:auth:" + id + ":" + digits
      && Key(Payment, id, minute) == "kova:ratelimit:payment:" + id + ":" + digits
      && Key(Standard, id, minute) == "kova:ratelimit:standard:" + id + ":" + digits
  {
    digits := Decimals.Digits(minute, 1);
    Decimals.DigitsAreWritten(minute);
    KeyIs(Auth, id, minute, "kova:ratelimit:auth:");
    KeyIs(Payment, id, minute, "kova:ratelimit:payment:");
    KeyIs(Standard, id, minute, "kova:ratelimit:standard:");
  }

  lemma KeyIs(tier: Tier, id: string, minute: nat, front: string)
    requires front == "kova:ratelimit:" + Name(tier) + ":"
    ensures Key(tier, id, minute) == front + id + ":" + Decimals.Digits(minute, 1)
  {
  }

  function Tail(id: string, minute: nat): string {
    id + ":" + Decimals.Digits(minute, 1)
  }

  lemma KeyParts(tier: Tier, id: string, minute: nat)
    ensures Key(tier, id, minute) == "kova:ratelimit:" + (Name(tier) + ":" + Tail(id, minute))
  {
  }

  lemma TailInjective(id: string, minute: nat, id': string, minute': nat)
    requires Tail(id, minute) == Tail(id', minute')
    ensures id == id' && minute == minute'
  {
    Decimals.DigitsRoundTrip(minute, 1);
    Decimals.DigitsRoundTrip(minute', 1);
    SplitLast(id, Decimals.Digits(minute, 1), id', Decimals.Digits(minute', 1));
  }

  lemma NameInjective(tier: Tier, tier': Tier)
    requires Name(tier) == Name(tier')
    ensures tier == tier'
  {
    assert |Name(Auth)| == 4 && |Name(Standard)| == 8 && |Name(Payment)| == 7;
  }

  /** Whatever characters an identifier holds, ':' included, two different windows never
      share a counter. */
  lemma KeyInjective(tier: Tier, id: string, minute: nat, tier': Tier, id': string, minute': nat)
    requires Key(tier, id, minute) == Key(tier', id', minute')
    ensures tier == tier' && id == id' && minute == minute'
  {
    KeyParts(tier, id, minute);
    KeyParts(tier', id', minute');
    SameFront("kova:ratelimit:", Name(tier) + ":" + Tail(id, minute), Name(tier') + ":" + Tail(id', minute'));
    SplitFirst(Name(tier), Tail(id, minute), Name(tier'), Tail(id', minute'));
    NameInjective(tier, tier');
    TailInjective(id, minute, id', minute');
  }

  // ---- The script -----------------------------------------------------------

  datatype Counter = Counter(count: nat, expiresAt: nat)

  type Store = map<string, Counter>

  /** A key is gone once the clock is past its expiry. */
  predicate Alive(store: Store, key: string, now: nat) {
    key in store && now <= store[key].expiresAt
  }

  /** What INCR returns. */
  function Incremented(store: Store, key: string, now: nat): (count: nat)
    ensures count != 1 ==> Alive(store, key, now)
  {
    if Alive(store, key, now) then store[key].count + 1 else 1
  }

  /** INCR, which leaves the expiry of a key as it is, and EXPIRE if it returned 1. */
  function RunScript(store: Store, key: string, now: nat): Store {
    var count := Incremented(store, key, now);
    store[key := Counter(count, if count == 1 then now + TTL else store[key].expiresAt)]
  }

  predicate Allowed(store: Store, key: string, limit: nat, now: nat) {
    Incremented(store, key, now) <= limit
  }

  // ---- Runs -----------------------------------------------------------------

  /** One counted request: when its key was built, and when the script ran. */
  datatype Hit = Hit(tier: Tier, id: string, keyedAt: nat, runAt: nat)

  /** What a counter counts for. */
  datatype Bucket = Bucket(tier: Tier, id: string, minute: nat)

  function BucketOf(h: Hit): Bucket {
    Bucket(h.tier, h.id, h.keyedAt / MINUTE)
  }

  function KeyFor(b: Bucket): string {
    Key(b.tier, b.id, b.minute)
  }

  lemma KeyForInjective(b: Bucket, b': Bucket)
    requires KeyFor(b) == KeyFor(b')
    ensures b == b'
  {
    KeyInjective(b.tier, b.id, b.minute, b'.tier, b'.id, b'.minute);
  }

  function StoreAt(hits: seq<Hit>, i: nat): Store
    requires i <= |hits|
  {
    if i == 0 then map[] else RunScript(StoreAt(hits, i - 1), KeyFor(BucketOf(hits[i - 1])), hits[i - 1].runAt)
  }

  predicate AdmittedAt(hits: seq<Hit>, i: nat)
    requires i < |hits|
  {
    Allowed(StoreAt(hits, i), KeyFor(BucketOf(hits[i])), Limit(hits[i].tier), hits[i].runAt)
  }

  /** How many of the first n requests belong to a bucket, and how many of those got in. */
  function Calls(hits: seq<Hit>, n: nat, b: Bucket): nat
    requires n <= |hits|
  {
    if n == 0 then 0 else Calls(hits, n - 1, b) + (if BucketOf(hits[n - 1]) == b then 1 else 0)
  }

  function Admitted(hits: seq<Hit>, n: nat, b: Bucket): nat
    requires n <= |hits|
  {
    if n == 0 then 0
    else Admitted(hits, n - 1, b) + (if BucketOf(hits[n - 1]) == b && AdmittedAt(hits, n - 1) then 1 else 0)
  }

  // ---- What a counter holds -------------------------------------------------

  /** The call a bucket's counter was last started by: the first one, or one whose script
      ran more than 61 seconds after the start before it. */
  function Start(hits: seq<Hit>, n: nat, b: Bucket): (s: Option<nat>)
    requires n <= |hits|
    ensures s.Some? ==> s.value < n && BucketOf(hits[s.value]) == b
  {
    if n == 0 then None
    else
      var s := Start(hits, n - 1, b);
      if BucketOf(hits[n - 1]) == b && (s.None? || hits[n - 1].runAt > hits[s.value].runAt + TTL) then Some(n - 1)
      else s
  }

  function SinceStart(hits: seq<Hit>, n: nat, b: Bucket): int
    requires n <= |hits|
  {
    match Start(hits, n, b)
    case None => 0
    case Some(s) => Calls(hits, n, b) - Calls(hits, s, b)
  }

  /** Whenever the scripts run, a counter holds the number of its bucket's calls since it
      was started: no other bucket touches it. */
  lemma {:induction false} CounterSinceStart(hits: seq<Hit>, n: nat, b: Bucket)
    requires n <= |hits|
    ensures match Start(hits, n, b)
            case None => Calls(hits, n, b) == 0 && KeyFor(b) !in StoreAt(hits, n)
            case Some(s) =>
              && KeyFor(b) in StoreAt(hits, n) && SinceStart(hits, n, b) >= 1
              && StoreAt(hits, n)[KeyFor(b)] == Counter(SinceStart(hits, n, b), hits[s].runAt + TTL)
  {
    if n > 0 {
      CounterSinceStart(hits, n - 1, b);
      if KeyFor(BucketOf(hits[n - 1])) == KeyFor(b) {
        KeyForInjective(BucketOf(hits[n - 1]), b);
      }
    }
  }

  /** Every script of a bucket runs at most 61 seconds after the bucket's first one. */
  ghost predicate InTime(hits: seq<Hit>, n: nat, b: Bucket)
    requires n <= |hits|
  {
    forall i, j :: 0 <= i < j < n && BucketOf(hits[i]) == b && BucketOf(hits[j]) == b && Calls(hits, i, b) == 0 ==>
      hits[j].runAt <= hits[i].runAt + 61_000
  }

  lemma {:induction false} CallsGrow(hits: seq<Hit>, i: nat, j: nat, b: Bucket)
    requires i < j <= |hits| && BucketOf(hits[i]) == b
    ensures Calls(hits, i, b) < Calls(hits, j, b)
    decreases j
  {
    if i < j - 1 {
      CallsGrow(hits, i, j - 1, b);
    }
  }

  lemma OnlyFirst(hits: seq<Hit>, i: nat, j: nat, b: Bucket)
    requires i < |hits| && j < |hits| && BucketOf(hits[i]) == b && BucketOf(hits[j]) == b
    requires Calls(hits, i, b) == 0 && Calls(hits, j, b) == 0
    ensures i == j
  {
    if i < j {
      CallsGrow(hits, i, j, b);
    } else if j < i {
      CallsGrow(hits, j, i, b);
    }
  }

  /** Then the counter was started by the first call. */
  lemma {:induction false} InTimeStartsOnce(hits: seq<Hit>, n: nat, b: Bucket)
    requires n <= |hits| && InTime(hits, n, b)
    ensures SinceStart(hits, n, b) == Calls(hits, n, b)
    ensures var s := Start(hits, n, b); s.Some? ==> Calls(hits, s.value, b) == 0
  {
    if n > 0 {
      InTimeStartsOnce(hits, n - 1, b);
      CounterSinceStart(hits, n - 1, b);
    }
  }

  /** Otherwise it was started again at some point, and misses the calls before. */
  lemma LateStartsAgain(hits: seq<Hit>, i: nat, j: nat, b: Bucket) returns (k: nat)
    requires i < j < |hits| && BucketOf(hits[i]) == b && BucketOf(hits[j]) == b && Calls(hits, i, b) == 0
    requires hits[j].runAt > hits[i].runAt + TTL
    ensures k <= j + 1 && SinceStart(hits, k, b) < Calls(hits, k, b)
  {
    CallsGrow(hits, i, j, b);
    CounterSinceStart(hits, j, b);
    var s := Start(hits, j, b).value;
    if Calls(hits, s, b) > 0 {
      k := j;
    } else {
      OnlyFirst(hits, i, s, b);
      k := j + 1;
    }
  }

  /** The counter of a bucket, as far as it is there, counts all the bucket's calls. */
  ghost predicate Counted(hits: seq<Hit>, n: nat, b: Bucket)
    requires n <= |hits|
  {
    if Calls(hits, n, b) == 0 then KeyFor(b) !in StoreAt(hits, n)
    else KeyFor(b) in StoreAt(hits, n) && StoreAt(hits, n)[KeyFor(b)].count == Calls(hits, n, b)
  }

  /** The 61 seconds never drop a counter that is still in use exactly if no script of the
      bucket runs later than that after its first one. */
  lemma CountedIffInTime(hits: seq<Hit>, n: nat, b: Bucket)
    requires n <= |hits|
    ensures (forall k: nat :: k <= n ==> Counted(hits, k, b)) <==> InTime(hits, n, b)
  {
    if InTime(hits, n, b) {
      forall k: nat | k <= n
        ensures Counted(hits, k, b)
      {
        InTimeStartsOnce(hits, k, b);
        CounterSinceStart(hits, k, b);
      }
    } else {
      var i: nat, j: nat :| i < j < n && BucketOf(hits[i]) == b && BucketOf(hits[j]) == b
        && Calls(hits, i, b) == 0 && hits[j].runAt > hits[i].runAt + TTL;
      var k := LateStartsAgain(hits, i, j, b);
      CounterSinceStart(hits, k, b);
      assert !Counted(hits, k, b);
    }
  }

  /** A request whose bucket is in time gets in exactly if fewer than its tier's limit came
      before it in the bucket. */
  lemma AdmittedIffBelowLimit(hits: seq<Hit>, i: nat)
    requires i < |hits| && InTime(hits, i + 1, BucketOf(hits[i]))
    ensures AdmittedAt(hits, i) <==> Calls(hits, i, BucketOf(hits[i])) < Limit(hits[i].tier)
  {
    var b := BucketOf(hits[i]);
    CounterSinceStart(hits, i, b);
    InTimeStartsOnce(hits, i, b);
  }

  function Min(a: nat, b: nat): nat {
    if a < b then a else b
  }

  /** So a bucket in time admits exactly the smaller of its calls and the limit. */
  lemma {:induction false} WindowAdmitsUpToLimit(hits: seq<Hit>, n: nat, b: Bucket)
    requires n <= |hits| && InTime(hits, n, b)
    ensures Admitted(hits, n, b) == Min(Calls(hits, n, b), Limit(b.tier))
  {
    if n > 0 {
      WindowAdmitsUpToLimit(hits, n - 1, b);
      if BucketOf(hits[n - 1]) == b {
        AdmittedIffBelowLimit(hits, n - 1);
      }
    }
  }

  // ---- Any sixty seconds ----------------------------------------------------

  /** A run in the order of its scripts, each of which runs after its key was built and
      less than `slack` milliseconds past the minute it counts for. With no slack, key and
      script share the minute. */
  ghost predicate Prompt(hits: seq<Hit>, slack: nat) {
    && (forall i :: 0 <= i < |hits| ==>
          hits[i].keyedAt <= hits[i].runAt < (hits[i].keyedAt / 60_000 + 1) * 60_000 + slack)
    && (forall i, j :: 0 <= i < j < |hits| ==> hits[i].runAt <= hits[j].runAt)
  }

  /** The second by which the expiry exceeds the minute is the slack it tolerates. */
  lemma PromptIsInTime(hits: seq<Hit>, slack: nat, b: Bucket)
    requires Prompt(hits, slack) && slack <= 1001
    ensures InTime(hits, |hits|, b)
  {
    forall i, j | 0 <= i < j < |hits| && BucketOf(hits[i]) == b && BucketOf(hits[j]) == b
      ensures hits[j].runAt <= hits[i].runAt + TTL
    {
      assert hits[i].keyedAt >= b.minute * MINUTE;
    }
  }

  /** Admitted means that the script ran, so that is when a request counts. */
  predicate Within(h: Hit, tier: Tier, id: string, from: nat) {
    h.tier == tier && h.id == id && from <= h.runAt < from + 60_000
  }

  function AdmittedWithin(hits: seq<Hit>, n: nat, tier: Tier, id: string, from: nat): nat
    requires n <= |hits|
  {
    if n == 0 then 0
    else
      AdmittedWithin(hits, n - 1, tier, id, from)
      + (if Within(hits[n - 1], tier, id, from) && AdmittedAt(hits, n - 1) then 1 else 0)
  }

  /** Whether scripts of the minute before the one `from` lies in can still run, and
      whether the sixty seconds reach into the minute after it. */
  predicate Before(from: nat, slack: nat) {
    from >= 60_000 && from % 60_000 < slack
  }

  predicate After(from: nat) {
    from % 60_000 > 0
  }

  /** The buckets whose scripts can run in the sixty seconds. */
  function Touched(from: nat, slack: nat): (k: nat)
    ensures 1 <= k <= 3 && (slack == 0 ==> k <= 2)
  {
    (if Before(from, slack) then 1 else 0) + 1 + (if After(from) then 1 else 0)
  }

  function AdmittedBefore(hits: seq<Hit>, n: nat, tier: Tier, id: string, from: nat, slack: nat): nat
    requires n <= |hits|
  {
    if Before(from, slack) then Admitted(hits, n, Bucket(tier, id, from / MINUTE - 1)) else 0
  }

  function AdmittedAfter(hits: seq<Hit>, n: nat, tier: Tier, id: string, from: nat): nat
    requires n <= |hits|
  {
    if After(from) then Admitted(hits, n, Bucket(tier, id, from / MINUTE + 1)) else 0
  }

  /** The bucket of a prompt call that counts in the sixty seconds. */
  lemma BucketWithin(h: Hit, tier: Tier, id: string, from: nat, slack: nat)
    requires h.keyedAt <= h.runAt < (h.keyedAt / MINUTE + 1) * MINUTE + slack && slack <= 1001
    requires Within(h, tier, id, from)
    ensures || BucketOf(h) == Bucket(tier, id, from / MINUTE)
            || (Before(from, slack) && BucketOf(h) == Bucket(tier, id, from / MINUTE - 1))
            || (After(from) && BucketOf(h) == Bucket(tier, id, from / MINUTE + 1))
  {
  }

  function AdmittedTouched(hits: seq<Hit>, n: nat, tier: Tier, id: string, from: nat, slack: nat): nat
    requires n <= |hits|
  {
    AdmittedBefore(hits, n, tier, id, from, slack) + Admitted(hits, n, Bucket(tier, id, from / MINUTE))
    + AdmittedAfter(hits, n, tier, id, from)
  }

  lemma TouchedStep(hits: seq<Hit>, n: nat, tier: Tier, id: string, from: nat, slack: nat)
    requires 0 < n <= |hits| && Prompt(hits, slack) && slack <= 1001
    ensures var before := AdmittedTouched(hits, n - 1, tier, id, from, slack);
      var more := AdmittedTouched(hits, n, tier, id, from, slack) - before;
      && more >= 0
      && (Within(hits[n - 1], tier, id, from) ==> more == if AdmittedAt(hits, n - 1) then 1 else 0)
  {
    if Within(hits[n - 1], tier, id, from) {
      BucketWithin(hits[n - 1], tier, id, from, slack);
    }
  }

  /** What the sixty seconds admit comes from those buckets, and is all they admit if the
      run lies within the sixty seconds. */
  lemma {:induction false} WithinTouched(hits: seq<Hit>, n: nat, tier: Tier, id: string, from: nat, slack: nat)
    requires n <= |hits| && Prompt(hits, slack) && slack <= 1001
    ensures AdmittedWithin(hits, n, tier, id, from) <= AdmittedTouched(hits, n, tier, id, from, slack)
    ensures (forall i :: 0 <= i < n ==> Within(hits[i], tier, id, from)) ==>
      AdmittedWithin(hits, n, tier, id, from) == AdmittedTouched(hits, n, tier, id, from, slack)
  {
    if n > 0 {
      WithinTouched(hits, n - 1, tier, id, from, slack);
      TouchedStep(hits, n, tier, id, from, slack);
    }
  }

  lemma BucketBound(hits: seq<Hit>, slack: nat, b: Bucket)
    requires Prompt(hits, slack) && slack <= 1001
    ensures Admitted(hits, |hits|, b) == Min(Calls(hits, |hits|, b), Limit(b.tier))
  {
    PromptIsInTime(hits, slack, b);
    WindowAdmitsUpToLimit(hits, |hits|, b);
  }

  /** Any sixty seconds admit at most the limit for each bucket they touch: twice the limit
      if keys and scripts share the minute, three times if scripts may come late. */
  lemma SixtySecondBound(hits: seq<Hit>, tier: Tier, id: string, from: nat, slack: nat)
    requires Prompt(hits, slack) && slack <= 1001
    ensures AdmittedWithin(hits, |hits|, tier, id, from) <= Touched(from, slack) * Limit(tier)
  {
    WithinTouched(hits, |hits|, tier, id, from, slack);
    BucketBound(hits, slack, Bucket(tier, id, from / MINUTE));
    BucketBound(hits, slack, Bucket(tier, id, from / MINUTE + 1));
    if Before(from, slack) {
      BucketBound(hits, slack, Bucket(tier, id, from / MINUTE - 1));
    }
  }

  // ---- The bound is met -----------------------------------------------------

  function Repeat(h: Hit, n: nat): (hits: seq<Hit>)
    ensures |hits| == n && forall i :: 0 <= i < n ==> hits[i] == h
  {
    if n == 0 then [] else Repeat(h, n - 1) + [h]
  }

  lemma {:induction false} CallsRepeat(hits: seq<Hit>, h: Hit, n: nat, b: Bucket)
    ensures var hits' := hits + Repeat(h, n);
      Calls(hits', |hits'|, b) == Calls(hits, |hits|, b) + (if BucketOf(h) == b then n else 0)
  {
    if n == 0 {
      assert hits + Repeat(h, n) == hits;
    } else {
      var before := hits + Repeat(h, n - 1);
      assert hits + Repeat(h, n) == before + [h];
      CallsRepeat(hits, h, n - 1, b);
      SameCalls(before, before + [h], |before|, b);
    }
  }

  lemma {:induction false} SameCalls(hits: seq<Hit>, hits': seq<Hit>, n: nat, b: Bucket)
    requires n <= |hits| && hits <= hits'
    ensures Calls(hits', n, b) == Calls(hits, n, b)
  {
    if n > 0 {
      SameCalls(hits, hits', n - 1, b);
    }
  }

  /** As many calls as the limit for each bucket that can be touched: late ones of the
      minute before, ones at the start, and ones at the first moment of the next minute. */
  function Burst(tier: Tier, id: string, from: nat, slack: nat): seq<Hit> {
    var q := from / MINUTE;
    Repeat(Hit(tier, id, if q > 0 then q * MINUTE - 1 else 0, from), if Before(from, slack) then Limit(tier) else 0)
    + Repeat(Hit(tier, id, from, from), Limit(tier))
    + Repeat(Hit(tier, id, (q + 1) * MINUTE, (q + 1) * MINUTE), if After(from) then Limit(tier) else 0)
  }

  lemma BurstIsPrompt(tier: Tier, id: string, from: nat, slack: nat)
    ensures var hits := Burst(tier, id, from, slack);
      Prompt(hits, slack) && forall i :: 0 <= i < |hits| ==> Within(hits[i], tier, id, from)
  {
    var q, hits := from / MINUTE, Burst(tier, id, from, slack);
    Arithmetic.QuotientUnique((q + 1) * MINUTE, MINUTE, q + 1, 0);
    if q > 0 {
      Arithmetic.QuotientUnique(q * MINUTE - 1, MINUTE, q - 1, MINUTE - 1);
    }
    forall i | 0 <= i < |hits|
      ensures Within(hits[i], tier, id, from)
      ensures hits[i].keyedAt <= hits[i].runAt < (hits[i].keyedAt / MINUTE + 1) * MINUTE + slack
    {
    }
  }

  lemma ThreeBlocks(h0: Hit, n0: nat, h1: Hit, n1: nat, h2: Hit, n2: nat, b: Bucket)
    ensures var hits := Repeat(h0, n0) + Repeat(h1, n1) + Repeat(h2, n2);
      Calls(hits, |hits|, b)
      == (if BucketOf(h0) == b then n0 else 0) + (if BucketOf(h1) == b then n1 else 0)
         + (if BucketOf(h2) == b then n2 else 0)
  {
    var one := Repeat(h0, n0);
    assert [] + one == one;
    CallsRepeat([], h0, n0, b);
    CallsRepeat(one, h1, n1, b);
    CallsRepeat(one + Repeat(h1, n1), h2, n2, b);
  }

  lemma BurstCalls(tier: Tier, id: string, from: nat, slack: nat, b: Bucket)
    requires b.tier == tier && b.id == id
    requires || b.minute == from / MINUTE
             || (Before(from, slack) && b.minute == from / MINUTE - 1)
             || (After(from) && b.minute == from / MINUTE + 1)
    ensures var hits := Burst(tier, id, from, slack);
      Calls(hits, |hits|, b) == Limit(tier)
  {
    var q := from / MINUTE;
    Arithmetic.QuotientUnique((q + 1) * MINUTE, MINUTE, q + 1, 0);
    if q > 0 {
      Arithmetic.QuotientUnique(q * MINUTE - 1, MINUTE, q - 1, MINUTE - 1);
    }
    ThreeBlocks(Hit(tier, id, if q > 0 then q * MINUTE - 1 else 0, from),
                if Before(from, slack) then Limit(tier) else 0,
                Hit(tier, id, from, from), Limit(tier),
                Hit(tier, id, (q + 1) * MINUTE, (q + 1) * MINUTE), if After(from) then Limit(tier) else 0, b);
  }

  lemma BurstAdmitted(tier: Tier, id: string, from: nat, slack: nat)
    requires slack <= 1001
    ensures var hits := Burst(tier, id, from, slack);
      AdmittedWithin(hits, |hits|, tier, id, from) == Touched(from, slack) * Limit(tier)
  {
    var hits := Burst(tier, id, from, slack);
    BurstIsPrompt(tier, id, from, slack);
    WithinTouched(hits, |hits|, tier, id, from, slack);
    BurstBucket(tier, id, from, slack, Bucket(tier, id, from / MINUTE));
    if Before(from, slack) {
      BurstBucket(tier, id, from, slack, Bucket(tier, id, from / MINUTE - 1));
    }
    if After(from) {
      BurstBucket(tier, id, from, slack, Bucket(tier, id, from / MINUTE + 1));
    }
  }

  lemma BurstBucket(tier: Tier, id: string, from: nat, slack: nat, b: Bucket)
    requires slack <= 1001 && b.tier == tier && b.id == id
    requires || b.minute == from / MINUTE
             || (Before(from, slack) && b.minute == from / MINUTE - 1)
             || (After(from) && b.minute == from / MINUTE + 1)
    ensures var hits := Burst(tier, id, from, slack);
      Admitted(hits, |hits|, b) == Limit(tier)
  {
    BurstIsPrompt(tier, id, from, slack);
    BurstCalls(tier, id, from, slack, b);
    BucketBound(Burst(tier, id, from, slack), slack, b);
  }

  /** No run admits more than `most` in the sixty seconds from a start. */
  ghost predicate AtMost(tier: Tier, id: string, from: nat, slack: nat, most: int) {
    forall hits: seq<Hit> :: Prompt(hits, slack) ==> AdmittedWithin(hits, |hits|, tier, id, from) <= most
  }

  /** What all runs admit in the sixty seconds from a start is exactly the limit for each
      bucket touched: k times the limit is a bound if and only if k is at least that. */
  lemma SixtySecondsExactly(tier: Tier, id: string, from: nat, slack: nat, k: nat)
    requires slack <= 1001
    ensures AtMost(tier, id, from, slack, k * Limit(tier)) <==> k >= Touched(from, slack)
  {
    if k >= Touched(from, slack) {
      forall hits: seq<Hit> | Prompt(hits, slack)
        ensures AdmittedWithin(hits, |hits|, tier, id, from) <= k * Limit(tier)
      {
        SixtySecondBound(hits, tier, id, from, slack);
        Arithmetic.MulStep(Touched(from, slack), k, Limit(tier));
      }
    } else {
      var hits := Burst(tier, id, from, slack);
      BurstIsPrompt(tier, id, from, slack);
      BurstAdmitted(tier, id, from, slack);
      Arithmetic.MulStep(k, Touched(from, slack), Limit(tier));
      assert Prompt(hits, slack) && AdmittedWithin(hits, |hits|, tier, id, from) > k * Limit(tier);
    }
  }

  lemma TouchedOnce(from: nat, slack: nat)
    ensures Touched(from, slack) <= 1 <==> if slack == 0 then from % 60_000 == 0 else from == 0
  {
  }

  /** The limiter is called a sliding window, which would bound any sixty seconds by the
      limit. Where keys and scripts share the minute it does so exactly for the sixty
      seconds that start on a full minute; where scripts may run any time past their minute
      it does so for no start after 1970. */
  lemma SlidesOnlyOnFullMinutes(tier: Tier, id: string, from: nat, slack: nat)
    requires slack <= 1001
    ensures AtMost(tier, id, from, slack, Limit(tier)) <==> if slack == 0 then from % 60_000 == 0 else from == 0
  {
    TouchedOnce(from, slack);
    var k, limit := 1, Limit(tier);
    assert k * limit == limit;
    SixtySecondsExactly(tier, id, from, slack, k);
  }

  /** A script that runs any later than the slack may find its counter expired, and starts
      counting again. */
  lemma LateScriptStartsOver(tier: Tier, id: string, minute: nat)
    ensures var now := minute * 60_000;
      var hits := Repeat(Hit(tier, id, now, now), Limit(tier)) + [Hit(tier, id, now, now + 61_001)];
      && Calls(hits, Limit(tier), Bucket(tier, id, minute)) == Limit(tier) && AdmittedAt(hits, Limit(tier))
      && Prompt(hits, 1002)
  {
    var now, b, n := minute * MINUTE, Bucket(tier, id, minute), Limit(tier);
    var h := Hit(tier, id, now, now);
    var hits := Repeat(h, n) + [Hit(tier, id, now, now + 61_001)];
    Arithmetic.QuotientUnique(now, MINUTE, minute, 0);
    SameCalls(Repeat(h, n), hits, n, b);
    CallsRepeat([], h, n, b);
    assert [] + Repeat(h, n) == Repeat(h, n);
    StartedBy(hits, n, b, h);
    LateIsPrompt(hits, n, minute);
  }

  lemma LateIsPrompt(hits: seq<Hit>, n: nat, minute: nat)
    requires |hits| == n + 1
    requires forall i :: 0 <= i < n ==> hits[i].keyedAt == hits[i].runAt == minute * MINUTE
    requires hits[n].keyedAt == minute * MINUTE && hits[n].runAt == minute * MINUTE + 61_001
    ensures Prompt(hits, 1002)
  {
    Arithmetic.QuotientUnique(minute * MINUTE, MINUTE, minute, 0);
  }

  lemma StartedBy(hits: seq<Hit>, n: nat, b: Bucket, h: Hit)
    requires 0 < n < |hits| && Calls(hits, n, b) > 0 && (forall i :: 0 <= i < n ==> hits[i] == h)
    requires BucketOf(hits[n]) == b && hits[n].runAt > h.runAt + TTL
    ensures AdmittedAt(hits, n)
  {
    CounterSinceStart(hits, n, b);
    assert hits[Start(hits, n, b).value] == h;
  }

  // ---- The middleware -------------------------------------------------------

  /** Seconds until the next minute. */
  function RetryAfter(nowSecs: nat): (r: nat)
    ensures 1 <= r <= 60
    ensures (nowSecs + r) % 60 == 0 && (nowSecs + r) / 60 == nowSecs / 60 + 1
  {
    60 - nowSecs % 60
  }

  datatype Redis = Available | FailsBefore | FailsAfter

  datatype Answer = Inner | TooManyRequests(retryAfter: nat)

  const HEALTH: string := "/api/v1/kova/health"

  class Gateway {
    var counters: Store
    ghost var hits: seq<Hit>

    ghost predicate Valid()
      reads this
    {
      counters == StoreAt(hits, |hits|)
    }

    constructor ()
      ensures Valid() && hits == []
    {
      counters, hits := map[], [];
    }

    /** INCR, and EXPIRE if it returned 1. */
    method Increment(key: string, now: nat) returns (count: nat)
      modifies this`counters
      ensures counters == RunScript(old(counters), key, now) && count == Incremented(old(counters), key, now)
    {
      count := 1;
      var expiresAt := now + TTL;
      if Alive(counters, key, now) {
        count, expiresAt := counters[key].count + 1, counters[key].expiresAt;
      }
      if count == 1 {
        expiresAt := now + TTL;
      }
      counters := counters[key := Counter(count, expiresAt)];
    }

    /** The script, run atomically by Redis. */
    method Script(key: string, limit: nat, now: nat, ghost h: Hit) returns (allowed: int)
      requires Valid() && key == KeyFor(BucketOf(h)) && now == h.runAt && limit == Limit(h.tier)
      modifies this
      ensures Valid() && hits == old(hits) + [h]
      ensures allowed == if SinceStart(hits, |hits|, BucketOf(h)) <= Limit(h.tier) then 1 else 0
    {
      var count := Increment(key, now);
      Recorded(hits, hits + [h], h);
      hits := hits + [h];
      assert Valid() && count == SinceStart(hits, |hits|, BucketOf(h));
      if count > limit {
        return 0;
      }
      return 1;
    }

    /** call: `user` is the authenticated user if there is one, `ip` the client address. A
        request is turned away exactly if Redis answered and its counter had reached the
        limit, which is to say that its bucket had if the bucket is in time; it is then told
        when the next minute starts. */
    method Call(path: string, user: Option<string>, ip: string, keyedAt: nat, runAt: nat, answeredAt: nat, redis: Redis)
        returns (answer: Answer)
      requires Valid()
      modifies this
      ensures Valid()
      ensures var otp := "/api/v1/kova/auth/otp" <= path;
        var payment := !otp && "/api/v1/kova/payments" <= path;
        var limit := if otp then 10 else if payment then 30 else 100;
        var h := Hit(if otp then Auth else if payment then Payment else Standard,
                     if otp || user.None? then ip else user.value, keyedAt, runAt);
        && hits == (if path == "/api/v1/kova/health" || redis.FailsBefore? then old(hits) else old(hits) + [h])
        && (answer.TooManyRequests? <==>
              && path != "/api/v1/kova/health" && redis.Available?
              && SinceStart(hits, |hits|, BucketOf(h)) > limit)
        && (answer.TooManyRequests? ==> answer.retryAfter == RetryAfter(answeredAt / 1000))
        && (path != "/api/v1/kova/health" && redis.Available? && InTime(hits, |hits|, BucketOf(h)) ==>
              (answer.TooManyRequests? <==> Calls(old(hits), |old(hits)|, BucketOf(h)) >= limit))
    {
      var tier := TierFor(path);
      if path == HEALTH {
        return Inner;
      }
      var id := ip;
      if tier != Auth && user.Some? {
        id := user.value;
      }
      var key := Key(tier, id, keyedAt / MINUTE);
      var allowed := 1;
      if !redis.FailsBefore? {
        allowed := Script(key, Limit(tier), runAt, Hit(tier, id, keyedAt, runAt));
        InTimeCalls(old(hits), hits, Hit(tier, id, keyedAt, runAt));
        if redis.FailsAfter? {
          allowed := 1;
        }
      }
      if allowed == 0 {
        return TooManyRequests(60 - answeredAt / 1000 % 60);
      }
      return Inner;
    }
  }

  lemma {:induction false} SameStore(hits: seq<Hit>, hits': seq<Hit>, n: nat)
    requires n <= |hits| && hits <= hits'
    ensures StoreAt(hits', n) == StoreAt(hits, n)
  {
    if n > 0 {
      SameStore(hits, hits', n - 1);
    }
  }

  lemma Recorded(hits: seq<Hit>, hits': seq<Hit>, h: Hit)
    requires hits' == hits + [h]
    ensures var b := BucketOf(h);
      && StoreAt(hits', |hits'|) == RunScript(StoreAt(hits, |hits|), KeyFor(b), h.runAt)
      && Incremented(StoreAt(hits, |hits|), KeyFor(b), h.runAt) == SinceStart(hits', |hits'|, b)
  {
    SameStore(hits, hits', |hits|);
    LastHit(hits', h);
  }

  lemma LastHit(hits: seq<Hit>, h: Hit)
    requires |hits| > 0 && hits[|hits| - 1] == h
    ensures var b, store := BucketOf(h), StoreAt(hits, |hits| - 1);
      && StoreAt(hits, |hits|) == RunScript(store, KeyFor(b), h.runAt)
      && Incremented(store, KeyFor(b), h.runAt) == SinceStart(hits, |hits|, b)
  {
    CounterSinceStart(hits, |hits|, BucketOf(h));
  }

  lemma InTimeCalls(hits: seq<Hit>, hits': seq<Hit>, h: Hit)
    requires hits' == hits + [h]
    ensures InTime(hits', |hits'|, BucketOf(h)) ==>
      SinceStart(hits', |hits'|, BucketOf(h)) == Calls(hits, |hits|, BucketOf(h)) + 1
  {
    SameCalls(hits, hits', |hits|, BucketOf(h));
    if InTime(hits', |hits'|, BucketOf(h)) {
      InTimeStartsOnce(hits', |hits'|, BucketOf(h));
    }
  }
}
