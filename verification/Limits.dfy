// src/server/limits.rs: a token bucket per key. Time is in seconds and arithmetic is exact.
module Limits {

  datatype Bucket = Bucket(tokens: real, at: real)

  type Buckets = map<string, Bucket>

  datatype Request = Request(key: string, at: real)

  const PRUNE_ABOVE := 100_000

  const IDLE_SECONDS := 120.0

  function Min(x: real, y: real): real { if x <= y then x else y }

  /** The bucket of a key with what it has gained since it was last counted; a new one is full. */
  function Refilled(rate: real, buckets: Buckets, key: string, now: real): real {
    if key in buckets then Min(buckets[key].tokens + (now - buckets[key].at) * rate / 60.0, rate) else rate
  }

  /** Take one request, without pruning. */
  function Take(rate: real, buckets: Buckets, key: string, now: real): (Buckets, bool) {
    var tokens := Refilled(rate, buckets, key, now);
    if tokens >= 1.0 then (buckets[key := Bucket(tokens - 1.0, now)], true)
        else (buckets[key := Bucket(tokens, now)], false)
  }

  function Prune(buckets: Buckets, now: real): Buckets {
    if |buckets| > PRUNE_ABOVE then map key | key in buckets && now - buckets[key].at < IDLE_SECONDS :: buckets[key]
        else buckets
  }

  // ---------------------------------------------------------------- runs

  predicate IsRun(log: seq<Request>) {
    forall i, j :: 0 <= i < j < |log| ==> log[i].at <= log[j].at
  }

  /** The buckets after the first n requests of a run, with or without pruning. */
  function After(rate: real, log: seq<Request>, n: nat, pruning: bool): Buckets
    requires n <= |log|
    decreases n, 0
  {
    if n == 0 then map[] else Take(rate, Before(rate, log, n - 1, pruning), log[n - 1].key, log[n - 1].at).0
  }

  /** The buckets request n sees. */
  function Before(rate: real, log: seq<Request>, n: nat, pruning: bool): Buckets
    requires n < |log|
    decreases n, 1
  {
    if pruning then Prune(After(rate, log, n, pruning), log[n].at) else After(rate, log, n, pruning)
  }

  /** Whether request n is allowed. */
  predicate Allowed(rate: real, log: seq<Request>, n: nat, pruning: bool)
    requires n < |log|
  {
    Take(rate, Before(rate, log, n, pruning), log[n].key, log[n].at).1
  }

  /** The limiter of one server. Its log is only for the specification. */
  class Limiter {
    const perMinute: real
    var buckets: Buckets
    ghost var log: seq<Request>

    ghost predicate Valid()
      reads this
    {
      IsRun(log) && buckets == After(perMinute, log, |log|, true)
    }

    constructor (perMinute: real)
      ensures Valid() && this.perMinute == perMinute && log == []
    {
      this.perMinute, buckets, log := perMinute, map[], [];
    }

    /** Count a key's tokens and take one. */
    method TakeOne(key: string, now: real) returns (allowed: bool)
      modifies this`buckets
      ensures (buckets, allowed) == Take(perMinute, old(buckets), key, now)
    {
      ghost var sees := buckets;
      ghost var entry := if key in buckets then buckets[key] else Bucket(perMinute, now);
      NewBucketIsFull(perMinute, buckets, key, now);
      hide Refilled, Min;
      if key !in buckets { buckets := buckets[key := Bucket(perMinute, now)]; }
      SameGain(buckets[key], entry, perMinute, now);
      var refill := (now - buckets[key].at) * perMinute / 60.0;
      var tokens := Min(buckets[key].tokens + refill, perMinute);
      assert tokens == Refilled(perMinute, sees, key, now);
      allowed := tokens >= 1.0;
      buckets := buckets[key := Bucket(if allowed then tokens - 1.0 else tokens, now)];
      assert buckets == sees[key := Bucket(if allowed then tokens - 1.0 else tokens, now)];
    }

    method Allow(key: string, now: real) returns (allowed: bool)
      requires Valid() && (log != [] ==> log[|log| - 1].at <= now)
      modifies this`buckets, this`log
      ensures Valid() && log == old(log) + [Request(key, now)]
      ensures allowed == Allowed(perMinute, log, |old(log)|, true)
    {
      LastTake(perMinute, log, Request(key, now), true);
      if |buckets| > PRUNE_ABOVE {
        buckets := map k | k in buckets && now - buckets[k].at < IDLE_SECONDS :: buckets[k];
      }
      assert buckets == Prune(old(buckets), now);
      allowed := TakeOne(key, now);
      log := log + [Request(key, now)];
    }
  }

  lemma NewBucketIsFull(rate: real, buckets: Buckets, key: string, now: real)
    ensures var entry := if key in buckets then buckets[key] else Bucket(rate, now);
            Min(entry.tokens + (now - entry.at) * rate / 60.0, rate) == Refilled(rate, buckets, key, now)
  {
    assert (now - now) * rate == 0.0;
  }

  lemma SameGain(a: Bucket, b: Bucket, rate: real, now: real)
    requires a == b
    ensures Min(a.tokens + (now - a.at) * rate / 60.0, rate) == Min(b.tokens + (now - b.at) * rate / 60.0, rate)
  {
  }

  lemma {:induction false} SamePrefix(rate: real, log: seq<Request>, request: Request, n: nat, pruning: bool)
    requires n <= |log|
    ensures After(rate, log + [request], n, pruning) == After(rate, log, n, pruning)
  {
    if n > 0 {
      SamePrefix(rate, log, request, n - 1, pruning);
      assert (log + [request])[n - 1] == log[n - 1];
    }
  }

  // ---------------------------------------------------------------- every bucket

  ghost predicate IsBucket(rate: real, bucket: Bucket, now: real) { 0.0 <= bucket.tokens <= rate && bucket.at <= now }

  lemma NonNegative(x: real, y: real)
    requires x >= 0.0 && y >= 0.0
    ensures x * y >= 0.0
  {
  }

  lemma RefilledIsBounded(rate: real, buckets: Buckets, key: string, now: real)
    requires rate >= 0.0 && (key in buckets ==> IsBucket(rate, buckets[key], now))
    ensures 0.0 <= Refilled(rate, buckets, key, now) <= rate
  {
    if key in buckets { NonNegative(now - buckets[key].at, rate); }
  }

  lemma {:induction false} BucketsAreBounded(rate: real, log: seq<Request>, n: nat, pruning: bool, key: string,
                                             now: real)
    requires rate >= 0.0 && IsRun(log) && n <= |log| && (n > 0 ==> log[n - 1].at <= now)
    ensures key in After(rate, log, n, pruning) ==> IsBucket(rate, After(rate, log, n, pruning)[key], now)
  {
    if n > 0 {
      var t := log[n - 1].at;
      BucketsAreBounded(rate, log, n - 1, pruning, key, t);
      BucketsAreBounded(rate, log, n - 1, pruning, log[n - 1].key, t);
      RefilledIsBounded(rate, Before(rate, log, n - 1, pruning), log[n - 1].key, t);
    }
  }

  // ---------------------------------------------------------------- pruning changes no answer

  /** The pruned buckets are some of the unpruned ones; the missing ones are idle for long. */
  ghost predicate IsPruned(pruned: Buckets, full: Buckets, now: real) {
    forall key :: (key in pruned ==> key in full && pruned[key] == full[key])
                  && (key in full && key !in pruned ==> now - full[key].at >= IDLE_SECONDS)
  }

  lemma IdleIsFull(rate: real, full: Buckets, key: string, now: real)
    requires rate >= 0.0 && key in full && IsBucket(rate, full[key], now) && now - full[key].at >= IDLE_SECONDS
    ensures Refilled(rate, full, key, now) == rate
  {
    var idle := now - full[key].at;
    NonNegative(idle - 60.0, rate);
    assert idle * rate == (idle - 60.0) * rate + 60.0 * rate;
  }

  lemma SameTake(rate: real, pruned: Buckets, full: Buckets, key: string, now: real)
    requires rate >= 0.0 && IsPruned(pruned, full, now) && (key in full ==> IsBucket(rate, full[key], now))
    ensures Take(rate, pruned, key, now).1 == Take(rate, full, key, now).1
    ensures IsPruned(Take(rate, pruned, key, now).0, Take(rate, full, key, now).0, now)
  {
    if key in full && key !in pruned { IdleIsFull(rate, full, key, now); }
  }

  lemma {:induction false} PrunedState(rate: real, log: seq<Request>, n: nat, now: real)
    requires rate >= 0.0 && IsRun(log) && n <= |log| && (n > 0 ==> log[n - 1].at <= now)
    ensures IsPruned(After(rate, log, n, true), After(rate, log, n, false), now)
  {
    if n > 0 {
      var t := log[n - 1].at;
      PrunedState(rate, log, n - 1, t);
      BucketsAreBounded(rate, log, n - 1, false, log[n - 1].key, t);
      SameTake(rate, Before(rate, log, n - 1, true), Before(rate, log, n - 1, false), log[n - 1].key, t);
    }
  }

  /** Dropping idle buckets never changes an answer. */
  lemma PruningChangesNothing(rate: real, log: seq<Request>, n: nat)
    requires rate >= 0.0 && IsRun(log) && n < |log|
    ensures Allowed(rate, log, n, true) == Allowed(rate, log, n, false)
  {
    var t := log[n].at;
    PrunedState(rate, log, n, t);
    BucketsAreBounded(rate, log, n, false, log[n].key, t);
    SameTake(rate, Before(rate, log, n, true), Before(rate, log, n, false), log[n].key, t);
  }

  // ---------------------------------------------------------------- keys do not affect each other

  /** The requests of one key among the first n. */
  function Of(log: seq<Request>, key: string, n: nat): seq<Request>
    requires n <= |log|
  {
    if n == 0 then [] else Of(log, key, n - 1) + if log[n - 1].key == key then [log[n - 1]] else []
  }

  ghost predicate AgreeOn(x: Buckets, y: Buckets, key: string) {
    (key in x <==> key in y) && (key in x ==> x[key] == y[key])
  }

  lemma TakeAgrees(rate: real, x: Buckets, y: Buckets, key: string, now: real)
    requires AgreeOn(x, y, key)
    ensures Take(rate, x, key, now).1 == Take(rate, y, key, now).1
    ensures AgreeOn(Take(rate, x, key, now).0, Take(rate, y, key, now).0, key)
  {
  }

  lemma {:induction false} KeyState(rate: real, log: seq<Request>, key: string, n: nat)
    requires n <= |log|
    ensures AgreeOn(After(rate, log, n, false), After(rate, Of(log, key, n), |Of(log, key, n)|, false), key)
  {
    if n > 0 {
      KeyState(rate, log, key, n - 1);
      var own, r := Of(log, key, n - 1), log[n - 1];
      if r.key == key {
        LastTake(rate, own, r, false);
        TakeAgrees(rate, After(rate, log, n - 1, false), After(rate, own, |own|, false), key, r.at);
      } else {
        assert own + [] == own;
      }
    }
  }

  lemma LastTake(rate: real, log: seq<Request>, r: Request, pruning: bool)
    ensures var sees := if pruning then Prune(After(rate, log, |log|, pruning), r.at)
            else After(rate, log, |log|, pruning);
            && After(rate, log + [r], |log| + 1, pruning) == Take(rate, sees, r.key, r.at).0
            && Allowed(rate, log + [r], |log|, pruning) == Take(rate, sees, r.key, r.at).1
  {
    SamePrefix(rate, log, r, |log|, pruning);
    assert (log + [r])[|log|] == r;
  }

  lemma UnprunedKeysAreIndependent(rate: real, log: seq<Request>, n: nat)
    requires n < |log|
    ensures var own := Of(log, log[n].key, n + 1);
            own != [] && own[|own| - 1] == log[n] && Allowed(rate, log, n, false)
                == Allowed(rate, own, |own| - 1, false)
  {
    var key := log[n].key;
    KeyState(rate, log, key, n);
    var before := Of(log, key, n);
    LastTake(rate, before, log[n], false);
    TakeAgrees(rate, After(rate, log, n, false), After(rate, before, |before|, false), key, log[n].at);
  }

  /** The requests of one key are a run. */
  lemma {:induction false} OwnIsRun(log: seq<Request>, key: string, n: nat)
    requires IsRun(log) && n <= |log|
    ensures IsRun(Of(log, key, n))
    ensures forall i :: 0 <= i < |Of(log, key, n)| ==> n > 0 && Of(log, key, n)[i].at <= log[n - 1].at
  {
    if n > 0 {
      OwnIsRun(log, key, n - 1);
      assert n > 1 ==> log[n - 2].at <= log[n - 1].at;
    }
  }

  /** A request gets the answer it would get if its key were the only one, whether buckets are pruned or not. */
  lemma KeysAreIndependent(rate: real, log: seq<Request>, n: nat, pruning: bool)
    requires n < |log| && (pruning ==> rate >= 0.0 && IsRun(log))
    ensures var own := Of(log, log[n].key, n + 1);
            own != [] && own[|own| - 1] == log[n] && Allowed(rate, log, n, pruning)
                == Allowed(rate, own, |own| - 1, pruning)
  {
    UnprunedKeysAreIndependent(rate, log, n);
    if pruning {
      var own := Of(log, log[n].key, n + 1);
      OwnIsRun(log, log[n].key, n + 1);
      PruningChangesNothing(rate, log, n);
      PruningChangesNothing(rate, own, |own| - 1);
    }
  }

  // ---------------------------------------------------------------- the rate

  /** How many of the requests from..n - 1 with a key are allowed. */
  function Granted(rate: real, log: seq<Request>, key: string, from: nat, n: nat, pruning: bool): nat
    requires from <= n <= |log|
    decreases n
  {
    if n == from then 0
    else Granted(rate, log, key, from, n - 1, pruning) + if log[n - 1].key == key && Allowed(rate, log, n - 1, pruning)
        then 1 else 0
  }

  lemma {:induction false} GrantedAlike(rate: real, log: seq<Request>, key: string, from: nat, n: nat)
    requires rate >= 0.0 && IsRun(log) && from <= n <= |log|
    ensures Granted(rate, log, key, from, n, true) == Granted(rate, log, key, from, n, false)
    decreases n
  {
    if from < n {
      GrantedAlike(rate, log, key, from, n - 1);
      PruningChangesNothing(rate, log, n - 1);
    }
  }

  lemma SplitTime(rate: real, s: real, a: real, now: real)
    ensures (a - s) * rate / 60.0 + (now - a) * rate / 60.0 == (now - s) * rate / 60.0
  {
  }

  /** What a key has been granted since the window began and what it still has are paid by one full
      bucket and by the time that has passed. */
  ghost predicate IsPaid(rate: real, granted: nat, bucket: Bucket, s: real) {
    granted as real + bucket.tokens <= rate + (bucket.at - s) * rate / 60.0 && bucket.at >= s
  }

  /** What a bucket holds after a request, and whether the request was allowed. */
  lemma TakeLeaves(rate: real, buckets: Buckets, key: string, now: real)
    ensures var (after, allowed) := Take(rate, buckets, key, now);
            var tokens := Refilled(rate, buckets, key, now);
            && (allowed <==> tokens >= 1.0) && key in after
            && after[key] == Bucket(if allowed then tokens - 1.0 else tokens, now)
  {
  }

  lemma TakeIsPaid(rate: real, buckets: Buckets, key: string, s: real, now: real, granted: nat)
    requires rate >= 0.0 && s <= now && (key in buckets ==> IsBucket(rate, buckets[key], now))
    requires if key in buckets && buckets[key].at >= s then granted == 0 || IsPaid(rate, granted, buckets[key], s)
             else granted == 0
    ensures var (after, allowed) := Take(rate, buckets, key, now);
            IsPaid(rate, granted + if allowed then 1 else 0, after[key], s)
  {
    TakeLeaves(rate, buckets, key, now);
    RefilledIsPaid(rate, buckets, key, s, now, granted);
    Spent(rate, granted, Refilled(rate, buckets, key, now), s, now);
  }

  /** What a key has been granted and what it could still take are paid for. */
  lemma RefilledIsPaid(rate: real, buckets: Buckets, key: string, s: real, now: real, granted: nat)
    requires rate >= 0.0 && s <= now && (key in buckets ==> IsBucket(rate, buckets[key], now))
    requires if key in buckets && buckets[key].at >= s then granted == 0 || IsPaid(rate, granted, buckets[key], s)
             else granted == 0
    ensures granted as real + Refilled(rate, buckets, key, now) <= rate + (now - s) * rate / 60.0
  {
    RefilledIsBounded(rate, buckets, key, now);
    NonNegative(now - s, rate);
    if key in buckets && buckets[key].at >= s {
      var a, tokens := buckets[key].at, buckets[key].tokens;
      SplitTime(rate, s, a, now);
      NonNegative(a - s, rate);
      NonNegative(now - a, rate);
      assert Refilled(rate, buckets, key, now) <= tokens + (now - a) * rate / 60.0;
      EarnedIsPaid(rate, granted, tokens, (a - s) * rate / 60.0, (now - a) * rate / 60.0,
                   Refilled(rate, buckets, key, now));
    }
  }

  /** What was paid for before, and the time since, pay for what is there now. */
  lemma EarnedIsPaid(rate: real, granted: nat, tokens: real, before: real, since: real, now: real)
    requires (granted == 0 || granted as real + tokens <= rate + before) && now <= tokens + since && now <= rate
    requires 0.0 <= before && 0.0 <= since
    ensures granted as real + now <= rate + (before + since)
  {
  }

  /** Taking a token grants a request: their sum stays. */
  lemma Spent(rate: real, granted: nat, tokens: real, s: real, now: real)
    requires granted as real + tokens <= rate + (now - s) * rate / 60.0 && s <= now
    ensures IsPaid(rate, granted + 1, Bucket(tokens - 1.0, now), s) && IsPaid(rate, granted, Bucket(tokens, now), s)
  {
  }

  lemma {:induction false} WindowIsPaid(rate: real, log: seq<Request>, key: string, from: nat, n: nat, s: real)
    requires rate >= 0.0 && IsRun(log) && from <= n <= |log| && (from < |log| ==> s <= log[from].at)
    ensures Granted(rate, log, key, from, n, false) == 0
            || (key in After(rate, log, n, false)
                && IsPaid(rate, Granted(rate, log, key, from, n, false), After(rate, log, n, false)[key], s))
    decreases n
  {
    if n > from {
      var t := log[n - 1].at;
      WindowIsPaid(rate, log, key, from, n - 1, s);
      if log[n - 1].key == key {
        assert s <= log[from].at <= t;
        BucketsAreBounded(rate, log, n - 1, false, key, t);
        TakeIsPaid(rate, After(rate, log, n - 1, false), key, s, t, Granted(rate, log, key, from, n - 1, false));
      }
    }
  }

  /** In any window of T seconds, a key is granted at most its burst and its rate. */
  lemma WindowIsBounded(rate: real, log: seq<Request>, key: string, from: nat, n: nat, s: real, T: real, pruning: bool)
    requires rate >= 0.0 && IsRun(log) && from <= n <= |log| && T >= 0.0
    requires forall i :: from <= i < n ==> s <= log[i].at <= s + T
    ensures Granted(rate, log, key, from, n, pruning) as real <= rate * (1.0 + T / 60.0)
  {
    GrantedAlike(rate, log, key, from, n);
    NonNegative(T, rate);
    BurstAndRate(rate, T);
    if from < n {
      WindowIsPaid(rate, log, key, from, n, s);
      if Granted(rate, log, key, from, n, false) > 0 {
        BucketsAreBounded(rate, log, n, false, key, log[n - 1].at);
        PaidIsBounded(rate, Granted(rate, log, key, from, n, false), After(rate, log, n, false)[key], s, T);
      }
    }
  }

  lemma PaidIsBounded(rate: real, granted: nat, bucket: Bucket, s: real, T: real)
    requires rate >= 0.0 && IsPaid(rate, granted, bucket, s) && bucket.tokens >= 0.0 && bucket.at <= s + T
    ensures granted as real <= rate + T * rate / 60.0
  {
    SplitTime(rate, s, bucket.at, s + T);
    NonNegative(s + T - bucket.at, rate);
    assert s + T - s == T;
  }

  lemma BurstAndRate(rate: real, T: real)
    ensures rate + T * rate / 60.0 == rate * (1.0 + T / 60.0)
  {
  }

  // ---------------------------------------------------------------- refusals

  /** What a key has been granted and still has is at least one full bucket and what the time since has earned. */
  ghost predicate IsEarned(rate: real, granted: nat, bucket: Bucket, s: real) {
    granted as real + bucket.tokens >= rate + (bucket.at - s) * rate / 60.0
  }

  /** Request f of a key found a full bucket, and since then the key has got all it earned. */
  ghost predicate IsFullSince(rate: real, log: seq<Request>, key: string, f: nat, n: nat) {
    && f < n <= |log| && log[f].key == key && key in After(rate, log, n, false)
    && IsEarned(rate, Granted(rate, log, key, f, n, false), After(rate, log, n, false)[key], log[f].at)
  }

  lemma TakeIsEarned(rate: real, buckets: Buckets, key: string, s: real, now: real, granted: nat)
    requires key in buckets && IsEarned(rate, granted, buckets[key], s)
    ensures Refilled(rate, buckets, key, now) < rate ==>
              granted as real + Refilled(rate, buckets, key, now) >= rate + (now - s) * rate / 60.0
  {
    SplitTime(rate, s, buckets[key].at, now);
  }

  /** A key that has a bucket found it full once, and has got all it earned since. */
  lemma {:induction false} SomeIsFull(rate: real, log: seq<Request>, key: string, n: nat) returns (f: nat)
    requires n <= |log| && key in After(rate, log, n, false)
    ensures IsFullSince(rate, log, key, f, n)
  {
    var buckets, now := After(rate, log, n - 1, false), log[n - 1].at;
    TakeLeaves(rate, buckets, log[n - 1].key, now);
    if log[n - 1].key != key {
      f := SomeIsFull(rate, log, key, n - 1);
    } else if key !in buckets || Refilled(rate, buckets, key, now) >= rate {
      f := n - 1;
      FullIsEarned(rate, buckets, key, now);
    } else {
      f := SomeIsFull(rate, log, key, n - 1);
      TakeIsEarned(rate, buckets, key, log[f].at, now, Granted(rate, log, key, f, n - 1, false));
    }
  }

  lemma FullIsEarned(rate: real, buckets: Buckets, key: string, now: real)
    requires key !in buckets || Refilled(rate, buckets, key, now) >= rate
    ensures var (after, allowed) := Take(rate, buckets, key, now);
            IsEarned(rate, if allowed then 1 else 0, after[key], now)
  {
    assert (now - now) * rate / 60.0 == 0.0;
  }

  /** What a key has been granted since one of its requests and could take now is its burst and its rate. */
  lemma EarnedSince(rate: real, log: seq<Request>, n: nat) returns (f: nat)
    requires n < |log|
    ensures f <= n && log[f].key == log[n].key
    ensures Granted(rate, log, log[n].key, f, n, false) as real
            + Refilled(rate, After(rate, log, n, false), log[n].key, log[n].at)
            >= rate + (log[n].at - log[f].at) * rate / 60.0
  {
    hide Granted, Refilled, After, IsEarned, IsFullSince;
    var buckets, key, now := After(rate, log, n, false), log[n].key, log[n].at;
    if key in buckets && Refilled(rate, buckets, key, now) < rate {
      f := SomeIsFull(rate, log, key, n);
      FullSinceMeans(rate, log, key, f, n);
      TakeIsEarned(rate, buckets, key, log[f].at, now, Granted(rate, log, key, f, n, false));
    } else {
      f := n;
      NothingSince(rate, log, n);
    }
  }

  lemma FullSinceMeans(rate: real, log: seq<Request>, key: string, f: nat, n: nat)
    requires IsFullSince(rate, log, key, f, n)
    ensures f < n <= |log| && log[f].key == key && key in After(rate, log, n, false)
    ensures IsEarned(rate, Granted(rate, log, key, f, n, false), After(rate, log, n, false)[key], log[f].at)
  {
  }

  lemma NothingSince(rate: real, log: seq<Request>, n: nat)
    requires n < |log|
    requires var buckets := After(rate, log, n, false);
             log[n].key !in buckets || Refilled(rate, buckets, log[n].key, log[n].at) >= rate
    ensures Granted(rate, log, log[n].key, n, n, false) == 0
    ensures Refilled(rate, After(rate, log, n, false), log[n].key, log[n].at)
            >= rate + (log[n].at - log[n].at) * rate / 60.0
  {
    hide After;
    NoTime(rate, log[n].at);
  }

  lemma NoTime(rate: real, now: real)
    ensures (now - now) * rate / 60.0 == 0.0
  {
  }

  /** A key is refused only when, in the window from one of its requests to this one, it was granted its burst and its
      rate: one more would be more than that. */
  lemma RefusedIsUsedUp(rate: real, log: seq<Request>, n: nat, pruning: bool) returns (f: nat)
    requires n < |log| && !Allowed(rate, log, n, pruning) && (pruning ==> rate >= 0.0 && IsRun(log))
    ensures f <= n && log[f].key == log[n].key
    ensures Granted(rate, log, log[n].key, f, n, pruning) as real + 1.0
            > rate * (1.0 + (log[n].at - log[f].at) / 60.0)
  {
    f := EarnedSince(rate, log, n);
    TakeLeaves(rate, After(rate, log, n, false), log[n].key, log[n].at);
    BurstAndRate(rate, log[n].at - log[f].at);
    if pruning {
      PruningChangesNothing(rate, log, n);
      GrantedAlike(rate, log, log[n].key, f, n);
    }
  }
}
