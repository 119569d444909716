/**
 * The fixed-window rate limiter: an in-process table from a request identifier to the
 * number of requests seen in the current window and the time the window opened, an
 * hourly sweep that drops stale entries, and the admin bypass; also the judge gate.
 * Time is in whole seconds.
 */
module RateLimit {
  import opened Wrappers
  import opened Strings
  import opened Models

  /** `{'count': ..., 'first_request': ...}` */
  datatype Entry = Entry(count: int, firstRequest: int)

  /** Entries older than this many seconds are removed before every check. */
  const SweepAge: int := 3600

  /** The counter key of a request: per user when signed in, else per remote address. */
  function Identifier(p: Principal, remoteAddr: Option<string>, action: string): (key: string)
    ensures p.SignedIn? ==> StartsWith(key, "user_")
    ensures p.Anonymous? ==> StartsWith(key, "ip_")
  {
    match p
    case SignedIn(u) => "user_" + NatToString(u.id) + "_" + action
    case Anonymous =>
      // An absent address is formatted as the text `None`.
      var addr := if remoteAddr.Some? then remoteAddr.value else "None";
      "ip_" + addr + "_" + action
  }

  /** A run of digits is delimited by the first `_` after it. */
  lemma DigitRunDelimited(s1: string, s2: string, x: string, y: string)
    requires AllDigits(s1) && AllDigits(s2)
    requires s1 + "_" + x == s2 + "_" + y
    ensures s1 == s2 && x == y
  {
    var l := s1 + "_" + x;
    FirstUnderscore(s1, x);
    FirstUnderscore(s2, y);
    assert s1 == l[..|s1|];
    assert x == l[|s1| + 1..];
  }

  lemma FirstUnderscore(s: string, x: string)
    requires AllDigits(s)
    ensures IndexOf(s + "_" + x, '_') == |s|
  {
    var l := s + "_" + x;
    assert l[|s|] == '_';
    assert forall k :: 0 <= k < |s| ==> l[k] == s[k];
  }

  /** Two different actions of the same requester never share a counter. */
  lemma IdentifierSeparatesActions(p: Principal, remoteAddr: Option<string>, a1: string, a2: string)
    requires a1 != a2
    ensures Identifier(p, remoteAddr, a1) != Identifier(p, remoteAddr, a2)
  {
    match p
    case SignedIn(u) => SuffixCancel("user_" + NatToString(u.id) + "_", a1, a2);
    case Anonymous =>
      var addr := if remoteAddr.Some? then remoteAddr.value else "None";
      SuffixCancel("ip_" + addr + "_", a1, a2);
  }

  lemma SuffixCancel(h: string, a: string, b: string)
    ensures h + a == h + b ==> a == b
  {
    if h + a == h + b {
      assert a == (h + a)[|h|..];
      assert b == (h + b)[|h|..];
    }
  }

  /** Two signed-in users with different ids never share a counter, whatever their actions. */
  lemma IdentifierSeparatesUsers(u1: User, u2: User, addr: Option<string>, a1: string, a2: string)
    requires u1.id != u2.id
    ensures Identifier(SignedIn(u1), addr, a1) != Identifier(SignedIn(u2), addr, a2)
  {
    var k1 := Identifier(SignedIn(u1), addr, a1);
    var k2 := Identifier(SignedIn(u2), addr, a2);
    if k1 == k2 {
      var s1, s2 := NatToString(u1.id), NatToString(u2.id);
      assert k1 == "user_" + (s1 + "_" + a1);
      assert k2 == "user_" + (s2 + "_" + a2);
      assert s1 + "_" + a1 == k1[5..] == k2[5..] == s2 + "_" + a2;
      DigitRunDelimited(s1, s2, a1, a2);
      ParseNatToString(u1.id);
      ParseNatToString(u2.id);
    }
  }

  /** A signed-in user never shares a counter with an anonymous address. */
  lemma IdentifierSeparatesPrincipals(u: User, addr1: Option<string>, addr2: Option<string>, a1: string, a2: string)
    ensures Identifier(SignedIn(u), addr1, a1) != Identifier(Anonymous, addr2, a2)
  {
    var k1 := Identifier(SignedIn(u), addr1, a1);
    var k2 := Identifier(Anonymous, addr2, a2);
    assert k1[0] == 'u' && k2[0] == 'i';
  }

  // ---------------------------------------------------------------- the decision

  predicate Stale(e: Entry, now: int) {
    now - e.firstRequest > SweepAge
  }

  /** The table `clear_old_rate_limits` leaves: every entry that is not stale, unchanged. */
  function Sweep(m: map<string, Entry>, now: int): map<string, Entry> {
    map k | k in m && !Stale(m[k], now) :: m[k]
  }

  /** `time_passed < window_minutes`, where time_passed is in minutes. */
  predicate InWindow(e: Entry, windowMinutes: int, now: int) {
    now - e.firstRequest < windowMinutes * 60
  }

  datatype Verdict = Verdict(allowed: bool, storage: map<string, Entry>)

  /** The window logic applied to one key, after the sweep. */
  function Decide(m: map<string, Entry>, key: string, maxRequests: int, windowMinutes: int, now: int): (v: Verdict)
    ensures !v.allowed <==> key in m && InWindow(m[key], windowMinutes, now) && m[key].count >= maxRequests
    ensures !v.allowed ==> v.storage == m
    ensures v.storage.Keys == m.Keys + {key}
    ensures forall k :: k in m && k != key ==> v.storage[k] == m[k]
    ensures v.allowed && key in m && InWindow(m[key], windowMinutes, now) ==>
              v.storage[key] == m[key].(count := m[key].count + 1)
    ensures v.allowed && !(key in m && InWindow(m[key], windowMinutes, now)) ==>
              v.storage[key] == Entry(1, now)
  {
    if key in m then
      var e := m[key];
      if InWindow(e, windowMinutes, now) then
        if e.count >= maxRequests then Verdict(false, m)
        else Verdict(true, m[key := e.(count := e.count + 1)])
      else Verdict(true, m[key := Entry(1, now)])
    else Verdict(true, m[key := Entry(1, now)])
  }

  /** One non-admin request: the sweep, then the window logic. */
  function Step(m: map<string, Entry>, key: string, maxRequests: int, windowMinutes: int, now: int): Verdict {
    Decide(Sweep(m, now), key, maxRequests, windowMinutes, now)
  }

  /**
   * Windows longer than an hour are cut to an hour: an entry older than 3600 seconds is
   * swept away, so the next request is allowed and opens a fresh window, whatever its count.
   */
  lemma WindowCutToOneHour(m: map<string, Entry>, key: string, maxRequests: int, windowMinutes: int, now: int)
    requires key in m && Stale(m[key], now)
    ensures Step(m, key, maxRequests, windowMinutes, now).allowed
    ensures Step(m, key, maxRequests, windowMinutes, now).storage[key] == Entry(1, now)
  {
  }

  /** A rejected request changes nothing but the sweep: its own entry is left as it was. */
  lemma RejectionKeepsEntry(m: map<string, Entry>, key: string, maxRequests: int, windowMinutes: int, now: int)
    requires !Step(m, key, maxRequests, windowMinutes, now).allowed
    ensures key in m && Step(m, key, maxRequests, windowMinutes, now).storage[key] == m[key]
    ensures m[key].count >= maxRequests
  {
  }

  /** Every stored count is at least 1 and at most the limit of the action its key belongs to. */
  predicate CountsWithin(m: map<string, Entry>, limit: string -> int) {
    forall k :: k in m ==> 1 <= m[k].count <= limit(k)
  }

  /** For a limit of at least one, no request can push a stored count past the limit. */
  lemma StepKeepsCountsWithin(m: map<string, Entry>, limit: string -> int, key: string,
                              windowMinutes: int, now: int)
    requires CountsWithin(m, limit)
    requires limit(key) >= 1
    ensures CountsWithin(Step(m, key, limit(key), windowMinutes, now).storage, limit)
  {
    var s := Sweep(m, now);
    assert CountsWithin(s, limit);
  }

  /** StepKeepsCountsWithin for a request checked against its own action's limit. */
  lemma StepKeepsLimit(m: map<string, Entry>, limit: string -> int, key: string, maxRequests: int,
                       windowMinutes: int, now: int)
    ensures CountsWithin(m, limit) && limit(key) == maxRequests >= 1 ==>
              CountsWithin(Step(m, key, maxRequests, windowMinutes, now).storage, limit)
  {
    if CountsWithin(m, limit) && limit(key) == maxRequests >= 1 {
      StepKeepsCountsWithin(m, limit, key, windowMinutes, now);
    }
  }

  /** The verdicts and the table after n requests at the same instant under one key. */
  function Burst(m: map<string, Entry>, key: string, maxRequests: int, windowMinutes: int, now: int, n: nat)
    : (seq<bool>, map<string, Entry>)
  {
    if n == 0 then ([], m)
    else
      var (verdicts, m') := Burst(m, key, maxRequests, windowMinutes, now, n - 1);
      var v := Step(m', key, maxRequests, windowMinutes, now);
      (verdicts + [v.allowed], v.storage)
  }

  /**
   * From an unseen key, the first maxRequests requests of an instant pass and are counted,
   * and the next one is refused.
   */
  lemma {:induction false} BurstAllowsExactlyMax(m: map<string, Entry>, key: string, maxRequests: int,
                                                 windowMinutes: int, now: int, n: nat)
    requires key !in m
    requires windowMinutes >= 1
    requires n <= maxRequests
    ensures var (verdicts, m') := Burst(m, key, maxRequests, windowMinutes, now, n);
            && |verdicts| == n
            && (forall i :: 0 <= i < n ==> verdicts[i])
            && (n > 0 ==> key in m' && m'[key] == Entry(n, now))
    ensures 1 <= n == maxRequests ==>
            !Step(Burst(m, key, maxRequests, windowMinutes, now, n).1, key, maxRequests, windowMinutes, now).allowed
  {
    if n > 0 {
      BurstAllowsExactlyMax(m, key, maxRequests, windowMinutes, now, n - 1);
      var (verdicts, m') := Burst(m, key, maxRequests, windowMinutes, now, n - 1);
      var s := Sweep(m', now);
      if n > 1 {
        assert key in s && s[key] == Entry(n - 1, now);
      } else {
        assert key !in s;
      }
    }
    var m2 := Burst(m, key, maxRequests, windowMinutes, now, n).1;
    if n == maxRequests && n > 0 {
      assert key in Sweep(m2, now) && Sweep(m2, now)[key] == Entry(n, now);
    }
  }

  /** The module-level `rate_limit_storage` dictionary and the operations that change it. */
  class RateLimiter {
    var storage: map<string, Entry>

    /** Every stored count is between 1 and the limit of its key's action. */
    ghost predicate Within(limit: string -> int)
      reads this
    {
      CountsWithin(storage, limit)
    }

    constructor ()
      ensures storage == map[]
      ensures forall limit: string -> int :: Within(limit)
    {
      storage := map[];
    }

    /** `clear_old_rate_limits`: collect the stale keys, then delete them. */
    method ClearOldRateLimits(now: int)
      modifies this
      ensures storage == Sweep(old(storage), now)
    {
      var keysToDelete: seq<string> := [];
      var remaining := storage.Keys;
      while remaining != {}
        invariant remaining <= storage.Keys
        invariant forall k :: k in keysToDelete ==> k in storage && k !in remaining && Stale(storage[k], now)
        invariant forall k :: k in storage && k !in remaining && Stale(storage[k], now) ==> k in keysToDelete
        decreases remaining
      {
        var key :| key in remaining;
        if Stale(storage[key], now) {
          keysToDelete := keysToDelete + [key];
        }
        remaining := remaining - {key};
      }
      ghost var before := storage;
      var i := 0;
      while i < |keysToDelete|
        invariant 0 <= i <= |keysToDelete|
        invariant storage.Keys == before.Keys - (set j | 0 <= j < i :: keysToDelete[j])
        invariant forall k :: k in storage ==> storage[k] == before[k]
      {
        storage := storage - {keysToDelete[i]};
        i := i + 1;
      }
      assert storage.Keys == Sweep(before, now).Keys;
    }

    /**
     * One request through the decorator: admins pass and leave the table alone; everybody
     * else is counted under their identifier after the sweep. When every action is always
     * checked against one limit of at least 1, no stored count ever exceeds it.
     */
    method Check(p: Principal, remoteAddr: Option<string>, action: string,
                 maxRequests: int, windowMinutes: int, now: int, ghost limit: string -> int)
      returns (allowed: bool)
      modifies this
      ensures old(Within(limit)) && limit(Identifier(p, remoteAddr, action)) == maxRequests >= 1 ==> Within(limit)
      ensures p.SignedIn? && p.user.isAdmin ==> allowed && storage == old(storage)
      ensures !(p.SignedIn? && p.user.isAdmin) ==>
                var v := Step(old(storage), Identifier(p, remoteAddr, action), maxRequests, windowMinutes, now);
                allowed == v.allowed && storage == v.storage
    {
      if p.SignedIn? && p.user.isAdmin {
        return true;
      }
      var identifier := Identifier(p, remoteAddr, action);
      StepKeepsLimit(storage, limit, identifier, maxRequests, windowMinutes, now);
      ClearOldRateLimits(now);
      if identifier in storage {
        var data := storage[identifier];
        if now - data.firstRequest < windowMinutes * 60 {
          if data.count >= maxRequests {
            return false;
          } else {
            storage := storage[identifier := data.(count := data.count + 1)];
          }
        } else {
          storage := storage[identifier := Entry(1, now)];
        }
      } else {
        storage := storage[identifier := Entry(1, now)];
      }
      allowed := true;
    }
  }

  // ---------------------------------------------------------------- judge gate

  datatype Gate = Proceed | Forbidden(flashed: bool)

  /** `judge_required`: anonymous requests get 403; signed-in non-judges get 403 and a message. */
  function JudgeRequired(p: Principal): (g: Gate)
    ensures g.Proceed? <==> p.SignedIn? && (p.user.isJudge || p.user.isAdmin)
    ensures g.Forbidden? ==> (g.flashed <==> p.SignedIn?)
  {
    match p
    case Anonymous => Forbidden(false)
    case SignedIn(u) => if u.isJudge || u.isAdmin then Proceed else Forbidden(true)
  }
}
