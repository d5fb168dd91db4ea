/** The per-IP request gate: a map from client key to the time of its last
    call. Every call overwrites its key's entry, whether or not it is let
    through; a call is refused when the key had an entry less than one
    second old. Entries are never evicted. */
module RateLimit {
  import opened Clock

  datatype RateLimiter = RateLimiter(lastAccess: map<string, int>)

  datatype Decision = Decision(allowed: bool, limiter: RateLimiter)

  function NewRateLimiter(): (l: RateLimiter)
    ensures |l.lastAccess| == 0
  {
    RateLimiter(map[])
  }

  /** One call for `key` at `now`: the read, the overwrite and the verdict. */
  function Admit(l: RateLimiter, key: string, now: int): (d: Decision)
    ensures !d.allowed <==> key in l.lastAccess && now - l.lastAccess[key] < Second
    ensures d.limiter.lastAccess.Keys == l.lastAccess.Keys + {key}
    ensures key in d.limiter.lastAccess && d.limiter.lastAccess[key] == now
    ensures forall k :: k in l.lastAccess && k != key ==> d.limiter.lastAccess[k] == l.lastAccess[k]
  {
    var denied := key in l.lastAccess && now - l.lastAccess[key] < Second;
    Decision(!denied, RateLimiter(l.lastAccess[key := now]))
  }

  datatype Call = Call(key: string, at: int)

  datatype Trace = Trace(allowed: seq<bool>, limiter: RateLimiter)

  /** A sequence of calls in arrival order, one verdict per call. */
  function Run(l: RateLimiter, calls: seq<Call>): (t: Trace)
    ensures |t.allowed| == |calls|
    ensures t.limiter.lastAccess.Keys == l.lastAccess.Keys + set c | c in calls :: c.key
    ensures forall k :: k in l.lastAccess && (forall i :: 0 <= i < |calls| ==> calls[i].key != k) ==>
      t.limiter.lastAccess[k] == l.lastAccess[k]
    decreases |calls|
  {
    if |calls| == 0 then Trace([], l)
    else
      var d := Admit(l, calls[0].key, calls[0].at);
      var rest := Run(d.limiter, calls[1..]);
      assert forall c :: c in calls <==> c == calls[0] || c in calls[1..];
      Trace([d.allowed] + rest.allowed, rest.limiter)
  }

  /** One step of `Run`: the first call's verdict, then the rest of the run
      on the state it leaves. */
  lemma RunCons(l: RateLimiter, calls: seq<Call>)
    requires |calls| > 0
    ensures
      var d := Admit(l, calls[0].key, calls[0].at);
      && Run(l, calls).allowed == [d.allowed] + Run(d.limiter, calls[1..]).allowed
      && Run(l, calls).limiter == Run(d.limiter, calls[1..]).limiter
  {
  }

  /** Indexing past the head of a verdict sequence. */
  lemma ConsIndex(full: seq<bool>, head: bool, rest: seq<bool>)
    requires full == [head] + rest
    ensures full[0] == head
    ensures forall i :: 1 <= i < |full| ==> full[i] == rest[i - 1]
  {
  }

  /** The first call ever made for a key is let through. */
  lemma FirstCallAllowed(l: RateLimiter, key: string, now: int)
    requires key !in l.lastAccess
    ensures Admit(l, key, now).allowed
  {
  }

  /** A gap of exactly one second is enough. */
  lemma OneSecondGapAllowed(key: string, t: int)
    ensures Admit(Admit(NewRateLimiter(), key, t).limiter, key, t + Second).allowed
  {
  }

  /** Calls for one key, each less than a second after the one before. */
  predicate Hammering(calls: seq<Call>, key: string) {
    && (forall i :: 0 <= i < |calls| ==> calls[i].key == key)
    && (forall i :: 0 < i < |calls| ==> calls[i].at - calls[i - 1].at < Second)
  }

  /** Because a refused call still refreshes the timestamp, a client that
      never waits a full second is refused on every call after its first,
      however long it keeps going. */
  lemma {:induction false} HammeringIsRefused(l: RateLimiter, calls: seq<Call>, key: string)
    requires Hammering(calls, key)
    ensures forall i :: 1 <= i < |calls| ==> !Run(l, calls).allowed[i]
    decreases |calls|
  {
    if |calls| > 1 {
      var d := Admit(l, key, calls[0].at);
      var rest := calls[1..];
      assert Hammering(rest, key) by {
        forall i | 0 < i < |rest| ensures rest[i].at - rest[i - 1].at < Second {
          assert rest[i] == calls[i + 1] && rest[i - 1] == calls[i];
        }
      }
      HammeringIsRefused(d.limiter, rest, key);
      RunCons(l, calls);
      ConsIndex(Run(l, calls).allowed, d.allowed, Run(d.limiter, rest).allowed);
      var d1 := Admit(d.limiter, key, calls[1].at);
      RunCons(d.limiter, rest);
      ConsIndex(Run(d.limiter, rest).allowed, d1.allowed, Run(d1.limiter, rest[1..]).allowed);
      assert !d1.allowed;
    }
  }

  /** The verdict on call `i` is the single-call verdict on the state the
      earlier calls left behind. */
  lemma {:induction false} RunPrefix(l: RateLimiter, calls: seq<Call>, i: nat)
    requires i < |calls|
    ensures Run(l, calls).allowed[i] == Admit(Run(l, calls[..i]).limiter, calls[i].key, calls[i].at).allowed
    decreases i
  {
    if i > 0 {
      var d := Admit(l, calls[0].key, calls[0].at);
      assert calls[1..][..i - 1] == calls[..i][1..];
      assert calls[1..][i - 1] == calls[i];
      RunCons(l, calls);
      ConsIndex(Run(l, calls).allowed, d.allowed, Run(d.limiter, calls[1..]).allowed);
      RunCons(l, calls[..i]);
      RunPrefix(d.limiter, calls[1..], i - 1);
    }
  }

  /** Keys are isolated: the first call for a key that has no entry is let
      through however many calls other keys made before it. */
  lemma FreshKeyAllowedAmidTraffic(l: RateLimiter, calls: seq<Call>, i: nat)
    requires i < |calls|
    requires calls[i].key !in l.lastAccess
    requires forall j :: 0 <= j < i ==> calls[j].key != calls[i].key
    ensures Run(l, calls).allowed[i]
  {
    RunPrefix(l, calls, i);
    var prefix := calls[..i];
    assert calls[i].key !in set c | c in prefix :: c.key;
  }
}
