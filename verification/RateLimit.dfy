/** The login limiter: a fixed window per key in a map of bounded size, against a limiter that never forgets. */
module RateLimit {

  const MAX_HITS := 5
  const WINDOW := 900
  const MAX_BUCKETS := 10000

  datatype Bucket = Bucket(count: nat, start: int)

  type Buckets = map<string, Bucket>

  datatype Request = Request(key: string, t: int)

  datatype Verdict = Admitted | Limited | Saturated

  /** A key that is not in the map starts from an empty bucket. */
  function Get(b: Buckets, key: string): Bucket {
    if key in b then b[key] else Bucket(0, 0)
  }

  /** One request against one bucket: the bucket after it, and whether it was admitted. */
  function Hit(k: Bucket, t: int): (Bucket, Verdict) {
    var current := if t - k.start >= WINDOW then Bucket(0, t) else k;
    if current.count >= MAX_HITS then (current, Limited) else (Bucket(current.count + 1, current.start), Admitted)
  }

  /** The buckets whose window has not passed. */
  function Swept(b: Buckets, t: int): Buckets {
    map k | k in b && t - b[k].start < WINDOW :: b[k]
  }

  /** The bounded limiter. At the cap a new key first evicts what has expired, and is refused if that frees nothing. */
  function Checked(b: Buckets, r: Request): (Buckets, Verdict) {
    var room := if r.key !in b && |b| >= MAX_BUCKETS then Swept(b, r.t) else b;
    if r.key !in room && |room| >= MAX_BUCKETS then (room, Saturated)
    else
      var (k, v) := Hit(Get(room, r.key), r.t);
      (room[r.key := k], v)
  }

  class RateLimiter {
    var buckets: Buckets

    constructor ()
      ensures buckets == map[]
    {
      buckets := map[];
    }

    /** Erases the expired buckets one by one. */
    method Sweep(t: int)
      modifies this
      ensures buckets == Swept(old(buckets), t)
    {
      var keys := buckets.Keys;
      while keys != {}
        invariant forall k :: k in keys ==> k in buckets
        invariant forall k :: k in buckets <==> k in old(buckets) && (k in keys || t - old(buckets)[k].start < WINDOW)
        invariant forall k :: k in buckets ==> buckets[k] == old(buckets)[k]
        decreases |keys|
      {
        var k :| k in keys;
        if t - buckets[k].start >= WINDOW {
          buckets := buckets - {k};
        }
        keys := keys - {k};
      }
    }

    /** Is this request to be refused? The reason is for the log. */
    method RateLimitCheck(key: string, t: int) returns (limited: bool, why: Verdict)
      modifies this
      ensures (buckets, why) == Checked(old(buckets), Request(key, t))
      ensures limited <==> why != Admitted
    {
      if key !in buckets && |buckets| >= MAX_BUCKETS {
        Sweep(t);
        if |buckets| >= MAX_BUCKETS {
          return true, Saturated;
        }
      }
      ghost var room := buckets;
      if key !in buckets {
        buckets := buckets[key := Bucket(0, 0)];
      }
      if t - buckets[key].start >= WINDOW {
        buckets := buckets[key := Bucket(0, t)];
      }
      if buckets[key].count >= MAX_HITS {
        assert buckets == room[key := Hit(Get(room, key), t).0];
        return true, Limited;
      }
      buckets := buckets[key := Bucket(buckets[key].count + 1, buckets[key].start)];
      assert buckets == room[key := Hit(Get(room, key), t).0];
      return false, Admitted;
    }
  }

  // ---------- runs ----------

  datatype Log = Log(buckets: Buckets, verdicts: seq<Verdict>)

  /** The bounded limiter over a sequence of requests. */
  function Run(rs: seq<Request>): (l: Log)
    ensures |l.verdicts| == |rs|
  {
    if rs == [] then Log(map[], [])
    else
      var l := Run(rs[..|rs| - 1]);
      var (b, v) := Checked(l.buckets, rs[|rs| - 1]);
      Log(b, l.verdicts + [v])
  }

  /** The limiter that keeps every bucket for ever. */
  function FreeRun(rs: seq<Request>): (l: Log)
    ensures |l.verdicts| == |rs|
  {
    if rs == [] then Log(map[], [])
    else
      var l, r := FreeRun(rs[..|rs| - 1]), rs[|rs| - 1];
      var (k, v) := Hit(Get(l.buckets, r.key), r.t);
      Log(l.buckets[r.key := k], l.verdicts + [v])
  }

  /** The clock never runs backwards and starts at the epoch. */
  ghost predicate Ordered(rs: seq<Request>) {
    && (forall i :: 0 <= i < |rs| ==> 0 <= rs[i].t)
    && (forall i, j :: 0 <= i < j < |rs| ==> rs[i].t <= rs[j].t)
  }

  function Now(rs: seq<Request>): int {
    if rs == [] then 0 else rs[|rs| - 1].t
  }

  /** The requests that were not refused for want of room, and their verdicts. */
  function Kept(rs: seq<Request>): seq<Request> {
    if rs == [] then []
    else
      var n := |rs| - 1;
      Kept(rs[..n]) + if Run(rs).verdicts[n].Saturated? then [] else [rs[n]]
  }

  function KeptVerdicts(rs: seq<Request>): seq<Verdict> {
    if rs == [] then []
    else
      var n := |rs| - 1;
      KeptVerdicts(rs[..n]) + if Run(rs).verdicts[n].Saturated? then [] else [Run(rs).verdicts[n]]
  }

  /** The map never outgrows its bound. */
  lemma {:induction false} NeverTooBig(rs: seq<Request>)
    ensures |Run(rs).buckets| <= 10000
  {
    if rs != [] {
      var n := |rs| - 1;
      NeverTooBig(rs[..n]);
      var b, r := Run(rs[..n]).buckets, rs[n];
      SweptIsSmaller(b, r.t);
    }
  }

  lemma SweptIsSmaller(b: Buckets, t: int)
    ensures |Swept(b, t)| <= |b|
  {
    var s := Swept(b, t);
    assert s.Keys <= b.Keys;
    SubsetIsSmaller(s.Keys, b.Keys);
  }

  lemma {:induction false} SubsetIsSmaller<T>(a: set<T>, b: set<T>)
    requires a <= b
    ensures |a| <= |b|
  {
    if a != {} {
      var x :| x in a;
      SubsetIsSmaller(a - {x}, b - {x});
    }
  }

  // ---------- the bounded limiter refines the unbounded one ----------

  /** What is missing from the bounded map has expired in the unbounded one; the rest is the same. */
  ghost predicate Agree(b: Buckets, u: Buckets, now: int) {
    && (forall k :: k in b ==> k in u && u[k] == b[k])
    && (forall k :: k in u ==> 0 <= u[k].start <= now && (k !in b ==> now - u[k].start >= WINDOW))
  }

  lemma StepAgrees(b: Buckets, u: Buckets, now: int, r: Request)
    requires Agree(b, u, now) && 0 <= now <= r.t
    ensures var (b', v) := Checked(b, r);
            if v.Saturated? then Agree(b', u, r.t)
            else var (k, w) := Hit(Get(u, r.key), r.t); v == w && Agree(b', u[r.key := k], r.t)
  {}

  lemma RunStep(rs: seq<Request>)
    requires rs != []
    ensures var n := |rs| - 1; var (b, v) := Checked(Run(rs[..n]).buckets, rs[n]);
            && Run(rs).buckets == b && Run(rs).verdicts[n] == v
            && Kept(rs) == Kept(rs[..n]) + (if v.Saturated? then [] else [rs[n]])
            && KeptVerdicts(rs) == KeptVerdicts(rs[..n]) + (if v.Saturated? then [] else [v])
  {
    hide Checked;
  }

  lemma FreeRunStep(kept: seq<Request>, r: Request)
    ensures var l := FreeRun(kept); var (k, v) := Hit(Get(l.buckets, r.key), r.t);
            FreeRun(kept + [r]) == Log(l.buckets[r.key := k], l.verdicts + [v])
    ensures kept + [] == kept
  {
    hide Hit;
    assert (kept + [r])[..|kept|] == kept;
  }

  /** On every request not refused for want of room, the bounded limiter decides as the unbounded one would. */
  lemma {:induction false} RefinesUnbounded(rs: seq<Request>)
    requires Ordered(rs)
    ensures FreeRun(Kept(rs)).verdicts == KeptVerdicts(rs)
    ensures Agree(Run(rs).buckets, FreeRun(Kept(rs)).buckets, Now(rs))
  {
    if rs != [] {
      hide Agree, Checked, Hit, Run, FreeRun, Kept, KeptVerdicts;
      var n := |rs| - 1;
      var kept, r := Kept(rs[..n]), rs[n];
      RefinesUnbounded(rs[..n]);
      assert Now(rs[..n]) <= r.t;
      StepAgrees(Run(rs[..n]).buckets, FreeRun(kept).buckets, Now(rs[..n]), r);
      RunStep(rs);
      FreeRunStep(kept, r);
    } else {
      assert Agree(map[], map[], 0);
    }
  }

  // ---------- how many get through ----------

  /** How many requests for `key` were admitted at time `from` or later. */
  function Since(rs: seq<Request>, vs: seq<Verdict>, key: string, from: int): nat
    requires |rs| == |vs|
  {
    if rs == [] then 0
    else
      var n := |rs| - 1;
      Since(rs[..n], vs[..n], key, from) + if vs[n].Admitted? && rs[n].key == key && rs[n].t >= from then 1 else 0
  }

  lemma {:induction false} SinceMonotonic(rs: seq<Request>, vs: seq<Verdict>, key: string, a: int, b: int)
    requires |rs| == |vs| && a <= b
    ensures Since(rs, vs, key, a) >= Since(rs, vs, key, b)
  {
    if rs != [] { SinceMonotonic(rs[..|rs| - 1], vs[..|rs| - 1], key, a, b); }
  }

  lemma SinceStep(rs: seq<Request>, vs: seq<Verdict>, r: Request, v: Verdict, key: string, from: int)
    requires |rs| == |vs|
    ensures Since(rs + [r], vs + [v], key, from) == Since(rs, vs, key, from) + if v.Admitted? && r.key == key && r.t >= from then 1 else 0
  {
    assert (rs + [r])[..|rs|] == rs && (vs + [v])[..|vs|] == vs;
  }

  /** Admissions so far for one key, against its bucket: those of the current window and of the one before it. */
  ghost predicate Accounted(rs: seq<Request>, vs: seq<Verdict>, key: string, k: Bucket)
    requires |rs| == |vs|
  {
    && Since(rs, vs, key, k.start) == k.count <= MAX_HITS
    && Since(rs, vs, key, k.start + WINDOW) == 0
    && (forall a :: a <= k.start <= a + WINDOW ==> Since(rs, vs, key, a) - k.count <= MAX_HITS)
    && (forall a, b :: b == a + WINDOW + 1 ==> Since(rs, vs, key, a) - Since(rs, vs, key, b) <= 2 * MAX_HITS)
  }

  lemma StepAccounted(rs: seq<Request>, vs: seq<Verdict>, key: string, k: Bucket, t: int)
    requires |rs| == |vs| && Accounted(rs, vs, key, k) && k.start <= t
    ensures var (k', v) := Hit(k, t); Accounted(rs + [Request(key, t)], vs + [v], key, k')
  {
    var (k', v) := Hit(k, t);
    var r := Request(key, t);
    forall a ensures Since(rs + [r], vs + [v], key, a) == Since(rs, vs, key, a) + if v.Admitted? && t >= a then 1 else 0 {
      SinceStep(rs, vs, r, v, key, a);
    }
    forall a, b | a <= b ensures Since(rs, vs, key, a) >= Since(rs, vs, key, b) {
      SinceMonotonic(rs, vs, key, a, b);
    }
    var expired := t - k.start >= WINDOW;
    forall a | a <= k'.start <= a + WINDOW ensures Since(rs + [r], vs + [v], key, a) - k'.count <= MAX_HITS {
      if expired { assert Since(rs, vs, key, a) <= Since(rs, vs, key, k.start); }
    }
    forall a, b | b == a + WINDOW + 1
      ensures Since(rs + [r], vs + [v], key, a) - Since(rs + [r], vs + [v], key, b) <= 2 * MAX_HITS
    {
      if a <= t < b {
        if a >= k.start {
          assert Since(rs, vs, key, a) <= Since(rs, vs, key, k.start);
        } else {
          assert Since(rs, vs, key, a) - k.count <= MAX_HITS;
        }
      }
    }
  }

  lemma OtherKeyAccounted(rs: seq<Request>, vs: seq<Verdict>, key: string, k: Bucket, r: Request, v: Verdict)
    requires |rs| == |vs| && Accounted(rs, vs, key, k) && r.key != key
    ensures Accounted(rs + [r], vs + [v], key, k)
  {
    forall a ensures Since(rs + [r], vs + [v], key, a) == Since(rs, vs, key, a) {
      SinceStep(rs, vs, r, v, key, a);
    }
  }

  lemma {:induction false} FreeRunAccounted(rs: seq<Request>, key: string)
    requires Ordered(rs)
    ensures Accounted(rs, FreeRun(rs).verdicts, key, Get(FreeRun(rs).buckets, key))
    ensures 0 <= Get(FreeRun(rs).buckets, key).start <= Now(rs)
  {
    if rs != [] {
      hide Accounted, FreeRun;
      var n := |rs| - 1;
      FreeRunAccounted(rs[..n], key);
      var l, r := FreeRun(rs[..n]), rs[n];
      assert rs[..n] + [r] == rs && Now(rs[..n]) <= r.t;
      FreeRunStep(rs[..n], r);
      if r.key == key {
        StepAccounted(rs[..n], l.verdicts, key, Get(l.buckets, key), r.t);
      } else {
        OtherKeyAccounted(rs[..n], l.verdicts, key, Get(l.buckets, key), r, Hit(Get(l.buckets, r.key), r.t).1);
      }
    }
  }

  // ---------- the bounded limiter inherits the bounds ----------

  lemma {:induction false} KeptCounts(rs: seq<Request>, key: string, from: int)
    ensures |Kept(rs)| == |KeptVerdicts(rs)|
    ensures Since(rs, Run(rs).verdicts, key, from) == Since(Kept(rs), KeptVerdicts(rs), key, from)
  {
    if rs != [] {
      hide Checked;
      var n := |rs| - 1;
      KeptCounts(rs[..n], key, from);
      RunStep(rs);
      var v := Run(rs).verdicts[n];
      assert Run(rs).verdicts[..n] == Run(rs[..n]).verdicts;
      if v.Saturated? {
        assert Kept(rs) == Kept(rs[..n]) && KeptVerdicts(rs) == KeptVerdicts(rs[..n]);
      } else {
        SinceStep(Kept(rs[..n]), KeptVerdicts(rs[..n]), rs[n], v, key, from);
      }
    }
  }

  lemma OrderedPrefix(rs: seq<Request>)
    requires rs != [] && Ordered(rs)
    ensures Ordered(rs[..|rs| - 1]) && 0 <= Now(rs[..|rs| - 1]) <= rs[|rs| - 1].t
  {}

  lemma OrderedSnoc(rs: seq<Request>, now: int, r: Request)
    requires Ordered(rs) && 0 <= now <= r.t && forall i :: 0 <= i < |rs| ==> rs[i].t <= now
    ensures Ordered(rs + [r]) && forall i :: 0 <= i < |rs + [r]| ==> (rs + [r])[i].t <= r.t
  {}

  lemma {:induction false} KeptOrdered(rs: seq<Request>)
    requires Ordered(rs)
    ensures Ordered(Kept(rs))
    ensures forall i :: 0 <= i < |Kept(rs)| ==> Kept(rs)[i].t <= Now(rs)
  {
    if rs != [] {
      hide Run, Checked, Kept, KeptVerdicts, Ordered;
      var n := |rs| - 1;
      OrderedPrefix(rs);
      KeptOrdered(rs[..n]);
      RunStep(rs);
      OrderedSnoc(Kept(rs[..n]), Now(rs[..n]), rs[n]);
      assert Kept(rs[..n]) + [] == Kept(rs[..n]);
    }
  }

  /**
   * In every run no key is admitted more than ten times within any 900 seconds, however the sweeps fall,
   * and not more than five times since its window began.
   */
  lemma AtMostTenInAnyWindowLength(rs: seq<Request>, key: string, from: int)
    requires Ordered(rs)
    ensures Since(rs, Run(rs).verdicts, key, from) - Since(rs, Run(rs).verdicts, key, from + 901) <= 10
    ensures key in Run(rs).buckets ==>
              var k := Run(rs).buckets[key]; Since(rs, Run(rs).verdicts, key, k.start) == k.count <= 5
  {
    hide Run, FreeRun, Kept, KeptVerdicts;
    RefinesUnbounded(rs);
    KeptOrdered(rs);
    FreeRunAccounted(Kept(rs), key);
    KeptCounts(rs, key, from);
    KeptCounts(rs, key, from + WINDOW + 1);
    KeptCounts(rs, key, Get(Run(rs).buckets, key).start);
  }

  // ---------- and no one is refused without cause ----------

  /** What the bounded limiter's bucket of a key counts, at any point of a run. */
  lemma BucketCounts(rs: seq<Request>, key: string)
    requires Ordered(rs) && key in Run(rs).buckets
    ensures var k := Run(rs).buckets[key]; Since(rs, Run(rs).verdicts, key, k.start) == k.count
  {
    AtMostTenInAnyWindowLength(rs, key, 0);
  }

  lemma LimitedBucket(b: Buckets, r: Request)
    requires Checked(b, r).1.Limited?
    ensures r.key in b && b[r.key].count >= 5 && r.t - b[r.key].start < 900
  {}

  /** A refusal for the count: the key was admitted at least five times within the last 900 seconds. */
  lemma LimitedMeansFive(rs: seq<Request>, n: nat)
    requires Ordered(rs) && n < |rs| && Run(rs[..n + 1]).verdicts[n].Limited?
    ensures Since(rs[..n], Run(rs[..n]).verdicts, rs[n].key, rs[n].t - 899) >= 5
  {
    var past, r := rs[..n], rs[n];
    assert rs[..n + 1][..n] == past && rs[..n + 1][n] == r;
    var b := Run(past).buckets;
    RunStep(rs[..n + 1]);
    hide Run, Checked, Since;
    LimitedBucket(b, r);
    BucketCounts(past, r.key);
    SinceMonotonic(past, Run(past).verdicts, r.key, r.t - 899, b[r.key].start);
  }

  /** A refusal for want of room: the key is new, and 10000 other keys have windows less than 900 seconds old. */
  lemma SaturatedMeansFull(rs: seq<Request>, n: nat) returns (others: set<string>)
    requires n < |rs| && Run(rs[..n + 1]).verdicts[n].Saturated?
    ensures rs[n].key !in Run(rs[..n]).buckets && rs[n].key !in others && |others| >= 10000
    ensures forall k :: k in others ==> k in Run(rs[..n]).buckets && rs[n].t - Run(rs[..n]).buckets[k].start < 900
  {
    var past, r := rs[..n], rs[n];
    assert rs[..n + 1][..n] == past && rs[..n + 1][n] == r;
    RunStep(rs[..n + 1]);
    hide Run;
    others := Swept(Run(past).buckets, r.t).Keys;
  }

  /** The verdicts of a run are those of its beginnings. */
  lemma {:induction false} VerdictsStay(rs: seq<Request>, n: nat)
    requires n < |rs|
    ensures Run(rs).verdicts[n] == Run(rs[..n + 1]).verdicts[n] && Run(rs).verdicts[..n] == Run(rs[..n]).verdicts
    decreases |rs|
  {
    hide Checked;
    if n + 1 == |rs| {
      assert rs[..n + 1] == rs;
    } else {
      var init := rs[..|rs| - 1];
      VerdictsStay(init, n);
      assert init[..n + 1] == rs[..n + 1] && init[..n] == rs[..n];
      assert Run(rs).verdicts[..|init|] == Run(init).verdicts;
      assert Run(rs).verdicts[..n] == Run(init).verdicts[..n];
    }
  }

  /** Every verdict has its reason. */
  lemma RefusedWithCauseOnly(rs: seq<Request>, n: nat)
    requires Ordered(rs) && n < |rs|
    ensures Run(rs).verdicts[n].Limited? ==> Since(rs[..n], Run(rs).verdicts[..n], rs[n].key, rs[n].t - 899) >= 5
    ensures Run(rs).verdicts[n].Saturated? ==>
              && rs[n].key !in Run(rs[..n]).buckets
              && exists others: set<string> ::
                   && |others| >= 10000 && rs[n].key !in others
                   && forall k :: k in others ==> k in Run(rs[..n]).buckets && rs[n].t - Run(rs[..n]).buckets[k].start < 900
  {
    VerdictsStay(rs, n);
    hide Run, Since;
    if Run(rs).verdicts[n].Limited? { LimitedMeansFive(rs, n); }
    if Run(rs).verdicts[n].Saturated? { var others := SaturatedMeansFull(rs, n); }
  }
}
