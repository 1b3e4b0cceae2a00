/**
 * The take/skip search of the fuzzy matcher, as a function on values, and what it finds.
 *
 * `Worker` is one call of the recursive worker and `Walk` is its loop; `FuzzyMatch.dfy` proves that
 * the array-writing code computes exactly these. The theorems below compare the search with
 * embeddings of the pattern in the string, a notion that mentions neither calls nor counters.
 */
module FuzzySearch {
  import opened Wrappers

  const SEQUENTIAL_BONUS := 15
  const SEPARATOR_BONUS := 30
  const CAMEL_BONUS := 30
  const FIRST_LETTER_BONUS := 15
  const LEADING_LETTER_PENALTY := -5
  const MAX_LEADING_PENALTY := -15
  const UNMATCHED_PENALTY := -1
  const RECURSION_LIMIT := 10
  const MAX_MATCHES := 256

  /** What a NUL-terminated pointer shows: the characters before the first NUL. */
  type CString = s: string | '\0' !in s

  /** An embedding together with its score. */
  datatype Scored = Scored(score: int, m: seq<nat>)

  /** What a worker call leaves behind: its best embedding, if any, and the shared call counter. */
  datatype Outcome = Outcome(found: Option<Scored>, count: nat)

  // ---------- characters (the C locale) ----------

  function Lower(c: char): char {
    if 'A' <= c <= 'Z' then (c as int + 32) as char else c
  }

  predicate Same(a: char, b: char) { Lower(a) == Lower(b) }

  predicate IsLower(c: char) { 'a' <= c <= 'z' }

  predicate IsUpper(c: char) { 'A' <= c <= 'Z' }

  // ---------- embeddings and their scores ----------

  /** The choices `m` all lie before position `i`. */
  ghost predicate Before(m: seq<nat>, i: nat) {
    forall k :: 0 <= k < |m| ==> m[k] < i
  }

  /** A point the search can be at: choices for a prefix of the pattern, all before the cursor. */
  ghost predicate At(pat: string, s: string, m: seq<nat>, i: nat) {
    |m| <= |pat| && i <= |s| && Before(m, i)
  }

  /** `m` places the first |m| pattern characters, in order, among the first `i` characters of `s`. */
  ghost predicate Partial(pat: string, s: string, m: seq<nat>, i: nat) {
    && At(pat, s, m, i)
    && (forall k :: 0 <= k < |m| ==> Same(pat[k], s[m[k]]))
    && (forall k :: 0 < k < |m| ==> m[k - 1] < m[k])
  }

  /** `e` is a strictly increasing, case-insensitive embedding of the whole pattern in `s`. */
  ghost predicate Embedding(pat: string, s: string, e: seq<nat>) {
    |e| == |pat| && Partial(pat, s, e, |s|)
  }

  ghost predicate Embeds(pat: string, s: string) {
    exists e :: Embedding(pat, s, e)
  }

  /** `e` starts with the choices `m` and makes its next choice at `i` or later. */
  ghost predicate Continues(e: seq<nat>, m: seq<nat>, i: nat) {
    m <= e && (|m| < |e| ==> i <= e[|m|])
  }

  ghost function Max(a: int, b: int): int { if a >= b then a else b }

  ghost function BonusAt(s: string, m: seq<nat>, k: nat): int
    requires k < |m| && m[k] < |s|
  {
    (if k > 0 && m[k] == m[k - 1] + 1 then SEQUENTIAL_BONUS else 0) +
    (if m[k] > 0 then
       (if IsLower(s[m[k] - 1]) && IsUpper(s[m[k]]) then CAMEL_BONUS else 0) +
       (if s[m[k] - 1] in " _-" then SEPARATOR_BONUS else 0)
     else FIRST_LETTER_BONUS)
  }

  ghost function Bonuses(s: string, m: seq<nat>, n: nat): int
    requires n <= |m| && Before(m, |s|)
  {
    if n == 0 then 0 else Bonuses(s, m, n - 1) + BonusAt(s, m, n - 1)
  }

  /** The score of an embedding `m` in `s`, where `len` is the full length of the string. */
  ghost function Score(s: string, len: nat, m: seq<nat>): int
    requires |m| > 0 && Before(m, |s|)
  {
    100 + Max(LEADING_LETTER_PENALTY * m[0], MAX_LEADING_PENALTY)
    + UNMATCHED_PENALTY * Max(len - |m|, 0) + Bonuses(s, m, |m|)
  }

  // ---------- the search ----------

  /** Keep `best` unless the candidate strictly beats it. */
  ghost function Better(best: Option<Scored>, candidate: Option<Scored>): Option<Scored> {
    if candidate.Some? && (best.None? || candidate.value.score > best.value.score) then candidate else best
  }

  /** One worker call entered with the counter at `count`, the choices `m` made, and the cursor at `i`. */
  ghost function Worker(pat: CString, s: CString, len: nat, m: seq<nat>, i: nat, count: nat): Outcome
    requires At(pat, s, m, i)
    decreases |s| - i, 1
  {
    if count + 1 >= RECURSION_LIMIT || |m| == |pat| || i == |s| then Outcome(None, count + 1)
    else Walk(pat, s, len, m, i, None, count + 1)
  }

  /** The worker's loop, from any point of it to the worker's return. */
  ghost function Walk(pat: CString, s: CString, len: nat, m: seq<nat>, i: nat, best: Option<Scored>, count: nat): Outcome
    requires At(pat, s, m, i) && |pat| > 0
    decreases |s| - i, 0
  {
    if |m| < |pat| && i < |s| then
      if Same(pat[|m|], s[i]) then
        if |m| >= MAX_MATCHES then Outcome(None, count)
        else
          var r := Worker(pat, s, len, m, i + 1, count);
          Walk(pat, s, len, m + [i], i + 1, Better(best, r.found), r.count)
      else Walk(pat, s, len, m, i + 1, best, count)
    else if |m| == |pat| then
      var here := Score(s, len, m);
      Outcome(if best.Some? && best.value.score > here then best else Some(Scored(here, m)), count)
    else Outcome(best, count)
  }

  /** The leftmost-greedy continuation of `m` from position `i`. */
  ghost function Greedy(pat: string, s: string, m: seq<nat>, i: nat): (g: Option<seq<nat>>)
    requires At(pat, s, m, i)
    ensures g.Some? ==> |g.value| == |pat| && Before(g.value, |s|)
    decreases |s| - i
  {
    if |m| == |pat| then Some(m)
    else if i == |s| then None
    else if Same(pat[|m|], s[i]) then Greedy(pat, s, m + [i], i + 1)
    else Greedy(pat, s, m, i + 1)
  }

  /** How many worker calls the search makes when nothing cuts it, from pattern index `p` and position `i`. */
  ghost function Calls(pat: string, s: string, p: nat, i: nat): nat
    requires p <= |pat| && i <= |s|
    decreases |s| - i, 1
  {
    1 + WalkCalls(pat, s, p, i)
  }

  ghost function WalkCalls(pat: string, s: string, p: nat, i: nat): nat
    requires p <= |pat| && i <= |s|
    decreases |s| - i, 0
  {
    if p == |pat| || i == |s| then 0
    else if Same(pat[p], s[i]) then Calls(pat, s, p, i + 1) + WalkCalls(pat, s, p + 1, i + 1)
    else WalkCalls(pat, s, p, i + 1)
  }

  /** Where a worker entered with the choices `m` at `i` gets to if it always takes the first chance. */
  ghost function Completion(pat: string, s: string, len: nat, m: seq<nat>, i: nat): Option<Scored>
    requires At(pat, s, m, i) && |pat| > 0
  {
    var g := Greedy(pat, s, m, i);
    if g.None? then None else Some(Scored(Score(s, len, g.value), g.value))
  }

  /** The completions of all the worker calls that the uncut search makes from here, in the order of the calls. */
  ghost function Completions(pat: string, s: string, len: nat, m: seq<nat>, i: nat): (cs: seq<Option<Scored>>)
    requires At(pat, s, m, i) && |pat| > 0
    ensures |cs| == Calls(pat, s, |m|, i)
    decreases |s| - i, 1
  {
    [Completion(pat, s, len, m, i)] + WalkCompletions(pat, s, len, m, i)
  }

  ghost function WalkCompletions(pat: string, s: string, len: nat, m: seq<nat>, i: nat): (cs: seq<Option<Scored>>)
    requires At(pat, s, m, i) && |pat| > 0
    ensures |cs| == WalkCalls(pat, s, |m|, i)
    decreases |s| - i, 0
  {
    if |m| == |pat| || i == |s| then []
    else if Same(pat[|m|], s[i]) then Completions(pat, s, len, m, i + 1) + WalkCompletions(pat, s, len, m + [i], i + 1)
    else WalkCompletions(pat, s, len, m, i + 1)
  }

  /** The higher of two scores, if there is any. */
  ghost function Higher(a: Option<int>, b: Option<int>): Option<int> {
    if a.None? || (b.Some? && b.value > a.value) then b else a
  }

  ghost function ScoreOf(c: Option<Scored>): Option<int> {
    if c.None? then None else Some(c.value.score)
  }

  /** The highest score among candidates. */
  ghost function Top(cs: seq<Option<Scored>>): Option<int> {
    if cs == [] then None else Higher(ScoreOf(cs[0]), Top(cs[1..]))
  }

  /** How many more calls run their loop when the counter is at `count`. */
  ghost function Left(count: nat): nat {
    if count < RECURSION_LIMIT - 1 then RECURSION_LIMIT - 1 - count else 0
  }

  ghost function Take<T>(cs: seq<T>, n: nat): seq<T> {
    if n < |cs| then cs[..n] else cs
  }

  /** The whole search, as `fuzzy_match` starts it. */
  ghost function Search(pat: CString, s: CString, len: nat): Outcome {
    Worker(pat, s, len, [], 0, 0)
  }

  // ---------- soundness: what is found is an embedding and carries its own score ----------

  ghost predicate Honest(pat: string, s: string, len: nat, found: Option<Scored>) {
    found.Some? ==>
      && Embedding(pat, s, found.value.m)
      && 0 < |pat| <= MAX_MATCHES
      && found.value.score == Score(s, len, found.value.m)
  }

  lemma {:induction false} WorkerHonest(pat: CString, s: CString, len: nat, m: seq<nat>, i: nat, count: nat)
    requires Partial(pat, s, m, i) && |m| <= MAX_MATCHES
    ensures Honest(pat, s, len, Worker(pat, s, len, m, i, count).found)
    decreases |s| - i, 1
  {
    if count + 1 < RECURSION_LIMIT && |m| < |pat| && i < |s| {
      WalkHonest(pat, s, len, m, i, None, count + 1);
    }
  }

  lemma {:induction false} WalkHonest(pat: CString, s: CString, len: nat, m: seq<nat>, i: nat, best: Option<Scored>, count: nat)
    requires Partial(pat, s, m, i) && |pat| > 0 && |m| <= MAX_MATCHES
    requires Honest(pat, s, len, best)
    ensures Honest(pat, s, len, Walk(pat, s, len, m, i, best, count).found)
    decreases |s| - i, 0
  {
    if |m| < |pat| && i < |s| {
      if Same(pat[|m|], s[i]) {
        if |m| < MAX_MATCHES {
          WorkerHonest(pat, s, len, m, i + 1, count);
          var r := Worker(pat, s, len, m, i + 1, count);
          WalkHonest(pat, s, len, m + [i], i + 1, Better(best, r.found), r.count);
        }
      } else {
        WalkHonest(pat, s, len, m, i + 1, best, count);
      }
    }
  }

  // ---------- the call counter ----------

  /** The counter after a call: exact while the limit is not reached, at or past the limit otherwise. */
  ghost predicate Counted(before: nat, calls: nat, after: nat) {
    if before + calls < RECURSION_LIMIT then after == before + calls else after >= RECURSION_LIMIT
  }

  lemma {:induction false} WorkerCalls(pat: CString, s: CString, len: nat, m: seq<nat>, i: nat, count: nat)
    requires At(pat, s, m, i) && |pat| <= MAX_MATCHES
    ensures Counted(count, Calls(pat, s, |m|, i), Worker(pat, s, len, m, i, count).count)
    decreases |s| - i, 1
  {
    if count + 1 < RECURSION_LIMIT && |m| < |pat| && i < |s| {
      WalkCounts(pat, s, len, m, i, None, count + 1);
    }
  }

  lemma {:induction false} WalkCounts(pat: CString, s: CString, len: nat, m: seq<nat>, i: nat, best: Option<Scored>, count: nat)
    requires At(pat, s, m, i) && 0 < |pat| <= MAX_MATCHES
    ensures Counted(count, WalkCalls(pat, s, |m|, i), Walk(pat, s, len, m, i, best, count).count)
    decreases |s| - i, 0
  {
    if |m| < |pat| && i < |s| {
      if Same(pat[|m|], s[i]) {
        WorkerCalls(pat, s, len, m, i + 1, count);
        var r := Worker(pat, s, len, m, i + 1, count);
        WalkCounts(pat, s, len, m + [i], i + 1, Better(best, r.found), r.count);
      } else {
        WalkCounts(pat, s, len, m, i + 1, best, count);
      }
    }
  }

  /** Calls below the limit are the ones that run their loop; `n` pays for the calls each of them makes. */
  ghost function Paid(n: nat, from: nat, to: nat): int {
    n * (Capped(to) - Capped(from))
  }

  ghost function Capped(count: nat): nat {
    if count < RECURSION_LIMIT then count else RECURSION_LIMIT - 1
  }

  lemma PaidAdds(n: nat, a: nat, b: nat, c: nat)
    ensures Paid(n, a, c) == Paid(n, a, b) + Paid(n, b, c)
  {}

  lemma {:induction false} WorkerCost(pat: CString, s: CString, len: nat, m: seq<nat>, i: nat, count: nat)
    requires At(pat, s, m, i)
    ensures var after := Worker(pat, s, len, m, i, count).count;
            count < after <= count + 1 + Paid(|pat|, count, after)
    decreases |s| - i, 1
  {
    var after := Worker(pat, s, len, m, i, count).count;
    PaidAdds(|pat|, count, count + 1, after);
    if count + 1 < RECURSION_LIMIT && |m| < |pat| && i < |s| {
      WalkCost(pat, s, len, m, i, None, count + 1);
      assert Paid(|pat|, count, count + 1) == |pat|;
    }
  }

  lemma {:induction false} WalkCost(pat: CString, s: CString, len: nat, m: seq<nat>, i: nat, best: Option<Scored>, count: nat)
    requires At(pat, s, m, i) && |pat| > 0
    ensures var after := Walk(pat, s, len, m, i, best, count).count;
            count <= after <= count + (|pat| - |m|) + Paid(|pat|, count, after)
    decreases |s| - i, 0
  {
    if |m| < |pat| && i < |s| {
      if Same(pat[|m|], s[i]) {
        if |m| < MAX_MATCHES {
          WorkerCost(pat, s, len, m, i + 1, count);
          var r := Worker(pat, s, len, m, i + 1, count);
          WalkCost(pat, s, len, m + [i], i + 1, Better(best, r.found), r.count);
          PaidAdds(|pat|, count, r.count, Walk(pat, s, len, m, i, best, count).count);
        }
      } else {
        WalkCost(pat, s, len, m, i + 1, best, count);
      }
    }
  }


  lemma {:induction false} GreedySound(pat: string, s: string, m: seq<nat>, i: nat)
    requires Partial(pat, s, m, i)
    ensures var g := Greedy(pat, s, m, i); g.Some? ==> Embedding(pat, s, g.value)
    decreases |s| - i
  {
    if |m| < |pat| && i < |s| {
      if Same(pat[|m|], s[i]) { GreedySound(pat, s, m + [i], i + 1); } else { GreedySound(pat, s, m, i + 1); }
    }
  }

  /** An embedding `e` whose remaining choices lie at `i` or later leaves the greedy walk room to finish. */
  lemma {:induction false} GreedyComplete(pat: string, s: string, m: seq<nat>, i: nat, e: seq<nat>)
    requires Partial(pat, s, m, i) && Embedding(pat, s, e)
    requires |m| < |pat| ==> i <= e[|m|]
    ensures Greedy(pat, s, m, i).Some?
    decreases |s| - i
  {
    if |m| < |pat| {
      assert e[|m|] < |s| && Same(pat[|m|], s[e[|m|]]);
      if Same(pat[|m|], s[i]) { GreedyComplete(pat, s, m + [i], i + 1, e); } else { GreedyComplete(pat, s, m, i + 1, e); }
    }
  }

  // ---------- what a search finds: the best of the completions it gets to ----------

  lemma {:induction false} TopAppend(a: seq<Option<Scored>>, b: seq<Option<Scored>>)
    ensures Top(a + b) == Higher(Top(a), Top(b))
  {
    if a == [] {
      assert a + b == b;
    } else {
      TopAppend(a[1..], b);
      assert (a + b)[1..] == a[1..] + b;
    }
  }

  lemma {:induction false} TopBounds(cs: seq<Option<Scored>>, k: nat)
    requires k < |cs| && cs[k].Some?
    ensures Top(cs).Some? && Top(cs).value >= cs[k].value.score
  {
    if k > 0 { TopBounds(cs[1..], k - 1); }
  }

  /** The calls left when the counter is at `count` serve first `a` and then, with what the counter says after it, `b`. */
  lemma TakeAppend<T>(a: seq<T>, b: seq<T>, count: nat, after: nat)
    requires Counted(count, |a|, after)
    ensures Take(a + b, Left(count)) == Take(a, Left(count)) + Take(b, Left(after))
  {}

  lemma HigherSwaps(best: Option<int>, skip: Option<int>, own: Option<int>, later: Option<int>)
    ensures Higher(Higher(best, skip), Higher(own, later)) == Higher(best, Higher(own, Higher(skip, later)))
  {}

  /** What a worker call finds scores exactly the most that any completion it gets to scores, cut or not. */
  lemma {:induction false} WorkerFinds(pat: CString, s: CString, len: nat, m: seq<nat>, i: nat, count: nat)
    requires At(pat, s, m, i) && |m| < |pat| <= MAX_MATCHES
    ensures ScoreOf(Worker(pat, s, len, m, i, count).found) == Top(Take(Completions(pat, s, len, m, i), Left(count)))
    decreases |s| - i, 1
  {
    hide Walk, Completion;
    var own, rest := Completion(pat, s, len, m, i), WalkCompletions(pat, s, len, m, i);
    if count + 1 < RECURSION_LIMIT {
      WalkFinds(pat, s, len, m, i, None, count + 1);
      assert Take([own] + rest, Left(count)) == [own] + Take(rest, Left(count + 1));
      TopAppend([own], Take(rest, Left(count + 1)));
      assert Top([own]) == Higher(ScoreOf(own), Top([]));
      if i == |s| { NothingAtEnd(pat, s, len, m, i); }
    } else {
      assert Take([own] + rest, 0) == [];
    }
  }

  lemma NothingAtEnd(pat: string, s: string, len: nat, m: seq<nat>, i: nat)
    requires At(pat, s, m, i) && |m| < |pat| && i == |s|
    ensures Completion(pat, s, len, m, i).None? && WalkCompletions(pat, s, len, m, i) == []
  {}

  /** The loop finds the best of its own completion, the best match so far, and the completions of the calls it still makes. */
  lemma {:induction false} WalkFinds(pat: CString, s: CString, len: nat, m: seq<nat>, i: nat, best: Option<Scored>, count: nat)
    requires At(pat, s, m, i) && 0 < |pat| <= MAX_MATCHES
    ensures var own, later := ScoreOf(Completion(pat, s, len, m, i)), Top(Take(WalkCompletions(pat, s, len, m, i), Left(count)));
            ScoreOf(Walk(pat, s, len, m, i, best, count).found) == Higher(ScoreOf(best), Higher(own, later))
    decreases |s| - i, 0
  {
    if |m| == |pat| || i == |s| {
      WalkFindsAtEnd(pat, s, len, m, i, best, count);
    } else {
      hide Walk, WalkCompletions, Worker, Completion, Completions, Take, Top, Left, Higher, ScoreOf, Better, Counted;
      WalkMoves(pat, s, len, m, i, best, count);
      CompletionMoves(pat, s, len, m, i);
      if Same(pat[|m|], s[i]) {
        var r := Worker(pat, s, len, m, i + 1, count);
        WorkerFinds(pat, s, len, m, i + 1, count);
        WorkerCalls(pat, s, len, m, i + 1, count);
        WalkFinds(pat, s, len, m + [i], i + 1, Better(best, r.found), r.count);
        SkipThenTake(Completions(pat, s, len, m, i + 1), WalkCompletions(pat, s, len, m + [i], i + 1),
                     best, ScoreOf(Completion(pat, s, len, m, i)), count, r);
      } else {
        WalkFinds(pat, s, len, m, i + 1, best, count);
      }
    }
  }

  lemma WalkFindsAtEnd(pat: CString, s: CString, len: nat, m: seq<nat>, i: nat, best: Option<Scored>, count: nat)
    requires At(pat, s, m, i) && 0 < |pat| && (|m| == |pat| || i == |s|)
    ensures WalkCompletions(pat, s, len, m, i) == []
    ensures ScoreOf(Walk(pat, s, len, m, i, best, count).found)
            == Higher(ScoreOf(best), Higher(ScoreOf(Completion(pat, s, len, m, i)), Top(Take([], Left(count)))))
  {}

  /** One turn of the loop, and the calls it makes. */
  lemma WalkMoves(pat: CString, s: CString, len: nat, m: seq<nat>, i: nat, best: Option<Scored>, count: nat)
    requires At(pat, s, m, i) && |m| < |pat| <= MAX_MATCHES && i < |s|
    ensures var here, calls := Walk(pat, s, len, m, i, best, count), WalkCompletions(pat, s, len, m, i);
            if Same(pat[|m|], s[i]) then
              var r := Worker(pat, s, len, m, i + 1, count);
              && here == Walk(pat, s, len, m + [i], i + 1, Better(best, r.found), r.count)
              && calls == Completions(pat, s, len, m, i + 1) + WalkCompletions(pat, s, len, m + [i], i + 1)
            else
              here == Walk(pat, s, len, m, i + 1, best, count) && calls == WalkCompletions(pat, s, len, m, i + 1)
  {
    hide Worker, Completions, Better;
  }

  /** The greedy walk goes the same way from here as from the next position. */
  lemma CompletionMoves(pat: string, s: string, len: nat, m: seq<nat>, i: nat)
    requires At(pat, s, m, i) && |m| < |pat| && i < |s|
    ensures Completion(pat, s, len, m, i) == Completion(pat, s, len, if Same(pat[|m|], s[i]) then m + [i] else m, i + 1)
  {
    hide Score;
  }

  /** What the calls of the skipped position find, and then those of the taken one, is what they find together. */
  lemma SkipThenTake(skip: seq<Option<Scored>>, later: seq<Option<Scored>>, best: Option<Scored>, own: Option<int>, count: nat, r: Outcome)
    requires Counted(count, |skip|, r.count) && ScoreOf(r.found) == Top(Take(skip, Left(count)))
    ensures Higher(ScoreOf(Better(best, r.found)), Higher(own, Top(Take(later, Left(r.count)))))
            == Higher(ScoreOf(best), Higher(own, Top(Take(skip + later, Left(count)))))
  {
    hide Take, Top, Left;
    TakeAppend(skip, later, count, r.count);
    TopAppend(Take(skip, Left(count)), Take(later, Left(r.count)));
    HigherSwaps(ScoreOf(best), ScoreOf(r.found), own, Top(Take(later, Left(r.count))));
  }

  lemma NextChoice(pat: string, s: string, m: seq<nat>, e: seq<nat>)
    requires Embedding(pat, s, e) && |m| < |pat|
    ensures |m| < |e| && e[|m|] < |s| && Same(pat[|m|], s[e[|m|]])
  {}

  /** Every embedding that continues the choices made is the completion of one of the calls of the uncut search. */
  lemma {:induction false} IsCompletion(pat: string, s: string, len: nat, m: seq<nat>, i: nat, e: seq<nat>) returns (k: nat)
    requires At(pat, s, m, i) && |pat| > 0 && Embedding(pat, s, e) && Continues(e, m, i)
    ensures k < |Completions(pat, s, len, m, i)| && Completions(pat, s, len, m, i)[k] == Some(Scored(Score(s, len, e), e))
    decreases |s| - i
  {
    hide Score, Completion, Completions, WalkCompletions;
    if |m| == |pat| {
      assert e == m;
      CompletionsAtEnd(pat, s, len, m, i);
      k := 0;
    } else {
      hide Embedding;
      NextChoice(pat, s, m, e);
      CompletionsMove(pat, s, len, m, i);
      if !Same(pat[|m|], s[i]) {
        k := IsCompletion(pat, s, len, m, i + 1, e);
      } else if e[|m|] == i {
        k := IsCompletion(pat, s, len, m + [i], i + 1, e);
        if k > 0 { k := k + |Completions(pat, s, len, m, i + 1)|; }
      } else {
        k := IsCompletion(pat, s, len, m, i + 1, e);
        k := k + 1;
      }
    }
  }

  lemma CompletionsAtEnd(pat: string, s: string, len: nat, m: seq<nat>, i: nat)
    requires At(pat, s, m, i) && |pat| > 0 && |m| == |pat|
    ensures Completions(pat, s, len, m, i) == [Some(Scored(Score(s, len, m), m))]
  {}

  /** The calls from one position, by those from the next. */
  lemma CompletionsMove(pat: string, s: string, len: nat, m: seq<nat>, i: nat)
    requires At(pat, s, m, i) && |m| < |pat| && i < |s|
    ensures var own, here, skip := Completion(pat, s, len, m, i), Completions(pat, s, len, m, i), Completions(pat, s, len, m, i + 1);
            if Same(pat[|m|], s[i]) then
              var later := WalkCompletions(pat, s, len, m + [i], i + 1);
              here == [own] + (skip + later) && Completions(pat, s, len, m + [i], i + 1) == [own] + later
            else here == skip
  {
    CompletionMoves(pat, s, len, m, i);
    hide Completion;
  }

  ghost predicate AtLeast(found: Option<Scored>, score: int) {
    found.Some? && found.value.score >= score
  }

  lemma CompletionHonest(pat: CString, s: CString, len: nat, m: seq<nat>, i: nat)
    requires Partial(pat, s, m, i) && 0 < |pat| <= MAX_MATCHES
    ensures Honest(pat, s, len, Completion(pat, s, len, m, i))
  {
    GreedySound(pat, s, m, i);
  }

  /** And every completion is an embedding with its score. */
  lemma {:induction false} CompletionsHonest(pat: CString, s: CString, len: nat, m: seq<nat>, i: nat)
    requires Partial(pat, s, m, i) && 0 < |pat| <= MAX_MATCHES
    ensures forall c :: c in Completions(pat, s, len, m, i) ==> Honest(pat, s, len, c)
    decreases |s| - i
  {
    hide Completion, Honest;
    CompletionHonest(pat, s, len, m, i);
    if |m| < |pat| && i < |s| {
      CompletionsHonest(pat, s, len, m, i + 1);
      if Same(pat[|m|], s[i]) { CompletionsHonest(pat, s, len, m + [i], i + 1); }
    }
  }

  // ---------- the theorems ----------

  /** The completions that the search gets to before it is cut: those of its first nine calls. */
  ghost function FirstNine(pat: CString, s: CString, len: nat): seq<Option<Scored>>
    requires pat != ""
  {
    Take(Completions(pat, s, len, [], 0), 9)
  }

  /** The search finds exactly the highest score among the completions of its first nine calls. */
  lemma FindsBestOfFirstNine(pat: CString, s: CString, len: nat)
    requires 0 < |pat| <= MAX_MATCHES
    ensures ScoreOf(Search(pat, s, len).found) == Top(FirstNine(pat, s, len))
  {
    WorkerFinds(pat, s, len, [], 0, 0);
  }

  /** What has been found scores at least as much as every embedding. */
  ghost predicate BestOfAll(pat: string, s: string, len: nat, found: Option<Scored>)
    requires pat != ""
  {
    forall e :: Embedding(pat, s, e) ==> AtLeast(found, Score(s, len, e))
  }

  /**
   * The answer has the best score of all embeddings exactly when no completion after those of the first nine calls
   * scores more than these do.
   */
  lemma BestExactly(pat: CString, s: CString, len: nat)
    requires 0 < |pat| <= MAX_MATCHES
    ensures BestOfAll(pat, s, len, Search(pat, s, len).found) <==>
            forall c :: c in Completions(pat, s, len, [], 0) && c.Some? ==>
              var nine := Top(FirstNine(pat, s, len)); nine.Some? && c.value.score <= nine.value
  {
    hide Search, Top, Completions, FirstNine;
    var found, all, nine := Search(pat, s, len).found, Completions(pat, s, len, [], 0), Top(FirstNine(pat, s, len));
    FindsBestOfFirstNine(pat, s, len);
    if BestOfAll(pat, s, len, found) {
      forall c | c in all && c.Some? ensures nine.Some? && c.value.score <= nine.value {
        CompletionsHonest(pat, s, len, [], 0);
        assert Embedding(pat, s, c.value.m);
      }
    }
    if forall c :: c in all && c.Some? ==> nine.Some? && c.value.score <= nine.value {
      forall e | Embedding(pat, s, e) ensures AtLeast(found, Score(s, len, e)) {
        var k := IsCompletion(pat, s, len, [], 0, e);
        assert all[k] in all;
      }
    }
  }

  /** The search succeeds exactly when the pattern embeds and is short enough, cut or not. */
  lemma SucceedsExactlyWhenEmbedded(pat: CString, s: CString, len: nat)
    requires pat != ""
    ensures Search(pat, s, len).found.Some? <==> Embeds(pat, s) && |pat| <= 256
  {
    WorkerHonest(pat, s, len, [], 0, 0);
    if Embeds(pat, s) && |pat| <= MAX_MATCHES {
      hide Search;
      var e :| Embedding(pat, s, e);
      assert e[0] < |s|;
      GreedyComplete(pat, s, [], 0, e);
      FindsBestOfFirstNine(pat, s, len);
      TopBounds(FirstNine(pat, s, len), 0);
    }
  }

  /** Cut or not, the answer is a real embedding, carries its own score, and is no worse than the greedy one. */
  lemma SoundWhenCut(pat: CString, s: CString, len: nat)
    requires pat != "" && Search(pat, s, len).found.Some?
    ensures var best := Search(pat, s, len).found.value;
            Embedding(pat, s, best.m) && best.score == Score(s, len, best.m)
    ensures var g := Greedy(pat, s, [], 0);
            g.Some? && Embedding(pat, s, g.value) && Search(pat, s, len).found.value.score >= Score(s, len, g.value)
  {
    WorkerHonest(pat, s, len, [], 0, 0);
    hide Search;
    var e := Search(pat, s, len).found.value.m;
    assert e[0] < |s|;
    GreedyComplete(pat, s, [], 0, e);
    GreedySound(pat, s, [], 0);
    FindsBestOfFirstNine(pat, s, len);
    TopBounds(FirstNine(pat, s, len), 0);
  }

  /** From any point, an uncut call scores at least as much as every embedding that continues the choices made. */
  lemma WorkerOptimal(pat: CString, s: CString, len: nat, m: seq<nat>, i: nat, count: nat, e: seq<nat>)
    requires At(pat, s, m, i) && |m| < |pat| <= MAX_MATCHES
    requires Embedding(pat, s, e) && Continues(e, m, i)
    requires Worker(pat, s, len, m, i, count).count < RECURSION_LIMIT
    ensures AtLeast(Worker(pat, s, len, m, i, count).found, Score(s, len, e))
  {
    hide Worker, Completions;
    var cs := Completions(pat, s, len, m, i);
    WorkerFinds(pat, s, len, m, i, count);
    WorkerCalls(pat, s, len, m, i, count);
    assert Take(cs, Left(count)) == cs;
    var k := IsCompletion(pat, s, len, m, i, e);
    TopBounds(cs, k);
  }

  /** When the uncut search needs fewer calls than the limit, the answer has the best score of all embeddings. */
  lemma BestWhenUncut(pat: CString, s: CString, len: nat, e: seq<nat>)
    requires 0 < |pat| <= MAX_MATCHES && Embedding(pat, s, e)
    requires Calls(pat, s, 0, 0) < RECURSION_LIMIT
    ensures Search(pat, s, len).found.Some?
    ensures Score(s, len, e) <= Search(pat, s, len).found.value.score
  {
    WorkerCalls(pat, s, len, [], 0, 0);
    WorkerOptimal(pat, s, len, [], 0, 0, e);
  }

  /** The counter stays below the limit exactly when the uncut search needs fewer calls than that. */
  lemma CutExactlyWhenTooManyCalls(pat: CString, s: CString, len: nat)
    requires |pat| <= MAX_MATCHES
    ensures Search(pat, s, len).count < RECURSION_LIMIT <==> Calls(pat, s, 0, 0) < RECURSION_LIMIT
    ensures Calls(pat, s, 0, 0) < RECURSION_LIMIT ==> Search(pat, s, len).count == Calls(pat, s, 0, 0)
  {
    WorkerCalls(pat, s, len, [], 0, 0);
  }

  /** Linear work: however many embeddings there are, nine calls run their loop and each calls at most |pat| more. */
  lemma CallsAreLinear(pat: CString, s: CString, len: nat)
    ensures Search(pat, s, len).count <= 1 + 9 * |pat|
  {
    WorkerCost(pat, s, len, [], 0, 0);
    var after := Search(pat, s, len).count;
    assert Capped(0) == 0 && Capped(after) <= RECURSION_LIMIT - 1;
    assert Paid(|pat|, 0, after) <= |pat| * (RECURSION_LIMIT - 1);
  }

  // ---------- a cut search can miss the best embedding ----------

  /** How many of the first `n` characters of the string match a one-letter pattern. */
  ghost function Matches(pat: string, s: string, n: nat): nat
    requires |pat| == 1 && n <= |s|
  {
    if n == 0 then 0 else Matches(pat, s, n - 1) + if Same(pat[0], s[n - 1]) then 1 else 0
  }

  lemma {:induction false} MatchesMonotonic(pat: string, s: string, i: nat, j: nat)
    requires |pat| == 1 && i <= j <= |s|
    ensures Matches(pat, s, i) <= Matches(pat, s, j)
    decreases j
  {
    if i < j { MatchesMonotonic(pat, s, i, j - 1); }
  }

  /** A found match of a one-letter pattern that is among the first nine. */
  ghost predicate Early(pat: string, s: string, found: Option<Scored>)
    requires |pat| == 1
  {
    found.Some? ==> |found.value.m| == 1 && found.value.m[0] < |s| && Matches(pat, s, found.value.m[0]) < RECURSION_LIMIT - 1
  }

  lemma {:induction false} WorkerEarly(pat: CString, s: CString, len: nat, i: nat, count: nat)
    requires |pat| == 1 && i <= |s| && Matches(pat, s, i) <= count
    ensures Early(pat, s, Worker(pat, s, len, [], i, count).found)
    decreases |s| - i, 1
  {
    if count + 1 < RECURSION_LIMIT && i < |s| { WalkEarly(pat, s, len, i, count + 1); }
  }

  lemma {:induction false} WalkEarly(pat: CString, s: CString, len: nat, i: nat, count: nat)
    requires |pat| == 1 && i <= |s| && Matches(pat, s, i) < count < RECURSION_LIMIT
    ensures Early(pat, s, Walk(pat, s, len, [], i, None, count).found)
    decreases |s| - i, 0
  {
    if i < |s| {
      if Same(pat[0], s[i]) {
        WorkerEarly(pat, s, len, i + 1, count);
        assert [] + [i] == [i];
      } else {
        WalkEarly(pat, s, len, i + 1, count);
      }
    }
  }

  /** For one-letter patterns, a match that comes after nine others and scores more than all before it is missed. */
  lemma LateMatchIsMissed(pat: CString, s: CString, len: nat, q: nat)
    requires |pat| == 1 && q < |s| && Same(pat[0], s[q]) && Matches(pat, s, q) >= RECURSION_LIMIT - 1
    requires forall p: nat :: p < q && Same(pat[0], s[p]) ==> Score(s, len, [p]) < Score(s, len, [q])
    ensures Embedding(pat, s, [q]) && Search(pat, s, len).found.Some?
    ensures Search(pat, s, len).found.value.score < Score(s, len, [q])
  {
    hide Worker, Score;
    assert Embedding(pat, s, [q]);
    SucceedsExactlyWhenEmbedded(pat, s, len);
    SoundWhenCut(pat, s, len);
    WorkerEarly(pat, s, len, 0, 0);
    var best := Search(pat, s, len).found.value;
    var p := best.m[0];
    if q <= p { MatchesMonotonic(pat, s, q, p); }
    assert best.m == [p] && Same(pat[0], s[p]);
  }

  /** "a" in "xaaaaaaaaa a": the last 'a' scores best, but the search is cut before it is tried. */
  lemma CutSearchCanMissTheBest(pat: CString, s: CString)
    requires pat == "a" && s == "xaaaaaaaaa a"
    ensures Embedding(pat, s, [11]) && Search(pat, s, 12).found.Some?
    ensures Search(pat, s, 12).found.value.score < Score(s, 12, [11])
    ensures Calls(pat, s, 0, 0) >= RECURSION_LIMIT
  {
    hide Search, Calls;
    assert !Same(pat[0], s[0]) && !Same(pat[0], s[10]) && forall k :: 1 <= k <= 9 ==> Same(pat[0], s[k]);
    assert Matches(pat, s, 2) == Matches(pat, s, 0) + 1 == 1;
    assert Matches(pat, s, 4) == 3;
    assert Matches(pat, s, 6) == 5;
    assert Matches(pat, s, 8) == 7;
    assert Matches(pat, s, 10) == 9;
    assert Matches(pat, s, 11) == 9;
    forall p: nat | p < 11 && Same(pat[0], s[p]) ensures Score(s, 12, [p]) < Score(s, 12, [11]) {
      assert 1 <= p <= 9;
      assert Bonuses(s, [p], 1) == Bonuses(s, [p], 0) + BonusAt(s, [p], 0) == 0;
      assert Bonuses(s, [11], 1) == Bonuses(s, [11], 0) + BonusAt(s, [11], 0) == SEPARATOR_BONUS;
    }
    LateMatchIsMissed(pat, s, 12, 11);
    if Calls(pat, s, 0, 0) < RECURSION_LIMIT {
      BestWhenUncut(pat, s, 12, [11]);
    }
  }
}
