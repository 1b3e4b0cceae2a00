/** The fuzzy matcher as it runs: cursors, match arrays written in place, a shared call counter. */
module FuzzyMatch {
  import opened FuzzyScores
  import opened FuzzySearch
  import opened Wrappers

  /** What a `const char*` made from `s` shows. */
  function CStr(s: string): (r: CString)
    ensures r <= s && (|r| < |s| ==> s[|r|] == '\0')
  {
    if s == "" || s[0] == '\0' then "" else [s[0]] + CStr(s[1..])
  }

  lemma {:induction false} CStrOfPlain(s: string)
    requires LowerCase(s)
    ensures CStr(s) == s
  {
    if s != "" {
      CStrOfPlain(s[1..]);
      assert s == [s[0]] + s[1..];
    }
  }

  /** The choices a worker starts from: the caller's first `n` matches, or none at the root. */
  ghost function Prefix(src: array?<nat>, n: nat): seq<nat>
    requires src != null ==> n <= src.Length
    reads src
  {
    if src == null then [] else src[..n]
  }

  /** Copies the first `n` entries of `src`. */
  method Memcpy(dst: array<nat>, src: array<nat>, n: nat)
    requires dst != src && n <= dst.Length && n <= src.Length
    modifies dst
    ensures forall k :: 0 <= k < n ==> dst[k] == src[k]
    ensures forall k :: n <= k < dst.Length ==> dst[k] == old(dst[k])
  {
    forall k | 0 <= k < n { dst[k] := src[k]; }
  }

  /** One worker call. `outScore` and `score`, `count` and `calls` are a reference argument before and after. */
  method FuzzyMatchRecursive(pattern: CString, p0: nat, str: CString, i0: nat, outScore: int, strLen: nat,
                             src: array?<nat>, matches: array<nat>, maxMatches: nat, nextMatch: nat, count: nat)
    returns (ok: bool, score: int, calls: nat)
    requires maxMatches == matches.Length == MAX_MATCHES && p0 == nextMatch <= MAX_MATCHES
    requires src != null ==> src.Length == MAX_MATCHES && src != matches
    requires src == null ==> nextMatch == 0
    requires At(pattern, str, Prefix(src, nextMatch), i0)
    modifies matches
    ensures var r := Worker(pattern, str, strLen, old(Prefix(src, nextMatch)), i0, count);
            && calls == r.count
            && Holds(pattern, r.found, ok, score, matches)
            && (!ok ==> score == outScore)
    decreases |str| - i0, 1
  {
    score, calls := outScore, count + 1;
    ghost var prefix, goal := Prefix(src, nextMatch), Worker(pattern, str, strLen, Prefix(src, nextMatch), i0, count);
    if calls >= RECURSION_LIMIT { return false, score, calls; }
    if p0 == |pattern| || i0 == |str| { return false, score, calls; }

    var recursiveMatch, bestScore := false, 0;
    var bestMatches := new nat[MAX_MATCHES];
    var firstMatch, p, i, next := true, p0, i0, nextMatch;
    ghost var m: seq<nat>, best: Option<Scored> := prefix, None;
    while p < |pattern| && i < |str|
      invariant p0 <= p == next == |m| <= MAX_MATCHES && i0 <= i
      invariant At(pattern, str, m, i)
      invariant if src == null || !firstMatch then matches[..next] == m else m == prefix && next == nextMatch
      invariant src != null ==> src[..nextMatch] == prefix
      invariant Holds(pattern, best, recursiveMatch, bestScore, bestMatches)
      invariant Walk(pattern, str, strLen, m, i, best, calls) == goal
      decreases |str| - i
    {
      if Lower(pattern[p]) == Lower(str[i]) {
        if next >= maxMatches { return false, score, calls; }
        if firstMatch && src != null {
          Memcpy(matches, src, next);
          firstMatch := false;
        }
        assert matches[..next] == m;
        ghost var r := Worker(pattern, str, strLen, m, i + 1, calls);
        recursiveMatch, bestScore, calls := Skip(pattern, p, str, i, strLen, matches, maxMatches, next, calls,
                                                 m, best, recursiveMatch, bestScore, bestMatches);
        matches[next] := i;
        best, m := Better(best, r.found), m + [i];
        next, p := next + 1, p + 1;
      }
      i := i + 1;
    }

    assert p == |pattern| ==> matches[..next] == m;
    ok, score := PickBetter(pattern, str, strLen, outScore, matches, next, m, best, recursiveMatch, bestScore, bestMatches);
  }

  /** Explore the path that skips the string's character at `i`, and keep its match if it is the best so far. */
  method Skip(pattern: CString, p: nat, str: CString, i: nat, strLen: nat,
              matches: array<nat>, maxMatches: nat, next: nat, count: nat, ghost m: seq<nat>,
              ghost best: Option<Scored>, found0: bool, score0: int, bestMatches: array<nat>)
    returns (found: bool, score: int, calls: nat)
    requires matches != bestMatches && matches.Length == bestMatches.Length == maxMatches == MAX_MATCHES
    requires p == next == |m| <= MAX_MATCHES && matches[..next] == m && i < |str| && At(pattern, str, m, i)
    requires Holds(pattern, best, found0, score0, bestMatches)
    modifies bestMatches
    ensures var r := Worker(pattern, str, strLen, m, i + 1, count);
            calls == r.count && Holds(pattern, Better(best, r.found), found, score, bestMatches)
    decreases |str| - i, 0
  {
    var recursiveMatches := new nat[MAX_MATCHES];
    ghost var r := Worker(pattern, str, strLen, m, i + 1, count);
    var ok, recursiveScore, after := FuzzyMatchRecursive(pattern, p, str, i + 1, 0, strLen,
                                                         matches, recursiveMatches, maxMatches, next, count);
    found, score := KeepBetter(pattern, best, found0, score0, bestMatches, r.found, ok, recursiveScore, recursiveMatches);
    calls := after;
  }

  /** The reference value `best` is what the flag, the score and the array say. */
  ghost predicate Holds(pattern: CString, best: Option<Scored>, found: bool, score: int, m: array<nat>)
    requires m.Length == MAX_MATCHES
    reads m
  {
    && found == best.Some?
    && (found ==> |pattern| <= MAX_MATCHES && best.value.score == score && best.value.m == m[..|pattern|])
  }

  /** Keep the better of the best match so far and the one a recursive call just returned. */
  method KeepBetter(ghost pattern: CString,
                    ghost best: Option<Scored>, found0: bool, score0: int, bestMatches: array<nat>,
                    ghost other: Option<Scored>, found1: bool, score1: int, otherMatches: array<nat>)
    returns (found: bool, score: int)
    requires bestMatches != otherMatches && bestMatches.Length == otherMatches.Length == MAX_MATCHES
    requires Holds(pattern, best, found0, score0, bestMatches)
    requires Holds(pattern, other, found1, score1, otherMatches)
    modifies bestMatches
    ensures Holds(pattern, Better(best, other), found, score, bestMatches)
  {
    found, score := found0, score0;
    if found1 {
      if !found || score1 > score {
        Memcpy(bestMatches, otherMatches, MAX_MATCHES);
        score := score1;
      }
      found := true;
    }
  }

  /** The end of a worker: score this path if it is complete and return the better of it and the best recursive match. */
  method PickBetter(pattern: CString, str: CString, strLen: nat, outScore: int, matches: array<nat>, next: nat, ghost m: seq<nat>,
                    ghost best: Option<Scored>, recursiveMatch: bool, bestScore: int, bestMatches: array<nat>)
    returns (ok: bool, score: int)
    requires matches != bestMatches && matches.Length == bestMatches.Length == MAX_MATCHES
    requires |pattern| > 0 && |m| == next <= MAX_MATCHES && At(pattern, str, m, |str|)
    requires |m| == |pattern| ==> matches[..next] == m
    requires Holds(pattern, best, recursiveMatch, bestScore, bestMatches)
    modifies matches
    ensures Holds(pattern, Walk(pattern, str, strLen, m, |str|, best, 0).found, ok, score, matches)
    ensures !ok ==> score == outScore
  {
    score := outScore;
    var matched := next == |pattern|;
    if matched {
      score := ScoreMatches(str, strLen, matches, next);
    }
    if recursiveMatch && (!matched || bestScore > score) {
      Memcpy(matches, bestMatches, MAX_MATCHES);
      ok, score := true, bestScore;
    } else {
      ok := matched;
    }
  }

  /** The score of the `next` matches recorded in the array. */
  method ScoreMatches(str: CString, strLen: nat, matches: array<nat>, next: nat) returns (score: int)
    requires 0 < next <= matches.Length && Before(matches[..next], |str|)
    ensures score == Score(str, strLen, matches[..next])
    ensures next == 1 ==> score == 100 - AtMost(5 * matches[0], 15) - Excess(strLen, 1) + Alone(str, matches[0])
  {
    ghost var m := matches[..next];
    score := 100;
    var lead := LEADING_LETTER_PENALTY * matches[0];
    var penalty := if lead < MAX_LEADING_PENALTY then MAX_LEADING_PENALTY else lead;
    score := score + penalty;
    var unmatched := strLen - next;
    score := score + UNMATCHED_PENALTY * (if unmatched > 0 then unmatched else 0);
    ghost var base := score;
    for i := 0 to next
      invariant score == base + Bonuses(str, m, i)
    {
      var idx := matches[i];
      if i > 0 && idx == matches[i - 1] + 1 {
        score := score + SEQUENTIAL_BONUS;
      }
      if idx > 0 {
        var neighbor, curr := str[idx - 1], str[idx];
        if IsLower(neighbor) && IsUpper(curr) {
          score := score + CAMEL_BONUS;
        }
        if neighbor == ' ' || neighbor == '_' || neighbor == '-' {
          score := score + SEPARATOR_BONUS;
        }
      } else {
        score := score + FIRST_LETTER_BONUS;
      }
    }
    if next == 1 {
      assert m == [matches[0]];
      OneLetter(str, strLen, matches[0]);
    }
  }

  /** The boolean filter: does the pattern embed in the string? */
  method FuzzyMatchSimple(pattern: string, str: string) returns (ok: bool)
    ensures ok <==> Embeds(pattern, str)
  {
    var p, i := 0, 0;
    ghost var m: seq<nat> := [];
    while p < |pattern| && i < |str|
      invariant p == |m| && Partial(pattern, str, m, i)
      invariant Greedy(pattern, str, m, i) == Greedy(pattern, str, [], 0)
    {
      if Lower(pattern[p]) == Lower(str[i]) {
        m := m + [i];
        p := p + 1;
      }
      i := i + 1;
    }
    GreedySound(pattern, str, [], 0);
    if e :| Embedding(pattern, str, e) {
      GreedyComplete(pattern, str, [], 0, e);
    }
    ok := p == |pattern|;
  }

  /** The scored match. `outScore` and `score` are the caller's score before and after. */
  method FuzzyMatch(pattern: string, str: string, outScore: int) returns (ok: bool, score: int, calls: nat)
    ensures pattern == "" ==> ok && score == 0 && calls == 0
    ensures pattern != "" && str == "" ==> !ok && score == 0 && calls == 0
    ensures pattern != "" && str != "" ==>
              var r := Search(CStr(pattern), CStr(str), |str|);
              calls == r.count && ok == r.found.Some? && score == if ok then r.found.value.score else outScore
    // What that means, for every input.
    ensures ok <==> pattern == "" || (0 < |CStr(pattern)| <= 256 && Embeds(CStr(pattern), CStr(str)))
    ensures calls <= 1 + 9 * |CStr(pattern)|
    ensures ok && pattern != "" ==>
              exists e :: Embedding(CStr(pattern), CStr(str), e) && score == Score(CStr(str), |str|, e)
    ensures ok && pattern != "" && calls < 10 ==>
              forall e :: Embedding(CStr(pattern), CStr(str), e) ==> Score(CStr(str), |str|, e) <= score
    ensures pattern == str && 0 < |pattern| <= 256 && LowerCase(pattern) ==> ok && score == 100 + 15 * |pattern|
  {
    ghost var P, S := CStr(pattern), CStr(str);
    if pattern == "" { return true, 0, 0; }
    if str == "" {
      forall e | |e| > 0 ensures !Embedding(P, S, e) { assert !(e[0] < |S|); }
      return false, 0, 0;
    }
    var matches := new nat[MAX_MATCHES];
    var pat, s := CStr(pattern), CStr(str);
    ok, score, calls := FuzzyMatchRecursive(pat, 0, s, 0, outScore, |str|, null, matches, MAX_MATCHES, 0, 0);
    CallsAreLinear(P, S, |str|);
    if |P| > 0 {
      SucceedsExactlyWhenEmbedded(P, S, |str|);
    }
    if pattern == str && |pattern| <= 256 && LowerCase(pattern) {
      CStrOfPlain(pattern);
      SelfScore(P);
    }
    if ok {
      WorkerHonest(P, S, |str|, [], 0, 0);
      CutExactlyWhenTooManyCalls(P, S, |str|);
      if calls < RECURSION_LIMIT {
        forall e | Embedding(P, S, e) ensures Score(S, |str|, e) <= score {
          BestWhenUncut(P, S, |str|, e);
        }
      }
    }
  }
}
