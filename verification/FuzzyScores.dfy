/** What a score is worth in numbers, and which characters match. */
module FuzzyScores {
  import opened FuzzySearch
  import opened Wrappers

  /** What a match at `q` earns by where it is: at the start, after a separator, or at a step from lower to upper case. */
  ghost function Alone(s: string, q: nat): int
    requires q < |s|
  {
    if q == 0 then 15
    else
      (if s[q - 1] == ' ' || s[q - 1] == '_' || s[q - 1] == '-' then 30 else 0)
      + (if 'a' <= s[q - 1] <= 'z' && 'A' <= s[q] <= 'Z' then 30 else 0)
  }

  ghost function AtMost(a: int, b: int): int { if a <= b then a else b }

  ghost function Excess(a: int, b: int): int { if a > b then a - b else 0 }

  /** The score of a one-letter match. */
  lemma OneLetter(s: string, len: nat, q: nat)
    requires q < |s|
    ensures Score(s, len, [q]) == 100 - AtMost(5 * q, 15) - Excess(len, 1) + Alone(s, q)
  {
    assert Bonuses(s, [q], 1) == Bonuses(s, [q], 0) + BonusAt(s, [q], 0);
  }

  /** One more match: a character less is unmatched, the position earns its own, and 15 if it is next to the last match. */
  lemma OneMoreMatch(s: string, len: nat, m: seq<nat>, q: nat)
    requires |m| > 0 && Before(m, q) && q < |s|
    ensures Score(s, len, m + [q]) ==
            Score(s, len, m) + (if len > |m| then 1 else 0) + Alone(s, q) + if q == m[|m| - 1] + 1 then 15 else 0
  {
    BonusesOfPrefix(s, m, q, |m|);
    assert Bonuses(s, m + [q], |m| + 1) == Bonuses(s, m + [q], |m|) + BonusAt(s, m + [q], |m|);
  }

  lemma {:induction false} BonusesOfPrefix(s: string, m: seq<nat>, q: nat, n: nat)
    requires n <= |m| && Before(m, |s|) && q < |s|
    ensures Bonuses(s, m + [q], n) == Bonuses(s, m, n)
  {
    if n > 0 { BonusesOfPrefix(s, m, q, n - 1); }
  }

  predicate LowerCase(s: string) {
    forall i :: 0 <= i < |s| ==> 'a' <= s[i] <= 'z'
  }

  /** `n` adjacent positions from `q` on. */
  ghost function Adjacent(q: nat, n: nat): (m: seq<nat>)
    ensures |m| == n && forall i :: 0 <= i < n ==> m[i] == q + i
  {
    seq(n, i requires 0 <= i < n => q + i)
  }

  /** In plain text a run of `n` adjacent matches earns 15 for each but the first. */
  lemma {:induction false} RunScore(s: string, len: nat, q: nat, n: nat)
    requires LowerCase(s) && n > 0 && q + n <= |s| <= len
    ensures Score(s, len, Adjacent(q, n)) == 100 - AtMost(5 * q, 15) - (len - n) + (if q == 0 then 15 else 0) + 15 * (n - 1)
  {
    if n == 1 {
      OneLetter(s, len, q);
      assert Adjacent(q, 1) == [q];
    } else {
      RunScore(s, len, q, n - 1);
      OneMoreMatch(s, len, Adjacent(q, n - 1), q + n - 1);
      assert Adjacent(q, n) == Adjacent(q, n - 1) + [q + n - 1];
    }
  }

  /** And a gap earns nothing. */
  lemma GapScore(s: string, len: nat, p: nat, q: nat)
    requires LowerCase(s) && p + 1 < q < |s| <= len
    ensures Score(s, len, [p, q]) == 100 - AtMost(5 * p, 15) - (len - 2) + if p == 0 then 15 else 0
  {
    OneLetter(s, len, p);
    OneMoreMatch(s, len, [p], q);
    assert [p, q] == [p] + [q];
  }

  /** Two characters match exactly if they are equal or the two cases of one of the 26 letters. */
  lemma SameExactly(a: char, b: char)
    ensures Same(a, b) <==> a == b || ('A' <= a <= 'Z' && b as int == a as int + 32) || ('A' <= b <= 'Z' && a as int == b as int + 32)
  {}

  /** A word fits itself in one way only. */
  lemma OnlyIdentity(w: string, e: seq<nat>)
    requires Embedding(w, w, e)
    ensures e == Adjacent(0, |w|)
  {
    forall k | 0 <= k < |w| ensures e[k] == k {
      NotBefore(w, e, k);
      NotAfter(w, e, k);
    }
  }

  lemma {:induction false} NotBefore(w: string, e: seq<nat>, k: nat)
    requires Embedding(w, w, e) && k < |w|
    ensures e[k] >= k
  {
    if k > 0 { NotBefore(w, e, k - 1); }
  }

  lemma {:induction false} NotAfter(w: string, e: seq<nat>, k: nat)
    requires Embedding(w, w, e) && k < |w|
    ensures e[k] <= k
    decreases |w| - k
  {
    if k + 1 < |w| { NotAfter(w, e, k + 1); }
  }

  /** A lower-case word of up to 256 letters, searched for in itself, scores 100 and 15 for each letter. */
  lemma SelfScore(w: CString)
    requires 0 < |w| <= 256 && LowerCase(w)
    ensures Search(w, w, |w|).found.Some? && Search(w, w, |w|).found.value.score == 100 + 15 * |w|
  {
    hide Search, Score, Embedding;
    IdentityEmbeds(w);
    SucceedsExactlyWhenEmbedded(w, w, |w|);
    SoundWhenCut(w, w, |w|);
    OnlyIdentity(w, Search(w, w, |w|).found.value.m);
    RunScore(w, |w|, 0, |w|);
  }

  lemma IdentityEmbeds(w: string)
    ensures Embedding(w, w, Adjacent(0, |w|))
  {}
}
