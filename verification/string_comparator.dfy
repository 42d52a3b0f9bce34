/**
  `StringComparator` / `StringComparison`: a prefix matcher over a closed,
  ordered vocabulary of C strings. A comparator is the immutable vocabulary;
  a session holds one liveness flag per candidate and a shared count of the
  bytes consumed. The session's heap array becomes an owned sequence, and a
  session whose flag array or parent is NULL is `Null`.
 */
module StringComparator {
  import opened Bytes

  /** The candidates, in construction order. */
  type Vocab = seq<seq<uint8>>

  /** A C string cannot contain its own terminator. */
  predicate ValidVocab(v: Vocab)
  {
    forall i, k :: 0 <= i < |v| && 0 <= k < |v[i]| ==> v[i][k] != NUL
  }

  /** The comparator: its vocabulary is fixed at construction. */
  datatype Comparator = Comparator(strings: Vocab)

  datatype Session =
    | Null
    | Live(vocab: Vocab, alive: seq<bool>, count: nat)

  /** A live session has exactly one flag per candidate. */
  predicate WellFormed(s: Session)
  {
    s.Live? ==> |s.alive| == |s.vocab|
  }

  /** `charAt(idx, pos)`: the candidate's byte at `pos`; at `pos == len` the
      terminating NUL. Past the terminator the source reads whatever memory
      follows the string; the model yields -1, which equals no input byte. */
  function CharAt(v: Vocab, i: nat, pos: nat): (b: int)
    requires i < |v|
    ensures pos < |v[i]| ==> b == v[i][pos] as int
    ensures pos == |v[i]| ==> b == 0
    ensures pos > |v[i]| ==> b == -1
  {
    if pos < |v[i]| then v[i][pos] as int else if pos == |v[i]| then 0 else -1
  }

  function AllAlive(n: nat): (a: seq<bool>)
    ensures |a| == n && forall i :: 0 <= i < n ==> a[i]
  {
    seq(n, _ => true)
  }

  /** `create()`: a session bound to this vocabulary, every candidate alive,
      nothing consumed. */
  function Create(cmp: Comparator): (s: Session)
    ensures s.Live? && s.vocab == cmp.strings && s.count == 0
    ensures WellFormed(s) && forall i :: 0 <= i < |s.alive| ==> s.alive[i]
  {
    Live(cmp.strings, AllAlive(|cmp.strings|), 0)
  }

  /** A value-initialised session: no vocabulary, no flags. */
  function Default(): (s: Session)
    ensures s.Null? && HasMatch(s) == MatchResult(false, None)
  {
    Null
  }

  /** The move constructor and move assignment: the destination takes the
      flags, the count and the vocabulary; the source is left without a
      flag array, so it acts as a null session from then on. */
  function Move(src: Session): (res: (Session, Session))
    ensures res.0 == src
    ensures res.1 == Null && !HasMatch(res.1).matched
  {
    (src, Null)
  }

  /** `reset()`: every candidate alive again and the count back to 0; a null
      session is left alone. */
  function Reset(s: Session): (s': Session)
    ensures s.Null? ==> s' == Null
    ensures s.Live? ==> s'.Live? && s'.vocab == s.vocab && s'.count == 0
    ensures s.Live? ==> |s'.alive| == |s.vocab| && forall i :: 0 <= i < |s'.alive| ==> s'.alive[i]
  {
    match s
    case Null => Null
    case Live(v, _, _) => Live(v, AllAlive(|v|), 0)
  }

  /** `next(c)`: a candidate stays alive only if it was alive and its byte
      at the current count is `c`; then the count goes up by one. A null
      session is left alone. */
  function Next(s: Session, c: uint8): (s': Session)
    requires WellFormed(s)
    ensures WellFormed(s')
    ensures s.Null? ==> s' == Null
    ensures s.Live? ==>
      && s'.Live? && s'.vocab == s.vocab && s'.count == s.count + 1
      && |s'.alive| == |s.alive|
      && forall i :: 0 <= i < |s.alive| ==>
           (s'.alive[i] <==> s.alive[i] && CharAt(s.vocab, i, s.count) == c as int)
  {
    match s
    case Null => Null
    case Live(v, a, n) =>
      Live(v, seq(|a|, i requires 0 <= i < |a| => a[i] && CharAt(v, i, n) == c as int), n + 1)
  }

  /** Feeding a run of bytes one `next` at a time. */
  function Feed(s: Session, w: seq<uint8>): (s': Session)
    requires WellFormed(s)
    ensures WellFormed(s')
    ensures s.Null? <==> s'.Null?
    ensures s.Live? ==> s'.vocab == s.vocab && s'.count == s.count + |w| && |s'.alive| == |s.alive|
    decreases |w|
  {
    if |w| == 0 then s else Next(Feed(s, w[..|w| - 1]), w[|w| - 1])
  }

  /** Feeding a run in two pieces is feeding it at once: a token split
      across reads is classified as if it arrived whole. */
  lemma {:induction false} FeedAppend(s: Session, a: seq<uint8>, b: seq<uint8>)
    requires WellFormed(s)
    ensures Feed(s, a + b) == Feed(Feed(s, a), b)
    decreases |b|
  {
    if |b| == 0 {
      assert a + b == a;
    } else {
      assert (a + b)[..|a + b| - 1] == a + b[..|b| - 1];
      FeedAppend(s, a, b[..|b| - 1]);
    }
  }

  /** What `hasMatch(idx)` reports: whether it returned true, and what it
      wrote to `idx` (nothing, when no candidate is alive). */
  datatype MatchResult = MatchResult(matched: bool, idx: Option<nat>)

  /** The first alive candidate at or after `from`. */
  function FirstAlive(a: seq<bool>, from: nat): (r: Option<nat>)
    requires from <= |a|
    ensures r.Some? ==> from <= r.value < |a| && a[r.value]
    ensures r.Some? ==> forall i :: from <= i < r.value ==> !a[i]
    ensures r.None? ==> forall i :: from <= i < |a| ==> !a[i]
    decreases |a| - from
  {
    if from == |a| then None
    else if a[from] then Some(from)
    else FirstAlive(a, from + 1)
  }

  /** `hasMatch(idx)`: looks only at the first alive candidate, writes its
      index, and succeeds iff that candidate's length equals the count. */
  function HasMatch(s: Session): (m: MatchResult)
    requires WellFormed(s)
    ensures s.Null? ==> m == MatchResult(false, None)
    ensures s.Live? && m.idx.Some? ==>
      && m.idx.value < |s.vocab| && s.alive[m.idx.value]
      && (forall i :: 0 <= i < m.idx.value ==> !s.alive[i])
      && (m.matched <==> |s.vocab[m.idx.value]| == s.count)
    ensures s.Live? && m.idx.None? ==>
      !m.matched && forall i :: 0 <= i < |s.alive| ==> !s.alive[i]
  {
    match s
    case Null => MatchResult(false, None)
    case Live(v, a, n) =>
      var first := FirstAlive(a, 0);
      if first.None? then MatchResult(false, None)
      else MatchResult(|v[first.value]| == n, first)
  }

  // ---------------------------------------------------------------------
  // Properties of sessions
  // ---------------------------------------------------------------------

  predicate IsPrefix(w: seq<uint8>, s: seq<uint8>)
  {
    |w| <= |s| && s[..|w|] == w
  }

  /** Liveness is monotone: a candidate dead before a run of bytes is still
      dead after it. */
  lemma {:induction false} FeedMonotone(s: Session, w: seq<uint8>, i: nat)
    requires WellFormed(s) && s.Live? && i < |s.alive| && !s.alive[i]
    ensures !Feed(s, w).alive[i]
    decreases |w|
  {
    if |w| > 0 {
      FeedMonotone(s, w[..|w| - 1], i);
    }
  }

  /** After feeding `w` to a fresh session, candidate i is alive exactly
      when `w` is a prefix of the candidate followed by its NUL terminator. */
  lemma {:induction false} AliveIffPrefix(cmp: Comparator, w: seq<uint8>, i: nat)
    requires i < |cmp.strings|
    ensures Feed(Create(cmp), w).alive[i] <==> IsPrefix(w, cmp.strings[i] + [NUL])
    decreases |w|
  {
    if |w| > 0 {
      var init := w[..|w| - 1];
      AliveIffPrefix(cmp, init, i);
      var t := cmp.strings[i] + [NUL];
      if IsPrefix(w, t) {
        assert t[..|init|] == init;
      }
      if IsPrefix(init, t) && |init| < |t| && t[|init|] == w[|w| - 1] {
        assert t[..|w|] == t[..|init|] + [t[|init|]];
        assert w == init + [w[|w| - 1]];
      }
    }
  }

  /** For a word without NUL bytes, alive means "the word is a prefix of the
      candidate". */
  lemma AliveIffPrefixNulFree(cmp: Comparator, w: seq<uint8>, i: nat)
    requires i < |cmp.strings| && NUL !in w
    ensures Feed(Create(cmp), w).alive[i] <==> IsPrefix(w, cmp.strings[i])
  {
    AliveIffPrefix(cmp, w, i);
    var t := cmp.strings[i] + [NUL];
    if IsPrefix(w, cmp.strings[i]) {
      assert t[..|w|] == cmp.strings[i][..|w|];
    }
  }

  /** A reported match is genuine: the bytes fed are exactly the candidate
      whose index was written. */
  lemma MatchIsExact(cmp: Comparator, w: seq<uint8>)
    requires HasMatch(Feed(Create(cmp), w)).matched
    ensures HasMatch(Feed(Create(cmp), w)).idx.Some?
    ensures w == cmp.strings[HasMatch(Feed(Create(cmp), w)).idx.value]
  {
    var j := HasMatch(Feed(Create(cmp), w)).idx.value;
    AliveIffPrefix(cmp, w, j);
    assert (cmp.strings[j] + [NUL])[..|w|] == cmp.strings[j];
  }

  /** Feeding exactly candidate j reports candidate j, provided no earlier
      candidate has candidate j as a prefix (such a candidate would be the
      first alive one and would hide j). */
  lemma ExactCandidateMatches(cmp: Comparator, j: nat)
    requires ValidVocab(cmp.strings) && j < |cmp.strings|
    requires forall i :: 0 <= i < j ==> !IsPrefix(cmp.strings[j], cmp.strings[i])
    ensures HasMatch(Feed(Create(cmp), cmp.strings[j])) == MatchResult(true, Some(j))
  {
    var w := cmp.strings[j];
    assert NUL !in w;
    var s := Feed(Create(cmp), w);
    AliveIffPrefixNulFree(cmp, w, j);
    forall i | 0 <= i < j
      ensures !s.alive[i]
    {
      AliveIffPrefixNulFree(cmp, w, i);
    }
    var first := FirstAlive(s.alive, 0);
    assert first == Some(j);
  }

  /** No candidate is a prefix of another, so the first-alive shortcut of
      `hasMatch` cannot hide an exact match. */
  predicate PrefixFree(v: Vocab)
  {
    forall i, j :: 0 <= i < |v| && 0 <= j < |v| && i != j ==> !IsPrefix(v[i], v[j])
  }

  /** Over a prefix-free vocabulary without NUL bytes, `hasMatch` after a
      fresh session is fed `w` succeeds exactly when `w` is one of the
      candidates, and then names that candidate. */
  lemma MatchIffCandidate(cmp: Comparator, w: seq<uint8>)
    requires ValidVocab(cmp.strings) && PrefixFree(cmp.strings)
    ensures HasMatch(Feed(Create(cmp), w)).matched <==> w in cmp.strings
    ensures HasMatch(Feed(Create(cmp), w)).matched ==>
      && HasMatch(Feed(Create(cmp), w)).idx.Some?
      && cmp.strings[HasMatch(Feed(Create(cmp), w)).idx.value] == w
  {
    if HasMatch(Feed(Create(cmp), w)).matched {
      MatchIsExact(cmp, w);
    }
    if w in cmp.strings {
      var j :| 0 <= j < |cmp.strings| && cmp.strings[j] == w;
      ExactCandidateMatches(cmp, j);
    }
  }

  /** The index-order shortcut, as written: with candidates "ab" then "a",
      feeding "a" leaves "ab" as the first alive candidate, whose length is
      not the count, so no match is reported although "a" was fed exactly. */
  lemma ShorterCandidateHidden()
    ensures HasMatch(Feed(Create(Comparator([[97, 98], [97]])), [97]))
         == MatchResult(false, Some(0))
  {
    var cmp := Comparator([[97, 98], [97]]);
    AliveIffPrefixNulFree(cmp, [97], 0);
    var s := Feed(Create(cmp), [97]);
    assert s.alive[0];
    assert FirstAlive(s.alive, 0) == Some(0);
  }

  /** Operations on a null session (value-initialised or moved-from) do
      nothing and never report a match. */
  lemma NullSessionInert(w: seq<uint8>)
    ensures Reset(Null) == Null
    ensures Feed(Null, w) == Null
    ensures HasMatch(Feed(Null, w)) == MatchResult(false, None)
  {
  }
}
