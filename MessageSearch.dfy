/**
 * The message search of fast-search-rs: a store of OCR'd messages that grows
 * by appending, and a search that keeps the messages a scorer accepts,
 * ranks them by score and then by OCR correctness, both descending, and
 * returns the first `take` as result records.  The scorers and the Hangul
 * disassembly are foreign code and enter as functions.
 */
module MessageSearch {

  /** A rectangle as four coordinates. */
  type Rect = (real, real, real, real)

  /** One message of the store; `correct` is the OCR confidence. */
  datatype Message = Message(articleId: nat, page: real, message: string, correct: real, rects: Rect)

  /** One search hit. */
  datatype MessageResult = MessageResult(id: nat, page: real, correct: real, score: real, rects: Rect)

  /** A similarity method: which texts it accepts, and how close each is to the query. */
  datatype Scorer = Scorer(filter: string -> bool, similarity: string -> real)

  /** A message paired with its score, as the search collects them. */
  datatype Scored = Scored(msg: Message, score: real)

  // ---------------------------------------------------------------------------
  // convert_query

  /** `char::is_whitespace`: the Unicode White_Space property. */
  predicate IsWhitespace(c: char)
  {
    || '\U{0009}' <= c <= '\U{000D}' || c == '\U{0020}' || c == '\U{0085}' || c == '\U{00A0}'
    || c == '\U{1680}' || '\U{2000}' <= c <= '\U{200A}' || c == '\U{2028}' || c == '\U{2029}'
    || c == '\U{202F}' || c == '\U{205F}' || c == '\U{3000}'
  }

  /** The characters of s that are not white space, in order. */
  function StripWhitespace(s: string): (r: string)
    ensures forall i :: 0 <= i < |r| ==> !IsWhitespace(r[i])
  {
    if s == [] then []
    else (if IsWhitespace(s[0]) then [] else [s[0]]) + StripWhitespace(s[1..])
  }

  lemma {:induction false} StripAppend(a: string, b: string)
    ensures StripWhitespace(a + b) == StripWhitespace(a) + StripWhitespace(b)
  {
    if a == [] {
      assert a + b == b;
    } else {
      assert (a + b)[1..] == a[1..] + b;
      StripAppend(a[1..], b);
    }
  }

  /** Every character that is not white space keeps its number of occurrences. */
  lemma {:induction false} StripKeepsText(s: string, c: char)
    requires !IsWhitespace(c)
    ensures multiset(StripWhitespace(s))[c] == multiset(s)[c]
  {
    if s != [] {
      StripKeepsText(s[1..], c);
      assert s == [s[0]] + s[1..];
    }
  }

  /** Text without white space is left alone, so stripping twice is stripping once. */
  lemma {:induction false} StripIdentity(s: string)
    requires forall i :: 0 <= i < |s| ==> !IsWhitespace(s[i])
    ensures StripWhitespace(s) == s
  {
    if s != [] {
      StripIdentity(s[1..]);
      assert s == [s[0]] + s[1..];
    }
  }

  /** `convert_query`: disassemble, then `retain` the characters that are not white space. */
  method ConvertQuery(query: string, disassemble: string -> string) returns (r: string)
    ensures r == StripWhitespace(disassemble(query))
    ensures forall i :: 0 <= i < |r| ==> !IsWhitespace(r[i])
  {
    var s := disassemble(query);
    r := [];
    var i := 0;
    while i < |s|
      invariant 0 <= i <= |s|
      invariant r == StripWhitespace(s[..i])
    {
      StripAppend(s[..i], [s[i]]);
      assert s[..i + 1] == s[..i] + [s[i]];
      if !IsWhitespace(s[i]) {
        r := r + [s[i]];
      }
      i := i + 1;
    }
    assert s[..i] == s;
  }

  // ---------------------------------------------------------------------------
  // Ranking

  /** a sorts strictly before b: a higher score, or an equal score and a higher correctness. */
  predicate Before(a: Scored, b: Scored)
  {
    a.score > b.score || (a.score == b.score && a.msg.correct > b.msg.correct)
  }

  /** No later element ranks strictly above an earlier one. */
  predicate Ordered(s: seq<Scored>)
  {
    forall i, j :: 0 <= i < j < |s| ==> !Before(s[j], s[i])
  }

  /** Places x before the first element it does not rank below, so that it stays ahead of its equals. */
  function Insert(x: Scored, s: seq<Scored>): (r: seq<Scored>)
    ensures multiset(r) == multiset{x} + multiset(s)
  {
    if s == [] || !Before(s[0], x) then [x] + s
    else
      assert s == [s[0]] + s[1..];
      [s[0]] + Insert(x, s[1..])
  }

  /** `sort_by` with the score-then-correctness comparator, a stable sort. */
  function SortRanked(xs: seq<Scored>): (r: seq<Scored>)
    ensures multiset(r) == multiset(xs)
  {
    if xs == [] then []
    else
      assert xs == [xs[0]] + xs[1..];
      Insert(xs[0], SortRanked(xs[1..]))
  }

  lemma {:induction false} InsertOrdered(x: Scored, s: seq<Scored>)
    requires Ordered(s)
    ensures Ordered(Insert(x, s))
  {
    if s == [] || !Before(s[0], x) {
      var r := [x] + s;
      forall i, j | 0 <= i < j < |r|
        ensures !Before(r[j], r[i])
      {
        if i == 0 && j > 1 {
          assert !Before(s[j - 1], s[0]);
        }
      }
    } else {
      var t := s[1..];
      assert Ordered(t) by {
        forall i, j | 0 <= i < j < |t| ensures !Before(t[j], t[i]) {
          assert t[j] == s[j + 1] && t[i] == s[i + 1];
        }
      }
      InsertOrdered(x, t);
      var tail := Insert(x, t);
      var r := [s[0]] + tail;
      forall j | 0 < j < |r|
        ensures !Before(r[j], s[0])
      {
        assert r[j] in multiset(tail);
        if r[j] != x {
          assert r[j] in multiset(t);
          var k :| 0 <= k < |t| && t[k] == r[j];
          assert s[k + 1] == r[j];
        }
      }
    }
  }

  lemma {:induction false} SortRankedOrdered(xs: seq<Scored>)
    ensures Ordered(SortRanked(xs))
  {
    if xs != [] {
      SortRankedOrdered(xs[1..]);
      InsertOrdered(xs[0], SortRanked(xs[1..]));
    }
  }

  /** Two entries tie when they have the same score and the same correctness. */
  predicate SameRank(a: Scored, score: real, correct: real)
  {
    a.score == score && a.msg.correct == correct
  }

  /** The entries with one rank, in order. */
  function WithRank(s: seq<Scored>, score: real, correct: real): seq<Scored>
  {
    if s == [] then []
    else (if SameRank(s[0], score, correct) then [s[0]] else []) + WithRank(s[1..], score, correct)
  }

  lemma {:induction false} WithRankCons(a: Scored, s: seq<Scored>, score: real, correct: real)
    ensures WithRank([a] + s, score, correct) == (if SameRank(a, score, correct) then [a] else []) + WithRank(s, score, correct)
  {
    assert ([a] + s)[1..] == s;
  }

  lemma {:induction false} InsertWithRank(x: Scored, s: seq<Scored>, score: real, correct: real)
    ensures WithRank(Insert(x, s), score, correct)
         == (if SameRank(x, score, correct) then [x] else []) + WithRank(s, score, correct)
  {
    var xs := if SameRank(x, score, correct) then [x] else [];
    if s == [] || !Before(s[0], x) {
      WithRankCons(x, s, score, correct);
    } else {
      var y, t := s[0], s[1..];
      var ys := if SameRank(y, score, correct) then [y] else [];
      InsertWithRank(x, t, score, correct);
      WithRankCons(y, Insert(x, t), score, correct);
      assert s == [y] + t;
      WithRankCons(y, t, score, correct);
      assert xs == [] || ys == [];
      SwapSingles(xs, ys, WithRank(t, score, correct));
    }
  }

  lemma {:induction false} SwapSingles<T>(xs: seq<T>, ys: seq<T>, w: seq<T>)
    requires xs == [] || ys == []
    ensures ys + (xs + w) == xs + (ys + w)
  {
    if xs == [] {
      assert ys + ([] + w) == ys + w;
    } else {
      assert ys + (xs + w) == xs + w;
    }
  }

  /** The sort is stable: entries of equal rank keep their collected order. */
  lemma {:induction false} SortRankedStable(xs: seq<Scored>, score: real, correct: real)
    ensures WithRank(SortRanked(xs), score, correct) == WithRank(xs, score, correct)
  {
    if xs != [] {
      SortRankedStable(xs[1..], score, correct);
      InsertWithRank(xs[0], SortRanked(xs[1..]), score, correct);
    }
  }

  // ---------------------------------------------------------------------------
  // search

  /** The messages the scorer accepts, each with its similarity, in store order. */
  function Candidates(msgs: seq<Message>, scorer: Scorer): (r: seq<Scored>)
    ensures forall c :: c in r ==>
      (c.msg in msgs && scorer.filter(c.msg.message) && c.score == scorer.similarity(c.msg.message))
    ensures forall m :: m in msgs && scorer.filter(m.message) ==> Scored(m, scorer.similarity(m.message)) in r
  {
    if msgs == [] then []
    else
      var m := msgs[0];
      var rest := Candidates(msgs[1..], scorer);
      assert forall x :: x in msgs ==> x == m || x in msgs[1..];
      (if scorer.filter(m.message) then [Scored(m, scorer.similarity(m.message))] else []) + rest
  }

  /** The positions, from `lo` on, of the messages the scorer accepts, in increasing order. */
  function AcceptedFrom(msgs: seq<Message>, scorer: Scorer, lo: nat): (r: seq<nat>)
    requires lo <= |msgs|
    ensures forall k :: 0 <= k < |r| ==> lo <= r[k] < |msgs| && scorer.filter(msgs[r[k]].message)
    ensures forall k, l :: 0 <= k < l < |r| ==> r[k] < r[l]
    ensures forall i :: lo <= i < |msgs| && scorer.filter(msgs[i].message) ==> i in r
    decreases |msgs| - lo
  {
    if lo == |msgs| then []
    else
      var rest := AcceptedFrom(msgs, scorer, lo + 1);
      if scorer.filter(msgs[lo].message) then
        assert forall k :: 0 < k < |rest| + 1 ==> ([lo] + rest)[k] == rest[k - 1];
        [lo] + rest
      else rest
  }

  /**
   * `filter().map().collect()` keeps one entry per accepted message, in
   * store order: the k-th candidate is the k-th accepted message with its
   * similarity, and there are exactly as many candidates as accepted
   * messages, duplicates included.
   */
  lemma {:induction false} CandidatesAccepted(msgs: seq<Message>, scorer: Scorer)
    ensures var c, idx := Candidates(msgs, scorer), AcceptedFrom(msgs, scorer, 0);
            && |c| == |idx|
            && forall k :: 0 <= k < |c| ==> c[k] == Scored(msgs[idx[k]], scorer.similarity(msgs[idx[k]].message))
  {
    assert msgs[0..] == msgs;
    CandidatesFrom(msgs, scorer, 0);
  }

  /** Entry k of `c` is the message at position `idx[k]` with its similarity. */
  predicate Matches(c: seq<Scored>, idx: seq<nat>, msgs: seq<Message>, scorer: Scorer)
  {
    && |c| == |idx|
    && forall k :: 0 <= k < |c| ==> idx[k] < |msgs| && c[k] == Scored(msgs[idx[k]], scorer.similarity(msgs[idx[k]].message))
  }

  lemma {:induction false} CandidatesFrom(msgs: seq<Message>, scorer: Scorer, lo: nat)
    requires lo <= |msgs|
    ensures Matches(Candidates(msgs[lo..], scorer), AcceptedFrom(msgs, scorer, lo), msgs, scorer)
    decreases |msgs| - lo
  {
    if lo < |msgs| {
      CandidatesFrom(msgs, scorer, lo + 1);
      var rest, restIdx := Candidates(msgs[lo + 1..], scorer), AcceptedFrom(msgs, scorer, lo + 1);
      var accepted := CandidatesUnfold(msgs, scorer, lo);
      if accepted {
        MatchesCons(rest, restIdx, msgs, scorer, lo);
      }
    }
  }

  /** One step of Candidates and AcceptedFrom at position lo. */
  lemma {:induction false} CandidatesUnfold(msgs: seq<Message>, scorer: Scorer, lo: nat) returns (accepted: bool)
    requires lo < |msgs|
    ensures accepted == scorer.filter(msgs[lo].message)
    ensures accepted ==> Candidates(msgs[lo..], scorer)
                         == [Scored(msgs[lo], scorer.similarity(msgs[lo].message))] + Candidates(msgs[lo + 1..], scorer)
    ensures accepted ==> AcceptedFrom(msgs, scorer, lo) == [lo] + AcceptedFrom(msgs, scorer, lo + 1)
    ensures !accepted ==> Candidates(msgs[lo..], scorer) == Candidates(msgs[lo + 1..], scorer)
    ensures !accepted ==> AcceptedFrom(msgs, scorer, lo) == AcceptedFrom(msgs, scorer, lo + 1)
  {
    accepted := scorer.filter(msgs[lo].message);
    assert msgs[lo..][0] == msgs[lo] && msgs[lo..][1..] == msgs[lo + 1..];
  }

  lemma {:induction false} MatchesCons(c: seq<Scored>, idx: seq<nat>, msgs: seq<Message>, scorer: Scorer, i: nat)
    requires i < |msgs| && Matches(c, idx, msgs, scorer)
    ensures Matches([Scored(msgs[i], scorer.similarity(msgs[i].message))] + c, [i] + idx, msgs, scorer)
  {
    var c', idx' := [Scored(msgs[i], scorer.similarity(msgs[i].message))] + c, [i] + idx;
    forall k | 0 < k < |c'|
      ensures idx'[k] < |msgs| && c'[k] == Scored(msgs[idx'[k]], scorer.similarity(msgs[idx'[k]].message))
    {
      assert c'[k] == c[k - 1] && idx'[k] == idx[k - 1];
    }
  }

  function ToResult(c: Scored): MessageResult
  {
    MessageResult(c.msg.articleId, c.msg.page, c.msg.correct, c.score, c.msg.rects)
  }

  /** The result records of a list of scored messages, in order. */
  function Results(cs: seq<Scored>): seq<MessageResult>
  {
    seq(|cs|, i requires 0 <= i < |cs| => ToResult(cs[i]))
  }

  lemma {:induction false} ResultsAppend(u: seq<Scored>, v: seq<Scored>)
    ensures Results(u + v) == Results(u) + Results(v)
  {
    assert forall i :: 0 <= i < |v| ==> (u + v)[|u| + i] == v[i];
  }

  /** Permuted inputs give permuted result records. */
  lemma {:induction false} ResultsMultiset(a: seq<Scored>, b: seq<Scored>)
    requires multiset(a) == multiset(b)
    ensures multiset(Results(a)) == multiset(Results(b))
    decreases |a|
  {
    if a == [] {
      assert |b| == |multiset(b)| == 0;
      assert Results(a) == [] == Results(b);
    } else {
      assert a[0] in multiset(b);
      var j :| 0 <= j < |b| && b[j] == a[0];
      var a', b' := a[1..], b[..j] + b[j + 1..];
      assert a' == a[..0] + a[1..];
      Remove(a, 0, a');
      Remove(b, j, b');
      ResultsMultiset(a', b');
      AddBoth(multiset(Results(a)), multiset(Results(a')),
              multiset(Results(b)), multiset(Results(b')), ToResult(a[0]));
    }
  }

  /** Taking one entry out of a list, and out of its result records. */
  lemma {:induction false} Remove(b: seq<Scored>, j: nat, rest: seq<Scored>)
    requires j < |b| && rest == b[..j] + b[j + 1..]
    ensures multiset(rest) == multiset(b) - multiset{b[j]}
    ensures multiset(Results(b)) == multiset(Results(rest)) + multiset{ToResult(b[j])}
  {
    var u, v := b[..j], b[j + 1..];
    assert b == u + ([b[j]] + v);
    ResultsAppend(u, [b[j]] + v);
    ResultsAppend([b[j]], v);
    ResultsAppend(u, v);
    assert Results([b[j]]) == [ToResult(b[j])];
  }

  lemma {:induction false} AddBoth<T>(x: multiset<T>, x': multiset<T>, y: multiset<T>, y': multiset<T>, e: T)
    requires x == x' + multiset{e} && y == y' + multiset{e} && x' == y'
    ensures x == y
  {
  }

  function Min(a: nat, b: nat): nat
  {
    if a <= b then a else b
  }

  /** `search`: filter, score, sort, take, map to result records. */
  function Search(msgs: seq<Message>, scorer: Scorer, take: nat): seq<MessageResult>
  {
    var sorted := SortRanked(Candidates(msgs, scorer));
    seq(Min(take, |sorted|), i requires 0 <= i < Min(take, |sorted|) => ToResult(sorted[i]))
  }

  /**
   * At most `take` hits, each from a message the scorer accepts, with the
   * message's id, page, correctness and rectangle and its similarity as
   * score; ordered by score, then correctness, both descending.
   */
  lemma {:induction false} SearchResults(msgs: seq<Message>, scorer: Scorer, take: nat)
    ensures |Search(msgs, scorer, take)| == Min(take, |Candidates(msgs, scorer)|)
    ensures forall i :: 0 <= i < |Search(msgs, scorer, take)| ==>
      exists m :: (m in msgs && scorer.filter(m.message)
        && Search(msgs, scorer, take)[i]
           == MessageResult(m.articleId, m.page, m.correct, scorer.similarity(m.message), m.rects))
    ensures forall i, j :: 0 <= i < j < |Search(msgs, scorer, take)| ==>
      var a, b := Search(msgs, scorer, take)[i], Search(msgs, scorer, take)[j];
      a.score > b.score || (a.score == b.score && a.correct >= b.correct)
    ensures multiset(Search(msgs, scorer, take)) <= multiset(Results(Candidates(msgs, scorer)))
  {
    var cands := Candidates(msgs, scorer);
    var sorted := SortRanked(cands);
    SortRankedOrdered(cands);
    var r := Search(msgs, scorer, take);
    SearchHitsFromCandidates(cands, sorted, r);
    assert |sorted| == |cands| by {
      assert |multiset(sorted)| == |multiset(cands)|;
    }
    forall i | 0 <= i < |r|
      ensures exists m :: (m in msgs && scorer.filter(m.message)
        && r[i] == MessageResult(m.articleId, m.page, m.correct, scorer.similarity(m.message), m.rects))
    {
      assert sorted[i] in multiset(cands);
      var m := sorted[i].msg;
      assert r[i] == ToResult(sorted[i]);
    }
    forall i, j | 0 <= i < j < |r|
      ensures r[i].score > r[j].score || (r[i].score == r[j].score && r[i].correct >= r[j].correct)
    {
      assert !Before(sorted[j], sorted[i]);
    }
  }

  /** The hits are the records of a prefix of the sorted candidates, so no candidate is returned twice. */
  lemma {:induction false} SearchHitsFromCandidates(cands: seq<Scored>, sorted: seq<Scored>, r: seq<MessageResult>)
    requires multiset(sorted) == multiset(cands)
    requires |r| <= |sorted| && forall i :: 0 <= i < |r| ==> r[i] == ToResult(sorted[i])
    ensures multiset(r) <= multiset(Results(cands))
  {
    var k := |r|;
    assert r == Results(sorted[..k]);
    assert sorted == sorted[..k] + sorted[k..];
    ResultsAppend(sorted[..k], sorted[k..]);
    ResultsMultiset(sorted, cands);
  }

  /**
   * Top-k: an accepted message that ranks strictly above some hit is itself
   * among the hits.
   */
  lemma {:induction false} SearchTopK(msgs: seq<Message>, scorer: Scorer, take: nat, m: Message, i: nat)
    requires m in msgs && scorer.filter(m.message)
    requires i < |Search(msgs, scorer, take)|
    requires var hit := Search(msgs, scorer, take)[i];
             var s := scorer.similarity(m.message);
             s > hit.score || (s == hit.score && m.correct > hit.correct)
    ensures ToResult(Scored(m, scorer.similarity(m.message))) in Search(msgs, scorer, take)
  {
    var cands := Candidates(msgs, scorer);
    var sorted := SortRanked(cands);
    SortRankedOrdered(cands);
    var c := Scored(m, scorer.similarity(m.message));
    assert c in multiset(sorted);
    var j :| 0 <= j < |sorted| && sorted[j] == c;
    var r := Search(msgs, scorer, take);
    assert Before(c, sorted[i]);
    assert r[j] == ToResult(c);
  }

  // ---------------------------------------------------------------------------
  // The store

  /** The global message vector. */
  class MessageStore {
    var messages: seq<Message>

    constructor()
      ensures messages == []
    {
      messages := [];
    }

    /** `load_messages`: the messages read from a file are appended in file order. */
    method LoadMessages(loaded: seq<Message>)
      modifies this
      ensures messages == old(messages) + loaded
    {
      messages := messages + loaded;
    }

    /** `search` over the current contents of the store. */
    method SearchStore(scorer: Scorer, take: nat) returns (r: seq<MessageResult>)
      ensures r == Search(messages, scorer, take)
    {
      var results := Candidates(messages, scorer);
      results := SortRanked(results);
      var n := Min(take, |results|);
      r := seq(n, i requires 0 <= i < n => ToResult(results[i]));
    }

    /**
     * `search_similar` and `search_partial_contains`: convert the query, build
     * the scorer for it (CachedRatio or CachedPartialRatio), and search.
     */
    method SearchQuery(query: string, take: nat, disassemble: string -> string, scorerFor: string -> Scorer)
      returns (r: seq<MessageResult>)
      ensures r == Search(messages, scorerFor(StripWhitespace(disassemble(query))), take)
    {
      var converted := ConvertQuery(query, disassemble);
      r := SearchStore(scorerFor(converted), take);
    }
  }

  /**
   * Loading only adds: the candidates after a load are the candidates of the
   * old contents, in their old order, followed by those of the new messages.
   */
  lemma {:induction false} LoadKeepsOldMessages(old_msgs: seq<Message>, loaded: seq<Message>, scorer: Scorer)
    ensures Candidates(old_msgs + loaded, scorer) == Candidates(old_msgs, scorer) + Candidates(loaded, scorer)
    decreases |old_msgs|
  {
    if old_msgs == [] {
      assert old_msgs + loaded == loaded;
    } else {
      assert (old_msgs + loaded)[1..] == old_msgs[1..] + loaded;
      LoadKeepsOldMessages(old_msgs[1..], loaded, scorer);
    }
  }
}
