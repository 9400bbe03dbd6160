/**
 * `init-server`: the article table is copied to the MySQL server, first the
 * page counts as one statement, then the full rows in transactions of one
 * `LIMIT perLoop OFFSET i` page each.  The server is an oracle that either
 * executes and commits a statement or throws.  A failed page ends the
 * upload at once: the pages before it stay committed, the failed one is
 * never committed, and no later page is read or sent.
 */
module ServerLoad {
  import opened Wrappers
  import opened Arith
  import opened Paging
  import opened ArticleRows


  /** How the article upload ended: after every page, or with the page that threw. */
  datatype LoadOutcome = Completed | Aborted(failedBatch: nat)

  /** The pages of the table, in Id order. */
  function Batches(table: seq<HitomiColumnModel>): seq<seq<HitomiColumnModel>>
  {
    Pages(table, PerLoop)
  }

  /** The INSERT statement of every page, in order. */
  function Statements(table: seq<HitomiColumnModel>): (r: seq<string>)
    ensures |r| == |Batches(table)|
  {
    Rendered(table, InsertArticles)
  }

  /** The statement `render` builds for every page, in order. */
  function Rendered(table: seq<HitomiColumnModel>, render: seq<HitomiColumnModel> -> string): (r: seq<string>)
    ensures |r| == |Batches(table)|
  {
    seq(|Batches(table)|, k requires 0 <= k < |Batches(table)| => render(Batches(table)[k]))
  }

  /**
   * What the upload promises: every statement up to the first one the server
   * refuses is sent, the ones before it are committed, nothing after it is
   * sent; with no refusal every statement is sent and committed.
   */
  predicate ArticlesLoaded(table: seq<HitomiColumnModel>, execute: string -> bool,
                           sent: seq<string>, committed: seq<string>, outcome: LoadOutcome)
  {
    Loaded(Statements(table), execute, sent, committed, outcome)
  }

  /** The fail-fast promise over a given list of statements. */
  predicate Loaded(stmts: seq<string>, execute: string -> bool,
                   sent: seq<string>, committed: seq<string>, outcome: LoadOutcome)
  {
    match outcome
    case Completed =>
      && sent == stmts && committed == stmts
      && forall k :: 0 <= k < |stmts| ==> execute(stmts[k])
    case Aborted(k) =>
      && k < |stmts|
      && sent == stmts[..k + 1] && committed == stmts[..k]
      && !execute(stmts[k])
      && forall b :: 0 <= b < k ==> execute(stmts[b])
  }

  /**
   * `_initServerArticles`: `for (i = 0; i < count; i += perLoop)`, one
   * transaction per page; on an exception the method returns without
   * committing, and its rollback code after the return is never reached.
   */
  method InitServerArticles(table: seq<HitomiColumnModel>, execute: string -> bool)
    returns (sent: seq<string>, committed: seq<string>, outcome: LoadOutcome)
    ensures ArticlesLoaded(table, execute, sent, committed, outcome)
  {
    sent, committed, outcome := UploadPages(table, InsertArticles, execute);
  }

  /** The loop of _initServerArticles, for a statement builder `render` of one page. */
  method UploadPages(table: seq<HitomiColumnModel>, render: seq<HitomiColumnModel> -> string, execute: string -> bool)
    returns (sent: seq<string>, committed: seq<string>, outcome: LoadOutcome)
    ensures Loaded(Rendered(table, render), execute, sent, committed, outcome)
  {
    ghost var stmts := Rendered(table, render);
    var count := |table|;
    sent, committed := [], [];
    ghost var done: seq<seq<HitomiColumnModel>> := [];
    var i := 0;
    while i < count
      invariant Batches(table) == done + PagesFrom(table, PerLoop, i)
      invariant |done| <= |stmts| && sent == committed == stmts[..|done|]
      invariant forall b :: 0 <= b < |done| ==> execute(stmts[b])
      decreases count - i
    {
      var query := LimitOffset(table, PerLoop, i);
      assert PagesFrom(table, PerLoop, i) == [query] + PagesFrom(table, PerLoop, i + PerLoop);
      assert Batches(table)[|done|] == query;
      var text := render(query);
      assert stmts[..|done| + 1] == sent + [text];
      if !execute(text) {
        sent := sent + [text];
        return sent, committed, Aborted(|committed|);
      }
      sent := sent + [text];
      committed := committed + [text];
      done := done + [query];
      i := i + PerLoop;
    }
    assert PagesFrom(table, PerLoop, i) == [];
    assert stmts[..|done|] == stmts;
    return sent, committed, Completed;
  }

  /** The rows the server holds after an aborted upload: the first failedBatch pages, that is the first failedBatch * perLoop rows in Id order. */
  lemma {:induction false} AbortedKeepsPrefix(table: seq<HitomiColumnModel>, k: nat)
    requires k < |Batches(table)|
    ensures k * PerLoop < |table|
    ensures Flatten(Batches(table)[..k]) == table[..k * PerLoop]
    ensures Flatten(Batches(table)[k + 1..]) == table[if (k + 1) * PerLoop <= |table| then (k + 1) * PerLoop else |table|..]
  {
    PageAt(table, PerLoop, k);
    PagesPrefix(table, PerLoop, k);
    PagesPrefix(table, PerLoop, k + 1);
    MulSucc(k, PerLoop);
    var b := Batches(table);
    assert b == b[..k + 1] + b[k + 1..];
    FlattenAppend(b[..k + 1], b[k + 1..]);
    PagesCover(table, PerLoop);
    var stop := if (k + 1) * PerLoop <= |table| then (k + 1) * PerLoop else |table|;
    assert table == table[..stop] + table[stop..];
  }

  /** A completed upload sends every row exactly once, in ceil(count / perLoop) transactions. */
  lemma {:induction false} CompletedCoversTable(table: seq<HitomiColumnModel>)
    ensures Flatten(Batches(table)) == table
    ensures |Statements(table)| == (|table| + PerLoop - 1) / PerLoop
    ensures forall k :: 0 <= k < |Batches(table)| ==> 0 < |Batches(table)[k]| <= PerLoop
  {
    PagesCover(table, PerLoop);
    PagesCount(table, PerLoop);
    forall k | 0 <= k < |Batches(table)|
      ensures 0 < |Batches(table)[k]| <= PerLoop
    {
      PageAt(table, PerLoop, k);
    }
  }

  /** The outcome is decided by the first statement the server refuses. */
  lemma {:induction false} OutcomeIsFirstRefusal(table: seq<HitomiColumnModel>, execute: string -> bool,
                                                 sent: seq<string>, committed: seq<string>, outcome: LoadOutcome,
                                                 j: nat)
    requires ArticlesLoaded(table, execute, sent, committed, outcome)
    requires j < |Statements(table)| && !execute(Statements(table)[j])
    requires forall b :: 0 <= b < j ==> execute(Statements(table)[b])
    ensures outcome == Aborted(j) && |committed| == j
  {
  }

  /**
   * `_initServerArticlePages`: one statement with every (Id, Files) pair,
   * committed if the server takes it and rolled back otherwise, the
   * rollback's own exceptions swallowed.
   */
  method InitServerArticlePages(table: seq<HitomiColumnModel>, execute: string -> bool)
    returns (sent: string, committed: bool)
    ensures sent == InsertArticlePages(table)
    ensures sent[..|PagesInsertHead|] == PagesInsertHead
    ensures table != [] ==> LexTuples(sent[|PagesInsertHead|..]) == Some(PagesValuesList(table))
    ensures committed <==> execute(sent)
  {
    sent := InsertArticlePages(table);
    if table != [] {
      InsertArticlePagesRoundTrip(table);
    }
    committed := execute(sent);
  }

  /**
   * `ProcessInitServer`: the page counts, then the articles.  A failed page
   * statement is caught inside the first step, so the article upload runs
   * whatever its outcome.
   */
  method ProcessInitServer(table: seq<HitomiColumnModel>, execute: string -> bool)
    returns (pagesSent: string, pagesCommitted: bool,
             sent: seq<string>, committed: seq<string>, outcome: LoadOutcome)
    ensures pagesSent == InsertArticlePages(table) && (pagesCommitted <==> execute(pagesSent))
    ensures ArticlesLoaded(table, execute, sent, committed, outcome)
  {
    pagesSent, pagesCommitted := InitServerArticlePages(table, execute);
    sent, committed, outcome := InitServerArticles(table, execute);
  }
}
