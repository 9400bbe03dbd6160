/**
 * The paging that hsync uses to walk a table: `for (i = 0; i < count; i += perLoop)`
 * with one `ORDER BY Id LIMIT perLoop OFFSET i` query per step, count being
 * `SELECT COUNT(*)` of the same table.  Rows are the table in Id order.
 */
module Paging {
  import opened Arith

  /** The page size of both walks over the table (`const int perLoop`). */
  const PerLoop: nat := 50000

  /** The largest value of a C# `int`, the type of both `count` and the counter `i`. */
  const MaxInt32: int := 0x7FFF_FFFF

  /** The most rows for which `i += perLoop` keeps the counter inside the `int` range. */
  const MaxPagedRows: nat := 2_147_450_000

  /** `int` addition as C# does it unchecked: the low 32 bits, two's complement. */
  function Wrap32(x: int): (r: int)
    ensures -MaxInt32 - 1 <= r <= MaxInt32
    ensures -MaxInt32 - 1 <= x <= MaxInt32 ==> r == x
  {
    (x + 0x8000_0000) % 0x1_0000_0000 - 0x8000_0000
  }

  /** Up to MaxPagedRows rows, every step of the counter stays an `int`, so it equals the unbounded counter the model uses. */
  lemma {:induction false} CounterStaysInt(i: nat, count: nat)
    requires i % PerLoop == 0 && i < count <= MaxPagedRows
    ensures i + PerLoop <= MaxInt32 && Wrap32(i + PerLoop) == i + PerLoop
  {
    assert i <= MaxPagedRows - PerLoop;
  }

  /**
   * One row more and the counter passes the guard at MaxPagedRows, then
   * wraps to a negative value that still passes it: the C# loop does not
   * stop after the last page.
   */
  lemma CounterWraps()
    ensures MaxPagedRows % PerLoop == 0 && MaxPagedRows < MaxPagedRows + 1 <= MaxInt32
    ensures Wrap32(MaxPagedRows + PerLoop) == -2_147_467_296 < MaxPagedRows + 1
  {
  }

  /** The rows SQL's `LIMIT limit OFFSET offset` returns from rows already in query order. */
  function LimitOffset<T>(rows: seq<T>, limit: nat, offset: nat): seq<T>
  {
    if offset >= |rows| then []
    else rows[offset..if offset + limit <= |rows| then offset + limit else |rows|]
  }

  /** The pages the loop fetches from offset `from` on. */
  function PagesFrom<T>(rows: seq<T>, perLoop: nat, from: nat): seq<seq<T>>
    requires perLoop > 0
    decreases |rows| - from
  {
    if from >= |rows| then [] else [LimitOffset(rows, perLoop, from)] + PagesFrom(rows, perLoop, from + perLoop)
  }

  function Pages<T>(rows: seq<T>, perLoop: nat): seq<seq<T>>
    requires perLoop > 0
  {
    PagesFrom(rows, perLoop, 0)
  }

  function Flatten<T>(pages: seq<seq<T>>): seq<T>
  {
    if pages == [] then [] else pages[0] + Flatten(pages[1..])
  }

  lemma {:induction false} FlattenAppend<T>(a: seq<seq<T>>, b: seq<seq<T>>)
    ensures Flatten(a + b) == Flatten(a) + Flatten(b)
  {
    if a == [] {
      assert a + b == b;
    } else {
      assert (a + b)[1..] == a[1..] + b;
      FlattenAppend(a[1..], b);
    }
  }

  /** From offset `from` on, the pages together are exactly the remaining rows, in order. */
  lemma {:induction false} PagesFromCover<T>(rows: seq<T>, perLoop: nat, from: nat)
    requires perLoop > 0 && from <= |rows|
    ensures Flatten(PagesFrom(rows, perLoop, from)) == rows[from..]
    decreases |rows| - from
  {
    if from < |rows| {
      var next := from + perLoop;
      if next <= |rows| {
        PagesFromCover(rows, perLoop, next);
        assert rows[from..] == rows[from..next] + rows[next..];
      } else {
        assert PagesFrom(rows, perLoop, next) == [];
      }
    }
  }

  /**
   * Every row index in [0, count) is visited exactly once, in Id order:
   * concatenated, the pages are the table.
   */
  lemma PagesCover<T>(rows: seq<T>, perLoop: nat)
    requires perLoop > 0
    ensures Flatten(Pages(rows, perLoop)) == rows
  {
    PagesFromCover(rows, perLoop, 0);
  }

  lemma {:induction false} PagesFromCount<T>(rows: seq<T>, perLoop: nat, from: nat)
    requires perLoop > 0 && from <= |rows|
    ensures |PagesFrom(rows, perLoop, from)| == (|rows| - from + perLoop - 1) / perLoop
    decreases |rows| - from
  {
    var n, next := |rows|, from + perLoop;
    if from == n {
      DivUnique(perLoop - 1, perLoop, 0, perLoop - 1);
    } else if next <= n {
      PagesFromCount(rows, perLoop, next);
      DivStep(n - next + perLoop - 1, perLoop);
    } else {
      assert PagesFrom(rows, perLoop, next) == [];
      DivUnique(n - from + perLoop - 1, perLoop, 1, n - from - 1);
    }
  }

  /** There are ⌈count / perLoop⌉ batches. */
  lemma PagesCount<T>(rows: seq<T>, perLoop: nat)
    requires perLoop > 0
    ensures |Pages(rows, perLoop)| == (|rows| + perLoop - 1) / perLoop
  {
    PagesFromCount(rows, perLoop, 0);
  }

  lemma {:induction false} PagesFromAt<T>(rows: seq<T>, perLoop: nat, from: nat, k: nat)
    requires perLoop > 0 && k < |PagesFrom(rows, perLoop, from)|
    ensures from + k * perLoop < |rows|
    ensures PagesFrom(rows, perLoop, from)[k] == LimitOffset(rows, perLoop, from + k * perLoop)
    decreases k
  {
    if k > 0 {
      PagesFromAt(rows, perLoop, from + perLoop, k - 1);
      MulSucc(k - 1, perLoop);
    }
  }

  /**
   * Batch k is the query at offset k * perLoop: a non-empty run of at most
   * perLoop consecutive rows.
   */
  lemma PageAt<T>(rows: seq<T>, perLoop: nat, k: nat)
    requires perLoop > 0 && k < |Pages(rows, perLoop)|
    ensures k * perLoop < |rows|
    ensures Pages(rows, perLoop)[k] == LimitOffset(rows, perLoop, k * perLoop)
    ensures 0 < |Pages(rows, perLoop)[k]| <= perLoop
  {
    PagesFromAt(rows, perLoop, 0, k);
  }

  lemma {:induction false} PagesFromPrefix<T>(rows: seq<T>, perLoop: nat, from: nat, k: nat)
    requires perLoop > 0 && from <= |rows| && k <= |PagesFrom(rows, perLoop, from)|
    ensures from + k * perLoop <= |rows| || k == |PagesFrom(rows, perLoop, from)|
    ensures Flatten(PagesFrom(rows, perLoop, from)[..k])
         == rows[from..if from + k * perLoop <= |rows| then from + k * perLoop else |rows|]
    decreases k
  {
    if k > 0 {
      var next := from + perLoop;
      var pages := PagesFrom(rows, perLoop, from);
      assert pages[..k] == [pages[0]] + pages[1..][..k - 1];
      if next <= |rows| {
        PagesFromPrefix(rows, perLoop, next, k - 1);
        PrefixStep(rows, perLoop, from, k);
      } else {
        assert PagesFrom(rows, perLoop, next) == [];
        assert k == 1;
        assert pages[1..][..0] == [];
      }
    }
  }

  lemma {:induction false} PrefixStep<T>(rows: seq<T>, perLoop: nat, from: nat, k: nat)
    requires perLoop > 0 && 0 < k <= |PagesFrom(rows, perLoop, from)| && from + perLoop <= |rows|
    requires var next := from + perLoop;
      Flatten(PagesFrom(rows, perLoop, next)[..k - 1])
        == rows[next..if next + (k - 1) * perLoop <= |rows| then next + (k - 1) * perLoop else |rows|]
    ensures Flatten(PagesFrom(rows, perLoop, from)[..k])
         == rows[from..if from + k * perLoop <= |rows| then from + k * perLoop else |rows|]
  {
    var next := from + perLoop;
    var pages := PagesFrom(rows, perLoop, from);
    assert pages[..k] == [pages[0]] + PagesFrom(rows, perLoop, next)[..k - 1];
    MulSucc(k - 1, perLoop);
    var e := if from + k * perLoop <= |rows| then from + k * perLoop else |rows|;
    assert rows[from..e] == rows[from..next] + rows[next..e];
  }

  /** The first k batches hold exactly the first k * perLoop rows (all rows once k reaches the last batch). */
  lemma PagesPrefix<T>(rows: seq<T>, perLoop: nat, k: nat)
    requires perLoop > 0 && k <= |Pages(rows, perLoop)|
    ensures Flatten(Pages(rows, perLoop)[..k])
         == rows[..if k * perLoop <= |rows| then k * perLoop else |rows|]
  {
    PagesFromPrefix(rows, perLoop, 0, k);
  }
}
