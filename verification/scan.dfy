/** The store's answers to a full-table scan. The first `scan()` and each
    follow-up `scan(ExclusiveStartKey=...)` return one page; a page that
    carries a `LastEvaluatedKey` is followed by another answer. */
module Scan {
  import opened Store
  import opened Options

  /** The chain of answers the store gives to successive scan calls:
      a final page (no `LastEvaluatedKey`), a page with a continuation key
      and the answer to the next call, or a failed call. */
  datatype Answers =
    | Last(items: seq<Item>)
    | More(items: seq<Item>, lastEvaluatedKey: string, next: Answers)
    | Failed(fault: Fault)

  /** The pages delivered before the chain ends or fails, in order. */
  function Pages(a: Answers): seq<seq<Item>>
  {
    match a
    case Last(items) => [items]
    case More(items, _, next) => [items] + Pages(next)
    case Failed(_) => []
  }

  /** The failure that ends the chain, if any. */
  function FaultOf(a: Answers): Option<Fault>
  {
    match a
    case Last(_) => None
    case More(_, _, next) => FaultOf(next)
    case Failed(f) => Some(f)
  }

  /** Every page, one after another. */
  function Concat(pages: seq<seq<Item>>): seq<Item>
  {
    if |pages| == 0 then [] else pages[0] + Concat(pages[1..])
  }

  /** Total number of items over all pages. */
  function TotalSize(pages: seq<seq<Item>>): nat
  {
    if |pages| == 0 then 0 else |pages[0]| + TotalSize(pages[1..])
  }

  /** Concatenation distributes over appending page lists. */
  lemma {:induction false} ConcatAppend(p: seq<seq<Item>>, q: seq<seq<Item>>)
    ensures Concat(p + q) == Concat(p) + Concat(q)
    decreases |p|
  {
    if |p| == 0 {
      assert p + q == q;
    } else {
      assert (p + q)[1..] == p[1..] + q;
      ConcatAppend(p[1..], q);
    }
  }

  /** The concatenation holds exactly the pages' items, no more and no fewer. */
  lemma {:induction false} ConcatSize(pages: seq<seq<Item>>)
    ensures |Concat(pages)| == TotalSize(pages)
    decreases |pages|
  {
    if |pages| > 0 {
      ConcatSize(pages[1..]);
    }
  }

  /** Order is kept: item `j` of page `i` sits right after all items of the
      pages before it. */
  lemma {:induction false} ConcatPlaces(pages: seq<seq<Item>>, i: nat, j: nat)
    requires i < |pages| && j < |pages[i]|
    ensures TotalSize(pages[..i]) + j < |Concat(pages)|
    ensures Concat(pages)[TotalSize(pages[..i]) + j] == pages[i][j]
    decreases i
  {
    ConcatSize(pages);
    if i == 0 {
      assert pages[..0] == [];
    } else {
      var rest := pages[1..];
      ConcatPlaces(rest, i - 1, j);
      assert pages[..i][1..] == rest[..i - 1];
      ConcatSize(pages[..i]);
      assert TotalSize(pages[..i]) == |pages[0]| + TotalSize(rest[..i - 1]);
    }
  }

  /** An item is in the concatenation exactly when some page holds it. */
  lemma {:induction false} ConcatMembers(pages: seq<seq<Item>>, x: Item)
    ensures x in Concat(pages) <==> exists i :: 0 <= i < |pages| && x in pages[i]
    decreases |pages|
  {
    if |pages| > 0 {
      ConcatMembers(pages[1..], x);
      if x in Concat(pages[1..]) {
        var i :| 0 <= i < |pages[1..]| && x in pages[1..][i];
        assert x in pages[i + 1];
      }
      if exists i :: 0 <= i < |pages| && x in pages[i] {
        var i :| 0 <= i < |pages| && x in pages[i];
        if i > 0 {
          assert x in pages[1..][i - 1];
        }
      }
    }
  }

  /** No item occurs twice. */
  predicate Distinct(s: seq<Item>) {
    forall i, j :: 0 <= i < j < |s| ==> s[i] != s[j]
  }

  /** The pages partition the stored items: no page repeats an item, no two
      pages share one, and together they hold every stored item and nothing
      else. This is what a consistent full scan of the table delivers. */
  predicate Partitions(pages: seq<seq<Item>>, stored: set<Item>) {
    && (forall i :: 0 <= i < |pages| ==> Distinct(pages[i]))
    && (forall i, j, x :: 0 <= i < j < |pages| && x in pages[i] ==> x !in pages[j])
    && (forall i, x :: 0 <= i < |pages| && x in pages[i] ==> x in stored)
    && (forall x :: x in stored ==> exists i :: 0 <= i < |pages| && x in pages[i])
  }

  /** Concatenating a partition of the stored items lists every stored item
      exactly once. */
  lemma {:induction false} ConcatOfPartition(pages: seq<seq<Item>>, stored: set<Item>)
    requires Partitions(pages, stored)
    ensures Distinct(Concat(pages))
    ensures forall x :: x in Concat(pages) <==> x in stored
    decreases |pages|
  {
    forall x ensures x in Concat(pages) <==> x in stored {
      ConcatMembers(pages, x);
    }
    if |pages| > 0 {
      var rest := pages[1..];
      var restStored := set i, x | 0 <= i < |rest| && x in rest[i] :: x;
      assert Partitions(rest, restStored) by {
        forall x | x in restStored ensures exists i :: 0 <= i < |rest| && x in rest[i] {
          var i :| 0 <= i < |rest| && x in rest[i];
        }
      }
      ConcatOfPartition(rest, restStored);
      var head := pages[0];
      var tail := Concat(rest);
      forall a, b | 0 <= a < |head| && 0 <= b < |tail| ensures head[a] != tail[b] {
        assert tail[b] in tail;
        ConcatMembers(rest, tail[b]);
        var i :| 0 <= i < |rest| && tail[b] in rest[i];
        assert head[a] in pages[0];
        assert tail[b] in pages[i + 1];
      }
      DistinctAppend(head, tail);
    }
  }

  /** Two duplicate-free sequences with nothing in common append to a
      duplicate-free sequence. */
  lemma DistinctAppend(a: seq<Item>, b: seq<Item>)
    requires Distinct(a) && Distinct(b)
    requires forall i, j :: 0 <= i < |a| && 0 <= j < |b| ==> a[i] != b[j]
    ensures Distinct(a + b)
  {
    var s := a + b;
    forall i, j | 0 <= i < j < |s| ensures s[i] != s[j] {
      if j < |a| {
        assert s[i] == a[i] && s[j] == a[j];
      } else if i >= |a| {
        assert s[i] == b[i - |a|] && s[j] == b[j - |a|];
      } else {
        assert s[i] == a[i] && s[j] == b[j - |a|];
      }
    }
  }
}
