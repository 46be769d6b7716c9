/**
 * Two ways the scrapers go through a list of items, each of which may yield a text: collect the
 * texts of all items in order (`[f(x) for x in xs if ...]`), or stop at the first item that
 * yields one (`for x in xs: ... return ...`).
 */
module Found {
  import opened Wrappers

  /** The texts yielded by the first `n` items, in item order. */
  function Collected(found: seq<Option<string>>, n: nat): seq<string>
    requires n <= |found|
  {
    if n == 0 then []
    else Collected(found, n - 1) + (match found[n - 1] case None => [] case Some(t) => [t])
  }

  /** The indices of the items among the first `n` that yield a text, in increasing order. */
  function CollectedIndices(found: seq<Option<string>>, n: nat): seq<nat>
    requires n <= |found|
  {
    if n == 0 then []
    else CollectedIndices(found, n - 1) + (if found[n - 1].Some? then [n - 1] else [])
  }

  /** The first text yielded among the first `n` items, if any. */
  function FirstFound(found: seq<Option<string>>, n: nat): Option<string>
    requires n <= |found|
  {
    if n == 0 then None
    else match FirstFound(found, n - 1)
      case Some(t) => Some(t)
      case None => found[n - 1]
  }

  /**
   * The collected texts are those of the items that yield one, in strictly increasing item
   * order: the `p`-th text is yielded by item `CollectedIndices(found, n)[p]`.
   */
  lemma {:induction false} CollectedInOrder(found: seq<Option<string>>, n: nat)
    requires n <= |found|
    ensures |CollectedIndices(found, n)| == |Collected(found, n)| <= n
    ensures forall p :: 0 <= p < |Collected(found, n)| ==>
      CollectedIndices(found, n)[p] < n && found[CollectedIndices(found, n)[p]] == Some(Collected(found, n)[p])
    ensures forall p, q :: 0 <= p < q < |Collected(found, n)| ==> CollectedIndices(found, n)[p] < CollectedIndices(found, n)[q]
    ensures forall k :: 0 <= k < n && found[k].Some? ==> k in CollectedIndices(found, n)
  {
    if n > 0 {
      CollectedInOrder(found, n - 1);
    }
  }

  /** A text is collected exactly when some item among the first `n` yields it. */
  lemma CollectedIsFound(found: seq<Option<string>>, n: nat, t: string)
    requires n <= |found|
    ensures t in Collected(found, n) <==> exists k :: 0 <= k < n && found[k] == Some(t)
  {
    CollectedInOrder(found, n);
    if t in Collected(found, n) {
      var p :| 0 <= p < |Collected(found, n)| && Collected(found, n)[p] == t;
      assert found[CollectedIndices(found, n)[p]] == Some(t);
    }
    if exists k :: 0 <= k < n && found[k] == Some(t) {
      var k :| 0 <= k < n && found[k] == Some(t);
      var p :| 0 <= p < |CollectedIndices(found, n)| && CollectedIndices(found, n)[p] == k;
      assert Collected(found, n)[p] == t;
    }
  }

  /** Nothing is collected exactly when no item among the first `n` yields a text. */
  lemma CollectedNone(found: seq<Option<string>>, n: nat)
    requires n <= |found|
    ensures Collected(found, n) == [] <==> forall k :: 0 <= k < n ==> found[k].None?
  {
    CollectedInOrder(found, n);
  }

  /** Once a text is found, later items change nothing. */
  lemma {:induction false} FirstFoundStays(found: seq<Option<string>>, n: nat, m: nat)
    requires n <= m <= |found|
    requires FirstFound(found, n).Some?
    ensures FirstFound(found, m) == FirstFound(found, n)
    decreases m
  {
    if m > n {
      FirstFoundStays(found, n, m - 1);
    }
  }

  /** The first text found is the text of an item with no text before it; with none found, no item yields a text. */
  lemma {:induction false} FirstFoundIsFirst(found: seq<Option<string>>, n: nat)
    requires n <= |found|
    ensures FirstFound(found, n).Some? ==>
      exists k :: 0 <= k < n && found[k] == FirstFound(found, n) && forall m :: 0 <= m < k ==> found[m].None?
    ensures FirstFound(found, n).None? ==> forall k :: 0 <= k < n ==> found[k].None?
  {
    if n > 0 {
      FirstFoundIsFirst(found, n - 1);
    }
  }

  /** Only the first `n` items matter. */
  lemma {:induction false} FirstFoundPrefix(found: seq<Option<string>>, more: seq<Option<string>>, n: nat)
    requires n <= |found|
    ensures FirstFound(found + more, n) == FirstFound(found, n)
  {
    if n > 0 {
      FirstFoundPrefix(found, more, n - 1);
      assert (found + more)[n - 1] == found[n - 1];
    }
  }

  /** The first text found is the first text collected. */
  lemma {:induction false} FirstFoundIsFirstCollected(found: seq<Option<string>>, n: nat)
    requires n <= |found|
    ensures FirstFound(found, n).None? <==> Collected(found, n) == []
    ensures FirstFound(found, n).Some? ==> FirstFound(found, n).value == Collected(found, n)[0]
  {
    if n > 0 {
      FirstFoundIsFirstCollected(found, n - 1);
    }
  }
}
