/** Cursor paging over an ordered key set, while the set may change between pages. */
module Paging {
  import opened Common
  import opened ByteOrder

  type Key = seq<byte>
  type Cursor = Option<Key>

  predicate Above(k: Key, after: Cursor) {
    after.None? || Below(after.value, k)
  }

  ghost predicate Ascending(keys: seq<Key>) {
    forall i, j :: 0 <= i < j < |keys| ==> Below(keys[i], keys[j])
  }

  /** `page` is the first n keys above the cursor, in order. */
  ghost predicate IsPage(keys: set<Key>, after: Cursor, n: nat, page: seq<Key>) {
    && Ascending(page)
    && |page| <= n
    && (forall k :: k in page ==> k in keys && Above(k, after))
    && (forall k :: k in keys && Above(k, after) && k !in page ==>
          |page| == n && forall p :: p in page ==> Below(p, k))
  }

  /** The least key above the cursor: std::map's upper_bound, or its next position when the cursor is a key. */
  method UpperBound(keys: set<Key>, after: Cursor) returns (next: Cursor)
    ensures next.None? ==> forall k :: k in keys ==> !Above(k, after)
    ensures next.Some? ==> next.value in keys && Above(next.value, after)
    ensures next.Some? ==> forall k :: k in keys && Above(k, after) && k != next.value ==> Below(next.value, k)
  {
    StrictTotalOrder();
    next := None;
    var rest := keys;
    while rest != {}
      invariant rest <= keys
      invariant next.None? ==> forall k :: k in keys - rest ==> !Above(k, after)
      invariant next.Some? ==> next.value in keys && Above(next.value, after)
      invariant next.Some? ==> forall k :: k in keys - rest && Above(k, after) && k != next.value ==>
                  Below(next.value, k)
    {
      var k :| k in rest;
      rest := rest - {k};
      var above := true;
      if after.Some? {
        above := ByteLess(after.value, k);
      }
      var better := true;
      if next.Some? {
        better := ByteLess(k, next.value);
      }
      if above && better {
        next := Some(k);
      }
    }
  }

  /** In-order iteration from a cursor, stopping after n keys. */
  method FirstKeys(keys: set<Key>, after: Cursor, n: nat) returns (page: seq<Key>)
    ensures IsPage(keys, after, n, page)
  {
    StrictTotalOrder();
    page := [];
    var current := UpperBound(keys, after);
    while current.Some? && |page| < n
      invariant |page| <= n && Ascending(page)
      invariant forall k :: k in page ==> k in keys && Above(k, after)
      invariant current.Some? ==> current.value in keys && Above(current.value, after)
      invariant forall p :: p in page && current.Some? ==> Below(p, current.value)
      invariant forall k :: k in keys && Above(k, after) && k !in page ==>
                  (forall p :: p in page ==> Below(p, k)) && current.Some?
                      && (k == current.value || Below(current.value, k))
      decreases n - |page|
    {
      var k := current.value;
      page := page + [k];
      current := UpperBound(keys, Some(k));
    }
  }

  /** A page is determined by the keys, the cursor and the limit. */
  lemma PageUnique(keys: set<Key>, after: Cursor, n: nat, p: seq<Key>, q: seq<Key>)
    requires IsPage(keys, after, n, p) && IsPage(keys, after, n, q)
    ensures p == q
  {
    PageNotShorter(keys, after, n, p, q);
    PageNotShorter(keys, after, n, q, p);
    PagePrefix(keys, after, n, p, q, |p|);
  }

  lemma PageNotShorter(keys: set<Key>, after: Cursor, n: nat, p: seq<Key>, q: seq<Key>)
    requires IsPage(keys, after, n, p) && IsPage(keys, after, n, q)
    ensures |q| <= |p|
  {
    if |p| < n {
      var present := set k | k in p;
      DistinctFit(present, q);
      SetOfSeqFits(p, present);
    }
  }

  lemma {:induction false} SetOfSeqFits(p: seq<Key>, present: set<Key>)
    requires present == set k | k in p
    ensures |present| <= |p|
  {
    if p != [] {
      var front, tip := p[..|p| - 1], p[|p| - 1];
      SetOfSeqFits(front, set k | k in front);
      assert present == (set k | k in front) + {tip};
    }
  }

  lemma {:induction false} PagePrefix(keys: set<Key>, after: Cursor, n: nat, p: seq<Key>, q: seq<Key>, i: nat)
    requires IsPage(keys, after, n, p) && IsPage(keys, after, n, q)
    requires i <= |p| && i <= |q|
    ensures p[..i] == q[..i]
  {
    if i > 0 {
      PagePrefix(keys, after, n, p, q, i - 1);
      NotLater(keys, after, n, p, q, i - 1);
      NotLater(keys, after, n, q, p, i - 1);
      BelowAsymmetric(p[i - 1], q[i - 1]);
    }
  }

  lemma NotLater(keys: set<Key>, after: Cursor, n: nat, p: seq<Key>, q: seq<Key>, i: nat)
    requires IsPage(keys, after, n, p) && IsPage(keys, after, n, q)
    requires i < |p| && i < |q| && p[..i] == q[..i]
    ensures p[i] == q[i] || Below(p[i], q[i])
  {
    var k := q[i];
    assert k in q;
    NotAmong(q[..i], k);
    assert forall m :: 0 <= m < i ==> p[m] == q[..i][m] && q[..i][m] in q[..i];
    if k in p {
      var j :| 0 <= j < |p| && p[j] == k;
      assert j >= i;
    } else {
      assert p[i] in p;
    }
  }

  /** In an ascending sequence, nothing above the last element occurs before it. */
  lemma NotAmong(below: seq<Key>, k: Key)
    requires forall m :: 0 <= m < |below| ==> Below(below[m], k)
    ensures k !in below
  {
    BelowIrreflexive(k);
  }

  /** One round of paging: the keys present when the page was taken, the limit, and what was delivered. */
  datatype Round = Round(keys: set<Key>, limit: nat, page: seq<Key>, delivered: seq<Key>)

  function Yielded(rounds: seq<Round>): seq<Key> {
    if rounds == [] then [] else Yielded(rounds[..|rounds| - 1]) + rounds[|rounds| - 1].delivered
  }

  function CursorAfter(start: Cursor, yielded: seq<Key>): Cursor {
    if yielded == [] then start else Some(yielded[|yielded| - 1])
  }

  /**
   Every round asks for the page after the last delivered key. Keys may come and go between rounds,
   and a callback may stop a delivery early.
   */
  ghost predicate Paged(start: Cursor, rounds: seq<Round>) {
    rounds != [] ==>
      var front, last := rounds[..|rounds| - 1], rounds[|rounds| - 1];
      && Paged(start, front)
      && IsPage(last.keys, CursorAfter(start, Yielded(front)), last.limit, last.page)
      && last.delivered <= last.page
  }

  ghost predicate Throughout(k: Key, rounds: seq<Round>) {
    forall r :: r in rounds ==> k in r.keys
  }

  /**
   Whatever happens between pages, the keys yielded are strictly ascending, all lie above the start,
   and every key present throughout that the cursor has passed has been yielded.
   */
  lemma {:induction false} PagingIsMonotoneAndComplete(start: Cursor, rounds: seq<Round>)
    requires Paged(start, rounds)
    ensures Ascending(Yielded(rounds))
    ensures forall k :: k in Yielded(rounds) ==> Above(k, start)
    ensures forall k :: Throughout(k, rounds) && Above(k, start) && k !in Yielded(rounds)
                        ==> Above(k, CursorAfter(start, Yielded(rounds)))
  {
    if rounds == [] {
      return;
    }
    var front, last := rounds[..|rounds| - 1], rounds[|rounds| - 1];
    PagingIsMonotoneAndComplete(start, front);
    PageAppended(start, Yielded(front), last);
    assert last in rounds && (forall r :: r in front ==> r in rounds);
    forall k | Throughout(k, rounds) && Above(k, start) && k !in Yielded(rounds)
      ensures Above(k, CursorAfter(start, Yielded(rounds)))
    {
      assert Throughout(k, front) && k !in Yielded(front);
      PassedIsYielded(start, Yielded(front), last, k);
    }
  }

  lemma PageAppended(start: Cursor, before: seq<Key>, last: Round)
    requires Ascending(before) && forall k :: k in before ==> Above(k, start)
    requires IsPage(last.keys, CursorAfter(start, before), last.limit, last.page) && last.delivered <= last.page
    ensures Ascending(before + last.delivered)
    ensures forall k :: k in before + last.delivered ==> Above(k, start)
  {
    forall i | 0 <= i < |last.delivered|
      ensures Above(last.delivered[i], CursorAfter(start, before)) && Above(last.delivered[i], start)
    {
      assert last.delivered[i] == last.page[i] && last.page[i] in last.page;
      AboveCursor(start, before, last.delivered[i]);
    }
    AppendAscending(before, last.delivered);
  }

  lemma PassedIsYielded(start: Cursor, before: seq<Key>, last: Round, k: Key)
    requires IsPage(last.keys, CursorAfter(start, before), last.limit, last.page) && last.delivered <= last.page
    requires k in last.keys && Above(k, CursorAfter(start, before)) && k !in before + last.delivered
    ensures Above(k, CursorAfter(start, before + last.delivered))
  {
    if last.delivered != [] {
      DeliveredPrefixBelow(last.keys, CursorAfter(start, before), last.limit, last.page, last.delivered, k);
    }
  }

  lemma AboveCursor(start: Cursor, before: seq<Key>, k: Key)
    requires forall b :: b in before ==> Above(b, start)
    requires Above(k, CursorAfter(start, before))
    ensures Above(k, start)
  {
    if before != [] && start.Some? {
      assert Above(before[|before| - 1], start);
      BelowTransitive(start.value, before[|before| - 1], k);
    }
  }

  lemma AppendAscending(a: seq<Key>, b: seq<Key>)
    requires Ascending(a) && Ascending(b)
    requires a != [] ==> forall j :: 0 <= j < |b| ==> Below(a[|a| - 1], b[j])
    ensures Ascending(a + b)
  {
    forall i, j | 0 <= i < j < |a + b| ensures Below((a + b)[i], (a + b)[j]) {
      if i < |a| - 1 && |a| <= j {
        BelowTransitive(a[i], a[|a| - 1], b[j - |a|]);
      }
    }
  }

  lemma DeliveredPrefixBelow(keys: set<Key>, after: Cursor, n: nat, page: seq<Key>, delivered: seq<Key>, k: Key)
    requires IsPage(keys, after, n, page) && delivered <= page && delivered != []
    requires k in keys && Above(k, after) && k !in delivered
    ensures Below(delivered[|delivered| - 1], k)
  {
    var tip := delivered[|delivered| - 1];
    assert tip == page[|delivered| - 1];
    if k in page {
      var i :| 0 <= i < |page| && page[i] == k;
      assert forall m :: 0 <= m < |delivered| ==> page[m] == delivered[m] && delivered[m] in delivered;
      assert i >= |delivered|;
    } else {
      assert tip in page;
    }
  }

  /** When a fully delivered page comes back short, every key present throughout has been yielded. */
  lemma PagingFinishes(start: Cursor, rounds: seq<Round>, k: Key)
    requires rounds != [] && Paged(start, rounds)
    requires var last := rounds[|rounds| - 1]; last.delivered == last.page && |last.page| < last.limit
    requires Throughout(k, rounds) && Above(k, start)
    ensures k in Yielded(rounds)
  {
    var front, last := rounds[..|rounds| - 1], rounds[|rounds| - 1];
    PagingIsMonotoneAndComplete(start, front);
    assert last in rounds && (forall r :: r in front ==> r in rounds);
    if k !in Yielded(front) {
      assert Above(k, CursorAfter(start, Yielded(front)));
      assert k in last.page;
    }
  }

  /** With no mutation between pages, finished paging has yielded exactly the keys above the start. */
  lemma PagingUnchanged(start: Cursor, keys: set<Key>, rounds: seq<Round>)
    requires rounds != [] && Paged(start, rounds)
    requires forall r :: r in rounds ==> r.keys == keys
    requires var last := rounds[|rounds| - 1]; last.delivered == last.page && |last.page| < last.limit
    ensures Ascending(Yielded(rounds))
    ensures (set k | k in Yielded(rounds)) == (set k | k in keys && Above(k, start))
  {
    PagingIsMonotoneAndComplete(start, rounds);
    YieldedAreKeys(start, keys, rounds);
    forall k | k in keys && Above(k, start) ensures k in Yielded(rounds) {
      PagingFinishes(start, rounds, k);
    }
  }

  lemma {:induction false} YieldedAreKeys(start: Cursor, keys: set<Key>, rounds: seq<Round>)
    requires Paged(start, rounds) && forall r :: r in rounds ==> r.keys == keys
    ensures forall k :: k in Yielded(rounds) ==> k in keys
  {
    if rounds != [] {
      var front, last := rounds[..|rounds| - 1], rounds[|rounds| - 1];
      assert last in rounds && (forall r :: r in front ==> r in rounds);
      YieldedAreKeys(start, keys, front);
      forall k | k in last.delivered ensures k in keys { assert k in last.page; }
    }
  }

  /**
   Paging a set that does not change terminates: each full page makes progress, and at most |keys| keys can be
   yielded.
   */
  lemma {:induction false} PagingTerminates(start: Cursor, keys: set<Key>, rounds: seq<Round>)
    requires Paged(start, rounds) && forall r :: r in rounds ==> r.keys == keys
    requires forall r :: r in rounds ==> r.delivered == r.page && |r.page| == r.limit > 0
    ensures |rounds| <= |keys|
  {
    PagingIsMonotoneAndComplete(start, rounds);
    YieldedAreKeys(start, keys, rounds);
    YieldedAtLeast(rounds);
    DistinctFit(keys, Yielded(rounds));
  }

  lemma {:induction false} YieldedAtLeast(rounds: seq<Round>)
    requires forall r :: r in rounds ==> |r.delivered| > 0
    ensures |Yielded(rounds)| >= |rounds|
  {
    if rounds != [] {
      assert rounds[|rounds| - 1] in rounds && (forall r :: r in rounds[..|rounds| - 1] ==> r in rounds);
      YieldedAtLeast(rounds[..|rounds| - 1]);
    }
  }

  lemma {:induction false} DistinctFit(keys: set<Key>, yielded: seq<Key>)
    requires Ascending(yielded) && forall k :: k in yielded ==> k in keys
    ensures |yielded| <= |keys|
  {
    if yielded != [] {
      var tip := yielded[|yielded| - 1];
      var front := yielded[..|yielded| - 1];
      assert tip in yielded;
      forall k | k in front ensures k in keys - {tip} {
        var i :| 0 <= i < |front| && front[i] == k;
        assert k in yielded && Below(k, tip);
        BelowIrreflexive(tip);
      }
      DistinctFit(keys - {tip}, front);
    }
  }
}
