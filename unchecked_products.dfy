/** The staff review queue of submitted products that nobody has checked
    yet (the `index` action of the unchecked-products API controller):
    the `target` parameter is normalised against a two-entry allow-list,
    selects one of two queries over the product catalogue, and the page of
    products found is summarised by elapsed-days bucket, keeping the first
    product of each bucket. */
module UncheckedProducts {
  import opened Wrappers
  import Collections
  import Targets

  /** A submitted product. `publishedAt` is its submission date as a day
      number, `elapsedDays` the whole days since then (computed elsewhere
      from the clock); `unchecked` and `wip` are the facts the
      `unchecked` and `not_wip` scopes test. */
  datatype Product = Product(id: int, publishedAt: int, elapsedDays: int, unchecked: bool, wip: bool)

  /** What the persistence store offers this action: the products in the
      order of the `list` scope, and the `unchecked_no_replied_products`
      scope as a relation between a reviewer's user id and a product. */
  datatype Catalog = Catalog(listed: seq<Product>, noReplied: (int, Product) -> bool)

  /** The slice of a result that `page(params[:page])` keeps. */
  datatype PageWindow = PageWindow(offset: nat, limit: nat)

  /** The request parameters the action reads. */
  datatype Params = Params(target: Option<string>, page: PageWindow)

  /** A Ruby Hash with integer keys: its keys in insertion order and the
      value stored under each. */
  datatype OrderedHash<V> = OrderedHash(keys: seq<int>, values: map<int, V>)

  /** The instance variables `index` leaves for rendering. */
  datatype IndexView = IndexView(target: string, products: seq<Product>, allSubmittedProducts: OrderedHash<Product>)

  const UncheckedAll: string := "unchecked_all"
  const UncheckedNoReplied: string := "unchecked_no_replied"

  // ---------------------------------------------------------------------
  // Target normalisation

  /** `target_allowlist`: exactly the two queue names. */
  function TargetAllowlist(): (r: seq<string>)
    ensures forall t :: t in r <==> t == UncheckedAll || t == UncheckedNoReplied
  {
    [UncheckedAll, UncheckedNoReplied]
  }

  /** The effective `@target`: an allow-listed value is kept, any other
      value (nil included) becomes `unchecked_all`. */
  function NormalizeTarget(raw: Option<string>): (t: string)
    ensures t == UncheckedAll || t == UncheckedNoReplied
    ensures raw.Some? && raw.value in TargetAllowlist() ==> t == raw.value
    ensures raw.None? || raw.value !in TargetAllowlist() ==> t == UncheckedAll
  {
    Targets.NormalizeAllowed(raw, TargetAllowlist(), UncheckedAll);
    Targets.Normalize(raw, TargetAllowlist(), UncheckedAll)
  }

  /** Normalising an effective target again leaves it as it is. */
  lemma NormalizeTargetIdempotent(raw: Option<string>)
    ensures NormalizeTarget(Some(NormalizeTarget(raw))) == NormalizeTarget(raw)
  {
    Targets.NormalizeIdempotent(raw, TargetAllowlist(), UncheckedAll);
  }

  // ---------------------------------------------------------------------
  // The two queries

  /** `unchecked.not_wip`: the product is waiting for review. */
  predicate InReviewQueue(p: Product)
  {
    p.unchecked && !p.wip
  }

  /** The order of `ascending_by_date_of_publishing_and_id`: earlier
      submission first, ties broken by ascending id. */
  predicate PublishedBefore(a: Product, b: Product)
  {
    a.publishedAt < b.publishedAt || (a.publishedAt == b.publishedAt && a.id <= b.id)
  }

  lemma PublishedBeforeIsTotalPreorder()
    ensures Collections.TotalPreorder(PublishedBefore)
  {
  }

  /** `page(...)`: the run of `s` that starts at the window's offset and
      holds at most its limit of elements. */
  function Page<T>(s: seq<T>, w: PageWindow): (r: seq<T>)
    ensures |r| == if w.offset >= |s| then 0 else if w.limit < |s| - w.offset then w.limit else |s| - w.offset
    ensures forall i :: 0 <= i < |r| ==> w.offset + i < |s| && r[i] == s[w.offset + i]
  {
    var lo := if w.offset < |s| then w.offset else |s|;
    var hi := if w.offset + w.limit < |s| then w.offset + w.limit else |s|;
    s[lo..hi]
  }

  /** The `unchecked_all` query before paging: every product waiting for
      review, oldest submission first. */
  function AllQueue(catalog: Catalog): (r: seq<Product>)
    ensures forall p :: p in r <==> p in catalog.listed && InReviewQueue(p)
    ensures Collections.SortedBy(r, PublishedBefore)
    ensures forall p :: multiset(r)[p] == if InReviewQueue(p) then multiset(catalog.listed)[p] else 0
  {
    PublishedBeforeIsTotalPreorder();
    var queued := Collections.Filter(catalog.listed, InReviewQueue);
    var sorted := Collections.SortBy(queued, PublishedBefore);
    assert forall p :: p in sorted <==> p in multiset(queued);
    sorted
  }

  /** The `unchecked_no_replied` query before paging: the products waiting
      for review that the store relates to the reviewer `viewerId`, in
      catalogue order (the no-reply scope is assumed to add no ordering
      of its own). */
  function NoRepliedQueue(catalog: Catalog, viewerId: int): (r: seq<Product>)
    ensures forall p :: p in r <==> p in catalog.listed && catalog.noReplied(viewerId, p) && InReviewQueue(p)
  {
    Collections.Filter(catalog.listed, NoRepliedTest(catalog.noReplied, viewerId))
  }

  /** The condition of the `unchecked_no_replied` scopes for `viewerId`. */
  function NoRepliedTest(noReplied: (int, Product) -> bool, viewerId: int): Product -> bool
  {
    p => noReplied(viewerId, p) && InReviewQueue(p)
  }

  /** `unchecked_no_replied` keeps the catalogue order: the queue of a
      catalogue split in two is the queue of the first part followed by
      that of the second, and a single product is kept exactly when it
      qualifies. */
  lemma NoRepliedQueueKeepsOrder(a: seq<Product>, b: seq<Product>, noReplied: (int, Product) -> bool, viewerId: int)
    ensures NoRepliedQueue(Catalog(a + b, noReplied), viewerId)
            == NoRepliedQueue(Catalog(a, noReplied), viewerId) + NoRepliedQueue(Catalog(b, noReplied), viewerId)
    ensures forall p :: NoRepliedQueue(Catalog([p], noReplied), viewerId) == (if noReplied(viewerId, p) && InReviewQueue(p) then [p] else [])
  {
    Collections.FilterConcat(a, b, NoRepliedTest(noReplied, viewerId));
  }

  /** The `case` over the target: a value from neither `when` yields nil. */
  function Select(target: string, catalog: Catalog, viewerId: int, window: PageWindow): (r: Option<seq<Product>>)
    ensures r.Some? <==> target in TargetAllowlist()
    ensures r.Some? ==> forall p :: p in r.value ==> p in catalog.listed && InReviewQueue(p)
    ensures target == UncheckedAll ==> Collections.SortedBy(r.value, PublishedBefore)
    ensures target == UncheckedNoReplied ==> forall p :: p in r.value ==> catalog.noReplied(viewerId, p)
    ensures target == UncheckedAll ==> r == Some(Page(AllQueue(catalog), window))
    ensures target == UncheckedNoReplied ==> r == Some(Page(NoRepliedQueue(catalog, viewerId), window))
  {
    match target
    case "unchecked_all" =>
      var q := AllQueue(catalog);
      var r := Page(q, window);
      assert forall i :: 0 <= i < |r| ==> r[i] in q;
      assert forall i, j :: 0 <= i < j < |r| ==> r[i] == q[window.offset + i] && r[j] == q[window.offset + j];
      Some(r)
    case "unchecked_no_replied" =>
      var q := NoRepliedQueue(catalog, viewerId);
      var r := Page(q, window);
      assert forall i :: 0 <= i < |r| ==> r[i] in q;
      Some(r)
    case _ => None
  }

  /** With a window that covers the whole catalogue, `unchecked_all`
      returns every product waiting for review and nothing else. */
  lemma SelectAllComplete(catalog: Catalog, viewerId: int, window: PageWindow)
    requires window.offset == 0 && window.limit >= |catalog.listed|
    ensures forall p :: p in Select(UncheckedAll, catalog, viewerId, window).value <==> p in catalog.listed && InReviewQueue(p)
  {
    var q := AllQueue(catalog);
    assert |q| <= |catalog.listed| by {
      PublishedBeforeIsTotalPreorder();
      var queued := Collections.Filter(catalog.listed, InReviewQueue);
      assert |q| == |multiset(q)| == |multiset(queued)| == |queued|;
    }
    assert Page(q, window) == q;
  }

  /** `unchecked_no_replied` depends on who is asking: a waiting product
      the store relates to reviewer `a` but not to reviewer `b` is on
      `a`'s page when the window covers the whole catalogue, and on no
      page of `b`'s whatever the window. */
  lemma NoRepliedIsPerReviewer(catalog: Catalog, a: int, b: int, p: Product, window: PageWindow)
    requires p in catalog.listed && InReviewQueue(p)
    requires catalog.noReplied(a, p) && !catalog.noReplied(b, p)
    ensures window.offset == 0 && window.limit >= |catalog.listed| ==> p in Select(UncheckedNoReplied, catalog, a, window).value
    ensures p !in Select(UncheckedNoReplied, catalog, b, window).value
  {
    if window.offset == 0 && window.limit >= |catalog.listed| {
      var q := NoRepliedQueue(catalog, a);
      assert |q| <= |catalog.listed|;
      assert Page(q, window) == q;
    }
  }

  // ---------------------------------------------------------------------
  // Elapsed-days summary

  /** The `group_by` key: days since submission, with a week or more
      folded into bucket 7. */
  function ElapsedBucket(p: Product): (b: int)
    ensures b <= 7
    ensures p.elapsedDays <= 7 ==> b == p.elapsedDays
    ensures p.elapsedDays >= 7 ==> b == 7
  {
    if p.elapsedDays >= 7 then 7 else p.elapsedDays
  }

  /** The products of `ps` in bucket `k`, in list order. */
  function InBucket(ps: seq<Product>, k: int): seq<Product>
  {
    if ps == [] then []
    else (if ElapsedBucket(ps[0]) == k then [ps[0]] else []) + InBucket(ps[1..], k)
  }

  /** The position of the first product of `ps` in bucket `k`, or `|ps|`
      when there is none. */
  function FirstIndex(ps: seq<Product>, k: int): (i: nat)
    ensures i <= |ps|
    ensures i < |ps| ==> ElapsedBucket(ps[i]) == k
    ensures forall j :: 0 <= j < i ==> ElapsedBucket(ps[j]) != k
  {
    if ps == [] then 0
    else if ElapsedBucket(ps[0]) == k then 0
    else 1 + FirstIndex(ps[1..], k)
  }

  /** `hash[key] ||= []; hash[key] << p`: one step of `group_by`. */
  function AppendToGroup(h: OrderedHash<seq<Product>>, p: Product): OrderedHash<seq<Product>>
  {
    var k := ElapsedBucket(p);
    if k in h.values then OrderedHash(h.keys, h.values[k := h.values[k] + [p]])
    else OrderedHash(h.keys + [k], h.values[k := [p]])
  }

  /** `group_by { elapsed bucket }`: each product of `ps`, in order,
      appended to the group of its bucket. */
  function GroupByBucket(ps: seq<Product>): (h: OrderedHash<seq<Product>>)
    ensures GroupsOf(ps, h)
  {
    if ps == [] then OrderedHash([], map[])
    else
      var init, p := ps[..|ps| - 1], ps[|ps| - 1];
      assert ps == init + [p];
      AppendToGroupStep(init, GroupByBucket(init), p);
      AppendToGroup(GroupByBucket(init), p)
  }

  /** `transform_values(&:first)`. */
  function TransformFirst(h: OrderedHash<seq<Product>>): (r: OrderedHash<Product>)
    requires forall k :: k in h.values ==> h.values[k] != []
    ensures r.keys == h.keys
    ensures forall k :: k in r.values <==> k in h.values
    ensures forall k :: k in r.values ==> r.values[k] == h.values[k][0]
  {
    OrderedHash(h.keys, map k | k in h.values :: h.values[k][0])
  }

  lemma {:induction false} InBucketSnoc(ps: seq<Product>, p: Product)
    ensures forall k :: InBucket(ps + [p], k) == InBucket(ps, k) + (if ElapsedBucket(p) == k then [p] else [])
  {
    if ps != [] {
      InBucketSnoc(ps[1..], p);
      assert (ps + [p])[1..] == ps[1..] + [p];
    }
  }

  lemma {:induction false} InBucketStartsAtFirstIndex(ps: seq<Product>, k: int)
    ensures InBucket(ps, k) != [] <==> FirstIndex(ps, k) < |ps|
    ensures InBucket(ps, k) != [] ==> InBucket(ps, k)[0] == ps[FirstIndex(ps, k)]
  {
    if ps != [] && ElapsedBucket(ps[0]) != k {
      InBucketStartsAtFirstIndex(ps[1..], k);
    }
  }

  lemma FirstIndexSnoc(ps: seq<Product>, p: Product, k: int)
    ensures FirstIndex(ps, k) < |ps| ==> FirstIndex(ps + [p], k) == FirstIndex(ps, k)
    ensures FirstIndex(ps, k) == |ps| ==> FirstIndex(ps + [p], k) == if ElapsedBucket(p) == k then |ps| else |ps| + 1
  {
    assert forall j :: 0 <= j < |ps| ==> (ps + [p])[j] == ps[j];
    assert (ps + [p])[|ps|] == p;
  }

  /** How one `group_by` step moves the first positions of the buckets. */
  lemma FirstIndicesSnoc(init: seq<Product>, p: Product)
    ensures forall k :: FirstIndex(init, k) < |init| ==> FirstIndex(init + [p], k) == FirstIndex(init, k)
    ensures forall k :: FirstIndex(init, k) == |init| && k != ElapsedBucket(p) ==> FirstIndex(init + [p], k) == |init| + 1
    ensures FirstIndex(init, ElapsedBucket(p)) == |init| ==> FirstIndex(init + [p], ElapsedBucket(p)) == |init|
  {
    forall k ensures FirstIndex(init, k) < |init| ==> FirstIndex(init + [p], k) == FirstIndex(init, k)
      ensures FirstIndex(init, k) == |init| && k != ElapsedBucket(p) ==> FirstIndex(init + [p], k) == |init| + 1
    {
      FirstIndexSnoc(init, p, k);
    }
    FirstIndexSnoc(init, p, ElapsedBucket(p));
  }

  /** The buckets of `ps`, each once, in the order they first occur. */
  function DistinctBuckets(ps: seq<Product>): seq<int>
  {
    if ps == [] then []
    else
      var seen := DistinctBuckets(ps[..|ps| - 1]);
      var k := ElapsedBucket(ps[|ps| - 1]);
      if k in seen then seen else seen + [k]
  }

  /** A bucket is listed exactly when some product of `ps` is in it, and
      there are never more buckets than products. */
  lemma {:induction false} DistinctBucketsPresent(ps: seq<Product>)
    ensures forall k :: k in DistinctBuckets(ps) <==> FirstIndex(ps, k) < |ps|
    ensures |DistinctBuckets(ps)| <= |ps|
  {
    if ps != [] {
      var init, p := ps[..|ps| - 1], ps[|ps| - 1];
      assert ps == init + [p];
      DistinctBucketsPresent(init);
      FirstIndicesSnoc(init, p);
    }
  }

  /** No bucket is listed twice, and buckets are listed in the order of
      their first products. */
  lemma {:induction false} DistinctBucketsOrdered(ps: seq<Product>)
    ensures var d := DistinctBuckets(ps);
      forall i, j :: 0 <= i < j < |d| ==> FirstIndex(ps, d[i]) < FirstIndex(ps, d[j])
  {
    if ps != [] {
      var init, p := ps[..|ps| - 1], ps[|ps| - 1];
      assert ps == init + [p];
      var d0, d := DistinctBuckets(init), DistinctBuckets(ps);
      DistinctBucketsOrdered(init);
      DistinctBucketsPresent(init);
      FirstIndicesSnoc(init, p);
      forall i, j | 0 <= i < j < |d| ensures FirstIndex(ps, d[i]) < FirstIndex(ps, d[j]) {
        assert d[i] == d0[i] && d0[i] in d0;
        if j < |d0| {
          assert d[j] == d0[j] && d0[j] in d0;
        }
      }
    }
  }

  lemma DistinctBucketsDistinct(ps: seq<Product>)
    ensures var d := DistinctBuckets(ps); forall i, j :: 0 <= i < j < |d| ==> d[i] != d[j]
  {
    DistinctBucketsOrdered(ps);
  }

  /** What `group_by` builds: the buckets of `ps` as keys in
      first-occurrence order, and under each key that bucket's products in
      list order. */
  ghost predicate GroupsOf(ps: seq<Product>, h: OrderedHash<seq<Product>>)
  {
    && h.keys == DistinctBuckets(ps)
    && (forall k :: k in h.values <==> FirstIndex(ps, k) < |ps|)
    && (forall k :: k in h.values ==> h.values[k] == InBucket(ps, k))
  }

  /** One `group_by` step turns the groups of `init` into those of
      `init + [p]`. */
  lemma AppendToGroupStep(init: seq<Product>, h0: OrderedHash<seq<Product>>, p: Product)
    requires GroupsOf(init, h0)
    ensures GroupsOf(init + [p], AppendToGroup(h0, p))
  {
    var ps, h, kp := init + [p], AppendToGroup(h0, p), ElapsedBucket(p);
    assert ps[..|ps| - 1] == init;
    assert h.keys == DistinctBuckets(ps) by {
      DistinctBucketsPresent(init);
    }
    assert forall k :: k in h.values <==> FirstIndex(ps, k) < |ps| by {
      FirstIndicesSnoc(init, p);
    }
    InBucketSnoc(init, p);
    InBucketStartsAtFirstIndex(init, kp);
    forall k | k in h.values ensures h.values[k] == InBucket(ps, k) {
      if k != kp {
        assert k in h0.values && h.values[k] == h0.values[k];
      }
    }
  }

  /** `@all_submitted_products`: for each bucket present, the first
      product of the page in that bucket. */
  function SubmittedSummary(ps: seq<Product>): (h: OrderedHash<Product>)
    ensures forall k :: k in h.values <==> k in h.keys
    ensures forall k :: k in h.values ==> h.values[k] in ps && ElapsedBucket(h.values[k]) == k
  {
    var groups := GroupByBucket(ps);
    forall k | k in groups.values
      ensures groups.values[k] != [] && groups.values[k][0] in ps && ElapsedBucket(groups.values[k][0]) == k
    {
      InBucketStartsAtFirstIndex(ps, k);
    }
    assert forall k :: k in groups.values <==> k in groups.keys by {
      DistinctBucketsPresent(ps);
    }
    TransformFirst(groups)
  }

  /** The summary has one entry per bucket present in `ps` and no other,
      keys in first-occurrence order, never more entries than products,
      and the entry of a bucket is the first product in that bucket. */
  lemma SubmittedSummaryFirstPerBucket(ps: seq<Product>)
    ensures var h := SubmittedSummary(ps);
      && (forall i, j :: 0 <= i < j < |h.keys| ==> h.keys[i] != h.keys[j])
      && (forall k :: k in h.values <==> k in h.keys)
      && (forall k :: k in h.keys <==> exists p :: p in ps && ElapsedBucket(p) == k)
      && (forall k :: k in h.values ==> h.values[k] == ps[FirstIndex(ps, k)])
      && (forall i, j :: 0 <= i < j < |h.keys| ==> FirstIndex(ps, h.keys[i]) < FirstIndex(ps, h.keys[j]))
      && |h.keys| <= |ps|
  {
    var h := SubmittedSummary(ps);
    DistinctBucketsPresent(ps);
    DistinctBucketsOrdered(ps);
    DistinctBucketsDistinct(ps);
    forall k ensures k in h.keys <==> exists p :: p in ps && ElapsedBucket(p) == k {
      if exists p :: p in ps && ElapsedBucket(p) == k {
        var p :| p in ps && ElapsedBucket(p) == k;
        var j :| 0 <= j < |ps| && ps[j] == p;
        assert FirstIndex(ps, k) <= j;
      }
    }
    forall k | k in h.values ensures h.values[k] == ps[FirstIndex(ps, k)] {
      InBucketStartsAtFirstIndex(ps, k);
    }
  }

  /** Every summary key is an elapsed-days value capped at 7. */
  lemma SubmittedSummaryKeys(ps: seq<Product>)
    ensures forall k :: k in SubmittedSummary(ps).keys ==> k <= 7 && exists p :: p in ps && k == ElapsedBucket(p)
  {
    SubmittedSummaryFirstPerBucket(ps);
  }

  /** On a page sorted by submission, the product kept for a bucket is
      the earliest-submitted product of the page in that bucket. */
  lemma SortedSummaryKeepsEarliest(ps: seq<Product>)
    requires Collections.SortedBy(ps, PublishedBefore)
    ensures var h := SubmittedSummary(ps);
      forall k, p :: k in h.values && p in ps && ElapsedBucket(p) == k ==> PublishedBefore(h.values[k], p)
  {
    var h := SubmittedSummary(ps);
    SubmittedSummaryFirstPerBucket(ps);
    forall k, p | k in h.values && p in ps && ElapsedBucket(p) == k ensures PublishedBefore(h.values[k], p) {
      var j :| 0 <= j < |ps| && ps[j] == p;
      assert FirstIndex(ps, k) <= j;
    }
  }

  // ---------------------------------------------------------------------
  // The action

  /** `index`: normalise the target, run its query for the reviewer
      `viewerId`, and summarise the page found. */
  function Index(params: Params, catalog: Catalog, viewerId: int): (v: IndexView)
    ensures v.target == UncheckedAll || v.target == UncheckedNoReplied
    ensures forall p :: p in v.products ==> p in catalog.listed && InReviewQueue(p)
    ensures |v.products| <= params.page.limit
    ensures v.allSubmittedProducts == SubmittedSummary(v.products)
    ensures v.target == NormalizeTarget(params.target)
    ensures v.products == Select(v.target, catalog, viewerId, params.page).value
  {
    var target := NormalizeTarget(params.target);
    var products := Select(target, catalog, viewerId, params.page).value;
    IndexView(target, products, SubmittedSummary(products))
  }

  /** For `unchecked_all` the summary keeps, per bucket, the
      earliest-submitted product of the page. */
  lemma IndexAllSummaryKeepsEarliest(params: Params, catalog: Catalog, viewerId: int)
    requires NormalizeTarget(params.target) == UncheckedAll
    ensures var v := Index(params, catalog, viewerId); var h := v.allSubmittedProducts;
      forall k, p :: k in h.values && p in v.products && ElapsedBucket(p) == k ==> PublishedBefore(h.values[k], p)
  {
    SortedSummaryKeepsEarliest(Index(params, catalog, viewerId).products);
  }
}
