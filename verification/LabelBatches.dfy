/** The generator that pages through open issues and hands them out in work batches
    (scripts/label-open-issues.ts:417-486). */
module LabelBatches {
  import opened Text

  const WORK_BATCH_SIZE: nat := 500

  datatype Node = Node(number: int, title: string, body: Option<string>, labels: Option<Option<seq<string>>>)

  datatype Item = Item(number: int, title: string, body: string, labels: seq<string>)

  datatype Page = Page(nodes: Option<seq<Node>>, hasNextPage: bool, endCursor: Option<string>, totalCount: Option<int>)

  datatype Batch = Batch(batchIndex: nat, items: seq<Item>, totalCount: int, fetchedCount: nat)

  /** The page that follows a cursor; without a cursor, the first one. */
  type Fetch = Option<string> -> Page

  /** `limit`: a number, which need not be whole, or infinity. */
  datatype Limit = Unlimited | AtMost(max: real) {
    predicate Allows(count: nat) {
      Unlimited? || count as real < max
    }

    /** How many of `count` items are let through. */
    function Cap(count: nat): (c: nat)
      ensures c <= count && (c == 0 || Allows(c - 1)) && (c == count || !Allows(c))
    {
      if count == 0 || Allows(count - 1) then count else Cap(count - 1)
    }

    function Minus(count: nat): Limit {
      if Unlimited? then Unlimited else AtMost(max - count as real)
    }
  }

  /** mapNodeToLabelItem. */
  function ToItem(node: Node): Item {
    Item(node.number, node.title,
         if node.body.Some? then node.body.value else "",
         if node.labels.Some? && node.labels.value.Some? then node.labels.value.value else [])
  }

  function Nodes(page: Page): seq<Node> {
    if page.nodes.Some? then page.nodes.value else []
  }

  function PageItems(page: Page): (s: seq<Item>)
    ensures |s| == |Nodes(page)|
  {
    seq(|Nodes(page)|, i requires 0 <= i < |Nodes(page)| => ToItem(Nodes(page)[i]))
  }

  /** The items of the pages, in order. */
  function Items(pages: seq<Page>): seq<Item> {
    if pages == [] then [] else PageItems(pages[0]) + Items(pages[1..])
  }

  function Reported(page: Page, known: int): int {
    if page.totalCount.Some? then page.totalCount.value else known
  }

  /** The total count last reported by the pages. */
  function Known(pages: seq<Page>): int {
    if pages == [] then 0 else Reported(pages[|pages| - 1], Known(pages[..|pages| - 1]))
  }

  /** The total count known when the c-th item of the pages was read. */
  function TotalAt(pages: seq<Page>, c: int): int {
    if pages == [] || c > |Items(pages[..|pages| - 1])| then Known(pages) else TotalAt(pages[..|pages| - 1], c)
  }

  function TotalOf(pages: seq<Page>): int -> int {
    c => TotalAt(pages, c)
  }

  /** The first n pages that follow a cursor, fewer when the listing ends before. */
  function Listing(fetch: Fetch, after: Option<string>, n: nat): seq<Page>
    decreases n
  {
    if n == 0 then []
    else [fetch(after)] + if fetch(after).hasNextPage then Listing(fetch, fetch(after).endCursor, n - 1) else []
  }

  /** The listing ends, or reaches the limit, within n pages. */
  predicate Finishes(fetch: Fetch, after: Option<string>, limit: Limit, n: nat)
    decreases n
  {
    limit.Allows(0) ==>
      && n > 0
      && (fetch(after).hasNextPage ==>
            Finishes(fetch, fetch(after).endCursor, limit.Minus(|Nodes(fetch(after))|), n - 1))
  }

  /** The pages the limit asks for: no page is read once it is reached. */
  function Fetched(fetch: Fetch, after: Option<string>, limit: Limit, n: nat): seq<Page>
    decreases n
  {
    if !limit.Allows(0) || n == 0 then []
    else
      [fetch(after)] +
      if fetch(after).hasNextPage then Fetched(fetch, fetch(after).endCursor, limit.Minus(|Nodes(fetch(after))|), n - 1)
      else []
  }

  function First(limit: Limit, items: seq<Item>): seq<Item> {
    items[..limit.Cap(|items|)]
  }

  function Concat(batches: seq<Batch>): seq<Item> {
    if batches == [] then [] else Concat(batches[..|batches| - 1]) + batches[|batches| - 1].items
  }

  /** Full batches, numbered from 1, that carry the count of items so far and the total known
      when their last item was read. */
  ghost predicate AreFull(batches: seq<Batch>, totalAt: int -> int) {
    batches != [] ==>
      var before, b := batches[..|batches| - 1], batches[|batches| - 1];
      && AreFull(before, totalAt)
      && b.batchIndex == |batches| && |b.items| == 500
      && b.fetchedCount == |Concat(batches)| && b.totalCount == totalAt(b.fetchedCount)
  }

  lemma {:induction false} FullMeaning(batches: seq<Batch>, totalAt: int -> int, k: nat)
    requires AreFull(batches, totalAt) && k < |batches|
    ensures batches[k].batchIndex == k + 1 && |batches[k].items| == 500
    ensures batches[k].fetchedCount == |Concat(batches[..k + 1])|
    ensures batches[k].totalCount == totalAt(batches[k].fetchedCount)
  {
    var before := batches[..|batches| - 1];
    if k == |batches| - 1 {
      assert batches[..k + 1] == batches;
    } else {
      FullMeaning(before, totalAt, k);
      assert before[..k + 1] == batches[..k + 1];
    }
  }

  /** The generator's variables after it has taken some items. */
  ghost predicate HasTaken(items: seq<Item>, batches: seq<Batch>, results: seq<Item>, fetchedCount: nat,
                           batchIndex: nat, totalAt: int -> int)
  {
    && Concat(batches) + results == items && fetchedCount == |items|
    && AreFull(batches, totalAt) && |results| < 500 && batchIndex == |batches| + 1
  }

  lemma ItemsCons(page: Page, rest: seq<Page>)
    ensures Items([page] + rest) == PageItems(page) + Items(rest)
  {
  }

  lemma Associative<T>(x: seq<T>, y: seq<T>, z: seq<T>)
    ensures x + (y + z) == (x + y) + z
  {
  }

  lemma {:induction false} ItemsConcat(a: seq<Page>, b: seq<Page>)
    ensures Items(a + b) == Items(a) + Items(b)
    decreases |a|
  {
    if a == [] {
      assert a + b == b;
    } else {
      var page, a' := a[0], a[1..];
      ItemsConcat(a', b);
      ItemsCons(page, a' + b);
      ItemsCons(page, a');
      Associative([page], a', b);
      assert [page] + a' == a;
      Associative(PageItems(page), Items(a'), Items(b));
    }
  }

  lemma FirstOfPages(limit: Limit, page: Page, rest: seq<Page>)
    ensures First(limit, Items([page] + rest))
            == if limit.Allows(|Nodes(page)|) then PageItems(page) + First(limit.Minus(|Nodes(page)|), Items(rest))
               else First(limit, PageItems(page))
  {
  }

  lemma SameFirst(limit: Limit, page: Page, a: seq<Page>, b: seq<Page>)
    requires First(limit.Minus(|Nodes(page)|), Items(a)) == First(limit.Minus(|Nodes(page)|), Items(b))
    ensures First(limit, Items([page] + a)) == First(limit, Items([page] + b))
  {
    FirstOfPages(limit, page, a);
    FirstOfPages(limit, page, b);
  }

  lemma NothingAllowed(limit: Limit, items: seq<Item>)
    requires !limit.Allows(0)
    ensures First(limit, items) == []
  {
  }

  /** Nothing that belongs to the first `limit` items of the whole listing is missed by stopping
      early: reading further pages does not change them. */
  lemma {:induction false} FetchedIsEnough(fetch: Fetch, after: Option<string>, limit: Limit, n: nat, m: nat)
    requires Finishes(fetch, after, limit, n) && n <= m
    ensures First(limit, Items(Listing(fetch, after, m))) == First(limit, Items(Fetched(fetch, after, limit, n)))
    decreases n
  {
    var all, some := Listing(fetch, after, m), Fetched(fetch, after, limit, n);
    if !limit.Allows(0) {
      NothingAllowed(limit, Items(all));
      NothingAllowed(limit, Items(some));
    } else {
      var page := fetch(after);
      assert all[0] == some[0] == page;
      var rest := limit.Minus(|Nodes(page)|);
      if page.hasNextPage {
        FetchedIsEnough(fetch, page.endCursor, rest, n - 1, m - 1);
        SameFirst(limit, page, Listing(fetch, page.endCursor, m - 1), Fetched(fetch, page.endCursor, rest, n - 1));
      } else {
        assert all == some;
      }
    }
  }

  // ---------- the generator ----------

  lemma FirstGrows(limit: Limit, a: seq<Item>, x: Item)
    requires limit.Allows(|First(limit, a)|)
    ensures First(limit, a) == a && First(limit, a + [x]) == a + [x]
  {
  }

  lemma FirstStops(limit: Limit, a: seq<Item>, b: seq<Item>)
    requires !limit.Allows(|First(limit, a)|)
    ensures First(limit, a + b) == First(limit, a)
  {
  }

  lemma ConcatPush(batches: seq<Batch>, batch: Batch)
    ensures Concat(batches + [batch]) == Concat(batches) + batch.items
  {
  }

  lemma PrefixesKept(batches: seq<Batch>, batch: Batch)
    ensures forall k :: 0 <= k < |batches| ==>
              (batches + [batch])[k] == batches[k] && Concat((batches + [batch])[..k + 1]) == Concat(batches[..k + 1])
    ensures (batches + [batch])[..|batches| + 1] == batches + [batch]
  {
    forall k | 0 <= k < |batches|
      ensures (batches + [batch])[k] == batches[k] && Concat((batches + [batch])[..k + 1]) == Concat(batches[..k + 1])
    {
      assert (batches + [batch])[..k + 1] == batches[..k + 1];
    }
  }

  /** One more item: it completes a batch or waits in the results. */
  method TakeItem(item: Item, totalCount: int, batches: seq<Batch>, results: seq<Item>, fetchedCount: nat,
                  batchIndex: nat, ghost taken: seq<Item>, ghost totalAt: int -> int)
    returns (batches': seq<Batch>, results': seq<Item>, fetchedCount': nat, batchIndex': nat)
    requires HasTaken(taken, batches, results, fetchedCount, batchIndex, totalAt)
    requires totalAt(fetchedCount + 1) == totalCount
    ensures HasTaken(taken + [item], batches', results', fetchedCount', batchIndex', totalAt)
  {
    batches', results', fetchedCount', batchIndex' := batches, results + [item], fetchedCount + 1, batchIndex;
    Associative(Concat(batches), results, [item]);
    if |results'| >= WORK_BATCH_SIZE {
      var batch := Batch(batchIndex, results', totalCount, fetchedCount');
      ConcatPush(batches, batch);
      batches', results' := batches + [batch], [];
      batchIndex' := batchIndex + 1;
      assert batches'[..|batches|] == batches;
    }
  }

  /** The items of one page, up to the limit. */
  method TakePage(limit: Limit, page: Page, totalCount: int, batches: seq<Batch>, results: seq<Item>,
                  fetchedCount: nat, batchIndex: nat, ghost taken: seq<Item>, ghost totalAt: int -> int)
    returns (batches': seq<Batch>, results': seq<Item>, fetchedCount': nat, batchIndex': nat)
    requires HasTaken(taken, batches, results, fetchedCount, batchIndex, totalAt) && First(limit, taken) == taken
    requires forall c :: |taken| < c <= |taken| + |Nodes(page)| ==> totalAt(c) == totalCount
    ensures HasTaken(First(limit, taken + PageItems(page)), batches', results', fetchedCount', batchIndex', totalAt)
  {
    var nodes := Nodes(page);
    ghost var all := PageItems(page);
    batches', results', fetchedCount', batchIndex' := batches, results, fetchedCount, batchIndex;
    assert taken + all[..0] == taken;
    var i := 0;
    while i < |nodes|
      invariant 0 <= i <= |nodes|
      invariant HasTaken(First(limit, taken + all[..i]), batches', results', fetchedCount', batchIndex', totalAt)
    {
      ghost var now := taken + all[..i];
      if !limit.Allows(fetchedCount') {
        FirstStops(limit, now, all[i..]);
        assert now + all[i..] == taken + all;
        return;
      }
      var item := ToItem(nodes[i]);
      FirstGrows(limit, now, item);
      assert now + [item] == taken + all[..i + 1];
      batches', results', fetchedCount', batchIndex' :=
        TakeItem(item, totalCount, batches', results', fetchedCount', batchIndex', now, totalAt);
      i := i + 1;
    }
    assert all[..i] == all;
  }

  /** What is yielded for the items: `last` is the total known at the end. */
  ghost predicate Yields(batches: seq<Batch>, items: seq<Item>, totalAt: int -> int, last: int) {
    && Concat(batches) == items
    && forall k :: 0 <= k < |batches| ==>
         && batches[k].batchIndex == k + 1
         && 1 <= |batches[k].items| <= 500
         && (k < |batches| - 1 ==> |batches[k].items| == 500)
         && batches[k].fetchedCount == |Concat(batches[..k + 1])|
         && batches[k].totalCount ==
              if |batches[k].items| == 500 then totalAt(batches[k].fetchedCount) else last
  }

  /** The last batch, when items are left over. */
  method YieldRest(totalCount: int, batches: seq<Batch>, results: seq<Item>, fetchedCount: nat, batchIndex: nat,
                   ghost taken: seq<Item>, ghost totalAt: int -> int)
    returns (batches': seq<Batch>)
    requires HasTaken(taken, batches, results, fetchedCount, batchIndex, totalAt)
    ensures Yields(batches', taken, totalAt, totalCount)
  {
    batches' := batches;
    forall k | 0 <= k < |batches|
      ensures batches[k].batchIndex == k + 1 && |batches[k].items| == 500
      ensures batches[k].fetchedCount == |Concat(batches[..k + 1])|
      ensures batches[k].totalCount == totalAt(batches[k].fetchedCount)
    {
      FullMeaning(batches, totalAt, k);
    }
    if results != [] {
      var batch := Batch(batchIndex, results, totalCount, fetchedCount);
      ConcatPush(batches, batch);
      PrefixesKept(batches, batch);
      batches' := batches + [batch];
    }
  }

  lemma TakenWithinLimit(limit: Limit, items: seq<Item>, count: nat)
    requires count == |First(limit, items)| && limit.Allows(count)
    ensures First(limit, items) == items && limit.Allows(|items|)
  {
  }

  /** The total of an item does not depend on later pages. */
  lemma {:induction false} TotalKept(pages: seq<Page>, r: nat, c: int)
    requires r <= |pages| && c <= |Items(pages[..r])|
    ensures TotalAt(pages, c) == TotalAt(pages[..r], c)
    decreases |pages|
  {
    if r == |pages| {
      assert pages[..r] == pages;
    } else {
      var before := pages[..|pages| - 1];
      assert before[..r] == pages[..r] && before == pages[..r] + before[r..];
      ItemsConcat(pages[..r], before[r..]);
      TotalKept(before, r, c);
    }
  }

  /** Reading page r adds its items, and the total known then is that of its items. */
  lemma PageRead(pages: seq<Page>, r: nat)
    requires r < |pages|
    ensures Items(pages[..r + 1]) == Items(pages[..r]) + PageItems(pages[r])
    ensures Known(pages[..r + 1]) == Reported(pages[r], Known(pages[..r]))
    ensures forall c :: |Items(pages[..r])| < c <= |Items(pages[..r + 1])| ==>
              TotalOf(pages)(c) == Known(pages[..r + 1])
  {
    var before, next := pages[..r], pages[..r + 1];
    assert next == before + [pages[r]] && next[..r] == before;
    ItemsConcat(before, [pages[r]]);
    ItemsCons(pages[r], []);
    assert [pages[r]] + [] == [pages[r]];
    forall c | |Items(before)| < c <= |Items(next)| ensures TotalAt(pages, c) == Known(next) {
      TotalKept(pages, r + 1, c);
    }
  }

  /** `todo` is what is fetched from the cursor on when `count` items have been read. */
  ghost predicate Ahead(fetch: Fetch, after: Option<string>, limit: Limit, count: nat, m: nat, todo: seq<Page>) {
    Finishes(fetch, after, limit.Minus(count), m) && todo == Fetched(fetch, after, limit.Minus(count), m)
  }

  /** The pages still to come, as long as the limit is not reached. */
  lemma NothingLeft(fetch: Fetch, after: Option<string>, limit: Limit, items: seq<Item>, m: nat, pages: seq<Page>,
                    read: nat)
    requires read <= |pages| && Ahead(fetch, after, limit, |items|, m, pages[read..])
    requires !limit.Allows(|First(limit, items)|)
    ensures pages[..read] == pages
  {
  }

  lemma PageTurned(fetch: Fetch, after: Option<string>, limit: Limit, items: seq<Item>, m: nat, pages: seq<Page>,
                   read: nat)
    requires read <= |pages| && Ahead(fetch, after, limit, |items|, m, pages[read..])
    requires First(limit, items) == items && limit.Allows(|items|)
    ensures m > 0 && read < |pages| && pages[read] == fetch(after)
    ensures if fetch(after).hasNextPage then
              Ahead(fetch, fetch(after).endCursor, limit, |items + PageItems(fetch(after))|, m - 1, pages[read + 1..])
            else pages[..read + 1] == pages
  {
  }

  /** The loop over the pages. */
  method ReadPages(limit: Limit, fetch: Fetch, ghost n: nat, ghost pages: seq<Page>)
    returns (batches: seq<Batch>, results: seq<Item>, totalCount: int, fetchedCount: nat, batchIndex: nat)
    requires Finishes(fetch, None, limit, n) && pages == Fetched(fetch, None, limit, n)
    ensures HasTaken(First(limit, Items(pages)), batches, results, fetchedCount, batchIndex, TotalOf(pages))
    ensures totalCount == Known(pages)
  {
    ghost var read: nat, items, m := 0, Items(pages[..0]), n;
    var after: Option<string> := None;
    batches, results, totalCount, fetchedCount, batchIndex := [], [], 0, 0, 1;
    assert pages[0..] == pages;
    while limit.Allows(fetchedCount)
      invariant read <= |pages| && items == Items(pages[..read]) && totalCount == Known(pages[..read])
      invariant Ahead(fetch, after, limit, |items|, m, pages[read..])
      invariant HasTaken(First(limit, items), batches, results, fetchedCount, batchIndex, TotalOf(pages))
      decreases m
    {
      var pageData := fetch(after);
      TakenWithinLimit(limit, items, fetchedCount);
      PageTurned(fetch, after, limit, items, m, pages, read);
      PageRead(pages, read);
      totalCount := Reported(pageData, totalCount);
      batches, results, fetchedCount, batchIndex :=
        TakePage(limit, pageData, totalCount, batches, results, fetchedCount, batchIndex, items, TotalOf(pages));
      items, read := items + PageItems(pageData), read + 1;
      if !pageData.hasNextPage {
        return;
      }
      after := pageData.endCursor;
      m := m - 1;
    }
    NothingLeft(fetch, after, limit, items, m, pages, read);
  }

  /** fetchOpenLabelItemBatches: the batches it yields, for any number n of pages within which
      the listing ends or reaches the limit. */
  method FetchOpenLabelItemBatches(limit: Limit, fetch: Fetch, ghost n: nat) returns (batches: seq<Batch>)
    requires Finishes(fetch, None, limit, n)
    ensures var pages := Fetched(fetch, None, limit, n);
            Yields(batches, First(limit, Items(Listing(fetch, None, n))), TotalOf(pages), Known(pages))
  {
    ghost var pages := Fetched(fetch, None, limit, n);
    var results, totalCount, fetchedCount, batchIndex;
    batches, results, totalCount, fetchedCount, batchIndex := ReadPages(limit, fetch, n, pages);
    FetchedIsEnough(fetch, None, limit, n, n);
    batches := YieldRest(totalCount, batches, results, fetchedCount, batchIndex, First(limit, Items(pages)),
      TotalOf(pages));
  }

  // ---------- what the items and the totals are ----------

  /** The issues of the pages, in order; a page may come without a list. */
  function AllNodes(pages: seq<Page>): seq<Node> {
    if pages == [] then []
    else (match pages[0].nodes case Some(nodes) => nodes case None => []) + AllNodes(pages[1..])
  }

  /** The item has the number, the title and the text of the issue, and its labels; what the issue
      does not have is empty. */
  predicate IsItemOf(item: Item, node: Node) {
    && item.number == node.number && item.title == node.title
    && (if node.body == None then item.body == "" else node.body == Some(item.body))
    && (if node.labels == None || node.labels == Some(None) then item.labels == []
        else node.labels == Some(Some(item.labels)))
  }

  /** Every issue listed is one item, in order. */
  lemma {:induction false} ItemsAreIssues(pages: seq<Page>)
    ensures |Items(pages)| == |AllNodes(pages)|
    ensures forall i :: 0 <= i < |Items(pages)| ==> IsItemOf(Items(pages)[i], AllNodes(pages)[i])
  {
    if pages == [] {
    } else {
      var first, n := PageItems(pages[0]), |Nodes(pages[0])|;
      ItemsAreIssues(pages[1..]);
      forall i | 0 <= i < n ensures IsItemOf(first[i], Nodes(pages[0])[i]) {
        assert first[i] == ToItem(Nodes(pages[0])[i]);
      }
    }
  }

  /** What the limit lets through: all items without one, and otherwise the first ones, as long as
      there are fewer than it before them. */
  lemma FirstMeaning(limit: Limit, items: seq<Item>)
    ensures First(limit, items) <= items
    ensures limit.Unlimited? ==> First(limit, items) == items
    ensures limit.AtMost? ==> var n := |First(limit, items)|;
                              (n > 0 ==> n as real < limit.max + 1.0) && (n < |items| ==> limit.max <= n as real)
  {
  }

  /** The total known after some pages is the one reported last, and 0 before any is. */
  lemma {:induction false} KnownIsLastReported(pages: seq<Page>, k: nat)
    requires k <= |pages| && forall j :: k <= j < |pages| ==> pages[j].totalCount == None
    ensures k == 0 ==> Known(pages) == 0
    ensures k > 0 && pages[k - 1].totalCount.Some? ==> Known(pages) == pages[k - 1].totalCount.value
    decreases |pages|
  {
    if k < |pages| {
      KnownIsLastReported(pages[..|pages| - 1], k);
    }
  }

  /** And the total of an item is the one known when its page had been read. */
  lemma TotalIsOfPage(pages: seq<Page>, r: nat, c: nat)
    requires r < |pages| && |AllNodes(pages[..r])| < c <= |AllNodes(pages[..r + 1])|
    ensures TotalOf(pages)(c) == Known(pages[..r + 1])
  {
    ItemsAreIssues(pages[..r]);
    ItemsAreIssues(pages[..r + 1]);
    PageRead(pages, r);
  }
}
