/**
 * The catalog fetcher of AzureProducts/Program.cs (GetProductCategory): it
 * follows the server's page chain for one region and folds every price item
 * of every page into one taxonomy.
 */
module Fetcher {
  import opened Wrappers
  import opened Catalog

  /**
   * One row of a price page, reduced to the fields the aggregation reads
   * (prices, tiers, dates and the other descriptive fields are not read).
   */
  datatype PriceItem = PriceItem(
    ServiceFamily: string,
    ServiceId: string,
    ServiceName: string,
    ProductId: string,
    ProductName: string,
    SkuName: string,
    MeterName: string)

  /** The product record built from a price item. */
  function ProductOf(item: PriceItem): ProductRecord
  {
    ProductRecord(item.ProductId, item.ProductName, item.SkuName, item.MeterName)
  }

  /** The key the item's product is stored under. */
  function ItemKey(item: PriceItem): string
  {
    ProductKey(ProductOf(item))
  }

  /**
   * Folds one price item into the taxonomy: find or create the family, find or
   * create the service (named after this item only when it is created), then
   * store the product under its composite key.
   */
  function InsertItem(t: Taxonomy, item: PriceItem): Taxonomy
  {
    var family :=
      if item.ServiceFamily in t then t[item.ServiceFamily]
      else ServiceFamilyRecord(item.ServiceFamily, map[]);
    var service :=
      if item.ServiceId in family.Services then family.Services[item.ServiceId]
      else ServiceRecord(item.ServiceId, item.ServiceName, map[]);
    var service' := service.AddProduct(ProductOf(item));
    t[item.ServiceFamily := family.(Services := family.Services[item.ServiceId := service'])]
  }

  /**
   * After an insertion the taxonomy has the item's family, holding the item's
   * service, holding the item's product under the item's composite key.
   */
  lemma InsertItemStores(t: Taxonomy, item: PriceItem)
    ensures InsertItem(t, item).Keys == t.Keys + {item.ServiceFamily}
    ensures HasEntry(InsertItem(t, item), item.ServiceFamily, item.ServiceId, ItemKey(item))
    ensures InsertItem(t, item)[item.ServiceFamily].Services[item.ServiceId].Products[ItemKey(item)] == ProductOf(item)
  {
  }

  /**
   * An insertion leaves every other family as it was; inside the item's family
   * it leaves every other service as it was; inside the item's service it
   * leaves every other product as it was.
   */
  lemma InsertItemFrame(t: Taxonomy, item: PriceItem)
    ensures forall f :: f in t && f != item.ServiceFamily ==> InsertItem(t, item)[f] == t[f]
    ensures item.ServiceFamily in t ==>
      forall id :: id in t[item.ServiceFamily].Services && id != item.ServiceId ==>
        id in InsertItem(t, item)[item.ServiceFamily].Services &&
        InsertItem(t, item)[item.ServiceFamily].Services[id] == t[item.ServiceFamily].Services[id]
    ensures HasEntry(t, item.ServiceFamily, item.ServiceId, ItemKey(item)) ==>
      forall k :: k in t[item.ServiceFamily].Services[item.ServiceId].Products && k != ItemKey(item) ==>
        k in InsertItem(t, item)[item.ServiceFamily].Services[item.ServiceId].Products &&
        InsertItem(t, item)[item.ServiceFamily].Services[item.ServiceId].Products[k] ==
          t[item.ServiceFamily].Services[item.ServiceId].Products[k]
  {
  }

  /**
   * The family and service shells are first-write-wins: an existing family keeps
   * its Name and an existing service keeps its Id and Name; a service created by
   * the insertion is named after the item and holds just its product.
   */
  lemma InsertItemShells(t: Taxonomy, item: PriceItem)
    ensures item.ServiceFamily in t ==> InsertItem(t, item)[item.ServiceFamily].Name == t[item.ServiceFamily].Name
    ensures item.ServiceFamily !in t ==> InsertItem(t, item)[item.ServiceFamily].Name == item.ServiceFamily
    ensures item.ServiceFamily in t && item.ServiceId in t[item.ServiceFamily].Services ==>
      var s := InsertItem(t, item)[item.ServiceFamily].Services[item.ServiceId];
      s.Id == t[item.ServiceFamily].Services[item.ServiceId].Id &&
      s.Name == t[item.ServiceFamily].Services[item.ServiceId].Name
    ensures !(item.ServiceFamily in t && item.ServiceId in t[item.ServiceFamily].Services) ==>
      InsertItem(t, item)[item.ServiceFamily].Services[item.ServiceId] ==
        ServiceRecord(item.ServiceId, item.ServiceName, map[ItemKey(item) := ProductOf(item)])
  {
  }

  /** An insertion keeps the key/identity invariant. */
  lemma InsertItemWellKeyed(t: Taxonomy, item: PriceItem)
    requires WellKeyed(t)
    ensures WellKeyed(InsertItem(t, item))
  {
  }

  /** The in-order fold of `items` into `t`. */
  function FoldItems(t: Taxonomy, items: seq<PriceItem>): Taxonomy
  {
    if items == [] then t
    else InsertItem(FoldItems(t, items[..|items| - 1]), items[|items| - 1])
  }

  /** Folding two lists one after the other is folding their concatenation. */
  lemma {:induction false} FoldItemsAppend(t: Taxonomy, a: seq<PriceItem>, b: seq<PriceItem>)
    ensures FoldItems(FoldItems(t, a), b) == FoldItems(t, a + b)
  {
    if b != [] {
      assert (a + b)[..|a + b| - 1] == a + b[..|b| - 1];
      FoldItemsAppend(t, a, b[..|b| - 1]);
    } else {
      assert a + b == a;
    }
  }

  /** Folding keeps the key/identity invariant. */
  lemma {:induction false} FoldItemsWellKeyed(t: Taxonomy, items: seq<PriceItem>)
    requires WellKeyed(t)
    ensures WellKeyed(FoldItems(t, items))
  {
    if items != [] {
      FoldItemsWellKeyed(t, items[..|items| - 1]);
      InsertItemWellKeyed(FoldItems(t, items[..|items| - 1]), items[|items| - 1]);
    }
  }

  /** The item contributes the entry (f, s, k). */
  predicate ItemIs(item: PriceItem, f: string, s: string, k: string)
  {
    item.ServiceFamily == f && item.ServiceId == s && ItemKey(item) == k
  }

  /** One insertion adds exactly the item's own (family, service id, product key) entry. */
  lemma InsertItemEntries(t: Taxonomy, item: PriceItem, f: string, s: string, k: string)
    ensures HasEntry(InsertItem(t, item), f, s, k) <==> HasEntry(t, f, s, k) || ItemIs(item, f, s, k)
  {
  }

  /** Some item of the list contributes the entry (f, s, k). */
  predicate SomeItemIs(items: seq<PriceItem>, f: string, s: string, k: string)
  {
    exists i :: 0 <= i < |items| && ItemIs(items[i], f, s, k)
  }

  /** Some item of a non-empty list contributes an entry iff the last one or an earlier one does. */
  lemma SomeItemIsSplit(items: seq<PriceItem>, f: string, s: string, k: string)
    requires items != []
    ensures SomeItemIs(items, f, s, k) <==>
      SomeItemIs(items[..|items| - 1], f, s, k) || ItemIs(items[|items| - 1], f, s, k)
  {
    var init := items[..|items| - 1];
    if SomeItemIs(init, f, s, k) {
      var i :| 0 <= i < |init| && ItemIs(init[i], f, s, k);
      assert items[i] == init[i];
    }
    if SomeItemIs(items, f, s, k) {
      var i :| 0 <= i < |items| && ItemIs(items[i], f, s, k);
      if i < |init| {
        assert init[i] == items[i];
      }
    }
  }

  /**
   * After the fold, the taxonomy has exactly the entries it had before plus one
   * (family, service id, product key) entry per folded item.
   */
  lemma {:induction false} FoldItemsEntries(t: Taxonomy, items: seq<PriceItem>, f: string, s: string, k: string)
    ensures HasEntry(FoldItems(t, items), f, s, k) <==> HasEntry(t, f, s, k) || SomeItemIs(items, f, s, k)
  {
    if items != [] {
      var init := items[..|items| - 1];
      var last := items[|items| - 1];
      var before := FoldItems(t, init);
      assert FoldItems(t, items) == InsertItem(before, last);
      FoldItemsEntries(t, init, f, s, k);
      InsertItemEntries(before, last, f, s, k);
      SomeItemIsSplit(items, f, s, k);
    }
  }

  /** Families that no folded item names are left exactly as they were. */
  lemma {:induction false} FoldItemsFrame(t: Taxonomy, items: seq<PriceItem>, f: string)
    requires f in t
    requires forall i :: 0 <= i < |items| ==> items[i].ServiceFamily != f
    ensures f in FoldItems(t, items) && FoldItems(t, items)[f] == t[f]
  {
    if items != [] {
      FoldItemsFrame(t, items[..|items| - 1], f);
      InsertItemFrame(FoldItems(t, items[..|items| - 1]), items[|items| - 1]);
    }
  }

  /** Inserting the same price item twice gives the same taxonomy as inserting it once. */
  lemma InsertItemIdempotent(t: Taxonomy, item: PriceItem)
    ensures InsertItem(InsertItem(t, item), item) == InsertItem(t, item)
  {
    var once := InsertItem(t, item);
    var family := once[item.ServiceFamily];
    var service := family.Services[item.ServiceId];
    assert service.AddProduct(ProductOf(item)) == service;
    assert family.(Services := family.Services[item.ServiceId := service]) == family;
  }

  /** A decoded price page: its rows and the link to the next page (null when absent). */
  datatype RetailPrice = RetailPrice(NextPageLink: Option<string>, Count: int, Items: seq<PriceItem>)

  /**
   * The server's answer to one page request: the HTTP status code and the body,
   * already decoded (None when the body does not decode to a page).
   */
  datatype Response = Response(StatusCode: int, Body: Option<RetailPrice>)

  /** Why fetching a region failed. */
  datatype FetchError =
    | HttpFailure(StatusCode: int)  // a status outside 200-299
    | Undecodable                   // a body that is not a page
    | ServerExhausted               // the modelled server has no answer for the next request

  /** The success range of HTTP status codes. */
  predicate IsSuccessStatusCode(code: int)
  {
    200 <= code <= 299
  }

  /** A link that ends the page chain: null or empty. */
  predicate IsNullOrEmpty(link: Option<string>)
  {
    link.None? || link.value == ""
  }

  /** The page a response carries, or the error the fetch raises on it. */
  function Decode(resp: Response): (r: Result<RetailPrice, FetchError>)
    ensures r.Ok? <==> IsSuccessStatusCode(resp.StatusCode) && resp.Body.Some?
    ensures r.Ok? ==> resp.Body == Some(r.value)
    ensures !IsSuccessStatusCode(resp.StatusCode) ==> r == Err(HttpFailure(resp.StatusCode))
  {
    if !IsSuccessStatusCode(resp.StatusCode) then Err(HttpFailure(resp.StatusCode))
    else if resp.Body.None? then Err(Undecodable)
    else Ok(resp.Body.value)
  }

  /** The response is a good page that links to a further page. */
  predicate Continues(resp: Response)
  {
    Decode(resp).Ok? && !IsNullOrEmpty(Decode(resp).value.NextPageLink)
  }

  /**
   * The index of the response that ends the loop (a failure or a last page), or
   * the number of responses when every one of them links to a further page.
   */
  function StopIndex(pages: seq<Response>): (n: nat)
    ensures n <= |pages|
    ensures forall j :: 0 <= j < n ==> Continues(pages[j])
    ensures n < |pages| ==> !Continues(pages[n])
  {
    if pages == [] || !Continues(pages[0]) then 0
    else 1 + StopIndex(pages[1..])
  }

  /** All rows of the first `n` pages, in order. */
  function ItemsUpTo(pages: seq<Response>, n: nat): seq<PriceItem>
    requires n <= |pages|
    requires forall j :: 0 <= j < n ==> Decode(pages[j]).Ok?
  {
    if n == 0 then [] else ItemsUpTo(pages, n - 1) + Decode(pages[n - 1]).value.Items
  }

  /**
   * What fetching a region yields: the error of the response that ends the loop,
   * or the in-order fold of every row on every page up to and including the
   * first page whose next link is null or empty.
   */
  function Fetched(pages: seq<Response>): Result<Taxonomy, FetchError>
  {
    var n := StopIndex(pages);
    if n == |pages| then Err(ServerExhausted)
    else if Decode(pages[n]).Err? then Err(Decode(pages[n]).error)
    else Ok(FoldItems(map[], ItemsUpTo(pages, n + 1)))
  }

  /** The rows a fetch folds, in order: those of every page it reads, or none when it fails. */
  function FetchedRows(pages: seq<Response>): (rows: seq<PriceItem>)
    ensures Fetched(pages).Ok? ==> Fetched(pages).value == FoldItems(map[], rows)
    ensures Fetched(pages).Err? ==> rows == []
  {
    var n := StopIndex(pages);
    if n < |pages| && Decode(pages[n]).Ok? then ItemsUpTo(pages, n + 1) else []
  }

  /**
   * Reading the responses in order, response `i` (reached only past responses
   * that continue the chain) decides the outcome exactly when it does not
   * continue the chain itself.
   */
  lemma FetchedAt(pages: seq<Response>, i: nat)
    requires i <= StopIndex(pages)
    ensures i == |pages| ==> Fetched(pages) == Err(ServerExhausted)
    ensures i < |pages| && Decode(pages[i]).Err? ==> Fetched(pages) == Err(Decode(pages[i]).error)
    ensures i < |pages| && Decode(pages[i]).Ok? && IsNullOrEmpty(Decode(pages[i]).value.NextPageLink) ==>
      Fetched(pages) == Ok(FoldItems(map[], ItemsUpTo(pages, i + 1)))
    ensures i < |pages| && Continues(pages[i]) ==> i + 1 <= StopIndex(pages)
  {
    if i < StopIndex(pages) {
      assert Continues(pages[i]);
    }
  }

  /** The first request of a region. */
  function InitialUrl(region: string): string
  {
    "https://prices.azure.com/api/retail/prices?$filter=armRegionName eq '" + region + "' and type eq 'Consumption'"
  }

  /** The next link of a response, as the loop follows it (empty when there is none). */
  function NextLink(resp: Response): string
  {
    if Decode(resp).Ok? && Decode(resp).value.NextPageLink.Some? then Decode(resp).value.NextPageLink.value else ""
  }

  /** The URLs the loop requests while reading `pages`: the region's first URL, then each page's next link. */
  function RequestedUrls(region: string, pages: seq<Response>): (urls: seq<string>)
    ensures |urls| == |pages| + 1 && urls[0] == InitialUrl(region)
    ensures forall j :: 0 <= j < |pages| ==> urls[j + 1] == NextLink(pages[j])
  {
    if pages == [] then [InitialUrl(region)]
    else RequestedUrls(region, pages[..|pages| - 1]) + [NextLink(pages[|pages| - 1])]
  }

  /**
   * One turn of the page loop: find or create the item's family, find or create
   * its service, store its product.
   */
  method AddItem(serviceFamilyMap: Taxonomy, item: PriceItem) returns (r: Taxonomy)
    ensures r == InsertItem(serviceFamilyMap, item)
  {
    r := serviceFamilyMap;
    if item.ServiceFamily !in r {
      r := r[item.ServiceFamily := ServiceFamilyRecord(item.ServiceFamily, map[])];
    }
    var serviceFamily := r[item.ServiceFamily];
    ghost var family := serviceFamily;
    if item.ServiceId !in serviceFamily.Services {
      serviceFamily := serviceFamily.AddService(ServiceRecord(item.ServiceId, item.ServiceName, map[]));
    }
    var service := serviceFamily.Services[item.ServiceId];
    service := service.AddProduct(ProductOf(item));
    // the source updates both records in place: write them back under their keys
    serviceFamily := serviceFamily.(Services := serviceFamily.Services[item.ServiceId := service]);
    assert serviceFamily == family.(Services := family.Services[item.ServiceId := service]);
    r := r[item.ServiceFamily := serviceFamily];
    assert r == serviceFamilyMap[item.ServiceFamily := serviceFamily];
  }

  /** The page loop: folds every row of one page into the map, in order. */
  method AddItems(serviceFamilyMap: Taxonomy, items: seq<PriceItem>) returns (r: Taxonomy)
    ensures r == FoldItems(serviceFamilyMap, items)
  {
    r := serviceFamilyMap;
    var k := 0;
    assert items[..k] == [];
    while k < |items|
      invariant k <= |items|
      invariant r == FoldItems(serviceFamilyMap, items[..k])
    {
      r := AddItem(r, items[k]);
      assert items[..k + 1][..k] == items[..k];
      k := k + 1;
    }
    assert items[..k] == items;
  }

  /**
   * Fetches one region. `server` lists the responses the price API gives, in
   * request order; `requested` is the list of URLs the loop asks for.
   */
  method GetProductCategory(region: string, server: seq<Response>)
    returns (result: Result<Taxonomy, FetchError>, requested: seq<string>)
    ensures result == Fetched(server)
    ensures requested == RequestedUrls(region, server[..StopIndex(server)])
  {
    var serviceFamilyMap: Taxonomy := map[];
    var apiUrl := InitialUrl(region);
    var i := 0;
    requested := [];
    assert server[..i] == [];
    while true
      invariant i <= StopIndex(server)
      invariant serviceFamilyMap == FoldItems(map[], ItemsUpTo(server, i))
      invariant requested + [apiUrl] == RequestedUrls(region, server[..i])
      decreases |server| - i
    {
      FetchedAt(server, i);
      requested := requested + [apiUrl];
      if i == |server| {
        result := Err(ServerExhausted);
        return;
      }
      var httpResp := server[i];
      if !IsSuccessStatusCode(httpResp.StatusCode) {
        result := Err(HttpFailure(httpResp.StatusCode));
        return;
      }
      if httpResp.Body.None? {
        result := Err(Undecodable);
        return;
      }
      var jsonResp := httpResp.Body.value;
      serviceFamilyMap := AddItems(serviceFamilyMap, jsonResp.Items);
      FoldItemsAppend(map[], ItemsUpTo(server, i), jsonResp.Items);
      if IsNullOrEmpty(jsonResp.NextPageLink) {
        result := Ok(serviceFamilyMap);
        return;
      }
      apiUrl := jsonResp.NextPageLink.value;
      assert server[..i + 1][..i] == server[..i];
      i := i + 1;
    }
  }

  /** Every taxonomy a region fetch returns satisfies the key/identity invariant. */
  lemma FetchedWellKeyed(pages: seq<Response>)
    requires Fetched(pages).Ok?
    ensures WellKeyed(Fetched(pages).value)
  {
    FoldItemsWellKeyed(map[], ItemsUpTo(pages, StopIndex(pages) + 1));
  }

  /**
   * The same row on two pages, the second of them the last, gives one family
   * holding one service holding one product.
   */
  lemma DuplicateRowAcrossPages(item: PriceItem, link: string)
    requires link != ""
    ensures
      var pages := [Response(200, Some(RetailPrice(Some(link), 1, [item]))),
                    Response(200, Some(RetailPrice(Some(""), 1, [item])))];
      Fetched(pages) == Ok(map[item.ServiceFamily :=
        ServiceFamilyRecord(item.ServiceFamily, map[item.ServiceId :=
          ServiceRecord(item.ServiceId, item.ServiceName, map[ItemKey(item) := ProductOf(item)])])])
  {
    var pages := [Response(200, Some(RetailPrice(Some(link), 1, [item]))),
                  Response(200, Some(RetailPrice(Some(""), 1, [item])))];
    assert StopIndex(pages[1..]) == 0;
    assert StopIndex(pages) == 1;
    assert ItemsUpTo(pages, 0) == [];
    assert ItemsUpTo(pages, 1) == [item];
    assert ItemsUpTo(pages, 2) == [item] + [item];
    assert [item, item][..1] == [item];
    assert FoldItems(map[], [item]) == InsertItem(map[], item);
    InsertItemIdempotent(map[], item);
  }

  /**
   * A failed status on the second request fails the whole region, whatever the
   * first page held: no taxonomy is returned.
   */
  lemma FailureOnSecondPage(first: RetailPrice, status: int, body: Option<RetailPrice>, rest: seq<Response>)
    requires !IsNullOrEmpty(first.NextPageLink)
    requires !IsSuccessStatusCode(status)
    ensures Fetched([Response(200, Some(first)), Response(status, body)] + rest) == Err(HttpFailure(status))
  {
    var pages := [Response(200, Some(first)), Response(status, body)] + rest;
    assert pages[1..][0] == Response(status, body);
    assert StopIndex(pages[1..]) == 0;
  }
}
