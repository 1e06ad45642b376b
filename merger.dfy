/**
 * The global merge of AzureProducts/Program.cs: each region's families are
 * folded into one global taxonomy with the same find-or-create rules as the
 * fetcher, and every product is re-added to the global service.
 */
module Merger {
  import opened Catalog

  /**
   * A region's service merged into a family's services: the registered service
   * with that Id (or a new shell named after the region's service) with the
   * region's products stored over its own.
   */
  function MergedService(existing: map<string, ServiceRecord>, s: ServiceRecord): ServiceRecord
  {
    var shell := if s.Id in existing then existing[s.Id] else ServiceRecord(s.Id, s.Name, map[]);
    shell.(Products := shell.Products + s.Products)
  }

  /** A family's services after the region's services with ids in `done` are merged in. */
  function MergedServices(existing: map<string, ServiceRecord>, region: map<string, ServiceRecord>, done: set<string>)
    : map<string, ServiceRecord>
    requires done <= region.Keys
  {
    map id | id in existing.Keys + done :: if id in done then MergedService(existing, region[id]) else existing[id]
  }

  /**
   * The global family a region family becomes: the global family of that name
   * (or a new, empty one) with each of the region's services merged in.
   */
  function MergedFamily(all: Taxonomy, family: ServiceFamilyRecord): ServiceFamilyRecord
  {
    var base := if family.Name in all then all[family.Name] else ServiceFamilyRecord(family.Name, map[]);
    base.(Services := MergedServices(base.Services, family.Services, family.Services.Keys))
  }

  /** The global taxonomy after one region family is merged into it. */
  function MergeFamily(all: Taxonomy, family: ServiceFamilyRecord): Taxonomy
  {
    all[family.Name := MergedFamily(all, family)]
  }

  /** The global taxonomy after a region's family list is merged into it, in order. */
  function MergeFamilies(all: Taxonomy, families: seq<ServiceFamilyRecord>): Taxonomy
  {
    if families == [] then all
    else MergeFamily(MergeFamilies(all, families[..|families| - 1]), families[|families| - 1])
  }

  /** Every service of the family is registered under its Id with its products keyed. */
  ghost predicate FamilyKeyed(family: ServiceFamilyRecord)
  {
    ServicesKeyed(family.Services)
  }

  /**
   * The global service `r` holds the products of `allService` with every
   * product of `products` outside `todo` stored over them.
   */
  ghost predicate ProductsAddedExcept(allService: ServiceRecord, products: map<string, ProductRecord>,
                                      todo: set<string>, r: ServiceRecord)
  {
    && todo <= products.Keys
    && r.Id == allService.Id && r.Name == allService.Name
    && r.Products.Keys == allService.Products.Keys + (products.Keys - todo)
    && forall k :: k in r.Products ==>
         r.Products[k] == if k in todo || k !in products then allService.Products[k] else products[k]
  }

  /** Re-adding one more product of the region's service keeps the loop invariant. */
  lemma ProductsAddedStep(allService: ServiceRecord, products: map<string, ProductRecord>,
                          todo: set<string>, r: ServiceRecord, k: string)
    requires ProductsKeyed(products) && k in todo
    requires ProductsAddedExcept(allService, products, todo, r)
    ensures ProductsAddedExcept(allService, products, todo - {k}, r.AddProduct(products[k]))
  {
    assert ProductKey(products[k]) == k;
  }

  /**
   * The innermost merge loop: re-adds every product of a region's service to
   * the global service, one AddProduct at a time.
   */
  method AddProducts(allService: ServiceRecord, products: map<string, ProductRecord>) returns (r: ServiceRecord)
    requires ProductsKeyed(products)
    ensures r == allService.(Products := allService.Products + products)
  {
    r := allService;
    var todo := products.Keys;
    while todo != {}
      invariant ProductsAddedExcept(allService, products, todo, r)
      decreases todo
    {
      var k :| k in todo;
      var product := products[k];
      ProductsAddedStep(allService, products, todo, r, k);
      r := r.AddProduct(product);
      todo := todo - {k};
    }
    assert r.Products == allService.Products + products;
  }

  /**
   * One turn of the middle merge loop: find or create the global service with
   * the region service's Id, then re-add the region service's products to it.
   */
  method MergeService(allFamily: ServiceFamilyRecord, service: ServiceRecord) returns (r: ServiceFamilyRecord)
    requires ProductsKeyed(service.Products)
    ensures r == allFamily.(Services := allFamily.Services[service.Id := MergedService(allFamily.Services, service)])
  {
    r := allFamily;
    if service.Id !in r.Services {
      r := r.AddService(ServiceRecord(service.Id, service.Name, map[]));
    }
    var allService := r.Services[service.Id];
    allService := AddProducts(allService, service.Products);
    // the source updates the global service in place: write it back under its key
    r := r.(Services := r.Services[service.Id := allService]);
  }

  /**
   * The global family `r` holds the services of `allFamily` with every
   * service of `services` outside `todo` merged in.
   */
  ghost predicate ServicesMergedExcept(allFamily: ServiceFamilyRecord, services: map<string, ServiceRecord>,
                                       todo: set<string>, r: ServiceFamilyRecord)
  {
    && todo <= services.Keys
    && r.Name == allFamily.Name
    && r.Services.Keys == allFamily.Services.Keys + (services.Keys - todo)
    && forall id :: id in r.Services ==>
         r.Services[id] == if id in todo || id !in services then allFamily.Services[id]
                           else MergedService(allFamily.Services, services[id])
  }

  /** Merging one more service of the region's family keeps the loop invariant. */
  lemma ServicesMergedStep(allFamily: ServiceFamilyRecord, services: map<string, ServiceRecord>,
                           todo: set<string>, r: ServiceFamilyRecord, id: string)
    requires ServicesKeyed(services) && id in todo
    requires ServicesMergedExcept(allFamily, services, todo, r)
    ensures ServicesMergedExcept(allFamily, services, todo - {id},
      r.(Services := r.Services[id := MergedService(r.Services, services[id])]))
  {
    assert services[id].Id == id;
    assert MergedService(r.Services, services[id]) == MergedService(allFamily.Services, services[id]);
  }

  /**
   * The middle merge loop: finds or creates the global service for each of a
   * region family's services and re-adds its products.
   */
  method MergeServices(allFamily: ServiceFamilyRecord, services: map<string, ServiceRecord>) returns (r: ServiceFamilyRecord)
    requires ServicesKeyed(services)
    ensures r == allFamily.(Services := MergedServices(allFamily.Services, services, services.Keys))
  {
    r := allFamily;
    var todo := services.Keys;
    while todo != {}
      invariant ServicesMergedExcept(allFamily, services, todo, r)
      decreases todo
    {
      var id :| id in todo;
      ServicesMergedStep(allFamily, services, todo, r, id);
      r := MergeService(r, services[id]);
      todo := todo - {id};
    }
    ServicesMergedDone(allFamily, services, r);
  }

  /** Once no service is left to merge, the family holds the merged services. */
  lemma ServicesMergedDone(allFamily: ServiceFamilyRecord, services: map<string, ServiceRecord>, r: ServiceFamilyRecord)
    requires ServicesMergedExcept(allFamily, services, {}, r)
    ensures r == allFamily.(Services := MergedServices(allFamily.Services, services, services.Keys))
  {
    assert r.Services == MergedServices(allFamily.Services, services, services.Keys);
  }

  /**
   * The outer merge loop for one region: finds or creates the global family for
   * each family of the region's list and merges its services.
   */
  method MergeRegion(allServicesMap: Taxonomy, servicesList: seq<ServiceFamilyRecord>) returns (r: Taxonomy)
    requires forall i :: 0 <= i < |servicesList| ==> FamilyKeyed(servicesList[i])
    ensures r == MergeFamilies(allServicesMap, servicesList)
  {
    r := allServicesMap;
    var i := 0;
    assert servicesList[..i] == [];
    while i < |servicesList|
      invariant i <= |servicesList|
      invariant r == MergeFamilies(allServicesMap, servicesList[..i])
    {
      var serviceFamily := servicesList[i];
      ghost var before := r;
      if serviceFamily.Name !in r {
        r := r[serviceFamily.Name := ServiceFamilyRecord(serviceFamily.Name, map[])];
      }
      var allServiceFamily := r[serviceFamily.Name];
      allServiceFamily := MergeServices(allServiceFamily, serviceFamily.Services);
      // the source updates the global family in place: write it back under its key
      r := r[serviceFamily.Name := allServiceFamily];
      assert r == MergeFamily(before, serviceFamily);
      assert servicesList[..i + 1][..i] == servicesList[..i];
      i := i + 1;
    }
    assert servicesList[..i] == servicesList;
  }

  /** The region family holds service `s` with a product keyed `k`. */
  ghost predicate FamilyHas(family: ServiceFamilyRecord, s: string, k: string)
  {
    s in family.Services && k in family.Services[s].Products
  }

  /**
   * Merging a family keeps every entry of the global taxonomy and adds exactly
   * the family's (service id, product key) entries under the family's name.
   */
  lemma MergeFamilyEntries(all: Taxonomy, family: ServiceFamilyRecord, f: string, s: string, k: string)
    requires FamilyKeyed(family)
    ensures HasEntry(MergeFamily(all, family), f, s, k) <==>
      HasEntry(all, f, s, k) || (f == family.Name && FamilyHas(family, s, k))
  {
  }

  /** Some family of the list is named `f` and holds service `s` with a product keyed `k`. */
  ghost predicate SomeFamilyHas(families: seq<ServiceFamilyRecord>, f: string, s: string, k: string)
  {
    exists i :: 0 <= i < |families| && families[i].Name == f && FamilyHas(families[i], s, k)
  }

  /** Some family of a non-empty list has an entry iff the last one or an earlier one does. */
  lemma SomeFamilyHasSplit(families: seq<ServiceFamilyRecord>, f: string, s: string, k: string)
    requires families != []
    ensures SomeFamilyHas(families, f, s, k) <==>
      SomeFamilyHas(families[..|families| - 1], f, s, k) ||
      (families[|families| - 1].Name == f && FamilyHas(families[|families| - 1], s, k))
  {
    var init := families[..|families| - 1];
    if SomeFamilyHas(init, f, s, k) {
      var i :| 0 <= i < |init| && init[i].Name == f && FamilyHas(init[i], s, k);
      assert families[i] == init[i];
    }
    if SomeFamilyHas(families, f, s, k) {
      var i :| 0 <= i < |families| && families[i].Name == f && FamilyHas(families[i], s, k);
      if i < |init| {
        assert init[i] == families[i];
      }
    }
  }

  /**
   * Merging a list of families keeps every entry of the global taxonomy and adds
   * exactly the entries of the listed families.
   */
  lemma {:induction false} MergeFamiliesEntries(all: Taxonomy, families: seq<ServiceFamilyRecord>, f: string, s: string, k: string)
    requires forall i :: 0 <= i < |families| ==> FamilyKeyed(families[i])
    ensures HasEntry(MergeFamilies(all, families), f, s, k) <==>
      HasEntry(all, f, s, k) || SomeFamilyHas(families, f, s, k)
  {
    if families != [] {
      var init := families[..|families| - 1];
      var last := families[|families| - 1];
      var before := MergeFamilies(all, init);
      assert MergeFamilies(all, families) == MergeFamily(before, last);
      MergeFamiliesEntries(all, init, f, s, k);
      MergeFamilyEntries(before, last, f, s, k);
      SomeFamilyHasSplit(families, f, s, k);
    }
  }

  /** Merging a keyed family keeps the key/identity invariant of the global taxonomy. */
  lemma MergeFamilyWellKeyed(all: Taxonomy, family: ServiceFamilyRecord)
    requires WellKeyed(all) && FamilyKeyed(family)
    ensures WellKeyed(MergeFamily(all, family))
  {
    var r := MergeFamily(all, family);
    var base := if family.Name in all then all[family.Name] else ServiceFamilyRecord(family.Name, map[]);
    forall id | id in r[family.Name].Services
      ensures r[family.Name].Services[id].Id == id && ProductsKeyed(r[family.Name].Services[id].Products)
    {
      if id in family.Services {
        assert family.Services[id].Id == id;
      }
    }
  }

  /** Merging a list of keyed families keeps the key/identity invariant. */
  lemma {:induction false} MergeFamiliesWellKeyed(all: Taxonomy, families: seq<ServiceFamilyRecord>)
    requires WellKeyed(all)
    requires forall i :: 0 <= i < |families| ==> FamilyKeyed(families[i])
    ensures WellKeyed(MergeFamilies(all, families))
  {
    if families != [] {
      MergeFamiliesWellKeyed(all, families[..|families| - 1]);
      MergeFamilyWellKeyed(MergeFamilies(all, families[..|families| - 1]), families[|families| - 1]);
    }
  }

  /**
   * Merging a family touches no other family. Inside it, a service already in
   * the global taxonomy keeps its Id and Name (first write wins) and every
   * product the region does not carry; the region's products win on their keys.
   */
  lemma MergeFamilyShells(all: Taxonomy, family: ServiceFamilyRecord, s: string)
    requires WellKeyed(all) && FamilyKeyed(family)
    ensures forall f :: f in all && f != family.Name ==> MergeFamily(all, family)[f] == all[f]
    ensures family.Name in all ==> MergeFamily(all, family)[family.Name].Name == all[family.Name].Name
    ensures family.Name in all && s in all[family.Name].Services ==>
      var before := all[family.Name].Services[s];
      var after := MergeFamily(all, family)[family.Name].Services[s];
      after.Id == before.Id && after.Name == before.Name &&
      forall k :: k in before.Products && (s !in family.Services || k !in family.Services[s].Products) ==>
        k in after.Products && after.Products[k] == before.Products[k]
    ensures s in family.Services ==>
      var after := MergeFamily(all, family)[family.Name].Services[s];
      forall k :: k in family.Services[s].Products ==> after.Products[k] == family.Services[s].Products[k]
  {
    if s in family.Services {
      assert family.Services[s].Id == s;
    }
  }

  /**
   * Two regions carrying the same family and service id with products under
   * different keys: merging both gives one family and one service holding both
   * products.
   */
  lemma TwoRegionsKeepBothProducts(a: ServiceFamilyRecord, b: ServiceFamilyRecord, s: string, ka: string, kb: string)
    requires FamilyKeyed(a) && FamilyKeyed(b) && a.Name == b.Name
    requires FamilyHas(a, s, ka) && FamilyHas(b, s, kb)
    ensures
      var merged := MergeFamilies(map[], [a, b]);
      merged.Keys == {a.Name} &&
      s in merged[a.Name].Services &&
      ka in merged[a.Name].Services[s].Products && kb in merged[a.Name].Services[s].Products
  {
    assert [a, b][..1] == [a];
    assert MergeFamilies(map[], [a]) == MergeFamily(map[], a);
    MergeFamilyEntries(map[], a, a.Name, s, ka);
    MergeFamilyEntries(MergeFamily(map[], a), b, a.Name, s, ka);
    MergeFamilyEntries(MergeFamily(map[], a), b, a.Name, s, kb);
  }

  /** Merging keyed services into no services reproduces them. */
  lemma MergedServicesIntoNone(services: map<string, ServiceRecord>)
    requires ServicesKeyed(services)
    ensures MergedServices(map[], services, services.Keys) == services
  {
    forall id | id in services
      ensures MergedService(map[], services[id]) == services[id]
    {
      assert services[id].Id == id;
      assert map[] + services[id].Products == services[id].Products;
    }
  }

  /** The family list names family `f`. */
  ghost predicate Lists(families: seq<ServiceFamilyRecord>, f: string)
  {
    exists i :: 0 <= i < |families| && families[i].Name == f
  }

  /** Merging region families with distinct names into nothing copies exactly those families. */
  lemma {:induction false} MergeIntoEmptyCopies(region: Taxonomy, families: seq<ServiceFamilyRecord>)
    requires WellKeyed(region)
    requires forall i :: 0 <= i < |families| ==> families[i].Name in region && region[families[i].Name] == families[i]
    requires forall i, j :: 0 <= i < j < |families| ==> families[i].Name != families[j].Name
    ensures forall f :: f in MergeFamilies(map[], families) <==> Lists(families, f)
    ensures forall f :: f in MergeFamilies(map[], families) ==> f in region && MergeFamilies(map[], families)[f] == region[f]
  {
    if families != [] {
      var init := families[..|families| - 1];
      var last := families[|families| - 1];
      MergeIntoEmptyCopies(region, init);
      var m := MergeFamilies(map[], init);
      forall i | 0 <= i < |init| ensures init[i].Name != last.Name {
        assert init[i] == families[i];
      }
      assert last.Name !in m;
      MergedServicesIntoNone(last.Services);
      assert MergeFamily(m, last)[last.Name] == last;
      forall f
        ensures f in MergeFamilies(map[], families) <==> Lists(families, f)
      {
        if Lists(init, f) {
          var i :| 0 <= i < |init| && init[i].Name == f;
          assert families[i] == init[i];
        }
        if Lists(families, f) {
          var i :| 0 <= i < |families| && families[i].Name == f;
          if i < |init| {
            assert init[i] == families[i];
          }
        }
      }
    }
  }

  /**
   * Merging the families of one keyed region, each listed once, into an empty
   * global taxonomy reproduces that region exactly.
   */
  lemma MergeIntoEmpty(region: Taxonomy, families: seq<ServiceFamilyRecord>)
    requires WellKeyed(region)
    requires forall i :: 0 <= i < |families| ==> families[i].Name in region && region[families[i].Name] == families[i]
    requires forall i, j :: 0 <= i < j < |families| ==> families[i].Name != families[j].Name
    requires forall f :: f in region ==> Lists(families, f)
    ensures MergeFamilies(map[], families) == region
  {
    MergeIntoEmptyCopies(region, families);
  }
}
