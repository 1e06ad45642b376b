/**
 * Merging a fetched region into the global taxonomy (the three nested loops of
 * AzureProducts/Program.cs) and inserting the region's price rows straight
 * into the global taxonomy (the find-or-create steps of GetProductCategory)
 * give the same taxonomy: the merge is repeated insertion, regrouped.
 */
module Equivalence {
  import opened Catalog
  import opened Fetcher
  import opened Merger

  /** `all` with the families of region `r` named in `names` merged in, each on its own. */
  ghost function OverlayOn(all: Taxonomy, r: Taxonomy, names: set<string>): Taxonomy
    requires names <= r.Keys
  {
    map f | f in all.Keys + names :: if f in names then MergedFamily(all, r[f]) else all[f]
  }

  /** `all` with every family of region `r` merged in. */
  ghost function Overlay(all: Taxonomy, r: Taxonomy): Taxonomy
  {
    OverlayOn(all, r, r.Keys)
  }

  /** The names of the listed families. */
  ghost function NamesOf(families: seq<ServiceFamilyRecord>): set<string>
  {
    set i | 0 <= i < |families| :: families[i].Name
  }

  /** Merging a family depends only on the global family of the same name. */
  lemma MergedFamilyLocal(a: Taxonomy, b: Taxonomy, family: ServiceFamilyRecord)
    requires family.Name in a <==> family.Name in b
    requires family.Name in a ==> a[family.Name] == b[family.Name]
    ensures MergedFamily(a, family) == MergedFamily(b, family)
  {
  }

  /** The names of a non-empty list are those of all but its last family, plus the last one's. */
  lemma NamesOfLast(families: seq<ServiceFamilyRecord>)
    requires families != []
    ensures NamesOf(families) == NamesOf(families[..|families| - 1]) + {families[|families| - 1].Name}
  {
    var init := families[..|families| - 1];
    forall f | f in NamesOf(families) ensures f in NamesOf(init) + {families[|families| - 1].Name} {
      var i :| 0 <= i < |families| && families[i].Name == f;
      if i < |init| {
        assert init[i].Name == f;
      }
    }
  }

  /** Merging one more region family, on its own, adds it under its name. */
  lemma OverlayOnAdd(all: Taxonomy, r: Taxonomy, names: set<string>, f: string)
    requires names <= r.Keys && f in r
    ensures OverlayOn(all, r, names)[f := MergedFamily(all, r[f])] == OverlayOn(all, r, names + {f})
  {
  }

  /**
   * Merging families with distinct names, in list order, merges each of them
   * into the starting taxonomy on its own.
   */
  lemma {:induction false} MergeFamiliesOverlay(all: Taxonomy, r: Taxonomy, families: seq<ServiceFamilyRecord>)
    requires forall i :: 0 <= i < |families| ==> families[i].Name in r && r[families[i].Name] == families[i]
    requires forall i, j :: 0 <= i < j < |families| ==> families[i].Name != families[j].Name
    ensures NamesOf(families) <= r.Keys
    ensures MergeFamilies(all, families) == OverlayOn(all, r, NamesOf(families))
  {
    if families == [] {
      assert NamesOf(families) == {};
      assert OverlayOn(all, r, {}) == all;
    } else {
      var init := families[..|families| - 1];
      var last := families[|families| - 1];
      assert forall i :: 0 <= i < |init| ==> init[i] == families[i];
      MergeFamiliesOverlay(all, r, init);
      var before := NamesOf(init);
      assert last.Name !in before by {
        forall i | 0 <= i < |init| ensures init[i].Name != last.Name {
          assert families[i].Name != families[|families| - 1].Name;
        }
      }
      NamesOfLast(families);
      var m := MergeFamilies(all, init);
      assert m == OverlayOn(all, r, before);
      MergedFamilyLocal(m, all, last);
      assert MergeFamilies(all, families) == m[last.Name := MergedFamily(all, r[last.Name])];
      OverlayOnAdd(all, r, before, last.Name);
    }
  }

  /** Merging no services leaves a family's services as they are. */
  lemma MergedServicesNone(existing: map<string, ServiceRecord>)
    ensures MergedServices(existing, map[], {}) == existing
  {
  }

  /** Storing a product after merging a service is merging the service with the product stored. */
  lemma MergedServiceAddProduct(existing: map<string, ServiceRecord>, s: ServiceRecord, p: ProductRecord)
    ensures MergedService(existing, s).AddProduct(p) == MergedService(existing, s.AddProduct(p))
  {
    var shell := if s.Id in existing then existing[s.Id] else ServiceRecord(s.Id, s.Name, map[]);
    assert (shell.Products + s.Products)[ProductKey(p) := p] == shell.Products + s.Products[ProductKey(p) := p];
  }

  /** A service the region does not have is merged from the region's new one-product service. */
  lemma MergedServiceCreated(existing: map<string, ServiceRecord>, id: string, name: string, p: ProductRecord)
    ensures var created := ServiceRecord(id, name, map[]);
      (if id in existing then existing[id] else created).AddProduct(p)
        == MergedService(existing, created.AddProduct(p))
  {
    if id in existing {
      assert existing[id].Products[ProductKey(p) := p] == existing[id].Products + map[ProductKey(p) := p];
    } else {
      assert map[ProductKey(p) := p] == map[] + map[ProductKey(p) := p];
    }
  }

  /**
   * The merged service under `id` with the row's product stored is the merge
   * of the region's service under `id` with that product stored.
   */
  lemma MergedServicesInsertAt(existing: map<string, ServiceRecord>, region: map<string, ServiceRecord>,
                               id: string, name: string, p: ProductRecord)
    requires id in region ==> region[id].Id == id
    ensures var merged := MergedServices(existing, region, region.Keys);
      var created := ServiceRecord(id, name, map[]);
      (if id in merged then merged[id] else created).AddProduct(p)
        == MergedService(existing, (if id in region then region[id] else created).AddProduct(p))
  {
    var merged := MergedServices(existing, region, region.Keys);
    if id in region {
      assert merged[id] == MergedService(existing, region[id]);
      MergedServiceAddProduct(existing, region[id], p);
    } else {
      assert id in merged <==> id in existing;
      assert id in existing ==> merged[id] == existing[id];
      MergedServiceCreated(existing, id, name, p);
    }
  }

  /** Replacing one region service replaces the one merged service under its key. */
  lemma MergedServicesUpdate(existing: map<string, ServiceRecord>, region: map<string, ServiceRecord>,
                             id: string, s: ServiceRecord)
    ensures MergedServices(existing, region, region.Keys)[id := MergedService(existing, s)]
      == MergedServices(existing, region[id := s], region[id := s].Keys)
  {
  }

  /**
   * One row's product stored in a merged service map is the same as the row's
   * product stored in the region's service first and the region merged after.
   */
  lemma MergedServicesInsert(existing: map<string, ServiceRecord>, region: map<string, ServiceRecord>,
                             id: string, name: string, p: ProductRecord)
    requires id in region ==> region[id].Id == id
    ensures var merged := MergedServices(existing, region, region.Keys);
      var created := ServiceRecord(id, name, map[]);
      var region' := region[id := (if id in region then region[id] else created).AddProduct(p)];
      merged[id := (if id in merged then merged[id] else created).AddProduct(p)]
        == MergedServices(existing, region', region'.Keys)
  {
    var merged := MergedServices(existing, region, region.Keys);
    var created := ServiceRecord(id, name, map[]);
    var grown := (if id in region then region[id] else created).AddProduct(p);
    var region' := region[id := grown];
    var lhs := merged[id := (if id in merged then merged[id] else created).AddProduct(p)];
    var rhs := MergedServices(existing, region', region'.Keys);
    MergedServicesInsertAt(existing, region, id, name, p);
    MergedServicesUpdate(existing, region, id, grown);
  }

  /** Merging one more region family, or a changed one, changes the overlay at that name only. */
  lemma OverlayUpdate(all: Taxonomy, r: Taxonomy, f: string, family: ServiceFamilyRecord)
    ensures Overlay(all, r)[f := MergedFamily(all, family)] == Overlay(all, r[f := family])
  {
  }

  /**
   * The family named `f` in `all` with region `r` merged in: the global family
   * (or a new one) with the region's services of that family merged in.
   */
  lemma OverlayAt(all: Taxonomy, r: Taxonomy, f: string)
    requires WellKeyed(r)
    ensures var base := if f in all then all[f] else ServiceFamilyRecord(f, map[]);
      var region := if f in r then r[f].Services else map[];
      (if f in Overlay(all, r) then Overlay(all, r)[f] else ServiceFamilyRecord(f, map[]))
        == base.(Services := MergedServices(base.Services, region, region.Keys))
  {
    var base := if f in all then all[f] else ServiceFamilyRecord(f, map[]);
    if f in r {
      assert r[f].Name == f;
      assert Overlay(all, r)[f] == MergedFamily(all, r[f]);
    } else {
      MergedServicesNone(base.Services);
    }
  }

  /** Inserting a row after merging a region is merging the region with the row inserted. */
  lemma InsertOverlay(all: Taxonomy, r: Taxonomy, item: PriceItem)
    requires WellKeyed(r)
    ensures InsertItem(Overlay(all, r), item) == Overlay(all, InsertItem(r, item))
  {
    var f := item.ServiceFamily;
    var r' := InsertItem(r, item);
    var t := Overlay(all, r);
    var family := InsertItem(t, item)[f];
    assert family == MergedFamily(all, r'[f]) by {
      InsertItemWellKeyed(r, item);
      var base := if f in all then all[f] else ServiceFamilyRecord(f, map[]);
      var region := if f in r then r[f].Services else map[];
      OverlayAt(all, r, f);
      MergedServicesInsert(base.Services, region, item.ServiceId, item.ServiceName, ProductOf(item));
      assert r'[f].Name == f;
    }
    assert InsertItem(t, item) == t[f := family];
    OverlayUpdate(all, r, f, r'[f]);
    assert r' == r[f := r'[f]];
  }

  /** Folding rows into `all` is merging the region those rows build on their own. */
  lemma {:induction false} FoldOverlay(all: Taxonomy, items: seq<PriceItem>)
    ensures FoldItems(all, items) == Overlay(all, FoldItems(map[], items))
  {
    if items == [] {
      assert Overlay(all, map[]) == all;
    } else {
      var init := items[..|items| - 1];
      FoldOverlay(all, init);
      FoldItemsWellKeyed(map[], init);
      InsertOverlay(all, FoldItems(map[], init), items[|items| - 1]);
    }
  }

  /**
   * Merging every family of a region, each listed once, into any global
   * taxonomy gives the same taxonomy as inserting the region's rows into it
   * one by one: same families, same service names, same products.
   */
  lemma MergeIsInsert(all: Taxonomy, items: seq<PriceItem>, families: seq<ServiceFamilyRecord>)
    requires forall i :: 0 <= i < |families| ==>
      families[i].Name in FoldItems(map[], items) && FoldItems(map[], items)[families[i].Name] == families[i]
    requires forall i, j :: 0 <= i < j < |families| ==> families[i].Name != families[j].Name
    requires forall f :: f in FoldItems(map[], items) ==> Lists(families, f)
    ensures MergeFamilies(all, families) == FoldItems(all, items)
  {
    var r := FoldItems(map[], items);
    MergeFamiliesOverlay(all, r, families);
    assert NamesOf(families) == r.Keys by {
      forall f | f in r ensures f in NamesOf(families) {
        var i :| 0 <= i < |families| && families[i].Name == f;
      }
    }
    FoldOverlay(all, items);
  }
}
