/**
 * The three-level price-catalog taxonomy built by AzureProducts/Program.cs:
 * service family -> service -> product, each level a dictionary keyed by
 * the child's identity.
 */
module Catalog {

  /** A product of a service; never changed once built. */
  datatype ProductRecord = ProductRecord(Id: string, Name: string, SkuName: string, MeterName: string)

  /** The key a service stores a product under: "{Id}/{SkuName}/{MeterName}". */
  function ProductKey(p: ProductRecord): string
  {
    p.Id + "/" + p.SkuName + "/" + p.MeterName
  }

  /** Every key of a product map is the key of the product stored under it. */
  ghost predicate ProductsKeyed(products: map<string, ProductRecord>)
  {
    forall k :: k in products ==> ProductKey(products[k]) == k
  }

  /** Every key of a service map is the Id of its service, whose products are keyed. */
  ghost predicate ServicesKeyed(services: map<string, ServiceRecord>)
  {
    forall id :: id in services ==> services[id].Id == id && ProductsKeyed(services[id].Products)
  }

  datatype ServiceRecord = ServiceRecord(Id: string, Name: string, Products: map<string, ProductRecord>)
  {
    /**
     * Stores `p` under its composite key. A product already stored under that
     * key is replaced; every other entry, the Id and the Name stay as they were.
     */
    function AddProduct(p: ProductRecord): (r: ServiceRecord)
      ensures r.Id == Id && r.Name == Name
      ensures ProductKey(p) in r.Products && r.Products[ProductKey(p)] == p
      ensures r.Products.Keys == Products.Keys + {ProductKey(p)}
      ensures forall k :: k in Products && k != ProductKey(p) ==> r.Products[k] == Products[k]
      ensures ProductsKeyed(Products) ==> ProductsKeyed(r.Products)
    {
      this.(Products := Products[ProductKey(p) := p])
    }
  }

  datatype ServiceFamilyRecord = ServiceFamilyRecord(Name: string, Services: map<string, ServiceRecord>)
  {
    /**
     * Registers `s` under its Id, replacing a service already registered with
     * that Id; every other service and the Name stay as they were.
     */
    function AddService(s: ServiceRecord): (r: ServiceFamilyRecord)
      ensures r.Name == Name
      ensures s.Id in r.Services && r.Services[s.Id] == s
      ensures r.Services.Keys == Services.Keys + {s.Id}
      ensures forall id :: id in Services && id != s.Id ==> r.Services[id] == Services[id]
      ensures ServicesKeyed(Services) && ProductsKeyed(s.Products) ==> ServicesKeyed(r.Services)
    {
      this.(Services := Services[s.Id := s])
    }
  }

  /** The dictionary from family name to family. */
  type Taxonomy = map<string, ServiceFamilyRecord>

  /** The key/identity invariant of a taxonomy, at all three levels. */
  ghost predicate WellKeyed(t: Taxonomy)
  {
    forall f :: f in t ==> t[f].Name == f && ServicesKeyed(t[f].Services)
  }

  /** The taxonomy has family `f` holding service `s` holding a product keyed `k`. */
  ghost predicate HasEntry(t: Taxonomy, f: string, s: string, k: string)
  {
    f in t && s in t[f].Services && k in t[f].Services[s].Products
  }
}
