/**
 * The top-level script of AzureProducts/Program.cs: choose the regions, fetch
 * each region's taxonomy, write it out ordered by family name, merge it into
 * the global taxonomy, and finally write the global taxonomy ordered by name.
 */
module Program {
  import opened Wrappers
  import opened Catalog
  import opened Fetcher
  import opened Merger
  import opened Regions
  import opened Ordering
  import opened Equivalence

  /** The content of one per-region output file: the region and its families. */
  datatype RegionFile = RegionFile(Region: string, Families: seq<ServiceFamilyRecord>)

  /**
   * How a run ends. A completed run has written every region file and the
   * global list; a run whose fetch fails stops at that region, having written
   * the files of the regions before it and no global list.
   */
  datatype Outcome =
    | Completed(Files: seq<RegionFile>, Global: Taxonomy, AllServices: seq<ServiceFamilyRecord>)
    | Aborted(Files: seq<RegionFile>, Region: string, Error: FetchError)

  /** The option string of a run: the given one, or the default region list. */
  function RegionOption(option: Option<string>): (text: string)
    ensures option.None? ==> SplitRegions(text) == DefaultRegionNames
    ensures option.Some? ==> text == option.value
  {
    DefaultBaseRegionsCount();
    if option.Some? then option.value else DefaultBaseRegions
  }

  /** The shuffle is a permutation of the parsed regions whenever one is needed. */
  ghost predicate ShuffleFits(text: string, order: seq<nat>)
  {
    |SplitRegions(text)| > MaxRegions ==> IsShuffle(order, |SplitRegions(text)|)
  }

  /** The regions a run queries, in order. */
  function RegionsToQuery(text: string, order: seq<nat>): (regions: seq<string>)
    requires ShuffleFits(text, order)
    ensures |regions| <= MaxRegions
    ensures forall i :: 0 <= i < |regions| ==> regions[i] != "" && NoSeparator(regions[i])
    ensures multiset(regions) <= multiset(SplitRegions(text))
  {
    var parsed := SplitRegions(text);
    var r := CapRegions(parsed, order);
    assert forall i :: 0 <= i < |r| ==> r[i] in multiset(parsed);
    r
  }

  /** `families` lists every family of `t` exactly once, as stored in `t`. */
  ghost predicate ListsEach(families: seq<ServiceFamilyRecord>, t: Taxonomy)
  {
    && (forall i :: 0 <= i < |families| ==> families[i].Name in t && t[families[i].Name] == families[i])
    && DistinctNames(families)
    && (forall f :: f in t ==> Lists(families, f))
  }

  /**
   * The responses the price API gives a run: `server(n)` lists, in request
   * order, the answers to the page requests of the run's `n`-th region fetch.
   * Two fetches of the same region name may be answered differently.
   */
  type Server = nat -> seq<Response>

  /** What a fetch answered by `pages` gave, or the empty taxonomy when it failed. */
  ghost function RegionMap(pages: seq<Response>): Taxonomy
  {
    if Fetched(pages).Ok? then Fetched(pages).value else map[]
  }

  /** One of the first `n` fetches gave family `f`, service `s`, product key `k`. */
  ghost predicate InSomeRegion(server: Server, n: nat, f: string, s: string, k: string)
  {
    exists i :: 0 <= i < n && HasEntry(RegionMap(server(i)), f, s, k)
  }

  /** `file` is the output for `region` fetched from `pages`: its families, each once, ordered by name. */
  ghost predicate FileFor(file: RegionFile, pages: seq<Response>, region: string, le: (string, string) -> bool)
  {
    && file.Region == region
    && Fetched(pages).Ok?
    && ListsEach(file.Families, Fetched(pages).value)
    && SortedByName(file.Families, le)
  }

  /** Each file is the output of the fetch at its position, for the region at its position. */
  ghost predicate FilesFor(files: seq<RegionFile>, server: Server, regions: seq<string>, le: (string, string) -> bool)
  {
    && |files| <= |regions|
    && forall i :: 0 <= i < |files| ==> FileFor(files[i], server(i), regions[i], le)
  }

  /** The global taxonomy holds exactly the entries the first `n` fetches gave. */
  ghost predicate HoldsRegions(global: Taxonomy, server: Server, n: nat)
  {
    forall f, s, k :: HasEntry(global, f, s, k) <==> InSomeRegion(server, n, f, s, k)
  }

  /**
   * The global taxonomy the merge loop builds from the written files: the
   * family list of each file merged into `all`, file after file.
   */
  ghost function MergeFiles(all: Taxonomy, files: seq<RegionFile>): Taxonomy
  {
    if files == [] then all
    else MergeFamilies(MergeFiles(all, files[..|files| - 1]), files[|files| - 1].Families)
  }

  /** Every row the first `n` fetches read, in fetch order and, within a fetch, in page order. */
  ghost function RunRows(server: Server, n: nat): seq<PriceItem>
  {
    if n == 0 then [] else RunRows(server, n - 1) + FetchedRows(server(n - 1))
  }

  /** Adding the output for the next fetch keeps the files matched to the fetches. */
  lemma FilesForAppend(files: seq<RegionFile>, file: RegionFile, server: Server,
                       regions: seq<string>, le: (string, string) -> bool)
    requires FilesFor(files, server, regions, le) && |files| < |regions|
    requires FileFor(file, server(|files|), regions[|files|], le)
    ensures FilesFor(files + [file], server, regions, le)
    ensures MergeFiles(map[], files + [file]) == MergeFamilies(MergeFiles(map[], files), file.Families)
  {
    forall i | 0 <= i < |files| + 1 ensures FileFor((files + [file])[i], server(i), regions[i], le) {
      if i < |files| { assert (files + [file])[i] == files[i]; }
    }
    assert (files + [file])[..|files|] == files;
  }

  /**
   * `servicesMap.Values`: the families of a map, each once, in an order the
   * map chooses.
   */
  method ListFamilies(t: Taxonomy) returns (families: seq<ServiceFamilyRecord>)
    requires WellKeyed(t)
    ensures ListsEach(families, t)
  {
    families := [];
    var rest := t.Keys;
    while rest != {}
      invariant rest <= t.Keys
      invariant forall i :: 0 <= i < |families| ==>
        families[i].Name in t && t[families[i].Name] == families[i] && families[i].Name !in rest
      invariant DistinctNames(families)
      invariant forall f :: f in t ==> f in rest || Lists(families, f)
      decreases rest
    {
      var f :| f in rest;
      assert t[f].Name == f;
      ghost var before := families;
      families := families + [t[f]];
      forall g | Lists(before, g) ensures Lists(families, g) {
        var i :| 0 <= i < |before| && before[i].Name == g;
        assert families[i] == before[i];
      }
      assert families[|families| - 1].Name == f;
      rest := rest - {f};
    }
  }

  /**
   * `t.Values.OrderBy(sf => sf.Name)`: the families of a map, each once,
   * ordered by name.
   */
  method OrderedFamilies(t: Taxonomy, le: (string, string) -> bool) returns (sorted: seq<ServiceFamilyRecord>)
    requires WellKeyed(t) && TotalPreorder(le)
    ensures ListsEach(sorted, t) && SortedByName(sorted, le)
  {
    var listed := ListFamilies(t);
    sorted := OrderByName(listed, le);
    DistinctNamesPermutation(listed, sorted);
    forall f | f in t ensures Lists(sorted, f) {
      var i :| 0 <= i < |listed| && listed[i].Name == f;
      assert listed[i] in multiset(sorted);
    }
    forall i | 0 <= i < |sorted| ensures sorted[i].Name in t && t[sorted[i].Name] == sorted[i] {
      assert sorted[i] in multiset(listed);
    }
  }

  /** Two lists that each list every family of a taxonomy once hold the same families. */
  lemma ListsEachSame(t: Taxonomy, a: seq<ServiceFamilyRecord>, b: seq<ServiceFamilyRecord>)
    requires ListsEach(a, t) && ListsEach(b, t)
    ensures multiset(a) == multiset(b)
  {
    forall x ensures multiset(a)[x] == multiset(b)[x] {
      OccursOnce(a, x);
      OccursOnce(b, x);
      if x in a {
        var i :| 0 <= i < |a| && a[i] == x;
        var j :| 0 <= j < |b| && b[j].Name == x.Name;
        assert b[j] == x;
      }
      if x in b {
        var j :| 0 <= j < |b| && b[j] == x;
        var i :| 0 <= i < |a| && a[i].Name == x.Name;
        assert a[i] == x;
      }
    }
  }

  /**
   * Under a comparer that never ties two different names, the families of a
   * taxonomy have one ordered listing: every region file and the global list
   * are determined by the fetched taxonomy alone, whatever order the map
   * yields its families in.
   */
  lemma OrderedListingUnique(t: Taxonomy, a: seq<ServiceFamilyRecord>, b: seq<ServiceFamilyRecord>,
                             le: (string, string) -> bool)
    requires Antisymmetric(le)
    requires ListsEach(a, t) && SortedByName(a, le)
    requires ListsEach(b, t) && SortedByName(b, le)
    ensures a == b
  {
    ListsEachSame(t, a, b);
    SortedUnique(a, b, le);
  }

  /** A family list that lists each family of a keyed taxonomy once holds exactly its entries. */
  lemma ListedEntries(t: Taxonomy, families: seq<ServiceFamilyRecord>, f: string, s: string, k: string)
    requires WellKeyed(t) && ListsEach(families, t)
    ensures SomeFamilyHas(families, f, s, k) <==> HasEntry(t, f, s, k)
  {
    if HasEntry(t, f, s, k) {
      var i :| 0 <= i < |families| && families[i].Name == f;
      assert FamilyHas(families[i], s, k);
    }
  }

  /** The families of a keyed taxonomy are keyed, so they can be merged. */
  lemma ListedKeyed(t: Taxonomy, families: seq<ServiceFamilyRecord>)
    requires WellKeyed(t) && ListsEach(families, t)
    ensures forall i :: 0 <= i < |families| ==> FamilyKeyed(families[i])
  {
    forall i | 0 <= i < |families| ensures FamilyKeyed(families[i]) {
      assert families[i] == t[families[i].Name];
    }
  }

  /**
   * Merging the families of region `n` into a global taxonomy that holds the
   * entries of the first `n` regions gives one that holds those of the first
   * `n + 1`.
   */
  lemma MergeStep(server: Server, n: nat, global: Taxonomy, families: seq<ServiceFamilyRecord>)
    requires Fetched(server(n)).Ok?
    requires ListsEach(families, Fetched(server(n)).value)
    requires HoldsRegions(global, server, n)
    ensures forall i :: 0 <= i < |families| ==> FamilyKeyed(families[i])
    ensures HoldsRegions(MergeFamilies(global, families), server, n + 1)
  {
    var t := Fetched(server(n)).value;
    FetchedWellKeyed(server(n));
    assert RegionMap(server(n)) == t;
    ListedKeyed(t, families);
    forall f, s, k
      ensures HasEntry(MergeFamilies(global, families), f, s, k) <==> InSomeRegion(server, n + 1, f, s, k)
    {
      MergeFamiliesEntries(global, families, f, s, k);
      ListedEntries(t, families, f, s, k);
      if InSomeRegion(server, n + 1, f, s, k) {
        var i :| 0 <= i < n + 1 && HasEntry(RegionMap(server(i)), f, s, k);
        if i < n {
          assert InSomeRegion(server, n, f, s, k);
        }
      }
      if InSomeRegion(server, n, f, s, k) {
        var i :| 0 <= i < n && HasEntry(RegionMap(server(i)), f, s, k);
        assert InSomeRegion(server, n + 1, f, s, k);
      }
    }
  }

  /**
   * Merging the families fetch `n` gave into the fold of every row of the
   * fetches before it is folding the rows of fetch `n` in as well.
   */
  lemma MergeStepRows(server: Server, n: nat, global: Taxonomy, families: seq<ServiceFamilyRecord>)
    requires global == FoldItems(map[], RunRows(server, n))
    requires Fetched(server(n)).Ok?
    requires ListsEach(families, Fetched(server(n)).value)
    ensures MergeFamilies(global, families) == FoldItems(map[], RunRows(server, n + 1))
  {
    MergeIsInsert(global, FetchedRows(server(n)), families);
    FoldItemsAppend(map[], RunRows(server, n), FetchedRows(server(n)));
  }

  /**
   * The body of the loop over the regions: fetch the region from the responses
   * `pages`, order its families by name, and merge them into the global
   * taxonomy. A failed fetch gives its error and nothing else.
   */
  method ProcessRegion(region: string, pages: seq<Response>, allServicesMap: Taxonomy, le: (string, string) -> bool)
    returns (step: Result<(seq<ServiceFamilyRecord>, Taxonomy), FetchError>)
    requires WellKeyed(allServicesMap) && TotalPreorder(le)
    ensures step.Err? <==> Fetched(pages).Err?
    ensures step.Err? ==> Fetched(pages) == Err(step.error)
    ensures step.Ok? ==>
      && ListsEach(step.value.0, Fetched(pages).value)
      && SortedByName(step.value.0, le)
      && step.value.1 == MergeFamilies(allServicesMap, step.value.0)
      && WellKeyed(step.value.1)
  {
    var fetched, _ := GetProductCategory(region, pages);
    if fetched.Err? {
      return Err(fetched.error);
    }
    var servicesMap := fetched.value;
    FetchedWellKeyed(pages);
    var servicesList := OrderedFamilies(servicesMap, le);
    ListedKeyed(servicesMap, servicesList);
    MergeFamiliesWellKeyed(allServicesMap, servicesList);
    var merged := MergeRegion(allServicesMap, servicesList);
    return Ok((servicesList, merged));
  }

  /**
   * One run of the program. `option` is the value of the regions option,
   * `order` the order the random shuffle puts the parsed regions in, `server`
   * the responses the price API gives each fetch, and `le` the comparer
   * families are ordered by. The regions are queried in turn; the first failed
   * fetch ends the run.
   */
  method Run(text: string, order: seq<nat>, server: Server, le: (string, string) -> bool)
    returns (outcome: Outcome)
    requires ShuffleFits(text, order) && TotalPreorder(le)
    ensures var regions := RegionsToQuery(text, order);
      && FilesFor(outcome.Files, server, regions, le)
      && (outcome.Aborted? ==>
            && |outcome.Files| < |regions|
            && outcome.Region == regions[|outcome.Files|]
            && Fetched(server(|outcome.Files|)) == Err(outcome.Error))
      && (outcome.Completed? ==>
            && |outcome.Files| == |regions|
            && outcome.Global == MergeFiles(map[], outcome.Files)
            && outcome.Global == FoldItems(map[], RunRows(server, |regions|))
            && WellKeyed(outcome.Global)
            && HoldsRegions(outcome.Global, server, |regions|)
            && ListsEach(outcome.AllServices, outcome.Global)
            && SortedByName(outcome.AllServices, le))
  {
    var baseRegions := SplitRegions(text);
    baseRegions := CapRegions(baseRegions, order);
    var allServicesMap: Taxonomy := map[];
    var files: seq<RegionFile> := [];
    var n := 0;
    while n < |baseRegions|
      invariant n <= |baseRegions| && |files| == n
      invariant FilesFor(files, server, baseRegions, le)
      invariant allServicesMap == MergeFiles(map[], files)
      invariant allServicesMap == FoldItems(map[], RunRows(server, n))
      invariant WellKeyed(allServicesMap)
      invariant HoldsRegions(allServicesMap, server, n)
    {
      var region := baseRegions[n];
      var step := ProcessRegion(region, server(n), allServicesMap, le);
      if step.Err? {
        return Aborted(files, region, step.error);
      }
      var (servicesList, merged) := step.value;
      FilesForAppend(files, RegionFile(region, servicesList), server, baseRegions, le);
      files := files + [RegionFile(region, servicesList)];
      MergeStep(server, n, allServicesMap, servicesList);
      MergeStepRows(server, n, allServicesMap, servicesList);
      allServicesMap := merged;
      n := n + 1;
    }
    var allServicesList := OrderedFamilies(allServicesMap, le);
    outcome := Completed(files, allServicesMap, allServicesList);
  }
}
