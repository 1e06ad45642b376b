# AzureProducts catalog aggregation in Dafny

This project models the aggregation core of the AzureProducts tool. The tool
queries the retail price API for a list of regions. For each region, it
follows the page chain and folds every price row into a three-level taxonomy:
service family → service → product. It writes each region's families ordered
by name, then merges every region into one global taxonomy, which it also
writes ordered by name.

The model is split into modules:

- `Catalog` (`catalog.dfy`) holds the records and the taxonomy. It has two
  members:
  - `AddProduct` stores a product under its key `Id/SkuName/MeterName`.
  - `AddService` registers a service under its `Id`.

  It also defines the key/identity invariant `WellKeyed`.
- `Fetcher` (`fetcher.dfy`) covers the insertion of one price row
  (`InsertItem`) and its in-order fold (`FoldItems`). It also covers the page
  loop of `GetProductCategory`:
  - The server is a finite list of responses, each a status code and an
    optionally decoded page.
  - The imperative loop is proved equal to the specification `Fetched`: the
    error of the response that ends the loop, or the fold of every row of
    every page up to the first page whose next link is null or empty.
  - The loop also records the URLs it requests.
- `Merger` (`merger.dfy`) covers the three nested merge loops. A region's
  family list is merged into the global taxonomy with the same find-or-create
  rules, and every product is re-added through `AddProduct`. The loops are
  proved equal to the specification `MergeFamilies`.
- `Equivalence` (`equivalence.dfy`) proves that the merge and the row-by-row
  insertion are interchangeable. Merging a fetched region's families into any
  global taxonomy gives exactly the taxonomy that inserting the region's rows
  into it would give: the same families, service names and products.
- `Regions` (`regions.dfy`) covers the option string:
  - It is split on `,`, `;` and space, with empty entries dropped. The parse
    is pinned down exactly: the entries are the one list of non-empty,
    separator-free words that the string writes out parted by separator runs.
  - A list of more than ten is shuffled and its first ten kept. The shuffle is
    a permutation of the indices, given as a parameter.
- `Ordering` (`ordering.dfy`) covers `OrderBy(sf => sf.Name)`. It is a stable
  insertion sort under any total preorder `le` on names, standing in for the
  culture-aware default comparer.
- `Program` (`program.dfy`) covers the top-level run:
  - fetch each region in turn;
  - write its families ordered by name;
  - merge them into the global taxonomy;
  - end with the global list.

  A failed fetch ends the run at that region. The server is a function from
  the position of a fetch in the run to the responses that fetch gets, so two
  fetches of the same region are answered independently, as in the source.

Records are value datatypes. The source's in-place updates of nested
dictionaries become methods that hold the dictionaries as local `map` values
and write each updated record back under its key.

## Model

| member | source | states |
|---|---|---|
| Catalog.ServiceRecord.AddProduct | AzureProducts/Program.cs:167-171 | The product is stored under `Id/SkuName/MeterName`, replacing any product with that key. Every other key and value, the Id and the Name are unchanged, and the product map stays keyed by product key. |
| Catalog.ServiceFamilyRecord.AddService | AzureProducts/Program.cs:182-186 | The service is registered under its Id, replacing any service with that Id. Every other service and the Name are unchanged, and the map stays keyed. |
| Fetcher.InsertItemStores | AzureProducts/Program.cs:32-55 | After inserting a row, the map's families are the old ones plus the row's family. That family holds the row's service, which holds the row's product (ProductId, ProductName, SkuName, MeterName) under the row's composite key. |
| Fetcher.InsertItemFrame | AzureProducts/Program.cs:34-55 | Inserting a row changes no other family, no other service of its family, and no other product of its service. |
| Fetcher.InsertItemShells | AzureProducts/Program.cs:34-44 | Family and service shells are first-write-wins: an existing family keeps its Name, and an existing service keeps its Id and Name. A service created by the row is named after the row and holds only the row's product. |
| Fetcher.InsertItemWellKeyed | AzureProducts/Program.cs:36-43 | Insertion keeps the key/identity invariant at all three levels. |
| Fetcher.InsertItemEntries | AzureProducts/Program.cs:32-55 | The (family, service id, product key) entries after an insertion are exactly the old entries plus the row's own entry. |
| Fetcher.InsertItemIdempotent | AzureProducts/Program.cs:34-55 | Inserting the same row twice gives the same taxonomy as inserting it once. |
| Fetcher.FoldItemsAppend | AzureProducts/Program.cs:14-56 | Folding two row lists one after the other equals folding their concatenation, so the rows of successive pages fold into one map. |
| Fetcher.FoldItemsWellKeyed | AzureProducts/Program.cs:32-55 | Folding any rows keeps the key/identity invariant. |
| Fetcher.FoldItemsEntries | AzureProducts/Program.cs:32-55 | After folding rows, the entries are exactly the old entries plus one entry per row. |
| Fetcher.FoldItemsFrame | AzureProducts/Program.cs:34-38 | A family that no folded row names is left exactly as it was. |
| Fetcher.Decode | AzureProducts/Program.cs:17-31 | A response yields a page iff its status is in 200-299 and its body decodes. A status outside that range gives the HTTP failure, whatever the body. |
| Fetcher.StopIndex | AzureProducts/Program.cs:14-59 | The loop stops at the first response that fails or has a null or empty next link. Every response before it continues the chain. |
| Fetcher.FetchedAt | AzureProducts/Program.cs:14-64 | The response the loop stops at decides the outcome: its error, or the fold of all rows up to and including it. |
| Fetcher.FetchedRows | AzureProducts/Program.cs:14-59 | A successful fetch gives the in-order fold of the rows returned, those of every page it read. A failed fetch returns no rows. |
| Fetcher.RequestedUrls | AzureProducts/Program.cs:12-59 | The loop requests the region's first URL, then each page's next link in turn. |
| Fetcher.AddItem | AzureProducts/Program.cs:32-55 | One turn of the row loop, with the TryGetValue find-or-create steps, computes `InsertItem`. |
| Fetcher.AddItems | AzureProducts/Program.cs:32-56 | The row loop over one page computes the in-order fold of its rows. |
| Fetcher.GetProductCategory | AzureProducts/Program.cs:7-65 | The page loop returns exactly `Fetched(server)`. That is a failed status or undecodable body as an error with no map, or the in-order fold of every row of every page up to and including the first page without a next link. It requests exactly the URLs of `RequestedUrls`. |
| Fetcher.FetchedWellKeyed | AzureProducts/Program.cs:7-65 | Every taxonomy a region fetch returns satisfies the key/identity invariant. |
| Fetcher.DuplicateRowAcrossPages | AzureProducts/Program.cs:14-59 | The same row on two chained pages gives exactly one family, one service and one product. |
| Fetcher.FailureOnSecondPage | AzureProducts/Program.cs:17-20 | A failed status on the second page fails the whole region, whatever the first page held. |
| Merger.AddProducts | AzureProducts/Program.cs:123-126 | Re-adding every product of a region's service stores those products over the global service's products. Id and Name stay as they were. |
| Merger.MergeService | AzureProducts/Program.cs:117-126 | One turn of the service loop finds or creates the global service (named after the region's service only when created) and merges the products into it. |
| Merger.MergeServices | AzureProducts/Program.cs:115-127 | The service loop computes the specification `MergedServices` for all the region family's services. |
| Merger.MergeRegion | AzureProducts/Program.cs:107-128 | The family loop for one region computes `MergeFamilies`, the in-order merge of the region's family list. |
| Merger.MergeFamilyEntries | AzureProducts/Program.cs:107-128 | Merging a family keeps every global entry and adds exactly that family's entries under its name. |
| Merger.MergeFamiliesEntries | AzureProducts/Program.cs:107-128 | Merging a family list keeps every global entry and adds exactly the listed families' entries, in both directions. |
| Merger.MergeFamilyWellKeyed | AzureProducts/Program.cs:109-125 | Merging a keyed family keeps the global key/identity invariant. |
| Merger.MergeFamiliesWellKeyed | AzureProducts/Program.cs:107-128 | Merging a list of keyed families keeps the global key/identity invariant. |
| Merger.MergeFamilyShells | AzureProducts/Program.cs:109-126 | Other global families are untouched, and an existing family keeps its Name. An existing service keeps its Id, its Name and every product the region does not re-add. Products the region re-adds replace the global ones. |
| Merger.TwoRegionsKeepBothProducts | AzureProducts/Program.cs:107-128 | Two regions with different product keys under the same family and service id give one family and one service holding both products. |
| Merger.MergedServicesIntoNone | AzureProducts/Program.cs:115-127 | Merging keyed services into a family without services copies them exactly. |
| Merger.MergeIntoEmptyCopies | AzureProducts/Program.cs:107-128 | Merging a region's distinct families into an empty global map creates exactly the listed families, as they are in the region. |
| Merger.MergeIntoEmpty | AzureProducts/Program.cs:107-128 | Merging every family of a keyed region into an empty global map, each once, reproduces the region exactly. |
| Equivalence.MergedFamilyLocal | AzureProducts/Program.cs:107-112 | Merging a region family reads only the global family of the same name. |
| Equivalence.MergeFamiliesOverlay | AzureProducts/Program.cs:107-128 | Merging distinctly named families in list order is the same as merging each of them into the starting taxonomy on its own, so the list order does not matter. |
| Equivalence.MergedServiceAddProduct | AzureProducts/Program.cs:117-126 | Storing a product in a merged service is the same as merging the region service with that product already stored. |
| Equivalence.MergedServiceCreated | AzureProducts/Program.cs:117-126 | For a service the region does not have, storing a row's product on the global service gives the same result as merging the row's new one-product service. A missing global service is created under the row's service name in both cases. |
| Equivalence.MergedServicesInsertAt | AzureProducts/Program.cs:115-127 | Under the row's service Id, storing the row's product after the merge equals merging after storing it in the region. |
| Equivalence.MergedServicesUpdate | AzureProducts/Program.cs:115-127 | Replacing one region service changes only the merged service under its Id. |
| Equivalence.MergedServicesInsert | AzureProducts/Program.cs:115-127 | A family's merged services with a row's product stored equal the merge of the region services with that product stored first. |
| Equivalence.OverlayAt | AzureProducts/Program.cs:107-128 | After a region is merged in, a family is the global one, or a new empty one, with the region's services of that family merged in. |
| Equivalence.InsertOverlay | AzureProducts/Program.cs:32-55 | Inserting a row after merging a region equals merging the region with the row already inserted. |
| Equivalence.FoldOverlay | AzureProducts/Program.cs:32-55 | Folding rows into any taxonomy equals merging in, family by family, the region that those rows build from nothing. |
| Equivalence.MergeIsInsert | AzureProducts/Program.cs:107-128 | Merging a region's families, each listed once, into any global taxonomy gives exactly the taxonomy that inserting the region's rows one by one gives: the same families, service names and products. |
| Regions.SplitRegions | AzureProducts/Program.cs:84 | No parsed entry is empty, and no entry contains `,`, `;` or a space. |
| Regions.SplitRegionsKeepsText | AzureProducts/Program.cs:84 | The parsed entries, written one after the other, spell exactly the non-separator characters of the option string. |
| Regions.SplitJoin | AzureProducts/Program.cs:84 | Splitting non-empty, separator-free names joined by any separator gives the names back. |
| Regions.SkipSeparators | AzureProducts/Program.cs:84 | Separators met before an entry starts add no entry. |
| Regions.FlushAtSeparators | AzureProducts/Program.cs:84 | A separator ends the entry being read and emits it. |
| Regions.SplitInterleaved | AzureProducts/Program.cs:84 | Non-empty, separator-free entries, written with at least one separator between each two and any separators before the first or after the last, split back into exactly those entries. |
| Regions.Decompose | AzureProducts/Program.cs:84 | Every option string is such a list of entries parted by separator runs. |
| Regions.SplitRegionsExactly | AzureProducts/Program.cs:84 | The parsed entries are the list, and the only list, that the option string writes out parted by separator runs. |
| Regions.SplitCommaSpace | AzureProducts/Program.cs:84 | `"eastus, westus"` parses to the two regions `eastus` and `westus`. |
| Regions.DefaultBaseRegionsCount | AzureProducts/Program.cs:73-87 | The default option string parses to the twelve default regions, more than the cap of ten. |
| Regions.PickShuffle | AzureProducts/Program.cs:91 | Putting a list in shuffle order is a permutation of it. |
| Regions.CapRegions | AzureProducts/Program.cs:87-92 | A list of at most ten is kept unchanged. A longer one gives exactly ten entries, all drawn from it as a sub-multiset. |
| Ordering.InsertByName | AzureProducts/Program.cs:101 | Inserting a family into a sorted list keeps it sorted and adds exactly that family. |
| Ordering.OrderByName | AzureProducts/Program.cs:101-131 | Ordering by name gives a list sorted under the comparer that is a permutation of its input. |
| Ordering.DistinctNamesPermutation | AzureProducts/Program.cs:101 | A permutation of families with distinct names still has distinct names. |
| Ordering.SortedUnique | AzureProducts/Program.cs:101-131 | Under a comparer that never ties two different names, families with distinct names have exactly one sorted arrangement. |
| Ordering.OrderByNameCanonical | AzureProducts/Program.cs:101-131 | Under such a comparer, ordering two listings of the same distinctly named families gives the same list. |
| Program.RegionOption | AzureProducts/Program.cs:73-84 | A missing option falls back to the default list, which parses to the twelve default regions. A given option is used as is. |
| Program.RegionsToQuery | AzureProducts/Program.cs:84-92 | The regions a run queries number at most ten. None is empty or holds a separator, and each is taken from the parsed option no more often than it occurs there. |
| Program.ListFamilies | AzureProducts/Program.cs:101 | Enumerating the families of a keyed map lists every family once, as stored. |
| Program.OrderedFamilies | AzureProducts/Program.cs:101-131 | The map's families, each once, sorted by name. |
| Program.ListsEachSame | AzureProducts/Program.cs:101 | Any two enumerations of a map's families hold the same families. |
| Program.OrderedListingUnique | AzureProducts/Program.cs:101-131 | Under a comparer that never ties two names, every region file and the global list are determined by the taxonomy alone, not by the map's enumeration order. |
| Program.ListedEntries | AzureProducts/Program.cs:101-107 | A list of every family of a keyed map, each once, holds exactly the map's entries. |
| Program.FilesForAppend | AzureProducts/Program.cs:97-128 | Writing the file of fetch n after those of fetches before n keeps every file matched to its fetch. The global map of the longer file list is the previous one merged with the new file's families. |
| Program.MergeStep | AzureProducts/Program.cs:97-128 | Merging fetch n into a global map holding exactly the entries of fetches before n gives one holding exactly those of fetches up to n. |
| Program.MergeStepRows | AzureProducts/Program.cs:97-128 | Merging fetch n's families into the fold of every row of the fetches before n gives the fold of every row of the fetches up to n. |
| Program.ProcessRegion | AzureProducts/Program.cs:99-128 | One region fails iff its fetch fails, with that error. Otherwise it yields the region's families, each once and sorted by name, and the global map merged with them, still keyed. |
| Program.Run | AzureProducts/Program.cs:84-133 | Files are written for the queried regions in order. Each file holds the families its region's fetch gave, each once, sorted by name; every fetch is answered on its own, so a region listed twice may be answered differently. A failed fetch stops the run at that region with its error and no global list. Otherwise every region has a file. The global map is then exactly the merge of every file's family list, file after file: service names, product records and all. It is also exactly the taxonomy that inserting every fetched row straight into one map would build, region after region and page after page. It is keyed and holds exactly the entries some fetch gave. The global list holds each global family once, sorted by name. |

## Left out

- HTTP requests, response bodies, the console log, `Thread.Sleep` and the output files are left out. `File.WriteAllTextAsync` and `Path.Combine` are I/O. The model keeps each request's URL, each response's status and decoded page, and each file's region and family list.
- JSON decoding and encoding are left out. A response carries its page already decoded, or none when decoding fails. The `Count` field is kept, but the only line that reads it (AzureProducts/Program.cs:57) is the console log, which is left out.
- The `System.CommandLine` option parsing is left out, including the output directory option. `Run` takes the resolved option string; `RegionOption` models the `??` fallback to the default list.
- `new Random()` is left out. The shuffle is a parameter: the order in which `OrderBy(r => rnd.Next())` puts the parsed regions, required to be a permutation of their indices.
- The culture-aware string comparer is left out. Ordering works under any total preorder `le` on names, so no claim is made about ordinal order.
- `Fetcher.GetProductCategory`: a real server answers every request. The model's server is a finite list, so running out of responses ends the fetch with `ServerExhausted`. The source would keep requesting for as long as the server keeps linking.
- `client.GetAsync` throwing on a transport failure or a time-out (AzureProducts/Program.cs:16) is represented by a response with a failing status, which ends the fetch with `HttpFailure` just as the thrown exception ends the program.
- A decoded page whose `Items` is null makes the source throw a `NullReferenceException` at AzureProducts/Program.cs:32. So does a JSON `null` element inside `Items`, at `item.ServiceFamily` on AzureProducts/Program.cs:34. A row list of `PriceItem` values cannot hold either, so both are represented by a response with no decoded page, which ends the fetch with `Undecodable`.
- Exceptions are results. A failed fetch throws in the source and ends the program. The model returns the error, and `Run` returns `Aborted` with the files written so far.
- Price rows are reduced to the seven fields the aggregation reads. Prices, tiers, dates and the other descriptive fields, including the floating-point ones, are not read by the core. Null string fields in a decoded row are not modelled.
- Records are values, so aliasing is not modelled. In the source, a family or service object is shared only between its dictionary and the loop variable that updates it. The model writes each updated record back under its key, which yields the same dictionary contents. The merge creates fresh global shells, and product objects, which are shared, are never updated.
- `Regions.DefaultBaseRegions` is defined as the twelve default names joined by `,`. This is the same string as the source's constant.
- The merge is not commutative, and the model follows the code rather than that stronger claim:
  - A global service keeps the name of the first region that created it.
  - A product re-added under an existing key replaces the stored one, so the last region wins.

  `Merger.MergeFamilyShells` states both rules.
