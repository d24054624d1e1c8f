/** The tree database of includepathestimator/modules/estimateincludepaths.py
    (`record_root`, `record_sources`, `record_includes`,
    `record_include_paths`, `record_include_types`, 491-551): one root folder,
    its source files in insertion order, each source's includes, and for
    each include the header database of `include_paths_for_include` and the
    include's labels. The includes of each file and the directory listing
    are inputs: reading files is not modelled. */
module TreeDatabase {
  import opened Common
  import opened StringOrder
  import opened PathTokens
  import opened PathResolver
  import opened IncludeClassifier
  import opened Aggregator
  import ResolverFacts

  /** `database[root]["source_files"][source]["includes"][include]`: the
      placeholder `0` until paths are recorded, then `mapped_headers` with
      the `include_type` labels (none yet is the same as no key). */
  datatype IncludeEntry = Pending | Resolved(mapped: HeaderRecords, includeType: seq<IncludeLabel>)

  /** One source's includes, keys in insertion order. */
  datatype SourceEntry = SourceEntry(includeOrder: seq<string>, includes: map<string, IncludeEntry>)

  /** The ordered key list names exactly the keys of the table. */
  ghost predicate KeysListed(e: SourceEntry) {
    forall i :: i in e.includeOrder <==> i in e.includes
  }

  /** A source's include table: the key order has each key once, and every
      resolved include's header database is well formed. */
  ghost predicate EntryValid(e: SourceEntry) {
    Distinct(e.includeOrder) && KeysListed(e) &&
    forall i :: i in e.includes && e.includes[i].Resolved? ==> OrderAgrees(e.includes[i].mapped)
  }

  /** `dict.fromkeys(keys, 0)`: the given keys in order, every value the
      placeholder. */
  function Table(keys: seq<string>): (e: SourceEntry)
    ensures KeysListed(e) && e.includeOrder == keys
  {
    SourceEntry(keys, map i | i in keys :: Pending)
  }

  /** `dict.fromkeys(sorted(includes_from_file(source)), 0)` */
  function IncludeTable(found: seq<string>): (e: SourceEntry)
    ensures EntryValid(e)
  {
    Table(SortedDistinct(found))
  }

  /** The include table of a source lists every include the file holds,
      each once, in ascending order, none of them resolved yet. */
  lemma IncludeTableFacts(found: seq<string>)
    ensures var e := IncludeTable(found);
            StrictlySorted(e.includeOrder) &&
            (forall i :: i in e.includeOrder <==> i in found) &&
            forall i :: i in e.includes ==> e.includes[i] == Pending
  {
  }

  /** The header entries of the given headers, in that order. */
  function HeaderEntries(mapped: HeaderRecords, hs: seq<string>): (r: seq<Record>)
    requires forall h :: h in hs ==> h in mapped.records
    ensures forall x :: x in r ==> exists h :: h in hs && x == mapped.records[h]
    ensures forall h :: h in hs ==> mapped.records[h] in r
  {
    if hs == [] then []
    else
      assert hs == hs[..|hs| - 1] + [hs[|hs| - 1]];
      HeaderEntries(mapped, hs[..|hs| - 1]) + [mapped.records[hs[|hs| - 1]]]
  }

  /** The header entries of the given includes of a source, in order. */
  function IncludeEntries(e: SourceEntry, incs: seq<string>): (r: seq<Record>)
    requires EntryValid(e)
    requires forall i :: i in incs ==> i in e.includes && e.includes[i].Resolved?
    ensures forall x :: x in r ==> exists i, h :: i in incs && h in e.includes[i].mapped.records &&
                                              x == e.includes[i].mapped.records[h]
    ensures forall i, h :: i in incs && h in e.includes[i].mapped.records ==> e.includes[i].mapped.records[h] in r
  {
    if incs == [] then []
    else
      assert incs == incs[..|incs| - 1] + [incs[|incs| - 1]];
      var inc := incs[|incs| - 1];
      var m := e.includes[inc].mapped;
      IncludeEntries(e, incs[..|incs| - 1]) + HeaderEntries(m, m.order)
  }

  /** Every include of every source has been resolved. */
  ghost predicate AllResolved(sources: map<string, SourceEntry>) {
    forall s, i :: s in sources && i in sources[s].includes ==> sources[s].includes[i].Resolved?
  }

  /** The header entries `paths_report` visits: sources, then includes, then
      headers, each in insertion order. */
  function AllEntries(order: seq<string>, sources: map<string, SourceEntry>): (r: seq<Record>)
    requires forall s :: s in order ==> s in sources && EntryValid(sources[s])
    requires AllResolved(sources)
    ensures forall x :: x in r ==> exists s, i, h :: s in order && i in sources[s].includes &&
                                                  h in sources[s].includes[i].mapped.records &&
                                                  x == sources[s].includes[i].mapped.records[h]
    ensures forall s, i, h :: s in order && i in sources[s].includes && h in sources[s].includes[i].mapped.records ==>
                                sources[s].includes[i].mapped.records[h] in r
  {
    if order == [] then []
    else
      assert order == order[..|order| - 1] + [order[|order| - 1]];
      var s := order[|order| - 1];
      AllEntries(order[..|order| - 1], sources) + IncludeEntries(sources[s], sources[s].includeOrder)
  }

  /** Every source of `keys`, and nothing else, with an empty entry. */
  ghost predicate FreshSources(table: map<string, SourceEntry>, keys: seq<string>) {
    (forall s :: s in table <==> s in keys) &&
    forall s :: s in table ==> table[s] == SourceEntry([], map[])
  }

  /** `after` has the same include keys, in the same order, as `before`. */
  ghost predicate SameIncludes(before: SourceEntry, after: SourceEntry) {
    after.includeOrder == before.includeOrder && after.includes.Keys == before.includes.Keys
  }

  /** A loop that rewrites a dictionary key by key: `cur` is `orig` with the
      keys in `done` already set to their value in `target`. */
  ghost predicate UpdatedSoFar<K(!new), V>(orig: map<K, V>, cur: map<K, V>, target: map<K, V>, done: seq<K>) {
    cur.Keys == orig.Keys && target.Keys == orig.Keys &&
    (forall k :: k in cur && k !in done ==> cur[k] == orig[k]) &&
    (forall k :: k in cur && k in done ==> cur[k] == target[k])
  }

  lemma UpdatedStep<K(!new), V>(orig: map<K, V>, cur: map<K, V>, target: map<K, V>, done: seq<K>, k: K,
                                 next: map<K, V>, nextDone: seq<K>)
    requires UpdatedSoFar(orig, cur, target, done) && k in orig
    requires next == cur[k := target[k]] && nextDone == done + [k]
    ensures UpdatedSoFar(orig, next, target, nextDone)
  {
  }

  lemma UpdatedAll<K(!new), V>(orig: map<K, V>, cur: map<K, V>, target: map<K, V>, done: seq<K>)
    requires UpdatedSoFar(orig, cur, target, done)
    requires forall k :: k in orig ==> k in done
    ensures cur == target
  {
  }

  /** What `record_include_paths` makes of one source's entry: every include
      holds the header database resolved for it and no labels. */
  ghost function ResolvedEntry(source: string, entry: SourceEntry, headers: seq<string>,
                               listing: map<string, seq<string>>): (e: SourceEntry)
    requires forall i :: i in entry.includes ==> ListingCovers(i, headers, listing)
    ensures SameIncludes(entry, e)
  {
    SourceEntry(entry.includeOrder, map i | i in entry.includes :: Resolved(Resolve(source, i, headers, listing), []))
  }

  /** After `record_include_paths` an entry is still well formed, every
      include is resolved, has no labels yet, and maps exactly the headers
      whose tail matches it. */
  lemma ResolvedEntryFacts(source: string, entry: SourceEntry, headers: seq<string>,
                           listing: map<string, seq<string>>)
    requires forall i :: i in entry.includes ==> ListingCovers(i, headers, listing)
    ensures var e := ResolvedEntry(source, entry, headers, listing);
            (EntryValid(entry) ==> EntryValid(e)) &&
            forall i :: i in e.includes ==>
              e.includes[i].Resolved? && e.includes[i].includeType == [] &&
              (forall h :: h in e.includes[i].mapped.records <==> h in headers && TailMatches(h, i))
  {
    var e := ResolvedEntry(source, entry, headers, listing);
    forall i | i in e.includes
      ensures e.includes[i] == Resolved(Resolve(source, i, headers, listing), [])
      ensures OrderAgrees(e.includes[i].mapped)
    {
      ResolveOrderAgrees(source, i, headers, listing);
    }
  }

  /** What `record_include_types` makes of one source's entry, with the
      allow-list `systemList`: every include keeps its header database and
      has its labels extended by `IncludeLabels`. */
  ghost function LabelledEntry(entry: SourceEntry, systemList: seq<string>, internalList: seq<string>): (e: SourceEntry)
    requires forall i :: i in entry.includes ==> entry.includes[i].Resolved?
    ensures SameIncludes(entry, e)
  {
    SourceEntry(entry.includeOrder,
                map i | i in entry.includes ::
                  Resolved(entry.includes[i].mapped, IncludeLabels(entry.includes[i].includeType, i, systemList, internalList)))
  }

  /** Labelling keeps an entry well formed and every header database; each
      label is added exactly when `record_include_types` adds it, and a
      label list without repeats stays without repeats. */
  lemma LabelledEntryFacts(entry: SourceEntry, systemList: seq<string>, internalList: seq<string>)
    requires forall i :: i in entry.includes ==> entry.includes[i].Resolved?
    ensures var e := LabelledEntry(entry, systemList, internalList);
            (EntryValid(entry) ==> EntryValid(e)) &&
            forall i :: i in e.includes ==>
              var before, after := entry.includes[i].includeType, e.includes[i].includeType;
              e.includes[i].Resolved? && e.includes[i].mapped == entry.includes[i].mapped &&
              (Distinct(before) ==> Distinct(after)) &&
              (System in after <==> System in before || i in systemList) &&
              (Internal in after <==> Internal in before || i in internalList) &&
              (External in after <==> External in before || i !in internalList)
  {
  }

  /** One turn of the loop below: the entry `include_paths_for_include`
      gives the include `inc` of `entry`. */
  method ResolveOne(source: string, entry: SourceEntry, inc: string, headers: seq<string>,
                    listing: map<string, seq<string>>) returns (x: IncludeEntry)
    requires inc in entry.includes
    requires forall i :: i in entry.includes ==> ListingCovers(i, headers, listing)
    ensures inc in ResolvedEntry(source, entry, headers, listing).includes
    ensures x == ResolvedEntry(source, entry, headers, listing).includes[inc]
  {
    var paths := IncludePathsForInclude(source, inc, headers, listing);
    x := Resolved(paths, []);
  }

  /** The inner loop of `record_include_paths` for one source: each include
      gets the result of `include_paths_for_include`. */
  method ResolveIncludes(source: string, entry: SourceEntry, headers: seq<string>,
                         listing: map<string, seq<string>>) returns (e: SourceEntry)
    requires KeysListed(entry)
    requires forall i :: i in entry.includes ==> ListingCovers(i, headers, listing)
    ensures e == ResolvedEntry(source, entry, headers, listing)
  {
    ghost var target := ResolvedEntry(source, entry, headers, listing).includes;
    var includes := entry.includes;
    for j := 0 to |entry.includeOrder|
      invariant UpdatedSoFar(entry.includes, includes, target, entry.includeOrder[..j])
    {
      var inc := entry.includeOrder[j];
      TakeStep(entry.includeOrder, j);
      var resolved := ResolveOne(source, entry, inc, headers, listing);
      ghost var previous := includes;
      includes := includes[inc := resolved];
      UpdatedStep(entry.includes, previous, target, entry.includeOrder[..j], inc,
                  includes, entry.includeOrder[..j + 1]);
    }
    assert entry.includeOrder[..|entry.includeOrder|] == entry.includeOrder;
    UpdatedAll(entry.includes, includes, target, entry.includeOrder);
    e := SourceEntry(entry.includeOrder, includes);
  }

  /** One turn of the loop below: the labels `record_include_types` gives
      the include `inc`, whose entry is still `current`. */
  method LabelOne(entry: SourceEntry, inc: string, current: IncludeEntry, systemList: seq<string>,
                  internalList: seq<string>) returns (x: IncludeEntry)
    requires forall i :: i in entry.includes ==> entry.includes[i].Resolved?
    requires inc in entry.includes && current == entry.includes[inc]
    ensures inc in LabelledEntry(entry, systemList, internalList).includes
    ensures x == LabelledEntry(entry, systemList, internalList).includes[inc]
  {
    x := Resolved(current.mapped, IncludeLabels(current.includeType, inc, systemList, internalList));
  }

  /** The inner loop of `record_include_types` for one source, with the
      allow-list `systemList`. */
  method LabelIncludes(entry: SourceEntry, systemList: seq<string>, internalList: seq<string>)
    returns (e: SourceEntry)
    requires EntryValid(entry)
    requires forall i :: i in entry.includes ==> entry.includes[i].Resolved?
    ensures e == LabelledEntry(entry, systemList, internalList)
  {
    ghost var target := LabelledEntry(entry, systemList, internalList).includes;
    var includes := entry.includes;
    for j := 0 to |entry.includeOrder|
      invariant UpdatedSoFar(entry.includes, includes, target, entry.includeOrder[..j])
    {
      var inc := entry.includeOrder[j];
      NotYetDone(entry.includeOrder, j);
      TakeStep(entry.includeOrder, j);
      var labelled := LabelOne(entry, inc, includes[inc], systemList, internalList);
      ghost var previous := includes;
      includes := includes[inc := labelled];
      UpdatedStep(entry.includes, previous, target, entry.includeOrder[..j], inc,
                  includes, entry.includeOrder[..j + 1]);
    }
    assert entry.includeOrder[..|entry.includeOrder|] == entry.includeOrder;
    UpdatedAll(entry.includes, includes, target, entry.includeOrder);
    e := SourceEntry(entry.includeOrder, includes);
  }

  /** `order` lists exactly the sources of `table`. */
  ghost predicate SourcesListed(order: seq<string>, table: map<string, SourceEntry>) {
    forall s :: s in order <==> s in table
  }

  /** The loop of `record_includes`, where `keys[s]` holds the sorted
      includes of source `s`. */
  method IncludeTables(order: seq<string>, before: map<string, SourceEntry>,
                       keys: map<string, seq<string>>) returns (table: map<string, SourceEntry>)
    requires SourcesListed(order, before)
    requires forall s :: s in before ==> s in keys
    ensures table == map s | s in before :: Table(keys[s])
  {
    ghost var target := map s | s in before :: Table(keys[s]);
    table := before;
    for k := 0 to |order|
      invariant UpdatedSoFar(before, table, target, order[..k])
    {
      var source := order[k];
      TakeStep(order, k);
      ghost var previous := table;
      table := table[source := Table(keys[source])];
      UpdatedStep(before, previous, target, order[..k], source, table, order[..k + 1]);
    }
    assert order[..|order|] == order;
    UpdatedAll(before, table, target, order);
  }

  /** Building the tables from the sorted keys is `IncludeTable` on every source. */
  lemma IncludeTablesAgree(before: map<string, SourceEntry>, fileIncludes: map<string, seq<string>>,
                           keys: map<string, seq<string>>, table: map<string, SourceEntry>)
    requires forall s :: s in before ==> s in fileIncludes
    requires keys == map s | s in before :: SortedDistinct(fileIncludes[s])
    requires table == map s | s in before :: Table(keys[s])
    ensures table == map s | s in before :: IncludeTable(fileIncludes[s])
    ensures forall s :: s in table ==> EntryValid(table[s])
  {
    forall s | s in table
      ensures table[s] == IncludeTable(fileIncludes[s])
    {
      assert keys[s] == SortedDistinct(fileIncludes[s]);
    }
    IncludeTablesValid(before, fileIncludes, table);
  }

  /** Every table built by `IncludeTable` is well formed. */
  lemma IncludeTablesValid(before: map<string, SourceEntry>, fileIncludes: map<string, seq<string>>,
                           table: map<string, SourceEntry>)
    requires forall s :: s in before ==> s in fileIncludes
    requires forall s :: s in table <==> s in before
    requires forall s :: s in table ==> table[s] == IncludeTable(fileIncludes[s])
    ensures forall s :: s in table ==> EntryValid(table[s])
  {
    forall s | s in table
      ensures EntryValid(table[s])
    {
      var e := IncludeTable(fileIncludes[s]);
    }
  }

  /** The outer loop of `record_include_paths`. */
  method ResolveSources(order: seq<string>, before: map<string, SourceEntry>, headers: seq<string>,
                        listing: map<string, seq<string>>) returns (table: map<string, SourceEntry>)
    requires SourcesListed(order, before)
    requires forall s :: s in before ==> KeysListed(before[s])
    requires forall s, i :: s in before && i in before[s].includes ==> ListingCovers(i, headers, listing)
    ensures table == map s | s in before :: ResolvedEntry(s, before[s], headers, listing)
  {
    ghost var target := map s | s in before :: ResolvedEntry(s, before[s], headers, listing);
    table := before;
    for k := 0 to |order|
      invariant UpdatedSoFar(before, table, target, order[..k])
    {
      var source := order[k];
      TakeStep(order, k);
      var e := ResolveIncludes(source, before[source], headers, listing);
      ghost var previous := table;
      table := table[source := e];
      UpdatedStep(before, previous, target, order[..k], source, table, order[..k + 1]);
    }
    assert order[..|order|] == order;
    UpdatedAll(before, table, target, order);
  }

  /** The outer loop of `record_include_types`, with the allow-list `systemList`. */
  method LabelSources(order: seq<string>, before: map<string, SourceEntry>, systemList: seq<string>,
                      internalList: seq<string>) returns (table: map<string, SourceEntry>)
    requires SourcesListed(order, before)
    requires forall s :: s in before ==> EntryValid(before[s])
    requires AllResolved(before)
    ensures table == map s | s in before :: LabelledEntry(before[s], systemList, internalList)
  {
    ghost var target := map s | s in before :: LabelledEntry(before[s], systemList, internalList);
    table := before;
    for k := 0 to |order|
      invariant UpdatedSoFar(before, table, target, order[..k])
    {
      var source := order[k];
      TakeStep(order, k);
      var e := LabelIncludes(before[source], systemList, internalList);
      ghost var previous := table;
      table := table[source := e];
      UpdatedStep(before, previous, target, order[..k], source, table, order[..k + 1]);
    }
    assert order[..|order|] == order;
    UpdatedAll(before, table, target, order);
  }

  /** The header database `include_paths_for_include` computes for an
      include, when the listing covers its candidates. */
  ghost function ResolvedPaths(source: string, inc: string, headers: seq<string>,
                               listing: map<string, seq<string>>): Option<HeaderRecords>
  {
    if ListingCovers(inc, headers, listing) then Some(Resolve(source, inc, headers, listing)) else None
  }

  /** Every include of every source holds exactly the header database
      `include_paths_for_include` computes for it. */
  ghost predicate PathsFrom(sources: map<string, SourceEntry>, headers: seq<string>,
                            listing: map<string, seq<string>>)
  {
    forall s, i :: s in sources && i in sources[s].includes ==>
      sources[s].includes[i].Resolved? &&
      ResolvedPaths(s, i, headers, listing) == Some(sources[s].includes[i].mapped)
  }

  /** The tables `record_include_paths` leaves satisfy `PathsFrom`. */
  lemma ResolvedPathsFrom(before: map<string, SourceEntry>, headers: seq<string>,
                          listing: map<string, seq<string>>)
    requires forall s, i :: s in before && i in before[s].includes ==> ListingCovers(i, headers, listing)
    ensures PathsFrom(map s | s in before :: ResolvedEntry(s, before[s], headers, listing), headers, listing)
  {
    var table := map s | s in before :: ResolvedEntry(s, before[s], headers, listing);
    forall s, i | s in table && i in table[s].includes
      ensures table[s].includes[i].Resolved? &&
              ResolvedPaths(s, i, headers, listing) == Some(table[s].includes[i].mapped)
    {
      assert i in before[s].includes;
    }
  }

  /** An update that keeps every source, every include and every header
      database keeps `PathsFrom`. */
  lemma PathsFromKept(before: map<string, SourceEntry>, after: map<string, SourceEntry>,
                      headers: seq<string>, listing: map<string, seq<string>>)
    requires PathsFrom(before, headers, listing)
    requires after.Keys == before.Keys
    requires forall s :: s in after ==> after[s].includes.Keys == before[s].includes.Keys
    requires forall s, i :: s in after && i in after[s].includes ==>
               after[s].includes[i].Resolved? && before[s].includes[i].Resolved? &&
               after[s].includes[i].mapped == before[s].includes[i].mapped
    ensures PathsFrom(after, headers, listing)
  {
    forall s, i | s in after && i in after[s].includes
      ensures after[s].includes[i].Resolved? &&
              ResolvedPaths(s, i, headers, listing) == Some(after[s].includes[i].mapped)
    {
      assert s in before && i in before[s].includes;
    }
  }

  /** `record_include_types` keeps every header database. */
  lemma LabelledPathsFrom(before: map<string, SourceEntry>, systemList: seq<string>, internalList: seq<string>,
                          headers: seq<string>, listing: map<string, seq<string>>)
    requires AllResolved(before)
    requires PathsFrom(before, headers, listing)
    ensures PathsFrom(map s | s in before :: LabelledEntry(before[s], systemList, internalList), headers, listing)
  {
    var table := map s | s in before :: LabelledEntry(before[s], systemList, internalList);
    forall s | s in table
      ensures table[s].includes.Keys == before[s].includes.Keys
      ensures forall i :: i in table[s].includes ==>
                table[s].includes[i].Resolved? && table[s].includes[i].mapped == before[s].includes[i].mapped
    {
      LabelledEntryFacts(before[s], systemList, internalList);
    }
    PathsFromKept(before, table, headers, listing);
  }

  /** With a header list free of repeats, every record of a computed header
      database can be read by `paths_report`. */
  lemma ReadableRecords(source: string, inc: string, headers: seq<string>,
                        listing: map<string, seq<string>>, mapped: HeaderRecords)
    requires Distinct(headers)
    requires ResolvedPaths(source, inc, headers, listing) == Some(mapped)
    ensures forall h :: h in mapped.records ==> Readable(mapped.records[h])
  {
    ResolverFacts.DistinctHeadersWellFormed(source, inc, headers, listing);
    SingleTaggedReadable(mapped);
  }

  lemma SingleTaggedReadable(mapped: HeaderRecords)
    requires ResolverFacts.SingleTagged(mapped)
    ensures forall h :: h in mapped.records ==> Readable(mapped.records[h])
  {
  }

  /** With a header list free of repeats, every header entry `paths_report`
      visits has exactly one tag and holds `None` only when tagged
      `non_existing`, so reading its first tag never fails. */
  lemma EntriesReadable(order: seq<string>, sources: map<string, SourceEntry>, headers: seq<string>,
                        listing: map<string, seq<string>>)
    requires Distinct(headers)
    requires forall s :: s in order ==> s in sources && EntryValid(sources[s])
    requires AllResolved(sources)
    requires PathsFrom(sources, headers, listing)
    ensures forall x :: x in AllEntries(order, sources) ==> Readable(x)
  {
    forall x | x in AllEntries(order, sources)
      ensures Readable(x)
    {
      var s, i, h :| s in order && i in sources[s].includes && h in sources[s].includes[i].mapped.records &&
                     x == sources[s].includes[i].mapped.records[h];
      ReadableRecords(s, i, headers, listing, sources[s].includes[i].mapped);
    }
  }

  /** Every entry `paths_report` visits can be read, position by position. */
  lemma ReportableEntries(order: seq<string>, sources: map<string, SourceEntry>, headers: seq<string>,
                          listing: map<string, seq<string>>)
    requires Distinct(headers)
    requires forall s :: s in order ==> s in sources && EntryValid(sources[s])
    requires AllResolved(sources)
    requires PathsFrom(sources, headers, listing)
    ensures var entries := AllEntries(order, sources);
            forall k :: 0 <= k < |entries| ==> Readable(entries[k])
  {
    var entries := AllEntries(order, sources);
    EntriesReadable(order, sources, headers, listing);
    forall k | 0 <= k < |entries| ensures Readable(entries[k]) {
      assert entries[k] in entries;
    }
  }

  /** A path is reported iff some entry contributes it. */
  lemma ReportedPaths(records: seq<Record>)
    requires forall i :: 0 <= i < |records| ==> Readable(records[i])
    ensures forall p :: p in Tags(records) <==> exists k :: 0 <= k < |records| && Contributes(records[k], p)
  {
    forall p ensures p in Tags(records) <==> exists k :: 0 <= k < |records| && Contributes(records[k], p) {
      TagsKeys(records, p);
    }
  }

  class Database {
    var root: string
    var sourceOrder: seq<string>
    var sources: map<string, SourceEntry>

    ghost predicate Valid()
      reads this
    {
      Distinct(sourceOrder) && (forall s :: s in sourceOrder <==> s in sources) &&
      forall s :: s in sources ==> EntryValid(sources[s])
    }

    /** `record_root`: a database holding only the root folder. */
    constructor (root: string)
      ensures this.root == root && sourceOrder == [] && sources == map[]
      ensures Valid()
    {
      this.root := root;
      sourceOrder := [];
      sources := map[];
    }

    /** `record_sources`: the source table is replaced by the given sources,
        each once, in first-occurrence order, with no includes. The source
        creates the table only for a non-empty list and fails later
        otherwise. */
    method RecordSources(sourceList: seq<string>)
      requires sourceList != []
      modifies this
      ensures root == old(root)
      ensures sourceOrder == Dedup(sourceList)
      ensures FreshSources(sources, sourceList)
      ensures Valid()
    {
      var order: seq<string> := [];
      var table: map<string, SourceEntry> := map[];
      for i := 0 to |sourceList|
        invariant order == Dedup(sourceList[..i])
        invariant FreshSources(table, sourceList[..i])
      {
        assert sourceList[..i + 1][..i] == sourceList[..i];
        var source := sourceList[i];
        table := table[source := SourceEntry([], map[])];
        order := AppendNew(order, source);
      }
      assert sourceList[..|sourceList|] == sourceList;
      sourceOrder := order;
      sources := table;
    }

    /** `record_includes`, where `fileIncludes[s]` is what `includes_from_file`
        gives for source `s`: every source's include table is rebuilt. */
    method RecordIncludes(fileIncludes: map<string, seq<string>>)
      requires Valid()
      requires forall s :: s in sources ==> s in fileIncludes
      modifies this
      ensures Valid()
      ensures root == old(root) && sourceOrder == old(sourceOrder)
      ensures sources == map s | s in old(sources) :: IncludeTable(fileIncludes[s])
    {
      var keys := map s | s in sources :: SortedDistinct(fileIncludes[s]);
      assert SourcesListed(sourceOrder, sources);
      var table := IncludeTables(sourceOrder, sources, keys);
      IncludeTablesAgree(sources, fileIncludes, keys, table);
      assert table.Keys == sources.Keys;
      sources := table;
    }

    /** `record_include_paths`: every include of every source gets the
        header database `include_paths_for_include` computes for it. */
    method RecordIncludePaths(headers: seq<string>, listing: map<string, seq<string>>)
      requires Valid()
      requires forall s, i :: s in sources && i in sources[s].includes ==> ListingCovers(i, headers, listing)
      modifies this
      ensures Valid() && AllResolved(sources)
      ensures root == old(root) && sourceOrder == old(sourceOrder)
      ensures sources == map s | s in old(sources) :: ResolvedEntry(s, old(sources)[s], headers, listing)
    {
      var table := ResolveSources(sourceOrder, sources, headers, listing);
      forall s | s in table
        ensures EntryValid(table[s]) && forall i :: i in table[s].includes ==> table[s].includes[i].Resolved?
      {
        ResolvedEntryFacts(s, old(sources)[s], headers, listing);
      }
      sources := table;
    }

    /** `record_include_types`: every include gains `system` when its text is
        on the allow-list, then `internal` or `external`, each label once. */
    method RecordIncludeTypes(internalList: seq<string>)
      requires Valid() && AllResolved(sources)
      modifies this
      ensures Valid() && AllResolved(sources)
      ensures root == old(root) && sourceOrder == old(sourceOrder)
      ensures sources == map s | s in old(sources) :: LabelledEntry(old(sources)[s], KnownSystemIncludes, internalList)
    {
      var table := LabelSources(sourceOrder, sources, KnownSystemIncludes, internalList);
      forall s | s in table
        ensures EntryValid(table[s]) && forall i :: i in table[s].includes ==> table[s].includes[i].Resolved?
      {
        LabelledEntryFacts(old(sources)[s], KnownSystemIncludes, internalList);
      }
      sources := table;
    }

    /** The header entries of the whole database in `paths_report` order. */
    function Entries(): (r: seq<Record>)
      reads this
      requires Valid() && AllResolved(sources)
      ensures forall x :: x in r ==> exists s, i, h :: s in sources && i in sources[s].includes &&
                                                    h in sources[s].includes[i].mapped.records &&
                                                    x == sources[s].includes[i].mapped.records[h]
    ensures forall s, i, h :: s in sources && i in sources[s].includes && h in sources[s].includes[i].mapped.records ==>
                                sources[s].includes[i].mapped.records[h] in r
    {
      AllEntries(sourceOrder, sources)
    }

    /** `paths_report` on this database. It reads `path_types[0]` of every
        header entry, so every entry must be readable; `ReportableEntries`
        shows that a database resolved against a duplicate-free header list
        (as `header_files` gives) always is. A path is reported iff some entry
        whose first tag is not `non_existing` lists it. */
    method PathsReport() returns (paths: PathsMap)
      requires Valid() && AllResolved(sources)
      requires forall k :: 0 <= k < |Entries()| ==> Readable(Entries()[k])
      ensures paths == Tags(Entries())
      ensures CleanTags(paths)
      ensures forall p :: p in paths <==>
                exists s, i, h :: s in sources && i in sources[s].includes && h in sources[s].includes[i].mapped.records &&
                                  Contributes(sources[s].includes[i].mapped.records[h], p)
    {
      var entries := Entries();
      paths := Aggregator.PathsReport(entries);
      ReportedPaths(entries);
      forall p ensures p in paths <==>
                exists s, i, h :: s in sources && i in sources[s].includes && h in sources[s].includes[i].mapped.records &&
                                  Contributes(sources[s].includes[i].mapped.records[h], p)
      {
        if p in paths {
          var k :| 0 <= k < |entries| && Contributes(entries[k], p);
          assert entries[k] in entries;
          var s, i, h :| s in sources && i in sources[s].includes && h in sources[s].includes[i].mapped.records &&
                         entries[k] == sources[s].includes[i].mapped.records[h];
        }
        if exists s, i, h :: s in sources && i in sources[s].includes && h in sources[s].includes[i].mapped.records &&
                             Contributes(sources[s].includes[i].mapped.records[h], p) {
          var s, i, h :| s in sources && i in sources[s].includes && h in sources[s].includes[i].mapped.records &&
                         Contributes(sources[s].includes[i].mapped.records[h], p);
          var k :| 0 <= k < |entries| && entries[k] == sources[s].includes[i].mapped.records[h];
        }
      }
    }
  }
}
