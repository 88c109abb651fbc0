/** The selection logic of the ladder web pages: which ladder entries a page
    shows, which page buttons and database options it offers, and which
    database a request names. HTML is not modelled: a rendered row is the
    ladder entry it was rendered from, a page button is its start offset and
    label, a database option is the index of the database in load order.

    A ladder database's linked list of entries is a sequence; a node pointer
    is an index into it, with the length standing for the null pointer. A
    pointer to a loaded database is its index in the list of loaded
    databases, and None stands for the null pointer. */
module LadderWeb {
  import opened Wrappers
  import opened Text

  /** A ladder entry, reduced to the fields the selection logic reads; the
      other statistics only feed the row template. */
  datatype LadderEntry = LadderEntry(steamId: nat, mostRecentName: string)

  datatype LadderDatabase = LadderDatabase(name: string, entries: seq<LadderEntry>)

  /** The index of the first element of s satisfying p, if any. */
  function FirstIndex<T>(s: seq<T>, p: T -> bool): (r: Option<nat>)
    ensures r.Some? ==> r.value < |s| && p(s[r.value]) && forall j :: 0 <= j < r.value ==> !p(s[j])
    ensures r.None? ==> forall j :: 0 <= j < |s| ==> !p(s[j])
  {
    if s == [] then None
    else if p(s[0]) then Some(0)
    else match FirstIndex(s[1..], p)
      case None => None
      case Some(k) => Some(k + 1)
  }

  function Min(a: nat, b: nat): nat {
    if a <= b then a else b
  }

  // ---------------------------------------------------------------------
  // Entry range (generate_entry_table)

  datatype TableError = NoLadderData | InvalidRange

  /** The rows a table shows: `count` entries from `start`. */
  datatype Span = Span(start: nat, count: nat)

  /** The range check and clamp: an empty ladder has no data; a start at or
      past the end, or a count of zero, is an invalid range; otherwise the
      requested range cut at the end of the ladder. */
  function EntryRange(size: nat, index: nat, count: nat): (r: Result<Span, TableError>)
    ensures r == Failure(NoLadderData) <==> size == 0
    ensures r == Failure(InvalidRange) <==> size != 0 && (index >= size || count == 0)
    ensures r.Success? ==>
              && r.value.start == index
              && r.value.count == Min(count, size - index)
              && 0 < r.value.count && index + r.value.count <= size
  {
    if size == 0 then Failure(NoLadderData)
    else if index >= size || count == 0 then Failure(InvalidRange)
    else if count > size - index then Success(Span(index, size - index))
    else Success(Span(index, count))
  }

  /** One more than the largest value of a size_t. */
  const SizeModulus: int := 0x1_0000_0000_0000_0000

  /** The range check as the source writes it: `index + count` is computed in
      size_t, so it wraps around when count is close to the largest size_t. */
  function EntryRangeAsWritten(size: nat, index: nat, count: nat): (r: Result<Span, TableError>)
    requires size < SizeModulus && index < SizeModulus && count < SizeModulus
    ensures r.Success? ==> r.value.start == index && 0 < r.value.count
  {
    if size == 0 then Failure(NoLadderData)
    else if index >= size || count == 0 then Failure(InvalidRange)
    else if (index + count) % SizeModulus > size then Success(Span(index, size - index))
    else Success(Span(index, count))
  }

  /** Without wrap-around the check as written is the intended one. */
  lemma EntryRangeAsWrittenAgrees(size: nat, index: nat, count: nat)
    requires size < SizeModulus && index < SizeModulus && count < SizeModulus
    requires index + count < SizeModulus
    ensures EntryRangeAsWritten(size, index, count) == EntryRange(size, index, count)
  {
  }

  /** start=1 and count=2^64-1 on a two-entry ladder: the sum wraps to 0, the
      count is not clamped, and the range runs past the end of the list. */
  lemma EntryRangeAsWrittenOverruns()
    ensures var r := EntryRangeAsWritten(2, 1, SizeModulus - 1);
            r.Success? && r.value.start + r.value.count > 2
    ensures EntryRange(2, 1, SizeModulus - 1) == Success(Span(1, 1))
  {
  }

  // ---------------------------------------------------------------------
  // Page buttons (generate_page_buttons)

  /** A page button: the entry offset it links to and the page number it shows. */
  datatype PageButton = PageButton(start: nat, page: nat)

  /** The buttons the loop emits from `entryIndex` and `pageIndex` on. */
  function PagesFrom(entryIndex: nat, pageIndex: nat, entryCount: nat, perPage: nat): seq<PageButton>
    requires perPage > 0
    decreases entryCount - entryIndex
  {
    if entryIndex < entryCount then
      [PageButton(entryIndex, pageIndex)] + PagesFrom(entryIndex + perPage, pageIndex + 1, entryCount, perPage)
    else
      []
  }

  function PageButtons(entryCount: nat, perPage: nat): seq<PageButton>
    requires perPage > 0
  {
    PagesFrom(0, 1, entryCount, perPage)
  }

  lemma {:induction false} PagesFromShape(entryIndex: nat, pageIndex: nat, entryCount: nat, perPage: nat)
    requires perPage > 0
    ensures var ps := PagesFrom(entryIndex, pageIndex, entryCount, perPage);
            && entryIndex + |ps| * perPage >= entryCount
            && (|ps| > 0 ==> entryIndex + (|ps| - 1) * perPage < entryCount)
            && forall k :: 0 <= k < |ps| ==>
                 ps[k] == PageButton(entryIndex + k * perPage, pageIndex + k) && ps[k].start < entryCount
    decreases entryCount - entryIndex
  {
    if entryIndex < entryCount {
      var rest := PagesFrom(entryIndex + perPage, pageIndex + 1, entryCount, perPage);
      PagesFromShape(entryIndex + perPage, pageIndex + 1, entryCount, perPage);
      var ps := PagesFrom(entryIndex, pageIndex, entryCount, perPage);
      assert ps == [PageButton(entryIndex, pageIndex)] + rest;
      assert entryIndex + perPage + |rest| * perPage == entryIndex + |ps| * perPage;
      assert |rest| > 0 ==> entryIndex + perPage + (|rest| - 1) * perPage == entryIndex + (|ps| - 1) * perPage;
      forall k | 1 <= k < |ps|
        ensures ps[k] == PageButton(entryIndex + k * perPage, pageIndex + k)
      {
        assert ps[k] == rest[k - 1];
        assert entryIndex + perPage + (k - 1) * perPage == entryIndex + k * perPage;
      }
    }
  }

  /** There are ceil(entryCount / perPage) buttons; the button at k starts at
      k * perPage, is labelled k + 1, and starts inside the ladder. */
  lemma PageButtonsShape(entryCount: nat, perPage: nat)
    requires perPage > 0
    ensures var ps := PageButtons(entryCount, perPage);
            && |ps| == (entryCount + perPage - 1) / perPage
            && forall k :: 0 <= k < |ps| ==>
                 ps[k] == PageButton(k * perPage, k + 1) && ps[k].start < entryCount
  {
    var ps := PageButtons(entryCount, perPage);
    PagesFromShape(0, 1, entryCount, perPage);
    CeilingDivision(entryCount, perPage, |ps|);
  }

  /** n is ceil(a / b) when it is the least number of b-sized pages covering a. */
  lemma CeilingDivision(a: nat, b: nat, n: nat)
    requires b > 0
    requires n * b >= a
    requires n > 0 ==> (n - 1) * b < a
    ensures n == (a + b - 1) / b
  {
    var q := (a + b - 1) / b;
    var r := (a + b - 1) % b;
    assert a + b - 1 == q * b + r && 0 <= r < b;
    if n > q {
      MultiplyMonotonic(q, n - 1, b);
      assert false;
    } else if n < q {
      MultiplyMonotonic(n + 1, q, b);
      assert false;
    }
  }

  lemma MultiplyMonotonic(x: nat, y: nat, b: nat)
    requires x <= y
    ensures x * b <= y * b
  {
  }

  /** `generate_page_buttons`: one button per page of the ladder. */
  method GeneratePageButtons(entryCount: nat, perPage: nat) returns (buttons: seq<PageButton>)
    requires perPage > 0
    ensures buttons == PageButtons(entryCount, perPage)
  {
    buttons := [];
    var entryIndex, pageIndex := 0, 1;
    while entryIndex < entryCount
      invariant buttons + PagesFrom(entryIndex, pageIndex, entryCount, perPage) == PageButtons(entryCount, perPage)
      decreases entryCount - entryIndex
    {
      buttons := buttons + [PageButton(entryIndex, pageIndex)];
      entryIndex := entryIndex + perPage;
      pageIndex := pageIndex + 1;
    }
  }

  /** The indexes (entry_index, page_index) after n passes of the loop body
      as written, starting from (0, 1). */
  function PageLoopAfter(n: nat, perPage: nat): (nat, nat) {
    if n == 0 then (0, 1)
    else
      var (entryIndex, pageIndex) := PageLoopAfter(n - 1, perPage);
      (entryIndex + perPage, pageIndex + 1)
  }

  /** With a page size of 0 and a non-empty ladder, entry_index stays 0 after
      every pass, so the loop condition `entry_index < entry_count` never
      becomes false while page_index keeps growing. */
  lemma {:induction false} PageLoopNeverExits(entryCount: nat, n: nat)
    requires entryCount > 0
    ensures PageLoopAfter(n, 0).0 == 0 < entryCount
    ensures PageLoopAfter(n, 0).1 == n + 1
  {
    if n > 0 {
      PageLoopNeverExits(entryCount, n - 1);
    }
  }

  // ---------------------------------------------------------------------
  // Entry table (generate_entry_table)

  datatype Table = Failed(error: TableError) | Rendered(rows: seq<LadderEntry>, buttons: seq<PageButton>)

  /** The table of a ladder page: the rows of the requested range, in list
      order, followed by the page buttons; or the range error. */
  function EntryTable(entries: seq<LadderEntry>, index: nat, count: nat, perPage: nat): (t: Table)
    requires EntryRange(|entries|, index, count).Success? ==> perPage > 0
    ensures t == Failed(NoLadderData) <==> |entries| == 0
    ensures t == Failed(InvalidRange) <==> |entries| != 0 && (index >= |entries| || count == 0)
    ensures t.Rendered? ==>
              && |t.rows| == Min(count, |entries| - index)
              && (forall k :: 0 <= k < |t.rows| ==> t.rows[k] == entries[index + k])
              && t.buttons == PageButtons(|entries|, perPage)
  {
    match EntryRange(|entries|, index, count)
    case Failure(e) => Failed(e)
    case Success(span) => Rendered(entries[span.start..span.start + span.count], PageButtons(|entries|, perPage))
  }

  /** `generate_entry_table`: walks the list to the start of the range, then
      renders one row per node until the clamped count is used up. */
  method GenerateEntryTable(entries: seq<LadderEntry>, index: nat, count: nat, perPage: nat) returns (t: Table)
    requires EntryRange(|entries|, index, count).Success? ==> perPage > 0
    ensures t == EntryTable(entries, index, count, perPage)
  {
    if |entries| == 0 {
      return Failed(NoLadderData);
    }
    if index >= |entries| || count == 0 {
      return Failed(InvalidRange);
    }
    var remaining: nat := count;
    if count > |entries| - index {
      remaining := |entries| - index;
    }
    ghost var total := remaining;

    var node := 0;
    var skip := index;
    while skip != 0
      invariant node + skip == index
    {
      node := node + 1;
      skip := skip - 1;
    }

    var rows := [];
    while remaining != 0
      invariant node == index + |rows| && |rows| + remaining == total
      invariant index + total <= |entries|
      invariant rows == entries[index..node]
    {
      rows := rows + [entries[node]];
      node := node + 1;
      remaining := remaining - 1;
    }
    var buttons := GeneratePageButtons(|entries|, perPage);
    t := Rendered(rows, buttons);
  }

  // ---------------------------------------------------------------------
  // Search (generate_search_page)

  predicate NameMatches(e: LadderEntry, name: string) {
    ContainsIgnoreCase(e.mostRecentName, name)
  }

  /** The entries whose most recent name contains `name` up to case, in list order. */
  function Matching(entries: seq<LadderEntry>, name: string): seq<LadderEntry> {
    if entries == [] then []
    else (if NameMatches(entries[0], name) then [entries[0]] else []) + Matching(entries[1..], name)
  }

  lemma {:induction false} MatchingAppend(entries: seq<LadderEntry>, e: LadderEntry, name: string)
    ensures Matching(entries + [e], name) == Matching(entries, name) + (if NameMatches(e, name) then [e] else [])
  {
    if entries != [] {
      assert (entries + [e])[1..] == entries[1..] + [e];
      MatchingAppend(entries[1..], e, name);
    }
  }

  /** The search keeps every matching entry as often as the ladder holds it,
      and nothing else. */
  lemma {:induction false} MatchingExactly(entries: seq<LadderEntry>, name: string)
    ensures forall e :: multiset(Matching(entries, name))[e]
                        == if NameMatches(e, name) then multiset(entries)[e] else 0
    ensures forall e :: e in Matching(entries, name) <==> e in entries && NameMatches(e, name)
  {
    if entries != [] {
      MatchingExactly(entries[1..], name);
      assert entries == [entries[0]] + entries[1..];
      forall e ensures multiset(Matching(entries, name))[e]
                        == if NameMatches(e, name) then multiset(entries)[e] else 0
      {
        assert multiset(entries)[e] == multiset([entries[0]])[e] + multiset(entries[1..])[e];
      }
      forall e ensures e in Matching(entries, name) <==> e in entries && NameMatches(e, name) {
        assert e in Matching(entries, name) <==> multiset(Matching(entries, name))[e] > 0;
        assert e in entries <==> multiset(entries)[e] > 0;
      }
    }
  }

  datatype SearchResult = NoSearchData | SearchRows(rows: seq<LadderEntry>)

  function SearchTable(entries: seq<LadderEntry>, name: string): (r: SearchResult)
    ensures r == NoSearchData <==> entries == []
  {
    if entries == [] then NoSearchData else SearchRows(Matching(entries, name))
  }

  /** The search part of `generate_search_page`: walks the whole list and
      renders a row for every matching node. */
  method GenerateSearchRows(entries: seq<LadderEntry>, name: string) returns (r: SearchResult)
    ensures r == SearchTable(entries, name)
  {
    if |entries| == 0 {
      return NoSearchData;
    }
    var rows := [];
    var node := 0;
    while node != |entries|
      invariant 0 <= node <= |entries|
      invariant rows == Matching(entries[..node], name)
    {
      MatchingAppend(entries[..node], entries[node], name);
      assert entries[..node + 1] == entries[..node] + [entries[node]];
      if NameMatches(entries[node], name) {
        rows := rows + [entries[node]];
      }
      node := node + 1;
    }
    assert entries[..node] == entries;
    r := SearchRows(rows);
  }

  // ---------------------------------------------------------------------
  // Profile (generate_profile_page)

  function HasSteamId(id: nat): LadderEntry -> bool {
    (e: LadderEntry) => e.steamId == id
  }

  datatype ProfileResult =
    | NoProfileData
    | PlayerNotFound
    | Profile(index: nat, entry: LadderEntry, previous: Option<LadderEntry>, next: Option<LadderEntry>)

  /** The profile of the first entry with the requested steam id, with the
      entries before and after it when they exist. */
  function ProfileOf(entries: seq<LadderEntry>, id: nat): (r: ProfileResult)
    ensures r == NoProfileData <==> entries == []
    ensures r == PlayerNotFound <==> entries != [] && forall j :: 0 <= j < |entries| ==> entries[j].steamId != id
    ensures r.Profile? ==>
              && r.index < |entries| && r.entry == entries[r.index] && r.entry.steamId == id
              && (forall j :: 0 <= j < r.index ==> entries[j].steamId != id)
              && (r.previous.Some? <==> r.index > 0)
              && (r.previous.Some? ==> r.previous.value == entries[r.index - 1])
              && (r.next.Some? <==> r.index + 1 < |entries|)
              && (r.next.Some? ==> r.next.value == entries[r.index + 1])
  {
    if entries == [] then NoProfileData
    else match FirstIndex(entries, HasSteamId(id))
      case None => PlayerNotFound
      case Some(k) =>
        Profile(k, entries[k],
                if k > 0 then Some(entries[k - 1]) else None,
                if k + 1 < |entries| then Some(entries[k + 1]) else None)
  }

  /** The lookup of `generate_profile_page`: walks the list until a node with
      the steam id is found, then looks at its neighbours. */
  method FindProfile(entries: seq<LadderEntry>, id: nat) returns (r: ProfileResult)
    ensures r == ProfileOf(entries, id)
  {
    if |entries| == 0 {
      return NoProfileData;
    }
    var node := 0;
    while node != |entries|
      invariant 0 <= node <= |entries|
      invariant forall j :: 0 <= j < node ==> entries[j].steamId != id
    {
      if entries[node].steamId == id {
        break;
      }
      node := node + 1;
    }
    if node == |entries| {
      r := PlayerNotFound;
    } else {
      var previous := if node > 0 then Some(entries[node - 1]) else None;
      var next := if node + 1 < |entries| then Some(entries[node + 1]) else None;
      r := Profile(node, entries[node], previous, next);
    }
  }

  // ---------------------------------------------------------------------
  // Database selection (handle_*_page, generate_database_selector)

  function NamedIgnoreCase(name: string): LadderDatabase -> bool {
    (db: LadderDatabase) => EqualsIgnoreCase(db.name, name)
  }

  /** The database a request names: the default one when the request names
      none, otherwise the first loaded database whose name equals the
      requested one up to case. */
  function ResolveDatabase(dbs: seq<LadderDatabase>, default: Option<nat>, dbName: string): Option<nat> {
    if dbName == [] then default else FirstIndex(dbs, NamedIgnoreCase(dbName))
  }

  /** The lookup loop of the `handle_*_page` functions. */
  method FindDatabase(dbs: seq<LadderDatabase>, default: Option<nat>, dbName: string) returns (db: Option<nat>)
    ensures db == ResolveDatabase(dbs, default, dbName)
    ensures dbName == [] ==> db == default
    ensures dbName != [] && db.Some? ==>
              && db.value < |dbs| && EqualsIgnoreCase(dbs[db.value].name, dbName)
              && forall j :: 0 <= j < db.value ==> !EqualsIgnoreCase(dbs[j].name, dbName)
    ensures dbName != [] && db.None? ==> forall j :: 0 <= j < |dbs| ==> !EqualsIgnoreCase(dbs[j].name, dbName)
  {
    db := default;
    if dbName != [] {
      db := None;
      var index := 0;
      while index != |dbs|
        invariant 0 <= index <= |dbs|
        invariant forall j :: 0 <= j < index ==> !EqualsIgnoreCase(dbs[j].name, dbName)
      {
        if EqualsIgnoreCase(dbs[index].name, dbName) {
          db := Some(index);
          break;
        }
        index := index + 1;
      }
    }
  }

  /** The database options of the selector, in the order they are listed;
      NoSelector is the empty string returned when there is nothing to list. */
  datatype Selector = NoSelector | Options(dbs: seq<nat>)

  /** Indices 0 .. n-1 other than the current database, ascending. */
  function OthersBelow(n: nat, current: Option<nat>): seq<nat> {
    if n == 0 then []
    else OthersBelow(n - 1, current) + (if current == Some(n - 1) then [] else [n - 1])
  }

  function SelectorOptions(count: nat, current: Option<nat>): Selector {
    if current.None? && count == 0 then NoSelector
    else Options((if current.Some? then [current.value] else []) + OthersBelow(count, current))
  }

  lemma {:induction false} OthersBelowShape(n: nat, current: Option<nat>)
    ensures var os := OthersBelow(n, current);
            && (forall k :: 0 <= k < |os| ==> os[k] < n && current != Some(os[k]))
            && (forall j, k :: 0 <= j < k < |os| ==> os[j] < os[k])
            && (forall i :: 0 <= i < n && current != Some(i) ==> i in os)
  {
    if n > 0 {
      OthersBelowShape(n - 1, current);
    }
  }

  /** The selector lists the current database first, then every other loaded
      database exactly once in load order; with neither a current database
      nor any loaded one it is empty. */
  lemma SelectorListsEachOnce(count: nat, current: Option<nat>)
    requires current.Some? ==> current.value < count
    ensures SelectorOptions(count, current) == NoSelector <==> count == 0
    ensures SelectorOptions(count, current).Options? ==>
              var opts := SelectorOptions(count, current).dbs;
              && (current.Some? ==> opts[0] == current.value)
              && (forall i :: 0 <= i < count <==> i in opts)
              && (forall j, k :: 0 <= j < k < |opts| ==> opts[j] != opts[k])
              && (forall j, k :: (if current.Some? then 1 else 0) <= j < k < |opts| ==> opts[j] < opts[k])
  {
    OthersBelowShape(count, current);
  }

  /** `generate_database_selector`: the current database, then every loaded
      database that is not the current one. */
  method GenerateDatabaseSelector(count: nat, current: Option<nat>) returns (s: Selector)
    ensures s == SelectorOptions(count, current)
  {
    var opts: seq<nat> := [];
    if current.Some? {
      opts := [current.value];
    } else if count == 0 {
      return NoSelector;
    }
    for index := 0 to count
      invariant opts == (if current.Some? then [current.value] else []) + OthersBelow(index, current)
    {
      if current != Some(index) {
        opts := opts + [index];
      }
    }
    s := Options(opts);
  }

  // ---------------------------------------------------------------------
  // Request handlers (handle_ladder_page, handle_search_page, handle_profile_page)

  /** The plugin's settings and the loaded ladder databases. */
  datatype Site = Site(databases: seq<LadderDatabase>, default: Option<nat>,
                       entriesPerPage: nat, minSearchNameLength: nat)

  /** The default database, when there is one, is a loaded database. */
  predicate DefaultLoaded(site: Site) {
    site.default.Some? ==> site.default.value < |site.databases|
  }

  /** Settings under which every request can be served: the page-button
      loop ends only with a positive page size. */
  predicate ValidSite(site: Site) {
    DefaultLoaded(site) && site.entriesPerPage > 0
  }

  /** The page size used when the configuration gives none. */
  const DefaultEntriesPerPage: nat := 50

  /** The settings as read from the configuration, with a page size of 0
      refused in favour of the default, so that the page-button loop always
      advances. */
  function ConfiguredSite(databases: seq<LadderDatabase>, default: Option<nat>,
                          entriesPerPage: nat, minSearchNameLength: nat): (s: Site)
    ensures s.databases == databases && s.default == default
    ensures s.minSearchNameLength == minSearchNameLength
    ensures s.entriesPerPage > 0
    ensures entriesPerPage > 0 ==> s.entriesPerPage == entriesPerPage
    ensures ValidSite(s) <==> (default.Some? ==> default.value < |databases|)
  {
    Site(databases, default, if entriesPerPage == 0 then DefaultEntriesPerPage else entriesPerPage,
         minSearchNameLength)
  }

  /** The parameters of a request, already parsed; None where the request
      does not give one. */
  datatype Query = Query(start: Option<nat>, count: Option<nat>, name: string, database: string, id: Option<nat>)

  datatype Page =
    | NoDatabase(anyLoaded: bool)
    | LadderPage(db: nat, table: Table)
    | SearchPage(db: nat, result: SearchResult)
    | ProfilePage(db: nat, profile: ProfileResult)

  /** The request resolves to a database and names a valid range of it, so
      the ladder page goes on to the page buttons. */
  predicate ReachesButtons(site: Site, q: Query)
    requires DefaultLoaded(site)
  {
    match ResolveDatabase(site.databases, site.default, q.database)
    case None => false
    case Some(d) =>
      EntryRange(|site.databases[d].entries|, q.start.GetOr(0), q.count.GetOr(site.entriesPerPage)).Success?
  }

  /** The ladder page asks for a positive page size only when it reaches the
      page buttons; a range error is returned before them. */
  function LadderPageFor(site: Site, q: Query): Page
    requires DefaultLoaded(site)
    requires ReachesButtons(site, q) ==> site.entriesPerPage > 0
  {
    match ResolveDatabase(site.databases, site.default, q.database)
    case None => NoDatabase(|site.databases| != 0)
    case Some(d) =>
      LadderPage(d, EntryTable(site.databases[d].entries, q.start.GetOr(0),
                               q.count.GetOr(site.entriesPerPage), site.entriesPerPage))
  }

  /** A search with a name of the minimum length or longer never reaches the
      page buttons, so only the fallback to the ladder page needs a positive
      page size. */
  function SearchPageFor(site: Site, q: Query): Page
    requires DefaultLoaded(site)
    requires |q.name| < site.minSearchNameLength && ReachesButtons(site, q) ==> site.entriesPerPage > 0
  {
    match ResolveDatabase(site.databases, site.default, q.database)
    case None => NoDatabase(|site.databases| != 0)
    case Some(d) =>
      if |q.name| < site.minSearchNameLength then LadderPageFor(site, q)
      else SearchPage(d, SearchTable(site.databases[d].entries, q.name))
  }

  function ProfilePageFor(site: Site, q: Query): Page
    requires DefaultLoaded(site)
  {
    match ResolveDatabase(site.databases, site.default, q.database)
    case None => NoDatabase(|site.databases| != 0)
    case Some(d) => ProfilePage(d, ProfileOf(site.databases[d].entries, q.id.GetOr(0)))
  }

  method HandleLadderPage(site: Site, q: Query) returns (page: Page)
    requires DefaultLoaded(site)
    requires ReachesButtons(site, q) ==> site.entriesPerPage > 0
    ensures page == LadderPageFor(site, q)
    ensures page.NoDatabase? <==> ResolveDatabase(site.databases, site.default, q.database).None?
  {
    var db := FindDatabase(site.databases, site.default, q.database);
    if db.None? {
      return NoDatabase(|site.databases| != 0);
    }
    var table := GenerateEntryTable(site.databases[db.value].entries, q.start.GetOr(0),
                                    q.count.GetOr(site.entriesPerPage), site.entriesPerPage);
    page := LadderPage(db.value, table);
  }

  /** A name shorter than the minimum search length gives the ladder page for
      the same request. */
  method HandleSearchPage(site: Site, q: Query) returns (page: Page)
    requires DefaultLoaded(site)
    requires |q.name| < site.minSearchNameLength && ReachesButtons(site, q) ==> site.entriesPerPage > 0
    ensures page == SearchPageFor(site, q)
    ensures |q.name| < site.minSearchNameLength ==> page == LadderPageFor(site, q)
  {
    var db := FindDatabase(site.databases, site.default, q.database);
    if db.None? {
      return NoDatabase(|site.databases| != 0);
    }
    if |q.name| < site.minSearchNameLength {
      page := HandleLadderPage(site, q);
      return;
    }
    var result := GenerateSearchRows(site.databases[db.value].entries, q.name);
    page := SearchPage(db.value, result);
  }

  /** With a page size of 0 and no count in the request, the count defaults
      to 0: a resolved ladder page reports "No ladder data" for an empty
      ladder and "Invalid range" otherwise, and never reaches the buttons. */
  lemma ZeroPageSizeDefaultCount(site: Site, q: Query)
    requires DefaultLoaded(site) && site.entriesPerPage == 0 && q.count.None?
    ensures !ReachesButtons(site, q)
    ensures match ResolveDatabase(site.databases, site.default, q.database)
            case None => LadderPageFor(site, q) == NoDatabase(|site.databases| != 0)
            case Some(d) =>
              LadderPageFor(site, q)
              == LadderPage(d, Failed(if site.databases[d].entries == [] then NoLadderData else InvalidRange))
  {
  }

  /** A name of the minimum length or longer gives the search page (or the
      no-database page), whatever the page size, 0 included. */
  lemma LongNameSearches(site: Site, q: Query)
    requires DefaultLoaded(site) && |q.name| >= site.minSearchNameLength
    ensures var page := SearchPageFor(site, q);
            page.NoDatabase? <==> ResolveDatabase(site.databases, site.default, q.database).None?
    ensures var page := SearchPageFor(site, q);
            page.SearchPage? ==> page.result == SearchTable(site.databases[page.db].entries, q.name)
  {
  }

  method HandleProfilePage(site: Site, q: Query) returns (page: Page)
    requires DefaultLoaded(site)
    ensures page == ProfilePageFor(site, q)
  {
    var db := FindDatabase(site.databases, site.default, q.database);
    if db.None? {
      return NoDatabase(|site.databases| != 0);
    }
    var profile := FindProfile(site.databases[db.value].entries, q.id.GetOr(0));
    page := ProfilePage(db.value, profile);
  }
}
