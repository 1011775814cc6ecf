/** The SharePoint synchronisation job: it walks
    `<main>/<Business>/<Clients>/<client>/<year>/<category>`, keeps the year
    folders named by four digits and the category folders of a fixed set,
    merge-upserts one index entity per kept triple, and publishes the distinct
    client roster downstream. */
module SharePointSync {
  import opened Common
  import opened Drive
  import opened TableStore

  const MainFolder: string := "Ratios Conseils Sàrl - Commun"

  /** The category folders the crawl indexes. */
  const Categories: set<string> :=
    {"00 - A traiter", "01.1 - Créanciers", "01.2 - Tickets", "02 - Débiteurs", "03 - Banque"}

  /** One indexed folder: a (client, year, category) triple and where it is. */
  datatype Row = Row(
    client: string,
    clientFolderId: string,
    year: string,
    category: string,
    folderPath: string,
    folderId: string)

  // ---------------------------------------------------------------------------
  // Locating the clients folder
  // ---------------------------------------------------------------------------

  /** A folder whose lower-cased name contains `needle`. */
  predicate NameMatches(it: Item, needle: string) {
    IsTruthyFolder(it) && Contains(Lower(it.name), needle)
  }

  /** The loop that looks for the Business or the Clients folder: the first
      matching item in listing order wins, and none matching yields nothing. */
  function FindFolder(items: seq<Item>, needle: string): (r: Option<string>)
    ensures r.None? <==> forall i :: 0 <= i < |items| ==> !NameMatches(items[i], needle)
    ensures r.Some? ==>
      exists i :: 0 <= i < |items| && NameMatches(items[i], needle) && r.value == items[i].name
                  && forall j :: 0 <= j < i ==> !NameMatches(items[j], needle)
  {
    if |items| == 0 then None
    else if NameMatches(items[0], needle) then Some(items[0].name)
    else
      var r := FindFolder(items[1..], needle);
      assert forall i :: 1 <= i < |items| ==> items[i] == items[1..][i - 1];
      r
  }

  /** The path of the clients folder, `Ok(None)` when the Business or the
      Clients folder is missing, `Err` when a listing call raises. */
  function LocateClients(ls: Listing): (r: Result<Option<string>, SyncError>)
    ensures MainFolder !in ls ==> r == Err(ListingFailed(MainFolder))
    ensures MainFolder in ls && FindFolder(ls[MainFolder], "business").None? ==> r == Ok(None)
    ensures MainFolder in ls && FindFolder(ls[MainFolder], "business").Some? ==>
      var businessPath := MainFolder + "/" + FindFolder(ls[MainFolder], "business").value;
      && (businessPath !in ls ==> r == Err(ListingFailed(businessPath)))
      && (businessPath in ls && FindFolder(ls[businessPath], "client").None? ==> r == Ok(None))
      && (businessPath in ls && FindFolder(ls[businessPath], "client").Some? ==>
            r == Ok(Some(businessPath + "/" + FindFolder(ls[businessPath], "client").value)))
    ensures r.Ok? && r.value.Some? ==> StartsWith(r.value.value, MainFolder + "/")
  {
    if MainFolder !in ls then Err(ListingFailed(MainFolder))
    else match FindFolder(ls[MainFolder], "business")
      case None => Ok(None)
      case Some(business) =>
        var businessPath := MainFolder + "/" + business;
        if businessPath !in ls then Err(ListingFailed(businessPath))
        else match FindFolder(ls[businessPath], "client")
          case None => Ok(None)
          case Some(clients) =>
            var p := businessPath + "/" + clients;
            assert p[..|MainFolder + "/"|] == MainFolder + "/";
            Ok(Some(p))
  }

  // ---------------------------------------------------------------------------
  // The three-level walk
  // ---------------------------------------------------------------------------

  predicate KeptCategory(it: Item) {
    IsFolder(it) && it.name in Categories
  }

  predicate KeptYear(it: Item) {
    IsFolder(it) && IsYearName(it.name)
  }

  /** The rows contributed by the category listing of one year folder. */
  function CategoryRows(client: string, clientFolderId: string, year: string, yearPath: string,
                        cats: seq<Item>): (rows: seq<Row>)
    ensures forall row :: row in rows <==>
      exists k :: k in cats && KeptCategory(k)
                  && row == Row(client, clientFolderId, year, k.name, yearPath + "/" + k.name, k.id)
  {
    if |cats| == 0 then []
    else
      var k := cats[0];
      var rest := CategoryRows(client, clientFolderId, year, yearPath, cats[1..]);
      assert forall x :: x in cats <==> x == k || x in cats[1..];
      if KeptCategory(k) then [Row(client, clientFolderId, year, k.name, yearPath + "/" + k.name, k.id)] + rest
      else rest
  }

  /** The year listing of a client is complete when every kept year folder
      can itself be listed. */
  predicate YearsListable(ls: Listing, clientPath: string, years: seq<Item>) {
    forall y :: y in years && KeptYear(y) ==> clientPath + "/" + y.name in ls
  }

  /** The rows contributed by the year listing of one client folder. */
  function YearRows(ls: Listing, client: string, clientFolderId: string, clientPath: string,
                    years: seq<Item>): (r: Result<seq<Row>, SyncError>)
    ensures r.Ok? <==> YearsListable(ls, clientPath, years)
    ensures r.Ok? ==> forall row :: row in r.value <==>
      exists y :: y in years && KeptYear(y) && clientPath + "/" + y.name in ls
                  && row in CategoryRows(client, clientFolderId, y.name, clientPath + "/" + y.name,
                                         ls[clientPath + "/" + y.name])
  {
    if |years| == 0 then Ok([])
    else
      var y := years[0];
      assert forall x :: x in years <==> x == y || x in years[1..];
      if !KeptYear(y) then YearRows(ls, client, clientFolderId, clientPath, years[1..])
      else
        var yearPath := clientPath + "/" + y.name;
        if yearPath !in ls then Err(ListingFailed(yearPath))
        else
          var here := CategoryRows(client, clientFolderId, y.name, yearPath, ls[yearPath]);
          match YearRows(ls, client, clientFolderId, clientPath, years[1..])
          case Err(e) => Err(e)
          case Ok(rest) => Ok(here + rest)
  }

  /** Every client folder, and every kept year folder below it, can be listed. */
  predicate ClientsListable(ls: Listing, clientsPath: string, clients: seq<Item>) {
    forall c :: c in clients && IsFolder(c) ==>
      clientsPath + "/" + c.name in ls && YearsListable(ls, clientsPath + "/" + c.name, ls[clientsPath + "/" + c.name])
  }

  /** The rows contributed by the listing of the clients folder. */
  function ClientRows(ls: Listing, clientsPath: string, clients: seq<Item>): (r: Result<seq<Row>, SyncError>)
    ensures r.Ok? <==> ClientsListable(ls, clientsPath, clients)
    ensures r.Ok? ==> forall row :: row in r.value <==>
      exists c :: c in clients && IsFolder(c) && clientsPath + "/" + c.name in ls
                  && var years := YearRows(ls, c.name, c.id, clientsPath + "/" + c.name, ls[clientsPath + "/" + c.name]);
                     years.Ok? && row in years.value
  {
    if |clients| == 0 then Ok([])
    else
      var c := clients[0];
      assert forall x :: x in clients <==> x == c || x in clients[1..];
      if !IsFolder(c) then ClientRows(ls, clientsPath, clients[1..])
      else
        var clientPath := clientsPath + "/" + c.name;
        if clientPath !in ls then Err(ListingFailed(clientPath))
        else match YearRows(ls, c.name, c.id, clientPath, ls[clientPath])
          case Err(e) => Err(e)
          case Ok(here) =>
            match ClientRows(ls, clientsPath, clients[1..])
            case Err(e) => Err(e)
            case Ok(rest) => Ok(here + rest)
  }

  // ---------------------------------------------------------------------------
  // Order: the crawl is the nested-loop concatenation
  // ---------------------------------------------------------------------------

  /** The category rows of two listings one after the other are those of the
      first followed by those of the second. */
  lemma {:induction false} CategoryRowsAppend(client: string, clientFolderId: string, year: string, yearPath: string,
                                              a: seq<Item>, b: seq<Item>)
    ensures CategoryRows(client, clientFolderId, year, yearPath, a + b)
         == CategoryRows(client, clientFolderId, year, yearPath, a) + CategoryRows(client, clientFolderId, year, yearPath, b)
  {
    if |a| == 0 {
      assert a + b == b;
    } else {
      assert (a + b)[0] == a[0];
      assert (a + b)[1..] == a[1..] + b;
      CategoryRowsAppend(client, clientFolderId, year, yearPath, a[1..], b);
    }
  }

  /** The year rows of two listings one after the other: the first listing's
      failure if it fails, else the second's, else the first's rows followed
      by the second's. */
  lemma {:induction false} YearRowsAppend(ls: Listing, client: string, clientFolderId: string, clientPath: string,
                                          a: seq<Item>, b: seq<Item>)
    ensures YearRows(ls, client, clientFolderId, clientPath, a).Err? ==>
      YearRows(ls, client, clientFolderId, clientPath, a + b) == YearRows(ls, client, clientFolderId, clientPath, a)
    ensures YearRows(ls, client, clientFolderId, clientPath, a).Ok? && YearRows(ls, client, clientFolderId, clientPath, b).Err? ==>
      YearRows(ls, client, clientFolderId, clientPath, a + b) == YearRows(ls, client, clientFolderId, clientPath, b)
    ensures YearRows(ls, client, clientFolderId, clientPath, a).Ok? && YearRows(ls, client, clientFolderId, clientPath, b).Ok? ==>
      YearRows(ls, client, clientFolderId, clientPath, a + b)
        == Ok(YearRows(ls, client, clientFolderId, clientPath, a).value + YearRows(ls, client, clientFolderId, clientPath, b).value)
  {
    if |a| == 0 {
      assert a + b == b;
      var rb := YearRows(ls, client, clientFolderId, clientPath, b);
      if rb.Ok? {
        assert [] + rb.value == rb.value;
      }
    } else {
      assert (a + b)[0] == a[0];
      assert (a + b)[1..] == a[1..] + b;
      YearRowsAppend(ls, client, clientFolderId, clientPath, a[1..], b);
      var y := a[0];
      var yearPath := clientPath + "/" + y.name;
      if KeptYear(y) && yearPath in ls {
        var here := CategoryRows(client, clientFolderId, y.name, yearPath, ls[yearPath]);
        var ra := YearRows(ls, client, clientFolderId, clientPath, a[1..]);
        var rb := YearRows(ls, client, clientFolderId, clientPath, b);
        if ra.Ok? && rb.Ok? {
          assert here + (ra.value + rb.value) == (here + ra.value) + rb.value;
        }
      }
    }
  }

  /** The client rows of two listings one after the other: the first
      listing's failure if it fails, else the second's, else the first's rows
      followed by the second's. */
  lemma {:induction false} ClientRowsAppend(ls: Listing, clientsPath: string, a: seq<Item>, b: seq<Item>)
    ensures ClientRows(ls, clientsPath, a).Err? ==> ClientRows(ls, clientsPath, a + b) == ClientRows(ls, clientsPath, a)
    ensures ClientRows(ls, clientsPath, a).Ok? && ClientRows(ls, clientsPath, b).Err? ==>
      ClientRows(ls, clientsPath, a + b) == ClientRows(ls, clientsPath, b)
    ensures ClientRows(ls, clientsPath, a).Ok? && ClientRows(ls, clientsPath, b).Ok? ==>
      ClientRows(ls, clientsPath, a + b) == Ok(ClientRows(ls, clientsPath, a).value + ClientRows(ls, clientsPath, b).value)
  {
    if |a| == 0 {
      assert a + b == b;
      var rb := ClientRows(ls, clientsPath, b);
      if rb.Ok? {
        assert [] + rb.value == rb.value;
      }
    } else {
      assert (a + b)[0] == a[0];
      assert (a + b)[1..] == a[1..] + b;
      ClientRowsAppend(ls, clientsPath, a[1..], b);
      var c := a[0];
      var clientPath := clientsPath + "/" + c.name;
      if IsFolder(c) && clientPath in ls && YearRows(ls, c.name, c.id, clientPath, ls[clientPath]).Ok? {
        var here := YearRows(ls, c.name, c.id, clientPath, ls[clientPath]).value;
        var ra := ClientRows(ls, clientsPath, a[1..]);
        var rb := ClientRows(ls, clientsPath, b);
        if ra.Ok? && rb.Ok? {
          assert here + (ra.value + rb.value) == (here + ra.value) + rb.value;
        }
      }
    }
  }

  /** One year folder contributes its category rows, in order, when it is
      kept; anything else contributes nothing. */
  lemma YearRowsSingle(ls: Listing, client: string, clientFolderId: string, clientPath: string, y: Item)
    ensures !KeptYear(y) ==> YearRows(ls, client, clientFolderId, clientPath, [y]) == Ok([])
    ensures KeptYear(y) && clientPath + "/" + y.name !in ls ==>
      YearRows(ls, client, clientFolderId, clientPath, [y]) == Err(ListingFailed(clientPath + "/" + y.name))
    ensures KeptYear(y) && clientPath + "/" + y.name in ls ==>
      YearRows(ls, client, clientFolderId, clientPath, [y])
        == Ok(CategoryRows(client, clientFolderId, y.name, clientPath + "/" + y.name, ls[clientPath + "/" + y.name]))
  {
    assert [y][1..] == [];
    var yearPath := clientPath + "/" + y.name;
    if KeptYear(y) && yearPath in ls {
      var here := CategoryRows(client, clientFolderId, y.name, yearPath, ls[yearPath]);
      assert here + [] == here;
    }
  }

  /** One client folder contributes the rows of its year listing, in order;
      a plain file contributes nothing. */
  lemma ClientRowsSingle(ls: Listing, clientsPath: string, c: Item)
    ensures !IsFolder(c) ==> ClientRows(ls, clientsPath, [c]) == Ok([])
    ensures IsFolder(c) && clientsPath + "/" + c.name !in ls ==>
      ClientRows(ls, clientsPath, [c]) == Err(ListingFailed(clientsPath + "/" + c.name))
    ensures IsFolder(c) && clientsPath + "/" + c.name in ls ==>
      ClientRows(ls, clientsPath, [c]) == YearRows(ls, c.name, c.id, clientsPath + "/" + c.name, ls[clientsPath + "/" + c.name])
  {
    assert [c][1..] == [];
    var clientPath := clientsPath + "/" + c.name;
    if IsFolder(c) && clientPath in ls {
      var r := YearRows(ls, c.name, c.id, clientPath, ls[clientPath]);
      if r.Ok? {
        assert r.value + [] == r.value;
      }
    }
  }

  /** What every crawled row satisfies: a four-digit year, a known category,
      and the folder path built from the clients path and the triple. */
  predicate WellFormedRow(clientsPath: string, row: Row) {
    && IsYearName(row.year)
    && row.category in Categories
    && row.folderPath == clientsPath + "/" + row.client + "/" + row.year + "/" + row.category
  }

  lemma CategoryRowsWellFormed(clientsPath: string, client: string, clientFolderId: string, year: string, cats: seq<Item>)
    requires IsYearName(year)
    ensures forall row :: row in CategoryRows(client, clientFolderId, year, clientsPath + "/" + client + "/" + year, cats) ==>
              WellFormedRow(clientsPath, row) && row.client == client
  {
  }

  lemma ClientRowsWellFormed(ls: Listing, clientsPath: string, clients: seq<Item>)
    requires ClientRows(ls, clientsPath, clients).Ok?
    ensures forall row :: row in ClientRows(ls, clientsPath, clients).value ==> WellFormedRow(clientsPath, row)
  {
    forall row | row in ClientRows(ls, clientsPath, clients).value
      ensures WellFormedRow(clientsPath, row)
    {
      var c :| c in clients && IsFolder(c) && clientsPath + "/" + c.name in ls
                && var years := YearRows(ls, c.name, c.id, clientsPath + "/" + c.name, ls[clientsPath + "/" + c.name]);
                   years.Ok? && row in years.value;
      var clientPath := clientsPath + "/" + c.name;
      var y :| y in ls[clientPath] && KeptYear(y) && clientPath + "/" + y.name in ls
                && row in CategoryRows(c.name, c.id, y.name, clientPath + "/" + y.name, ls[clientPath + "/" + y.name]);
      CategoryRowsWellFormed(clientsPath, c.name, c.id, y.name, ls[clientPath + "/" + y.name]);
    }
  }

  /** `crawl_sharepoint_clients`: nothing when the Business or Clients folder
      is missing, an exception when any listing call raises, otherwise one
      well-formed row per surviving (client, year, category) triple. */
  function Crawl(ls: Listing): (r: Result<seq<Row>, SyncError>)
    ensures MainFolder !in ls ==> r == Err(ListingFailed(MainFolder))
    ensures LocateClients(ls).Err? ==> r == Err(LocateClients(ls).error)
    ensures LocateClients(ls) == Ok(None) ==> r == Ok([])
    ensures r.Ok? && LocateClients(ls).Ok? && LocateClients(ls).value.Some? ==>
      forall row :: row in r.value ==> WellFormedRow(LocateClients(ls).value.value, row)
  {
    match LocateClients(ls)
    case Err(e) => Err(e)
    case Ok(None) => Ok([])
    case Ok(Some(clientsPath)) =>
      if clientsPath !in ls then Err(ListingFailed(clientsPath))
      else
        var r := ClientRows(ls, clientsPath, ls[clientsPath]);
        if r.Ok? then ClientRowsWellFormed(ls, clientsPath, ls[clientsPath]); r else r
  }

  /** The client `c`, year `y` and category `k` survive every filter and
      `row` is the row the crawl builds for them. */
  ghost predicate TripleSurvives(ls: Listing, clientsPath: string, c: Item, y: Item, k: Item, row: Row) {
    && clientsPath in ls
    && c in ls[clientsPath] && IsFolder(c)
    && clientsPath + "/" + c.name in ls
    && y in ls[clientsPath + "/" + c.name] && KeptYear(y)
    && clientsPath + "/" + c.name + "/" + y.name in ls
    && k in ls[clientsPath + "/" + c.name + "/" + y.name] && KeptCategory(k)
    && row == Row(c.name, c.id, y.name, k.name,
                  clientsPath + "/" + c.name + "/" + y.name + "/" + k.name, k.id)
  }

  /** A row built from a (client, year, category) triple that survives every
      filter. */
  ghost predicate Surviving(ls: Listing, clientsPath: string, row: Row) {
    exists c, y, k :: TripleSurvives(ls, clientsPath, c, y, k, row)
  }

  lemma CrawlRowsSound(ls: Listing, clientsPath: string, row: Row)
    requires clientsPath in ls
    requires ClientRows(ls, clientsPath, ls[clientsPath]).Ok?
    requires row in ClientRows(ls, clientsPath, ls[clientsPath]).value
    ensures Surviving(ls, clientsPath, row)
  {
    var clients := ls[clientsPath];
    var c :| c in clients && IsFolder(c) && clientsPath + "/" + c.name in ls
              && var years := YearRows(ls, c.name, c.id, clientsPath + "/" + c.name, ls[clientsPath + "/" + c.name]);
                 years.Ok? && row in years.value;
    var clientPath := clientsPath + "/" + c.name;
    var y :| y in ls[clientPath] && KeptYear(y) && clientPath + "/" + y.name in ls
              && row in CategoryRows(c.name, c.id, y.name, clientPath + "/" + y.name, ls[clientPath + "/" + y.name]);
    var yearPath := clientPath + "/" + y.name;
    var k :| k in ls[yearPath] && KeptCategory(k)
              && row == Row(c.name, c.id, y.name, k.name, yearPath + "/" + k.name, k.id);
    assert TripleSurvives(ls, clientsPath, c, y, k, row);
  }

  lemma CrawlRowsComplete(ls: Listing, clientsPath: string, row: Row)
    requires clientsPath in ls
    requires ClientRows(ls, clientsPath, ls[clientsPath]).Ok?
    requires Surviving(ls, clientsPath, row)
    ensures row in ClientRows(ls, clientsPath, ls[clientsPath]).value
  {
    var c, y, k :| TripleSurvives(ls, clientsPath, c, y, k, row);
    var clientPath := clientsPath + "/" + c.name;
    var yearPath := clientPath + "/" + y.name;
    var cats := ls[yearPath];
    assert k in cats && KeptCategory(k) && row == Row(c.name, c.id, y.name, k.name, yearPath + "/" + k.name, k.id);
    assert row in CategoryRows(c.name, c.id, y.name, yearPath, cats);
    var years := YearRows(ls, c.name, c.id, clientPath, ls[clientPath]);
    assert years.Ok?;
    assert y in ls[clientPath] && KeptYear(y) && yearPath in ls;
    assert row in years.value;
    assert c in ls[clientsPath] && IsFolder(c) && clientPath in ls;
  }

  /** The crawl yields exactly the surviving triples: every row comes from a
      client folder, a four-digit year folder and a known category folder,
      and every such triple yields its row. */
  lemma CrawlRowsExactly(ls: Listing, clientsPath: string, row: Row)
    requires LocateClients(ls) == Ok(Some(clientsPath))
    requires Crawl(ls).Ok?
    ensures clientsPath in ls
    ensures row in Crawl(ls).value <==> Surviving(ls, clientsPath, row)
  {
    assert Crawl(ls) == ClientRows(ls, clientsPath, ls[clientsPath]);
    if row in Crawl(ls).value {
      CrawlRowsSound(ls, clientsPath, row);
    }
    if Surviving(ls, clientsPath, row) {
      CrawlRowsComplete(ls, clientsPath, row);
    }
  }

  // ---------------------------------------------------------------------------
  // Index entities
  // ---------------------------------------------------------------------------

  /** The properties every entity written by this job carries. */
  const EntityProperties: set<string> :=
    {"client_folder_id", "folder_id", "folder_path", "updated_utc", "source"}

  /** PartitionKey is the client's display name, RowKey `{year}_{category}`. */
  function EntityKey(row: Row): Key {
    Key(row.client, row.year + "_" + row.category)
  }

  function EntityOf(row: Row, now: string): (op: Op)
    ensures op.key == EntityKey(row)
    ensures op.fields.Keys == EntityProperties
    ensures op.fields["client_folder_id"] == row.clientFolderId && op.fields["folder_id"] == row.folderId
    ensures op.fields["folder_path"] == row.folderPath
    ensures op.fields["source"] == "sharepoint" && op.fields["updated_utc"] == now
  {
    Op(EntityKey(row), map[
      "client_folder_id" := row.clientFolderId,
      "folder_id" := row.folderId,
      "folder_path" := row.folderPath,
      "updated_utc" := now,
      "source" := "sharepoint"])
  }

  /** The writes of one run; `clock(i)` is the time of the i-th write. */
  function Entities(rows: seq<Row>, clock: nat -> string): (ops: seq<Op>)
    ensures |ops| == |rows|
    ensures forall i :: 0 <= i < |rows| ==> ops[i] == EntityOf(rows[i], clock(i))
  {
    seq(|rows|, i requires 0 <= i < |rows| => EntityOf(rows[i], clock(i)))
  }

  function RowKeys(rows: seq<Row>): set<Key> {
    set i | 0 <= i < |rows| :: EntityKey(rows[i])
  }

  /** No later row writes the same entity as `rows[i]`. */
  predicate IsLastFor(rows: seq<Row>, i: int) {
    0 <= i < |rows| && forall j :: i < j < |rows| ==> EntityKey(rows[j]) != EntityKey(rows[i])
  }

  lemma UpsertLastWins(t: Table, rows: seq<Row>, clock: nat -> string)
    ensures KeysOf(Entities(rows, clock)) == RowKeys(rows)
    ensures forall i :: IsLastFor(rows, i) ==>
      MergeAll(t, Entities(rows, clock))[EntityKey(rows[i])] == Current(t, EntityKey(rows[i])) + EntityOf(rows[i], clock(i)).fields
  {
    var ops := Entities(rows, clock);
    forall k | k in RowKeys(rows) ensures k in KeysOf(ops) {
      var i :| 0 <= i < |rows| && EntityKey(rows[i]) == k;
      assert ops[i].key == k;
    }
    forall i | IsLastFor(rows, i)
      ensures MergeAll(t, ops)[EntityKey(rows[i])] == Current(t, EntityKey(rows[i])) + EntityOf(rows[i], clock(i)).fields
    {
      assert ops[i] == EntityOf(rows[i], clock(i));
      assert forall j :: i < j < |ops| ==> ops[j].key != ops[i].key;
      assert forall j :: 0 <= j < |ops| ==> ops[j].fields.Keys == EntityProperties;
      LastWriteWins(t, ops, i, EntityProperties);
    }
  }

  lemma UpsertSource(t: Table, rows: seq<Row>, clock: nat -> string, k: Key)
    requires k in RowKeys(rows)
    ensures var r := MergeAll(t, Entities(rows, clock));
            k in r && "source" in r[k] && r[k]["source"] == "sharepoint"
  {
    var ops := Entities(rows, clock);
    var i := LastIndexFor(rows, k);
    assert ops[i].key == k;
    assert k in KeysOf(ops);
    var f := ops[i].fields;
    assert "source" in f && f["source"] == "sharepoint";
    assert forall j :: 0 <= j < |ops| && ops[j].key == ops[i].key ==> ops[j].fields.Keys == EntityProperties;
    LastWriteWins(t, ops, i, EntityProperties);
  }

  /** `upsert_sharepoint_index`: one merge-upsert per row. Entities of other
      keys are untouched and none is removed; each written entity keeps its
      other properties and takes all five properties of the last row for its
      key, with source "sharepoint". */
  function UpsertIndex(t: Table, rows: seq<Row>, clock: nat -> string): (r: Table)
    ensures r.Keys == t.Keys + RowKeys(rows)
    ensures forall k :: k in t && k !in RowKeys(rows) ==> r[k] == t[k]
    ensures forall i :: IsLastFor(rows, i) ==>
      r[EntityKey(rows[i])] == Current(t, EntityKey(rows[i])) + EntityOf(rows[i], clock(i)).fields
    ensures forall k :: k in RowKeys(rows) ==> "source" in r[k] && r[k]["source"] == "sharepoint"
  {
    UpsertLastWins(t, rows, clock);
    var r := MergeAll(t, Entities(rows, clock));
    assert forall k :: k in RowKeys(rows) ==> "source" in r[k] && r[k]["source"] == "sharepoint" by {
      forall k | k in RowKeys(rows) ensures "source" in r[k] && r[k]["source"] == "sharepoint" {
        UpsertSource(t, rows, clock, k);
      }
    }
    r
  }

  /** The last row that writes `k`. */
  function LastIndexFor(rows: seq<Row>, k: Key): (i: nat)
    requires k in RowKeys(rows)
    ensures IsLastFor(rows, i) && EntityKey(rows[i]) == k
  {
    if EntityKey(rows[|rows| - 1]) == k then |rows| - 1
    else
      var init := rows[..|rows| - 1];
      assert k in RowKeys(init) by {
        var j :| 0 <= j < |rows| && EntityKey(rows[j]) == k;
        assert init[j] == rows[j];
      }
      LastIndexFor(init, k)
  }

  /** Two writes of the same row differ only in their timestamp. */
  lemma RestampEntity(row: Row, a: string, b: string)
    ensures EntityOf(row, b).fields == EntityOf(row, a).fields["updated_utc" := b]
  {
  }

  lemma RestampLookup(base: Fields, f: Fields, stamp: string, n: string)
    requires n in base + f && n != "updated_utc"
    ensures n in base + f["updated_utc" := stamp]
    ensures (base + f["updated_utc" := stamp])[n] == (base + f)[n]
  {
  }

  /** Running the job again over the same rows changes nothing but the
      `updated_utc` timestamps: the table is as if only the second run had
      happened, and every other property keeps its value. */
  lemma RerunChangesOnlyTimestamps(t: Table, rows: seq<Row>, clock1: nat -> string, clock2: nat -> string)
    ensures UpsertIndex(UpsertIndex(t, rows, clock1), rows, clock2) == UpsertIndex(t, rows, clock2)
    ensures var once := UpsertIndex(t, rows, clock1);
            var twice := UpsertIndex(once, rows, clock2);
            && once.Keys == twice.Keys
            && forall k, n :: k in once && n in once[k] && n != "updated_utc" ==> n in twice[k] && twice[k][n] == once[k][n]
  {
    var ops1 := Entities(rows, clock1);
    var ops2 := Entities(rows, clock2);
    RerunOverrides(t, ops1, ops2);
    var once := UpsertIndex(t, rows, clock1);
    var twice := UpsertIndex(once, rows, clock2);
    var direct := UpsertIndex(t, rows, clock2);
    assert twice == direct;
    forall k, n | k in once && n in once[k] && n != "updated_utc"
      ensures n in direct[k] && direct[k][n] == once[k][n]
    {
      if k in RowKeys(rows) {
        var i := LastIndexFor(rows, k);
        var f1 := EntityOf(rows[i], clock1(i)).fields;
        RestampEntity(rows[i], clock1(i), clock2(i));
        assert once[k] == Current(t, k) + f1;
        assert direct[k] == Current(t, k) + f1["updated_utc" := clock2(i)];
        RestampLookup(Current(t, k), f1, clock2(i), n);
      }
    }
  }

  /** Re-upserting the same rows at the same times is a no-op. */
  lemma UpsertIdempotent(t: Table, rows: seq<Row>, clock: nat -> string)
    ensures UpsertIndex(UpsertIndex(t, rows, clock), rows, clock) == UpsertIndex(t, rows, clock)
  {
    RerunChangesOnlyTimestamps(t, rows, clock, clock);
  }

  // ---------------------------------------------------------------------------
  // Client roster
  // ---------------------------------------------------------------------------

  /** One item of the payload sent to the client directory. */
  datatype RosterItem = RosterItem(sharepointId: string, nom: string)

  /** `rows[i]` is the first row naming its client. */
  predicate FirstOccurrence(rows: seq<Row>, i: int) {
    0 <= i < |rows| && forall j :: 0 <= j < i ==> rows[j].client != rows[i].client
  }

  /** No client name appears twice in the payload. */
  predicate NamesDistinct(items: seq<RosterItem>) {
    forall j1, j2 :: 0 <= j1 < j2 < |items| ==> items[j1].nom != items[j2].nom
  }

  /** Every client named by a row appears in the payload. */
  predicate CoversClients(items: seq<RosterItem>, rows: seq<Row>) {
    forall i :: 0 <= i < |rows| ==> rows[i].client in NamesOf(items)
  }

  /** Item `j` was taken from row `origin[j]`, a first occurrence before `i`. */
  ghost predicate ItemsFromFirsts(rows: seq<Row>, i: int, items: seq<RosterItem>, origin: seq<nat>) {
    && |origin| == |items|
    && forall j :: 0 <= j < |items| ==>
         origin[j] < i && FirstOccurrence(rows, origin[j])
         && items[j] == RosterItem(rows[origin[j]].clientFolderId, rows[origin[j]].client)
  }

  ghost predicate Increasing(origin: seq<nat>) {
    forall j1, j2 :: 0 <= j1 < j2 < |origin| ==> origin[j1] < origin[j2]
  }

  /** Every first occurrence before `i` was taken. */
  ghost predicate FirstsTaken(rows: seq<Row>, i: int, origin: seq<nat>) {
    forall i' :: 0 <= i' < i && FirstOccurrence(rows, i') ==> i' in origin
  }

  /** Every name of `rows[..i]` is in `seen`. */
  ghost predicate SeenCovers(rows: seq<Row>, i: int, seen: set<string>) {
    forall i' :: 0 <= i' < i && i' < |rows| ==> rows[i'].client in seen
  }

  /** After scanning `rows[..i]`: `items` holds one entry per client name
      met so far, taken from that name's first row (`origin[j]`), in order of
      first appearance, and `seen` is the set of names met so far. */
  ghost predicate RosterSoFar(rows: seq<Row>, i: int, items: seq<RosterItem>, origin: seq<nat>, seen: set<string>) {
    && 0 <= i <= |rows|
    && ItemsFromFirsts(rows, i, items, origin)
    && Increasing(origin)
    && FirstsTaken(rows, i, origin)
    && seen == NamesOf(items)
    && SeenCovers(rows, i, seen)
  }

  /** The client names in a payload. */
  function NamesOf(items: seq<RosterItem>): set<string> {
    set j | 0 <= j < |items| :: items[j].nom
  }

  lemma NamesOfAppend(items: seq<RosterItem>, it: RosterItem)
    ensures NamesOf(items + [it]) == NamesOf(items) + {it.nom}
  {
    var items' := items + [it];
    assert items'[|items|] == it;
    forall n | n in NamesOf(items) ensures n in NamesOf(items') {
      var j :| 0 <= j < |items| && items[j].nom == n;
      assert items'[j].nom == n;
    }
  }

  lemma AddItemsFromFirsts(rows: seq<Row>, i: nat, items: seq<RosterItem>, origin: seq<nat>)
    requires ItemsFromFirsts(rows, i, items, origin) && FirstOccurrence(rows, i)
    ensures ItemsFromFirsts(rows, i + 1, items + [RosterItem(rows[i].clientFolderId, rows[i].client)], origin + [i])
  {
    var items' := items + [RosterItem(rows[i].clientFolderId, rows[i].client)];
    var origin' := origin + [i];
    forall j | 0 <= j < |items'|
      ensures origin'[j] < i + 1 && FirstOccurrence(rows, origin'[j])
      ensures items'[j] == RosterItem(rows[origin'[j]].clientFolderId, rows[origin'[j]].client)
    {
      if j < |items| {
        assert items'[j] == items[j] && origin'[j] == origin[j];
      }
    }
  }

  lemma AddIncreasing(origin: seq<nat>, i: nat)
    requires Increasing(origin) && forall j :: 0 <= j < |origin| ==> origin[j] < i
    ensures Increasing(origin + [i])
  {
    var origin' := origin + [i];
    forall j1, j2 | 0 <= j1 < j2 < |origin'| ensures origin'[j1] < origin'[j2] {
      assert origin'[j1] == origin[j1];
    }
  }

  lemma AddFirstsTaken(rows: seq<Row>, i: nat, origin: seq<nat>)
    requires FirstsTaken(rows, i, origin)
    ensures FirstsTaken(rows, i + 1, origin + [i])
  {
    var origin' := origin + [i];
    forall i' | 0 <= i' < i + 1 && FirstOccurrence(rows, i') ensures i' in origin' {
      if i' < i {
        assert i' in origin;
      } else {
        assert origin'[|origin|] == i;
      }
    }
  }

  /** A row whose client has not been met yet adds that client. */
  lemma RosterAdd(rows: seq<Row>, i: nat, items: seq<RosterItem>, origin: seq<nat>, seen: set<string>)
    requires RosterSoFar(rows, i, items, origin, seen) && i < |rows| && rows[i].client !in seen
    ensures RosterSoFar(rows, i + 1, items + [RosterItem(rows[i].clientFolderId, rows[i].client)],
                        origin + [i], seen + {rows[i].client})
  {
    var it := RosterItem(rows[i].clientFolderId, rows[i].client);
    assert FirstOccurrence(rows, i) by {
      forall j | 0 <= j < i ensures rows[j].client != rows[i].client {
        assert rows[j].client in seen;
      }
    }
    AddItemsFromFirsts(rows, i, items, origin);
    AddIncreasing(origin, i);
    AddFirstsTaken(rows, i, origin);
    NamesOfAppend(items, it);
  }

  /** A row whose client has been met already changes nothing. */
  lemma RosterSkip(rows: seq<Row>, i: nat, items: seq<RosterItem>, origin: seq<nat>, seen: set<string>)
    requires RosterSoFar(rows, i, items, origin, seen) && i < |rows| && rows[i].client in seen
    ensures RosterSoFar(rows, i + 1, items, origin, seen)
  {
    assert !FirstOccurrence(rows, i) by {
      var j :| 0 <= j < |items| && items[j].nom == rows[i].client;
      assert rows[origin[j]].client == rows[i].client && origin[j] < i;
    }
  }

  /** Once every row is scanned, the names are distinct and cover all rows. */
  lemma RosterDone(rows: seq<Row>, items: seq<RosterItem>, origin: seq<nat>, seen: set<string>)
    requires RosterSoFar(rows, |rows|, items, origin, seen)
    ensures |origin| == |items|
    ensures forall j :: 0 <= j < |items| ==>
      FirstOccurrence(rows, origin[j]) && items[j] == RosterItem(rows[origin[j]].clientFolderId, rows[origin[j]].client)
    ensures forall j1, j2 :: 0 <= j1 < j2 < |items| ==> origin[j1] < origin[j2]
    ensures forall i :: FirstOccurrence(rows, i) ==> i in origin
    ensures NamesDistinct(items)
    ensures CoversClients(items, rows)
  {
    forall j1, j2 | 0 <= j1 < j2 < |items| ensures items[j1].nom != items[j2].nom {
      assert FirstOccurrence(rows, origin[j2]);
    }
  }

  /** `send_to_supabase`'s payload: one item per distinct client name, in
      order of first appearance, carrying the folder id of the first row that
      names that client. `origin[j]` is the row item `j` was taken from. */
  method ClientRoster(rows: seq<Row>) returns (items: seq<RosterItem>, ghost origin: seq<nat>)
    ensures |origin| == |items|
    ensures forall j :: 0 <= j < |items| ==>
      FirstOccurrence(rows, origin[j]) && items[j] == RosterItem(rows[origin[j]].clientFolderId, rows[origin[j]].client)
    ensures forall j1, j2 :: 0 <= j1 < j2 < |items| ==> origin[j1] < origin[j2]
    ensures forall i :: FirstOccurrence(rows, i) ==> i in origin
    ensures NamesDistinct(items)
    ensures CoversClients(items, rows)
  {
    var seen: set<string> := {};
    items := [];
    origin := [];
    for i := 0 to |rows|
      invariant RosterSoFar(rows, i, items, origin, seen)
    {
      var name := rows[i].client;
      if name !in seen {
        RosterAdd(rows, i, items, origin, seen);
        seen := seen + {name};
        items := items + [RosterItem(rows[i].clientFolderId, name)];
        origin := origin + [i];
      } else {
        RosterSkip(rows, i, items, origin, seen);
      }
    }
    RosterDone(rows, items, origin, seen);
  }

  // ---------------------------------------------------------------------------
  // The job
  // ---------------------------------------------------------------------------

  /** What one run of the job leaves behind: how it ended (the number of
      indexed folders, or the exception it raised), the index, and the roster
      it sent downstream, if it sent one. */
  datatype SyncReport = SyncReport(outcome: Result<nat, SyncError>, table: Table, rosterSent: Option<seq<RosterItem>>)

  /** `main`: crawl, upsert, then publish the roster when something was
      crawled. Crawl and upsert failures end the run with an exception (the
      writes already done stay); a failing roster publication is only logged.
      `failingWrite` is the index of the first table write that raises, if
      any. Whether the directory call then raises is irrelevant: the report
      records the payload that was posted. */
  method RunSync(ls: Listing, t: Table, clock: nat -> string, failingWrite: Option<nat>)
    returns (report: SyncReport)
    ensures Crawl(ls).Err? ==> report == SyncReport(Err(Crawl(ls).error), t, None)
    ensures Crawl(ls).Ok? && failingWrite.Some? && failingWrite.value < |Crawl(ls).value| ==>
      var n := failingWrite.value;
      report == SyncReport(Err(UpsertFailed(n)), UpsertIndex(t, Crawl(ls).value[..n], clock), None)
    ensures Crawl(ls).Ok? && (failingWrite.None? || failingWrite.value >= |Crawl(ls).value|) ==>
      && report.outcome == Ok(|Crawl(ls).value|)
      && report.table == UpsertIndex(t, Crawl(ls).value, clock)
      && (report.rosterSent.Some? <==> |Crawl(ls).value| > 0)
    ensures report.rosterSent.Some? ==>
      && Crawl(ls).Ok?
      && NamesDistinct(report.rosterSent.value)
      && CoversClients(report.rosterSent.value, Crawl(ls).value)
  {
    var crawled := Crawl(ls);
    if crawled.Err? {
      return SyncReport(Err(crawled.error), t, None);
    }
    var folders := crawled.value;
    if failingWrite.Some? && failingWrite.value < |folders| {
      var n := failingWrite.value;
      return SyncReport(Err(UpsertFailed(n)), UpsertIndex(t, folders[..n], clock), None);
    }
    var table := UpsertIndex(t, folders, clock);
    var sent: Option<seq<RosterItem>> := None;
    if |folders| > 0 {
      var items, origin := ClientRoster(folders);
      // A failing post is logged and does not change the outcome.
      sent := Some(items);
    }
    report := SyncReport(Ok(|folders|), table, sent);
  }
}
