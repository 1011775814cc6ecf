/** The OneDrive synchronisation job: it finds the clients folder among the
    drive root's children, walks `<clients>/<client>/<year>/<category>` by
    item id, keeps the children whose names look like years and categories
    (by name only: files and folders alike), and merge-upserts one index
    entity per kept triple. */
module OneDriveSync {
  import opened Common
  import opened Drive
  import opened TableStore
  import SharePointSync

  /** The id under which the drive root is listed. */
  const RootId: string := "root"

  /** The category folders this job indexes. */
  const Categories: set<string> := {
    "00 - A traiter", "01 - Créanciers", "02 - Débiteurs", "03 - Banque",
    "04 - RH", "05 - Cockpit", "06 - Comptabilité Générale", "07 - Stratégie",
    "08 - TVA", "09 - Bouclement"}

  /** One indexed folder. Unlike the SharePoint job, no path is recorded. */
  datatype Row = Row(client: string, clientFolderId: string, year: string, category: string, folderId: string)

  // ---------------------------------------------------------------------------
  // The clients folder
  // ---------------------------------------------------------------------------

  /** A root child whose stripped name starts with "01" and whose name
      contains "Client" (case-sensitively, and whether or not it is a folder). */
  predicate IsClientsRoot(it: Item) {
    StartsWith(Strip(it.name), "01") && Contains(it.name, "Client")
  }

  /** `next(...)` over the root children: the id of the first candidate in
      listing order, nothing when there is none. */
  function FindClientsRoot(items: seq<Item>): (r: Option<string>)
    ensures r.None? <==> forall i :: 0 <= i < |items| ==> !IsClientsRoot(items[i])
    ensures r.Some? ==>
      exists i :: 0 <= i < |items| && IsClientsRoot(items[i]) && r.value == items[i].id
                  && forall j :: 0 <= j < i ==> !IsClientsRoot(items[j])
  {
    match FirstWhere(items, IsClientsRoot)
    case None => None
    case Some(i) => Some(items[i].id)
  }

  // ---------------------------------------------------------------------------
  // The three-level walk
  // ---------------------------------------------------------------------------

  predicate KeptCategory(it: Item) {
    it.name in Categories
  }

  predicate KeptYear(it: Item) {
    IsYearName(it.name)
  }

  function CategoryRows(client: string, clientFolderId: string, year: string, cats: seq<Item>): (rows: seq<Row>)
    ensures forall row :: row in rows <==>
      exists k :: k in cats && KeptCategory(k) && row == Row(client, clientFolderId, year, k.name, k.id)
  {
    if |cats| == 0 then []
    else
      var k := cats[0];
      var rest := CategoryRows(client, clientFolderId, year, cats[1..]);
      assert forall x :: x in cats <==> x == k || x in cats[1..];
      if KeptCategory(k) then [Row(client, clientFolderId, year, k.name, k.id)] + rest else rest
  }

  /** Every kept year child of a client can itself be listed. */
  predicate YearsListable(ls: Listing, years: seq<Item>) {
    forall y :: y in years && KeptYear(y) ==> y.id in ls
  }

  function YearRows(ls: Listing, client: string, clientFolderId: string, years: seq<Item>): (r: Result<seq<Row>, SyncError>)
    ensures r.Ok? <==> YearsListable(ls, years)
    ensures r.Ok? ==> forall row :: row in r.value <==>
      exists y :: y in years && KeptYear(y) && y.id in ls
                  && row in CategoryRows(client, clientFolderId, y.name, ls[y.id])
  {
    if |years| == 0 then Ok([])
    else
      var y := years[0];
      assert forall x :: x in years <==> x == y || x in years[1..];
      if !KeptYear(y) then YearRows(ls, client, clientFolderId, years[1..])
      else if y.id !in ls then Err(ListingFailed(y.id))
      else
        var here := CategoryRows(client, clientFolderId, y.name, ls[y.id]);
        match YearRows(ls, client, clientFolderId, years[1..])
        case Err(e) => Err(e)
        case Ok(rest) => Ok(here + rest)
  }

  /** Every child of the clients folder, and every kept year below it, can be
      listed. */
  predicate ClientsListable(ls: Listing, clients: seq<Item>) {
    forall c :: c in clients ==> c.id in ls && YearsListable(ls, ls[c.id])
  }

  function ClientRows(ls: Listing, clients: seq<Item>): (r: Result<seq<Row>, SyncError>)
    ensures r.Ok? <==> ClientsListable(ls, clients)
    ensures r.Ok? ==> forall row :: row in r.value <==>
      exists c :: c in clients && c.id in ls
                  && var years := YearRows(ls, c.name, c.id, ls[c.id]);
                     years.Ok? && row in years.value
  {
    if |clients| == 0 then Ok([])
    else
      var c := clients[0];
      assert forall x :: x in clients <==> x == c || x in clients[1..];
      if c.id !in ls then Err(ListingFailed(c.id))
      else match YearRows(ls, c.name, c.id, ls[c.id])
        case Err(e) => Err(e)
        case Ok(here) =>
          match ClientRows(ls, clients[1..])
          case Err(e) => Err(e)
          case Ok(rest) => Ok(here + rest)
  }

  // ---------------------------------------------------------------------------
  // Order: the crawl is the nested-loop concatenation
  // ---------------------------------------------------------------------------

  /** The category rows of two listings one after the other are those of the
      first followed by those of the second. */
  lemma {:induction false} CategoryRowsAppend(client: string, clientFolderId: string, year: string,
                                              a: seq<Item>, b: seq<Item>)
    ensures CategoryRows(client, clientFolderId, year, a + b)
         == CategoryRows(client, clientFolderId, year, a) + CategoryRows(client, clientFolderId, year, b)
  {
    if |a| == 0 {
      assert a + b == b;
    } else {
      assert (a + b)[0] == a[0];
      assert (a + b)[1..] == a[1..] + b;
      CategoryRowsAppend(client, clientFolderId, year, a[1..], b);
    }
  }

  /** The year rows of two listings one after the other: the first listing's
      failure if it fails, else the second's, else the first's rows followed
      by the second's. */
  lemma {:induction false} YearRowsAppend(ls: Listing, client: string, clientFolderId: string, a: seq<Item>, b: seq<Item>)
    ensures YearRows(ls, client, clientFolderId, a).Err? ==>
      YearRows(ls, client, clientFolderId, a + b) == YearRows(ls, client, clientFolderId, a)
    ensures YearRows(ls, client, clientFolderId, a).Ok? && YearRows(ls, client, clientFolderId, b).Err? ==>
      YearRows(ls, client, clientFolderId, a + b) == YearRows(ls, client, clientFolderId, b)
    ensures YearRows(ls, client, clientFolderId, a).Ok? && YearRows(ls, client, clientFolderId, b).Ok? ==>
      YearRows(ls, client, clientFolderId, a + b)
        == Ok(YearRows(ls, client, clientFolderId, a).value + YearRows(ls, client, clientFolderId, b).value)
  {
    if |a| == 0 {
      assert a + b == b;
      var rb := YearRows(ls, client, clientFolderId, b);
      if rb.Ok? {
        assert [] + rb.value == rb.value;
      }
    } else {
      assert (a + b)[0] == a[0];
      assert (a + b)[1..] == a[1..] + b;
      YearRowsAppend(ls, client, clientFolderId, a[1..], b);
      var y := a[0];
      if KeptYear(y) && y.id in ls {
        var here := CategoryRows(client, clientFolderId, y.name, ls[y.id]);
        var ra := YearRows(ls, client, clientFolderId, a[1..]);
        var rb := YearRows(ls, client, clientFolderId, b);
        if ra.Ok? && rb.Ok? {
          assert here + (ra.value + rb.value) == (here + ra.value) + rb.value;
        }
      }
    }
  }

  /** The client rows of two listings one after the other: the first
      listing's failure if it fails, else the second's, else the first's rows
      followed by the second's. */
  lemma {:induction false} ClientRowsAppend(ls: Listing, a: seq<Item>, b: seq<Item>)
    ensures ClientRows(ls, a).Err? ==> ClientRows(ls, a + b) == ClientRows(ls, a)
    ensures ClientRows(ls, a).Ok? && ClientRows(ls, b).Err? ==> ClientRows(ls, a + b) == ClientRows(ls, b)
    ensures ClientRows(ls, a).Ok? && ClientRows(ls, b).Ok? ==>
      ClientRows(ls, a + b) == Ok(ClientRows(ls, a).value + ClientRows(ls, b).value)
  {
    if |a| == 0 {
      assert a + b == b;
      var rb := ClientRows(ls, b);
      if rb.Ok? {
        assert [] + rb.value == rb.value;
      }
    } else {
      assert (a + b)[0] == a[0];
      assert (a + b)[1..] == a[1..] + b;
      ClientRowsAppend(ls, a[1..], b);
      var c := a[0];
      if c.id in ls && YearRows(ls, c.name, c.id, ls[c.id]).Ok? {
        var here := YearRows(ls, c.name, c.id, ls[c.id]).value;
        var ra := ClientRows(ls, a[1..]);
        var rb := ClientRows(ls, b);
        if ra.Ok? && rb.Ok? {
          assert here + (ra.value + rb.value) == (here + ra.value) + rb.value;
        }
      }
    }
  }

  /** One year child contributes its category rows, in order, when its name
      is kept; anything else contributes nothing. */
  lemma YearRowsSingle(ls: Listing, client: string, clientFolderId: string, y: Item)
    ensures !KeptYear(y) ==> YearRows(ls, client, clientFolderId, [y]) == Ok([])
    ensures KeptYear(y) && y.id !in ls ==> YearRows(ls, client, clientFolderId, [y]) == Err(ListingFailed(y.id))
    ensures KeptYear(y) && y.id in ls ==>
      YearRows(ls, client, clientFolderId, [y]) == Ok(CategoryRows(client, clientFolderId, y.name, ls[y.id]))
  {
    assert [y][1..] == [];
    if KeptYear(y) && y.id in ls {
      var here := CategoryRows(client, clientFolderId, y.name, ls[y.id]);
      assert here + [] == here;
    }
  }

  /** One child of the clients folder contributes the rows of its year
      listing, in order. */
  lemma ClientRowsSingle(ls: Listing, c: Item)
    ensures c.id !in ls ==> ClientRows(ls, [c]) == Err(ListingFailed(c.id))
    ensures c.id in ls ==> ClientRows(ls, [c]) == YearRows(ls, c.name, c.id, ls[c.id])
  {
    assert [c][1..] == [];
    if c.id in ls {
      var r := YearRows(ls, c.name, c.id, ls[c.id]);
      if r.Ok? {
        assert r.value + [] == r.value;
      }
    }
  }

  /** `crawl_drive`, collected into a list by `main`: an exception when the
      root cannot be listed, when no clients folder is found or when any
      later listing raises; otherwise the rows of every kept triple. */
  function Crawl(ls: Listing): (r: Result<seq<Row>, SyncError>)
    ensures RootId !in ls ==> r == Err(ListingFailed(RootId))
    ensures RootId in ls && FindClientsRoot(ls[RootId]).None? ==> r == Err(NoClientsRoot)
    ensures r.Ok? ==> forall row :: row in r.value ==> IsYearName(row.year) && row.category in Categories
  {
    if RootId !in ls then Err(ListingFailed(RootId))
    else match FindClientsRoot(ls[RootId])
      case None => Err(NoClientsRoot)
      case Some(clientsId) =>
        if clientsId !in ls then Err(ListingFailed(clientsId))
        else ClientRows(ls, ls[clientsId])
  }

  /** The client `c`, year `y` and category `k` pass every name filter below
      the clients folder `clientsId`, and `row` is the row built for them. */
  ghost predicate TripleSurvives(ls: Listing, clientsId: string, c: Item, y: Item, k: Item, row: Row) {
    && clientsId in ls
    && c in ls[clientsId] && c.id in ls
    && y in ls[c.id] && KeptYear(y) && y.id in ls
    && k in ls[y.id] && KeptCategory(k)
    && row == Row(c.name, c.id, y.name, k.name, k.id)
  }

  ghost predicate Surviving(ls: Listing, clientsId: string, row: Row) {
    exists c, y, k :: TripleSurvives(ls, clientsId, c, y, k, row)
  }

  lemma CrawlRowsSound(ls: Listing, clientsId: string, row: Row)
    requires clientsId in ls
    requires ClientRows(ls, ls[clientsId]).Ok?
    requires row in ClientRows(ls, ls[clientsId]).value
    ensures Surviving(ls, clientsId, row)
  {
    var c :| c in ls[clientsId] && c.id in ls
              && var years := YearRows(ls, c.name, c.id, ls[c.id]);
                 years.Ok? && row in years.value;
    var y :| y in ls[c.id] && KeptYear(y) && y.id in ls
              && row in CategoryRows(c.name, c.id, y.name, ls[y.id]);
    var k :| k in ls[y.id] && KeptCategory(k) && row == Row(c.name, c.id, y.name, k.name, k.id);
    assert TripleSurvives(ls, clientsId, c, y, k, row);
  }

  lemma CrawlRowsComplete(ls: Listing, clientsId: string, row: Row)
    requires clientsId in ls
    requires ClientRows(ls, ls[clientsId]).Ok?
    requires Surviving(ls, clientsId, row)
    ensures row in ClientRows(ls, ls[clientsId]).value
  {
    var c, y, k :| TripleSurvives(ls, clientsId, c, y, k, row);
    assert row in CategoryRows(c.name, c.id, y.name, ls[y.id]);
    var years := YearRows(ls, c.name, c.id, ls[c.id]);
    assert years.Ok?;
    assert row in years.value;
    assert c in ls[clientsId] && c.id in ls;
  }

  /** The crawl yields exactly the triples that pass the name filters below
      the first clients candidate. */
  lemma CrawlRowsExactly(ls: Listing, row: Row)
    requires RootId in ls && FindClientsRoot(ls[RootId]).Some?
    requires Crawl(ls).Ok?
    ensures var clientsId := FindClientsRoot(ls[RootId]).value;
            clientsId in ls && (row in Crawl(ls).value <==> Surviving(ls, clientsId, row))
  {
    var clientsId := FindClientsRoot(ls[RootId]).value;
    assert Crawl(ls) == ClientRows(ls, ls[clientsId]);
    if row in Crawl(ls).value {
      CrawlRowsSound(ls, clientsId, row);
    }
    if Surviving(ls, clientsId, row) {
      CrawlRowsComplete(ls, clientsId, row);
    }
  }

  // ---------------------------------------------------------------------------
  // Names only: the folder facet plays no part
  // ---------------------------------------------------------------------------

  /** Two listings of the same names and ids in the same order, whatever
      their folder facets. */
  predicate SameNames(a: seq<Item>, b: seq<Item>) {
    |a| == |b| && forall i :: 0 <= i < |a| ==> a[i].name == b[i].name && a[i].id == b[i].id
  }

  /** Two drives that differ at most in which items are folders. */
  predicate SameDrive(ls1: Listing, ls2: Listing) {
    ls1.Keys == ls2.Keys && forall x :: x in ls1 ==> SameNames(ls1[x], ls2[x])
  }

  lemma FindClientsRootNamesOnly(a: seq<Item>, b: seq<Item>)
    requires SameNames(a, b)
    ensures FindClientsRoot(a) == FindClientsRoot(b)
  {
    FirstWhereAgree(a, b, IsClientsRoot, IsClientsRoot);
  }

  lemma {:induction false} CategoryRowsNamesOnly(client: string, clientFolderId: string, year: string, a: seq<Item>, b: seq<Item>)
    requires SameNames(a, b)
    ensures CategoryRows(client, clientFolderId, year, a) == CategoryRows(client, clientFolderId, year, b)
  {
    if |a| > 0 {
      CategoryRowsNamesOnly(client, clientFolderId, year, a[1..], b[1..]);
    }
  }

  lemma {:induction false} YearRowsNamesOnly(ls1: Listing, ls2: Listing, client: string, clientFolderId: string,
                                             a: seq<Item>, b: seq<Item>)
    requires SameDrive(ls1, ls2) && SameNames(a, b)
    ensures YearRows(ls1, client, clientFolderId, a) == YearRows(ls2, client, clientFolderId, b)
  {
    if |a| > 0 {
      YearRowsNamesOnly(ls1, ls2, client, clientFolderId, a[1..], b[1..]);
      var y := a[0];
      if KeptYear(y) && y.id in ls1 {
        CategoryRowsNamesOnly(client, clientFolderId, y.name, ls1[y.id], ls2[y.id]);
      }
    }
  }

  lemma {:induction false} ClientRowsNamesOnly(ls1: Listing, ls2: Listing, a: seq<Item>, b: seq<Item>)
    requires SameDrive(ls1, ls2) && SameNames(a, b)
    ensures ClientRows(ls1, a) == ClientRows(ls2, b)
  {
    if |a| > 0 {
      ClientRowsNamesOnly(ls1, ls2, a[1..], b[1..]);
      var c := a[0];
      if c.id in ls1 {
        YearRowsNamesOnly(ls1, ls2, c.name, c.id, ls1[c.id], ls2[c.id]);
      }
    }
  }

  /** Files and folders are treated alike at every level: a drive in which
      some folders are replaced by files of the same name and id is crawled
      to the same result. */
  lemma CrawlNamesOnly(ls1: Listing, ls2: Listing)
    requires SameDrive(ls1, ls2)
    ensures Crawl(ls1) == Crawl(ls2)
  {
    if RootId in ls1 {
      FindClientsRootNamesOnly(ls1[RootId], ls2[RootId]);
      var found := FindClientsRoot(ls1[RootId]);
      if found.Some? && found.value in ls1 {
        ClientRowsNamesOnly(ls1, ls2, ls1[found.value], ls2[found.value]);
      }
    }
  }

  // ---------------------------------------------------------------------------
  // Index entities
  // ---------------------------------------------------------------------------

  /** The properties every entity written by this job carries. */
  const EntityProperties: set<string> := {"client_folder_id", "folder_id", "updated_utc"}

  /** PartitionKey is the client's display name, RowKey `{year}#{category}`. */
  function EntityKey(row: Row): Key {
    Key(row.client, row.year + "#" + row.category)
  }

  function EntityOf(row: Row, now: string): (op: Op)
    ensures op.key == EntityKey(row)
    ensures op.fields.Keys == EntityProperties
    ensures op.fields["client_folder_id"] == row.clientFolderId && op.fields["folder_id"] == row.folderId
    ensures op.fields["updated_utc"] == now
  {
    Op(EntityKey(row), map[
      "client_folder_id" := row.clientFolderId,
      "folder_id" := row.folderId,
      "updated_utc" := now])
  }

  function Entities(rows: seq<Row>, clock: nat -> string): (ops: seq<Op>)
    ensures |ops| == |rows|
    ensures forall i :: 0 <= i < |rows| ==> ops[i] == EntityOf(rows[i], clock(i))
  {
    seq(|rows|, i requires 0 <= i < |rows| => EntityOf(rows[i], clock(i)))
  }

  function RowKeys(rows: seq<Row>): set<Key> {
    set i | 0 <= i < |rows| :: EntityKey(rows[i])
  }

  predicate IsLastFor(rows: seq<Row>, i: int) {
    0 <= i < |rows| && forall j :: i < j < |rows| ==> EntityKey(rows[j]) != EntityKey(rows[i])
  }

  lemma EntitiesKeys(rows: seq<Row>, clock: nat -> string)
    ensures KeysOf(Entities(rows, clock)) == RowKeys(rows)
  {
    var ops := Entities(rows, clock);
    forall k | k in RowKeys(rows) ensures k in KeysOf(ops) {
      var i :| 0 <= i < |rows| && EntityKey(rows[i]) == k;
      assert ops[i].key == k;
    }
  }

  /** `upsert_rows`: one merge-upsert per row, in order. Other entities are
      untouched and none is removed; each written entity keeps its other
      properties and takes the three properties of the last row for its key. */
  function UpsertRows(t: Table, rows: seq<Row>, clock: nat -> string): (r: Table)
    ensures r.Keys == t.Keys + RowKeys(rows)
    ensures forall k :: k in t && k !in RowKeys(rows) ==> r[k] == t[k]
    ensures forall i :: IsLastFor(rows, i) ==>
      r[EntityKey(rows[i])] == Current(t, EntityKey(rows[i])) + EntityOf(rows[i], clock(i)).fields
  {
    var ops := Entities(rows, clock);
    EntitiesKeys(rows, clock);
    forall i | IsLastFor(rows, i)
      ensures MergeAll(t, ops)[EntityKey(rows[i])] == Current(t, EntityKey(rows[i])) + EntityOf(rows[i], clock(i)).fields
    {
      LastWriteWins(t, ops, i, EntityProperties);
    }
    MergeAll(t, ops)
  }

  /** Writing the same rows again leaves the table as if only the second
      run had happened. */
  lemma RerunOverrides(t: Table, rows: seq<Row>, clock1: nat -> string, clock2: nat -> string)
    ensures UpsertRows(UpsertRows(t, rows, clock1), rows, clock2) == UpsertRows(t, rows, clock2)
  {
    TableStore.RerunOverrides(t, Entities(rows, clock1), Entities(rows, clock2));
  }

  /** How many writes succeed: all of them, or those before `failingWrite`. */
  function WritesDone(rows: seq<Row>, failingWrite: Option<nat>): (n: nat)
    ensures n <= |rows|
  {
    if failingWrite.Some? && failingWrite.value < |rows| then failingWrite.value else |rows|
  }

  /** The writing half of `main`: the rows are written in order until the
      write `failingWrite` raises, if it is one of them. The table then holds
      exactly the entities of the rows written so far, with the last
      properties written for each key, and nothing else changed. */
  function WriteRows(rows: seq<Row>, t: Table, clock: nat -> string, failingWrite: Option<nat>): (r: (Result<nat, SyncError>, Table))
    ensures r.0.Ok? <==> WritesDone(rows, failingWrite) == |rows|
    ensures r.0.Ok? ==> r.0.value == |rows|
    ensures r.0.Err? ==> r.0.error == UpsertFailed(WritesDone(rows, failingWrite))
    ensures var done := rows[..WritesDone(rows, failingWrite)];
      && r.1.Keys == t.Keys + RowKeys(done)
      && (forall k :: k in t && k !in RowKeys(done) ==> r.1[k] == t[k])
      && (forall i :: IsLastFor(done, i) ==>
            r.1[EntityKey(done[i])] == Current(t, EntityKey(done[i])) + EntityOf(done[i], clock(i)).fields)
  {
    var n := WritesDone(rows, failingWrite);
    var table := UpsertRows(t, rows[..n], clock);
    if n < |rows| then (Err(UpsertFailed(n)), table) else (Ok(|rows|), table)
  }

  lemma WriteRowsTable(rows: seq<Row>, t: Table, clock: nat -> string, failingWrite: Option<nat>)
    ensures WriteRows(rows, t, clock, failingWrite).1 == UpsertRows(t, rows[..WritesDone(rows, failingWrite)], clock)
  {
  }

  lemma RowKeysPrefix(rows: seq<Row>, n: nat)
    requires n <= |rows|
    ensures RowKeys(rows[..n]) <= RowKeys(rows)
  {
    forall k | k in RowKeys(rows[..n]) ensures k in RowKeys(rows) {
      var i :| 0 <= i < n && EntityKey(rows[..n][i]) == k;
      assert rows[..n][i] == rows[i];
    }
  }

  lemma EntitiesUniform(rows: seq<Row>, clock: nat -> string)
    ensures forall j :: 0 <= j < |Entities(rows, clock)| ==> Entities(rows, clock)[j].fields.Keys == EntityProperties
  {
  }

  /** Writing a prefix of the rows and then all of them is writing all of them. */
  lemma UpsertPrefixThenAll(rows: seq<Row>, t: Table, clock1: nat -> string, clock2: nat -> string, m: nat)
    requires m <= |rows|
    ensures UpsertRows(UpsertRows(t, rows[..m], clock1), rows, clock2) == UpsertRows(t, rows, clock2)
  {
    var ops1 := Entities(rows[..m], clock1);
    var ops2 := Entities(rows, clock2);
    EntitiesKeys(rows[..m], clock1);
    EntitiesKeys(rows, clock2);
    RowKeysPrefix(rows, m);
    EntitiesUniform(rows[..m], clock1);
    EntitiesUniform(rows, clock2);
    TableStore.RerunCovers(t, ops1, ops2, EntityProperties);
  }

  /** Running the writes again after a failed one repairs the index: the
      interrupted run followed by a complete one leaves the table exactly as
      the complete run alone would. */
  lemma {:induction false} FailedWritesRecovered(rows: seq<Row>, t: Table, clock1: nat -> string,
                                                clock2: nat -> string, n: nat)
    ensures WriteRows(rows, WriteRows(rows, t, clock1, Some(n)).1, clock2, None).1 == WriteRows(rows, t, clock2, None).1
  {
    var m := WritesDone(rows, Some(n));
    var once := WriteRows(rows, t, clock1, Some(n)).1;
    WriteRowsTable(rows, t, clock1, Some(n));
    WriteRowsTable(rows, once, clock2, None);
    WriteRowsTable(rows, t, clock2, None);
    assert rows[..|rows|] == rows;
    UpsertPrefixThenAll(rows, t, clock1, clock2, m);
  }

  /** What `main` does once the crawl has ended with `crawled`. */
  function Finish(crawled: Result<seq<Row>, SyncError>, t: Table, clock: nat -> string,
                  failingWrite: Option<nat>): (r: (Result<nat, SyncError>, Table))
    ensures crawled.Err? ==> r == (Err(crawled.error), t)
    ensures r.0.Ok? <==> crawled.Ok? && WritesDone(crawled.value, failingWrite) == |crawled.value|
    ensures r.0.Ok? ==> r.0.value == |crawled.value|
    ensures r.0.Ok? ==> forall i :: IsLastFor(crawled.value, i) ==>
      EntityKey(crawled.value[i]) in r.1
      && r.1[EntityKey(crawled.value[i])] == Current(t, EntityKey(crawled.value[i])) + EntityOf(crawled.value[i], clock(i)).fields
    ensures forall k :: k in t && (crawled.Err? || k !in RowKeys(crawled.value)) ==> k in r.1 && r.1[k] == t[k]
  {
    if crawled.Err? then (Err(crawled.error), t)
    else
      var rows := crawled.value;
      var n := WritesDone(rows, failingWrite);
      RowKeysPrefix(rows, n);
      assert n == |rows| ==> rows[..n] == rows;
      WriteRows(rows, t, clock, failingWrite)
  }

  /** `main`: the whole crawl is collected before anything is written, so a
      failing crawl writes nothing. `failingWrite` is the index of the first
      table write that raises, if any. The run succeeds exactly when every
      write does, and then every crawled folder is indexed; entities of keys
      the crawl did not produce are never changed. */
  function RunSync(ls: Listing, t: Table, clock: nat -> string, failingWrite: Option<nat>): (r: (Result<nat, SyncError>, Table))
    ensures Crawl(ls).Err? ==> r == (Err(Crawl(ls).error), t)
    ensures r.0.Ok? <==> Crawl(ls).Ok? && WritesDone(Crawl(ls).value, failingWrite) == |Crawl(ls).value|
    ensures r.0.Ok? ==> r.0.value == |Crawl(ls).value|
    ensures r.0.Ok? ==> forall i :: IsLastFor(Crawl(ls).value, i) ==>
      EntityKey(Crawl(ls).value[i]) in r.1
      && r.1[EntityKey(Crawl(ls).value[i])] == Current(t, EntityKey(Crawl(ls).value[i])) + EntityOf(Crawl(ls).value[i], clock(i)).fields
    ensures forall k :: k in t && (Crawl(ls).Err? || k !in RowKeys(Crawl(ls).value)) ==> k in r.1 && r.1[k] == t[k]
  {
    Finish(Crawl(ls), t, clock, failingWrite)
  }

  lemma {:induction false} FinishRecovers(crawled: Result<seq<Row>, SyncError>, t: Table, clock1: nat -> string,
                                         clock2: nat -> string, n: nat)
    ensures Finish(crawled, Finish(crawled, t, clock1, Some(n)).1, clock2, None).1 == Finish(crawled, t, clock2, None).1
  {
    if crawled.Ok? {
      FailedWritesRecovered(crawled.value, t, clock1, clock2, n);
    }
  }

  /** A run that failed part-way, followed by a run whose writes all
      succeed, leaves the table as the successful run alone would have. */
  lemma RerunRecovers(ls: Listing, t: Table, clock1: nat -> string, clock2: nat -> string, n: nat)
    ensures RunSync(ls, RunSync(ls, t, clock1, Some(n)).1, clock2, None).1 == RunSync(ls, t, clock2, None).1
  {
    FinishRecovers(Crawl(ls), t, clock1, clock2, n);
  }

  // ---------------------------------------------------------------------------
  // Living next to the SharePoint job
  // ---------------------------------------------------------------------------

  /** The two jobs never write the same entity: with a four-digit year, the
      fifth character of the RowKey is '#' here and '_' there. */
  lemma KeysDisjointFromSharePoint(row: Row, other: SharePointSync.Row)
    requires IsYearName(row.year) && IsYearName(other.year)
    ensures EntityKey(row) != SharePointSync.EntityKey(other)
  {
    assert EntityKey(row).row[4] == '#';
    assert SharePointSync.EntityKey(other).row[4] == '_';
  }
}
