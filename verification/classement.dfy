/** Routing one stored document into its SharePoint folder: look the folder
    up in the index by the client folder id and the RowKey, and only when it
    resolves, download the document once and upload it once under
    `<folder>/<filename>`. */
module Classement {
  import opened Common
  import opened TableStore
  import SharePointSync

  /** The outside calls routing makes, in the order it makes them. */
  datatype Effect =
    | Download(url: string)
    | Upload(target: string, data: Bytes)

  /** Why routing raises. */
  datatype RouteError =
    | FolderNotFound(clientFolderId: string, rowKey: string)  // the RuntimeError raised before any I/O
    | DownloadFailed(url: string)                              // the blob GET answers an HTTP error
    | UploadFailed(target: string)                             // the Graph PUT answers an HTTP error
    | MissingFolderId                                          // the matched entity has no `folder_id`

  /** The documents the blob GET can fetch; any other URL answers an error. */
  type Blobs = map<string, Bytes>

  /** The document library, file path to contents. */
  type Library = map<string, Bytes>

  /** How routing ended, what it called, and the library afterwards. */
  datatype Route = Route(result: Result<string, RouteError>, trace: seq<Effect>, library: Library)

  const SharePointOk: string := "OK CLASSEMENT SHAREPOINT"

  // ---------------------------------------------------------------------------
  // Lookups
  // ---------------------------------------------------------------------------

  /** `e.get(name)` used as a condition: the property is present and not empty. */
  predicate Truthy(f: Fields, name: string) {
    name in f && f[name] != ""
  }

  /** `e.get("folder_path") or e.get("folder_id")`, nothing when both are falsy. */
  function FolderOf(f: Fields): (r: Option<string>)
    ensures r.None? <==> !Truthy(f, "folder_path") && !Truthy(f, "folder_id")
    ensures r.Some? ==> r.value != ""
    ensures Truthy(f, "folder_path") ==> r == Some(f["folder_path"])
  {
    if Truthy(f, "folder_path") then Some(f["folder_path"])
    else if Truthy(f, "folder_id") then Some(f["folder_id"])
    else None
  }

  /** `query_folder_path`: the folder of the first entity whose
      `client_folder_id` property and RowKey match; nothing when no entity
      matches or the first one has neither property. */
  function QueryFolderPath(t: Table, clientFolderId: string, rowKey: string): (r: Option<string>)
    ensures (forall k :: k in t ==> !Matches(t, k, clientFolderId, rowKey)) ==> r.None?
    ensures forall k :: IsFirstMatch(t, k, clientFolderId, rowKey) ==> r == FolderOf(t[k])
    ensures r.Some? ==> r.value != ""
  {
    assert forall k :: IsFirstMatch(t, k, clientFolderId, rowKey) ==> QueryFirst(t, clientFolderId, rowKey) == Some(t[k]) by {
      forall k | IsFirstMatch(t, k, clientFolderId, rowKey) ensures QueryFirst(t, clientFolderId, rowKey) == Some(t[k]) {
        QueryFirstIs(t, k, clientFolderId, rowKey);
      }
    }
    match QueryFirst(t, clientFolderId, rowKey)
    case None => None
    case Some(f) => FolderOf(f)
  }

  /** `query_folder_id`: the `folder_id` of the first matching entity, nothing
      when no entity matches, and a KeyError when the first match lacks it. */
  function QueryFolderId(t: Table, clientFolderId: string, rowKey: string): (r: Result<Option<string>, RouteError>)
    ensures (forall k :: k in t ==> !Matches(t, k, clientFolderId, rowKey)) ==> r == Ok(None)
    ensures forall k :: IsFirstMatch(t, k, clientFolderId, rowKey) ==>
      if "folder_id" in t[k] then r == Ok(Some(t[k]["folder_id"])) else r == Err(MissingFolderId)
  {
    assert forall k :: IsFirstMatch(t, k, clientFolderId, rowKey) ==> QueryFirst(t, clientFolderId, rowKey) == Some(t[k]) by {
      forall k | IsFirstMatch(t, k, clientFolderId, rowKey) ensures QueryFirst(t, clientFolderId, rowKey) == Some(t[k]) {
        QueryFirstIs(t, k, clientFolderId, rowKey);
      }
    }
    match QueryFirst(t, clientFolderId, rowKey)
    case None => Ok(None)
    case Some(f) => if "folder_id" in f then Ok(Some(f["folder_id"])) else Err(MissingFolderId)
  }

  // ---------------------------------------------------------------------------
  // Download then upload
  // ---------------------------------------------------------------------------

  /** The GET of the document, then the PUT of those same bytes to `target`;
      `uploadFails` says whether the PUT answers an error. A PUT replaces
      whatever file is at the target. */
  function Transfer(blobs: Blobs, library: Library, blobUrl: string, target: string, uploadFails: bool,
                    ok: string): (route: Route)
    ensures route.result.Ok? <==> blobUrl in blobs && !uploadFails
    ensures route.result.Ok? ==> route.result.value == ok
    ensures route.result.Ok? ==> route.library.Keys == library.Keys + {target}
    ensures route.result.Ok? ==> route.library[target] == blobs[blobUrl]
    ensures route.result.Ok? ==> forall p :: p in library && p != target ==> route.library[p] == library[p]
    ensures route.result.Err? ==> route.library == library
    ensures 1 <= |route.trace| <= 2 && route.trace[0] == Download(blobUrl)
    ensures |route.trace| == 2 <==> blobUrl in blobs
    ensures |route.trace| == 2 ==> route.trace[1] == Upload(target, blobs[blobUrl])
  {
    if blobUrl !in blobs then Route(Err(DownloadFailed(blobUrl)), [Download(blobUrl)], library)
    else
      var data := blobs[blobUrl];
      var trace := [Download(blobUrl), Upload(target, data)];
      if uploadFails then Route(Err(UploadFailed(target)), trace, library)
      else Route(Ok(ok), trace, library[target := data])
  }

  /** `classer`: a lookup that resolves nothing raises before any download or
      upload; otherwise exactly one download and one upload of the same bytes
      to `<folder>/<filename>`. */
  function Classer(t: Table, blobs: Blobs, library: Library, blobUrl: string, filename: string,
                   clientFolderId: string, rowKey: string, uploadFails: bool): (route: Route)
    ensures QueryFolderPath(t, clientFolderId, rowKey).None? ==>
      route == Route(Err(FolderNotFound(clientFolderId, rowKey)), [], library)
    ensures route.trace != [] <==> QueryFolderPath(t, clientFolderId, rowKey).Some?
    ensures route.result.Ok? <==>
      QueryFolderPath(t, clientFolderId, rowKey).Some? && blobUrl in blobs && !uploadFails
    ensures route.result.Ok? ==>
      var target := QueryFolderPath(t, clientFolderId, rowKey).value + "/" + filename;
      && route.result.value == SharePointOk
      && route.trace == [Download(blobUrl), Upload(target, blobs[blobUrl])]
      && route.library == library[target := blobs[blobUrl]]
    ensures route.result.Err? ==> route.library == library
  {
    match QueryFolderPath(t, clientFolderId, rowKey)
    case None => Route(Err(FolderNotFound(clientFolderId, rowKey)), [], library)
    case Some(folder) =>
      var route := Transfer(blobs, library, blobUrl, folder + "/" + filename, uploadFails, SharePointOk);
      assert route.result.Ok? ==> route.library == library[folder + "/" + filename := blobs[blobUrl]];
      route
  }

  // ---------------------------------------------------------------------------
  // What the lookup does and does not look at
  // ---------------------------------------------------------------------------

  /** When exactly one entity matches, the lookup resolves to that entity's
      folder, whatever its PartitionKey. */
  lemma OnlyMatchResolves(t: Table, k: Key, clientFolderId: string, rowKey: string)
    requires Matches(t, k, clientFolderId, rowKey)
    requires forall k' :: Matches(t, k', clientFolderId, rowKey) ==> k' == k
    ensures QueryFolderPath(t, clientFolderId, rowKey) == FolderOf(t[k])
  {
    OnlyMatchIsFirst(t, k, clientFolderId, rowKey);
  }

  /** Moving the only matching entity to another partition changes nothing:
      the PartitionKey takes no part in the lookup. */
  lemma PartitionIgnored(t: Table, k: Key, partition: string, clientFolderId: string, rowKey: string)
    requires Matches(t, k, clientFolderId, rowKey)
    requires forall k' :: Matches(t, k', clientFolderId, rowKey) ==> k' == k
    requires Key(partition, k.row) !in t
    ensures var moved := (t - {k})[Key(partition, k.row) := t[k]];
            QueryFolderPath(moved, clientFolderId, rowKey) == QueryFolderPath(t, clientFolderId, rowKey)
  {
    var k2 := Key(partition, k.row);
    var moved := (t - {k})[k2 := t[k]];
    OnlyMatchResolves(t, k, clientFolderId, rowKey);
    forall k' | k' in moved && k' != k2 ensures !Matches(moved, k', clientFolderId, rowKey) {
      assert k' in t && k' != k && moved[k'] == t[k'];
      assert !Matches(t, k', clientFolderId, rowKey);
    }
    OnlyMatchResolves(moved, k2, clientFolderId, rowKey);
  }

  /** A synchronisation never deletes: an entity left behind by an earlier
      run (a client folder renamed since, so indexed under its old display
      name) still matches afterwards, and when its old name sorts first the
      document is routed to its stale folder. */
  lemma StaleEntityStillRoutes(t: Table, rows: seq<SharePointSync.Row>, clock: nat -> string, stale: Key,
                               clientFolderId: string, rowKey: string)
    requires Matches(t, stale, clientFolderId, rowKey) && stale !in SharePointSync.RowKeys(rows)
    requires var after := SharePointSync.UpsertIndex(t, rows, clock);
             forall k :: Matches(after, k, clientFolderId, rowKey) ==> StrLe(stale.partition, k.partition)
    ensures var after := SharePointSync.UpsertIndex(t, rows, clock);
            QueryFolderPath(after, clientFolderId, rowKey) == FolderOf(t[stale])
  {
    var after := SharePointSync.UpsertIndex(t, rows, clock);
    assert after[stale] == t[stale];
    assert IsFirstMatch(after, stale, clientFolderId, rowKey);
  }

  lemma UnionRight(a: Fields, b: Fields, n: string)
    requires n in b
    ensures n in a + b && (a + b)[n] == b[n]
  {
  }

  /** End to end: once the SharePoint job has indexed a folder, and no other
      entity carries the same client folder id and RowKey, a document routed
      with that client folder id and `{year}_{category}` lands in
      `<folder_path>/<filename>` of that very folder. */
  lemma CrawledFolderReceives(t: Table, rows: seq<SharePointSync.Row>, clock: nat -> string, i: nat,
                              blobs: Blobs, library: Library, blobUrl: string, filename: string)
    requires SharePointSync.IsLastFor(rows, i)
    requires rows[i].folderPath != ""
    requires var after := SharePointSync.UpsertIndex(t, rows, clock);
             forall k :: Matches(after, k, rows[i].clientFolderId, rows[i].year + "_" + rows[i].category) ==>
               k == SharePointSync.EntityKey(rows[i])
    requires blobUrl in blobs
    ensures var after := SharePointSync.UpsertIndex(t, rows, clock);
            var route := Classer(after, blobs, library, blobUrl, filename,
                                 rows[i].clientFolderId, rows[i].year + "_" + rows[i].category, false);
            var target := rows[i].folderPath + "/" + filename;
            route == Route(Ok(SharePointOk), [Download(blobUrl), Upload(target, blobs[blobUrl])],
                           library[target := blobs[blobUrl]])
  {
    var after := SharePointSync.UpsertIndex(t, rows, clock);
    var row := rows[i];
    var k := SharePointSync.EntityKey(row);
    var fields := SharePointSync.EntityOf(row, clock(i)).fields;
    assert after[k] == Current(t, k) + fields;
    UnionRight(Current(t, k), fields, "client_folder_id");
    UnionRight(Current(t, k), fields, "folder_path");
    OnlyMatchResolves(after, k, row.clientFolderId, row.year + "_" + row.category);
  }
}
