/** The earlier router, for the OneDrive layout: the same index lookup, but
    only the `folder_id` property is read, and the document is put into the
    folder addressed by that id. */
module LegacyClassement {
  import opened Common
  import opened TableStore
  import Classement
  import OneDriveSync

  const OneDriveOk: string := "OK CLASSEMENT"

  /** The drive address `PUT` writes to: the child `filename` of item `folderId`. */
  function UploadTarget(folderId: string, filename: string): string {
    "items/" + folderId + ":/" + filename + ":/content"
  }

  /** `classer`: a missing `folder_id` on the first match raises KeyError and
      an empty or absent folder raises RuntimeError, both before any
      download; otherwise one download and one upload of the same bytes into
      the folder. */
  function Classer(t: Table, blobs: Classement.Blobs, library: Classement.Library, blobUrl: string, filename: string,
                   clientFolderId: string, rowKey: string, uploadFails: bool): (route: Classement.Route)
    ensures Classement.QueryFolderId(t, clientFolderId, rowKey).Err? ==>
      route == Classement.Route(Err(Classement.MissingFolderId), [], library)
    ensures Classement.QueryFolderId(t, clientFolderId, rowKey) in {Ok(None), Ok(Some(""))} ==>
      route == Classement.Route(Err(Classement.FolderNotFound(clientFolderId, rowKey)), [], library)
    ensures route.result.Ok? <==>
      && Classement.QueryFolderId(t, clientFolderId, rowKey).Ok?
      && Classement.QueryFolderId(t, clientFolderId, rowKey).value.Some?
      && Classement.QueryFolderId(t, clientFolderId, rowKey).value.value != ""
      && blobUrl in blobs && !uploadFails
    ensures route.result.Ok? ==>
      var target := UploadTarget(Classement.QueryFolderId(t, clientFolderId, rowKey).value.value, filename);
      && route.result.value == OneDriveOk
      && route.trace == [Classement.Download(blobUrl), Classement.Upload(target, blobs[blobUrl])]
      && route.library == library[target := blobs[blobUrl]]
    ensures route.result.Err? ==> route.library == library
  {
    match Classement.QueryFolderId(t, clientFolderId, rowKey)
    case Err(e) => Classement.Route(Err(e), [], library)
    case Ok(found) =>
      if found.None? || found.value == "" then
        Classement.Route(Err(Classement.FolderNotFound(clientFolderId, rowKey)), [], library)
      else
        var target := UploadTarget(found.value, filename);
        var route := Classement.Transfer(blobs, library, blobUrl, target, uploadFails, OneDriveOk);
        assert route.result.Ok? ==> route.library == library[target := blobs[blobUrl]];
        route
  }

  /** Whenever the earlier router finds a folder, the current one finds one
      too: a non-empty `folder_id` is its fallback. */
  lemma CurrentResolvesWhereLegacyDoes(t: Table, blobs: Classement.Blobs, library: Classement.Library,
                                       blobUrl: string, filename: string, clientFolderId: string, rowKey: string,
                                       uploadFails: bool)
    requires Classer(t, blobs, library, blobUrl, filename, clientFolderId, rowKey, uploadFails).result.Ok?
    ensures Classement.Classer(t, blobs, library, blobUrl, filename, clientFolderId, rowKey, uploadFails).result.Ok?
  {
    var r := QueryFirst(t, clientFolderId, rowKey);
    var k :| IsFirstMatch(t, k, clientFolderId, rowKey) && r.value == t[k];
    assert Classement.Truthy(t[k], "folder_id");
  }

  /** End to end: once the OneDrive job has indexed a folder, and no other
      entity carries the same client folder id and RowKey, a document routed
      with that client folder id and `{year}#{category}` lands in that
      folder. */
  lemma IndexedFolderReceives(t: Table, rows: seq<OneDriveSync.Row>, clock: nat -> string, i: nat,
                              blobs: Classement.Blobs, library: Classement.Library, blobUrl: string, filename: string)
    requires OneDriveSync.IsLastFor(rows, i)
    requires rows[i].folderId != ""
    requires var after := OneDriveSync.UpsertRows(t, rows, clock);
             forall k :: Matches(after, k, rows[i].clientFolderId, rows[i].year + "#" + rows[i].category) ==>
               k == OneDriveSync.EntityKey(rows[i])
    requires blobUrl in blobs
    ensures var after := OneDriveSync.UpsertRows(t, rows, clock);
            var route := Classer(after, blobs, library, blobUrl, filename,
                                 rows[i].clientFolderId, rows[i].year + "#" + rows[i].category, false);
            var target := UploadTarget(rows[i].folderId, filename);
            route == Classement.Route(Ok(OneDriveOk), [Classement.Download(blobUrl), Classement.Upload(target, blobs[blobUrl])],
                                      library[target := blobs[blobUrl]])
  {
    var after := OneDriveSync.UpsertRows(t, rows, clock);
    var row := rows[i];
    var k := OneDriveSync.EntityKey(row);
    var fields := OneDriveSync.EntityOf(row, clock(i)).fields;
    assert after[k] == Current(t, k) + fields;
    Classement.UnionRight(Current(t, k), fields, "client_folder_id");
    Classement.UnionRight(Current(t, k), fields, "folder_id");
    OnlyMatchIsFirst(after, k, row.clientFolderId, row.year + "#" + row.category);
  }
}
