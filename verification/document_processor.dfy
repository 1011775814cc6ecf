/** Processing one received document: read its text, classify it, build the
    index RowKey from the classification, route it. Each stage runs only once
    the one before it has returned, and whatever fails is logged and
    swallowed: the processor itself never raises. */
module DocumentProcessor {
  import opened Common
  import opened TableStore
  import opened Drive
  import Classement
  import SharePointSync

  /** The categories the classifier is told to choose from. Nothing checks
      that its answer is one of them. */
  const ClassifierVocabulary: set<string> := {"01 - Créanciers", "02 - Débiteurs", "03 - Banque", "04 - Tickets"}

  /** The classifier's answer. */
  datatype Classification = Classification(categorie: string, score: int, year: int)

  /** The outside calls processing makes, in order. */
  datatype Call =
    | ReadText(url: string)                      // the OCR service
    | Classify(text: string, clientName: string) // the language model
    | Io(effect: Classement.Effect)              // the router's download and upload

  datatype Stage = Ocr | Categorisation | Routing

  /** Where processing stands: before OCR, after OCR, after classification,
      or finished either way. */
  datatype Phase =
    | Received
    | Extracted(text: string)
    | Classified(rowKey: string)
    | Done(message: string)
    | Failed(stage: Stage)

  predicate Terminal(p: Phase) {
    p.Done? || p.Failed?
  }

  /** The number of stages still to run. */
  function Remaining(p: Phase): nat {
    match p
    case Received => 3
    case Extracted(_) => 2
    case Classified(_) => 1
    case _ => 0
  }

  /** The arguments `process_document_async` is scheduled with. */
  datatype Job = Job(blobUrl: string, clientId: string, clientName: string, fileName: string)

  /** Everything outside the processor: the index, the blob store, whether
      the upload fails, and the OCR and classification services (`None` is a
      call that raises). */
  datatype World = World(
    table: Table,
    blobs: Classement.Blobs,
    uploadFails: bool,
    ocr: string -> Option<string>,
    classify: (string, string) -> Option<Classification>)

  datatype State = State(phase: Phase, trace: seq<Call>, library: Classement.Library)

  /** The RowKey `{year}_{categorie}`. */
  function RowKeyOf(c: Classification): string {
    IntToDecimal(c.year) + "_" + c.categorie
  }

  function IoCalls(effects: seq<Classement.Effect>): (calls: seq<Call>)
    ensures |calls| == |effects|
    ensures forall i :: 0 <= i < |effects| ==> calls[i] == Io(effects[i])
  {
    seq(|effects|, i requires 0 <= i < |effects| => Io(effects[i]))
  }

  /** One stage. Routing receives the job's own URL, file name and client
      id. */
  function Step(job: Job, w: World, s: State): (s': State)
    requires !Terminal(s.phase)
    ensures Remaining(s'.phase) < Remaining(s.phase)
    ensures |s.trace| <= |s'.trace| && s'.trace[..|s.trace|] == s.trace
  {
    match s.phase
    case Received =>
      var trace := s.trace + [ReadText(job.blobUrl)];
      if w.ocr(job.blobUrl).None? then State(Failed(Ocr), trace, s.library)
      else State(Extracted(w.ocr(job.blobUrl).value), trace, s.library)
    case Extracted(text) =>
      var trace := s.trace + [Classify(text, job.clientName)];
      if w.classify(text, job.clientName).None? then State(Failed(Categorisation), trace, s.library)
      else State(Classified(RowKeyOf(w.classify(text, job.clientName).value)), trace, s.library)
    case Classified(rowKey) =>
      var route := Classement.Classer(w.table, w.blobs, s.library, job.blobUrl, job.fileName,
                                      job.clientId, rowKey, w.uploadFails);
      var phase := if route.result.Ok? then Done(route.result.value) else Failed(Routing);
      State(phase, s.trace + IoCalls(route.trace), route.library)
  }

  /** Runs the stages until processing has finished. */
  function Run(job: Job, w: World, s: State): (r: State)
    ensures Terminal(r.phase)
    ensures |s.trace| <= |r.trace| && r.trace[..|s.trace|] == s.trace
    decreases Remaining(s.phase)
  {
    if Terminal(s.phase) then s
    else
      var next := Step(job, w, s);
      var r := Run(job, w, next);
      assert r.trace[..|next.trace|][..|s.trace|] == r.trace[..|s.trace|];
      r
  }

  /** `process_document_async`: OCR, then classification, then routing with
      the RowKey `{year}_{categorie}`; a stage that raises ends processing
      there, and nothing raises out of it. */
  function Process(job: Job, w: World, library: Classement.Library): (r: State)
    ensures Terminal(r.phase)
    ensures r.phase == Failed(Ocr) <==> w.ocr(job.blobUrl).None?
    ensures w.ocr(job.blobUrl).None? ==> r.trace == [ReadText(job.blobUrl)] && r.library == library
    ensures w.ocr(job.blobUrl).Some? ==>
      var text := w.ocr(job.blobUrl).value;
      && (r.phase == Failed(Categorisation) <==> w.classify(text, job.clientName).None?)
      && (w.classify(text, job.clientName).None? ==>
            r.trace == [ReadText(job.blobUrl), Classify(text, job.clientName)] && r.library == library)
    ensures w.ocr(job.blobUrl).Some? && w.classify(w.ocr(job.blobUrl).value, job.clientName).Some? ==>
      var text := w.ocr(job.blobUrl).value;
      var c := w.classify(text, job.clientName).value;
      var route := Classement.Classer(w.table, w.blobs, library, job.blobUrl, job.fileName,
                                      job.clientId, RowKeyOf(c), w.uploadFails);
      && r.trace == [ReadText(job.blobUrl), Classify(text, job.clientName)] + IoCalls(route.trace)
      && r.library == route.library
      && r.phase == (if route.result.Ok? then Done(route.result.value) else Failed(Routing))
  {
    var s0 := State(Received, [], library);
    var r := Run(job, w, s0);
    assert r == Run(job, w, Step(job, w, s0));
    assert Step(job, w, s0).phase.Extracted? ==>
      var s1 := Step(job, w, s0);
      && Run(job, w, s1) == Run(job, w, Step(job, w, s1))
      && (Step(job, w, s1).phase.Classified? ==> Run(job, w, Step(job, w, s1)) == Step(job, w, Step(job, w, s1)));
    r
  }

  /** Whatever happens later, processing starts by reading the document's
      text from its URL. */
  lemma ProcessReadsFirst(job: Job, w: World, library: Classement.Library)
    ensures |Process(job, w, library).trace| >= 1
    ensures Process(job, w, library).trace[0] == ReadText(job.blobUrl)
  {
    var r := Process(job, w, library);
    if w.ocr(job.blobUrl).Some? {
      var text := w.ocr(job.blobUrl).value;
      if w.classify(text, job.clientName).Some? {
        var c := w.classify(text, job.clientName).value;
        var route := Classement.Classer(w.table, w.blobs, library, job.blobUrl, job.fileName,
                                        job.clientId, RowKeyOf(c), w.uploadFails);
        assert r.trace == [ReadText(job.blobUrl), Classify(text, job.clientName)] + IoCalls(route.trace);
      }
    }
  }

  // ---------------------------------------------------------------------------
  // The classifier's vocabulary against the crawler's
  // ---------------------------------------------------------------------------

  /** The classifier and the SharePoint crawler agree on two categories only. */
  lemma VocabularyOverlap()
    ensures ClassifierVocabulary * SharePointSync.Categories == {"02 - Débiteurs", "03 - Banque"}
    ensures "01 - Créanciers" !in SharePointSync.Categories && "04 - Tickets" !in SharePointSync.Categories
  {
    assert "01 - Créanciers" != "01.1 - Créanciers" by {
      assert "01 - Créanciers"[2] != "01.1 - Créanciers"[2];
    }
    assert "04 - Tickets" != "01.2 - Tickets" by {
      assert "04 - Tickets"[1] != "01.2 - Tickets"[1];
    }
    assert "01 - Créanciers" !in SharePointSync.Categories;
    assert "04 - Tickets" !in SharePointSync.Categories;
  }

  /** Splitting at the first '_': two keys `a_b` and `c_d` whose first parts
      have no '_' agree part by part. */
  lemma SplitAtUnderscore(a: string, b: string, c: string, d: string)
    requires '_' !in a && '_' !in c
    requires a + "_" + b == c + "_" + d
    ensures a == c && b == d
  {
    var s := a + "_" + b;
    assert s == c + "_" + d;
    assert forall i :: 0 <= i < |a| ==> s[i] == a[i] && s[i] != '_';
    assert forall i :: 0 <= i < |c| ==> s[i] == c[i] && s[i] != '_';
    assert s[|a|] == '_' && s[|c|] == '_';
    assert |a| == |c|;
    assert a == s[..|a|] && c == s[..|c|];
    assert b == s[|a| + 1..] && d == s[|c| + 1..];
  }

  /** A RowKey the SharePoint job writes: a four-digit year, '_', one of its
      categories. */
  ghost predicate SharePointRowKey(s: string) {
    exists year, category :: IsYearName(year) && category in SharePointSync.Categories && s == year + "_" + category
  }

  /** An index every entity of which was written by the SharePoint job. */
  ghost predicate SharePointIndex(t: Table) {
    forall k :: k in t ==> SharePointRowKey(k.row)
  }

  /** The SharePoint job keeps an index in that shape. */
  lemma UpsertKeepsSharePointIndex(t: Table, rows: seq<SharePointSync.Row>, clock: nat -> string)
    requires SharePointIndex(t)
    requires forall i :: 0 <= i < |rows| ==> IsYearName(rows[i].year) && rows[i].category in SharePointSync.Categories
    ensures SharePointIndex(SharePointSync.UpsertIndex(t, rows, clock))
  {
    var after := SharePointSync.UpsertIndex(t, rows, clock);
    forall k | k in after ensures SharePointRowKey(k.row) {
      if k !in t {
        var i :| 0 <= i < |rows| && SharePointSync.EntityKey(rows[i]) == k;
        assert k.row == rows[i].year + "_" + rows[i].category;
      }
    }
  }

  lemma YearNameHasNoUnderscore(s: string)
    requires IsYearName(s)
    ensures '_' !in s
  {
    assert forall i :: 0 <= i < |s| ==> s[i] != '_';
  }

  /** A RowKey built from a category the SharePoint job does not index
      resolves to nothing, whatever the year and the client. */
  lemma UnsharedCategoryNeverResolves(t: Table, clientFolderId: string, year: int, categorie: string)
    requires SharePointIndex(t)
    requires categorie !in SharePointSync.Categories
    ensures Classement.QueryFolderPath(t, clientFolderId, IntToDecimal(year) + "_" + categorie).None?
  {
    var rowKey := IntToDecimal(year) + "_" + categorie;
    forall k | k in t ensures k.row != rowKey {
      var y, c :| IsYearName(y) && c in SharePointSync.Categories && k.row == y + "_" + c;
      if k.row == rowKey {
        YearNameHasNoUnderscore(y);
        SplitAtUnderscore(y, c, IntToDecimal(year), categorie);
      }
    }
  }

  /** End to end: a document the classifier files as "01 - Créanciers" or
      "04 - Tickets" is never routed against a SharePoint index. Processing
      ends failed at the routing stage, without a download or an upload, and
      the library is unchanged. */
  lemma OffVocabularyDocumentStays(job: Job, w: World, library: Classement.Library, text: string, c: Classification)
    requires SharePointIndex(w.table)
    requires w.ocr(job.blobUrl) == Some(text) && w.classify(text, job.clientName) == Some(c)
    requires c.categorie in ClassifierVocabulary - SharePointSync.Categories
    ensures var r := Process(job, w, library);
            && r.phase == Failed(Routing)
            && r.trace == [ReadText(job.blobUrl), Classify(text, job.clientName)]
            && r.library == library
  {
    UnsharedCategoryNeverResolves(w.table, job.clientId, c.year, c.categorie);
    var route := Classement.Classer(w.table, w.blobs, library, job.blobUrl, job.fileName,
                                    job.clientId, RowKeyOf(c), w.uploadFails);
    assert route.trace == [];
    assert IoCalls(route.trace) == [];
    assert [ReadText(job.blobUrl), Classify(text, job.clientName)] + [] == [ReadText(job.blobUrl), Classify(text, job.clientName)];
  }
}
