/** The document intake endpoint: it checks the upload's size, then its
    extension, stores the upload under a fresh name and schedules its
    processing, and answers without waiting for that processing. */
module Webhook {
  import opened Common
  import opened Paths
  import DocumentProcessor

  /** `settings.max_file_size`: 300 MiB. */
  const MaxFileSize: nat := 300 * 1024 * 1024

  /** `settings.allowed_extensions` */
  const AllowedExtensions: set<string> := {".pdf", ".jpeg", ".png", ".jpg"}

  /** The container the read-only link given to processing points into. */
  const ProcessingContainer: string := "file-automation-ratios"

  const AcceptedStatus: string := "accepted"
  const AcceptedMessage: string := "Document accepté pour le traitement"
  const TooLargeDetail: string := "Fichier trop volumineux (max 300MB)"

  /** The form fields of one request. */
  datatype Request = Request(clientName: string, clientId: string, fileName: string, content: Bytes)

  /** What the endpoint answers. */
  datatype Response =
    | Accepted(status: string, blobUrl: string, originalName: string, sizeBytes: nat, message: string)
    | HttpError(code: nat, detail: string)
    | UploadRaised(blobName: string)  // the upload refuses to overwrite an existing blob, and its exception escapes

  /** The endpoint's outside: the blobs of the upload container, the URL of
      a blob, and the read-only link to a blob of a container. */
  datatype Env = Env(
    container: map<string, Bytes>,
    blobUrl: string -> string,
    sasUrl: (string, string) -> string)

  /** The answer, the upload container afterwards, and the processing job
      scheduled, if any. */
  datatype Outcome = Outcome(response: Response, container: map<string, Bytes>, scheduled: Option<DocumentProcessor.Job>)

  /** The detail of the 400 answer. */
  function ExtensionDetail(suffix: string): string {
    "Extension " + suffix + " non autorisée"
  }

  /** The stored name: the client id, '_', the fresh hex, the suffix. */
  function BlobName(clientId: string, hex: string, suffix: string): string {
    clientId + "_" + hex + suffix
  }

  /** `receive_document`, with `hex` standing for `uuid.uuid4().hex`: a body
      over the size limit gets 413 whatever its name; then a suffix outside
      the allowed ones gets 400; otherwise the content is stored under a new
      name, without overwriting, and processing is scheduled on a read link
      to it with the original file name. Nothing is stored or scheduled on a
      refusal. */
  function ReceiveDocument(req: Request, env: Env, hex: string): (out: Outcome)
    ensures |req.content| > MaxFileSize ==> out == Outcome(HttpError(413, TooLargeDetail), env.container, None)
    ensures |req.content| <= MaxFileSize && LowerSuffix(req.fileName) !in AllowedExtensions ==>
      out == Outcome(HttpError(400, ExtensionDetail(LowerSuffix(req.fileName))), env.container, None)
    ensures out.response.Accepted? <==>
      && |req.content| <= MaxFileSize && LowerSuffix(req.fileName) in AllowedExtensions
      && BlobName(req.clientId, hex, LowerSuffix(req.fileName)) !in env.container
    ensures out.response.Accepted? ==>
      var name := BlobName(req.clientId, hex, LowerSuffix(req.fileName));
      && out.response == Accepted(AcceptedStatus, env.blobUrl(name), req.fileName, |req.content|, AcceptedMessage)
      && out.container == env.container[name := req.content]
      && out.scheduled == Some(DocumentProcessor.Job(env.sasUrl(ProcessingContainer, name), req.clientId,
                                                    req.clientName, req.fileName))
    ensures !out.response.Accepted? ==> out.container == env.container && out.scheduled.None?
  {
    var suffix := LowerSuffix(req.fileName);
    if |req.content| > MaxFileSize then Outcome(HttpError(413, TooLargeDetail), env.container, None)
    else if suffix !in AllowedExtensions then Outcome(HttpError(400, ExtensionDetail(suffix)), env.container, None)
    else
      var name := BlobName(req.clientId, hex, suffix);
      if name in env.container then Outcome(UploadRaised(name), env.container, None)
      else
        var job := DocumentProcessor.Job(env.sasUrl(ProcessingContainer, name), req.clientId, req.clientName, req.fileName);
        Outcome(Accepted(AcceptedStatus, env.blobUrl(name), req.fileName, |req.content|, AcceptedMessage),
                env.container[name := req.content], Some(job))
  }

  lemma LowerIdempotent(s: string)
    ensures Lower(Lower(s)) == Lower(s)
  {
  }

  /** The stored name keeps the upload's extension whatever the client id:
      its lower-cased suffix is the one that was checked, so the stored blob
      passes the same extension check. */
  lemma {:induction false} BlobNameKeepsSuffix(clientId: string, hex: string, fileName: string)
    requires '/' !in hex && '.' !in hex
    requires LowerSuffix(fileName) in AllowedExtensions
    ensures LowerSuffix(BlobName(clientId, hex, LowerSuffix(fileName))) == LowerSuffix(fileName)
  {
    var ext := LowerSuffix(fileName);
    AllowedAreSuffixes(ext);
    var tail := "_" + hex + ext;
    assert '/' !in tail;
    assert tail[0] == '_';
    assert BlobName(clientId, hex, ext) == clientId + tail;
    NameOfTail(clientId, tail);
    SuffixAfterHex(clientId[AfterLastSlash(clientId)..], hex, ext);
    LowerIdempotent(Suffix(Name(fileName)));
  }

  /** Whatever plain head precedes it, the name `head_hex.ext` has suffix `.ext`. */
  lemma SuffixAfterHex(head: string, hex: string, ext: string)
    requires '/' !in head && '/' !in hex && '.' !in hex
    requires IsSuffixShape(ext)
    ensures Suffix(head + ("_" + hex + ext)) == ext
  {
    var base := head + "_" + hex;
    assert head + ("_" + hex + ext) == base + ext;
    assert '/' !in base;
    SplitName(base, ext);
  }

  /** With a client id free of '/', the stored name is moreover a plain file
      name, so the blob sits at the top of its container. */
  lemma {:induction false} BlobNameKeepsExtension(clientId: string, hex: string, fileName: string)
    requires '/' !in clientId && '/' !in hex && '.' !in hex
    requires LowerSuffix(fileName) in AllowedExtensions
    ensures var name := BlobName(clientId, hex, LowerSuffix(fileName));
            Name(name) == name && LowerSuffix(name) == LowerSuffix(fileName)
  {
    var ext := LowerSuffix(fileName);
    AllowedAreSuffixes(ext);
    var base := clientId + "_" + hex;
    assert '/' !in base by {
      assert forall i :: 0 <= i < |base| ==>
        base[i] == (if i < |clientId| then clientId[i] else if i == |clientId| then '_' else hex[i - |clientId| - 1]);
    }
    SplitName(base, ext);
    assert BlobName(clientId, hex, ext) == base + ext;
    BlobNameKeepsSuffix(clientId, hex, fileName);
  }

  /** Every allowed extension has the shape of a suffix. */
  lemma AllowedAreSuffixes(ext: string)
    requires ext in AllowedExtensions
    ensures IsSuffixShape(ext)
  {
    if ext == ".pdf" {
      assert ext[1..] == "pdf";
    } else if ext == ".jpeg" {
      assert ext[1..] == "jpeg";
    } else if ext == ".png" {
      assert ext[1..] == "png";
    } else {
      assert ext[1..] == "jpg";
    }
  }

  /** What the request gets back, and what processing then does with the
      scheduled job in the world `w`. */
  function Serve(req: Request, env: Env, hex: string, w: DocumentProcessor.World,
                 library: map<string, Bytes>): (served: (Response, Option<DocumentProcessor.State>))
    ensures served.1.Some? <==> served.0.Accepted?
  {
    var out := ReceiveDocument(req, env, hex);
    match out.scheduled
    case None => (out.response, None)
    case Some(job) => (out.response, Some(DocumentProcessor.Process(job, w, library)))
  }

  /** The answer does not depend on processing: two worlds in which OCR,
      classification and routing behave differently get the same answer.
      When the document is accepted, processing starts by reading the
      stored blob through its read link. */
  lemma ResponseIgnoresProcessing(req: Request, env: Env, hex: string, w1: DocumentProcessor.World,
                                  w2: DocumentProcessor.World, library: map<string, Bytes>)
    ensures Serve(req, env, hex, w1, library).0 == Serve(req, env, hex, w2, library).0
    ensures Serve(req, env, hex, w1, library).0.Accepted? ==>
      var name := BlobName(req.clientId, hex, LowerSuffix(req.fileName));
      var s := Serve(req, env, hex, w1, library).1.value;
      |s.trace| >= 1 && s.trace[0] == DocumentProcessor.ReadText(env.sasUrl(ProcessingContainer, name))
  {
    var out := ReceiveDocument(req, env, hex);
    if out.response.Accepted? {
      var job := out.scheduled.value;
      var s := DocumentProcessor.Process(job, w1, library);
      assert Serve(req, env, hex, w1, library).1.value == s;
      DocumentProcessor.ProcessReadsFirst(job, w1, library);
    }
  }
}
