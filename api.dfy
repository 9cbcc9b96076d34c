/**
  The two HTTP handlers of backend/main.py over the secret store:
  `POST /api/secrets/` (create_Secret) and `GET /api/secrets/{secret_id}`
  (retrieve_secret).
*/
module Api {
  import opened Wrappers
  import opened Octets
  import Base64
  import Fernet
  import Storage

  /** An uploaded file: `UploadFile.filename`, `.content_type`, and what `await file.read()` returns. */
  datatype Upload = Upload(filename: Option<string>, contentType: Option<string>, content: Bytes)

  /** What a handler answers: the JSON body of a 200, or an HTTPException's status and detail. */
  datatype Response =
    | Created(url: string)
    | Found(message: Option<string>, fileName: string, fileMime: string, fileData: Option<string>)
    | HttpError(status: int, detail: string)

  /** The one answer for every id that cannot be served, whatever the reason. */
  const NotFound: Response := HttpError(404, "Secret not found or expired")

  /** The answer to a request with neither message nor file. */
  const NothingToStore: Response := HttpError(400, "Must provide message or file")

  /** What FastAPI answers when the handler raises an exception it does not catch. */
  const ServerError: Response := HttpError(500, "Internal Server Error")

  /**
    The presence check of create_Secret: a non-empty message, or an upload
    object (even an empty one). A refused request has nothing that storage
    would keep; the one accepted request that stores nothing is an empty
    upload with no message.
  */
  predicate Provided(message: Option<string>, file: Option<Upload>): (r: bool)
    ensures !r ==> !Storage.MessageGiven(message) && !Storage.FileGiven(FileBytes(file))
    ensures (r && !Storage.MessageGiven(message) && !Storage.FileGiven(FileBytes(file)))
            <==> (!Storage.MessageGiven(message) && file.Some? && file.value.content == [])
  {
    Storage.MessageGiven(message) || file.Some?
  }

  /** `await file.read() if file else None`. */
  function FileBytes(file: Option<Upload>): Option<Bytes> {
    if file.Some? then Some(file.value.content) else None
  }

  /** `file.filename if file else None`. */
  function FileName(file: Option<Upload>): Option<string> {
    if file.Some? then file.value.filename else None
  }

  /** `file.content_type if file else None`. */
  function FileMime(file: Option<Upload>): Option<string> {
    if file.Some? then file.value.contentType else None
  }

  const UrlPrefix: string := "/secrets/"

  /** The link returned for a new secret; the frontend route parses it back to exactly the id. */
  function SecretUrl(id: string): (url: string)
    ensures |id| > 0 && '/' !in id ==> RouteId(url) == Some(id)
  {
    UrlPrefix + id
  }

  /** The id the frontend route `/secrets/:id` takes from a path: one non-empty segment. */
  function RouteId(url: string): Option<string> {
    if |url| > |UrlPrefix| && url[..|UrlPrefix|] == UrlPrefix && '/' !in url[|UrlPrefix|..]
    then Some(url[|UrlPrefix|..])
    else None
  }

  /** The response dictionary of retrieve_secret for what the store returned. */
  function Present(s: Storage.Secret): (r: Response)
    ensures r.Found? && r != NotFound
  {
    Found(s.message, s.fileName, s.fileMime,
          if s.file.Some? && |s.file.value| > 0 then Some(Base64.Encode(s.file.value)) else None)
  }

  /**
    The response copies the stored fields unchanged, and its fileData is present
    exactly when there are file bytes and decodes back to exactly those bytes.
  */
  lemma PresentKeepsFields(s: Storage.Secret)
    ensures Present(s).message == s.message
    ensures Present(s).fileName == s.fileName && Present(s).fileMime == s.fileMime
    ensures Present(s).fileData.Some? <==> s.file.Some? && |s.file.value| > 0
    ensures Present(s).fileData.Some? ==> Base64.Decode(Present(s).fileData.value) == Some(s.file.value)
  {
    if s.file.Some? {
      Base64.DecodeEncode(s.file.value);
    }
  }

  /** The upload's metadata is present whenever its bytes are kept, so the expected read-back is defined. */
  predicate MetadataPresent(file: Option<Upload>) {
    Storage.FileGiven(FileBytes(file)) ==> FileName(file).Some? && FileMime(file).Some?
  }

  /** What a first retrieval shows for a secret created from this message and upload. */
  function Shown(message: Option<string>, file: Option<Upload>): Response
    requires MetadataPresent(file)
  {
    Present(Storage.Expected(message, FileBytes(file), FileName(file), FileMime(file)))
  }

  /**
    End to end: the first retrieval of a created secret shows the non-empty
    message, and for non-empty file bytes the file's name, type and a Base64
    text that decodes to those bytes; an empty upload shows no file data and
    empty name and type.
  */
  lemma ShownRoundTrip(message: Option<string>, file: Option<Upload>)
    requires MetadataPresent(file)
    ensures Shown(message, file).message == (if Storage.MessageGiven(message) then message else None)
    ensures file.Some? && |file.value.content| > 0 ==>
              && Shown(message, file).fileName == file.value.filename.value
              && Shown(message, file).fileMime == file.value.contentType.value
              && Shown(message, file).fileData.Some?
              && Base64.Decode(Shown(message, file).fileData.value) == Some(file.value.content)
    ensures !(file.Some? && |file.value.content| > 0) ==>
              && Shown(message, file).fileName == ""
              && Shown(message, file).fileMime == ""
              && Shown(message, file).fileData == None
  {
    PresentKeepsFields(Storage.Expected(message, FileBytes(file), FileName(file), FileMime(file)));
  }

  /**
    create_Secret: 400 when neither a message nor a file was sent, and nothing
    is stored; otherwise `save_secret` with the ttl unchanged, and the link of
    the new id. An exception in `save_secret` becomes a 500 and stores nothing.
  */
  method CreateSecret(store: Storage.SecretStore, ttl: int, message: Option<string>, file: Option<Upload>,
                      ivMessage: Bytes, ivFile: Bytes) returns (resp: Response)
    requires store.Valid() && |ivMessage| == Fernet.IvSize && |ivFile| == Fernet.IvSize
    modifies store`entries, store`issued
    ensures store.Valid()
    ensures forall id :: old(store.Retired(id)) ==> store.Retired(id)
    ensures resp.Created? || resp == NothingToStore || resp == ServerError
    ensures resp == NothingToStore <==> !Provided(message, file)
    ensures resp == ServerError <==>
              Provided(message, file) && Storage.SaveFails(FileBytes(file), FileName(file), FileMime(file), ttl)
    ensures resp.HttpError? ==> store.entries == old(store.entries)
    ensures resp == NothingToStore ==> store.issued == old(store.issued)
    ensures resp == ServerError ==>
              exists id :: Storage.IsToken(id) && id !in old(store.issued) && store.issued == old(store.issued) + {id}
    ensures resp.Created? ==> RouteId(resp.url).Some? && store.issued == old(store.issued) + {RouteId(resp.url).value}
    ensures resp.Created? ==>
              && MetadataPresent(file)
              && RouteId(resp.url).Some?
              && var id := RouteId(resp.url).value;
              && resp.url == SecretUrl(id)
              && id !in old(store.issued)
              && Storage.AddedOnly(old(store.entries), store.entries, id)
              && store.entries[id].expiresAt == store.now + ttl
              && Storage.Encodes(store.key, store.entries[id].payload,
                                 message, FileBytes(file), FileName(file), FileMime(file))
  {
    if !Provided(message, file) {
      return NothingToStore;
    }
    var saved := store.SaveSecret(message, FileBytes(file), FileName(file), FileMime(file), ttl, ivMessage, ivFile);
    if saved.Failure? {
      return ServerError;
    }
    resp := Created(SecretUrl(saved.value));
  }

  /**
    retrieve_secret: 404 with one fixed detail whenever the store answers
    None, so an id that never existed, one that expired and one already read
    look the same; otherwise the stored fields, the file bytes in Base64.
    An id once served is retired, and a retired id is a 404 from then on.
  */
  method RetrieveSecret(store: Storage.SecretStore, id: string) returns (resp: Response)
    requires store.Valid()
    modifies store`entries
    ensures store.Valid()
    ensures forall other :: old(store.Retired(other)) ==> store.Retired(other)
    ensures old(store.Retired(id)) ==> resp == NotFound
    ensures resp != NotFound ==> store.Retired(id)
    ensures resp == NotFound <==> !old(store.Live(id))
    ensures resp == NotFound ==> store.entries == old(store.entries)
    ensures resp != NotFound ==>
              && store.entries == old(store.entries) - {id}
              && resp == Present(Storage.DecodePayload(store.key, old(store.entries)[id].payload))
  {
    var result := store.GetSecret(id);
    if result.None? {
      return NotFound;
    }
    resp := Present(result.value);
  }

  /**
    Read-once across later traffic: an id retrieved once is a 404 on its next
    retrieval, even after other secrets were created and time has passed.
  */
  method RetrieveAgainLater(store: Storage.SecretStore, id: string,
                            ttl: int, message: Option<string>, file: Option<Upload>,
                            ivMessage: Bytes, ivFile: Bytes, wait: nat)
    returns (first: Response, created: Response, second: Response)
    requires store.Valid() && |ivMessage| == Fernet.IvSize && |ivFile| == Fernet.IvSize
    modifies store`entries, store`issued, store`now
    ensures store.Valid()
    ensures first == NotFound <==> !old(store.Live(id))
    ensures first != NotFound ==> second == NotFound
    ensures old(store.Retired(id)) ==> first == NotFound && second == NotFound
  {
    first := RetrieveSecret(store, id);
    created := CreateSecret(store, ttl, message, file, ivMessage, ivFile);
    store.Tick(wait);
    second := RetrieveSecret(store, id);
  }

  /**
    The life of one secret: created, then `wait` seconds later opened, then
    opened again. Before its ttl has passed the first opening shows what was
    sent; at or after it, the secret is gone; the second opening always fails.
    When creation fails there is nothing to open, and both openings repeat its error.
  */
  method ShareThenOpen(store: Storage.SecretStore, ttl: int, message: Option<string>, file: Option<Upload>,
                       ivMessage: Bytes, ivFile: Bytes, wait: nat)
    returns (created: Response, viewed: Response, viewedAgain: Response)
    requires store.Valid() && |ivMessage| == Fernet.IvSize && |ivFile| == Fernet.IvSize
    modifies store`entries, store`issued, store`now
    ensures store.Valid()
    ensures created.Created? ==> MetadataPresent(file)
    ensures created.Created? && wait < ttl ==> viewed == Shown(message, file)
    ensures created.Created? && wait >= ttl ==> viewed == NotFound
    ensures created.Created? ==> viewedAgain == NotFound
    ensures !created.Created? ==> viewed == created && viewedAgain == created
  {
    created := CreateSecret(store, ttl, message, file, ivMessage, ivFile);
    if !created.Created? {
      viewed, viewedAgain := created, created;
      return;
    }
    var id := RouteId(created.url).value;
    ghost var p := store.entries[id].payload;
    Storage.ReadBack(store.key, p, message, FileBytes(file), FileName(file), FileMime(file));
    store.Tick(wait);
    viewed := RetrieveSecret(store, id);
    viewedAgain := RetrieveSecret(store, id);
  }
}
