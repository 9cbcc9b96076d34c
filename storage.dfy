/**
  The one-time secret store of backend/storage.py: Redis as a map from secret
  id to (payload, expiry time) with an explicit clock, the Fernet key, and the
  two operations `save_secret` and `get_secret`.
*/
module Storage {
  import opened Wrappers
  import opened Octets
  import Utf8
  import Fernet

  /**
    The payload dictionary that `save_secret` builds and Redis stores, with its
    four possible keys "message", "file", "file_name" and "file_mime". It is
    kept as the dictionary itself rather than as its `str(...)` text.
  */
  type Payload = map<string, Bytes>

  /** A Redis entry: the stored payload and the clock value at which it expires. */
  datatype Entry = Entry(payload: Payload, expiresAt: int)

  /** The dictionary `get_secret` returns. */
  datatype Secret = Secret(message: Option<string>, file: Option<Bytes>, fileName: string, fileMime: string)

  /** Why `save_secret` raises instead of returning an id. */
  datatype SaveError =
    | FileMetadataMissing  // `file_name.encode()` or `file_mime.encode()` on None
    | InvalidExpireTime    // Redis refuses SETEX with a non-positive expiry

  /** Python truthiness of the `message` argument: present and non-empty. */
  predicate MessageGiven(message: Option<string>) {
    message.Some? && |message.value| > 0
  }

  /** Python truthiness of the `file` argument: present and non-empty. */
  predicate FileGiven(file: Option<Bytes>) {
    file.Some? && |file.value| > 0
  }

  /** The inputs with which `save_secret` raises before anything is stored. */
  predicate SaveFails(file: Option<Bytes>, fileName: Option<string>, fileMime: Option<string>, ttl: int) {
    (FileGiven(file) && (fileName.None? || fileMime.None?)) || ttl <= 0
  }

  /** `payload.get(k, b"")`. */
  function GetOrEmpty(p: Payload, k: string): Bytes {
    if k in p then p[k] else []
  }

  /**
    What a payload built from these arguments must hold: which keys exist, and
    that each value gives back its argument (the encrypted ones by decryption
    with the server key, the names by UTF-8 decoding).
  */
  ghost predicate Encodes(key: Bytes, p: Payload, message: Option<string>, file: Option<Bytes>,
                          fileName: Option<string>, fileMime: Option<string>)
    requires Fernet.ValidKey(key)
  {
    && p.Keys <= {"message", "file", "file_name", "file_mime"}
    && ("message" in p <==> MessageGiven(message))
    && ("file" in p <==> FileGiven(file))
    && ("file_name" in p <==> FileGiven(file))
    && ("file_mime" in p <==> FileGiven(file))
    && (MessageGiven(message) ==> Fernet.Decrypt(key, p["message"]) == Some(Utf8.Encode(message.value)))
    && (FileGiven(file) ==>
          && Fernet.Decrypt(key, p["file"]) == Some(file.value)
          && fileName.Some? && Utf8.Decode(p["file_name"]) == Some(fileName.value)
          && fileMime.Some? && Utf8.Decode(p["file_mime"]) == Some(fileMime.value))
  }

  /** A payload `get_secret` can read without raising: every token decrypts and all text decodes. */
  ghost predicate WellFormed(key: Bytes, p: Payload)
    requires Fernet.ValidKey(key)
  {
    && ("message" in p ==>
          Fernet.Decrypt(key, p["message"]).Some? && Utf8.Decode(Fernet.Decrypt(key, p["message"]).value).Some?)
    && ("file" in p ==> Fernet.Decrypt(key, p["file"]).Some?)
    && Utf8.Decode(GetOrEmpty(p, "file_name")).Some?
    && Utf8.Decode(GetOrEmpty(p, "file_mime")).Some?
  }

  /** The dictionary `get_secret` returns for a stored payload: decrypted fields, defaults for absent ones. */
  function DecodePayload(key: Bytes, p: Payload): (r: Secret)
    requires Fernet.ValidKey(key) && WellFormed(key, p)
    ensures r.message.Some? <==> "message" in p
    ensures r.file.Some? <==> "file" in p
    ensures "message" in p ==> Fernet.Decrypt(key, p["message"]) == Some(Utf8.Encode(r.message.value))
    ensures "file" in p ==> Fernet.Decrypt(key, p["file"]) == r.file
    ensures "file_name" in p ==> Utf8.Decode(p["file_name"]) == Some(r.fileName)
    ensures "file_name" !in p ==> r.fileName == ""
    ensures "file_mime" in p ==> Utf8.Decode(p["file_mime"]) == Some(r.fileMime)
    ensures "file_mime" !in p ==> r.fileMime == ""
  {
    var message :=
      if "message" in p then
        var plaintext := Fernet.Decrypt(key, p["message"]).value;
        Utf8.EncodeDecode(plaintext);
        Some(Utf8.Decode(plaintext).value)
      else None;
    Secret(
      message,
      if "file" in p then Some(Fernet.Decrypt(key, p["file"]).value) else None,
      Utf8.Decode(GetOrEmpty(p, "file_name")).value,
      Utf8.Decode(GetOrEmpty(p, "file_mime")).value)
  }

  /**
    What a first read gives back for a secret saved from these arguments: the
    message when it was non-empty, the file with its name and type when the
    file was non-empty, None and empty text otherwise.
  */
  function Expected(message: Option<string>, file: Option<Bytes>, fileName: Option<string>, fileMime: Option<string>): Secret
    requires FileGiven(file) ==> fileName.Some? && fileMime.Some?
  {
    Secret(
      if MessageGiven(message) then message else None,
      if FileGiven(file) then file else None,
      if FileGiven(file) then fileName.value else "",
      if FileGiven(file) then fileMime.value else "")
  }

  /**
    Round trip of the store's codec: a payload that encodes the arguments of
    `save_secret` can be read, and reading it gives back the saved message, file
    bytes, name and type, with the documented defaults for what was not saved.
  */
  lemma ReadBack(key: Bytes, p: Payload, message: Option<string>, file: Option<Bytes>,
                 fileName: Option<string>, fileMime: Option<string>)
    requires Fernet.ValidKey(key)
    requires Encodes(key, p, message, file, fileName, fileMime)
    ensures FileGiven(file) ==> fileName.Some? && fileMime.Some?
    ensures WellFormed(key, p)
    ensures DecodePayload(key, p) == Expected(message, file, fileName, fileMime)
  {
    if MessageGiven(message) {
      Utf8.DecodeEncode(message.value);
    }
    assert Utf8.Decode([]) == Some([]);
  }

  /** A payload for an empty file and no message has no keys at all. */
  lemma EmptyUploadStoresNothing(key: Bytes, p: Payload, fileName: Option<string>, fileMime: Option<string>)
    requires Fernet.ValidKey(key)
    requires Encodes(key, p, None, Some([]), fileName, fileMime)
    ensures p == map[]
  {
  }

  /**
    The `payload = {}` of `save_secret` and its conditional insertions: the
    message is encrypted if it is non-empty; the file is encrypted and its name
    and type encoded if the file bytes are non-empty. A None name or type with a
    non-empty file makes `.encode()` raise.
  */
  method BuildPayload(key: Bytes, message: Option<string>, file: Option<Bytes>,
                      fileName: Option<string>, fileMime: Option<string>,
                      ivMessage: Bytes, ivFile: Bytes) returns (r: Result<Payload, SaveError>)
    requires Fernet.ValidKey(key) && |ivMessage| == Fernet.IvSize && |ivFile| == Fernet.IvSize
    ensures r.Failure? <==> FileGiven(file) && (fileName.None? || fileMime.None?)
    ensures r.Failure? ==> r.error == FileMetadataMissing
    ensures r.Success? ==> Encodes(key, r.value, message, file, fileName, fileMime)
  {
    var payload: Payload := map[];
    if MessageGiven(message) {
      var plaintext := Utf8.Encode(message.value);
      payload := payload["message" := Fernet.Encrypt(key, ivMessage, plaintext)];
      Fernet.DecryptEncrypt(key, ivMessage, plaintext);
    }
    if FileGiven(file) {
      payload := payload["file" := Fernet.Encrypt(key, ivFile, file.value)];
      Fernet.DecryptEncrypt(key, ivFile, file.value);
      if fileName.None? || fileMime.None? {
        return Failure(FileMetadataMissing);
      }
      payload := payload["file_name" := Utf8.Encode(fileName.value)];
      payload := payload["file_mime" := Utf8.Encode(fileMime.value)];
      Utf8.DecodeEncode(fileName.value);
      Utf8.DecodeEncode(fileMime.value);
    }
    r := Success(payload);
  }

  /** The text of a `uuid4` id: non-empty, lower-case hexadecimal digits and hyphens. */
  predicate IsToken(id: string) {
    |id| > 0 && forall i :: 0 <= i < |id| ==> id[i] in "0123456789abcdef-"
  }

  /** A bound on the length of every id in a finite set. */
  ghost function MaxLength(ids: set<string>): (n: nat)
    ensures forall s :: s in ids ==> |s| <= n
    decreases ids
  {
    if ids == {} then 0
    else
      var s :| s in ids;
      var m := MaxLength(ids - {s});
      if |s| > m then |s| else m
  }

  /** However many ids are taken, a fresh one can always be chosen. */
  lemma FreshTokenExists(ids: set<string>)
    ensures exists id :: IsToken(id) && id !in ids
  {
    var id := seq(MaxLength(ids) + 1, _ => 'a');
    assert IsToken(id);
  }

  /** `after` is `before` with the one new key `id` added and nothing else changed. */
  ghost predicate AddedOnly(before: map<string, Entry>, after: map<string, Entry>, id: string) {
    && id !in before
    && after.Keys == before.Keys + {id}
    && forall k :: k in before ==> after[k] == before[k]
  }

  class SecretStore {
    /** The Fernet key, fixed for the life of the process. */
    const key: Bytes
    /** The Redis keyspace. */
    var entries: map<string, Entry>
    /** The Redis clock, in seconds. */
    var now: int
    /**
      Every id `uuid4` has produced so far. `uuid4` does not repeat itself, so
      a new id is drawn outside this set, never only outside the keyspace.
    */
    var issued: set<string>

    ghost predicate Valid()
      reads this
    {
      && Fernet.ValidKey(key)
      && entries.Keys <= issued
      && forall id :: id in entries ==> WellFormed(key, entries[id].payload)
    }

    /** Redis shows a key only while its expiry time lies in the future. */
    predicate Live(id: string)
      reads this
    {
      id in entries && now < entries[id].expiresAt
    }

    /** An id that was handed out and is no longer stored: read already, or never saved. */
    predicate Retired(id: string)
      reads this
    {
      id in issued && id !in entries
    }

    constructor (key: Bytes, start: int)
      requires Fernet.ValidKey(key)
      ensures Valid()
      ensures this.key == key && entries == map[] && now == start && issued == {}
    {
      this.key := key;
      entries := map[];
      now := start;
      issued := {};
    }

    /** The passing of time. */
    method Tick(seconds: nat)
      modifies this`now
      ensures now == old(now) + seconds
    {
      now := now + seconds;
    }

    /** `uuid.uuid4()`, modelled only by never repeating an id it has produced. */
    method NewId() returns (id: string)
      requires Valid()
      modifies this`issued
      ensures Valid()
      ensures IsToken(id) && id !in old(issued) && id !in entries
      ensures issued == old(issued) + {id}
    {
      FreshTokenExists(issued);
      id :| IsToken(id) && id !in issued;
      issued := issued + {id};
    }

    /**
      `save_secret`: builds the payload, stores it under a fresh id with
      `SETEX id ttl payload`, and returns the id.
    */
    method SaveSecret(message: Option<string>, file: Option<Bytes>, fileName: Option<string>,
                      fileMime: Option<string>, ttl: int, ivMessage: Bytes, ivFile: Bytes)
      returns (r: Result<string, SaveError>)
      requires Valid() && |ivMessage| == Fernet.IvSize && |ivFile| == Fernet.IvSize
      modifies this`entries, this`issued
      ensures Valid()
      ensures old(issued) <= issued
      ensures forall id :: old(Retired(id)) ==> Retired(id)
      ensures r.Failure? <==> SaveFails(file, fileName, fileMime, ttl)
      ensures r.Failure? ==> entries == old(entries)
      ensures r.Failure? ==> exists id :: IsToken(id) && id !in old(issued) && issued == old(issued) + {id}
      ensures r.Success? ==>
                && IsToken(r.value)
                && r.value !in old(issued)
                && issued == old(issued) + {r.value}
                && AddedOnly(old(entries), entries, r.value)
                && entries[r.value].expiresAt == now + ttl
                && Encodes(key, entries[r.value].payload, message, file, fileName, fileMime)
    {
      var id := NewId();
      var built := BuildPayload(key, message, file, fileName, fileMime, ivMessage, ivFile);
      if built.Failure? {
        return Failure(built.error);
      }
      if ttl <= 0 {
        return Failure(InvalidExpireTime);
      }
      ReadBack(key, built.value, message, file, fileName, fileMime);
      entries := entries[id := Entry(built.value, now + ttl)];
      r := Success(id);
    }

    /**
      `get_secret`: None for a missing or expired id; otherwise deletes the key
      and returns the decrypted fields. A read id is retired for good.
    */
    method GetSecret(id: string) returns (r: Option<Secret>)
      requires Valid()
      modifies this`entries
      ensures Valid()
      ensures forall other :: old(Retired(other)) ==> Retired(other)
      ensures r.None? <==> !old(Live(id))
      ensures r.None? ==> entries == old(entries)
      ensures r.Some? ==> entries == old(entries) - {id} && Retired(id)
      ensures r.Some? ==> r.value == DecodePayload(key, old(entries)[id].payload)
    {
      if !Live(id) {
        return None;
      }
      var data := entries[id].payload;
      entries := entries - {id};
      r := Some(DecodePayload(key, data));
    }
  }
}
