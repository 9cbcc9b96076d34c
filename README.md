# Vaultroom one-time secret store, in Dafny

Vaultroom shares a text message or a small file through a link that opens once.
The backend keeps each secret in Redis under a random id with a time-to-live
and encrypts the message and file bytes with Fernet. Reading the secret deletes
it. This project models that backend core and proves what it promises:

- `backend/storage.py`: `save_secret` and `get_secret`;
- `backend/main.py`: the create and retrieve handlers.

Modules, leaves first:

- `Wrappers` (`wrappers.dfy`): `Option` and `Result`.
- `Octets` (`octets.dfy`): the `byte` type.
- `Utf8` (`utf8.dfy`): `str.encode()` and strict `bytes.decode()`, with their round trip.
- `Base64` (`base64.dfy`): `base64.b64encode`, following section 4 of RFC 4648, and a strict decoder. The decoder accepts only canonical text (section 3.5), with zero pad bits. The round trip is proved.
- `Fernet` (`fernet.dfy`): a stand-in for Fernet `encrypt`/`decrypt`.
  - It keeps Fernet's version byte 0x80, its 32-byte key and its fresh 16-byte IV.
  - The cipher is a keyed, invertible byte-wise transform, so the round trip is proved rather than taken on trust.
  - It is not a model of Fernet's security.
- `Storage` (`storage.dfy`): the class `SecretStore`.
  - It holds the Redis keyspace as a map from id to (payload, expiry time).
  - It holds the Redis clock `now` and the server key.
  - It holds `issued`, every id `uuid4` has produced, so that no id is ever handed out twice.
  - An id that was issued and is no longer stored is retired. Once retired it is never live again.
  - An entry is visible only while `now < expiresAt`.
  - The payload dictionary is stored as the dictionary itself.
  - `SaveSecret` and `GetSecret` are its methods. The invariant `Valid()` says every stored payload can be read back.
- `Api` (`api.dfy`): the handlers `CreateSecret` and `RetrieveSecret`, written as methods over the store. It also holds the pure parts:
  - the presence check;
  - the link;
  - the response mapping with Base64;
  - two client methods that state read-once and expiry over whole request sequences.

Randomness is passed in as parameters:

- `uuid4` is modelled only as the choice of a URL-safe id that was never issued before.
- Fernet's IVs are method parameters.

Points where the code does less than a one-time secret service might be expected to:

- The server enforces no size limit on messages or files.
- The handler does not reject a non-positive ttl with a 4xx. A ttl of zero or less reaches Redis's `SETEX`, which refuses it. The request then fails with a 500 and nothing is stored.
- An empty upload with no message is not rejected. The presence check tests the upload object, not its bytes, so the request is accepted and stores a payload with no keys. Its retrieval answers 200 with no message, no file data and empty name and type.
- A non-empty file whose upload has no filename or content type makes `save_secret` raise in `.encode()`. This is a 500, and nothing is stored.

## Model

| member | source | states |
|---|---|---|
| `Utf8.Encode` | backend/storage.py:20 | `message.encode()` takes between one and four bytes per character |
| `Utf8.DecodeChar` | backend/storage.py:43 | strict decoding consumes one to four bytes per character, or fails |
| `Utf8.Decode` | backend/storage.py:43-46 | strict `.decode()` yields at most one character per byte, or fails |
| `Utf8.DecodeEncode` | backend/storage.py:43-46 | `s.encode().decode() == s` for every string, so message, name and type text survive storage |
| `Utf8.EncodeDecode` | backend/storage.py:43-46 | bytes that decode are exactly the encoding of the decoded text, so decoding loses nothing |
| `Base64.Encode` | backend/main.py:85 | `b64encode` output is 4·⌈n/3⌉ characters |
| `Base64.EncodeAlphabet` | backend/main.py:85 | each character of `b64encode` output is from the RFC 4648 section 4 alphabet or is the pad `=` |
| `Base64.DecodeEncode` | backend/main.py:85 | decoding the Base64 text of any bytes gives back exactly those bytes |
| `Base64.EncodeInjective` | backend/main.py:85 | different file contents never produce the same `fileData` |
| `Fernet.Encrypt` | backend/storage.py:20-23 | in the stand-in's layout (not Fernet's), a token is the version byte 0x80, the IV, then one byte per plaintext byte |
| `Fernet.Decrypt` | backend/storage.py:43-44 | in the stand-in's layout, a token that decrypts yields as many bytes as it carries after its 17-byte header |
| `Fernet.DecryptEncrypt` | backend/storage.py:43-44 | decrypting with the server key a token made with it gives back the plaintext |
| `Storage.BuildPayload` | backend/storage.py:16-25 | the payload has `"message"` exactly when the message is non-empty, and `"file"`, `"file_name"`, `"file_mime"` exactly when the file bytes are non-empty; each value gives back its argument; a non-empty file with a missing name or type raises |
| `Storage.DecodePayload` | backend/storage.py:42-47 | the returned message or file is present exactly when its key is stored, and it is what the stored token decrypts to. A stored name or type is the text its bytes decode to, and a missing one reads as "" |
| `Storage.ReadBack` | backend/storage.py:42-46 | reading a payload built from the saved arguments returns the saved message and file bytes. Absent message and file read as None; absent name and type read as "" |
| `Storage.EmptyUploadStoresNothing` | backend/storage.py:19-25 | an empty file with no message yields the empty payload |
| `Storage.FreshTokenExists` | backend/storage.py:15 | whatever ids are taken, an unused id of uuid characters exists |
| `Storage.SecretStore.NewId` | backend/storage.py:15 | the new id is of uuid characters and was never issued before, so it is not in the keyspace; it is recorded as issued |
| `Storage.SecretStore.constructor` | backend/storage.py:11-12 | the store starts empty, with no ids issued and a valid 32-byte key |
| `Storage.SecretStore.SaveSecret` | backend/storage.py:14-29 | it fails exactly on non-empty file bytes with a missing name or type, or on a non-positive ttl. Then the keyspace is unchanged, but the id already drawn stays issued, so it is retired. On success only the new, never-issued key is added, it expires at `now + ttl`, and its payload encodes the arguments. A retired id stays retired |
| `Storage.SecretStore.GetSecret` | backend/storage.py:32-47 | None exactly when the id is absent or expired, and the keyspace is unchanged. Otherwise the key is deleted and retired, and the decoded payload is returned. A retired id stays retired |
| `Api.Provided` | backend/main.py:59 | a refused request has no non-empty message and no file bytes, so storage would keep nothing from it. The only accepted request that stores nothing is an empty upload with no message |
| `Api.SecretUrl` | backend/main.py:72 | the link parses back to exactly the id through the frontend route `/secrets/:id` (frontend/src/App.tsx:14), for any non-empty id without '/' |
| `Api.Present` | backend/main.py:81-86 | a retrieved secret always gives a 200 body, never the 404 |
| `Api.PresentKeepsFields` | backend/main.py:81-86 | `message`, `fileName`, `fileMime` are copied unchanged. `fileData` is present exactly when there are file bytes, and it decodes to them |
| `Api.ShownRoundTrip` | backend/main.py:81-86 | the first view of a created secret shows the non-empty message, and the file name, type and bytes for a non-empty file. An empty upload shows no data and empty name and type |
| `Api.CreateSecret` | backend/main.py:51-72 | 400 exactly when there is neither a message nor an upload, and 500 exactly when `save_secret` raises; both leave the keyspace unchanged. A 400 issues no id. After a 500 the id drawn by `save_secret` stays issued, so it is retired. Otherwise the url is `/secrets/<id>` for a never-issued id, which is the one id added to the issued set, stored with the unchanged ttl. A retired id stays retired |
| `Api.RetrieveSecret` | backend/main.py:76-87 | the one 404 "Secret not found or expired" exactly when the id is not live, whether never created, expired or already read. Otherwise the key is deleted and retired, and the stored fields are returned. A retired id is always the 404 |
| `Api.RetrieveAgainLater` | backend/main.py:77-79 | an id served once is a 404 when retrieved again, even after another secret was created and time passed |
| `Api.ShareThenOpen` | backend/main.py:51-87 | a created secret opened before its ttl shows what was sent. Opened at or after its ttl it is a 404, and a second opening is always a 404 |

## Left out

- Redis as a server: the connection from `REDIS_URL`, network errors and `RedisError` are not modelled. The model is a sequential map.
- The `/healthcheck` handler (backend/main.py:90-96) only pings Redis, so it is left out too.
- Atomicity: `get` and `delete` are two separate Redis calls. Races between concurrent readers are not modelled.
- Redis's own removal of expired keys is not modelled. Expired entries stay in the map but are never visible.
- The expiry boundary is `now < expiresAt` on a whole-second clock that advances only through `Tick`. Redis counts milliseconds.
- Very large ttl values, which Redis also refuses, are not modelled.
- Fernet internals (AES-CBC, HMAC, timestamp, URL-safe Base64 token text, loading the key from `SECRET_KEY`) are not modelled. The `Fernet` module keeps only the token's version byte, key size, IV and round trip.
- Fernet.Encrypt and Fernet.Decrypt: the token layout is the stand-in's (0x80, IV, one byte per plaintext byte). A real Fernet token also has an 8-byte timestamp before the IV, a block-padded AES-CBC ciphertext and a 32-byte HMAC, all in base64url.
- The `str(payload)` / `eval` text format is not modelled. The dictionary is stored as it is, and Python's repr/eval round trip on a dict of bytes is taken as given.
- `uuid4` randomness, its fixed 36-character format and its unguessability are not modelled. The model keeps only that it never repeats an id and uses URL-safe characters.
- A stored payload that cannot be decrypted or decoded would make `get_secret` raise after the delete. Under the store invariant `Valid()` this cannot happen, so that path is not modelled.
- The rate limiter, CORS middleware, dotenv loading and FastAPI/Pydantic request parsing are not modelled. This includes the 422 for a missing or non-integer ttl, and the null fields that `response_model` adds to the create response.
- The frontend (React forms, routing, the client-side 5 MB check, blur overlay, PDF preview) is not modelled. Only the route `/secrets/:id` appears, as the partner of the link.
