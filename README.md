# A verified model of the gemini.py account-pooling gateway

gemini.py is an HTTP gateway. It offers an OpenAI-style chat API in front of an
enterprise chat service and spreads requests over a pool of accounts. Each account holds
browser cookies. The gateway exchanges those cookies for a short-lived signing key,
builds a signed JWT from the key, and keeps one chat session per account. Requests go to
the accounts round robin, with one retry per account. An account whose token exchange
fails is taken out of rotation. Admin routes add, edit, delete, toggle and import
accounts. A `require_api_key` decorator guards the API.

The model is split into modules:

- `Common`: options, results carrying an error text, bytes, and Python's `strip`,
  `startswith`, `endswith` and `join`.
- `PoolModel`: the pool as a value.
  - A `Pool` holds the account records, the per-index state map (token, token time,
    session, availability) and the round-robin cursor.
  - Each `AccountManager` operation is a function from the old pool to its answer and
    the new pool.
  - The same module has the token cache, the session cache, the session reset and the
    admin operations.
- `AccountPool`: the class `AccountManager`. It has the same three fields. Each method is
  proved to leave the object exactly as the `PoolModel` function of the same name says.
  The two loops of the source (rebuilding states and moving states after a delete) are
  methods with loop invariants.
- `Base64Url`: `url_safe_b64encode` and `decode_xsrf_token` over the URL-safe alphabet of
  section 5 of RFC 4648.
- `Jwt`:
  - `kq_encode`, a method with its loop;
  - the compact JSON text `json.dumps` writes for the header and the claims;
  - `create_jwt`, a JWS compact serialisation (section 7.1 of RFC 7515) with HS256
    (section 3.2 of RFC 7518).
- `Exchange`: `get_jwt_for_account`. The HTTP answer and the JSON parser are parameters.
- `Content`: `parse_base64_data_url`, the two image extractors, `get_image_base_url` and
  `build_openai_response_content`.
- `Dispatch`: the retry loop of the chat route. It exists as a pure function and as a
  method over the mutable pool, and the method is proved equal to the function.
- `Files`: the class `FileManager`.
- `Auth`: the decision of `require_api_key`, and the quote stripping of the
  `ACCOUNTS_CONFIG` setting.
- `Locking`: how the non-reentrant lock interacts with a failed token refresh.
- `Routes`: which pool-changing routes Flask registers behind `require_api_key`.

## Model

| member | source | states |
|---|---|---|
| AccountPool.AccountManager.constructor | gemini.py:299-322 | a new manager holds the configured accounts, one fresh state per index whose availability is the account's own, cursor 0 (`PoolModel.LoadConfig`) |
| AccountPool.FreshStates | gemini.py:312-319 | the rebuilt state map has exactly the indices of the account list, each a fresh state with the account's own availability |
| AccountPool.AccountManager.GetAvailableAccounts | gemini.py:340-343 | answers the available indices in increasing order, each paired with its account |
| AccountPool.AccountManager.GetNextAccount | gemini.py:345-356 | the new object and the answer are those of `PoolModel.NextAccount`; the pool invariant is kept |
| AccountPool.AccountManager.MarkAccountUnavailable | gemini.py:329-338 | the new object is `PoolModel.MarkUnavailable` of the old |
| AccountPool.AccountManager.GetAccountCount | gemini.py:358-362 | answers the number of accounts and of available indices; the second is never larger |
| AccountPool.AccountManager.EnsureJwt | gemini.py:546-563 | answer and new object are those of `PoolModel.EnsureJwt` |
| AccountPool.AccountManager.EnsureSession | gemini.py:607-635 | answer and new object are those of `PoolModel.EnsureSession` |
| AccountPool.AccountManager.ResetAllSessions | gemini.py:638-654 | the loop over the account indices leaves the object as `PoolModel.ResetAllSessions` says |
| AccountPool.AccountManager.AddAccount | gemini.py:1840-1866 | answers the new index; the new object is that of `PoolModel.AddAccount` |
| AccountPool.AccountManager.UpdateAccount | gemini.py:1869-1894 | answer and new object are those of `PoolModel.UpdateAccount` |
| AccountPool.ShiftStates | gemini.py:1897-1917 | the rebuilt map holds, at each new index below the new length, the state of the old index it came from, and nothing else |
| AccountPool.AccountManager.DeleteAccount | gemini.py:1897-1917 | answer and new object are those of `PoolModel.DeleteAccount` |
| AccountPool.AccountManager.ToggleAccount | gemini.py:1920-1940 | answer and new object are those of `PoolModel.ToggleAccount` |
| AccountPool.AccountManager.ImportConfig | gemini.py:2050-2072 | the new object is `PoolModel.ImportConfig` of the old; the invariant holds even from a broken old state |
| PoolModel.NextAccount | gemini.py:345-356 | no available account: the pool is unchanged and the error is the source's message; otherwise the pick is an available index in range, and accounts and states are untouched |
| PoolModel.AvailableBelowFacts | gemini.py:340-343 | the available list is strictly increasing and holds exactly the indices in range whose state is missing or available |
| PoolModel.PicksCycle | gemini.py:345-356 | consecutive picks read the available list cyclically, starting at the cursor reduced modulo its length |
| PoolModel.RoundRobinEachOnce | gemini.py:345-356 | k consecutive picks over k available accounts are the rotation of the available list at the cursor: every available index exactly once |
| PoolModel.CycleRotation | gemini.py:345-356 | a full cyclic read from position c is the rotation of the list at c |
| PoolModel.RotationDistinct | gemini.py:340-356 | a rotation of a strictly increasing list has the same elements, pairwise distinct |
| PoolModel.MarkUnavailable | gemini.py:329-338 | an index out of range changes nothing; otherwise only that account and its state change: unavailable, with the reason and the time recorded |
| PoolModel.MarkIdempotent | gemini.py:329-338 | marking twice equals marking once with the later reason and time |
| PoolModel.MarkCount | gemini.py:329-362 | after a mark, the available list loses exactly the marked index; its count drops by one only when that account was available |
| PoolModel.EnsureJwtCached | gemini.py:546-563 | a token younger than 240 seconds is returned without consulting the exchange, and the pool is unchanged |
| PoolModel.EnsureJwtRefresh | gemini.py:546-563 | a stale token is replaced by the exchanged one at time `now`, and nothing else changes; a failed exchange keeps the old token, marks the account unavailable with the error as reason, and re-raises the error |
| PoolModel.EnsureSessionCache | gemini.py:607-635 | a cached session is reused unless forced, and creation is then not consulted; otherwise a created session is cached; a token or creation failure propagates; session handling never changes availability |
| PoolModel.EnsureSessionKeys | gemini.py:607-635 | a session lookup keeps the number of accounts and the set of indices that have a state |
| PoolModel.ClearSession | gemini.py:646-650 | token, token time and availability kept; what remains of the session is absent or the empty name |
| PoolModel.ResetAllSessions | gemini.py:638-654 | no account index keeps a non-empty session; tokens, times, availability, accounts and cursor are unchanged |
| PoolModel.ResetThenEnsureCreates | gemini.py:607-654 | after a reset, the next session lookup for an account creates and caches a new session |
| PoolModel.NewAccount | gemini.py:1845-1852 | a new account is available, with no reason and no time |
| PoolModel.AddAccount | gemini.py:1840-1866 | the account is appended at index `len(accounts)`, which is answered, and gets a fresh available state |
| PoolModel.UpdateAccount | gemini.py:1869-1894 | an index out of range answers the not-found error and changes nothing; otherwise only that account changes |
| PoolModel.DeleteAccount | gemini.py:1897-1917 | an index out of range answers the not-found error; otherwise the account is removed and every later account and state moves down one index |
| PoolModel.AddThenDelete | gemini.py:1840-1917 | deleting the account just added gives back the original pool |
| PoolModel.ToggleAccount | gemini.py:1920-1940 | the answer is the negated availability; account and state both take it; re-enabling clears the reason and time; nothing else changes |
| PoolModel.ToggleTwice | gemini.py:1920-1940 | toggling twice restores the states and the account's availability |
| PoolModel.ImportConfig | gemini.py:2050-2072 | the accounts are replaced, every index gets a fresh state with the account's own availability, and the invariant holds |
| PoolModel.NextAccountValid | gemini.py:345-356 | picking keeps the pool invariant |
| PoolModel.MarkValid | gemini.py:329-338 | marking keeps the pool invariant |
| PoolModel.AddAccountValid | gemini.py:1840-1866 | adding keeps the pool invariant |
| PoolModel.UpdateAccountValid | gemini.py:1869-1894 | updating keeps the pool invariant |
| PoolModel.DeleteAccountValid | gemini.py:1897-1917 | deleting, with its re-indexing of states, keeps the pool invariant |
| PoolModel.ToggleAccountValid | gemini.py:1920-1940 | toggling keeps the pool invariant |
| PoolModel.ResetAllSessionsValid | gemini.py:638-654 | resetting keeps the pool invariant |
| PoolModel.EnsureJwtValid | gemini.py:546-563 | a token lookup, including a failed one, keeps the pool invariant |
| PoolModel.EnsureSessionValid | gemini.py:607-635 | a session lookup keeps the pool invariant |
| Base64Url.CharSextet | gemini.py:453-458 | every URL-safe character decodes to the sextet it encodes |
| Base64Url.SextetRoundTrip | gemini.py:435-458 | every sextet is written as a URL-safe character that decodes back to it |
| Base64Url.RStripChar | gemini.py:435-437 | the result is a prefix of the input that does not end in the stripped character |
| Base64Url.EncodeBareLength | gemini.py:435-437 | four characters per three bytes, and two or three for a final partial group |
| Base64Url.PaddedIsBarePlusPadding | gemini.py:435-437 | the padded encoding is the bare encoding followed by "==", "=" or nothing, by the length modulo 3 |
| Base64Url.UrlSafeB64EncodeIsBare | gemini.py:435-437 | stripping '=' from the padded encoding leaves exactly the bare encoding |
| Base64Url.UrlSafeB64EncodeAlphabet | gemini.py:435-437 | the output uses only A-Z a-z 0-9 - _, has no '=' and no '.', and has the bare length |
| Base64Url.RepadBare | gemini.py:453-458 | re-padding a bare encoding restores exactly the padding the encoder stripped |
| Base64Url.DecodeEncodePadded | gemini.py:453-458 | decoding the padded encoding gives back the bytes |
| Base64Url.DecodeXsrfTokenOfEncode | gemini.py:435-458 | `decode_xsrf_token(url_safe_b64encode(b)) == b` for every byte string |
| Jwt.Hex4 | gemini.py:480-481 | four printable hexadecimal digits |
| Jwt.EscapeChar | gemini.py:480-481 | the ASCII-only JSON encoder writes every character as printable ASCII |
| Jwt.EscapedPlain | gemini.py:480-481 | printable text without quote or backslash is written unchanged |
| Jwt.ObjectText | gemini.py:465-481 | the compact JSON text of an object is printable ASCII |
| Jwt.WidenAscii | gemini.py:440-450 | `kq_encode`'s bytes of an ASCII string are its characters, one byte each |
| Jwt.WidenCharLittleEndian | gemini.py:440-450 | a code point above 255 becomes two bytes, low byte first, that give the code point back |
| Jwt.KqEncode | gemini.py:440-450 | the loop answers the URL-safe encoding of the widened bytes; a code point above 0xFFFF makes it raise |
| Jwt.SplitThree | gemini.py:482-487 | three dot-free parts joined by dots split back into those three parts |
| Jwt.SegmentDecodes | gemini.py:480-481 | an encoded header or payload decodes back to the bytes of its JSON text |
| Jwt.SignedTokenStructure | gemini.py:480-487 | a token has exactly three segments: header, payload, and the MAC of the first two under the key |
| Jwt.CreateJwtStructure | gemini.py:461-487 | the token's segments decode to the header (HS256, JWT, the key id), the claims (`sub` = "csesidx/" + csesidx, `iat` = `nbf` = now, `exp` = now + 300) and that MAC |
| Exchange.StripXssiPrefix | gemini.py:511-513 | a body without the `)]}'` prefix is unchanged; with it, the rest is stripped of surrounding whitespace |
| Exchange.StripXssiPrefixOfFramed | gemini.py:511-515 | the prefix and its newline are removed, and the JSON text is returned as written |
| Exchange.ReadKeyResponse | gemini.py:516-524 | succeeds iff both `keyId` and `xsrfToken` are present; the error names the account, shows the answer, and appends the server's `message` when there is one |
| Exchange.TokenExchange | gemini.py:490-528 | missing cookie or csesidx answers the source's error; a token comes only from a parsed answer with both keys, and is `create_jwt` over the decoded key |
| Exchange.ExchangeSignsWithGrantedKey | gemini.py:490-528 | a framed answer granting a key yields a token whose signature segment is the MAC of its first two segments under that very key |
| Exchange.CachedTokenLifetime | gemini.py:546-563 | a token installed at t is reused until t + 240, and only while at least 60 of its 300 seconds remain |
| Content.IndexFrom | gemini.py:810 | the first occurrence at or after the start, or the end of the text |
| Content.ParseBase64DataUrl | gemini.py:804-817 | a match gives a non-empty MIME type without ';' and non-empty data without a newline, which rebuild a prefix of the input that ends at the end or at a newline |
| Content.ParseBase64DataUrlOfWellFormed | gemini.py:804-817 | every well-formed data URL is parsed back to its MIME type and data |
| Content.ParseDataValue | gemini.py:804-849 | a falsy value gives nothing; a truthy non-string raises; a string is parsed |
| Content.ExtractImagesFromFilesArray | gemini.py:820-849 | at most one image per item, all inline; raises iff some item raises |
| Content.FilesArrayOfImages | gemini.py:820-849 | a `files` array of well-formed inline images gives back exactly those images, in order |
| Content.ExtractImagesFromOpenAIContent | gemini.py:852-898 | a string is the text with no images; another non-list is rendered; a list gives the newline-joined text parts and the images in order, and fails iff an image item raises or a text part is not a string |
| Content.TextItemsJoined | gemini.py:866-873 | text items contribute their texts as strings, in order |
| Content.TextItemsNoImages | gemini.py:866-896 | text items contribute no images |
| Content.TextOnlyContent | gemini.py:852-898 | content made of text items is the newline-joined texts with no images |
| Content.PlainImageUrl | gemini.py:875-890 | an `image_url` item with a URL that is not a data URL is passed on as a URL image |
| Content.GetImageBaseUrl | gemini.py:1625-1636 | a blank setting gives the host URL; otherwise the stripped setting, ending in exactly one added '/' when it lacked one |
| Content.GetImageBaseUrlIdempotent | gemini.py:1625-1636 | a configured base URL, configured again, is unchanged |
| Content.LastSegment | gemini.py:1664 | the result has no '/' and is a suffix of the link |
| Content.LastSegmentAfterSlash | gemini.py:1653-1665 | the last segment of "prefix/name" is the name |
| Content.BuildOpenAIResponseContent | gemini.py:1639-1667 | the answer starts with the reply text; without named images it is that text; with them it ends with the image lines |
| Content.MarkdownImageOfFile | gemini.py:1653-1665 | an image line shows the file name as alt text and links it under `base + "image/"` |
| Content.ResponseWithImages | gemini.py:1639-1667 | with text and named images: text, a blank line, then the image lines |
| Content.ImageOnlyResponse | gemini.py:1656-1665 | with no text and named images, the answer is exactly the image lines, with no blank line |
| Content.ResponseWithOneImage | gemini.py:1639-1667 | the answer for one named image, written out in full |
| Dispatch.Uploaded | gemini.py:1529-1533 | only non-empty upload ids are kept, never more than there were uploads |
| Dispatch.Attempt | gemini.py:1519-1540 | an attempt keeps every account keyed to a state and keeps the account count |
| Dispatch.AttemptPicks | gemini.py:1519-1521 | an account is picked iff one is available; otherwise nothing changes and the error is the source's message |
| Dispatch.AttemptAvailability | gemini.py:1519-1540 | an attempt never re-enables an account, and disables none when the token exchange succeeds |
| Dispatch.AttemptServes | gemini.py:1519-1540 | file ids only grow; a served attempt used an available account and sent the resolved ids followed by its uploads |
| Dispatch.RunEnds | gemini.py:1518-1549 | the remaining attempts number from one to all; only a first attempt with nothing to pick aborts; otherwise the loop fails with its last error after every attempt |
| Dispatch.RunAvailability | gemini.py:1518-1549 | the loop never re-enables an account, and disables none while every exchange succeeds |
| Dispatch.RunServes | gemini.py:1518-1549 | a served answer is the last attempt's chat answer, for ids that extend the starting ones, from an account in range |
| Dispatch.ChatWithRetryBounds | gemini.py:1511-1549 | at most one attempt per account; none when there are no accounts, answered by the 500 with no error; no account is re-enabled; none is disabled while exchanges succeed |
| Dispatch.ChatWithRetryAborts | gemini.py:1518-1622 | the handler escapes to its outer error answer iff accounts exist but none is available |
| Dispatch.FirstAnswerServed | gemini.py:1518-1549 | a first attempt that gets a chat answer is served after exactly one attempt |
| Dispatch.AttemptDemotes | gemini.py:546-563 | an attempt whose picked account has a stale token and whose exchange fails ends with that error and leaves the account unavailable |
| Dispatch.AttemptStaleFails | gemini.py:1519-1540 | with every token stale and the exchange failing, an attempt fails; with an account picked, the available list shrinks by exactly one |
| Dispatch.RunStaleExhausts | gemini.py:1518-1549 | while every token is stale and every exchange fails, the loop never serves and leaves no account available |
| Dispatch.ChatWithRetryAllExchangesFail | gemini.py:1511-1549 | with an account available and every exchange failing, every attempt is made, the loop fails with its last error, and no account stays available |
| Dispatch.TraceSteps | gemini.py:1518-1549 | each attempt of the trace runs on the pool the one before left, and every attempt before the last failed |
| Dispatch.RunFollowsTrace | gemini.py:1518-1549 | the loop makes exactly the trace's attempts and serves iff the last one succeeded, with its account and answer |
| Dispatch.ChatWithRetryStopsAtFirstSuccess | gemini.py:1511-1549 | the route's loop stops at its first successful attempt, after attempts that all failed |
| Dispatch.AttemptOnce | gemini.py:1519-1540 | the loop body over the mutable pool, with its upload loop, does what `Attempt` says |
| Dispatch.ChatWithRetryOnPool | gemini.py:1511-1549 | the loop over the mutable pool ends with the outcome and pool of `ChatWithRetry` |
| Files.Record | gemini.py:375-390 | the record carries both ids, purpose "assistants", object "file" and the creation time |
| Files.Without | gemini.py:401-406 | the order without the key: exactly the other keys, and no longer |
| Files.WithoutDistinct | gemini.py:401-406 | removing a key keeps the order free of duplicates |
| Files.DistinctCardinality | gemini.py:408-410 | a duplicate-free order of exactly the map's keys is as long as the map |
| Files.FileManager.constructor | gemini.py:372-373 | a new manager holds no files |
| Files.FileManager.AddFile | gemini.py:375-390 | the record is stored under its id; a new id is appended to the order, and a replaced one keeps its place |
| Files.FileManager.GetFile | gemini.py:392-394 | answers the record iff the id is known |
| Files.FileManager.GetGeminiFileId | gemini.py:396-399 | answers the upstream id iff the id is known |
| Files.FileManager.GetSessionForFile | gemini.py:412-415 | answers the session name iff the id is known |
| Files.FileManager.DeleteFile | gemini.py:401-406 | answers whether the id was known, and removes it from the map and the order |
| Files.FileManager.ListFiles | gemini.py:408-410 | every record exactly once, in insertion order |
| Files.WithoutAbsent | gemini.py:401-406 | deleting an unknown id leaves the order as it is |
| Files.AddThenDeleteRestores | gemini.py:375-406 | deleting the file just added restores the map and the order |
| Auth.RemoveAll | gemini.py:171 | removing a prefix never lengthens the header |
| Auth.RemoveAllAbsent | gemini.py:171 | a header without the prefix is unchanged |
| Auth.Authorize | gemini.py:148-191 | proceeds iff authentication is off, or a key is configured and the header carries it; refusals are 503 exactly when no key is configured, else 401, "required" for an empty key and "failed" for a wrong one |
| Auth.AcceptsConfiguredKey | gemini.py:148-191 | the configured key is accepted bare, after `Bearer ` and after `Api-Key ` |
| Auth.NoBearerInApiKey | gemini.py:171 | `Api-Key ` followed by a key without `Bearer ` contains no `Bearer ` |
| Auth.AccountsJsonText | gemini.py:206-217 | blank gives nothing; otherwise the stripped text, never longer |
| Auth.AccountsJsonTextUnquotes | gemini.py:206-217 | a value in single or in double quotes gives back the text between them |
| Auth.AccountsJsonTextUnquoted | gemini.py:206-217 | a stripped value that does not start with a quote, such as a JSON list, is passed on unchanged |
| Locking.MarkLocked | gemini.py:329-338 | entered with the lock held it never returns; entered with it free it is `MarkUnavailable` |
| Locking.FailedRefreshDeadlocks | gemini.py:546-563 | with the source's lock, a stale token whose refresh fails never returns |
| Locking.AsWrittenOtherwise | gemini.py:546-563 | in every other case, the source's locking returns what `PoolModel.EnsureJwt` says |
| Locking.MarkAfterReleaseReturns | gemini.py:546-563 | marking after the lock is released always returns `PoolModel.EnsureJwt`'s outcome: the account is disabled with the error as reason, and the error propagates |
| Routes.ImportView | gemini.py:2052-2072 | a body that is not an object answers 400 and leaves the accounts and states unchanged; otherwise 200 with the accounts replaced and the invariant restored |
| Routes.ImportConfigUnauthenticated | gemini.py:2050-2072 | as registered, a request that `require_api_key` refuses still replaces every account (200) |
| Routes.ResetSessionsUnauthenticated | gemini.py:1713-1729 | as registered, a refused request still drops every session (200) |
| Routes.GuardedImportConfig | gemini.py:2050-2072 | with the wrapper registered, a refusal answers 401/503 and leaves the pool alone, a wrong key gives 401, and an admitted request is the view |
| Routes.GuardedResetSessions | gemini.py:1713-1729 | the same for the session reset |

## Left out

- HTTP, Flask and the request and response JSON shapes are not modelled. The routes
  appear only as the operations they perform on the pool, the file map and the
  authentication decision.
- The network is replaced by parameters: the token exchange answer (`fetch`), session
  creation, image uploads and the streamed chat. They appear as the `Answers` of each
  attempt. The clock is the parameter `now`.
- Stand-ins for library code:
  - HMAC-SHA256 is the parameter `mac`;
  - `json.loads` is the parameter `parse`. It answers an object with string values or
    an error. The source's `json.loads` can also give a list, a string or a number.
    For a list or a string, `"keyId" not in data` (gemini.py:516) is a membership or
    substring test. A number makes it raise `TypeError`. A numeric `keyId` is passed on
    unchanged. The model does not represent these cases;
  - Python's rendering of a dictionary or value in error texts is `render`;
  - `uuid` ids are given, not generated.
- `unavailable_time` is a number in the model; the source stores an ISO-8601 text of the
  same moment.
- Decoding rejects characters outside the alphabet. Python's `urlsafe_b64decode` skips
  them. `DecodePadded` also rejects a `=` before the last group and any data after the
  padding. Python's non-strict decoder skips a stray `=` and stops at the first complete
  padding, so "QQ==QUJD" decodes to b"A". Only the well-formed path is proved, which is
  the one the round trip uses.
- Exception texts of Python itself are modelled as fixed strings (`AttributeError …`,
  `TypeError …`, the base64 errors); the source's texts are whatever the runtime prints.
- Threads are not modelled: every operation is one atomic step. The single exception is
  `Locking`, which models the re-acquisition of the non-reentrant lock (see Findings).
- Logging, `print`, the image cache on disk, `save_config`, the proxy check, model
  listing and the file-upload route are not part of this model.
- The message extraction of the chat route (gemini.py:1458-1497) is not modelled; the
  loop starts from the resolved message, images and file ids.
- The file-listing, file-get and file-delete routes are not modelled; `FileManager` is.
- `REQUIRE_AUTH` is a boolean, true when the setting lower-cases to "true".
- An account entry is a record with a fixed set of string fields; a key the dictionary
  lacks reads as "". An import item that is not a dictionary, which makes the source
  raise, is not representable.
- `PoolModel.DeleteAccount`: the source fills a slot whose old index had no state with
  an empty dictionary. The model leaves that slot without a state. The pool invariant
  rules out such slots, so the difference cannot be observed from a valid pool.
- `import_config` also replaces the whole `config` dictionary (proxy, models). Only the
  accounts and states are modelled. The replacement happens at gemini.py:2056, before
  `data.get` can raise at gemini.py:2057. So it also happens on the 400 path for a body
  that is not an object. After that, `config.get("proxy")` raises in the token exchange
  (gemini.py:553), in session creation (gemini.py:626) and in the chat loop
  (gemini.py:1525). The model does not capture this.
- Uploaded image ids accumulate across retries, as in the source: a later attempt sends
  the ids uploaded by the earlier ones too. The model states this behaviour; it does
  not change it.
- `Dispatch.Attempt`: its contract states only that accounts stay keyed to states and
  that the account count is kept. What the attempt does is stated by `AttemptPicks`,
  `AttemptAvailability` and `AttemptServes`.

## Findings

| source | as written | input that shows it | evidently intended | confidence | as-written member | corrected member |
|---|---|---|---|---|---|---|
| gemini.py:546-563, gemini.py:329-331 | `ensure_jwt_for_account` holds the `threading.Lock` while it refreshes. On failure it calls `mark_account_unavailable`, which acquires the same non-reentrant lock again. | An account whose token is absent or older than 240 seconds and whose token exchange raises (expired cookie, network error). The thread then waits for itself forever, and every later caller of the lock waits too. | Mark the account unavailable and re-raise the error. | not executed | Locking.FailedRefreshDeadlocks | Locking.MarkAfterReleaseReturns |
| gemini.py:2050-2051, gemini.py:1713-1714 | `@require_api_key` is written above `@app.route`. Flask therefore registers the bare view, and the authentication wrapper is never called. | `REQUIRE_AUTH=true`, a configured `DOWNSTREAM_API_KEY`, and a POST to `/api/config/import` or `/v1/sessions/reset` without the key. The accounts are replaced, or all sessions dropped, and the answer is 200. | The other admin routes put the decorator below the route, so a request without the key is refused with 401 and changes nothing. | not executed | Routes.ImportConfigUnauthenticated | Routes.GuardedImportConfig |
