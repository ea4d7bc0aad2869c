# URL shortener core, modelled in Dafny

This project models the core of an ASP.NET URL shortener. The model has three layers over one store of `ShortUrl` records, and each layer is proved against the layer below it.

- **The authorisation and validation gate (`UserUrlService`).** Every operation runs its checks in a fixed order and stops at the first failure:
  1. the user exists, else `UknownUser` (the source spells the code this way);
  2. the input is valid, else `InvalidData`;
  3. the state check passes, else `NotUnique` or `NotFound`;
  4. the caller owns the record or is an admin, else `Forbidden`;
  5. the mutation runs, and any fault in it becomes an uncoded failure carrying the fault's message.
  Each operation is a pure function from the store, the collaborators' behaviour and the arguments to a `Step`. A `Step` holds the result, the store afterwards and the log of repository and shortener calls, so "nothing was looked up or stored" is a provable statement.
- **Key derivation with collision retry (`UrlShortenerService`).** The key is the first six lowercase hex characters of SHA-256 of the URL followed by a salt. The salt goes 0, 1, 2, … until the repository reports the key unused. The returned key is characterised as the key of the least free salt. The hex encoding of `HashHelper` is modelled exactly; SHA-256 itself is an uninterpreted function.
- **Repository semantics (`ShortUrlRepository`).** The LINQ queries become filter, skip/take window, first-match lookup and removal over a sequence kept in insertion order ("storage order" below), with exact string comparison, as the in-memory provider the repository tests use behaves.
- **Supporting modules.**
  - `OperationResults`: the result envelope.
  - `ShortUrls`: the entity, whose equality ignores the creation date.
  - `Sequences`: the list operators.
  - `StoreInvariants`: whole-system properties. It composes the gate with the real shortener, shows that the store keeps Ids, keys and URLs unique under every operation, and proves that a created key resolves back to its URL.

Collaborators that can throw are passed in as what they did. An `Attempt<T>` is either `Returned(value)` or `Threw(message)`. A `Completion` is either `Completes` or `Throws(message)`. The identity store is a `UserOracle` that says whether a user is found and whether a found user is in the Admin role.

## Model

| member | source | states |
|---|---|---|
| OperationResults.Ok | URLShortener/URLShortener/Core/Results/OperationResult.cs:9 | a success with no message and no code |
| OperationResults.Fail | URLShortener/URLShortener/Core/Results/OperationResult.cs:10-11 | a failure carrying the message and the code verbatim; without a code the code is null |
| OperationResults.TypedOk | URLShortener/URLShortener/Core/Results/OperationResultT.cs:7-14 | a success whose Data is the given value |
| OperationResults.TypedFail | URLShortener/URLShortener/Core/Results/OperationResultT.cs:16-24 | a failure with the message and the code, and Data left at its default |
| OperationResults.FromOperationResult | URLShortener/URLShortener/Core/Results/OperationResultT.cs:25-34 | copies Success, ErrorMessage and ErrorCode unchanged and leaves Data at default, so a consistent result stays consistent |
| OperationResults.FromOperationResultRoundTrip | URLShortener/URLShortener/Core/Results/OperationResultT.cs:25-34 | a data-less typed result is rebuilt exactly from its base-class view |
| ShortUrls.Equals | URLShortener/URLShortener/Models/ShortUrl.cs:15-25 | true exactly when the other object is a ShortUrl that differs at most in CreatedDate |
| ShortUrls.EqualityIgnoresCreatedDate | URLShortener/URLShortener/Models/ShortUrl.cs:20-24 | two records are equal iff Id, Key, OriginalUrl and UserId all agree |
| ShortUrls.EqualityIsEquivalence | URLShortener/URLShortener/Models/ShortUrl.cs:20-23 | equality is reflexive, symmetric and transitive |
| ShortUrls.NeverEqualToOtherObjects | URLShortener/URLShortener/Models/ShortUrl.cs:17-18 | null and non-ShortUrl objects are never equal to a record |
| ShortUrls.HashCode | URLShortener/URLShortener/Models/ShortUrl.cs:27-31 | the hash combines Id, Key, OriginalUrl and UserId only, so any record equal to this one gives the same combined value |
| ShortUrls.EqualRecordsHashEqually | URLShortener/URLShortener/Models/ShortUrl.cs:27-31 | equal records have equal hash codes, whatever the combining function |
| HashHelper.HexDigit | URLShortener/URLShortener/Helpers/HashHelper.cs:13 | a nibble's digit is lowercase hex and reads back as the nibble |
| HashHelper.ByteHex | URLShortener/URLShortener/Helpers/HashHelper.cs:13 | the "x2" form of a byte is two lowercase hex digits whose value is the byte |
| HashHelper.Hex | URLShortener/URLShortener/Helpers/HashHelper.cs:12-14 | the encoding has twice as many characters as bytes, all lowercase hex |
| HashHelper.Unhex | URLShortener/URLShortener/Helpers/HashHelper.cs:12-14 | decoding an even-length hex string yields half as many bytes |
| HashHelper.HexLayout | URLShortener/URLShortener/Helpers/HashHelper.cs:12-13 | byte i occupies characters 2i (high nibble) and 2i+1 (low nibble), zero-padded |
| HashHelper.HexRoundTrip | URLShortener/URLShortener/Helpers/HashHelper.cs:12-14 | decoding the encoding gives back the bytes |
| HashHelper.HexInjective | URLShortener/URLShortener/Helpers/HashHelper.cs:12-14 | distinct digests give distinct hex strings |
| HashHelper.HexPrefix | URLShortener/URLShortener/Helpers/HashHelper.cs:12-14 | the first six characters depend only on the first three bytes |
| HashHelper.ComputeSha256Hash | URLShortener/URLShortener/Helpers/HashHelper.cs:8-15 | the loop's output is the hex encoding of the digest, 64 characters for a 32-byte SHA-256 digest |
| Sequences.FilterMembers | URLShortener/URLShortener/Repositories/ShortUrlRepository.cs:31 | Where keeps exactly the elements satisfying the predicate, drawn from the input |
| Sequences.Skip | URLShortener/URLShortener/Repositories/ShortUrlRepository.cs:41 | a suffix of the input: all of it for a count of zero or less, none past the end |
| Sequences.Take | URLShortener/URLShortener/Repositories/ShortUrlRepository.cs:42 | a prefix of the input: none for a count of zero or less, all of it past the end |
| Sequences.FirstIndex | URLShortener/URLShortener/Repositories/ShortUrlRepository.cs:17-25 | the first index whose element matches, or none when no element matches |
| Sequences.WindowIsSlice | URLShortener/URLShortener/Repositories/ShortUrlRepository.cs:37-44 | a non-negative skip/take window is the contiguous slice, cut short at the end |
| ShortUrlRepository.Add | URLShortener/URLShortener/Repositories/ShortUrlRepository.cs:11-15 | appends one record and leaves the rest alone; storage fills in a default Id; afterwards its URL and key exist |
| ShortUrlRepository.GetByKey | URLShortener/URLShortener/Repositories/ShortUrlRepository.cs:17-20 | the first record with the key, and null exactly when no record has it |
| ShortUrlRepository.GetById | URLShortener/URLShortener/Repositories/ShortUrlRepository.cs:22-25 | the first record with the Id, and null exactly when no record has it |
| ShortUrlRepository.GetByUserId | URLShortener/URLShortener/Repositories/ShortUrlRepository.cs:27-35 | for a non-negative skip and take, the slice [skip .. skip+take] of the user's records in storage order, cut short at the end; none for a null or unknown user; all of them under an unbounded window |
| ShortUrlRepository.GetAll | URLShortener/URLShortener/Repositories/ShortUrlRepository.cs:37-44 | the slice store[skip .. skip+take] truncated at the end; empty for take 0 |
| ShortUrlRepository.Delete | URLShortener/URLShortener/Repositories/ShortUrlRepository.cs:46-50 | removes the record with the same Id and keeps every other record; a record not stored is a concurrency fault |
| ShortUrlRepository.Exist | URLShortener/URLShortener/Repositories/ShortUrlRepository.cs:65-68 | true exactly when the query for records with this OriginalUrl is not empty |
| ShortUrlRepository.ExistKey | URLShortener/URLShortener/Repositories/ShortUrlRepository.cs:70-73 | true exactly when the query for records with this Key is not empty |
| ShortUrlRepository.DeleteRange | URLShortener/URLShortener/Repositories/ShortUrlRepository.cs:52-56 | removes exactly the listed records; a null list and a record not stored fail with different faults |
| ShortUrlRepository.DeleteAllByUserId | URLShortener/URLShortener/Repositories/ShortUrlRepository.cs:58-63 | keeps exactly the records whose owner is null or another user |
| ShortUrlRepository.DeleteAll | URLShortener/URLShortener/Services/UserUrlService.cs:140 | the store is empty afterwards |
| ShortUrlRepository.DeleteEmptyRangeIsNoOp | URLShortener/URLShortener/Repositories/ShortUrlRepository.cs:52-56 | an empty batch deletes nothing |
| ShortUrlRepository.DeleteRemovesExactlyTheRecord | URLShortener/URLShortener/Repositories/ShortUrlRepository.cs:46-50 | with unique Ids, deleting a stored record cuts exactly that record out of its place; the rest keep their order |
| ShortUrlRepository.DeleteRangeOfOneIsDelete | URLShortener/URLShortener/Repositories/ShortUrlRepository.cs:46-56 | deleting a batch of one record is the same as deleting that record |
| ShortUrlRepository.DeleteRangeIsRepeatedDelete | URLShortener/URLShortener/Repositories/ShortUrlRepository.cs:52-56 | deleting a batch with one more record is deleting the smaller batch and then that record, faults included, so the survivors keep their order |
| ShortUrlRepository.DeleteAllByUserIdOfNonOwnerIsNoOp | URLShortener/URLShortener/Repositories/ShortUrlRepository.cs:58-63 | an unknown, empty or null user id leaves the store as it is |
| ShortUrlRepository.OwnedAndRemainingPartitionStore | URLShortener/URLShortener/Repositories/ShortUrlRepository.cs:27-35 | the user's records and the records DeleteAllByUserId keeps split the store between them |
| ShortUrlRepository.DeleteAllByUserIdKeepsOrder | URLShortener/URLShortener/Repositories/ShortUrlRepository.cs:58-63 | deleting from a concatenation deletes from each part in turn, and a single record survives exactly when the user does not own it: survivors keep their order and appear once |
| ShortUrlRepository.GetByUserIdKeepsOrder | URLShortener/URLShortener/Repositories/ShortUrlRepository.cs:27-35 | listing a concatenation lists each part in turn, and a single record is listed exactly when the user owns it: the user's records appear in storage order, each once |
| UrlShortenerService.Decimal | URLShortener/URLShortener/Services/UrlShortenerService.cs:30 | the salt's text is decimal digits with no sign and no leading zero |
| UrlShortenerService.DecimalRoundTrip | URLShortener/URLShortener/Services/UrlShortenerService.cs:30 | reading the salt's digits back gives the salt |
| UrlShortenerService.SaltedInput | URLShortener/URLShortener/Services/UrlShortenerService.cs:30 | salt 0 hashes the URL alone and salt n hashes the URL followed by n's digits; a null URL acts as "" |
| UrlShortenerService.SaltedInputInjective | URLShortener/URLShortener/Services/UrlShortenerService.cs:28-35 | every retry hashes a text no earlier attempt hashed |
| UrlShortenerService.CandidateKey | URLShortener/URLShortener/Services/UrlShortenerService.cs:31-32 | every candidate key has six lowercase hex characters fixed by the digest's first three bytes |
| UrlShortenerService.GenerateKey | URLShortener/URLShortener/Services/UrlShortenerService.cs:23-38 | the returned key belongs to the least free salt, the repository reports it unused, and it has six lowercase hex characters |
| UrlShortenerService.LeastFreeSaltIsUnique | URLShortener/URLShortener/Services/UrlShortenerService.cs:28-35 | at most one salt is the least free one |
| UrlShortenerService.GeneratedKeyIsDeterministic | URLShortener/URLShortener/Services/UrlShortenerService.cs:23-38 | the key depends only on the URL and the set of keys already stored |
| UrlShortenerService.NullUrlActsAsEmpty | URLShortener/URLShortener/Services/UrlShortenerService.cs:30 | a null URL generates exactly the keys "" does |
| UrlShortenerService.CollisionMovesToNextSalt | URLShortener/URLShortener/Services/UrlShortenerService.cs:28-35 | when the salt-0 key is taken and the salt-1 key is free, the salt-1 key is returned |
| UrlShortenerService.CreateShortUrl | URLShortener/URLShortener/Services/UrlShortenerService.cs:40-45 | a new record with the generated key, the URL and the owner (a null URL or owner stays null) and the current time; nothing is stored |
| UrlShortenerService.GetOriginalUrlByShortCode | URLShortener/URLShortener/Services/UrlShortenerService.cs:47-63 | the URL of the first record with the key (null for a record whose URL is null); NotFound when none has it; an uncoded failure with the fault's message when the lookup throws |
| UserUrlService.ValidateUser | URLShortener/URLShortener/Services/UserUrlService.cs:149-155 | success exactly when the user exists, otherwise code UknownUser |
| UserUrlService.GetAllShortUrls | URLShortener/URLShortener/Services/UserUrlService.cs:20-30 | rejects with InvalidData only when both page and pageSize are non-positive; otherwise returns the window with page as the skip count; never changes the store |
| UserUrlService.GuardAcceptsEmptyPageSize | URLShortener/URLShortener/Services/UserUrlService.cs:22-25 | page 1 of size 0 passes the guard and returns an empty list |
| UserUrlService.FirstPageSkipsFirstRecord | URLShortener/URLShortener/Services/UserUrlService.cs:27 | page 1 of a two-record store lists only the second record |
| UserUrlService.GetPage | URLShortener/URLShortener/Services/UserUrlService.cs:20-30 | the intended paging: succeeds iff page and pageSize are both positive, and page n lists the pageSize records from the start of page n, cut short at the end |
| UserUrlService.PageStartIsProduct | URLShortener/URLShortener/Services/UserUrlService.cs:27 | under the intended paging, page n starts after (n-1)*pageSize records |
| UserUrlService.FirstPagesListPrefix | URLShortener/URLShortener/Services/UserUrlService.cs:20-30 | under the intended paging, pages 1 to n together list every record before page n+1, in order and each once |
| UserUrlService.CreateShortUrl | URLShortener/URLShortener/Services/UserUrlService.cs:33-61 | checks UknownUser, then InvalidData, then NotUnique, each rejecting before anything is stored; on success stores exactly the shortener's record and returns it; a shortener fault skips AddAsync; faults give uncoded failures with their message |
| UserUrlService.GetShortUrlInfo | URLShortener/URLShortener/Services/UserUrlService.cs:64-79 | checks UknownUser, then InvalidData for a negative id, then NotFound; returns the record to any existing user; never changes the store |
| UserUrlService.MayDelete | URLShortener/URLShortener/Services/UserUrlService.cs:94-97 | an admin may delete any record; anyone else only a record they own; a record with no owner only an admin |
| UserUrlService.DeleteShortUrl | URLShortener/URLShortener/Services/UserUrlService.cs:81-109 | checks UknownUser, InvalidData, NotFound, then Forbidden unless the caller owns the record or is admin; only a permitted delete changes the store, and then exactly as the repository's Delete of the found record does |
| UserUrlService.DeleteAllUserUrls | URLShortener/URLShortener/Services/UserUrlService.cs:111-126 | an unknown user touches nothing; otherwise removes exactly the caller's records as the repository's DeleteAllByUserId does, or fails uncoded on a fault |
| UserUrlService.DeleteAllAsAdmin | URLShortener/URLShortener/Services/UserUrlService.cs:128-147 | a non-admin gets Forbidden and the store is unchanged; for an admin the store is emptied |
| UserUrlService.SecondCreateIsNotUnique | URLShortener/URLShortener/Services/UserUrlService.cs:44-48 | once a URL is stored, creating it again fails NotUnique for every existing user and leaves the store as it is |
| UserUrlService.RejectedUrlIsInvalidData | URLShortener/URLShortener/Services/UserUrlService.cs:39-42 | a rejected URL such as "example.com" fails InvalidData with no lookup and no store change |
| UserUrlService.AnonymousRecordsNeedAdmin | URLShortener/URLShortener/Services/UserUrlService.cs:94-98 | only an admin can delete a record that has no owner |
| UserUrlService.AdminsExist | URLShortener/URLShortener/Services/UserService.cs:10-17 | every admin is an existing user and passes validation |
| StoreInvariants.DeletionsKeepWellFormed | URLShortener/URLShortener/Repositories/ShortUrlRepository.cs:46-63 | every repository deletion keeps Ids, keys and URLs unique |
| StoreInvariants.ServiceDeletionsKeepWellFormed | URLShortener/URLShortener/Services/UserUrlService.cs:81-147 | every service deletion keeps Ids, keys and URLs unique, whatever the caller and the faults |
| StoreInvariants.AppendKeepsWellFormed | URLShortener/URLShortener/Repositories/ShortUrlRepository.cs:11-15 | adding a record with a fresh Id, key and URL keeps the store well formed |
| StoreInvariants.ResolveAfterAdd | URLShortener/URLShortener/Services/UrlShortenerService.cs:47-56 | a record added under an unused key resolves to its URL |
| StoreInvariants.CreateShortUrlEndToEnd | URLShortener/URLShortener/Services/UserUrlService.cs:33-61 | creation through the gate and the real shortener keeps the store well formed, stores the least-free-salt key, and the key resolves back to the URL |
| StoreInvariants.DeletedKeyNoLongerResolves | URLShortener/URLShortener/Repositories/ShortUrlRepository.cs:46-50 | after a record is deleted its key gives NotFound |
| StoreInvariants.KeysResolveToTheirRecord | URLShortener/URLShortener/Services/UrlShortenerService.cs:47-56 | in a well-formed store every key resolves successfully to the URL of the one record holding it |
| StoreInvariants.DeletedRecordIsNotFound | URLShortener/URLShortener/Services/UserUrlService.cs:64-109 | after a permitted delete, reading the same Id gives NotFound |
| StoreInvariants.InfoFindsTheStoredRecord | URLShortener/URLShortener/Services/UserUrlService.cs:64-79 | in a well-formed store, reading a stored record's Id returns exactly that record to any existing user |
| StoreInvariants.NothingLeftToList | URLShortener/URLShortener/Services/UserUrlService.cs:111-126 | after DeleteAllUserUrls succeeds, listing the user's records gives nothing, whatever the window |

## Left out

- SHA-256 and the UTF-8 encoding of its input are one uninterpreted function from strings to 32-byte digests. Literal keys such as "e3b0c4" therefore cannot be derived.
- `Uri.TryCreate` and the http/https scheme test are an abstract `isValidUrl` parameter.
- UserService and ASP.NET Identity are a `UserOracle` with two functions. `IsAdmin` is defined as found-and-in-role, so every admin exists.
- The controller, startup, dependency injection, role seeding, `AppDbContext` and the interface files are not modelled. The interfaces only mirror the signatures.
- AddRangeAsync exists only for unit tests and is not modelled.
- Async execution and check-then-act races between concurrent requests are not modelled. Every call is one sequential step.
- `DateTime.UtcNow` is a parameter, `now`. The Id storage generates is a parameter of `Add`, and the end-to-end method requires it to be unused. The `User` navigation property is dropped.
- Exceptions are reduced to their message. Faults in code outside a try block are not modelled: the user oracle, the URL test, GetAllAsync, ExistAsync and GetByIdAsync. So GetAllShortUrls always succeeds once its guard passes, where the source would let a repository fault escape.
- Faults raised while storage saves changes are only modelled where the service catches them.
- ShortUrlRepository.DeleteRange: what a store keeps after a failed batch is not stated. Only the fault is.
- ShortUrlRepository.DeleteAll: the repository neither declares nor implements it. It is assumed to clear the store.
- Repository string comparisons (Key, OriginalUrl and UserId in ExistAsync, ExistKeyAsync, GetByKeyAsync, GetByUserIdAsync and DeleteAllByUserIdAsync) are exact, and the store's order is insertion order, as in the in-memory provider the repository tests use. Production runs on SQL Server. There the comparisons follow the column collation, which ignores case by default: a stored "https://a.com/page" would make "https://a.com/Page" NotUnique, and key "ABCDEF" would resolve the "abcdef" record. Skip and Take run without an OrderBy, so SQL Server guarantees no order. The order lemmas and both paging findings hold only under insertion order.
- ShortUrlRepository.GetAll: skip and take are clamped as LINQ to objects does, where a negative skip keeps everything and a negative take keeps nothing. The database provider's behaviour for negative values is not modelled.
- UrlShortenerService.GenerateKey: requires that some salt yields a free key. Without one the source loops forever, and after 2^31 - 1 retries its 32-bit salt wraps to negative numbers. Neither is modelled.
- UrlShortenerService.Decimal: models the text of non-negative values only. The key loop appends the text of positive salts only; for salt 0, and for any non-positive salt, it hashes the URL alone.
- Error codes follow the code ("UknownUser", "InvalidData", "NotUnique"). The service unit tests expect other spellings ("Uknown_User", "Invalid_Url", "Not_Unique_Url"), which disagree with the code and the controller.

## Findings

| source | as written | input that shows it | evidently intended | confidence | as-written member | corrected member |
|---|---|---|---|---|---|---|
| URLShortener/URLShortener/Services/UserUrlService.cs:22 | rejects only when page and pageSize are both non-positive | page 1, pageSize 0 succeeds with an empty list | reject when either is non-positive, as the message says | high, not executed | UserUrlService.GuardAcceptsEmptyPageSize | UserUrlService.GetPage |
| URLShortener/URLShortener/Services/UserUrlService.cs:27 | passes page as the skip count | page 1 (the controller's default) of the store [a, b] lists only b | skip (page - 1) * pageSize records | medium, not executed | UserUrlService.FirstPageSkipsFirstRecord | UserUrlService.FirstPagesListPrefix |
