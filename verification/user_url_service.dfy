/** UserUrlService: the authorisation and validation gate in front of the
    repository. Every operation runs its checks in a fixed order and stops at
    the first failure: user exists, input valid, state (NotUnique/NotFound),
    ownership or admin role, then the mutation, whose faults become uncoded
    failures. Each operation maps (store, collaborators, arguments) to a
    Step: the result, the store afterwards, and the calls it made. */
module UserUrlService {
  import opened Basics
  import opened OperationResults
  import opened ShortUrls
  import opened Sequences
  import opened ShortUrlRepository

  const PagingMessage := "Page and PageSize must be greater than zero."
  const InvalidUrlMessage := "Invalid url"
  const NotUniqueMessage := "Url already exists"
  const NegativeIdMessage := "Id cannot be negative."
  const NotFoundByIdMessage := "No short url with such id"
  const ForbiddenMessage := "No rights for deletion"
  const UnknownUserMessage := "User doesn't exist"

  /** The identity store behind UserService: whether FindByIdAsync finds a
      user, and whether a found user is in role "Admin". */
  datatype UserOracle = UserOracle(found: string -> bool, inAdminRole: string -> bool)

  /** UserService.UserExistsAsync. */
  predicate UserExists(users: UserOracle, userId: string)
  {
    users.found(userId)
  }

  /** UserService.IsAdminAsync: false for a user that is not found. */
  predicate IsAdmin(users: UserOracle, userId: string)
  {
    users.found(userId) && users.inAdminRole(userId)
  }

  /** A call into the repository or into the injected shortener. */
  datatype Call =
    | GetAllCall(skip: int, take: int)
    | ExistCall(url: string)
    | ShortenCall(url: string, userId: string)
    | AddCall(record: ShortUrl)
    | GetByIdCall(id: int)
    | DeleteCall(record: ShortUrl)
    | DeleteAllByUserIdCall(userId: string)
    | DeleteAllCall

  /** One service call: its result, the store afterwards, and the calls made
      into the collaborators, in order. */
  datatype Step<R> = Step(result: R, store: Store, calls: seq<Call>)

  /** ValidateUserAsync. */
  function ValidateUser(users: UserOracle, userId: string): (r: OperationResult)
    ensures Consistent(r)
    ensures r.success <==> UserExists(users, userId)
    ensures !r.success ==> r.errorCode == Some(UnknownUserCode)
  {
    if UserExists(users, userId) then Ok() else Fail(UnknownUserMessage, Some(UnknownUserCode))
  }

  /** GetAllShortUrlsAsync. The guard rejects only when both page and
      pageSize are non-positive, and page is passed on as the skip count. */
  function GetAllShortUrls(store: Store, page: int, pageSize: int): (s: Step<TypedResult<seq<ShortUrl>>>)
    ensures Consistent(s.result.Envelope())
    ensures s.store == store
    ensures s.result.success <==> 0 < page || 0 < pageSize
    ensures !s.result.success ==> s.result.errorCode == Some(InvalidDataCode) && s.calls == []
    ensures s.result.success ==> s.calls == [GetAllCall(page, pageSize)]
    ensures s.result.success ==> s.result.data == Some(GetAll(store, page, pageSize))
  {
    if page <= 0 && pageSize <= 0 then
      Step(TypedFail(PagingMessage, Some(InvalidDataCode)), store, [])
    else
      Step(TypedOk(GetAll(store, page, pageSize)), store, [GetAllCall(page, pageSize)])
  }

  /** The guard lets a page through when only one of page and pageSize is
      positive, although its message demands both: page 1 of size 0 succeeds
      with an empty list. */
  lemma GuardAcceptsEmptyPageSize(store: Store)
    ensures GetAllShortUrls(store, 1, 0).result == TypedOk([])
  {
  }

  /** Page is passed on as the skip count, so page 1 (the controller's
      default) leaves out the first record. */
  lemma FirstPageSkipsFirstRecord(a: ShortUrl, b: ShortUrl)
    ensures GetAllShortUrls([a, b], 1, 10).result.data == Some([b])
  {
  }

  /** The index of the first record of page `page` (counted from 1): the
      pages before it hold pageSize records each. */
  function PageStart(page: int, pageSize: int): (start: int)
    requires 0 < page && 0 < pageSize
    ensures 0 <= start
    decreases page
  {
    if page == 1 then 0 else PageStart(page - 1, pageSize) + pageSize
  }

  /** Page n starts after (n - 1) * pageSize records. */
  lemma {:induction false} PageStartIsProduct(page: int, pageSize: int)
    requires 0 < page && 0 < pageSize
    ensures PageStart(page, pageSize) == (page - 1) * pageSize
    decreases page
  {
    if page > 1 {
      PageStartIsProduct(page - 1, pageSize);
    }
  }

  /** The paging GetAllShortUrlsAsync evidently intends: both page and
      pageSize must be positive, and page n (counted from 1) skips the
      n - 1 pages before it. */
  function GetPage(store: Store, page: int, pageSize: int): (s: Step<TypedResult<seq<ShortUrl>>>)
    ensures Consistent(s.result.Envelope())
    ensures s.store == store
    ensures s.result.success <==> 0 < page && 0 < pageSize
    ensures !s.result.success ==> s.result.errorCode == Some(InvalidDataCode) && s.calls == []
    ensures s.result.success ==>
      var start := PageStart(page, pageSize);
      s.result.data == Some(store[Min(start, |store|)..Min(start + pageSize, |store|)])
  {
    if page <= 0 || pageSize <= 0 then
      Step(TypedFail(PagingMessage, Some(InvalidDataCode)), store, [])
    else
      var skip := PageStart(page, pageSize);
      Step(TypedOk(GetAll(store, skip, pageSize)), store, [GetAllCall(skip, pageSize)])
  }

  /** Pages 1 to n, one after another. */
  function FirstPages(store: Store, n: nat, pageSize: int): seq<ShortUrl>
    requires 0 < pageSize
  {
    if n == 0 then [] else FirstPages(store, n - 1, pageSize) + GetPage(store, n, pageSize).result.data.value
  }

  /** Reading pages 1 to n in turn lists every record before page n + 1 in
      storage order, each once: nothing is skipped and nothing repeats. */
  lemma {:induction false} FirstPagesListPrefix(store: Store, n: nat, pageSize: int)
    requires 0 < pageSize
    ensures FirstPages(store, n, pageSize) == store[..Min(PageStart(n + 1, pageSize), |store|)]
  {
    if n > 0 {
      FirstPagesListPrefix(store, n - 1, pageSize);
      PrefixGrows(store, PageStart(n, pageSize), PageStart(n + 1, pageSize));
    }
  }

  lemma PrefixGrows(store: Store, a: int, b: int)
    requires 0 <= a <= b
    ensures store[..Min(a, |store|)] + store[Min(a, |store|)..Min(b, |store|)] == store[..Min(b, |store|)]
  {
  }

  /** Every check CreateShortUrlAsync makes before it calls the shortener. */
  predicate PassesCreateChecks(users: UserOracle, isValidUrl: string -> bool, store: Store, url: string, userId: string)
  {
    UserExists(users, userId) && isValidUrl(url) && !Exist(store, url)
  }

  /** CreateShortUrlAsync. `isValidUrl` is the absolute-http(s) test,
      `shortened` what the injected shortener did for (url, userId), and
      `added` what AddAsync did: the Id storage assigned, or a fault. */
  function CreateShortUrl(users: UserOracle, isValidUrl: string -> bool, store: Store, url: string, userId: string,
                          shortened: Attempt<ShortUrl>, added: Attempt<int>): (s: Step<TypedResult<ShortUrl>>)
    ensures Consistent(s.result.Envelope())
    ensures !UserExists(users, userId) ==>
      !s.result.success && s.result.errorCode == Some(UnknownUserCode) && s.calls == []
    ensures UserExists(users, userId) && !isValidUrl(url) ==>
      !s.result.success && s.result.errorCode == Some(InvalidDataCode) && s.calls == []
    ensures UserExists(users, userId) && isValidUrl(url) && Exist(store, url) ==>
      !s.result.success && s.result.errorCode == Some(NotUniqueCode) && s.calls == [ExistCall(url)]
    ensures PassesCreateChecks(users, isValidUrl, store, url, userId) && shortened.Threw? ==>
      && !s.result.success && s.result.errorMessage == Some(shortened.message) && s.result.errorCode.None?
      && s.calls == [ExistCall(url), ShortenCall(url, userId)]
    ensures PassesCreateChecks(users, isValidUrl, store, url, userId) && shortened.Returned? ==>
      s.calls == [ExistCall(url), ShortenCall(url, userId), AddCall(shortened.value)]
    ensures PassesCreateChecks(users, isValidUrl, store, url, userId) && shortened.Returned? && added.Threw? ==>
      !s.result.success && s.result.errorMessage == Some(added.message) && s.result.errorCode.None?
    ensures s.result.success <==>
      PassesCreateChecks(users, isValidUrl, store, url, userId) && shortened.Returned? && added.Returned?
    ensures s.result.success ==>
      && s.result.data.Some?
      && s.store == store + [s.result.data.value]
      && s.result.data.value.(id := shortened.value.id) == shortened.value
    ensures !s.result.success ==> s.store == store && s.result.data.None?
  {
    var validation := ValidateUser(users, userId);
    if !validation.success then
      Step(FromOperationResult(validation), store, [])
    else if !isValidUrl(url) then
      Step(TypedFail(InvalidUrlMessage, Some(InvalidDataCode)), store, [])
    else if Exist(store, url) then
      Step(TypedFail(NotUniqueMessage, Some(NotUniqueCode)), store, [ExistCall(url)])
    else
      match shortened
      case Threw(message) =>
        Step(TypedFail(message), store, [ExistCall(url), ShortenCall(url, userId)])
      case Returned(shortUrl) =>
        var calls := [ExistCall(url), ShortenCall(url, userId), AddCall(shortUrl)];
        match added
        case Threw(message) => Step(TypedFail(message), store, calls)
        case Returned(generatedId) =>
          var a := Add(store, shortUrl, generatedId);
          Step(TypedOk(a.record), a.store, calls)
  }

  /** GetShortUrlInfoAsync: any existing user may read any record by Id. */
  function GetShortUrlInfo(users: UserOracle, store: Store, id: int, userId: string): (s: Step<TypedResult<ShortUrl>>)
    ensures Consistent(s.result.Envelope())
    ensures s.store == store
    ensures !UserExists(users, userId) ==>
      !s.result.success && s.result.errorCode == Some(UnknownUserCode) && s.calls == []
    ensures UserExists(users, userId) && id < 0 ==>
      !s.result.success && s.result.errorCode == Some(InvalidDataCode) && s.calls == []
    ensures UserExists(users, userId) && 0 <= id ==> s.calls == [GetByIdCall(id)]
    ensures UserExists(users, userId) && 0 <= id && !s.result.success ==> s.result.errorCode == Some(NotFoundCode)
    ensures s.result.success <==>
      UserExists(users, userId) && 0 <= id && exists i | 0 <= i < |store| :: store[i].id == id
    ensures s.result.success ==> s.result.data.Some? && s.result.data.value in store && s.result.data.value.id == id
  {
    var validation := ValidateUser(users, userId);
    if !validation.success then
      Step(FromOperationResult(validation), store, [])
    else if id < 0 then
      Step(TypedFail(NegativeIdMessage, Some(InvalidDataCode)), store, [])
    else
      match GetById(store, id)
      case None => Step(TypedFail(NotFoundByIdMessage, Some(NotFoundCode)), store, [GetByIdCall(id)])
      case Some(shortUrl) => Step(TypedOk(shortUrl), store, [GetByIdCall(id)])
  }

  /** The caller may delete `shortUrl`: it owns the record (anonymous records
      have no owner) or it is an admin. */
  function MayDelete(users: UserOracle, shortUrl: ShortUrl, userId: string): (r: bool)
    ensures shortUrl.userId.None? ==> (r <==> IsAdmin(users, userId))
    ensures !IsAdmin(users, userId) ==> (r <==> shortUrl.userId == Some(userId))
    ensures IsAdmin(users, userId) ==> r
  {
    var belongsToUser := shortUrl.userId.Some? && shortUrl.userId.value == userId;
    belongsToUser || IsAdmin(users, userId)
  }

  /** DeleteShortUrlAsync. `deletion` is what DeleteAsync did. */
  function DeleteShortUrl(users: UserOracle, store: Store, id: int, userId: string, deletion: Completion): (s: Step<OperationResult>)
    ensures Consistent(s.result)
    ensures !UserExists(users, userId) ==>
      !s.result.success && s.result.errorCode == Some(UnknownUserCode) && s.calls == []
    ensures UserExists(users, userId) && id < 0 ==>
      !s.result.success && s.result.errorCode == Some(InvalidDataCode) && s.calls == []
    ensures UserExists(users, userId) && 0 <= id && GetById(store, id).None? ==>
      !s.result.success && s.result.errorCode == Some(NotFoundCode) && s.calls == [GetByIdCall(id)]
    ensures UserExists(users, userId) && 0 <= id && GetById(store, id).Some? && !MayDelete(users, GetById(store, id).value, userId) ==>
      !s.result.success && s.result.errorCode == Some(ForbiddenCode) && s.calls == [GetByIdCall(id)]
    ensures UserExists(users, userId) && 0 <= id && GetById(store, id).Some? && MayDelete(users, GetById(store, id).value, userId) ==>
      s.calls == [GetByIdCall(id), DeleteCall(GetById(store, id).value)]
    ensures s.result.success <==>
      && UserExists(users, userId) && 0 <= id && GetById(store, id).Some?
      && MayDelete(users, GetById(store, id).value, userId) && deletion.Completes?
    ensures UserExists(users, userId) && 0 <= id && GetById(store, id).Some? && MayDelete(users, GetById(store, id).value, userId)
            && deletion.Throws? ==>
      s.result.errorMessage == Some(deletion.message) && s.result.errorCode.None?
    ensures s.result.success ==>
      && |s.store| < |store|
      && (forall i | 0 <= i < |s.store| :: s.store[i] in store && s.store[i].id != id)
      && (forall i | 0 <= i < |store| :: store[i].id != id ==> store[i] in s.store)
    ensures s.result.success ==> Delete(store, GetById(store, id).value) == Done(s.store)
    ensures !s.result.success ==> s.store == store
  {
    var validation := ValidateUser(users, userId);
    if !validation.success then
      Step(validation, store, [])
    else if id < 0 then
      Step(Fail(NegativeIdMessage, Some(InvalidDataCode)), store, [])
    else
      match GetById(store, id)
      case None => Step(Fail(NotFoundByIdMessage, Some(NotFoundCode)), store, [GetByIdCall(id)])
      case Some(shortUrl) =>
        if !MayDelete(users, shortUrl, userId) then
          Step(Fail(ForbiddenMessage, Some(ForbiddenCode)), store, [GetByIdCall(id)])
        else
          var calls := [GetByIdCall(id), DeleteCall(shortUrl)];
          match deletion
          case Throws(message) => Step(Fail(message), store, calls)
          case Completes => Step(Ok(), Delete(store, shortUrl).store, calls)
  }

  /** DeleteAllUserUrlsAsync. `deletion` is what DeleteAllByUserIdAsync did. */
  function DeleteAllUserUrls(users: UserOracle, store: Store, userId: string, deletion: Completion): (s: Step<OperationResult>)
    ensures Consistent(s.result)
    ensures !UserExists(users, userId) ==>
      !s.result.success && s.result.errorCode == Some(UnknownUserCode) && s.calls == []
    ensures UserExists(users, userId) ==> s.calls == [DeleteAllByUserIdCall(userId)]
    ensures s.result.success <==> UserExists(users, userId) && deletion.Completes?
    ensures UserExists(users, userId) && deletion.Throws? ==>
      s.result.errorMessage == Some(deletion.message) && s.result.errorCode.None?
    ensures s.result.success ==>
      && (forall i | 0 <= i < |s.store| :: s.store[i] in store && s.store[i].userId != Some(userId))
      && (forall i | 0 <= i < |store| :: store[i].userId != Some(userId) ==> store[i] in s.store)
    ensures s.result.success ==> s.store == DeleteAllByUserId(store, Some(userId))
    ensures !s.result.success ==> s.store == store
  {
    var validation := ValidateUser(users, userId);
    if !validation.success then
      Step(validation, store, [])
    else
      match deletion
      case Throws(message) => Step(Fail(message), store, [DeleteAllByUserIdCall(userId)])
      case Completes => Step(Ok(), DeleteAllByUserId(store, Some(userId)), [DeleteAllByUserIdCall(userId)])
  }

  /** DeleteAllAsAdminAsync. `deletion` is what DeleteAllAsync did. */
  function DeleteAllAsAdmin(users: UserOracle, store: Store, userId: string, deletion: Completion): (s: Step<OperationResult>)
    ensures Consistent(s.result)
    ensures !UserExists(users, userId) ==>
      !s.result.success && s.result.errorCode == Some(UnknownUserCode) && s.calls == []
    ensures UserExists(users, userId) && !IsAdmin(users, userId) ==>
      !s.result.success && s.result.errorCode == Some(ForbiddenCode) && s.calls == []
    ensures IsAdmin(users, userId) ==> s.calls == [DeleteAllCall]
    ensures s.result.success <==> IsAdmin(users, userId) && deletion.Completes?
    ensures IsAdmin(users, userId) && deletion.Throws? ==>
      s.result.errorMessage == Some(deletion.message) && s.result.errorCode.None?
    ensures s.result.success ==> s.store == []
    ensures !s.result.success ==> s.store == store
  {
    var validation := ValidateUser(users, userId);
    if !validation.success then
      Step(validation, store, [])
    else if !IsAdmin(users, userId) then
      Step(Fail(ForbiddenMessage, Some(ForbiddenCode)), store, [])
    else
      match deletion
      case Throws(message) => Step(Fail(message), store, [DeleteAllCall])
      case Completes => Step(Ok(), DeleteAll(store), [DeleteAllCall])
  }

  /** Once a URL is stored, creating it again fails NotUnique for every
      existing caller and leaves the store alone. */
  lemma SecondCreateIsNotUnique(users: UserOracle, isValidUrl: string -> bool, store: Store, url: string,
                                owner: string, other: string, shortened: Attempt<ShortUrl>, added: Attempt<int>,
                                shortenedAgain: Attempt<ShortUrl>, addedAgain: Attempt<int>)
    requires CreateShortUrl(users, isValidUrl, store, url, owner, shortened, added).result.success
    requires shortened.Returned? ==> shortened.value.originalUrl == Some(url)
    requires UserExists(users, other)
    ensures var after := CreateShortUrl(users, isValidUrl, store, url, owner, shortened, added).store;
            var again := CreateShortUrl(users, isValidUrl, after, url, other, shortenedAgain, addedAgain);
            !again.result.success && again.result.errorCode == Some(NotUniqueCode) && again.store == after
  {
    var first := CreateShortUrl(users, isValidUrl, store, url, owner, shortened, added);
    var stored := first.result.data.value;
    assert first.store[|store|] == stored;
    assert Exist(first.store, url);
  }

  /** A URL the validity test rejects (a bare host such as "example.com" is
      not absolute) fails InvalidData for every existing user, and nothing
      is looked up or stored. */
  lemma RejectedUrlIsInvalidData(users: UserOracle, isValidUrl: string -> bool, store: Store, userId: string,
                                 shortened: Attempt<ShortUrl>, added: Attempt<int>)
    requires !isValidUrl("example.com") && UserExists(users, userId)
    ensures var s := CreateShortUrl(users, isValidUrl, store, "example.com", userId, shortened, added);
            s.result.errorCode == Some(InvalidDataCode) && s.store == store && s.calls == []
  {
  }

  /** An anonymous record can be deleted by an admin only. */
  lemma AnonymousRecordsNeedAdmin(users: UserOracle, store: Store, id: int, userId: string, deletion: Completion)
    requires GetById(store, id).Some? && GetById(store, id).value.userId.None?
    ensures DeleteShortUrl(users, store, id, userId, deletion).result.success ==> IsAdmin(users, userId)
  {
  }

  /** Every admin is an existing user, so an admin always passes validation. */
  lemma AdminsExist(users: UserOracle, userId: string)
    ensures IsAdmin(users, userId) ==> ValidateUser(users, userId).success
  {
  }
}
