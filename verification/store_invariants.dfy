/** Whole-system properties: the real shortener composed with the service
    gate, the uniqueness the store keeps under every operation, and the
    round trip from a created key back to its URL. */
module StoreInvariants {
  import opened Basics
  import opened OperationResults
  import opened ShortUrls
  import opened Sequences
  import opened HashHelper
  import opened ShortUrlRepository
  import Shortener = UrlShortenerService
  import Gate = UserUrlService

  function KeyOf(x: ShortUrl): string
  {
    x.key
  }

  function UrlOf(x: ShortUrl): Option<string>
  {
    x.originalUrl
  }

  /** No two records share an Id, a Key or an OriginalUrl. Ids are the
      primary key, keys are chosen unused, and the service refuses a URL
      that is already stored. */
  ghost predicate WellFormed(store: Store)
  {
    Distinct(store, IdOf) && Distinct(store, KeyOf) && Distinct(store, UrlOf)
  }

  lemma FilterKeepsWellFormed(store: Store, keep: ShortUrl -> bool)
    requires WellFormed(store)
    ensures WellFormed(Filter(store, keep))
  {
    FilterKeepsDistinct(store, keep, IdOf);
    FilterKeepsDistinct(store, keep, KeyOf);
    FilterKeepsDistinct(store, keep, UrlOf);
  }

  /** Every repository deletion keeps the store well formed. */
  lemma DeletionsKeepWellFormed(store: Store, shortUrl: ShortUrl, batch: Option<seq<ShortUrl>>, userId: Option<string>)
    requires WellFormed(store)
    ensures Delete(store, shortUrl).Done? ==> WellFormed(Delete(store, shortUrl).store)
    ensures DeleteRange(store, batch).Done? ==> WellFormed(DeleteRange(store, batch).store)
    ensures WellFormed(DeleteAllByUserId(store, userId))
    ensures WellFormed(DeleteAll(store))
  {
    FilterKeepsWellFormed(store, LacksId(shortUrl.id));
    if batch.Some? {
      FilterKeepsWellFormed(store, LacksIdIn(IdsOf(batch.value)));
    }
    FilterKeepsWellFormed(store, NotOwned(userId));
  }

  /** The service's deletions keep the store well formed, whatever the
      caller, the arguments or the faults. */
  lemma ServiceDeletionsKeepWellFormed(users: Gate.UserOracle, store: Store, id: int, userId: string, deletion: Completion)
    requires WellFormed(store)
    ensures WellFormed(Gate.DeleteShortUrl(users, store, id, userId, deletion).store)
    ensures WellFormed(Gate.DeleteAllUserUrls(users, store, userId, deletion).store)
    ensures WellFormed(Gate.DeleteAllAsAdmin(users, store, userId, deletion).store)
  {
    var found := GetById(store, id);
    if found.Some? {
      DeletionsKeepWellFormed(store, found.value, None, Some(userId));
    } else {
      DeletionsKeepWellFormed(store, ShortUrl(id, "", None, 0, None), None, Some(userId));
    }
  }

  /** Appending a record whose Id, Key and OriginalUrl are all unused keeps
      the store well formed. */
  lemma AppendKeepsWellFormed(store: Store, x: ShortUrl)
    requires WellFormed(store)
    requires forall i | 0 <= i < |store| :: store[i].id != x.id
    requires !ExistKey(store, x.key) && x.originalUrl.Some? && !Exist(store, x.originalUrl.value)
    ensures WellFormed(store + [x])
  {
    AppendKeepsDistinct(store, x, IdOf);
    AppendKeepsDistinct(store, x, KeyOf);
    AppendKeepsDistinct(store, x, UrlOf);
  }

  /** A stored record's key resolves to its URL whenever no earlier record
      holds the same key. */
  lemma ResolveAfterAdd(store: Store, x: ShortUrl)
    requires !ExistKey(store, x.key)
    ensures var r := Shortener.GetOriginalUrlByShortCode(store + [x], x.key, Completes);
            r.success && r.data == x.originalUrl
  {
    var after := store + [x];
    assert after[|store|].key == x.key;
    forall j | 0 <= j < |store|
      ensures after[j].key != x.key
    {
      assert after[j] == store[j];
    }
  }

  /** CreateShortUrlAsync of the service with the real shortener behind it.
      The shortener runs only when the gate's checks pass; `added` is what
      AddAsync did: the Id storage assigned, or a fault. */
  method CreateShortUrlEndToEnd(users: Gate.UserOracle, isValidUrl: string -> bool, sha256: Sha256, store: Store,
                                url: string, userId: string, now: int, added: Attempt<int>)
    returns (s: Gate.Step<TypedResult<ShortUrl>>)
    requires WellFormed(store)
    requires added.Returned? ==> forall i | 0 <= i < |store| :: store[i].id != added.value
    requires Gate.PassesCreateChecks(users, isValidUrl, store, url, userId) ==> Shortener.HasFreeSalt(sha256, Some(url), store)
    ensures WellFormed(s.store)
    ensures s.result.success <==> Gate.PassesCreateChecks(users, isValidUrl, store, url, userId) && added.Returned?
    ensures s.result.success ==>
      && s.result.data.Some?
      && s.store == store + [s.result.data.value]
      && Shortener.IsGeneratedKey(sha256, Some(url), store, s.result.data.value.key)
      && s.result.data.value == ShortUrl(added.value, s.result.data.value.key, Some(url), now, Some(userId))
    ensures s.result.success ==>
      Shortener.GetOriginalUrlByShortCode(s.store, s.result.data.value.key, Completes) == TypedOk(url)
    ensures !s.result.success ==> s.store == store
  {
    if Gate.PassesCreateChecks(users, isValidUrl, store, url, userId) {
      var shortUrl := Shortener.CreateShortUrl(sha256, store, Some(url), Some(userId), now);
      s := Gate.CreateShortUrl(users, isValidUrl, store, url, userId, Returned(shortUrl), added);
      if s.result.success {
        AppendKeepsWellFormed(store, s.result.data.value);
        ResolveAfterAdd(store, s.result.data.value);
      }
    } else {
      // The gate stops before it reaches the shortener.
      s := Gate.CreateShortUrl(users, isValidUrl, store, url, userId, Threw(""), added);
    }
  }

  /** Once a record is deleted its key resolves to nothing. */
  lemma DeletedKeyNoLongerResolves(store: Store, x: ShortUrl)
    requires WellFormed(store)
    requires x in store
    ensures Delete(store, x).Done?
    ensures Shortener.GetOriginalUrlByShortCode(Delete(store, x).store, x.key, Completes).errorCode == Some(NotFoundCode)
  {
    var after := Delete(store, x).store;
    var k :| 0 <= k < |store| && store[k] == x;
    forall i | 0 <= i < |after|
      ensures after[i].key != x.key
    {
      var j :| 0 <= j < |store| && store[j] == after[i];
      assert j != k by {
        assert store[j].id != x.id;
      }
      assert KeyOf(store[j]) != KeyOf(store[k]);
    }
  }

  /** Keys and records correspond one to one: a key resolves to the URL of
      the single record holding it. */
  lemma KeysResolveToTheirRecord(store: Store, k: int)
    requires WellFormed(store)
    requires 0 <= k < |store|
    ensures var r := Shortener.GetOriginalUrlByShortCode(store, store[k].key, Completes);
            r.success && r.data == store[k].originalUrl
  {
    var found := GetByKey(store, store[k].key);
    var i :| 0 <= i < |store| && store[i] == found.value && store[i].key == store[k].key
             && forall j | 0 <= j < i :: store[j].key != store[k].key;
    assert KeyOf(store[i]) == KeyOf(store[k]);
  }

  /** After a permitted deletion the record's Id is no longer found. */
  lemma DeletedRecordIsNotFound(users: Gate.UserOracle, store: Store, id: int, userId: string, deletion: Completion)
    requires Gate.DeleteShortUrl(users, store, id, userId, deletion).result.success
    ensures var after := Gate.DeleteShortUrl(users, store, id, userId, deletion).store;
            Gate.GetShortUrlInfo(users, after, id, userId).result.errorCode == Some(NotFoundCode)
  {
  }

  /** In a well-formed store, reading a record by its Id returns exactly
      that record, whoever owns it. */
  lemma InfoFindsTheStoredRecord(users: Gate.UserOracle, store: Store, k: int, userId: string)
    requires WellFormed(store)
    requires 0 <= k < |store| && 0 <= store[k].id
    requires Gate.UserExists(users, userId)
    ensures Gate.GetShortUrlInfo(users, store, store[k].id, userId).result == TypedOk(store[k])
  {
    var found := GetById(store, store[k].id);
    var i :| 0 <= i < |store| && store[i] == found.value && store[i].id == store[k].id
             && forall j | 0 <= j < i :: store[j].id != store[k].id;
    assert IdOf(store[i]) == IdOf(store[k]);
  }

  /** After DeleteAllUserUrls succeeds the user has no records left to list. */
  lemma NothingLeftToList(users: Gate.UserOracle, store: Store, userId: string, deletion: Completion, skip: int, take: int)
    requires Gate.DeleteAllUserUrls(users, store, userId, deletion).result.success
    ensures GetByUserId(Gate.DeleteAllUserUrls(users, store, userId, deletion).store, Some(userId), skip, take) == []
  {
  }
}
