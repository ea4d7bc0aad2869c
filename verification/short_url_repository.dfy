/** ShortUrlRepository as pure functions over the stored records, kept in
    insertion order and compared exactly, as the in-memory provider does.
    Every query is the LINQ expression the repository runs. */
module ShortUrlRepository {
  import opened Basics
  import opened ShortUrls
  import opened Sequences

  type Store = seq<ShortUrl>

  /** The two faults the repository itself raises: a record to delete that
      storage does not hold (DbUpdateConcurrencyException), and a null batch
      (ArgumentNullException). */
  datatype Fault = ConcurrencyFault | NullArgumentFault

  /** The outcome of a deletion: the new store, or the fault it raised. */
  datatype Outcome = Done(store: Store) | Faulted(fault: Fault)

  /** The outcome of AddAsync: the new store and the record as stored. */
  datatype Added = Added(store: Store, record: ShortUrl)

  // Record predicates the queries filter and search by.

  function HasKey(key: string): ShortUrl -> bool
  {
    (x: ShortUrl) => x.key == key
  }

  function HasId(id: int): ShortUrl -> bool
  {
    (x: ShortUrl) => x.id == id
  }

  function LacksId(id: int): ShortUrl -> bool
  {
    (x: ShortUrl) => x.id != id
  }

  function LacksIdIn(ids: set<int>): ShortUrl -> bool
  {
    (x: ShortUrl) => x.id !in ids
  }

  /** `x.UserId != null && x.UserId == userId`: a null argument owns nothing. */
  predicate OwnedBy(x: ShortUrl, userId: Option<string>)
  {
    x.userId.Some? && x.userId == userId
  }

  function Owned(userId: Option<string>): ShortUrl -> bool
  {
    (x: ShortUrl) => OwnedBy(x, userId)
  }

  function NotOwned(userId: Option<string>): ShortUrl -> bool
  {
    (x: ShortUrl) => !OwnedBy(x, userId)
  }

  function HasUrl(url: string): ShortUrl -> bool
  {
    (x: ShortUrl) => x.originalUrl == Some(url)
  }

  /** ExistAsync: some record has this OriginalUrl, that is, the query
      Where(x => x.OriginalUrl == url) is not empty. */
  function Exist(store: Store, originalUrl: string): (b: bool)
    ensures b <==> Filter(store, HasUrl(originalUrl)) != []
  {
    FilterEmpty(store, HasUrl(originalUrl));
    exists i | 0 <= i < |store| :: store[i].originalUrl == Some(originalUrl)
  }

  /** ExistKeyAsync: some record has this Key, that is, the query
      Where(x => x.Key == key) is not empty. */
  function ExistKey(store: Store, key: string): (b: bool)
    ensures b <==> Filter(store, HasKey(key)) != []
  {
    FilterEmpty(store, HasKey(key));
    exists i | 0 <= i < |store| :: store[i].key == key
  }

  /** AddAsync: appends the record. Storage generates the Id when the record
      carries the default Id 0, and keeps an explicit one otherwise. */
  function Add(store: Store, shortUrl: ShortUrl, generatedId: int): (a: Added)
    ensures a.store == store + [a.record]
    ensures a.record.(id := shortUrl.id) == shortUrl
    ensures shortUrl.id != 0 ==> a.record == shortUrl
    ensures shortUrl.originalUrl.Some? ==> Exist(a.store, shortUrl.originalUrl.value)
    ensures ExistKey(a.store, shortUrl.key)
  {
    var stored := if shortUrl.id == 0 then shortUrl.(id := generatedId) else shortUrl;
    assert (store + [stored])[|store|] == stored;
    Added(store + [stored], stored)
  }

  /** GetByKeyAsync: the first stored record with this Key, or null. */
  function GetByKey(store: Store, key: string): (r: Option<ShortUrl>)
    ensures r.Some? <==> ExistKey(store, key)
    ensures r.Some? ==> exists i | 0 <= i < |store| :: store[i] == r.value && store[i].key == key
                                                    && forall j | 0 <= j < i :: store[j].key != key
  {
    match FirstIndex(store, HasKey(key))
    case Some(i) => Some(store[i])
    case None => None
  }

  /** GetByIdAsync: the first stored record with this Id, or null. */
  function GetById(store: Store, id: int): (r: Option<ShortUrl>)
    ensures r.Some? <==> exists i | 0 <= i < |store| :: store[i].id == id
    ensures r.Some? ==> exists i | 0 <= i < |store| :: store[i] == r.value && store[i].id == id
                                                    && forall j | 0 <= j < i :: store[j].id != id
  {
    match FirstIndex(store, HasId(id))
    case Some(i) => Some(store[i])
    case None => None
  }

  /** GetByUserIdAsync: the owner's records, in order, then the skip/take window. */
  function GetByUserId(store: Store, userId: Option<string>, skip: int, take: int): (r: seq<ShortUrl>)
    ensures forall i | 0 <= i < |r| :: r[i] in store && OwnedBy(r[i], userId)
    ensures userId.None? ==> r == []
    ensures (forall i | 0 <= i < |store| :: !OwnedBy(store[i], userId)) ==> r == []
    ensures skip <= 0 && |store| <= take ==> forall i | 0 <= i < |store| :: OwnedBy(store[i], userId) ==> store[i] in r
    ensures |r| <= |store|
    ensures 0 <= skip && 0 <= take ==>
      var owned := Filter(store, Owned(userId));
      r == owned[Min(skip, |owned|)..Min(skip + take, |owned|)]
  {
    FilterMembers(store, Owned(userId));
    if 0 <= skip && 0 <= take then
      WindowIsSlice(Filter(store, Owned(userId)), skip, take);
      Window(Filter(store, Owned(userId)), skip, take)
    else
      Window(Filter(store, Owned(userId)), skip, take)
  }

  /** GetAllAsync: the skip/take window of the whole store. */
  function GetAll(store: Store, skip: int, take: int): (r: seq<ShortUrl>)
    ensures 0 <= skip && 0 <= take ==> r == store[Min(skip, |store|)..Min(skip + take, |store|)]
    ensures take <= 0 ==> r == []
    ensures forall i | 0 <= i < |r| :: r[i] in store
  {
    if 0 <= skip && 0 <= take then
      WindowIsSlice(store, skip, take);
      Window(store, skip, take)
    else
      Window(store, skip, take)
  }

  /** DeleteAsync: removes the stored record with the same Id (the primary
      key); a record storage does not hold is a concurrency fault. */
  function Delete(store: Store, shortUrl: ShortUrl): (o: Outcome)
    ensures o.Done? <==> exists i | 0 <= i < |store| :: store[i].id == shortUrl.id
    ensures o.Faulted? ==> o.fault == ConcurrencyFault
    ensures o.Done? ==> |o.store| < |store|
    ensures o.Done? ==> forall i | 0 <= i < |o.store| :: o.store[i] in store && o.store[i].id != shortUrl.id
    ensures o.Done? ==> forall i | 0 <= i < |store| :: store[i].id != shortUrl.id ==> store[i] in o.store
  {
    match GetById(store, shortUrl.id)
    case Some(stored) =>
      var r := Filter(store, LacksId(shortUrl.id));
      FilterMembers(store, LacksId(shortUrl.id));
      assert |r| < |store| by {
        FilterPartition(store, LacksId(shortUrl.id), HasId(shortUrl.id));
        FilterMembers(store, HasId(shortUrl.id));
        assert stored in Filter(store, HasId(shortUrl.id));
        assert |multiset(r)| < |multiset(store)|;
      }
      Done(r)
    case None => Faulted(ConcurrencyFault)
  }

  /** The Ids of a batch of records. */
  function IdsOf(batch: seq<ShortUrl>): set<int>
  {
    set x | x in batch :: x.id
  }

  /** DeleteRangeAsync: removes every stored record whose Id is in the batch.
      A null batch is an argument fault; a member storage does not hold is a
      concurrency fault. */
  function DeleteRange(store: Store, batch: Option<seq<ShortUrl>>): (o: Outcome)
    ensures batch.None? ==> o == Faulted(NullArgumentFault)
    ensures batch.Some? ==> (o.Done? <==> forall x | x in batch.value :: exists i | 0 <= i < |store| :: store[i].id == x.id)
    ensures batch.Some? && o.Faulted? ==> o.fault == ConcurrencyFault
    ensures o.Done? ==> forall i | 0 <= i < |o.store| :: o.store[i] in store && o.store[i].id !in IdsOf(batch.value)
    ensures o.Done? ==> forall i | 0 <= i < |store| :: store[i].id !in IdsOf(batch.value) ==> store[i] in o.store
  {
    match batch
    case None => Faulted(NullArgumentFault)
    case Some(b) =>
      if forall x | x in b :: GetById(store, x.id).Some? then
        FilterMembers(store, LacksIdIn(IdsOf(b)));
        Done(Filter(store, LacksIdIn(IdsOf(b))))
      else
        Faulted(ConcurrencyFault)
  }

  /** DeleteAllByUserIdAsync: keeps exactly the records the user does not own. */
  function DeleteAllByUserId(store: Store, userId: Option<string>): (r: Store)
    ensures forall i | 0 <= i < |r| :: r[i] in store && !OwnedBy(r[i], userId)
    ensures forall i | 0 <= i < |store| :: !OwnedBy(store[i], userId) ==> store[i] in r
  {
    FilterMembers(store, NotOwned(userId));
    Filter(store, NotOwned(userId))
  }

  /** DeleteAllAsync: called by the service but neither declared by the
      repository interface nor implemented; taken to clear the store. */
  function DeleteAll(store: Store): (r: Store)
    ensures |r| == 0
  {
    []
  }

  /** An empty batch deletes nothing. */
  lemma DeleteEmptyRangeIsNoOp(store: Store)
    ensures DeleteRange(store, Some([])) == Done(store)
  {
    FilterKeepsAll(store, LacksIdIn(IdsOf([])));
  }

  /** With unique Ids, deleting a stored record removes that record and no
      other, and keeps the order of the rest. */
  lemma DeleteRemovesExactlyTheRecord(store: Store, shortUrl: ShortUrl)
    requires Distinct(store, IdOf)
    requires shortUrl in store
    ensures Delete(store, shortUrl).Done?
    ensures multiset(Delete(store, shortUrl).store) == multiset(store) - multiset{shortUrl}
    ensures forall k | 0 <= k < |store| && store[k] == shortUrl :: Delete(store, shortUrl).store == store[..k] + store[k + 1..]
  {
    var k :| 0 <= k < |store| && store[k] == shortUrl;
    forall i | 0 <= i < |store| && i != k
      ensures LacksId(shortUrl.id)(store[i])
    {
      assert IdOf(store[i]) != IdOf(store[k]);
    }
    FilterDropsOne(store, k, LacksId(shortUrl.id));
    assert store == store[..k] + [shortUrl] + store[k + 1..];
  }

  /** A batch of one record is a single Delete. */
  lemma DeleteRangeOfOneIsDelete(store: Store, x: ShortUrl)
    ensures DeleteRange(store, Some([x])) == Delete(store, x)
  {
    assert IdsOf([x]) == {x.id};
    FilterSamePredicate(store, LacksIdIn({x.id}), LacksId(x.id));
  }

  /** Some stored record has this Id. */
  predicate Holds(store: Store, id: int)
  {
    exists i | 0 <= i < |store| :: store[i].id == id
  }

  /** Records that survive a batch keep every Id outside the batch. */
  lemma KeptIdsSurvive(store: Store, ids: set<int>, id: int)
    requires id !in ids
    ensures Holds(Filter(store, LacksIdIn(ids)), id) <==> Holds(store, id)
  {
    var kept := Filter(store, LacksIdIn(ids));
    FilterMembers(store, LacksIdIn(ids));
    if i :| 0 <= i < |store| && store[i].id == id {
      assert LacksIdIn(ids)(store[i]);
      assert store[i] in kept;
    }
    if i :| 0 <= i < |kept| && kept[i].id == id {
      assert kept[i] in store;
    }
  }

  /** Deleting a batch with one more record is deleting the smaller batch
      and then that record, so a batch cuts its records out one by one and
      the rest keep their order. */
  lemma DeleteRangeIsRepeatedDelete(store: Store, batch: seq<ShortUrl>, x: ShortUrl)
    requires x.id !in IdsOf(batch)
    ensures DeleteRange(store, Some(batch + [x])) ==
      match DeleteRange(store, Some(batch))
      case Done(rest) => Delete(rest, x)
      case Faulted(fault) => Faulted(fault)
  {
    var ids := IdsOf(batch);
    var all := batch + [x];
    if forall y | y in batch :: GetById(store, y.id).Some? {
      var kept := Filter(store, LacksIdIn(ids));
      assert DeleteRange(store, Some(batch)) == Done(kept);
      KeptIdsSurvive(store, ids, x.id);
      assert IdsOf(all) == ids + {x.id};
      FilterTwice(store, LacksIdIn(ids), LacksId(x.id), LacksIdIn(ids + {x.id}));
    } else {
      var y :| y in batch && GetById(store, y.id).None?;
      assert y in all;
    }
  }

  /** An owner that holds no records (an unknown, empty or null id) makes
      DeleteAllByUserId a no-op. */
  lemma DeleteAllByUserIdOfNonOwnerIsNoOp(store: Store, userId: Option<string>)
    requires forall i | 0 <= i < |store| :: !OwnedBy(store[i], userId)
    ensures DeleteAllByUserId(store, userId) == store
  {
    FilterKeepsAll(store, NotOwned(userId));
  }

  /** DeleteAllByUserId decides record by record and keeps the survivors in
      their original order, each once. */
  lemma DeleteAllByUserIdKeepsOrder(a: Store, b: Store, x: ShortUrl, userId: Option<string>)
    ensures DeleteAllByUserId(a + b, userId) == DeleteAllByUserId(a, userId) + DeleteAllByUserId(b, userId)
    ensures DeleteAllByUserId([x], userId) == if OwnedBy(x, userId) then [] else [x]
  {
    FilterAppend(a, b, NotOwned(userId));
  }

  /** GetByUserId lists the owner's records in storage order, each once:
      listing a concatenation lists each part in turn. */
  lemma GetByUserIdKeepsOrder(a: Store, b: Store, x: ShortUrl, userId: Option<string>)
    ensures GetByUserId(a + b, userId, 0, |a| + |b|) == GetByUserId(a, userId, 0, |a|) + GetByUserId(b, userId, 0, |b|)
    ensures GetByUserId([x], userId, 0, 1) == if OwnedBy(x, userId) then [x] else []
  {
    FilterAppend(a, b, Owned(userId));
  }

  /** What DeleteAllByUserId keeps and what GetByUserId lists (with an
      unbounded window) split the store between them. */
  lemma OwnedAndRemainingPartitionStore(store: Store, userId: Option<string>)
    ensures multiset(GetByUserId(store, userId, 0, |store|)) + multiset(DeleteAllByUserId(store, userId)) == multiset(store)
  {
    FilterPartition(store, Owned(userId), NotOwned(userId));
  }

  function IdOf(x: ShortUrl): int
  {
    x.id
  }
}
