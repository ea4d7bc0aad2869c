/** UrlShortenerService: derives a six-character key from a URL, retrying
    with a growing numeric salt until the repository reports the key unused,
    builds (without storing) new records, and resolves keys back to URLs. */
module UrlShortenerService {
  import opened Basics
  import opened OperationResults
  import opened ShortUrls
  import opened HashHelper
  import opened ShortUrlRepository

  /** The key is this many leading characters of the hex digest. */
  const KeyLength := 6

  const NotFoundByKeyMessage := "Url was not found by shorting."

  predicate IsDigit(c: char)
  {
    '0' <= c <= '9'
  }

  function DigitChar(d: int): (c: char)
    requires 0 <= d < 10
    ensures IsDigit(c) && c as int - '0' as int == d
  {
    ('0' as int + d) as char
  }

  /** int.ToString() of a non-negative value: its decimal digits, with no
      sign and no leading zero. */
  function Decimal(n: nat): (s: string)
    ensures |s| > 0
    ensures forall i | 0 <= i < |s| :: IsDigit(s[i])
    ensures n > 0 ==> s[0] != '0'
  {
    if n < 10 then [DigitChar(n)] else Decimal(n / 10) + [DigitChar(n % 10)]
  }

  /** The number a string of decimal digits denotes. */
  function DecimalValue(s: string): nat
    requires forall i | 0 <= i < |s| :: IsDigit(s[i])
  {
    if |s| == 0 then 0
    else
      var last := s[|s| - 1];
      assert IsDigit(last);
      10 * DecimalValue(s[..|s| - 1]) + (last as int - '0' as int)
  }

  lemma {:induction false} DecimalRoundTrip(n: nat)
    ensures DecimalValue(Decimal(n)) == n
  {
    if n >= 10 {
      var s := Decimal(n);
      assert s[..|s| - 1] == Decimal(n / 10);
      DecimalRoundTrip(n / 10);
    }
  }

  /** The text hashed for a salt: the url alone for salt 0, otherwise the url
      followed by the salt's decimal digits. A null url concatenates as "". */
  function SaltedInput(url: Option<string>, salt: nat): (input: string)
    ensures |url.GetOr("")| <= |input| && input[..|url.GetOr("")|] == url.GetOr("")
    ensures salt == 0 <==> |input| == |url.GetOr("")|
    ensures salt > 0 ==> input[|url.GetOr("")|..] == Decimal(salt)
  {
    var text := url.GetOr("");
    if salt > 0 then
      assert (text + Decimal(salt))[..|text|] == text;
      text + Decimal(salt)
    else
      text
  }

  /** Every retry hashes a text no earlier attempt hashed. */
  lemma SaltedInputInjective(url: Option<string>, a: nat, b: nat)
    requires SaltedInput(url, a) == SaltedInput(url, b)
    ensures a == b
  {
    var n := |url.GetOr("")|;
    if a > 0 && b > 0 {
      assert Decimal(a) == SaltedInput(url, a)[n..] == Decimal(b);
      DecimalRoundTrip(a);
      DecimalRoundTrip(b);
    }
  }

  /** The key tried for a salt: `hash[..6]` of the hex digest. It is six
      lowercase hex characters fixed by the digest's first three bytes. */
  function CandidateKey(sha256: Sha256, url: Option<string>, salt: nat): (key: string)
    ensures |key| == KeyLength
    ensures forall i | 0 <= i < |key| :: IsLowerHex(key[i])
    ensures key == Hex(sha256(SaltedInput(url, salt))[..3])
  {
    var digest := sha256(SaltedInput(url, salt));
    HexPrefix(digest);
    Hex(digest)[..KeyLength]
  }

  /** Some salt yields a key the store does not hold, so the retry loop stops. */
  ghost predicate HasFreeSalt(sha256: Sha256, url: Option<string>, store: Store)
  {
    exists salt: nat :: !ExistKey(store, CandidateKey(sha256, url, salt))
  }

  /** `salt` is the least salt whose key the store does not hold. */
  ghost predicate IsLeastFreeSalt(sha256: Sha256, url: Option<string>, store: Store, salt: nat)
  {
    && !ExistKey(store, CandidateKey(sha256, url, salt))
    && forall earlier: nat | earlier < salt :: ExistKey(store, CandidateKey(sha256, url, earlier))
  }

  /** `key` is what GenerateKeyAsync returns: the key of the least free salt. */
  ghost predicate IsGeneratedKey(sha256: Sha256, url: Option<string>, store: Store, key: string)
  {
    exists salt: nat :: IsLeastFreeSalt(sha256, url, store, salt) && key == CandidateKey(sha256, url, salt)
  }

  /** GenerateKeyAsync: hashes url, url+"1", url+"2", ... and returns the
      first six hex characters of the first digest whose prefix is unused. */
  method GenerateKey(sha256: Sha256, url: Option<string>, store: Store) returns (key: string)
    requires HasFreeSalt(sha256, url, store)
    ensures IsGeneratedKey(sha256, url, store, key)
    ensures !ExistKey(store, key)
    ensures |key| == KeyLength && forall i | 0 <= i < |key| :: IsLowerHex(key[i])
  {
    ghost var bound: nat :| !ExistKey(store, CandidateKey(sha256, url, bound));
    var salt: nat := 0;
    var taken := true;
    key := "";
    while taken
      invariant salt <= bound + 1
      invariant forall earlier: nat | earlier + 1 < salt :: ExistKey(store, CandidateKey(sha256, url, earlier))
      invariant taken ==> forall earlier: nat | earlier < salt :: ExistKey(store, CandidateKey(sha256, url, earlier))
      invariant !taken ==> 0 < salt && key == CandidateKey(sha256, url, salt - 1) && !ExistKey(store, key)
      decreases bound + 1 - salt
    {
      var input := SaltedInput(url, salt);
      var hash := ComputeSha256Hash(input, sha256);
      key := hash[..KeyLength];
      salt := salt + 1;
      taken := ExistKey(store, key);
    }
    assert IsLeastFreeSalt(sha256, url, store, salt - 1);
  }

  /** The least free salt is unique. */
  lemma LeastFreeSaltIsUnique(sha256: Sha256, url: Option<string>, store: Store, a: nat, b: nat)
    requires IsLeastFreeSalt(sha256, url, store, a)
    requires IsLeastFreeSalt(sha256, url, store, b)
    ensures a == b
  {
  }

  /** Key generation is a function of the url and of the set of keys the
      store holds: stores holding the same keys give the same key. */
  lemma GeneratedKeyIsDeterministic(sha256: Sha256, url: Option<string>, store1: Store, store2: Store, key1: string, key2: string)
    requires forall k :: ExistKey(store1, k) <==> ExistKey(store2, k)
    requires IsGeneratedKey(sha256, url, store1, key1)
    requires IsGeneratedKey(sha256, url, store2, key2)
    ensures key1 == key2
  {
    var a: nat :| IsLeastFreeSalt(sha256, url, store1, a) && key1 == CandidateKey(sha256, url, a);
    var b: nat :| IsLeastFreeSalt(sha256, url, store2, b) && key2 == CandidateKey(sha256, url, b);
    assert IsLeastFreeSalt(sha256, url, store1, b);
    LeastFreeSaltIsUnique(sha256, url, store1, a, b);
  }

  /** A null url generates exactly the keys the empty url does. */
  lemma NullUrlActsAsEmpty(sha256: Sha256, store: Store, key: string)
    ensures IsGeneratedKey(sha256, None, store, key) <==> IsGeneratedKey(sha256, Some(""), store, key)
  {
    forall salt: nat
      ensures CandidateKey(sha256, None, salt) == CandidateKey(sha256, Some(""), salt)
    {
      assert SaltedInput(None, salt) == SaltedInput(Some(""), salt);
    }
  }

  /** When the salt-0 key is taken and the salt-1 key is free, the salt-1
      key is the one returned. */
  lemma CollisionMovesToNextSalt(sha256: Sha256, url: Option<string>, store: Store, key: string)
    requires ExistKey(store, CandidateKey(sha256, url, 0))
    requires !ExistKey(store, CandidateKey(sha256, url, 1))
    requires IsGeneratedKey(sha256, url, store, key)
    ensures key == CandidateKey(sha256, url, 1)
  {
    var s: nat :| IsLeastFreeSalt(sha256, url, store, s) && key == CandidateKey(sha256, url, s);
    assert IsLeastFreeSalt(sha256, url, store, 1);
    LeastFreeSaltIsUnique(sha256, url, store, s, 1);
  }

  /** CreateShortUrlAsync: a new record carrying the generated key, the url,
      the owner (for both, null stays null) and the current time; nothing is stored. */
  method CreateShortUrl(sha256: Sha256, store: Store, originalUrl: Option<string>, userId: Option<string>, now: int)
    returns (shortUrl: ShortUrl)
    requires HasFreeSalt(sha256, originalUrl, store)
    ensures IsGeneratedKey(sha256, originalUrl, store, shortUrl.key)
    ensures !ExistKey(store, shortUrl.key)
    ensures shortUrl.originalUrl == originalUrl && shortUrl.userId == userId
    ensures shortUrl.createdDate == now
    ensures shortUrl.id == 0
  {
    var key := GenerateKey(sha256, originalUrl, store);
    shortUrl := ShortUrl(0, key, originalUrl, now, userId);
  }

  /** GetOriginalUrlByShortCode: the OriginalUrl of the first record with
      this key, NotFound when there is none, and an uncoded failure carrying
      the message when the lookup throws. A record whose OriginalUrl is null
      gives a success whose Data is null. */
  function GetOriginalUrlByShortCode(store: Store, shortCode: string, lookup: Completion): (r: TypedResult<string>)
    ensures Consistent(r.Envelope())
    ensures lookup.Throws? ==> !r.success && r.errorMessage == Some(lookup.message) && r.errorCode.None?
    ensures lookup.Completes? ==> (r.success <==> ExistKey(store, shortCode))
    ensures lookup.Completes? && !r.success ==> r.errorCode == Some(NotFoundCode)
    ensures r.success ==> exists i | 0 <= i < |store| :: store[i].key == shortCode && r.data == store[i].originalUrl
                                                      && forall j | 0 <= j < i :: store[j].key != shortCode
  {
    match lookup
    case Throws(message) => TypedFail(message)
    case Completes =>
      match GetByKey(store, shortCode)
      case None => TypedFail(NotFoundByKeyMessage, Some(NotFoundCode))
      case Some(shortUrl) => TypedResult(true, None, None, shortUrl.originalUrl)
  }
}
