/** The ShortUrl entity and its equality, which ignores the creation date. */
module ShortUrls {
  import opened Basics

  /** A stored short URL. `createdDate` is the creation time in clock ticks,
      `originalUrl` the URL (null when the shortener was given null) and
      `userId` the owner's id or null for an anonymous record. The `User`
      navigation property is not part of the model. */
  datatype ShortUrl = ShortUrl(id: int, key: string, originalUrl: Option<string>, createdDate: int, userId: Option<string>)

  /** The values an `object?` argument of Equals can hold. */
  datatype Object = Null | Url(url: ShortUrl) | Other

  /** ShortUrl.Equals(object? obj): equal exactly when `obj` is a ShortUrl
      that differs from `a` at most in its creation date. */
  function Equals(a: ShortUrl, obj: Object): (r: bool)
    ensures r <==> obj.Url? && obj.url.(createdDate := a.createdDate) == a
  {
    match obj
    case Url(other) =>
      && a.id == other.id
      && a.key == other.key
      && a.originalUrl == other.originalUrl
      && a.userId == other.userId
    case _ => false
  }

  /** Equality between two records, as Equals decides it. */
  predicate SameRecord(a: ShortUrl, b: ShortUrl)
  {
    Equals(a, Url(b))
  }

  /** ShortUrl.GetHashCode, over an abstract HashCode.Combine (whose seed is
      chosen per process). */
  function HashCode(a: ShortUrl, combine: (int, string, Option<string>, Option<string>) -> int): (h: int)
    ensures forall b | SameRecord(a, b) :: h == combine(b.id, b.key, b.originalUrl, b.userId)
  {
    combine(a.id, a.key, a.originalUrl, a.userId)
  }

  lemma EqualityIgnoresCreatedDate(a: ShortUrl, b: ShortUrl)
    ensures SameRecord(a, b) <==> a.(createdDate := b.createdDate) == b
  {
  }

  lemma EqualityIsEquivalence(a: ShortUrl, b: ShortUrl, c: ShortUrl)
    ensures SameRecord(a, a)
    ensures SameRecord(a, b) ==> SameRecord(b, a)
    ensures SameRecord(a, b) && SameRecord(b, c) ==> SameRecord(a, c)
  {
  }

  lemma NeverEqualToOtherObjects(a: ShortUrl)
    ensures !Equals(a, Null) && !Equals(a, Other)
  {
  }

  lemma EqualRecordsHashEqually(a: ShortUrl, b: ShortUrl, combine: (int, string, Option<string>, Option<string>) -> int)
    requires SameRecord(a, b)
    ensures HashCode(a, combine) == HashCode(b, combine)
  {
  }
}
