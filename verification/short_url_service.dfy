/**
 * The service: creates, resolves, updates, deletes and reports on short URL
 * mappings held in the repository of ShortUrl rows.
 */
module Services {
  import opened Wrappers
  import opened ShortCodes
  import opened Models
  import opened Mappings

  class ShortUrlService {
    /** The repository's table: the saved rows, found by their short codes. */
    var rows: Store
    /** The next id the repository hands out on saving a new entity. */
    var nextId: nat
    const random: RandomSource

    ghost predicate Valid()
      reads this
    {
      StoreInvariant(rows, nextId)
    }

    /**
     * The service over an injected repository, which may already hold rows;
     * nextId is the id its identity column hands out next.
     */
    constructor (random: RandomSource, rows: Store, nextId: nat)
      requires StoreInvariant(rows, nextId)
      ensures Valid() && this.rows == rows && this.nextId == nextId && this.random == random
    {
      this.rows, this.nextId := rows, nextId;
      this.random := random;
    }

    /** findByShortCode: an entity holding the saved row, or None where Java returns null. */
    method FindByShortCode(code: string) returns (found: Option<ShortUrl>)
      ensures found.Some? <==> code in rows
      ensures found.Some? ==> fresh(found.value) && found.value.View() == rows[code]
    {
      if code !in rows {
        return None;
      }
      var r := rows[code];
      var e := new ShortUrl(r.id, r.url, r.shortCode, r.createdAt, r.updatedAt, r.accessCount);
      found := Some(e);
    }

    /** existsByShortCode: whether findByShortCode would find an entity. */
    function ExistsByShortCode(code: string): (b: bool)
      reads this
      ensures b <==> Lookup(rows, code).Some?
    {
      code in rows
    }

    method DeleteByShortCode(code: string)
      requires Valid()
      modifies this
      ensures Valid()
      ensures rows == Remove(old(rows), code) && nextId == old(nextId)
    {
      RemovePreservesInvariant(rows, nextId, code);
      rows := Remove(rows, code);
    }

    /**
     * The repository's save: an entity without an id is new and gets the next
     * id; an entity with one is written back over the row under its code.
     */
    method Save(e: ShortUrl)
      requires Valid() && IsShortCode(e.shortCode)
      requires e.shortCode in rows ==> e.id == rows[e.shortCode].id
      requires e.shortCode !in rows ==> e.id.None?
      modifies this, e
      ensures Valid()
      ensures e.View() == old(e.View()).(id := if old(e.id).None? then Some(old(nextId)) else old(e.id))
      ensures nextId == if old(e.id).None? then old(nextId) + 1 else old(nextId)
      ensures rows == old(rows)[e.shortCode := e.View()]
    {
      if e.id.None? {
        e.SetId(Some(nextId));
        nextId := nextId + 1;
      }
      SavePreservesInvariant(rows, old(nextId), nextId, e.View());
      rows := rows[e.shortCode := e.View()];
    }

    /** generateShortCode: six symbols of the alphabet, one random draw each. */
    method GenerateShortCode() returns (code: string)
      modifies random
      ensures code == CodeAt(random.draws, old(random.position))
      ensures IsShortCode(code)
      ensures random.position == old(random.position) + CodeLength
    {
      code := "";
      for i := 0 to CodeLength
        invariant random.position == old(random.position) + i
        invariant code == CodeFrom(random.draws, old(random.position), i)
      {
        var n := random.NextInt(|Alphabet|);
        SymbolIsAlphabetEntry(random.draws(random.position - 1));
        code := code + [Alphabet[n]];
      }
    }

    /**
     * The do-while loop of createShortUrl: draws codes until one is not
     * taken. Every code drawn before the returned one was taken. The draws
     * are assumed to reach a free code eventually.
     */
    method DrawFreeCode() returns (code: string, ghost last: nat)
      requires exists n: nat :: FreeWithin(random.draws, random.position, rows.Keys, n)
      modifies random
      ensures IsShortCode(code) && code !in rows
      ensures old(random.position) <= last && random.position == last + CodeLength
      ensures code == CodeAt(random.draws, last)
      ensures TakenUntil(random.draws, old(random.position), last, rows.Keys)
    {
      ghost var n: nat :| FreeWithin(random.draws, random.position, rows.Keys, n);
      last := random.position;
      code := GenerateShortCode();
      while ExistsByShortCode(code)
        invariant old(random.position) <= last && random.position == last + CodeLength
        invariant code == CodeAt(random.draws, last)
        invariant FreeWithin(random.draws, last, rows.Keys, n)
        invariant TakenUntil(random.draws, old(random.position), last, rows.Keys)
        decreases n
      {
        assert TakenUntil(random.draws, old(random.position), last + CodeLength, rows.Keys);
        n := n - 1;
        last := random.position;
        code := GenerateShortCode();
      }
    }

    /**
     * createShortUrl: draws a free code, then saves a new entity with that
     * code, the url, the current time twice and a count of zero.
     */
    method CreateShortUrl(url: string, now: int) returns (r: UrlResponse)
      requires Valid()
      requires exists n: nat :: FreeWithin(random.draws, random.position, rows.Keys, n)
      modifies this, random
      ensures Valid()
      ensures IsShortCode(r.shortCode) && r.shortCode !in old(rows)
      ensures r == UrlResponse(Some(old(nextId)), url, r.shortCode, now, now)
      ensures rows == Insert(old(rows), old(nextId), r.shortCode, url, now)
      ensures nextId == old(nextId) + 1
      ensures random.position >= old(random.position) + CodeLength
      ensures r.shortCode == CodeAt(random.draws, random.position - CodeLength)
      ensures TakenUntil(random.draws, old(random.position), random.position - CodeLength, old(rows).Keys)
    {
      var code;
      ghost var last;
      code, last := DrawFreeCode();
      var e := new ShortUrl(None, url, code, now, now, 0);
      Save(e);
      r := ResponseOf(e.View());
      assert r.shortCode == code;
      ghost var taken := old(rows).Keys;
      assert random.position - CodeLength == last;
      assert CodeAt(random.draws, random.position - CodeLength) == code;
      assert TakenUntil(random.draws, old(random.position), random.position - CodeLength, taken);
    }

    /** retrieveOriginalUrl: a found mapping's access count goes up by one and is saved. */
    method RetrieveOriginalUrl(code: string) returns (r: Option<UrlResponse>)
      requires Valid()
      modifies this
      ensures Valid() && nextId == old(nextId)
      ensures rows == Touch(old(rows), code)
      ensures r.Some? <==> code in old(rows)
      ensures r.Some? ==> r.value == ResponseOf(old(rows)[code])
    {
      var found := FindByShortCode(code);
      if found.None? {
        return None;
      }
      var e := found.value;
      e.SetAccessCount(Wrap32(e.accessCount + 1));
      Save(e);
      r := Some(ResponseOf(e.View()));
    }

    /** updateShortUrl: a found mapping gets the new url and updatedAt = now, and is saved. */
    method UpdateShortUrl(code: string, url: string, now: int) returns (r: Option<UrlResponse>)
      requires Valid()
      modifies this
      ensures Valid() && nextId == old(nextId)
      ensures rows == Retarget(old(rows), code, url, now)
      ensures r.Some? <==> code in old(rows)
      ensures r.Some? ==> r.value == ResponseOf(rows[code])
    {
      var found := FindByShortCode(code);
      if found.None? {
        return None;
      }
      var e := found.value;
      e.SetUrl(url);
      e.SetUpdatedAt(now);
      Save(e);
      r := Some(ResponseOf(e.View()));
    }

    /** deleteShortUrl: true exactly when a mapping was there to remove. */
    method DeleteShortUrl(code: string) returns (deleted: bool)
      requires Valid()
      modifies this
      ensures Valid() && nextId == old(nextId)
      ensures deleted <==> code in old(rows)
      ensures rows == Remove(old(rows), code)
    {
      if ExistsByShortCode(code) {
        DeleteByShortCode(code);
        return true;
      }
      return false;
    }

    /** getUrlStats: the whole saved row, access count included; nothing changes. */
    method GetUrlStats(code: string) returns (r: Option<UrlStatsResponse>)
      requires Valid()
      ensures r.Some? <==> code in rows
      ensures r.Some? ==> r.value == StatsOf(rows[code])
      ensures r.Some? ==> r.value.shortCode == code && r.value.id.Some? && IsShortCode(code)
    {
      var found := FindByShortCode(code);
      if found.None? {
        return None;
      }
      r := Some(StatsOf(found.value.View()));
    }
  }
}
