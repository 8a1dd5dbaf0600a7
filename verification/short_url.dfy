/**
 * The ShortUrl entity: one row of the short_urls table. The persistence
 * layer hands out the entity as a mutable object whose fields the service
 * changes through setters before saving it back.
 */
module Models {
  import opened Wrappers

  /**
   * The value of one row at one moment. id is None until the store assigns
   * one; timestamps are clock readings supplied by the caller.
   */
  datatype Record = Record(
    id: Option<nat>,
    url: string,
    shortCode: string,
    createdAt: int,
    updatedAt: int,
    accessCount: Int32)

  /** The response to create, resolve and update: the row without its access count. */
  datatype UrlResponse = UrlResponse(
    id: Option<nat>,
    url: string,
    shortCode: string,
    createdAt: int,
    updatedAt: int)

  /** The response to a stats request: the whole row. */
  datatype UrlStatsResponse = UrlStatsResponse(
    id: Option<nat>,
    url: string,
    shortCode: string,
    createdAt: int,
    updatedAt: int,
    accessCount: Int32)

  /** The row as create, resolve and update report it: everything but the count. */
  function ResponseOf(r: Record): (response: UrlResponse)
    ensures response.id == r.id && response.url == r.url && response.shortCode == r.shortCode
    ensures response.createdAt == r.createdAt && response.updatedAt == r.updatedAt
  {
    UrlResponse(r.id, r.url, r.shortCode, r.createdAt, r.updatedAt)
  }

  /** The row as stats report it: every field, the count included. */
  function StatsOf(r: Record): (stats: UrlStatsResponse)
    ensures stats.id == r.id && stats.url == r.url && stats.shortCode == r.shortCode
    ensures stats.createdAt == r.createdAt && stats.updatedAt == r.updatedAt
    ensures stats.accessCount == r.accessCount
  {
    UrlStatsResponse(r.id, r.url, r.shortCode, r.createdAt, r.updatedAt, r.accessCount)
  }

  const IntMin: int := -0x8000_0000
  const IntMax: int := 0x7fff_ffff

  /** Java's int: a 32-bit two's-complement integer. */
  type Int32 = x: int | -0x8000_0000 <= x <= 0x7fff_ffff

  /**
   * Java int arithmetic: the 32-bit two's-complement value congruent to x,
   * which is what an int sum such as accessCount + 1 evaluates to.
   */
  function Wrap32(x: int): (r: Int32)
    ensures (x - r) % 0x1_0000_0000 == 0
    ensures IntMin <= x <= IntMax ==> r == x
  {
    (x - IntMin) % 0x1_0000_0000 + IntMin
  }

  /** Adding one to a wrapped value wraps to the same result as adding one first. */
  lemma WrapAddOne(x: int)
    ensures Wrap32(Wrap32(x) + 1) == Wrap32(x + 1)
  {
  }

  class ShortUrl {
    var id: Option<nat>
    var url: string
    var shortCode: string
    var createdAt: int
    var updatedAt: int
    var accessCount: Int32

    /** The entity's current field values. */
    function View(): Record
      reads this
    {
      Record(id, url, shortCode, createdAt, updatedAt, accessCount)
    }

    /** The all-arguments constructor: sets exactly the six given fields. */
    constructor (id: Option<nat>, url: string, shortCode: string, createdAt: int, updatedAt: int, accessCount: Int32)
      ensures View() == Record(id, url, shortCode, createdAt, updatedAt, accessCount)
    {
      this.id := id;
      this.url := url;
      this.shortCode := shortCode;
      this.createdAt := createdAt;
      this.updatedAt := updatedAt;
      this.accessCount := accessCount;
    }

    method SetId(id: Option<nat>)
      modifies this
      ensures View() == old(View()).(id := id)
    {
      this.id := id;
    }

    method SetUrl(url: string)
      modifies this
      ensures View() == old(View()).(url := url)
    {
      this.url := url;
    }

    method SetUpdatedAt(updatedAt: int)
      modifies this
      ensures View() == old(View()).(updatedAt := updatedAt)
    {
      this.updatedAt := updatedAt;
    }

    method SetAccessCount(accessCount: Int32)
      modifies this
      ensures View() == old(View()).(accessCount := accessCount)
    {
      this.accessCount := accessCount;
    }
  }
}
