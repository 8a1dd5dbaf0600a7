/**
 * Clients of the service running the life cycle of one mapping end to end,
 * with a fixed stream of random draws and fixed clock readings.
 */
module Scenarios {
  import opened Wrappers
  import opened ShortCodes
  import opened Models
  import opened Services

  /** A service over an empty table whose first code is free to take. */
  method FreshService() returns (service: ShortUrlService)
    ensures fresh(service) && fresh(service.random)
    ensures service.Valid() && service.rows == map[] && service.nextId == 1
    ensures service.random.position == 0 && forall k :: service.random.draws(k) == k
    ensures exists n: nat :: FreeWithin(service.random.draws, service.random.position, service.rows.Keys, n)
  {
    var random := new RandomSource(n => n);
    service := new ShortUrlService(random, map[], 1);
    assert FreeWithin(random.draws, random.position, service.rows.Keys, 0);
  }

  /**
   * Create a mapping, resolve it three times, point it at a new url and read
   * its stats: the count is three, the id and creation time are the ones
   * creation gave, and updatedAt is the update's clock reading.
   */
  method ResolveThenUpdate() returns (created: UrlResponse, stats: Option<UrlStatsResponse>)
    ensures created.id == Some(1) && IsShortCode(created.shortCode)
    ensures created.url == "https://example.com" && created.createdAt == created.updatedAt == 10
    ensures stats == Some(UrlStatsResponse(Some(1), "https://updated.com", created.shortCode, 10, 20, 3))
  {
    var service := FreshService();
    created := service.CreateShortUrl("https://example.com", 10);
    var code := created.shortCode;
    ghost var row := Record(Some(1), "https://example.com", code, 10, 10, 0);
    assert service.rows[code] == row;
    var resolved := service.RetrieveOriginalUrl(code);
    assert service.rows[code] == row.(accessCount := 1);
    resolved := service.RetrieveOriginalUrl(code);
    assert service.rows[code] == row.(accessCount := 2);
    resolved := service.RetrieveOriginalUrl(code);
    assert service.rows[code] == row.(accessCount := 3);
    var updated := service.UpdateShortUrl(code, "https://updated.com", 20);
    stats := service.GetUrlStats(code);
  }

  /**
   * Create a mapping and delete it twice: the first delete reports true, the
   * second false, and the code no longer resolves.
   */
  method DeleteTwice() returns (deleted: bool, deletedAgain: bool, afterDelete: Option<UrlResponse>)
    ensures deleted && !deletedAgain && afterDelete.None?
  {
    var service := FreshService();
    var created := service.CreateShortUrl("https://example.com", 10);
    deleted := service.DeleteShortUrl(created.shortCode);
    deletedAgain := service.DeleteShortUrl(created.shortCode);
    afterDelete := service.RetrieveOriginalUrl(created.shortCode);
  }
}
