/**
 * What each service operation does to the table of mappings, as functions on
 * values, and the properties the operations promise: short codes stay
 * unique, access counts move by exactly one per resolve, updates keep a
 * mapping's identity, and a deleted code is gone for good.
 */
module Mappings {
  import opened Wrappers
  import opened ShortCodes
  import opened Models

  /** The rows of the table, keyed by short code. */
  type Store = map<string, Record>

  /**
   * The table's invariant: each row sits under its own short code (so no two
   * rows share one), every code is a generated short code, and every row has
   * a store-assigned id below the next one to hand out, distinct from the
   * others.
   */
  predicate StoreInvariant(m: Store, nextId: nat) {
    && (forall c :: c in m ==> m[c].shortCode == c && IsShortCode(c))
    && (forall c :: c in m ==> m[c].id.Some? && m[c].id.value < nextId)
    && (forall c, d :: c in m && d in m && c != d ==> m[c].id != m[d].id)
  }

  /** No mapping was last updated before it was created. */
  predicate TimesOrdered(m: Store) {
    forall c :: c in m ==> m[c].createdAt <= m[c].updatedAt
  }

  /** The row stored under code, if any: findByShortCode. */
  function Lookup(m: Store, code: string): (r: Option<Record>)
    ensures r.Some? <==> code in m
    ensures r.Some? ==> r.value == m[code] && r.value in m.Values
  {
    if code in m then Some(m[code]) else None
  }

  /** Creation: a fresh row under a code that was free, with the given id, url and time. */
  function Insert(m: Store, id: nat, code: string, url: string, now: int): (m': Store)
    requires code !in m
    ensures m'.Keys == m.Keys + {code} && |m'| == |m| + 1
    ensures m'[code].id == Some(id) && m'[code].url == url && m'[code].shortCode == code
    ensures m'[code].accessCount == 0 && m'[code].createdAt == m'[code].updatedAt == now
    ensures forall c :: c in m ==> m'[c] == m[c]
  {
    m[code := Record(Some(id), url, code, now, now, 0)]
  }

  /**
   * Resolve: the access count of the row under code, if any, goes up by one
   * in Java int arithmetic, so a count at the int maximum wraps to the minimum.
   */
  function Touch(m: Store, code: string): (m': Store)
    ensures m'.Keys == m.Keys
    ensures code in m ==> m'[code] == m[code].(accessCount := Wrap32(m[code].accessCount + 1))
    ensures code in m && m[code].accessCount < IntMax ==>
      m'[code].accessCount == m[code].accessCount + 1
    ensures code in m && m[code].accessCount == IntMax ==> m'[code].accessCount == IntMin
    ensures forall c :: c in m && c != code ==> m'[c] == m[c]
  {
    if code in m then m[code := m[code].(accessCount := Wrap32(m[code].accessCount + 1))] else m
  }

  /** Update: the row under code, if any, gets the new url and updatedAt = now. */
  function Retarget(m: Store, code: string, url: string, now: int): (m': Store)
    ensures m'.Keys == m.Keys
    ensures code in m ==>
      && m'[code].url == url && m'[code].updatedAt == now
      && m'[code].id == m[code].id && m'[code].shortCode == m[code].shortCode
      && m'[code].createdAt == m[code].createdAt && m'[code].accessCount == m[code].accessCount
    ensures forall c :: c in m && c != code ==> m'[c] == m[c]
  {
    if code in m then m[code := m[code].(url := url, updatedAt := now)] else m
  }

  /** Delete: the row under code, if any, is removed and nothing else changes. */
  function Remove(m: Store, code: string): (m': Store)
    ensures m'.Keys == m.Keys - {code}
    ensures code in m ==> |m'| == |m| - 1
    ensures forall c :: c in m' ==> m'[c] == m[c]
  {
    m - {code}
  }

  /** resolve applied k times in a row. */
  function TouchN(m: Store, code: string, k: nat): (m': Store)
    ensures m'.Keys == m.Keys
  {
    if k == 0 then m else Touch(TouchN(m, code, k - 1), code)
  }

  /** Two distinct rows never share a short code, nor an id. */
  lemma UniqueShortCodes(m: Store, nextId: nat, c: string, d: string)
    requires StoreInvariant(m, nextId)
    requires c in m && d in m && c != d
    ensures m[c].shortCode != m[d].shortCode
    ensures m[c].id != m[d].id
  {
  }

  lemma InsertPreservesInvariant(m: Store, nextId: nat, code: string, url: string, now: int)
    requires StoreInvariant(m, nextId)
    requires code !in m && IsShortCode(code)
    ensures StoreInvariant(Insert(m, nextId, code, url, now), nextId + 1)
    ensures TimesOrdered(m) ==> TimesOrdered(Insert(m, nextId, code, url, now))
  {
  }

  lemma TouchPreservesInvariant(m: Store, nextId: nat, code: string)
    requires StoreInvariant(m, nextId)
    ensures StoreInvariant(Touch(m, code), nextId)
    ensures TimesOrdered(m) ==> TimesOrdered(Touch(m, code))
  {
  }

  /** Update keeps the invariant; the times stay ordered when the clock has not gone back. */
  lemma RetargetPreservesInvariant(m: Store, nextId: nat, code: string, url: string, now: int)
    requires StoreInvariant(m, nextId)
    ensures StoreInvariant(Retarget(m, code, url, now), nextId)
    ensures TimesOrdered(m) && (code in m ==> m[code].updatedAt <= now) ==>
      TimesOrdered(Retarget(m, code, url, now))
  {
  }

  /**
   * Saving a row keeps the invariant when it either writes back a stored row
   * under its own code and id, or inserts a new code with the next id.
   */
  lemma SavePreservesInvariant(m: Store, nextId: nat, nextId': nat, v: Record)
    requires StoreInvariant(m, nextId)
    requires IsShortCode(v.shortCode)
    requires v.shortCode in m ==> v.id == m[v.shortCode].id && nextId' == nextId
    requires v.shortCode !in m ==> v.id == Some(nextId) && nextId' == nextId + 1
    ensures StoreInvariant(m[v.shortCode := v], nextId')
  {
  }

  lemma RemovePreservesInvariant(m: Store, nextId: nat, code: string)
    requires StoreInvariant(m, nextId)
    ensures StoreInvariant(Remove(m, code), nextId)
    ensures TimesOrdered(m) ==> TimesOrdered(Remove(m, code))
  {
  }

  /**
   * Resolving a code k times raises its count by exactly k, in Java int
   * arithmetic, and changes nothing else.
   */
  lemma {:induction false} ResolveRepeatedly(m: Store, code: string, k: nat)
    requires code in m
    ensures TouchN(m, code, k).Keys == m.Keys
    ensures TouchN(m, code, k)[code] == m[code].(accessCount := Wrap32(m[code].accessCount + k))
    ensures forall c :: c in m && c != code ==> TouchN(m, code, k)[c] == m[c]
  {
    if k > 0 {
      ResolveRepeatedly(m, code, k - 1);
      WrapAddOne(m[code].accessCount + (k - 1));
    }
  }

  /** Resolving an absent code, any number of times, leaves the table as it was. */
  lemma {:induction false} ResolveAbsent(m: Store, code: string, k: nat)
    requires code !in m
    ensures TouchN(m, code, k) == m
  {
    if k > 0 {
      ResolveAbsent(m, code, k - 1);
    }
  }

  /** A created mapping resolves to its url with a count of one. */
  lemma CreateThenResolve(m: Store, id: nat, code: string, url: string, now: int)
    requires code !in m
    ensures Lookup(Touch(Insert(m, id, code, url, now), code), code) ==
      Some(Record(Some(id), url, code, now, now, 1))
  {
  }

  /** Stats on a fresh mapping after k resolves reports a count of k, while k fits in an int. */
  lemma CreateThenResolveTimes(m: Store, id: nat, code: string, url: string, now: int, k: nat)
    requires code !in m
    requires k <= IntMax
    ensures Lookup(TouchN(Insert(m, id, code, url, now), code, k), code) ==
      Some(Record(Some(id), url, code, now, now, k))
  {
    ResolveRepeatedly(Insert(m, id, code, url, now), code, k);
  }

  /**
   * After a delete, the code is absent: resolve, update and stats find
   * nothing and change nothing, and a second delete removes nothing.
   */
  lemma DeleteFinality(m: Store, code: string, url: string, now: int)
    ensures code !in Remove(m, code)
    ensures Lookup(Remove(m, code), code).None?
    ensures Touch(Remove(m, code), code) == Remove(m, code)
    ensures Retarget(Remove(m, code), code, url, now) == Remove(m, code)
    ensures Remove(Remove(m, code), code) == Remove(m, code)
  {
  }

  /** Update then stats: the new url is reported under the same code, count and creation time. */
  lemma UpdateKeepsIdentity(m: Store, code: string, url: string, now: int)
    requires code in m
    ensures Lookup(Retarget(m, code, url, now), code) ==
      Some(m[code].(url := url, updatedAt := now))
    ensures m[code].updatedAt <= now ==> Retarget(m, code, url, now)[code].updatedAt >= m[code].updatedAt
  {
  }
}
