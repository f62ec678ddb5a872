/** How create chooses the id of a new local product: above every local id and a
    margin above every external id, or a clock-and-random fallback when a step fails. */
module IdAllocation {
  import opened Common
  import opened Catalog
  import opened Entities
  import opened LocalTable

  /** Lowest id a created product may receive. */
  const BaseId := 1000000
  /** Head-room kept above the highest external id. */
  const ExternalMargin := 100000
  /** Start of the fallback range. */
  const FallbackBase := 2000000
  /** Modulus applied to the clock in the fallback id. */
  const FallbackWindow := 1000000
  /** Number of values the fallback's random term can take. */
  const FallbackSpread := 10000

  /** The number create takes from a readable external id: a number as it is, a string
      through parseInt with NaN read as 0, anything else as 0. */
  function ParseId(raw: RawId): (n: int)
    requires !raw.Unreadable?
    ensures raw.Num? ==> n == raw.n
    ensures raw.Text? && raw.parsed.Some? ==> n == raw.parsed.value
    ensures n != 0 ==> (raw.Num? && n == raw.n) || (raw.Text? && raw.parsed == Some(n))
  {
    match raw
    case Num(n) => n
    case Text(Some(n)) => n
    case Text(None) => 0
    case Other => 0
  }

  /** The parsed external ids, in order, with every value <= 0 filtered out. */
  function PositiveIds(raws: seq<RawId>): (ids: seq<int>)
    requires Readable(raws)
    ensures forall x :: x in ids ==> x > 0
    ensures forall x :: x in ids <==> x > 0 && exists raw :: raw in raws && ParseId(raw) == x
  {
    if |raws| == 0 then []
    else
      assert raws[0] in raws;
      assert Readable(raws[1..]) by {
        forall raw | raw in raws[1..] ensures !raw.Unreadable? {
          assert raw in raws;
        }
      }
      var rest := PositiveIds(raws[1..]);
      assert forall raw :: raw in raws <==> raw == raws[0] || raw in raws[1..];
      if ParseId(raws[0]) > 0 then [ParseId(raws[0])] + rest else rest
  }

  /** Math.max over a non-empty list. */
  function MaxOf(xs: seq<int>): (m: int)
    requires |xs| > 0
    ensures m in xs
    ensures forall x :: x in xs ==> x <= m
  {
    if |xs| == 1 then xs[0]
    else
      var rest := MaxOf(xs[1..]);
      assert forall x :: x in xs <==> x == xs[0] || x in xs[1..];
      if xs[0] >= rest then xs[0] else rest
  }

  /** The highest local id, 0 when the table is empty. The source reads it from the
      ten rows with the highest ids, whose maximum is the maximum of the table. */
  function HighestLocalId(rows: seq<Product>): (h: int)
    ensures |rows| == 0 ==> h == 0
    ensures |rows| > 0 ==> h in Ids(rows)
    ensures forall p :: p in rows ==> p.id <= h
  {
    if |rows| == 0 then 0
    else
      var ids := seq(|rows|, i requires 0 <= i < |rows| => rows[i].id);
      assert forall p :: p in rows ==> p.id in ids by {
        forall p | p in rows ensures p.id in ids {
          var i :| 0 <= i < |rows| && rows[i] == p;
          assert ids[i] == p.id;
        }
      }
      MaxOf(ids)
  }

  /** The highest positive external id; 0 when there is none, when the catalog call
      failed, or when an entry's id cannot be read (the throw is caught and the value
      stays 0 for the whole list). */
  function HighestExternalId(fetched: Fetch<seq<RawId>>): (h: int)
    ensures h >= 0
    ensures fetched.Fetched? && Readable(fetched.value) ==>
      forall raw :: raw in fetched.value && ParseId(raw) > 0 ==> ParseId(raw) <= h
    ensures h > 0 ==> fetched.Fetched? && Readable(fetched.value) && exists raw :: raw in fetched.value && ParseId(raw) == h
  {
    match fetched
    case Fetched(raws) =>
      if !Readable(raws) then 0 else
      var ids := PositiveIds(raws);
      assert forall raw :: raw in raws && ParseId(raw) > 0 ==> ParseId(raw) in ids;
      if |ids| > 0 then
        var m := MaxOf(ids);
        assert m in ids;
        m
      else 0
    case _ => 0
  }

  /** Math.max(BaseId, highestLocal + 1, highestExternal + ExternalMargin). */
  function NextId(highestLocal: int, highestExternal: int): (id: int)
    ensures id >= BaseId && id > highestLocal && id >= highestExternal + ExternalMargin
    ensures id == BaseId || id == highestLocal + 1 || id == highestExternal + ExternalMargin
  {
    var m := if highestLocal + 1 > BaseId then highestLocal + 1 else BaseId;
    if highestExternal + ExternalMargin > m then highestExternal + ExternalMargin else m
  }

  /** The id create allocates on its normal path: the least number that is at least
      BaseId, above every local id and ExternalMargin above every positive external id. */
  function AllocatedId(rows: seq<Product>, fetched: Fetch<seq<RawId>>): (id: int)
    ensures id >= BaseId
    ensures forall p :: p in rows ==> p.id < id
    ensures fetched.Fetched? && Readable(fetched.value) ==>
      forall raw :: raw in fetched.value && ParseId(raw) > 0 ==> ParseId(raw) + ExternalMargin <= id
    ensures || id == BaseId
            || (exists p :: p in rows && id == p.id + 1)
            || (fetched.Fetched? && Readable(fetched.value) &&
                exists raw :: raw in fetched.value && ParseId(raw) > 0 && id == ParseId(raw) + ExternalMargin)
  {
    NextId(HighestLocalId(rows), HighestExternalId(fetched))
  }

  /** JavaScript's `now % FallbackWindow`: the remainder takes the sign of the dividend. */
  function TimeSlot(now: int): (s: int)
    ensures now >= 0 ==> 0 <= s < FallbackWindow
    ensures now < 0 ==> -FallbackWindow < s <= 0
    ensures (now - s) % FallbackWindow == 0
  {
    if now >= 0 then now % FallbackWindow else -((-now) % FallbackWindow)
  }

  /** The emergency id: FallbackBase + (now % FallbackWindow) + a random term. */
  function FallbackId(now: int, draw: int): (id: int)
    requires 0 <= draw < FallbackSpread
    ensures now >= 0 ==> FallbackBase <= id <= FallbackBase + FallbackWindow + FallbackSpread - 2
    ensures FallbackBase - FallbackWindow < id
    ensures id - draw - FallbackBase == TimeSlot(now)
  {
    FallbackBase + TimeSlot(now) + draw
  }

  /** The allocated id is new to the table, is at least BaseId, and lies at least
      ExternalMargin above every positive id of the external list read. */
  lemma AllocatedIdIsFresh(rows: seq<Product>, fetched: Fetch<seq<RawId>>)
    ensures AllocatedId(rows, fetched) >= BaseId
    ensures AllocatedId(rows, fetched) !in Ids(rows)
    ensures forall p :: p in rows ==> p.id < AllocatedId(rows, fetched)
    ensures fetched.Fetched? && Readable(fetched.value) ==>
      forall raw :: raw in fetched.value && ParseId(raw) > 0 ==> ParseId(raw) + ExternalMargin <= AllocatedId(rows, fetched)
  {
  }

  /** An allocated id never equals an id in the external list: it is at least
      BaseId, above every non-positive id, and a margin above every positive one. */
  lemma AllocatedIdAvoidsCatalog(rows: seq<Product>, items: seq<ExternalItem>)
    ensures AllocatedId(rows, Fetched(RawIdsOf(items))) !in ExternalIds(items)
  {
    var raws := RawIdsOf(items);
    var id := AllocatedId(rows, Fetched(raws));
    assert Readable(raws);
    forall e | e in items ensures e.id != id {
      var i :| 0 <= i < |items| && items[i] == e;
      assert raws[i] == Num(e.id) && raws[i] in raws;
      AllocatedIdIsFresh(rows, Fetched(raws));
    }
  }

  /** A local maximum of 3 and an external maximum of 20 give BaseId. */
  lemma SmallSourcesGiveBaseId(rows: seq<Product>, raws: seq<RawId>)
    requires HighestLocalId(rows) == 3
    requires forall raw :: raw in raws && !raw.Unreadable? ==> ParseId(raw) <= 20
    ensures AllocatedId(rows, Fetched(raws)) == BaseId
  {
  }

  /** One entry whose id cannot be read discards the whole external list: create then
      allocates as if the catalog call had failed. */
  lemma UnreadableEntryDiscardsList(rows: seq<Product>, raws: seq<RawId>)
    requires exists raw :: raw in raws && raw.Unreadable?
    ensures AllocatedId(rows, Fetched(raws)) == AllocatedId(rows, Unavailable)
    ensures AllocatedId(rows, Fetched(raws)) == NextId(HighestLocalId(rows), 0)
  {
  }

  /** A failed catalog call counts as an external maximum of 0. */
  lemma FailedCatalogCountsAsZero(rows: seq<Product>)
    ensures AllocatedId(rows, Unavailable) == NextId(HighestLocalId(rows), 0)
    ensures AllocatedId(rows, Missing) == NextId(HighestLocalId(rows), 0)
  {
  }
}
