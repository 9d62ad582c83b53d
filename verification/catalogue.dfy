/** The service catalogue as the public pages and the booking page load it:
    active services only, cheapest first, each with a booking link that
    carries its id, and the lookup the booking page does with that id. */
module Catalogue {
  import opened Wrappers
  import opened Records
  import Seqs

  function Price(s: Service): int {
    s.price
  }

  predicate IsActive(s: Service) {
    s.isActive
  }

  /** The services query with `is_active = true`, ordered by ascending price.
      The datastore leaves the order of equal prices open; this model keeps
      the table order among them. */
  function ActiveByPrice(table: seq<Service>): (r: seq<Service>)
    ensures forall i | 0 <= i < |r| :: r[i].isActive
    ensures Seqs.SortedBy(r, Price)
    ensures multiset(r) == multiset(Seqs.Filter(table, IsActive))
    ensures forall s :: multiset(r)[s] == if s.isActive then multiset(table)[s] else 0
    ensures forall s :: s in r <==> s in table && s.isActive
  {
    var active := Seqs.Filter(table, IsActive);
    var r := Seqs.SortBy(active, Price);
    Seqs.SameElements(r, active);
    assert forall i | 0 <= i < |r| :: r[i] in r;
    r
  }

  /** Every active service of the table is listed, at most as often as the table holds it. */
  lemma CatalogueIsComplete(table: seq<Service>)
    ensures |ActiveByPrice(table)| == |Seqs.Filter(table, IsActive)|
    ensures forall i | 0 <= i < |table| && table[i].isActive :: table[i] in ActiveByPrice(table)
  {
    var r := ActiveByPrice(table);
    assert |r| == |multiset(r)|;
  }

  const BookingPath: string := "/agendar?service="

  /** The link each catalogue card offers: `/agendar?service=<id>`. */
  function BookingLink(id: Id): (url: string)
    ensures |url| == |BookingPath| + |id|
    ensures url[..|BookingPath|] == BookingPath && url[|BookingPath|..] == id
  {
    BookingPath + id
  }

  /** Characters that `URLSearchParams` would decode or treat as a boundary. */
  predicate QuerySafe(v: string) {
    forall i | 0 <= i < |v| :: v[i] != '%' && v[i] != '+' && v[i] != '&' && v[i] != '#'
  }

  /** `searchParams.get('service')` on a booking-page link whose value needs no
      decoding; links with escapes or further parameters are not modelled. */
  function ServiceParam(url: string): (r: Option<string>)
    ensures r.Some? ==> QuerySafe(r.value) && url == BookingPath + r.value
  {
    if |url| >= |BookingPath| && url[..|BookingPath|] == BookingPath && QuerySafe(url[|BookingPath|..])
    then Some(url[|BookingPath|..])
    else None
  }

  /** A card's link hands the booking page back the service's id. */
  lemma LinkRoundTrip(id: Id)
    requires QuerySafe(id)
    ensures ServiceParam(BookingLink(id)) == Some(id)
  {
  }

  /** The position of the first service with that id, or the length when none has it. */
  function FindIndex(services: seq<Service>, id: Id): (i: nat)
    ensures i <= |services|
    ensures forall k | 0 <= k < i :: services[k].id != id
    ensures i < |services| ==> services[i].id == id
  {
    if |services| == 0 then 0
    else if services[0].id == id then 0
    else 1 + FindIndex(services[1..], id)
  }

  /** `Array.prototype.find` by id: the first service with that id. */
  function FindById(services: seq<Service>, id: Id): (r: Option<Service>)
    ensures r.Some? <==> exists i | 0 <= i < |services| :: services[i].id == id
    ensures r.Some? ==> r.value in services && r.value.id == id
    ensures r.Some? ==> exists i | 0 <= i < |services| ::
      services[i] == r.value && forall k | 0 <= k < i :: services[k].id != id
  {
    var i := FindIndex(services, id);
    if i < |services| then Some(services[i]) else None
  }

  /** With distinct ids, following a card's link finds exactly that card's
      service among the active ones. */
  lemma LinkFindsService(table: seq<Service>, s: Service)
    requires s in table && s.isActive && QuerySafe(s.id)
    requires forall i, j | 0 <= i < |table| && 0 <= j < |table| && table[i].id == table[j].id :: i == j
    ensures ServiceParam(BookingLink(s.id)) == Some(s.id)
    ensures FindById(ActiveByPrice(table), s.id) == Some(s)
  {
    var r := ActiveByPrice(table);
    assert s in r;
    var f := FindById(r, s.id);
    assert f.value in table;
    var i :| 0 <= i < |table| && table[i] == f.value;
    var j :| 0 <= j < |table| && table[j] == s;
  }
}
