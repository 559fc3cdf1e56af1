/** RouteTypes: the three directions a route can run in, with their numeric codes. */
module RouteTypes {
  import opened Results

  datatype RouteType = Outbound | Inbound | Circular

  /** The `id` each enum constant is declared with. */
  function Id(t: RouteType): int
  {
    match t
    case Outbound => 1
    case Inbound => 2
    case Circular => 3
  }

  /** `values()`, in declaration order. */
  const Values: seq<RouteType> := [Outbound, Inbound, Circular]

  /** `firstOrNull { it.id == id }` over `vs`. */
  function FirstWithId(vs: seq<RouteType>, id: int): (r: Option<RouteType>)
    ensures r.Some? ==> r.value in vs && Id(r.value) == id
    ensures r.None? ==> forall t :: t in vs ==> Id(t) != id
  {
    if |vs| == 0 then None
    else if Id(vs[0]) == id then Some(vs[0])
    else FirstWithId(vs[1..], id)
  }

  /** getById: the type with this code, or null for any code outside 1..3. */
  function GetById(id: int): (r: Option<RouteType>)
    ensures r.Some? <==> 1 <= id <= 3
    ensures r.Some? ==> Id(r.value) == id
  {
    var r := FirstWithId(Values, id);
    assert Outbound in Values && Inbound in Values && Circular in Values;
    r
  }

  /** The code table: 1 is outbound, 2 inbound, 3 circular. */
  lemma GetByIdTable()
    ensures GetById(1) == Some(Outbound)
    ensures GetById(2) == Some(Inbound)
    ensures GetById(3) == Some(Circular)
  {
  }

  /** Looking a type up by its own code finds it; so the codes are pairwise distinct. */
  lemma GetByIdRoundTrip(t: RouteType)
    ensures GetById(Id(t)) == Some(t)
    ensures forall u :: Id(u) == Id(t) ==> u == t
  {
  }
}
