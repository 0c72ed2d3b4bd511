/** What each REST handler of the server does to the table, as pure
    functions from the table read at the start of the request (and the
    request's body fields) to the response status and the table that is
    written back. A handler that answers with an error writes nothing, so
    its table is the one it read. */
module Api {
  import opened Text
  import opened Records

  /** The outcome of a request, with its HTTP status code from Code(). */
  datatype Status =
    | Created(entry: Record)   // POST succeeded; the body carries the new entry
    | Updated                  // PUT succeeded
    | Deleted                  // DELETE succeeded
    | BadRequest               // POST without city or trader
    | Conflict                 // the key is taken
    | NotFound                 // no record has the raw key
    | ServerError              // a TypeError inside the handler
  {
    function Code(): int {
      match this
      case Created(_) => 201
      case Updated => 200
      case Deleted => 200
      case BadRequest => 400
      case Conflict => 409
      case NotFound => 404
      case ServerError => 500
    }
  }

  /** The status sent and the table left in the data file. */
  datatype Reply = Reply(status: Status, table: seq<Record>)

  /** The GST to store: the normalised field when the field is a non-empty
      string, "NO GST" when it is falsy. */
  function GstOf(gst: Value): (g: string)
    requires !Throws(gst)
    ensures g == NoGst || IsNormal(g)
  {
    NormalIdempotent(if gst.Str? then gst.s else "");
    if Truthy(gst) then Normal(gst.s) else NoGst
  }

  /** The record built from request fields by POST and by PUT. */
  function NewEntry(city: string, trader: string, gst: Value): (e: Record)
    requires !Throws(gst)
    ensures NormalRecord(e)
  {
    NormalIdempotent(city);
    NormalIdempotent(trader);
    Record(Normal(city), Normal(trader), GstOf(gst))
  }

  /** POST: add a record. City and trader must be truthy; the new key,
      after normalisation, must not be in the table. */
  function Insert(t: seq<Record>, city: Value, trader: Value, gst: Value): (r: Reply)
    ensures r.status.Created? ==> r.table == t + [r.status.entry]
    ensures !r.status.Created? ==> r.table == t
  {
    if !Truthy(city) || !Truthy(trader) then Reply(BadRequest, t)
    else if !city.Str? || !trader.Str? || Throws(gst) then Reply(ServerError, t)
    else
      var e := NewEntry(city.s, trader.s, gst);
      if AnyMatch(t, Str(e.city), Str(e.trader)) then Reply(Conflict, t)
      else Reply(Created(e), t + [e])
  }

  /** The raw key of a PUT differs from its old key. */
  predicate Renames(oldCity: Value, oldTrader: Value, newCity: Value, newTrader: Value)
    ensures !Renames(oldCity, oldTrader, newCity, newTrader) <==> (newCity, newTrader) == (oldCity, oldTrader)
  {
    newCity != oldCity || newTrader != oldTrader
  }

  /** PUT: overwrite the first record whose raw key is the old key. When the
      raw key changes, the upper-cased (but not trimmed) new key must not
      be in the table, the record itself included. */
  function Update(t: seq<Record>, oldCity: Value, oldTrader: Value,
                  newCity: Value, newTrader: Value, newGst: Value): (r: Reply)
    ensures r.status in {Updated, NotFound, ServerError, Conflict}
    ensures |r.table| == |t|
    ensures r.status != Updated ==> r.table == t
    ensures r.status == Updated ==>
      var i := FindIndex(t, oldCity, oldTrader);
      0 <= i && NormalRecord(r.table[i]) && forall j :: 0 <= j < |t| && j != i ==> r.table[j] == t[j]
  {
    var i := FindIndex(t, oldCity, oldTrader);
    if i == -1 then Reply(NotFound, t)
    else if Renames(oldCity, oldTrader, newCity, newTrader) && (!newCity.Str? || !newTrader.Str?) then
      Reply(ServerError, t)
    else if Renames(oldCity, oldTrader, newCity, newTrader)
            && AnyMatch(t, Str(Upper(newCity.s)), Str(Upper(newTrader.s))) then
      Reply(Conflict, t)
    else if Throws(newGst) then Reply(ServerError, t)
    else Reply(Updated, t[i := NewEntry(newCity.s, newTrader.s, newGst)])
  }

  /** DELETE: remove every record whose raw key is the given one; it is an
      error when that removes nothing. */
  function Delete(t: seq<Record>, city: Value, trader: Value): (r: Reply)
    ensures r.status in {Deleted, NotFound}
    ensures r.status == NotFound ==> r.table == t
    ensures r.status == Deleted ==> |r.table| < |t| && forall x :: x in r.table <==> x in t && !Matches(x, city, trader)
  {
    WithoutMembers(t, city, trader);
    var rest := Without(t, city, trader);
    if |rest| == |t| then Reply(NotFound, t) else Reply(Deleted, rest)
  }
}
