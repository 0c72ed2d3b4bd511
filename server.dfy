/** The REST handlers of the server. Each request reads the table from the
    data file, changes its own copy step by step, and writes the copy back
    only when it succeeds; here the data file is the field `table`. */
module Server {
  import opened Text
  import opened Records
  import Api
  import Properties

  /** What the data file holds when a request reads it. */
  datatype DataFile = Missing | Unreadable | Holds(records: seq<Record>)

  class Store {
    var table: seq<Record>

    /** A missing file, or one that does not parse, reads as the empty table. */
    constructor (file: DataFile)
      ensures table == if file.Holds? then file.records else []
    {
      table := if file.Holds? then file.records else [];
    }

    /** GET: the whole table, as stored. */
    method Get() returns (records: seq<Record>)
      ensures records == table
    {
      records := table;
    }

    /** POST: validate, normalise, reject a stored key, else append. */
    method Post(city: Value, trader: Value, gst: Value) returns (status: Api.Status)
      modifies this
      ensures Api.Reply(status, table) == Api.Insert(old(table), city, trader, gst)
      ensures old(UniqueKeys(table)) ==> UniqueKeys(table)
      ensures old(AllNormal(table)) ==> AllNormal(table)
    {
      if !Truthy(city) || !Truthy(trader) {
        return Api.BadRequest;
      }
      if !city.Str? || !trader.Str? || Throws(gst) {
        return Api.ServerError;
      }
      var entry := Api.NewEntry(city.s, trader.s, gst);
      var current := table;
      var taken := AnyMatch(current, Str(entry.city), Str(entry.trader));
      if taken {
        return Api.Conflict;
      }
      current := current + [entry];
      Properties.InsertAppends(table, city, trader, gst);
      table := current;
      status := Api.Created(entry);
    }

    /** PUT: find the first record with the raw old key; on a change of raw
        key, reject an upper-cased new key that is stored; overwrite the slot. */
    method Put(oldCity: Value, oldTrader: Value, newCity: Value, newTrader: Value, newGst: Value)
      returns (status: Api.Status)
      modifies this
      ensures Api.Reply(status, table) == Api.Update(old(table), oldCity, oldTrader, newCity, newTrader, newGst)
      ensures old(AllNormal(table)) ==> AllNormal(table)
      ensures old(AllNormal(table) && UniqueKeys(table))
              && (newCity.Str? ==> !Padded(newCity.s)) && (newTrader.Str? ==> !Padded(newTrader.s))
              ==> UniqueKeys(table)
    {
      ghost var reply := Api.Update(table, oldCity, oldTrader, newCity, newTrader, newGst);
      if AllNormal(table) {
        Properties.UpdateKeepsNormal(table, oldCity, oldTrader, newCity, newTrader, newGst);
      }
      if AllNormal(table) && UniqueKeys(table)
         && (newCity.Str? ==> !Padded(newCity.s)) && (newTrader.Str? ==> !Padded(newTrader.s)) {
        Properties.UpdateKeepsUnique(table, oldCity, oldTrader, newCity, newTrader, newGst);
      }
      var current := table;
      var index := FindIndex(current, oldCity, oldTrader);
      if index == -1 {
        return Api.NotFound;
      }
      if newCity != oldCity || newTrader != oldTrader {
        if !newCity.Str? || !newTrader.Str? {
          return Api.ServerError;
        }
        var duplicate := AnyMatch(current, Str(Upper(newCity.s)), Str(Upper(newTrader.s)));
        if duplicate {
          return Api.Conflict;
        }
      }
      if Throws(newGst) {
        return Api.ServerError;
      }
      current := current[index := Api.NewEntry(newCity.s, newTrader.s, newGst)];
      assert current == reply.table;
      table := current;
      status := Api.Updated;
    }

    /** DELETE: drop every record with the raw key; nothing dropped is 404. */
    method Delete(city: Value, trader: Value) returns (status: Api.Status)
      modifies this
      ensures Api.Reply(status, table) == Api.Delete(old(table), city, trader)
      ensures old(UniqueKeys(table)) ==> UniqueKeys(table)
      ensures old(AllNormal(table)) ==> AllNormal(table)
    {
      var current := table;
      var initialLength := |current|;
      current := Without(current, city, trader);
      if |current| == initialLength {
        return Api.NotFound;
      }
      Properties.DeleteKeepsInvariants(table, city, trader);
      table := current;
      status := Api.Deleted;
    }
  }
}
