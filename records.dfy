/** The table the server keeps in its data file: a JSON array of records
    `{CITIES, Traders, GST}`, and the searches the handlers run over it
    (`some`, `findIndex` and `filter` on the array). */
module Records {
  import opened Text

  /** One stored record; `city`, `trader` and `gst` are the JSON keys
      `CITIES`, `Traders` and `GST`. */
  datatype Record = Record(city: string, trader: string, gst: string)

  /** The GST value written when a request leaves it out or empty. */
  const NoGst: string := "NO GST"

  /** A field of a JSON request body. `Absent` stands for a missing key
      and for `null`; `NonStr` for any other non-string JSON value
      (number, boolean, array, object), with its JavaScript truthiness. */
  datatype Value = Absent | Str(s: string) | NonStr(truthy: bool)

  /** JavaScript truthiness of a body field, as tested by `!city` and by
      `gst ? … : …`. */
  predicate Truthy(v: Value)
    ensures !Truthy(v) <==> v == Absent || v == Str("") || v == NonStr(false)
  {
    match v
    case Absent => false
    case Str(s) => s != ""
    case NonStr(t) => t
  }

  /** A truthy field that is not a string: calling `trim` or
      `toUpperCase` on it throws a TypeError. */
  predicate Throws(v: Value)
    ensures Throws(v) <==> v == NonStr(true)
  {
    Truthy(v) && !v.Str?
  }

  /** `d.CITIES === city && d.Traders === trader`: strict equality, so a
      field that is not a string never matches, and no normalisation is
      applied to the request's field. */
  predicate Matches(r: Record, city: Value, trader: Value)
    ensures Matches(r, city, trader) ==> city.Str? && trader.Str?
    ensures city.Str? && trader.Str? ==> (Matches(r, city, trader) <==> city.s == r.city && trader.s == r.trader)
  {
    city == Str(r.city) && trader == Str(r.trader)
  }

  /** `table.some(d => Matches(d, city, trader))`. */
  predicate AnyMatch(t: seq<Record>, city: Value, trader: Value)
    ensures AnyMatch(t, city, trader) ==> city.Str? && trader.Str?
  {
    exists i :: 0 <= i < |t| && Matches(t[i], city, trader)
  }

  /** `table.findIndex(d => Matches(d, city, trader))`: the first matching
      index, or -1 when no record matches. */
  function FindIndex(t: seq<Record>, city: Value, trader: Value): (i: int)
    ensures -1 <= i < |t|
    ensures i == -1 <==> !AnyMatch(t, city, trader)
    ensures 0 <= i ==> Matches(t[i], city, trader)
    ensures 0 <= i ==> forall j :: 0 <= j < i ==> !Matches(t[j], city, trader)
  {
    if |t| == 0 then -1
    else if Matches(t[0], city, trader) then 0
    else
      var k := FindIndex(t[1..], city, trader);
      assert forall j :: 1 <= j < |t| ==> t[j] == t[1..][j - 1];
      if k == -1 then -1 else k + 1
  }

  /** `table.filter(d => !Matches(d, city, trader))`; which records it
      keeps is WithoutMembers, and in which order WithoutAppend. */
  function Without(t: seq<Record>, city: Value, trader: Value): (r: seq<Record>)
    ensures |r| <= |t|
    ensures |r| == |t| <==> !AnyMatch(t, city, trader)
  {
    if t == [] then []
    else
      var rest := Without(t[1..], city, trader);
      assert forall j :: 1 <= j < |t| ==> t[j] == t[1..][j - 1];
      assert AnyMatch(t[1..], city, trader) ==> AnyMatch(t, city, trader);
      if Matches(t[0], city, trader) then rest else [t[0]] + rest
  }

  /** The filter keeps exactly the records that do not match. */
  lemma {:induction false} WithoutMembers(t: seq<Record>, city: Value, trader: Value)
    ensures forall x :: x in Without(t, city, trader) <==> x in t && !Matches(x, city, trader)
  {
    if t != [] {
      WithoutMembers(t[1..], city, trader);
      assert t == [t[0]] + t[1..];
    }
  }

  /** Two records with the same key. */
  predicate SameKey(a: Record, b: Record) {
    a.city == b.city && a.trader == b.trader
  }

  /** No two records of the table share the key (city, trader). */
  predicate UniqueKeys(t: seq<Record>) {
    forall i, j :: 0 <= i < |t| && 0 <= j < |t| && i != j ==> !SameKey(t[i], t[j])
  }

  /** Every field of the record is in the form that the store writes. */
  predicate NormalRecord(r: Record) {
    IsNormal(r.city) && IsNormal(r.trader) && (r.gst == NoGst || IsNormal(r.gst))
  }

  /** Every record of the table is in the form that the store writes. */
  predicate AllNormal(t: seq<Record>) {
    forall i :: 0 <= i < |t| ==> NormalRecord(t[i])
  }

  /** The filter keeps the order of what it keeps: filtering a
      concatenation is concatenating the filtered parts. */
  lemma {:induction false} WithoutAppend(a: seq<Record>, b: seq<Record>, city: Value, trader: Value)
    ensures Without(a + b, city, trader) == Without(a, city, trader) + Without(b, city, trader)
  {
    if a == [] {
      assert a + b == b;
    } else {
      assert (a + b)[0] == a[0];
      assert (a + b)[1..] == a[1..] + b;
      WithoutAppend(a[1..], b, city, trader);
    }
  }

  /** The filter of a single record keeps it exactly when it does not match.
      With WithoutAppend this determines the filter of every table. */
  lemma WithoutSingle(x: Record, city: Value, trader: Value)
    ensures Without([x], city, trader) == if Matches(x, city, trader) then [] else [x]
  {
  }

  /** After filtering, no record matches. */
  lemma WithoutRemovesAll(t: seq<Record>, city: Value, trader: Value)
    ensures !AnyMatch(Without(t, city, trader), city, trader)
  {
    var r := Without(t, city, trader);
    WithoutMembers(t, city, trader);
    forall i | 0 <= i < |r| ensures !Matches(r[i], city, trader) {
      assert r[i] in r;
    }
  }

  /** Filtering keeps every record in normal form. */
  lemma WithoutKeepsNormal(t: seq<Record>, city: Value, trader: Value)
    requires AllNormal(t)
    ensures AllNormal(Without(t, city, trader))
  {
    var r := Without(t, city, trader);
    WithoutMembers(t, city, trader);
    forall i | 0 <= i < |r| ensures NormalRecord(r[i]) {
      assert r[i] in t;
    }
  }

  lemma UniqueTail(t: seq<Record>)
    requires t != [] && UniqueKeys(t)
    ensures UniqueKeys(t[1..])
    ensures forall x :: x in t[1..] ==> !SameKey(t[0], x)
  {
    var tail := t[1..];
    forall i, j | 0 <= i < |tail| && 0 <= j < |tail| && i != j
      ensures !SameKey(tail[i], tail[j])
    {
      assert tail[i] == t[i + 1] && tail[j] == t[j + 1];
    }
    forall x | x in tail ensures !SameKey(t[0], x) {
      var m :| 0 <= m < |tail| && tail[m] == x;
      assert t[m + 1] == x;
    }
  }

  lemma UniqueCons(x: Record, r: seq<Record>)
    requires UniqueKeys(r)
    requires forall y :: y in r ==> !SameKey(x, y)
    ensures UniqueKeys([x] + r)
  {
    var xr := [x] + r;
    forall i, j | 0 <= i < |xr| && 0 <= j < |xr| && i != j
      ensures !SameKey(xr[i], xr[j])
    {
      if i > 0 && j > 0 {
        assert xr[i] == r[i - 1] && xr[j] == r[j - 1];
      } else if i == 0 {
        assert xr[j] == r[j - 1] && xr[j] in r;
      } else {
        assert xr[i] == r[i - 1] && xr[i] in r;
      }
    }
  }

  /** Filtering keeps the keys unique. */
  lemma {:induction false} WithoutKeepsUnique(t: seq<Record>, city: Value, trader: Value)
    requires UniqueKeys(t)
    ensures UniqueKeys(Without(t, city, trader))
  {
    if t != [] {
      UniqueTail(t);
      var rest := Without(t[1..], city, trader);
      WithoutMembers(t[1..], city, trader);
      WithoutKeepsUnique(t[1..], city, trader);
      if !Matches(t[0], city, trader) {
        UniqueCons(t[0], rest);
      }
    }
  }

  /** Overwriting one slot with a record whose key no other slot has keeps
      the keys unique. */
  lemma UniqueAfterWrite(t: seq<Record>, i: int, e: Record)
    requires UniqueKeys(t) && 0 <= i < |t|
    requires forall k :: 0 <= k < |t| && k != i ==> !SameKey(e, t[k])
    ensures UniqueKeys(t[i := e])
  {
    var u := t[i := e];
    forall j, k | 0 <= j < |u| && 0 <= k < |u| && j != k
      ensures !SameKey(u[j], u[k])
    {
      if j != i && k != i {
        assert u[j] == t[j] && u[k] == t[k];
      }
    }
  }
}
