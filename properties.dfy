/** What the handlers promise, stated about the functions of module Api:
    the error cases of each verb, the shape of the table each one writes,
    the key-uniqueness invariant and where it holds, and request
    sequences such as inserting a key twice or deleting it twice. */
module Properties {
  import opened Text
  import opened Records
  import opened Api

  // ---------------------------------------------------------------- POST

  /** POST answers 400 exactly when city or trader is missing or empty,
      and then writes nothing. */
  lemma InsertRejectsMissingFields(t: seq<Record>, city: Value, trader: Value, gst: Value)
    ensures Insert(t, city, trader, gst).status == BadRequest <==> !Truthy(city) || !Truthy(trader)
    ensures Insert(t, city, trader, gst).status == BadRequest ==> Insert(t, city, trader, gst).table == t
  {
  }

  /** POST answers 500 exactly when a truthy field is not a string (its
      `trim` throws), and then writes nothing. */
  lemma InsertServerError(t: seq<Record>, city: Value, trader: Value, gst: Value)
    ensures Insert(t, city, trader, gst).status == ServerError
        <==> Truthy(city) && Truthy(trader) && (Throws(city) || Throws(trader) || Throws(gst))
    ensures Insert(t, city, trader, gst).status == ServerError ==> Insert(t, city, trader, gst).table == t
  {
  }

  /** The entry POST stores: city and trader trimmed and upper-cased, GST
      likewise or "NO GST" when it is missing or empty. */
  lemma InsertNormalises(t: seq<Record>, city: Value, trader: Value, gst: Value)
    requires Insert(t, city, trader, gst).status.Created?
    ensures var e := Insert(t, city, trader, gst).status.entry;
      && city.Str? && trader.Str? && !Throws(gst)
      && e.city == Upper(Trim(city.s)) && e.trader == Upper(Trim(trader.s))
      && e.gst == (if gst.Str? && gst.s != "" then Upper(Trim(gst.s)) else NoGst)
      && NormalRecord(e)
  {
  }

  /** POST of two non-empty strings and a GST that does not throw: 409 on a
      stored normalised key, otherwise 201 with the appended entry. */
  lemma InsertOfStrings(t: seq<Record>, city: string, trader: string, gst: Value)
    requires city != "" && trader != "" && !Throws(gst)
    ensures var e := NewEntry(city, trader, gst);
      Insert(t, Str(city), Str(trader), gst)
      == if AnyMatch(t, Str(Normal(city)), Str(Normal(trader))) then Reply(Conflict, t)
         else Reply(Created(e), t + [e])
  {
  }

  /** POST of well-formed fields answers 409 exactly when the normalised key
      is already stored, and then writes nothing. */
  lemma InsertRejectsDuplicate(t: seq<Record>, city: string, trader: string, gst: Value)
    requires city != "" && trader != "" && !Throws(gst)
    ensures Insert(t, Str(city), Str(trader), gst).status == Conflict
        <==> exists i :: 0 <= i < |t| && t[i].city == Normal(city) && t[i].trader == Normal(trader)
    ensures Insert(t, Str(city), Str(trader), gst).status == Conflict
        ==> Insert(t, Str(city), Str(trader), gst).table == t
  {
    InsertOfStrings(t, city, trader, gst);
    var c, d := Normal(city), Normal(trader);
    assert AnyMatch(t, Str(c), Str(d)) <==> exists i :: 0 <= i < |t| && t[i].city == c && t[i].trader == d by {
      forall i | 0 <= i < |t| ensures Matches(t[i], Str(c), Str(d)) <==> t[i].city == c && t[i].trader == d {
      }
    }
  }

  /** A successful POST answers 201 and appends exactly the new entry: the
      table grows by one, every earlier record keeps its place, and
      uniqueness and normal form carry over. */
  lemma InsertAppends(t: seq<Record>, city: Value, trader: Value, gst: Value)
    requires Insert(t, city, trader, gst).status.Created?
    ensures var r := Insert(t, city, trader, gst);
      && r.status.Code() == 201
      && |r.table| == |t| + 1
      && (forall i :: 0 <= i < |t| ==> r.table[i] == t[i])
      && r.table[|t|] == r.status.entry
      && (UniqueKeys(t) ==> UniqueKeys(r.table))
      && (AllNormal(t) ==> AllNormal(r.table))
  {
    var r := Insert(t, city, trader, gst);
    var e := r.status.entry;
    if UniqueKeys(t) {
      forall i, j | 0 <= i < |r.table| && 0 <= j < |r.table| && i != j
        ensures !SameKey(r.table[i], r.table[j])
      {
        if i == |t| {
          assert !Matches(t[j], Str(e.city), Str(e.trader));
        } else if j == |t| {
          assert !Matches(t[i], Str(e.city), Str(e.trader));
        }
      }
    }
  }

  /** After a successful POST the new key occurs exactly once: at the end. */
  lemma InsertedKeyOccursOnce(t: seq<Record>, city: Value, trader: Value, gst: Value)
    requires Insert(t, city, trader, gst).status.Created?
    ensures var r := Insert(t, city, trader, gst);
      forall i :: 0 <= i < |r.table| && SameKey(r.table[i], r.status.entry) <==> i == |t|
  {
    var r := Insert(t, city, trader, gst);
    var e := r.status.entry;
    forall i | 0 <= i < |t| ensures !SameKey(r.table[i], e) {
      assert !Matches(t[i], Str(e.city), Str(e.trader));
    }
  }

  /** A second POST of a key that normalises like the first one answers
      409 and writes nothing. */
  lemma InsertTwiceConflicts(t: seq<Record>, city1: Value, trader1: Value, gst1: Value,
                             city2: string, trader2: string, gst2: Value)
    requires Insert(t, city1, trader1, gst1).status.Created?
    requires city2 != "" && trader2 != "" && !Throws(gst2)
    requires Normal(city2) == Normal(city1.s) && Normal(trader2) == Normal(trader1.s)
    ensures var t1 := Insert(t, city1, trader1, gst1).table;
      Insert(t1, Str(city2), Str(trader2), gst2) == Reply(Conflict, t1)
  {
    var t1 := Insert(t, city1, trader1, gst1).table;
    InsertAppends(t, city1, trader1, gst1);
    InsertOfStrings(t1, city2, trader2, gst2);
    assert Matches(t1[|t|], Str(Normal(city2)), Str(Normal(trader2)));
  }

  /** A padded case variant of a non-empty input is non-empty and has the
      input's normal form. */
  lemma CaseVariant(p: string, s2: string, q: string, s: string)
    requires s != "" && AllSpace(p) && AllSpace(q) && Upper(s2) == Upper(s)
    ensures p + s2 + q != "" && Normal(p + s2 + q) == Normal(s)
  {
    assert [] + s + [] == s;
    assert |s2| == |Upper(s)|;
    NormalIgnoresPaddingAndCase(p, s2, q, [], s, []);
  }

  /** In particular, after a successful POST (a new key), a second POST
      whose city and trader have non-empty cores with the same upper case as
      the first ones, each POST with any leading or trailing whitespace,
      answers 409. */
  lemma InsertTwiceAnyCaseOrPadding(t: seq<Record>, city: string, trader: string, gst1: Value,
                                    p0: string, q0: string, r0: string, s0: string,
                                    city2: string, trader2: string,
                                    p1: string, q1: string, p2: string, q2: string, gst2: Value)
    requires city != "" && trader != "" && !Throws(gst1) && !Throws(gst2)
    requires !AnyMatch(t, Str(Normal(city)), Str(Normal(trader)))
    requires Upper(city2) == Upper(city) && Upper(trader2) == Upper(trader)
    requires AllSpace(p0) && AllSpace(q0) && AllSpace(r0) && AllSpace(s0)
    requires AllSpace(p1) && AllSpace(q1) && AllSpace(p2) && AllSpace(q2)
    ensures var t1 := Insert(t, Str(p0 + city + q0), Str(r0 + trader + s0), gst1).table;
      Insert(t1, Str(p1 + city2 + q1), Str(p2 + trader2 + q2), gst2) == Reply(Conflict, t1)
  {
    var c1, d1 := p0 + city + q0, r0 + trader + s0;
    CaseVariant(p0, city, q0, city);
    CaseVariant(r0, trader, s0, trader);
    CaseVariant(p1, city2, q1, city);
    CaseVariant(p2, trader2, q2, trader);
    InsertOfStrings(t, c1, d1, gst1);
    InsertTwiceConflicts(t, Str(c1), Str(d1), gst1, p1 + city2 + q1, p2 + trader2 + q2, gst2);
  }

  // ---------------------------------------------------------------- PUT

  /** PUT answers 404 exactly when no record has the raw old key, and then
      writes nothing. */
  lemma UpdateMissingIsNotFound(t: seq<Record>, oldCity: Value, oldTrader: Value,
                                newCity: Value, newTrader: Value, newGst: Value)
    ensures var r := Update(t, oldCity, oldTrader, newCity, newTrader, newGst);
      && (r.status == NotFound <==> !AnyMatch(t, oldCity, oldTrader))
      && (r.status == NotFound ==> r.table == t)
  {
  }

  /** A PUT that keeps the raw key (a GST-only change) never answers 409:
      it updates the record, or answers 404 or, for a non-string GST, 500. */
  lemma GstOnlyUpdateNeverConflicts(t: seq<Record>, city: Value, trader: Value, newGst: Value)
    ensures var r := Update(t, city, trader, city, trader, newGst);
      && r.status != Conflict
      && (r.status == Updated <==> AnyMatch(t, city, trader) && !Throws(newGst))
  {
  }

  /** A successful PUT overwrites only the first record with the raw old
      key, with the normalised new record; the table keeps its length and
      every other position. */
  lemma UpdateReplacesFirstMatch(t: seq<Record>, oldCity: Value, oldTrader: Value,
                                 newCity: Value, newTrader: Value, newGst: Value)
    requires Update(t, oldCity, oldTrader, newCity, newTrader, newGst).status == Updated
    ensures var r := Update(t, oldCity, oldTrader, newCity, newTrader, newGst);
      var i := FindIndex(t, oldCity, oldTrader);
      && 0 <= i < |t|
      && Matches(t[i], oldCity, oldTrader)
      && (forall j :: 0 <= j < i ==> !Matches(t[j], oldCity, oldTrader))
      && |r.table| == |t|
      && newCity.Str? && newTrader.Str? && !Throws(newGst)
      && r.table[i].city == Normal(newCity.s) && r.table[i].trader == Normal(newTrader.s)
      && r.table[i].gst == (if newGst.Str? && newGst.s != "" then Upper(Trim(newGst.s)) else NoGst)
      && (forall j :: 0 <= j < |t| && j != i ==> r.table[j] == t[j])
  {
  }

  /** PUT answers 409 exactly when the old key is stored, the raw key
      changes, both new fields are strings, and the upper-cased (not
      trimmed) new key is stored, the record being edited included; it then
      writes nothing. */
  lemma UpdateConflict(t: seq<Record>, oldCity: Value, oldTrader: Value,
                       newCity: Value, newTrader: Value, newGst: Value)
    ensures var r := Update(t, oldCity, oldTrader, newCity, newTrader, newGst);
      && (r.status == Conflict
          <==> AnyMatch(t, oldCity, oldTrader)
               && (newCity != oldCity || newTrader != oldTrader)
               && newCity.Str? && newTrader.Str?
               && AnyMatch(t, Str(Upper(newCity.s)), Str(Upper(newTrader.s))))
      && (r.status == Conflict ==> r.table == t)
  {
  }

  /** PUT answers 500 exactly when the old key is stored and either the raw
      key changes to one with a non-string field, or, past the duplicate
      check, the GST field is a truthy non-string; it then writes nothing. */
  lemma UpdateServerError(t: seq<Record>, oldCity: Value, oldTrader: Value,
                          newCity: Value, newTrader: Value, newGst: Value)
    ensures var r := Update(t, oldCity, oldTrader, newCity, newTrader, newGst);
      var renames := newCity != oldCity || newTrader != oldTrader;
      && (r.status == ServerError
          <==> AnyMatch(t, oldCity, oldTrader)
               && ((renames && (!newCity.Str? || !newTrader.Str?))
                   || (!(renames && AnyMatch(t, Str(Upper(newCity.s)), Str(Upper(newTrader.s))))
                       && Throws(newGst))))
      && (r.status == ServerError ==> r.table == t)
  {
  }

  /** The duplicate check of PUT also sees the record being edited: a
      rename that only changes letter case answers 409. */
  lemma CaseOnlyRenameConflicts(t: seq<Record>, oldCity: string, oldTrader: string,
                                newCity: string, newTrader: string, newGst: Value)
    requires AnyMatch(t, Str(oldCity), Str(oldTrader))
    requires newCity != oldCity || newTrader != oldTrader
    requires Upper(newCity) == oldCity && Upper(newTrader) == oldTrader
    ensures Update(t, Str(oldCity), Str(oldTrader), Str(newCity), Str(newTrader), newGst)
         == Reply(Conflict, t)
  {
  }

  /** PUT writes only normalised records. */
  lemma UpdateKeepsNormal(t: seq<Record>, oldCity: Value, oldTrader: Value,
                          newCity: Value, newTrader: Value, newGst: Value)
    requires AllNormal(t)
    ensures AllNormal(Update(t, oldCity, oldTrader, newCity, newTrader, newGst).table)
  {
  }

  /** PUT keeps the keys unique when the stored records are normalised and
      the new city and trader carry no surrounding whitespace. */
  lemma UpdateKeepsUnique(t: seq<Record>, oldCity: Value, oldTrader: Value,
                          newCity: Value, newTrader: Value, newGst: Value)
    requires AllNormal(t) && UniqueKeys(t)
    requires newCity.Str? ==> !Padded(newCity.s)
    requires newTrader.Str? ==> !Padded(newTrader.s)
    ensures UniqueKeys(Update(t, oldCity, oldTrader, newCity, newTrader, newGst).table)
  {
    var r := Update(t, oldCity, oldTrader, newCity, newTrader, newGst);
    if r.status == Updated {
      var i := FindIndex(t, oldCity, oldTrader);
      var e := NewEntry(newCity.s, newTrader.s, newGst);
      assert r.table == t[i := e];
      if Renames(oldCity, oldTrader, newCity, newTrader) {
        NormalOfUnpadded(newCity.s);
        NormalOfUnpadded(newTrader.s);
        forall k | 0 <= k < |t| ensures !SameKey(e, t[k]) {
          assert !Matches(t[k], Str(Upper(newCity.s)), Str(Upper(newTrader.s)));
        }
      } else {
        assert NormalRecord(t[i]);
        assert SameKey(e, t[i]);
        forall k | 0 <= k < |t| && k != i ensures !SameKey(e, t[k]) {
          assert !SameKey(t[i], t[k]);
        }
      }
      UniqueAfterWrite(t, i, e);
    }
  }

  /** Without that side condition the invariant breaks: with PUNE/ACME
      and MUMBAI/ACME stored, renaming MUMBAI to "PUNE " (any stored city
      followed by whitespace) passes the duplicate check, which does not
      trim, and stores a second PUNE/ACME record. */
  lemma PaddedRenameBreaksUniqueness(city: string, other: string, trader: string, pad: string)
    requires IsNormal(city) && IsNormal(other) && IsNormal(trader) && city != other
    requires pad != [] && AllSpace(pad)
    ensures var t := [Record(city, trader, NoGst), Record(other, trader, NoGst)];
      var r := Update(t, Str(other), Str(trader), Str(city + pad), Str(trader), Absent);
      UniqueKeys(t) && r.status == Updated && !UniqueKeys(r.table)
  {
    var t := [Record(city, trader, NoGst), Record(other, trader, NoGst)];
    var padded := city + pad;
    PaddedStoredKey(city, pad);
    NormalIsOwnUpper(trader);
    assert padded != other;
    assert FindIndex(t, Str(other), Str(trader)) == 1 by {
      assert !Matches(t[0], Str(other), Str(trader));
    }
    assert !AnyMatch(t, Str(padded), Str(trader)) by {
      assert !Matches(t[0], Str(padded), Str(trader));
      assert !Matches(t[1], Str(padded), Str(trader));
    }
    var r := Update(t, Str(other), Str(trader), Str(padded), Str(trader), Absent);
    assert r.table == [t[0], t[0]];
    assert SameKey(r.table[0], r.table[1]);
  }

  /** A stored value followed by whitespace: padded, its own upper case,
      and normalised back to the stored value. */
  lemma PaddedStoredKey(s: string, pad: string)
    requires IsNormal(s) && pad != [] && AllSpace(pad)
    ensures var padded := s + pad;
      Padded(padded) && !Padded(s) && |padded| > |s|
      && Upper(padded) == padded && Normal(padded) == s
  {
    var padded := s + pad;
    assert padded[|padded| - 1] == pad[|pad| - 1];
    NormalShape(s);
    UpperFixesCapitals(padded);
    assert [] + s + pad == padded;
    TrimIgnoresPadding([], s, pad);
    NormalIsOwnUpper(s);
  }

  /** One instance: renaming MUMBAI/ACME to "PUNE "/ACME beside PUNE/ACME. */
  lemma PaddedPuneRename()
    ensures var t := [Record("PUNE", "ACME", NoGst), Record("MUMBAI", "ACME", NoGst)];
      var r := Update(t, Str("MUMBAI"), Str("ACME"), Str("PUNE "), Str("ACME"), Absent);
      r.status == Updated && !UniqueKeys(r.table)
  {
    NormalCapitals();
    assert AllSpace(" ");
    assert "PUNE" + " " == "PUNE ";
    PaddedRenameBreaksUniqueness("PUNE", "MUMBAI", "ACME", " ");
  }

  /** The other side condition is needed too: a PUT that keeps the raw key
      skips the duplicate check and writes the key normalised, so a record
      stored in another form (for example in a hand-edited file) comes to
      duplicate the stored form of its own key. */
  lemma KeptKeyPutRenormalises(city: string, trader: string, gst: string)
    requires IsNormal(trader) && !IsNormal(city)
    ensures var t := [Record(Normal(city), trader, gst), Record(city, trader, gst)];
      var r := Update(t, Str(city), Str(trader), Str(city), Str(trader), Absent);
      UniqueKeys(t) && r.status == Updated && !UniqueKeys(r.table)
  {
    var t := [Record(Normal(city), trader, gst), Record(city, trader, gst)];
    assert FindIndex(t, Str(city), Str(trader)) == 1 by {
      assert !Matches(t[0], Str(city), Str(trader));
    }
    var r := Update(t, Str(city), Str(trader), Str(city), Str(trader), Absent);
    assert r.table[1] == Record(Normal(city), trader, NoGst);
    assert SameKey(r.table[0], r.table[1]);
  }

  /** One instance: beside PUNE/ACME, a hand-written Pune/ACME record. */
  lemma KeptPuneRenormalises()
    ensures var t := [Record("PUNE", "ACME", NoGst), Record("Pune", "ACME", NoGst)];
      var r := Update(t, Str("Pune"), Str("ACME"), Str("Pune"), Str("ACME"), Absent);
      r.status == Updated && !UniqueKeys(r.table)
  {
    NormalPune();
    NormalCapitals();
    KeptKeyPutRenormalises("Pune", "ACME", NoGst);
  }

  // ---------------------------------------------------------------- DELETE

  /** DELETE answers 404 exactly when no record has the raw key, and then
      writes nothing; otherwise it writes the table without every such
      record, the others in their order (see WithoutAppend). */
  lemma DeleteRemovesAllMatches(t: seq<Record>, city: Value, trader: Value)
    ensures var r := Delete(t, city, trader);
      && (r.status == NotFound <==> !AnyMatch(t, city, trader))
      && (r.status == NotFound ==> r.table == t)
      && (r.status == Deleted ==> r.table == Without(t, city, trader) && |r.table| < |t|)
      && !AnyMatch(r.table, city, trader)
  {
    WithoutRemovesAll(t, city, trader);
  }

  /** Deleting the same raw key twice: the second DELETE answers 404. */
  lemma DeleteTwiceNotFound(t: seq<Record>, city: Value, trader: Value)
    ensures var t1 := Delete(t, city, trader).table;
      Delete(t1, city, trader) == Reply(NotFound, t1)
  {
    WithoutRemovesAll(t, city, trader);
  }

  /** DELETE keeps the keys unique and the records normalised. */
  lemma DeleteKeepsInvariants(t: seq<Record>, city: Value, trader: Value)
    ensures UniqueKeys(t) ==> UniqueKeys(Delete(t, city, trader).table)
    ensures AllNormal(t) ==> AllNormal(Delete(t, city, trader).table)
  {
    if UniqueKeys(t) { WithoutKeepsUnique(t, city, trader); }
    if AllNormal(t) { WithoutKeepsNormal(t, city, trader); }
  }

  // ---------------------------------------------------------------- a session

  /** An unpadded string of capitals is stored unchanged. */
  lemma CapitalsAreNormal(s: string)
    requires |s| > 0 && forall i :: 0 <= i < |s| ==> 'A' <= s[i] <= 'Z'
    ensures Normal(s) == s
  {
    UpperFixesCapitals(s);
  }

  lemma NormalPune()
    ensures Normal("Pune") == "PUNE"
  {
    assert |Upper("Pune")| == 4;
  }

  lemma NormalAcme()
    ensures Normal("Acme") == "ACME"
  {
    assert |Upper("Acme")| == 4;
  }

  lemma NormalCapitals()
    ensures Normal("PUNE") == "PUNE" && Normal("ACME") == "ACME" && Normal("MUMBAI") == "MUMBAI"
  {
    CapitalsAreNormal("PUNE");
    CapitalsAreNormal("ACME");
    CapitalsAreNormal("MUMBAI");
  }

  /** A stored value is its own upper case. */
  lemma NormalIsOwnUpper(s: string)
    requires IsNormal(s)
    ensures Upper(s) == s
  {
    NormalShape(s);
    UpperFixesCapitals(s);
  }

  lemma PostOnEmpty(city: string, trader: string, gst: Value)
    requires city != "" && trader != "" && !Throws(gst)
    ensures var e := NewEntry(city, trader, gst);
      Insert([], Str(city), Str(trader), gst) == Reply(Created(e), [e])
      && e.city == Normal(city) && e.trader == Normal(trader)
  {
  }

  /** The first request of Session: the entry is stored as PUNE/ACME. */
  lemma SessionFirstPost()
    ensures var r1 := Insert([], Str("Pune"), Str("Acme"), Str("27AAAA"));
      r1.status.Created? && r1.table == [r1.status.entry]
      && r1.status.entry.city == "PUNE" && r1.status.entry.trader == "ACME"
  {
    NormalPune();
    NormalAcme();
    PostOnEmpty("Pune", "Acme", Str("27AAAA"));
  }

  /** The second POST of Session: the stored key, as stored, is taken. */
  lemma SessionRepeatPost(e: Record)
    requires NormalRecord(e) && e.city != "" && e.trader != ""
    ensures Insert([e], Str(e.city), Str(e.trader), Absent) == Reply(Conflict, [e])
  {
    InsertOfStrings([e], e.city, e.trader, Absent);
    assert Matches([e][0], Str(Normal(e.city)), Str(Normal(e.trader)));
  }

  /** The PUT of Session: on a table holding only `e`, renaming its city to
      another stored-form city answers 200 and stores it with "NO GST". */
  lemma SessionRename(e: Record, city: string)
    requires NormalRecord(e) && IsNormal(city) && city != e.city
    ensures Update([e], Str(e.city), Str(e.trader), Str(city), Str(e.trader), Absent)
         == Reply(Updated, [Record(city, e.trader, NoGst)])
  {
    NormalIsOwnUpper(city);
    NormalIsOwnUpper(e.trader);
    assert FindIndex([e], Str(e.city), Str(e.trader)) == 0;
    assert !AnyMatch([e], Str(city), Str(e.trader)) by {
      assert !Matches([e][0], Str(city), Str(e.trader));
    }
    assert NewEntry(city, e.trader, Absent) == Record(city, e.trader, NoGst);
  }

  /** The DELETE of Session: the old key is no longer stored. */
  lemma SessionDelete(m: Record, city: string, trader: string)
    requires m.city != city
    ensures Delete([m], Str(city), Str(trader)) == Reply(NotFound, [m])
  {
    WithoutSingle(m, Str(city), Str(trader));
  }

  /** Starting from an empty file: a POST answers 201, a POST of the key as
      stored then answers 409, a PUT renaming the city answers 200, and a
      DELETE of the old key then answers 404. */
  lemma Session(city: string, trader: string, gst: Value, newCity: string)
    requires city != "" && trader != "" && !Throws(gst)
    requires Normal(city) != "" && Normal(trader) != ""
    requires IsNormal(newCity) && newCity != Normal(city)
    ensures var r1 := Insert([], Str(city), Str(trader), gst);
      var c, d := Normal(city), Normal(trader);
      var r2 := Insert(r1.table, Str(c), Str(d), Absent);
      var r3 := Update(r2.table, Str(c), Str(d), Str(newCity), Str(d), Absent);
      var r4 := Delete(r3.table, Str(c), Str(d));
      && r1.status.Code() == 201 && r2.status.Code() == 409
      && r3.status.Code() == 200 && r4.status.Code() == 404
      && r4.table == [Record(newCity, d, NoGst)]
  {
    PostOnEmpty(city, trader, gst);
    var e := NewEntry(city, trader, gst);
    SessionRepeatPost(e);
    SessionRename(e, newCity);
    SessionDelete(Record(newCity, e.trader, NoGst), e.city, e.trader);
  }
}
