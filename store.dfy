/** The patient store: the JSON object kept in data.json, from patient id to
    patient record. Every endpoint loads the whole object, works on it and, when
    it changes something, writes the whole object back; here the loaded object
    is the state of a `Store` and the write-back is the assignment to its fields.
 */
module PatientStore {
  import opened Results
  import opened Patients
  import opened Sorting

  predicate Distinct(s: seq<string>) {
    forall i, j :: 0 <= i < j < |s| ==> s[i] != s[j]
  }

  /** s without x, in the order of s: when x occurs once, the elements before
      it and the elements after it, joined. */
  function Without(s: seq<string>, x: string): (r: seq<string>)
    ensures WithoutSpec(s, x, r)
  {
    if s == [] then []
    else if s[0] == x then
      var w := Without(s[1..], x);
      WithoutHead(s, x, w);
      w
    else
      var w := Without(s[1..], x);
      WithoutCons(s, x, w);
      [s[0]] + w
  }

  /** What removing x from s promises: exactly the other elements, the same
      list when x is absent, and the list split around x when the elements are
      distinct. */
  ghost predicate WithoutSpec(s: seq<string>, x: string, r: seq<string>) {
    && (forall y :: y in r <==> y in s && y != x)
    && (Distinct(s) ==> Distinct(r))
    && (x !in s ==> r == s)
    && (Distinct(s) && x in s ==> exists k :: 0 <= k < |s| && s[k] == x && r == s[..k] + s[k+1..])
  }

  /** The step of Without that drops a head equal to x. */
  lemma WithoutHead(s: seq<string>, x: string, w: seq<string>)
    requires s != [] && s[0] == x
    requires WithoutSpec(s[1..], x, w)
    ensures WithoutSpec(s, x, w)
  {
    if Distinct(s) {
      assert forall j :: 1 <= j < |s| ==> s[j] != s[0];
      assert x !in s[1..];
      assert w == s[..0] + s[0+1..];
    }
  }

  /** The step of Without past a head that is not x. */
  lemma WithoutCons(s: seq<string>, x: string, w: seq<string>)
    requires s != [] && s[0] != x
    requires WithoutSpec(s[1..], x, w)
    ensures WithoutSpec(s, x, [s[0]] + w)
  {
    var r := [s[0]] + w;
    assert s == [s[0]] + s[1..];
    assert forall y :: y in r <==> y in s && y != x;
    assert x !in s ==> r == s;
    if Distinct(s) {
      ConsDistinct(s, w);
      if x in s {
        ConsSplit(s, x, w);
      }
    }
  }

  /** A head not in the tail, before a distinct list drawn from the tail, keeps it distinct. */
  lemma ConsDistinct(s: seq<string>, w: seq<string>)
    requires s != [] && Distinct(s)
    requires Distinct(s[1..]) ==> Distinct(w)
    requires forall y :: y in w ==> y in s[1..]
    ensures Distinct([s[0]] + w)
  {
    assert Distinct(s[1..]);
    assert s[0] !in s[1..];
  }

  /** A split of the tail around x, with the head put back, is a split of the whole list. */
  lemma ConsSplit(s: seq<string>, x: string, w: seq<string>)
    requires s != [] && s[0] != x && x in s
    requires x in s[1..] ==> exists k :: 0 <= k < |s| - 1 && s[1..][k] == x && w == s[1..][..k] + s[1..][k+1..]
    ensures exists k :: 0 <= k < |s| && s[k] == x && [s[0]] + w == s[..k] + s[k+1..]
  {
    assert x in s[1..];
    var k :| 0 <= k < |s| - 1 && s[1..][k] == x && w == s[1..][..k] + s[1..][k+1..];
    assert s[..k+1] == [s[0]] + s[1..][..k];
    assert s[k+2..] == s[1..][k+1..];
    assert [s[0]] + w == s[..k+1] + s[k+1+1..];
  }

  /** The names of the fields the sort endpoint accepts. */
  const SortFields: seq<string> := [Name(Age), Name(PatientId)]

  class Store {
    /** The patient ids in the order of the JSON object (insertion order). */
    var ids: seq<string>
    /** The JSON object itself. */
    var data: map<string, Record>

    ghost predicate Valid()
      reads this
    {
      && Distinct(ids)
      && (forall id :: id in data <==> id in ids)
    }

    /** Every record was written by create and update, so none has a patient_id field. */
    ghost predicate IdsDetached()
      reads this
    {
      forall id :: id in data ==> PatientId !in data[id]
    }

    constructor ()
      ensures Valid() && IdsDetached()
      ensures ids == [] && data == map[]
    {
      ids := [];
      data := map[];
    }

    /** The records in the order of the JSON object (`data.values()`). */
    function Values(): (r: seq<Record>)
      reads this
      requires Valid()
      ensures |r| == |ids|
      ensures forall i :: 0 <= i < |ids| ==> ids[i] in data && r[i] == data[ids[i]]
    {
      var ks, m := ids, data;
      seq(|ks|, i requires 0 <= i < |ks| && ks[i] in m => m[ks[i]])
    }

    /** The whole store: every id with its record, in the store's order. */
    function View(): (r: seq<(string, Record)>)
      reads this
      requires Valid()
      ensures |r| == |data| == |ids|
      ensures forall id :: id in data <==> exists i :: 0 <= i < |r| && r[i].0 == id
      ensures forall i :: 0 <= i < |r| ==> r[i].0 in data && r[i].1 == data[r[i].0]
      ensures forall i, j :: 0 <= i < j < |r| ==> r[i].0 != r[j].0
      ensures forall i :: 0 <= i < |r| ==> r[i].0 == ids[i]
    {
      var ks, m := ids, data;
      var r := seq(|ks|, i requires 0 <= i < |ks| && ks[i] in m => (ks[i], m[ks[i]]));
      EntriesCover(ks, m, r);
      r
    }

    /** One patient's record, or NotFound. */
    function ViewPatient(id: string): (r: Result<Record>)
      reads this
      ensures r.Success? <==> id in data
      ensures r.Success? ==> r.value == data[id]
      ensures r.Failure? ==> r.error == NotFound
    {
      if id in data then Success(data[id]) else Failure(NotFound)
    }

    /** The records sorted by an allowed field: age descending, patient_id ascending. */
    function SortedData(sortBy: string): (r: Result<seq<Record>>)
      reads this
      requires Valid()
      ensures sortBy !in SortFields <==> r == Failure(InvalidSortField)
      ensures sortBy in SortFields && r.Failure? ==> r.error == Unorderable
      ensures sortBy == Name(Age) ==> (r.Failure? <==> !OneKind(Values(), Age))
      ensures sortBy == Name(PatientId) ==> (r.Failure? <==> !OneKind(Values(), PatientId))
      ensures r.Success? ==> multiset(r.value) == multiset(Values())
      ensures r.Success? && sortBy == Name(Age) ==>
        && (forall i, j :: 0 <= i < j < |r.value| ==> KeyLe(KeyOf(r.value[j], Age), KeyOf(r.value[i], Age)))
        && (forall k :: Filter(r.value, KeyFn(Age), k) == Filter(Values(), KeyFn(Age), k))
      ensures r.Success? && sortBy == Name(PatientId) ==>
        && (forall i, j :: 0 <= i < j < |r.value| ==> KeyLe(KeyOf(r.value[i], PatientId), KeyOf(r.value[j], PatientId)))
        && (forall k :: Filter(r.value, KeyFn(PatientId), k) == Filter(Values(), KeyFn(PatientId), k))
    {
      if sortBy == Name(Age) then SortBy(Values(), Age, true)
      else if sortBy == Name(PatientId) then SortBy(Values(), PatientId, false)
      else Failure(InvalidSortField)
    }

    /** Adds a new patient; an invalid body or a taken id leaves the store as it was. */
    method Create(p: Patient) returns (r: Result<string>)
      requires Valid()
      modifies this
      ensures Valid()
      ensures old(IdsDetached()) ==> IdsDetached()
      ensures !ValidPatient(p, CreateMinAge) ==> r == Failure(Invalid)
      ensures ValidPatient(p, CreateMinAge) && p.patientId in old(data) ==> r == Failure(AlreadyExists)
      ensures r.Failure? ==> ids == old(ids) && data == old(data)
      ensures ValidPatient(p, CreateMinAge) && p.patientId !in old(data) ==>
        && r == Success(p.patientId)
        && data == old(data)[p.patientId := ToRecord(p)]
        && ids == old(ids) + [p.patientId]
        && |data| == |old(data)| + 1
    {
      if !ValidPatient(p, CreateMinAge) {
        return Failure(Invalid);
      }
      if p.patientId in data {
        return Failure(AlreadyExists);
      }
      ghost var ids0 := ids;
      data := data[p.patientId := ToRecord(p)];
      ids := ids + [p.patientId];
      assert forall i :: 0 <= i < |ids0| ==> ids[i] == ids0[i] && ids0[i] != p.patientId;
      r := Success(p.patientId);
    }

    /** Writes the fields an update sets over one patient's record. */
    method Update(id: string, u: PatientUpdate) returns (r: Result<string>)
      requires Valid()
      modifies this
      ensures Valid()
      ensures old(IdsDetached()) ==> IdsDetached()
      ensures !ValidUpdate(u) ==> r == Failure(Invalid)
      ensures ValidUpdate(u) && id !in old(data) ==> r == Failure(NotFound)
      ensures r.Failure? ==> ids == old(ids) && data == old(data)
      ensures ValidUpdate(u) && id in old(data) ==>
        && r == Success(id)
        && data == old(data)[id := Merge(old(data)[id], u)]
        && ids == old(ids)
    {
      if !ValidUpdate(u) {
        return Failure(Invalid);
      }
      if id !in data {
        return Failure(NotFound);
      }
      if PatientId !in data[id] {
        MergeKeepsIdDetached(data[id], u);
      }
      data := data[id := Merge(data[id], u)];
      r := Success(id);
    }

    /** Removes one patient; an unknown id leaves the store as it was. */
    method Delete(id: string) returns (r: Result<()>)
      requires Valid()
      modifies this
      ensures Valid()
      ensures old(IdsDetached()) ==> IdsDetached()
      ensures id !in old(data) <==> r == Failure(NotFound)
      ensures r.Failure? ==> ids == old(ids) && data == old(data)
      ensures id in old(data) ==>
        && r == Success(())
        && data == old(data) - {id}
        && ids == Without(old(ids), id)
        && id !in data
        && |data| == |old(data)| - 1
    {
      if id !in data {
        return Failure(NotFound);
      }
      data := data - {id};
      ids := Without(ids, id);
      r := Success(());
    }
  }

  /** A sequence of distinct ids that are exactly the keys of a map is as long as the map. */
  lemma {:induction false} DistinctCard(ids: seq<string>, m: map<string, Record>)
    requires Distinct(ids)
    requires forall id :: id in m <==> id in ids
    ensures |ids| == |m|
  {
    if ids != [] {
      var rest := ids[1..];
      var m' := m - {ids[0]};
      assert forall id :: id in m' <==> id in rest;
      DistinctCard(rest, m');
    }
  }

  /** Pairing each id of ids with its record covers the map once. */
  lemma EntriesCover(ids: seq<string>, m: map<string, Record>, r: seq<(string, Record)>)
    requires Distinct(ids)
    requires forall id :: id in m <==> id in ids
    requires |r| == |ids| && forall i :: 0 <= i < |ids| ==> ids[i] in m && r[i] == (ids[i], m[ids[i]])
    ensures |r| == |m|
    ensures forall id :: id in m <==> exists i :: 0 <= i < |r| && r[i].0 == id
    ensures forall i :: 0 <= i < |r| ==> r[i].0 in m && r[i].1 == m[r[i].0]
    ensures forall i, j :: 0 <= i < j < |r| ==> r[i].0 != r[j].0
  {
    DistinctCard(ids, m);
    forall id | id in m ensures exists i :: 0 <= i < |r| && r[i].0 == id {
      var i :| 0 <= i < |ids| && ids[i] == id;
      assert r[i].0 == id;
    }
  }

  /** Every entry of the whole-store view is what the one-patient view returns. */
  lemma ViewAgreesWithViewPatient(st: Store)
    requires st.Valid()
    ensures forall i :: 0 <= i < |st.View()| ==> st.ViewPatient(st.View()[i].0) == Success(st.View()[i].1)
    ensures forall id :: st.ViewPatient(id).Success? ==> exists i :: 0 <= i < |st.View()| && st.View()[i] == (id, st.data[id])
  {
    var v := st.View();
    forall id | st.ViewPatient(id).Success?
      ensures exists i :: 0 <= i < |v| && v[i] == (id, st.data[id])
    {
      var i :| 0 <= i < |v| && v[i].0 == id;
      assert v[i] == (id, st.data[id]);
    }
  }

  /** Records written by create carry no patient_id, so every key of the
      patient_id sort is the default 0, and the sort returns the store's order. */
  lemma SortByPatientIdKeepsStoreOrder(st: Store)
    requires st.Valid() && st.IdsDetached()
    ensures st.SortedData(Name(PatientId)) == Success(st.Values())
  {
    var vs := st.Values();
    forall i | 0 <= i < |vs| ensures PatientId !in vs[i] {
      assert PatientId !in st.data[st.ids[i]];
    }
    SortByDefaultKeys(vs, PatientId, false);
    assert |Name(PatientId)| != |Name(Age)|;
    assert st.SortedData(Name(PatientId)) == SortBy(vs, PatientId, false);
  }

  /** A created patient reads back as the patient that was sent. */
  method CreateThenGet(st: Store, p: Patient) returns (got: Result<Record>)
    requires st.Valid() && ValidPatient(p, CreateMinAge) && p.patientId !in st.data
    modifies st
    ensures st.Valid()
    ensures got.Success? && PatientOf(p.patientId, got.value) == Some(p)
  {
    var created := st.Create(p);
    got := st.ViewPatient(p.patientId);
    RecordRoundTrip(p);
  }

  /** After a delete the id is gone: reading it and deleting it again both fail. */
  method DeleteTwice(st: Store, id: string) returns (first: Result<()>, get: Result<Record>, second: Result<()>)
    requires st.Valid() && id in st.data
    modifies st
    ensures st.Valid() && |st.data| == old(|st.data|) - 1
    ensures first == Success(())
    ensures get == Failure(NotFound)
    ensures second == Failure(NotFound)
  {
    first := st.Delete(id);
    get := st.ViewPatient(id);
    second := st.Delete(id);
  }

  /** The record a create writes, after an update that sets only the age. */
  lemma AgeUpdateOfCreated(p: Patient, age: int)
    ensures var rec := Merge(ToRecord(p), NoChange.(age := Put(age)));
      && Age in rec && rec[Age] == Int(age)
      && FirstName in rec && rec[FirstName] == Str(p.firstName)
  {
    var u := NoChange.(age := Put(age));
    assert PatchOf(u, Age) == Put(Int(age));
    assert PatchOf(u, FirstName) == Keep;
    var c := Changes(u);
    assert Age in c && c[Age] == Int(age);
    assert FirstName !in c;
    assert ToRecord(p)[FirstName] == Str(p.firstName);
  }

  /** A store that starts empty: create, create again, update, delete, and delete again. */
  method Scenario() returns (again: Result<string>, edited: Result<Record>, gone: Result<Record>, twice: Result<()>)
    ensures again == Failure(AlreadyExists)
    ensures edited.Success? && Age in edited.value && edited.value[Age] == Int(31)
    ensures edited.Success? && FirstName in edited.value && edited.value[FirstName] == Str("Ann")
    ensures gone == Failure(NotFound)
    ensures twice == Failure(NotFound)
  {
    var st := new Store();
    var p := Patient("1", "Ann", "Lee", 30, "female", "O+", "555-0100", "ann@example.com", "Lahore", [], [], []);
    assert ValidPatient(p, CreateMinAge) by {
      assert p.gender in Genders && p.bloodGroup in BloodGroups;
    }
    var created := st.Create(p);
    again := st.Create(p);
    var u := NoChange.(age := Put(31));
    assert ValidUpdate(u);
    AgeUpdateOfCreated(p, 31);
    var updated := st.Update("1", u);
    edited := st.ViewPatient("1");
    var deleted := st.Delete("1");
    gone := st.ViewPatient("1");
    twice := st.Delete("1");
  }

  /** Setting one patient's age to null, in a store of two patients or more,
      makes the age sort fail. */
  method NullAgeUpdateBreaksAgeSort(st: Store, id: string) returns (updated: Result<string>, sorted: Result<seq<Record>>)
    requires st.Valid() && id in st.data && |st.data| >= 2
    modifies st
    ensures st.Valid()
    ensures updated == Success(id)
    ensures sorted == Failure(Unorderable)
  {
    var u := NoChange.(age := Clear);
    assert PatchOf(u, Age) == Clear;
    updated := st.Update(id, u);
    assert Age in st.data[id] && st.data[id][Age] == Null;
    DistinctCard(st.ids, st.data);
    var i :| 0 <= i < |st.ids| && st.ids[i] == id;
    NullAgeBreaksAgeSort(st.Values(), i);
    sorted := st.SortedData(Name(Age));
  }
}
