/**
 * The column-mapping page (resources/js/Pages/Csv/Map.jsx): the user maps each CSV
 * header to one of six fields; saving is allowed only when the date, amount and
 * description fields are each mapped by some header.
 *
 * The `mappings` object is modelled as its entries in insertion order, one per
 * header.
 */
module MapPage {
  import opened Wrappers

  /** header -> selected field ("" for "Don't map this column"). */
  type Mappings = seq<(string, string)>

  const RequiredFields: seq<string> := ["date", "amount", "description"]

  const MappingOptions: seq<(string, string)> := [
    ("date", "Transaction Date"),
    ("type", "Transaction Type"),
    ("amount", "Amount"),
    ("description", "Description"),
    ("recipient", "Recipient/Sender"),
    ("currency", "Currency")
  ]

  const MissingFieldsPrefix := "Please map the following required fields: "

  datatype MapPageState = MapPageState(mappings: Mappings, validationError: string)

  datatype Validation = Accepted | Rejected(message: string)

  // ---------------------------------------------------------------------------
  // The mappings object
  // ---------------------------------------------------------------------------

  predicate DistinctHeaders(m: Mappings)
  {
    forall i, j :: 0 <= i < j < |m| ==> m[i].0 != m[j].0
  }

  /** `mappings[header]`. */
  function Get(m: Mappings, header: string): (r: Option<string>)
    ensures r.Some? <==> exists i :: 0 <= i < |m| && m[i].0 == header
    ensures r.Some? ==> exists i :: 0 <= i < |m| && m[i] == (header, r.value)
    decreases |m|
  {
    if m == [] then None
    else if m[|m| - 1].0 == header then Some(m[|m| - 1].1)
    else
      var r := Get(m[..|m| - 1], header);
      assert forall i :: 0 <= i < |m| - 1 ==> m[..|m| - 1][i] == m[i];
      r
  }

  /** `Object.values(mappings)`. */
  function Values(m: Mappings): (r: seq<string>)
    ensures |r| == |m| && forall i :: 0 <= i < |m| ==> r[i] == m[i].1
  {
    seq(|m|, i requires 0 <= i < |m| => m[i].1)
  }

  /** The position of `header`, if present. */
  function Position(m: Mappings, header: string): (r: Option<nat>)
    ensures r.Some? ==> r.value < |m| && m[r.value].0 == header
    ensures r.None? ==> forall i :: 0 <= i < |m| ==> m[i].0 != header
    decreases |m|
  {
    if m == [] then None
    else if m[|m| - 1].0 == header then Some(|m| - 1)
    else Position(m[..|m| - 1], header)
  }

  /** `{ ...prev, [header]: value }`: a present header keeps its place, a new one goes last. */
  function Put(m: Mappings, header: string, value: string): Mappings
  {
    match Position(m, header)
    case Some(j) => m[j := (header, value)]
    case None => m + [(header, value)]
  }

  /** With distinct headers, a header's value is the one stored at its position. */
  lemma {:induction false} GetAt(m: Mappings, i: nat)
    requires DistinctHeaders(m) && i < |m|
    ensures Get(m, m[i].0) == Some(m[i].1)
    decreases |m|
  {
    if i < |m| - 1 {
      var init := m[..|m| - 1];
      assert init[i] == m[i];
      GetAt(init, i);
    }
  }

  lemma GetNone(m: Mappings, header: string)
    requires forall i :: 0 <= i < |m| ==> m[i].0 != header
    ensures Get(m, header) == None
  {
  }

  lemma {:induction false} PutEffect(m: Mappings, header: string, value: string)
    requires DistinctHeaders(m)
    ensures DistinctHeaders(Put(m, header, value))
    ensures Get(Put(m, header, value), header) == Some(value)
    ensures forall h :: h != header ==> Get(Put(m, header, value), h) == Get(m, h)
  {
    match Position(m, header)
    case Some(j) => PutAtEffect(m, j, header, value);
    case None => PutNewEffect(m, header, value);
  }

  /** Overwriting the value of a header already present. */
  lemma {:induction false} PutAtEffect(m: Mappings, j: nat, header: string, value: string)
    requires DistinctHeaders(m) && j < |m| && m[j].0 == header
    ensures DistinctHeaders(m[j := (header, value)])
    ensures Get(m[j := (header, value)], header) == Some(value)
    ensures forall h :: h != header ==> Get(m[j := (header, value)], h) == Get(m, h)
  {
    var r := m[j := (header, value)];
    assert forall i :: 0 <= i < |m| ==> r[i].0 == m[i].0;
    GetAt(r, j);
    forall h | h != header ensures Get(r, h) == Get(m, h) {
      var q := Position(m, h);
      if q.Some? {
        GetAt(m, q.value);
        GetAt(r, q.value);
      } else {
        GetNone(m, h);
        GetNone(r, h);
      }
    }
  }

  /** Adding a header not yet present, at the end. */
  lemma {:induction false} PutNewEffect(m: Mappings, header: string, value: string)
    requires DistinctHeaders(m)
    requires forall i :: 0 <= i < |m| ==> m[i].0 != header
    ensures DistinctHeaders(m + [(header, value)])
    ensures Get(m + [(header, value)], header) == Some(value)
    ensures forall h :: h != header ==> Get(m + [(header, value)], h) == Get(m, h)
  {
    var r := m + [(header, value)];
    assert r[..|m|] == m;
    forall h | h != header ensures Get(r, h) == Get(m, h) {
      assert r[|r| - 1].0 != h;
    }
  }

  // ---------------------------------------------------------------------------
  // validateMappings
  // ---------------------------------------------------------------------------

  /** `requiredFields.filter(field => !selectedFields.includes(field))`. */
  function Missing(fields: seq<string>, selected: seq<string>): (r: seq<string>)
    ensures |r| <= |fields|
    ensures forall x :: x in r <==> x in fields && x !in selected
    decreases |fields|
  {
    if fields == [] then []
    else
      var f := fields[|fields| - 1];
      Missing(fields[..|fields| - 1], selected) + (if f !in selected then [f] else [])
  }

  /** `mappingOptions[field]`; `undefined` joins as the empty string. */
  function Label(options: seq<(string, string)>, field: string): string
    decreases |options|
  {
    if options == [] then ""
    else if options[0].0 == field then options[0].1
    else Label(options[1..], field)
  }

  function Labels(fields: seq<string>): (r: seq<string>)
    ensures |r| == |fields| && forall i :: 0 <= i < |fields| ==> r[i] == Label(MappingOptions, fields[i])
  {
    seq(|fields|, i requires 0 <= i < |fields| => Label(MappingOptions, fields[i]))
  }

  /** `Array.prototype.join`. */
  function Join(parts: seq<string>, sep: string): string
    decreases |parts|
  {
    if parts == [] then ""
    else if |parts| == 1 then parts[0]
    else parts[0] + sep + Join(parts[1..], sep)
  }

  function MissingRequired(m: Mappings): seq<string>
  {
    Missing(RequiredFields, Values(m))
  }

  /** validateMappings: rejected with the labels of the missing required fields. */
  function Validate(m: Mappings): Validation
  {
    var missing := MissingRequired(m);
    if |missing| > 0 then Rejected(MissingFieldsPrefix + Join(Labels(missing), ", ")) else Accepted
  }

  /** Validation passes exactly when each required field is selected by some header. */
  lemma ValidateIff(m: Mappings)
    ensures Validate(m).Accepted? <==> forall f :: f in RequiredFields ==> exists i :: 0 <= i < |m| && m[i].1 == f
  {
    var missing := MissingRequired(m);
    var values := Values(m);
    if missing != [] {
      assert missing[0] in RequiredFields && missing[0] !in values;
    }
    forall f | f in RequiredFields && f !in values ensures missing != [] {
      assert f in missing;
    }
    forall f | f in RequiredFields ensures (f in values <==> exists i :: 0 <= i < |m| && m[i].1 == f) {
      if f in values {
        var i :| 0 <= i < |values| && values[i] == f;
        assert m[i].1 == f;
      }
    }
  }

  /** The position of a required field in `requiredFields`. */
  function RequiredRank(f: string): int
  {
    if f == "date" then 0 else if f == "amount" then 1 else if f == "description" then 2 else 3
  }

  lemma {:induction false} MissingOrdered(fields: seq<string>, selected: seq<string>)
    requires forall i, j :: 0 <= i < j < |fields| ==> RequiredRank(fields[i]) < RequiredRank(fields[j])
    ensures forall i, j :: 0 <= i < j < |Missing(fields, selected)| ==>
      RequiredRank(Missing(fields, selected)[i]) < RequiredRank(Missing(fields, selected)[j])
    decreases |fields|
  {
    if fields != [] {
      var init := fields[..|fields| - 1];
      var f := fields[|fields| - 1];
      MissingOrdered(init, selected);
      var r0 := Missing(init, selected);
      var r := Missing(fields, selected);
      assert r == r0 + (if f !in selected then [f] else []);
      forall i | 0 <= i < |r0| ensures RequiredRank(r0[i]) < RequiredRank(f) {
        assert r0[i] in r0;
        var k :| 0 <= k < |init| && init[k] == r0[i];
        assert fields[k] == r0[i];
        assert RequiredRank(fields[k]) < RequiredRank(fields[|fields| - 1]);
      }
      forall i, j | 0 <= i < j < |r| ensures RequiredRank(r[i]) < RequiredRank(r[j]) {
        assert r[i] == r0[i];
        if j < |r0| {
          assert r[j] == r0[j];
        } else {
          assert r[j] == f;
        }
      }
    }
  }

  /** The message names the missing required fields in the order date, amount, description, each once. */
  lemma MissingInOrder(m: Mappings)
    ensures var r := MissingRequired(m);
      (forall i, j :: 0 <= i < j < |r| ==> RequiredRank(r[i]) < RequiredRank(r[j]))
      && (forall f :: f in r <==> f in RequiredFields && f !in Values(m))
  {
    assert RequiredRank(RequiredFields[0]) == 0;
    assert RequiredRank(RequiredFields[1]) == 1;
    assert RequiredRank(RequiredFields[2]) == 2;
    MissingOrdered(RequiredFields, Values(m));
  }

  /** Only which required fields are selected matters: optional fields, "" and repeated selections do not. */
  lemma OnlyRequiredFieldsMatter(m1: Mappings, m2: Mappings)
    requires forall f :: f in RequiredFields ==> (f in Values(m1) <==> f in Values(m2))
    ensures Validate(m1) == Validate(m2)
  {
    MissingSame(RequiredFields, Values(m1), Values(m2));
  }

  lemma {:induction false} MissingSame(fields: seq<string>, s1: seq<string>, s2: seq<string>)
    requires forall f :: f in fields ==> (f in s1 <==> f in s2)
    ensures Missing(fields, s1) == Missing(fields, s2)
    decreases |fields|
  {
    if fields != [] {
      var init := fields[..|fields| - 1];
      assert forall f :: f in init ==> f in fields;
      MissingSame(init, s1, s2);
    }
  }

  /** Two headers mapped to "date" are accepted. */
  lemma DuplicateMappingAccepted()
    ensures Validate([("Date", "date"), ("Booked", "date"), ("Sum", "amount"), ("Note", "description")]).Accepted?
  {
    var m := [("Date", "date"), ("Booked", "date"), ("Sum", "amount"), ("Note", "description")];
    ValidateIff(m);
    assert m[0].1 == "date" && m[2].1 == "amount" && m[3].1 == "description";
  }

  lemma {:induction false} MissingNothingSelected(fields: seq<string>)
    ensures Missing(fields, []) == fields
    decreases |fields|
  {
    if fields != [] {
      MissingNothingSelected(fields[..|fields| - 1]);
      assert fields == fields[..|fields| - 1] + [fields[|fields| - 1]];
    }
  }

  lemma RequiredLabels()
    ensures Labels(RequiredFields) == ["Transaction Date", "Amount", "Description"]
  {
    assert MappingOptions[1..][1..] == [("amount", "Amount"), ("description", "Description"), ("recipient", "Recipient/Sender"), ("currency", "Currency")];
    assert Label(MappingOptions, "date") == "Transaction Date";
    assert Label(MappingOptions, "amount") == "Amount";
    assert Label(MappingOptions, "description") == "Description";
  }

  lemma JoinThree(a: string, b: string, c: string, sep: string)
    ensures Join([a, b, c], sep) == a + sep + b + sep + c
  {
    assert [a, b, c][1..] == [b, c];
    assert [b, c][1..] == [c];
    assert Join([c], sep) == c;
    assert Join([b, c], sep) == b + sep + c;
    assert Join([a, b, c], sep) == a + sep + (b + sep + c);
    assert a + sep + (b + sep + c) == a + sep + b + sep + c;
  }

  lemma NothingMappedMissesAll()
    ensures MissingRequired([]) == RequiredFields
  {
    assert Values([]) == [];
    MissingNothingSelected(RequiredFields);
  }

  /** With nothing mapped the message lists all three labels. */
  lemma NothingMappedMessage()
    ensures Validate([]) == Rejected(MissingFieldsPrefix + "Transaction Date, Amount, Description")
  {
    NothingMappedMissesAll();
    RequiredLabels();
    JoinThree("Transaction Date", "Amount", "Description", ", ");
  }

  // ---------------------------------------------------------------------------
  // The page's handlers
  // ---------------------------------------------------------------------------

  /** `useState(csvFile.existingMappings || {})`, `useState('')`. */
  function InitialState(existing: Option<Mappings>): (s: MapPageState)
    ensures s.validationError == ""
    ensures existing.Some? ==> s.mappings == existing.value
    ensures existing.None? ==> s.mappings == []
  {
    MapPageState(if existing.Some? then existing.value else [], "")
  }

  /** handleMappingChange: set one header's field and clear the error. */
  function HandleMappingChange(s: MapPageState, header: string, value: string): MapPageState
  {
    MapPageState(Put(s.mappings, header, value), "")
  }

  /** Only the changed header's entry changes, and the error is cleared. */
  lemma MappingChangeEffect(s: MapPageState, header: string, value: string)
    requires DistinctHeaders(s.mappings)
    ensures var s' := HandleMappingChange(s, header, value);
      && s'.validationError == ""
      && DistinctHeaders(s'.mappings)
      && Get(s'.mappings, header) == Some(value)
      && (forall h :: h != header ==> Get(s'.mappings, h) == Get(s.mappings, h))
  {
    PutEffect(s.mappings, header, value);
  }

  /** handleSubmit: the new page state and, when validation passes, the mappings posted. */
  function HandleSubmit(s: MapPageState): (MapPageState, Option<Mappings>)
  {
    match Validate(s.mappings)
    case Rejected(message) => (s.(validationError := message), None)
    case Accepted => (s, Some(s.mappings))
  }

  /** The page posts exactly when validation passes, and then posts the mappings as they are; otherwise it shows the message. */
  lemma SubmitOnlyWhenValid(s: MapPageState)
    ensures HandleSubmit(s).1.Some? <==> forall f :: f in RequiredFields ==> f in Values(s.mappings)
    ensures HandleSubmit(s).1.Some? ==> HandleSubmit(s).1.value == s.mappings && HandleSubmit(s) .0 == s
    ensures HandleSubmit(s).1.None? ==>
      HandleSubmit(s).0 == s.(validationError := MissingFieldsPrefix + Join(Labels(MissingRequired(s.mappings)), ", "))
  {
    var missing := MissingRequired(s.mappings);
    if missing != [] {
      assert missing[0] in RequiredFields && missing[0] !in Values(s.mappings);
    }
    forall f | f in RequiredFields && f !in Values(s.mappings) ensures missing != [] {
      assert f in missing;
    }
  }
}
