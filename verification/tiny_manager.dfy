/** The storage gateway of DBManagers/tiny_manager.py over an in-memory model of one
    document-store table: a sequence of documents, each a field map with the integer
    identifier the store assigned when the document was inserted. The query is the
    conjunction of field equalities that `_generate_query`'s `test_func` evaluates. The
    operations the controllers call but the gateway does not define (`is_object_exist`,
    `get_object`, `update_attribute_many`) are specified here over the same model. */
module TinyManager {
  import opened Exceptions

  /** A stored field value. `tournament_score` (a float in the source) only ever holds 0
      and is stored as VInt(0). VNone is what `dict.get` returns for a missing field. */
  datatype Value = VNone | VStr(s: string) | VInt(i: int) | VBool(b: bool) | VIds(ids: seq<nat>)

  type Fields = map<string, Value>

  datatype Document = Document(id: nat, fields: Fields)

  /** The `values` argument: a list of (field name, expected string) pairs. */
  type Query = seq<(string, string)>

  /** `record.get(key)`. */
  function Get(fields: Fields, key: string): Value
  {
    if key in fields then fields[key] else VNone
  }

  /** `dict(values)`: a later pair for the same field replaces an earlier one. */
  function Dict(values: Query): (d: map<string, string>)
    ensures d.Keys == set i | 0 <= i < |values| :: values[i].0
    decreases |values|
  {
    if values == [] then map[]
    else
      var init := values[..|values| - 1];
      var d0 := Dict(init);
      assert forall i :: 0 <= i < |init| ==> init[i] == values[i];
      d0[values[|values| - 1].0 := values[|values| - 1].1]
  }

  /** `test_func(record)`: every field of the query holds exactly the expected string. */
  predicate TestFunc(values: Query, fields: Fields)
    ensures values == [] ==> TestFunc(values, fields)
    ensures TestFunc(values, fields) ==> forall i :: 0 <= i < |values| ==> values[i].0 in fields
  {
    assert forall i :: 0 <= i < |values| ==> values[i].0 in Dict(values);
    forall key :: key in Dict(values) ==> Get(fields, key) == VStr(Dict(values)[key])
  }

  /** No later pair of the query names the same field as pair i. */
  predicate LastOccurrence(values: Query, i: nat)
    requires i < |values|
  {
    forall j :: i < j < |values| ==> values[j].0 != values[i].0
  }

  lemma {:induction false} DictAtLastOccurrence(values: Query, i: nat)
    requires i < |values| && LastOccurrence(values, i)
    ensures values[i].0 in Dict(values) && Dict(values)[values[i].0] == values[i].1
    decreases |values|
  {
    if i < |values| - 1 {
      var init := values[..|values| - 1];
      assert init[i] == values[i];
      DictAtLastOccurrence(init, i);
    }
  }

  lemma {:induction false} DictEntryHasLastOccurrence(values: Query, key: string)
    requires key in Dict(values)
    ensures exists i :: 0 <= i < |values| && LastOccurrence(values, i) && values[i].0 == key
                        && Dict(values)[key] == values[i].1
    decreases |values|
  {
    var n := |values| - 1;
    if values[n].0 == key {
      assert LastOccurrence(values, n);
    } else {
      var init := values[..n];
      DictEntryHasLastOccurrence(init, key);
      var i :| 0 <= i < |init| && LastOccurrence(init, i) && init[i].0 == key && Dict(init)[key] == init[i].1;
      assert values[i] == init[i];
      assert LastOccurrence(values, i);
    }
  }

  /** What `test_func` checks, pair by pair: a record matches iff, for every field of the
      query, the LAST pair naming that field holds; earlier pairs for the same field are
      never looked at. */
  lemma TestFuncIffLastPairsHold(values: Query, fields: Fields)
    ensures TestFunc(values, fields) <==>
      forall i :: 0 <= i < |values| && LastOccurrence(values, i) ==> Get(fields, values[i].0) == VStr(values[i].1)
  {
    if TestFunc(values, fields) {
      forall i | 0 <= i < |values| && LastOccurrence(values, i)
        ensures Get(fields, values[i].0) == VStr(values[i].1)
      {
        DictAtLastOccurrence(values, i);
      }
    }
    if forall i :: 0 <= i < |values| && LastOccurrence(values, i) ==> Get(fields, values[i].0) == VStr(values[i].1) {
      forall key | key in Dict(values)
        ensures Get(fields, key) == VStr(Dict(values)[key])
      {
        DictEntryHasLastOccurrence(values, key);
      }
    }
  }

  /** A record without a searched field never matches: `get` gives None, never a string. */
  lemma MissingFieldNeverMatches(values: Query, fields: Fields, i: nat)
    requires i < |values| && values[i].0 !in fields
    ensures !TestFunc(values, fields)
  {
    assert values[i].0 in Dict(values);
  }

  lemma {:induction false} DictAppend(x: Query, y: Query)
    ensures Dict(x + y) == Dict(x) + Dict(y)
    decreases |y|
  {
    if y != [] {
      var n := |y| - 1;
      assert (x + y)[..|x + y| - 1] == x + y[..n];
      DictAppend(x, y[..n]);
    } else {
      assert x + y == x;
    }
  }

  /** Pairs placed in front of a query can only narrow what it matches. */
  lemma PrependedPairsOnlyNarrow(more: Query, values: Query, fields: Fields)
    requires TestFunc(more + values, fields)
    ensures TestFunc(values, fields)
  {
    DictAppend(more, values);
    forall key | key in Dict(values)
      ensures Get(fields, key) == VStr(Dict(values)[key])
    {
      assert key in Dict(more + values);
    }
  }

  /** Pairs appended for fields the query does not already name can only narrow it too. */
  lemma FreshPairsOnlyNarrow(values: Query, more: Query, fields: Fields)
    requires forall i, j :: 0 <= i < |values| && 0 <= j < |more| ==> values[i].0 != more[j].0
    requires TestFunc(values + more, fields)
    ensures TestFunc(values, fields)
  {
    DictAppend(values, more);
    forall key | key in Dict(values)
      ensures Get(fields, key) == VStr(Dict(values)[key])
    {
      assert key !in Dict(more);
      assert key in Dict(values + more);
    }
  }

  /** An appended pair that names a field already searched replaces its expected value,
      so it can also widen the match: ("a","1") rejects a record that ("a","1"),("a","2")
      accepts. */
  lemma OverridingPairCanWiden()
    ensures var record := map["a" := VStr("2")];
      TestFunc([("a", "1"), ("a", "2")], record) && !TestFunc([("a", "1")], record)
  {
    var record := map["a" := VStr("2")];
    var q := [("a", "1"), ("a", "2")];
    assert Dict(q[..1]) == map["a" := "1"];
    assert Dict(q) == map["a" := "2"];
    assert Dict([("a", "1")]) == map["a" := "1"];
    assert Get(record, "a") != VStr(Dict([("a", "1")])["a"]);
  }

  lemma DictSnoc(x: Query, key: string, value: string)
    ensures Dict(x + [(key, value)]) == Dict(x)[key := value]
  {
    assert (x + [(key, value)])[..|x|] == x;
  }

  lemma OverrideThenUnion(m: map<string, string>, n: map<string, string>, key: string, v1: string, v2: string)
    ensures (m[key := v1] + n)[key := v2] == (m + n)[key := v2]
  {
  }

  /** Of two pairs for the same field only the later one is checked. */
  lemma LaterPairForSameFieldWins(a: Query, b: Query, key: string, v1: string, v2: string, fields: Fields)
    ensures TestFunc(a + [(key, v1)] + b + [(key, v2)], fields) == TestFunc(a + b + [(key, v2)], fields)
  {
    var front := a + [(key, v1)] + b;
    var plain := a + b;
    DictSnoc(front, key, v2);
    DictSnoc(plain, key, v2);
    DictSnoc(a, key, v1);
    DictAppend(a + [(key, v1)], b);
    DictAppend(a, b);
    OverrideThenUnion(Dict(a), Dict(b), key, v1, v2);
    assert Dict(front + [(key, v2)]) == Dict(plain + [(key, v2)]);
  }

  /** `get_instances_id`: the identifiers of the matching documents, in table order. */
  function GetInstancesId(docs: seq<Document>, values: Query): (r: seq<nat>)
    ensures |r| <= |docs|
    ensures forall id :: id in r <==>
      exists i :: 0 <= i < |docs| && docs[i].id == id && TestFunc(values, docs[i].fields)
    decreases |docs|
  {
    if docs == [] then []
    else
      var rest := GetInstancesId(docs[1..], values);
      assert forall i :: 1 <= i < |docs| ==> docs[i] == docs[1..][i - 1];
      (if TestFunc(values, docs[0].fields) then [docs[0].id] else []) + rest
  }

  /** The query with no pairs matches every document. */
  lemma {:induction false} EmptyQueryMatchesAll(docs: seq<Document>)
    ensures GetInstancesId(docs, []) == Ids(docs)
    decreases |docs|
  {
    if docs != [] {
      EmptyQueryMatchesAll(docs[1..]);
    }
  }

  function Ids(docs: seq<Document>): (r: seq<nat>)
    ensures |r| == |docs| && forall i :: 0 <= i < |docs| ==> r[i] == docs[i].id
  {
    seq(|docs|, i requires 0 <= i < |docs| => docs[i].id)
  }

  /** The table's identifiers are positive and strictly increasing, as the store assigns them. */
  predicate IdsIncreasing(docs: seq<Document>)
  {
    && (forall i :: 0 <= i < |docs| ==> docs[i].id >= 1)
    && (forall i, j :: 0 <= i < j < |docs| ==> docs[i].id < docs[j].id)
  }

  predicate Increasing(ids: seq<nat>)
  {
    forall i, j :: 0 <= i < j < |ids| ==> ids[i] < ids[j]
  }

  /** Table order: in a table with increasing identifiers the result is increasing too,
      hence free of duplicates. */
  lemma {:induction false} InstancesIdInTableOrder(docs: seq<Document>, values: Query)
    requires IdsIncreasing(docs)
    ensures Increasing(GetInstancesId(docs, values))
    decreases |docs|
  {
    if docs != [] {
      var rest := GetInstancesId(docs[1..], values);
      InstancesIdInTableOrder(docs[1..], values);
      forall id | id in rest ensures docs[0].id < id {
        var i :| 0 <= i < |docs[1..]| && docs[1..][i].id == id && TestFunc(values, docs[1..][i].fields);
        assert docs[1..][i] == docs[i + 1];
      }
      var r := GetInstancesId(docs, values);
      var head := if TestFunc(values, docs[0].fields) then [docs[0].id] else [];
      assert r == head + rest;
      forall i, j | 0 <= i < j < |r| ensures r[i] < r[j] {
        if |head| == 1 && i == 0 {
          assert r[j] == rest[j - 1] && rest[j - 1] in rest;
        } else {
          assert r[i] == rest[i - |head|] && r[j] == rest[j - |head|];
        }
      }
    }
  }

  /** `get_object`: the first document that matches, if any. */
  function GetObject(docs: seq<Document>, values: Query): (r: Option<Document>)
    ensures r.None? <==> GetInstancesId(docs, values) == []
    ensures r.Some? ==> r.value in docs && TestFunc(values, r.value.fields)
                        && r.value.id == GetInstancesId(docs, values)[0]
    decreases |docs|
  {
    if docs == [] then None
    else if TestFunc(values, docs[0].fields) then Some(docs[0])
    else GetObject(docs[1..], values)
  }

  /** `is_object_exist`: `get_object(...) is not None`. */
  function IsObjectExist(docs: seq<Document>, values: Query): (r: bool)
    ensures r <==> exists i :: 0 <= i < |docs| && TestFunc(values, docs[i].fields)
  {
    var found := GetObject(docs, values);
    assert found.Some? ==> exists i :: 0 <= i < |docs| && docs[i] == found.value;
    assert found.None? ==> forall i :: 0 <= i < |docs| ==> docs[i].id !in GetInstancesId(docs, values);
    found.Some?
  }

  /** The identifier the store gives the next inserted document: one more than the
      largest (the last) identifier, 1 for an empty table. */
  function NextId(docs: seq<Document>): (r: nat)
    ensures r >= 1
    ensures IdsIncreasing(docs) ==> forall i :: 0 <= i < |docs| ==> docs[i].id < r
  {
    if docs == [] then 1 else docs[|docs| - 1].id + 1
  }

  /** One table of the document store. */
  class Table {
    var docs: seq<Document>

    ghost predicate Valid()
      reads this
    {
      IdsIncreasing(docs)
    }

    constructor ()
      ensures Valid() && docs == []
    {
      docs := [];
    }
  }

  /** `save`: exactly one document is appended, under a fresh identifier; the documents
      already stored are unchanged. */
  method Save(table: Table, data: Fields)
    requires table.Valid()
    modifies table
    ensures table.Valid()
    ensures table.docs == old(table.docs) + [Document(NextId(old(table.docs)), data)]
  {
    table.docs := table.docs + [Document(NextId(table.docs), data)];
  }

  /** The table after `update_attribute_many`: each document whose identifier is listed
      has the attribute set to the new value; every other document is unchanged. */
  function SetAttributeWhere(docs: seq<Document>, attribute: string, newValue: Value, ids: seq<nat>): (r: seq<Document>)
    ensures |r| == |docs|
    ensures forall i :: 0 <= i < |docs| ==> r[i].id == docs[i].id
    ensures forall i :: 0 <= i < |docs| ==> docs[i].id !in ids ==> r[i] == docs[i]
    ensures forall i :: 0 <= i < |docs| ==> docs[i].id in ids ==>
      r[i].fields.Keys == docs[i].fields.Keys + {attribute} && Get(r[i].fields, attribute) == newValue
      && forall key :: key in docs[i].fields && key != attribute ==> r[i].fields[key] == docs[i].fields[key]
  {
    seq(|docs|, i requires 0 <= i < |docs| =>
      if docs[i].id in ids then Document(docs[i].id, docs[i].fields[attribute := newValue]) else docs[i])
  }

  /** `update_attribute_many`. */
  method UpdateAttributeMany(table: Table, attribute: string, newValue: Value, ids: seq<nat>)
    requires table.Valid()
    modifies table
    ensures table.Valid()
    ensures table.docs == SetAttributeWhere(old(table.docs), attribute, newValue, ids)
  {
    table.docs := SetAttributeWhere(table.docs, attribute, newValue, ids);
  }
}
