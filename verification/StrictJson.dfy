/**
 Strict objects: every allowed member exactly once and no other, in any order. The members are
 what the JSON tokenizer delivers, repeated names included.
 */
module StrictJson {
  import opened Common
  import Scanners = SurrogateScanners

  datatype Member<V> = Member(name: string, value: V)

  predicate NamesDistinct<V>(members: seq<Member<V>>) {
    forall i, j :: 0 <= i < j < |members| ==> members[i].name != members[j].name
  }

  predicate Names<V>(members: seq<Member<V>>, name: string) {
    exists i :: 0 <= i < |members| && members[i].name == name
  }

  /** Exactly the given fields, each once. */
  predicate Complete<V>(members: seq<Member<V>>, fields: seq<string>) {
    && NamesDistinct(members)
    && (forall i :: 0 <= i < |members| ==> members[i].name in fields)
    && forall f :: f in fields ==> Names(members, f)
  }

  predicate Holds<V(==)>(values: map<string, V>, members: seq<Member<V>>, n: nat)
    requires n <= |members|
  {
    && (forall i :: 0 <= i < n ==> members[i].name in values && values[members[i].name] == members[i].value)
    && forall k :: k in values ==> exists i :: 0 <= i < n && members[i].name == k
  }

  /** Distinct allowed names are all of them exactly when there are as many. */
  lemma AllNamed<V>(values: map<string, V>, members: seq<Member<V>>, fields: seq<string>)
    requires Distinct(fields) && Holds(values, members, |members|)
    requires forall k :: k in values ==> k in fields
    ensures |values| == |fields| <==> forall f :: f in fields ==> Names(members, f)
  {
    DistinctCount(fields);
    var all := Elements(fields);
    assert values.Keys <= all;
    assert all == values.Keys + (all - values.Keys);
    assert |all| == |values.Keys| + |all - values.Keys|;
    if |values| == |fields| {
      assert all - values.Keys == {};
      forall f | f in fields ensures Names(members, f) { assert f in all; }
    }
    if forall f :: f in fields ==> Names(members, f) {
      forall f | f in all ensures f in values { }
      assert all == values.Keys;
    }
  }

  /** The loop state after `n` members: all new, all allowed, all stored. */
  predicate Read<V(==)>(values: map<string, V>, members: seq<Member<V>>, fields: seq<string>, n: nat)
    requires n <= |members|
  {
    && Holds(values, members, n) && NamesDistinct(members[..n])
    && (forall j :: 0 <= j < n ==> members[j].name in fields)
    && forall k :: k in values ==> k in fields
  }

  lemma ReadOneMore<V>(values: map<string, V>, members: seq<Member<V>>, fields: seq<string>, n: nat)
    requires n < |members| && Read(values, members, fields, n)
    ensures var m := members[n];
            && (m.name in values ==> !NamesDistinct(members))
            && (m.name !in values && m.name in fields ==> Read(values[m.name := m.value], members, fields, n + 1))
  {
    var m := members[n];
    if m.name in values {
      var i :| 0 <= i < n && members[i].name == m.name;
      assert members[i].name == members[n].name;
    } else if m.name in fields {
      var next := values[m.name := m.value];
      forall k | k in next ensures exists i :: 0 <= i < n + 1 && members[i].name == k {
        if k == m.name { assert members[n].name == k; }
      }
    }
  }

  lemma ReadAll<V>(values: map<string, V>, members: seq<Member<V>>, fields: seq<string>)
    requires Distinct(fields) && Read(values, members, fields, |members|)
    ensures |values| == |fields| <==> Complete(members, fields)
    ensures |values| == |fields| ==> values.Keys == Elements(fields)
  {
    assert members[..|members|] == members;
    AllNamed(values, members, fields);
  }

  /** The member loop of the object readers: an unknown or repeated name refuses at once. */
  method CollectFields<V(==)>(members: seq<Member<V>>, fields: seq<string>) returns (r: Option<map<string, V>>)
    requires Distinct(fields)
    ensures r.Some? <==> Complete(members, fields)
    ensures r.Some? ==> Holds(r.value, members, |members|) && r.value.Keys == Elements(fields)
  {
    var values: map<string, V> := map[];
    for i := 0 to |members|
      invariant Read(values, members, fields, i)
    {
      var name := members[i].name;
      ReadOneMore(values, members, fields, i);
      if name in values || name !in fields { return None; }
      values := values[name := members[i].value];
    }
    ReadAll(values, members, fields);
    if |values| != |fields| { return None; }
    return Some(values);
  }

  const NOTE_FIELDS: seq<string> := ["id", "note", "expectedUpdatedAt"]

  lemma NoteFieldsAre()
    ensures Elements(NOTE_FIELDS) == {"expectedUpdatedAt", "id", "note"}
  {
    assert NOTE_FIELDS[0] == "id" && NOTE_FIELDS[1] == "note" && NOTE_FIELDS[2] == "expectedUpdatedAt";
  }

  predicate GoodString(raw: seq<byte>) {
    raw != [] && raw[0] == Scanners.QUOTE && Scanners.NoLoneSurrogate(raw)
  }

  lemma GoodStringMeans(raw: seq<byte>)
    ensures GoodString(raw) <==> |raw| > 0 && raw[0] == 0x22 && Scanners.NoLoneSurrogate(raw)
  {
  }

  /** A note's members are JSON values; each must be a string without lone surrogates. */
  method DecodeNoteInput(members: seq<Member<seq<byte>>>) returns (r: Option<map<string, seq<byte>>>)
    requires forall i :: 0 <= i < |members| && members[i].value != [] && members[i].value[0] == Scanners.QUOTE ==>
                           Scanners.StringLiteral(members[i].value)
    ensures r.Some? <==>
            Complete(members, NOTE_FIELDS) && forall i :: 0 <= i < |members| ==> GoodString(members[i].value)
    ensures r.Some? ==> Holds(r.value, members, |members|) && r.value.Keys == Elements(NOTE_FIELDS)
  {
    var values: map<string, seq<byte>> := map[];
    for i := 0 to |members|
      invariant Read(values, members, NOTE_FIELDS, i)
      invariant forall j :: 0 <= j < i ==> GoodString(members[j].value)
    {
      var name := members[i].name;
      ReadOneMore(values, members, NOTE_FIELDS, i);
      if name != "id" && name != "note" && name != "expectedUpdatedAt" { return None; }
      if name in values { return None; }
      var valid := Scanners.ValidNoteJSONString(members[i].value);
      if !valid { return None; }
      values := values[name := members[i].value];
    }
    ReadAll(values, members, NOTE_FIELDS);
    if |values| != 3 { return None; }
    return Some(values);
  }
}
