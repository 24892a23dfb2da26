/** What `serialize`, `unserialize` and `afterFind` compute, as functions of
    the data and the alias's settings: the alias entry of a record is
    walked field by field (or, for a batch of records, record by record),
    and a find result is walked row by row. */
module Walker {
  import opened PhpValues
  import opened PhpStrings
  import opened Settings
  import opened Transcoder

  /** `$data[$Model->alias]`: the alias entry of the data, or null when the
      data is not an array or has no such entry. */
  function AliasValue(data: Value, alias: string): Value {
    if data.Arr? then
      match Lookup(data.entries, StrKey(alias))
      case Some(a) => a
      case None => Null
    else Null
  }

  /** An array key as the value `array_keys` lists it. */
  function KeyValue(k: Key): Value {
    match k
    case IntKey(i) => Int(i)
    case StrKey(s) => Str(s)
  }

  /** `array_keys($a)`: a list of the keys of `a`, in order. */
  function ArrayKeys(es: seq<Entry>): (r: seq<Entry>)
    ensures |r| == |es|
    ensures forall i :: 0 <= i < |es| ==> r[i] == Entry(IntKey(i), KeyValue(es[i].key))
  {
    seq(|es|, i requires 0 <= i < |es| => Entry(IntKey(i), KeyValue(es[i].key)))
  }

  /** `array_intersect_key($a, $b)`: the entries of `a` whose key is also a
      key of `b`, in the order of `a`. */
  function IntersectKey(a: seq<Entry>, b: seq<Entry>): (r: seq<Entry>)
    ensures forall e :: e in r <==> e in a && e.key in Keys(b)
  {
    if a == [] then []
    else
      var rest := IntersectKey(a[1..], b);
      assert a == [a[0]] + a[1..];
      if a[0].key in Keys(b) then [a[0]] + rest else rest
  }

  /** The batch test: `$data[alias][0]` is not empty and
      `array_intersect_key(fields, array_keys($data[alias][0]))` is a
      non-empty array. A first record that is not an array makes
      `array_keys` answer null, which is not a batch. */
  predicate IsBatch(es: seq<Entry>, fields: seq<string>) {
    match Lookup(es, IntKey(0))
    case None => false
    case Some(first) =>
      !PhpEmpty(first) && first.Arr? &&
      IntersectKey(ListOf(fields).entries, ArrayKeys(first.entries)) != []
  }

  /** `array_intersect_key` compares keys, and the keys of both lists are
      0, 1, 2, ...: the data is a batch exactly when its entry 0 is a
      non-empty array and some field is configured, whatever the field
      names are. */
  lemma BatchIff(es: seq<Entry>, fields: seq<string>)
    ensures IsBatch(es, fields) <==>
      (Lookup(es, IntKey(0)).Some? && Lookup(es, IntKey(0)).value.Arr? &&
       Lookup(es, IntKey(0)).value.entries != [] && fields != [])
  {
    match Lookup(es, IntKey(0))
    case None =>
    case Some(first) =>
      if first.Arr? && first.entries != [] && fields != [] {
        KeysMeet(fields, first.entries);
      } else if fields == [] {
        assert ListOf(fields).entries == [];
      }
  }

  /** Field 0 and key 0 meet as soon as both lists are non-empty. */
  lemma KeysMeet(fields: seq<string>, es: seq<Entry>)
    requires fields != [] && es != []
    ensures IntersectKey(ListOf(fields).entries, ArrayKeys(es)) != []
  {
    var a := ListOf(fields).entries;
    var b := ArrayKeys(es);
    assert b[0].key == IntKey(0);
    assert IntKey(0) in Keys(b);
    assert a[0] in IntersectKey(a, b);
  }

  /** The condition at the head of the field loop: the field is set (present
      and not null) and holds a string or an array; a string or an array is
      never null, so the second test is implied by the third. */
  predicate Encodable(x: Option<Value>) {
    x.Some? && (x.value.Str? || x.value.Arr?)
  }

  /** What one pass of the field loop of `serialize` leaves in the field,
      given what it held. */
  function EncodeOutcome(x: Option<Value>, s: Settings, c: Codecs): Option<Value>
    requires EncodeReady(s)
  {
    if Encodable(x) then Some(Encode(x.value, s, c)) else x
  }

  /** One pass of the field loop of `serialize`. */
  function EncodeField(es: seq<Entry>, f: string, s: Settings, c: Codecs): (r: seq<Entry>)
    requires EncodeReady(s)
    ensures Lookup(r, StrKey(f)) == EncodeOutcome(Lookup(es, StrKey(f)), s, c)
  {
    var x := Lookup(es, StrKey(f));
    if Encodable(x) then Assign(es, StrKey(f), Encode(x.value, s, c)) else es
  }

  /** The field loop of `serialize` over the configured fields, in order.
      It keeps the keys and touches only configured fields. */
  function EncodeFields(es: seq<Entry>, fields: seq<string>, s: Settings, c: Codecs): (r: seq<Entry>)
    requires EncodeReady(s)
    ensures Keys(r) == Keys(es)
    ensures forall k: Key :: (k.IntKey? || k.s !in fields) ==> Lookup(r, k) == Lookup(es, k)
  {
    if fields == [] then es
    else
      var init := fields[..|fields| - 1];
      EncodeField(EncodeFields(es, init, s, c), fields[|fields| - 1], s, c)
  }

  /** One more pass of the field loop of `serialize`. */
  lemma EncodeFieldsSnoc(es: seq<Entry>, fields: seq<string>, j: nat, s: Settings, c: Codecs)
    requires EncodeReady(s) && j < |fields|
    ensures EncodeFields(es, fields[..j + 1], s, c) == EncodeField(EncodeFields(es, fields[..j], s, c), fields[j], s, c)
  {
    assert fields[..j + 1][..j] == fields[..j];
  }

  /** With each field configured once, a configured field that is set and
      holds a string or an array is replaced by its encoding, and any other
      configured field (absent, null, a number, a boolean) is left as it
      is. */
  lemma EncodeFieldsOnce(es: seq<Entry>, fields: seq<string>, f: string, s: Settings, c: Codecs)
    requires EncodeReady(s) && Distinct(fields) && f in fields
    ensures Encodable(Lookup(es, StrKey(f))) ==>
      Lookup(EncodeFields(es, fields, s, c), StrKey(f)) == Some(Encode(Lookup(es, StrKey(f)).value, s, c))
    ensures !Encodable(Lookup(es, StrKey(f))) ==>
      Lookup(EncodeFields(es, fields, s, c), StrKey(f)) == Lookup(es, StrKey(f))
  {
    EncodeFieldsAt(es, fields, f, s, c);
  }

  lemma {:induction false} EncodeFieldsAt(es: seq<Entry>, fields: seq<string>, f: string, s: Settings, c: Codecs)
    requires EncodeReady(s) && Distinct(fields) && f in fields
    ensures Lookup(EncodeFields(es, fields, s, c), StrKey(f)) == EncodeOutcome(Lookup(es, StrKey(f)), s, c)
  {
    var init := fields[..|fields| - 1];
    var g := fields[|fields| - 1];
    assert fields == init + [g];
    if g == f {
      assert f !in init;
    } else {
      assert f in init;
      EncodeFieldsAt(es, init, f, s, c);
    }
  }

  /** The new alias entry `serialize` computes from the alias entry `v`:
      an empty or scalar entry is kept, a batch has every record
      serialized in turn and written back under its key, and a single
      record has its fields encoded. */
  function SerializeValue(v: Value, s: Settings, c: Codecs): Value
    requires EncodeReady(s)
    decreases v, 1
  {
    if PhpEmpty(v) || !v.Arr? then v
    else if IsBatch(v.entries, s.fields) then
      Arr(AssignEach(v.entries, SerializedRecords(v, s, c), |v.entries|))
    else Arr(EncodeFields(v.entries, s.fields, s, c))
  }

  /** The records of a batch, each serialized on its own (the recursive
      call on `array(alias => $model)`). */
  function SerializedRecords(v: Value, s: Settings, c: Codecs): (vals: seq<Value>)
    requires EncodeReady(s) && v.Arr?
    ensures |vals| == |v.entries|
    ensures forall k :: 0 <= k < |vals| ==> vals[k] == SerializeValue(v.entries[k].val, s, c)
    decreases v, 0
  {
    seq(|v.entries|, k requires 0 <= k < |v.entries| =>
      assert v.entries[k] in v.entries; SerializeValue(v.entries[k].val, s, c))
  }

  /** `serialize($Model, $data)`. */
  function SerializeData(data: Value, alias: string, s: Settings, c: Codecs): Value
    requires EncodeReady(s)
  {
    var a := AliasValue(data, alias);
    if PhpEmpty(a) then data
    else Arr(Assign(data.entries, StrKey(alias), SerializeValue(a, s, c)))
  }

  /** `serialize` leaves the data alone when its alias entry is empty;
      otherwise it replaces only the alias entry, in place, and an array
      entry stays an array with the same keys. */
  lemma SerializeDataSpec(data: Value, alias: string, s: Settings, c: Codecs)
    requires EncodeReady(s)
    ensures PhpEmpty(AliasValue(data, alias)) ==> SerializeData(data, alias, s, c) == data
    ensures !PhpEmpty(AliasValue(data, alias)) ==>
      data.Arr? && SerializeData(data, alias, s, c).Arr? &&
      Keys(SerializeData(data, alias, s, c).entries) == Keys(data.entries) &&
      Lookup(SerializeData(data, alias, s, c).entries, StrKey(alias)) == Some(SerializeValue(AliasValue(data, alias), s, c))
    ensures forall k :: data.Arr? && k != StrKey(alias) ==>
      SerializeData(data, alias, s, c).Arr? && Lookup(SerializeData(data, alias, s, c).entries, k) == Lookup(data.entries, k)
    ensures !AliasValue(data, alias).Arr? ==> SerializeValue(AliasValue(data, alias), s, c) == AliasValue(data, alias)
    ensures AliasValue(data, alias).Arr? ==>
      SerializeValue(AliasValue(data, alias), s, c).Arr? &&
      Keys(SerializeValue(AliasValue(data, alias), s, c).entries) == Keys(AliasValue(data, alias).entries)
  {
    var a := AliasValue(data, alias);
    if a.Arr? && !PhpEmpty(a) && !IsBatch(a.entries, s.fields) {
      assert SerializeValue(a, s, c) == Arr(EncodeFields(a.entries, s.fields, s, c));
    }
  }

  /** In a well-formed batch every record is serialized independently and
      written back in place: same keys, same order, same count. */
  lemma BatchShape(v: Value, s: Settings, c: Codecs)
    requires EncodeReady(s) && v.Arr? && !PhpEmpty(v) && IsBatch(v.entries, s.fields) && DistinctKeys(v.entries)
    ensures SerializeValue(v, s, c).Arr? && |SerializeValue(v, s, c).entries| == |v.entries|
    ensures forall k :: 0 <= k < |v.entries| ==>
      SerializeValue(v, s, c).entries[k] == Entry(v.entries[k].key, SerializeValue(v.entries[k].val, s, c))
  {
    var es := v.entries;
    var vals := SerializedRecords(v, s, c);
    var r := AssignEach(es, vals, |es|);
    assert SerializeValue(v, s, c) == Arr(r);
    AssignEachAll(es, vals);
    forall k | 0 <= k < |es| ensures r[k] == Entry(es[k].key, SerializeValue(es[k].val, s, c)) {
      assert vals[k] == SerializeValue(es[k].val, s, c);
    }
  }

  /** The recursive call on `array(alias => $model)` answers the record
      serialized on its own under the alias. */
  lemma SingletonSerialize(alias: string, m: Value, s: Settings, c: Codecs)
    requires EncodeReady(s)
    ensures AliasValue(Arr([Entry(StrKey(alias), m)]), alias) == m
    ensures SerializeData(Arr([Entry(StrKey(alias), m)]), alias, s, c).Arr?
    ensures Lookup(SerializeData(Arr([Entry(StrKey(alias), m)]), alias, s, c).entries, StrKey(alias)) == Some(SerializeValue(m, s, c))
  {
    var es := [Entry(StrKey(alias), m)];
    KeyIndexUnique(es, StrKey(alias), 0);
  }

  /** What one pass of the field loop of `unserialize` leaves in the
      field, given what it held. */
  function DecodeOutcome(x: Option<Value>, s: Settings, c: Codecs): Option<Value>
    requires DecodeReady(s)
  {
    if x.Some? && !PhpEmpty(x.value) then
      if x.value.Str? then Some(Decode(x.value.s, s, c)) else x
    else if x.Some? then Some(Arr([]))
    else x
  }

  /** One pass of the field loop of `unserialize`. */
  function DecodeField(es: seq<Entry>, f: string, s: Settings, c: Codecs): (r: seq<Entry>)
    requires DecodeReady(s)
    ensures Lookup(r, StrKey(f)) == DecodeOutcome(Lookup(es, StrKey(f)), s, c)
  {
    var x := Lookup(es, StrKey(f));
    if x.Some? && !PhpEmpty(x.value) then
      if x.value.Str? then Assign(es, StrKey(f), Decode(x.value.s, s, c)) else es
    else if x.Some? then Assign(es, StrKey(f), Arr([]))
    else es
  }

  /** The field loop of `unserialize` over the configured fields, in order.
      It keeps the keys and touches only configured fields. */
  function DecodeFields(es: seq<Entry>, fields: seq<string>, s: Settings, c: Codecs): (r: seq<Entry>)
    requires DecodeReady(s)
    ensures Keys(r) == Keys(es)
    ensures forall k: Key :: (k.IntKey? || k.s !in fields) ==> Lookup(r, k) == Lookup(es, k)
  {
    if fields == [] then es
    else
      var init := fields[..|fields| - 1];
      DecodeField(DecodeFields(es, init, s, c), fields[|fields| - 1], s, c)
  }

  /** One more pass of the field loop of `unserialize`. */
  lemma DecodeFieldsSnoc(es: seq<Entry>, fields: seq<string>, j: nat, s: Settings, c: Codecs)
    requires DecodeReady(s) && j < |fields|
    ensures DecodeFields(es, fields[..j + 1], s, c) == DecodeField(DecodeFields(es, fields[..j], s, c), fields[j], s, c)
  {
    assert fields[..j + 1][..j] == fields[..j];
  }

  /** With each field configured once, `unserialize` has four outcomes per
      configured field: a non-empty string is decoded, a present empty
      value (null, false, 0, "", "0", []) becomes the empty array, an
      absent field stays absent and any other value is kept. */
  lemma DecodeFieldsOnce(es: seq<Entry>, fields: seq<string>, f: string, s: Settings, c: Codecs)
    requires DecodeReady(s) && Distinct(fields) && f in fields
    ensures Lookup(es, StrKey(f)).Some? && Lookup(es, StrKey(f)).value.Str? && !PhpEmpty(Lookup(es, StrKey(f)).value) ==>
      Lookup(DecodeFields(es, fields, s, c), StrKey(f)) == Some(Decode(Lookup(es, StrKey(f)).value.s, s, c))
    ensures Lookup(es, StrKey(f)).Some? && PhpEmpty(Lookup(es, StrKey(f)).value) ==>
      Lookup(DecodeFields(es, fields, s, c), StrKey(f)) == Some(Arr([]))
    ensures Lookup(es, StrKey(f)).None? ==> Lookup(DecodeFields(es, fields, s, c), StrKey(f)).None?
    ensures Lookup(es, StrKey(f)).Some? && !Lookup(es, StrKey(f)).value.Str? && !PhpEmpty(Lookup(es, StrKey(f)).value) ==>
      Lookup(DecodeFields(es, fields, s, c), StrKey(f)) == Lookup(es, StrKey(f))
  {
    DecodeFieldsAt(es, fields, f, s, c);
  }

  lemma {:induction false} DecodeFieldsAt(es: seq<Entry>, fields: seq<string>, f: string, s: Settings, c: Codecs)
    requires DecodeReady(s) && Distinct(fields) && f in fields
    ensures Lookup(DecodeFields(es, fields, s, c), StrKey(f)) == DecodeOutcome(Lookup(es, StrKey(f)), s, c)
  {
    var init := fields[..|fields| - 1];
    var g := fields[|fields| - 1];
    assert fields == init + [g];
    if g == f {
      assert f !in init;
    } else {
      assert f in init;
      DecodeFieldsAt(es, init, f, s, c);
    }
  }

  /** `unserialize($Model, $data)`. */
  function UnserializeData(data: Value, alias: string, s: Settings, c: Codecs): Value
    requires DecodeReady(s)
  {
    var a := AliasValue(data, alias);
    if PhpEmpty(a) || !a.Arr? then data
    else Arr(Assign(data.entries, StrKey(alias), Arr(DecodeFields(a.entries, s.fields, s, c))))
  }

  /** `unserialize` leaves the data alone when its alias entry is empty (or
      not an array); otherwise it replaces only the alias entry, in place,
      by the record with its fields decoded. */
  lemma UnserializeDataSpec(data: Value, alias: string, s: Settings, c: Codecs)
    requires DecodeReady(s)
    ensures PhpEmpty(AliasValue(data, alias)) || !AliasValue(data, alias).Arr? ==> UnserializeData(data, alias, s, c) == data
    ensures !PhpEmpty(AliasValue(data, alias)) && AliasValue(data, alias).Arr? ==>
      data.Arr? && UnserializeData(data, alias, s, c).Arr? &&
      Keys(UnserializeData(data, alias, s, c).entries) == Keys(data.entries) &&
      Lookup(UnserializeData(data, alias, s, c).entries, StrKey(alias)) ==
        Some(Arr(DecodeFields(AliasValue(data, alias).entries, s.fields, s, c)))
    ensures forall k :: data.Arr? && k != StrKey(alias) ==>
      UnserializeData(data, alias, s, c).Arr? && Lookup(UnserializeData(data, alias, s, c).entries, k) == Lookup(data.entries, k)
  {
  }

  /** The rows of a find result, each unserialized on its own. */
  function UnserializedRows(results: Value, alias: string, s: Settings, c: Codecs): (vals: seq<Value>)
    requires DecodeReady(s) && results.Arr?
    ensures |vals| == |results.entries|
    ensures forall k :: 0 <= k < |vals| ==> vals[k] == UnserializeData(results.entries[k].val, alias, s, c)
  {
    seq(|results.entries|, k requires 0 <= k < |results.entries| => UnserializeData(results.entries[k].val, alias, s, c))
  }

  /** `afterFind($Model, $results, $primary)`: every row unserialized and
      written back under its key; an empty result, or one that is not an
      array, is returned as it is. */
  function AfterFindResults(results: Value, alias: string, s: Settings, c: Codecs): Value
    requires DecodeReady(s)
  {
    if PhpEmpty(results) || !results.Arr? then results
    else Arr(AssignEach(results.entries, UnserializedRows(results, alias, s, c), |results.entries|))
  }

  /** An empty result, or one that is not an array, comes back as it is;
      in a well-formed result every row is unserialized independently and
      written back in place: same keys, same order, same count. */
  lemma RowsShape(results: Value, alias: string, s: Settings, c: Codecs)
    requires DecodeReady(s)
    ensures PhpEmpty(results) || !results.Arr? ==> AfterFindResults(results, alias, s, c) == results
    ensures results.Arr? && DistinctKeys(results.entries) ==> RowsShapeOf(results, alias, s, c)
  {
    if results.Arr? && DistinctKeys(results.entries) {
      RowsInPlace(results, alias, s, c);
    }
  }

  predicate RowsShapeOf(results: Value, alias: string, s: Settings, c: Codecs)
    requires DecodeReady(s) && results.Arr?
  {
    AfterFindResults(results, alias, s, c).Arr?
    && |AfterFindResults(results, alias, s, c).entries| == |results.entries|
    && forall k :: 0 <= k < |results.entries| ==>
      AfterFindResults(results, alias, s, c).entries[k] ==
      Entry(results.entries[k].key, UnserializeData(results.entries[k].val, alias, s, c))
  }

  lemma RowsInPlace(results: Value, alias: string, s: Settings, c: Codecs)
    requires DecodeReady(s) && results.Arr? && DistinctKeys(results.entries)
    ensures AfterFindResults(results, alias, s, c).Arr?
    ensures |AfterFindResults(results, alias, s, c).entries| == |results.entries|
    ensures forall k :: 0 <= k < |results.entries| ==>
      AfterFindResults(results, alias, s, c).entries[k] ==
      Entry(results.entries[k].key, UnserializeData(results.entries[k].val, alias, s, c))
  {
    var vals := UnserializedRows(results, alias, s, c);
    AssignEachAll(results.entries, vals);
  }
}
