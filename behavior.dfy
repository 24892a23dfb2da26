/** The behaviour object itself: its per-model settings map, `setup`, and
    the walks `serialize`, `unserialize`, `afterFind` and `beforeSave`
    perform over a model's data, each proved to compute the corresponding
    function of module Walker. */
module Behavior {
  import opened PhpValues
  import opened Settings
  import opened Transcoder
  import opened Walker

  /** The model a behaviour is attached to: its alias and the data it is
      about to save. */
  class Model {
    const alias: string
    var data: Value

    constructor(alias: string, data: Value)
      ensures this.alias == alias && this.data == data
    {
      this.alias := alias;
      this.data := data;
    }
  }

  class SerializableBehavior {
    /** `$settings`: the resolved settings of every model set up so far,
        by alias. */
    var settings: map<string, Settings>
    /** The library codecs the formats 'php' and 'json' delegate to. */
    const codecs: Codecs

    constructor(codecs: Codecs)
      ensures settings == map[] && this.codecs == codecs
    {
      settings := map[];
      this.codecs := codecs;
    }

    /** `setup($model, $config)`: seed the defaults on the model's first
        call, then merge the configuration over its settings. */
    method Setup(model: Model, config: Config)
      modifies this
      ensures settings == Register(old(settings), model.alias, config)
    {
      if model.alias !in settings {
        settings := settings[model.alias := Defaults];
      }
      settings := settings[model.alias := Merge(settings[model.alias], config)];
    }

    /** `serialize($Model, $data)`: a batch has each record serialized by a
        recursive call on `array(alias => record)`; a single record has its
        configured fields encoded one after the other. */
    method Serialize(model: Model, data: Value) returns (r: Value)
      requires model.alias in settings && EncodeReady(settings[model.alias])
      ensures r == SerializeData(data, model.alias, settings[model.alias], codecs)
      decreases AliasValue(data, model.alias), 1
    {
      var s := settings[model.alias];
      var a := AliasValue(data, model.alias);
      if PhpEmpty(a) {
        return data;
      }
      var v: Value;
      if !a.Arr? {
        v := a;
      } else if IsBatch(a.entries, s.fields) {
        var es := SerializeBatch(model, a);
        v := Arr(es);
      } else {
        var es := EncodeRecord(model, a.entries);
        v := Arr(es);
      }
      assert v == SerializeValue(a, s, codecs);
      r := Arr(Assign(data.entries, StrKey(model.alias), v));
    }

    /** The batch loop of `serialize`: every record of the alias entry `a`
        serialized on its own and written back under its key. */
    method SerializeBatch(model: Model, a: Value) returns (r: seq<Entry>)
      requires model.alias in settings && EncodeReady(settings[model.alias]) && a.Arr?
      ensures r == AssignEach(a.entries, SerializedRecords(a, settings[model.alias], codecs), |a.entries|)
      decreases a, 0
    {
      var alias := model.alias;
      var s := settings[alias];
      var es := a.entries;
      ghost var records := SerializedRecords(a, s, codecs);
      var cur := es;
      var k := 0;
      while k < |es|
        invariant 0 <= k <= |es|
        invariant cur == AssignEach(es, records, k)
      {
        assert es[k] in es;
        SingletonSerialize(alias, es[k].val, s, codecs);
        var m := Serialize(model, Arr([Entry(StrKey(alias), es[k].val)]));
        var record := Lookup(m.entries, StrKey(alias)).value;
        assert record == records[k];
        AssignEachNext(es, records, k, cur, record);
        cur := Assign(cur, es[k].key, record);
        assert cur == AssignEach(es, records, k + 1);
        k := k + 1;
      }
      r := cur;
    }

    /** The field loop of `serialize`: each configured field of the record
        that is set and holds a string or an array is encoded. */
    method EncodeRecord(model: Model, es: seq<Entry>) returns (r: seq<Entry>)
      requires model.alias in settings && EncodeReady(settings[model.alias])
      ensures r == EncodeFields(es, settings[model.alias].fields, settings[model.alias], codecs)
    {
      var s := settings[model.alias];
      var cur := es;
      var j := 0;
      while j < |s.fields|
        invariant 0 <= j <= |s.fields|
        invariant cur == EncodeFields(es, s.fields[..j], s, codecs)
      {
        var f := s.fields[j];
        EncodeFieldsSnoc(es, s.fields, j, s, codecs);
        var x := Lookup(cur, StrKey(f));
        if Encodable(x) {
          cur := Assign(cur, StrKey(f), Encode(x.value, s, codecs));
        }
        j := j + 1;
      }
      assert s.fields[..|s.fields|] == s.fields;
      r := cur;
    }

    /** `unserialize($Model, $data)`: each configured field that holds a
        non-empty string is decoded, and each present empty one becomes
        the empty array. */
    method Unserialize(model: Model, data: Value) returns (r: Value)
      requires model.alias in settings && DecodeReady(settings[model.alias])
      ensures r == UnserializeData(data, model.alias, settings[model.alias], codecs)
    {
      var alias := model.alias;
      var s := settings[alias];
      var a := AliasValue(data, alias);
      if PhpEmpty(a) || !a.Arr? {
        return data;
      }
      var cur := a.entries;
      var j := 0;
      while j < |s.fields|
        invariant 0 <= j <= |s.fields|
        invariant cur == DecodeFields(a.entries, s.fields[..j], s, codecs)
      {
        var f := s.fields[j];
        DecodeFieldsSnoc(a.entries, s.fields, j, s, codecs);
        var x := Lookup(cur, StrKey(f));
        if x.Some? && !PhpEmpty(x.value) {
          if x.value.Str? {
            cur := Assign(cur, StrKey(f), Decode(x.value.s, s, codecs));
          }
        } else if x.Some? {
          cur := Assign(cur, StrKey(f), Arr([]));
        }
        j := j + 1;
      }
      assert s.fields[..|s.fields|] == s.fields;
      r := Arr(Assign(data.entries, StrKey(alias), Arr(cur)));
    }

    /** `afterFind($Model, $results, $primary)`: every row of a non-empty
        result is unserialized and written back under its key. */
    method AfterFind(model: Model, results: Value, primary: bool) returns (r: Value)
      requires model.alias in settings && DecodeReady(settings[model.alias])
      ensures r == AfterFindResults(results, model.alias, settings[model.alias], codecs)
    {
      if PhpEmpty(results) || !results.Arr? {
        return results;
      }
      var es := results.entries;
      var s := settings[model.alias];
      ghost var rows := UnserializedRows(results, model.alias, s, codecs);
      var cur := es;
      var k := 0;
      while k < |es|
        invariant 0 <= k <= |es|
        invariant cur == AssignEach(es, rows, k)
      {
        var row := UnserializeRow(model, results, k);
        AssignEachNext(es, rows, k, cur, row);
        cur := Assign(cur, es[k].key, row);
        assert cur == AssignEach(es, rows, k + 1);
        k := k + 1;
        assert cur == AssignEach(es, rows, k);
      }
      r := Arr(cur);
    }

    /** One pass of the row loop of `afterFind`: the row at position `k`,
        unserialized. */
    method UnserializeRow(model: Model, results: Value, k: nat) returns (row: Value)
      requires model.alias in settings && DecodeReady(settings[model.alias])
      requires results.Arr? && k < |results.entries|
      ensures row == UnserializedRows(results, model.alias, settings[model.alias], codecs)[k]
    {
      row := Unserialize(model, results.entries[k].val);
    }

    /** `beforeSave($Model)`: the model's data is replaced by its
        serialization, and the save goes ahead. */
    method BeforeSave(model: Model) returns (ok: bool)
      requires model.alias in settings && EncodeReady(settings[model.alias])
      modifies model
      ensures ok
      ensures model.data == SerializeData(old(model.data), model.alias, settings[model.alias], codecs)
    {
      model.data := Serialize(model, model.data);
      ok := true;
    }
  }
}
