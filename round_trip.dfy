/** What a configured field holds after `beforeSave` has serialized a
    record and `afterFind` (through `unserialize`) has read it back. */
module RoundTrip {
  import opened PhpValues
  import opened PhpStrings
  import opened Settings
  import opened Transcoder
  import opened Walker

  /** A present key makes the array non-empty. */
  lemma PresentNotEmpty(es: seq<Entry>, k: Key)
    requires Lookup(es, k).Some?
    ensures es != []
  {
  }

  /** After `serialize`, the alias entry is the serialized alias entry. */
  lemma AliasAfterSerialize(data: Value, alias: string, s: Settings, c: Codecs)
    requires EncodeReady(s) && !PhpEmpty(AliasValue(data, alias))
    ensures AliasValue(SerializeData(data, alias, s, c), alias) == SerializeValue(AliasValue(data, alias), s, c)
  {
    SerializeDataSpec(data, alias, s, c);
  }

  /** After `unserialize`, the alias entry of a record is the record with
      its fields decoded. */
  lemma AliasAfterUnserialize(data: Value, alias: string, s: Settings, c: Codecs)
    requires DecodeReady(s) && !PhpEmpty(AliasValue(data, alias)) && AliasValue(data, alias).Arr?
    ensures AliasValue(UnserializeData(data, alias, s, c), alias) ==
      Arr(DecodeFields(AliasValue(data, alias).entries, s.fields, s, c))
  {
    UnserializeDataSpec(data, alias, s, c);
  }

  /** A record without an entry 0 is never taken for a batch: its fields
      are encoded. */
  lemma SingleRecord(a: Value, s: Settings, c: Codecs)
    requires EncodeReady(s) && a.Arr? && a.entries != [] && Lookup(a.entries, IntKey(0)).None?
    ensures SerializeValue(a, s, c) == Arr(EncodeFields(a.entries, s.fields, s, c))
  {
    BatchIff(a.entries, s.fields);
  }

  /** A single record (no entry 0) with a configured field that holds a
      string or an array: the field's encoding takes its place. */
  lemma EncodedField(a: Value, s: Settings, c: Codecs, f: string, v: Value)
    requires EncodeReady(s) && Distinct(s.fields) && f in s.fields
    requires a.Arr? && Lookup(a.entries, IntKey(0)).None?
    requires Lookup(a.entries, StrKey(f)) == Some(v) && (v.Str? || v.Arr?)
    ensures SerializeValue(a, s, c).Arr?
    ensures Lookup(SerializeValue(a, s, c).entries, StrKey(f)) == Some(Encode(v, s, c))
  {
    PresentNotEmpty(a.entries, StrKey(f));
    SingleRecord(a, s, c);
    EncodeFieldsOnce(a.entries, s.fields, f, s, c);
  }

  /** The same record inside the data: `serialize` stores the field's
      encoding in place of it, and the record stays an array. */
  lemma SavedField(data: Value, alias: string, s: Settings, c: Codecs, f: string, v: Value)
    requires EncodeReady(s) && Distinct(s.fields) && f in s.fields
    requires AliasValue(data, alias).Arr? && Lookup(AliasValue(data, alias).entries, IntKey(0)).None?
    requires Lookup(AliasValue(data, alias).entries, StrKey(f)) == Some(v) && (v.Str? || v.Arr?)
    ensures AliasValue(SerializeData(data, alias, s, c), alias).Arr?
    ensures Lookup(AliasValue(SerializeData(data, alias, s, c), alias).entries, StrKey(f)) == Some(Encode(v, s, c))
  {
    var a := AliasValue(data, alias);
    PresentNotEmpty(a.entries, StrKey(f));
    assert !PhpEmpty(a);
    AliasAfterSerialize(data, alias, s, c);
    EncodedField(a, s, c, f, v);
  }

  /** A configured field of a record that holds a non-empty string is
      replaced by that string's decoding. */
  lemma DecodedField(a: Value, s: Settings, c: Codecs, f: string, text: string)
    requires DecodeReady(s) && Distinct(s.fields) && f in s.fields && a.Arr?
    requires Lookup(a.entries, StrKey(f)) == Some(Str(text)) && !PhpEmpty(Str(text))
    ensures Lookup(DecodeFields(a.entries, s.fields, s, c), StrKey(f)) == Some(Decode(text, s, c))
  {
    DecodeFieldsOnce(a.entries, s.fields, f, s, c);
  }

  /** The same record inside the data: `unserialize` reads the field back
      as that string's decoding. */
  lemma FoundField(data: Value, alias: string, s: Settings, c: Codecs, f: string, text: string)
    requires DecodeReady(s) && Distinct(s.fields) && f in s.fields
    requires AliasValue(data, alias).Arr?
    requires Lookup(AliasValue(data, alias).entries, StrKey(f)) == Some(Str(text)) && !PhpEmpty(Str(text))
    ensures AliasValue(UnserializeData(data, alias, s, c), alias).Arr?
    ensures Lookup(AliasValue(UnserializeData(data, alias, s, c), alias).entries, StrKey(f)) == Some(Decode(text, s, c))
  {
    var a := AliasValue(data, alias);
    PresentNotEmpty(a.entries, StrKey(f));
    assert !PhpEmpty(a);
    AliasAfterUnserialize(data, alias, s, c);
    DecodedField(a, s, c, f, text);
  }

  /** Saving then finding a record gives a configured field back as the
      decoding of its encoding, whenever that encoding is a non-empty
      string. */
  lemma SaveThenFind(data: Value, alias: string, s: Settings, c: Codecs, f: string, v: Value, text: string)
    requires EncodeReady(s) && DecodeReady(s) && Distinct(s.fields) && f in s.fields
    requires AliasValue(data, alias).Arr? && Lookup(AliasValue(data, alias).entries, IntKey(0)).None?
    requires Lookup(AliasValue(data, alias).entries, StrKey(f)) == Some(v) && (v.Str? || v.Arr?)
    requires Encode(v, s, c) == Str(text) && !PhpEmpty(Str(text))
    ensures Lookup(AliasValue(UnserializeData(SerializeData(data, alias, s, c), alias, s, c), alias).entries, StrKey(f))
      == Some(Decode(text, s, c))
  {
    SavedField(data, alias, s, c, f, v);
    FoundField(SerializeData(data, alias, s, c), alias, s, c, f, text);
  }

  /** With a custom template whose text after `%s` is exactly as long as
      the decoder's cut, a field whose elements are cut cleanly by the join
      delimiter comes back as the list of those elements (trimmed, and
      without repeats when `unique` is set); in particular a string field
      comes back as an array. */
  lemma TemplateSaveThenFind(data: Value, alias: string, s: Settings, c: Codecs, f: string, v: Value, pos: nat)
    requires s.format != "php" && s.format != "json" && SingleDirective(s.format) && !NumericLead(s.format)
    requires |SplitDelimiter(s.delimiter)| > 0 && |JoinDelimiter(s.delimiter)| > 0
    requires Distinct(s.fields) && f in s.fields
    requires AliasValue(data, alias).Arr? && Lookup(AliasValue(data, alias).entries, IntKey(0)).None?
    requires Lookup(AliasValue(data, alias).entries, StrKey(f)) == Some(v) && (v.Str? || v.Arr?)
    requires Find(s.format, Placeholder) == Some(pos) && |s.format| - pos - 2 == Dropped(pos)
    requires |Elements(v, s)| >= 1
    requires forall k :: 0 <= k < |Elements(v, s)| ==> CleanBefore(Elements(v, s)[k], JoinDelimiter(s.delimiter))
    requires !PhpEmpty(Str(CustomEncode(v, s)))
    ensures Lookup(AliasValue(UnserializeData(SerializeData(data, alias, s, c), alias, s, c), alias).entries, StrKey(f))
      == Some(ListOf(Elements(v, s)))
  {
    var text := CustomEncode(v, s);
    FormatDispatch(v, text, s, c);
    SaveThenFind(data, alias, s, c, f, v, text);
    CustomRoundTrip(v, s, pos);
  }
}
