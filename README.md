# SerializableBehavior in Dafny

A Dafny model of CakePHP's `SerializableBehavior`, a model behaviour that
packs configured fields of a record into one string before a save and
unpacks them after a find. The model covers:

- the per-model settings registry (`setup`);
- the format dispatch of `__serialize` / `__unserialize`, and in full the
  custom sprintf-template format: split, trim, `array_unique`, join and
  substitute on the way in; cut, split and trim on the way out, with the
  decoder's arithmetic as PHP 5/7 evaluates it;
- the walks `serialize` (single record or batch of records), `unserialize`
  and `afterFind`, and the hook `beforeSave`.

Modules:

- `PhpValues` (php_values.dfy) holds PHP values and ordered arrays, `empty()`,
  key lookup and in-place assignment, and string conversion.
- `PhpStrings` (php_strings.dfy) holds `trim`, `strpos`, `explode`, `implode`,
  `array_unique` and a clamped `substr`.
- `Settings` (settings.dfy) holds the defaults, `array_merge` over the four
  settings and the registry.
- `Transcoder` (transcoder.dfy) covers `__serialize` / `__unserialize`.
  `TranscoderExamples` works the documented `|%s|` example.
- `Walker` (walker.dfy) holds `serialize`, `unserialize` and `afterFind` as
  functions of the data and the alias's settings.
- `Behavior` (behavior.dfy) holds the classes `Model` and
  `SerializableBehavior`. Its methods carry the settings map and the loops of
  the PHP methods, and each method is proved to compute the matching `Walker`
  function.
- `RoundTrip` (round_trip.dfy) follows a field through `beforeSave` and then
  `afterFind`.

## Model

| member | source | states |
|---|---|---|
| PhpValues.Lookup | Model/Behavior/SerializableBehavior.php:129 | `array_key_exists`, and the read of `$a[$k]`: an entry is found exactly when `k` is one of the array's keys. A key holding null is found, and the `isset` test then rejects it through `Walker.Encodable`. |
| PhpValues.Assign | Model/Behavior/SerializableBehavior.php:130 | `$a[$k] = $v`: afterwards `k` holds `v` and every other key holds what it held. An existing key keeps its position; a new key is appended. |
| PhpValues.AssignEachInPlace | Model/Behavior/SerializableBehavior.php:123-126 | assigning new values to the array's own keys in order (a `foreach` writing back under `$key`) keeps keys and order and replaces the values one by one |
| PhpValues.AssignEachAll | Model/Behavior/SerializableBehavior.php:158-160 | after the whole loop, entry `k` keeps its key and holds the `k`-th new value; the count is unchanged |
| PhpStrings.Trim | Model/Behavior/SerializableBehavior.php:78 | `trim` answers a string no longer than its input, with no strippable character at either end |
| PhpStrings.TrimSlice | Model/Behavior/SerializableBehavior.php:78 | `trim` answers a contiguous slice of the string, and everything cut off before and after that slice is strippable characters |
| PhpStrings.TrimFixpoint | Model/Behavior/SerializableBehavior.php:78 | `trim` leaves a string alone exactly when neither end is strippable, and it is idempotent |
| PhpStrings.Find | Model/Behavior/SerializableBehavior.php:103 | `strpos` answers the first position where the needle occurs, or false when it occurs nowhere |
| PhpStrings.ImplodeExplode | Model/Behavior/SerializableBehavior.php:75 | joining the pieces of `explode` with the same delimiter gives the text back |
| PhpStrings.ExplodePiecesFree | Model/Behavior/SerializableBehavior.php:75 | no piece `explode` returns contains the delimiter |
| PhpStrings.ExplodeImplode | Model/Behavior/SerializableBehavior.php:110 | splitting a joined list gives the list back when every element is cut cleanly by the delimiter |
| PhpStrings.Unique | Model/Behavior/SerializableBehavior.php:81 | `array_unique` answers strings without repeats, the same set of strings, and no more of them |
| PhpStrings.UniqueFirstOccurrenceOrder | Model/Behavior/SerializableBehavior.php:81 | the survivors of `array_unique` come in the order of their first occurrences |
| PhpStrings.UniqueOfDistinct | Model/Behavior/SerializableBehavior.php:81 | `array_unique` is the identity on a list without repeats |
| PhpStrings.Substr | Model/Behavior/SerializableBehavior.php:106 | `substr` skips `start` characters and keeps at most `length` of the rest, clamped to the string; a negative length keeps nothing |
| Settings.Register | Model/Behavior/SerializableBehavior.php:53-59 | after `setup` the alias has settings, the set of aliases grows by that alias only, and other aliases keep theirs |
| Settings.FirstSetup | Model/Behavior/SerializableBehavior.php:46-58 | a model's first `setup` gives the defaults (no fields, 'php', ', ', unique) with the configured keys replaced |
| Settings.MergeThen | Model/Behavior/SerializableBehavior.php:58 | two merges are one merge of the combined configuration, last writer winning key by key |
| Settings.RegisterAllAccumulates | Model/Behavior/SerializableBehavior.php:53-59 | repeated `setup` calls accumulate over the model's earlier settings and never reset to the defaults; other models' settings are untouched |
| Transcoder.FormatOf | Model/Behavior/SerializableBehavior.php:64-73 | the format is 'php' exactly when the string is "php", 'json' exactly when it is "json", and a template in every other case |
| Transcoder.FormatDispatch | Model/Behavior/SerializableBehavior.php:64-102 | in both directions "php" and "json" reach the library codecs and every other format takes the custom template |
| Transcoder.Encode | Model/Behavior/SerializableBehavior.php:61-88 | `__serialize` answers a string, except that a failing `json_encode` answers false |
| Transcoder.ElementsSpec | Model/Behavior/SerializableBehavior.php:74-82 | the joined elements are trimmed. With `unique` they have no repeats and are exactly the trimmed pieces. Without it they are all the trimmed pieces, one per array value. |
| Transcoder.ElementsOfCleanList | Model/Behavior/SerializableBehavior.php:74-82 | a list that is already trimmed and without repeats passes through unchanged |
| Transcoder.CustomEncodeShape | Model/Behavior/SerializableBehavior.php:83 | the rendering is the text before `%s`, then the elements joined with the join delimiter, then the text after `%s` |
| Transcoder.Inner | Model/Behavior/SerializableBehavior.php:103-106 | without `%s` the whole text is kept. With `%s` at `pos` the first `pos` and the last `Dropped(pos)` characters go, or nothing is kept when the text is shorter than that. |
| Transcoder.DroppedOne | Model/Behavior/SerializableBehavior.php:105-106 | for `%s` among the first eight characters the decoder cuts exactly one trailing character |
| Transcoder.DroppedMore | Model/Behavior/SerializableBehavior.php:105-106 | for `%s` at position 8 or later the decoder cuts at least two trailing characters |
| Transcoder.BarePlaceholderLosesLast | Model/Behavior/SerializableBehavior.php:103-110 | with the bare template "%s" the decoder drops the last character of the stored text |
| Transcoder.CustomDecode | Model/Behavior/SerializableBehavior.php:108-110 | the custom decoder always answers a non-empty list (keys 0, 1, ...) of trimmed strings |
| Transcoder.CustomRoundTrip | Model/Behavior/SerializableBehavior.php:73-111 | when the text after `%s` is as long as the decoder's cut and every element is cut cleanly by the join delimiter, decoding the rendering gives back the encoded elements as a list |
| Transcoder.RenderedInner | Model/Behavior/SerializableBehavior.php:83-106 | under the same condition the decoder's cut recovers exactly the joined elements from the rendering |
| Transcoder.NonUniqueRoundTripCount | Model/Behavior/SerializableBehavior.php:80-110 | with `unique` off, an array decodes back to as many elements as it had, repeats included: the decoder never deduplicates |
| Transcoder.EmptyArrayDecodesToEmptyString | Model/Behavior/SerializableBehavior.php:73-111 | an empty array renders as the bare template, which decodes to one empty string rather than to an empty list |
| TranscoderExamples.DocumentedEncode | Model/Behavior/SerializableBehavior.php:22-28 | the documented template (`%s` between two pipe characters), delimiter `-` and data ['x', 'y', 'z'] render as x-y-z between two pipe characters |
| TranscoderExamples.PipeRoundTrip | Model/Behavior/SerializableBehavior.php:22-28 | with the documented template, decoding the rendering of a clean list (trimmed, without repeats, cut cleanly by `-`) gives the list back |
| TranscoderExamples.DocumentedExample | Model/Behavior/SerializableBehavior.php:22-28 | the documented example renders as stated in the docblock and that text decodes back to ['x', 'y', 'z'] |
| Walker.IntersectKey | Model/Behavior/SerializableBehavior.php:122 | `array_intersect_key` keeps exactly the entries of the first array whose key is a key of the second |
| Walker.BatchIff | Model/Behavior/SerializableBehavior.php:122 | the data is a batch exactly when entry 0 is a non-empty array and some field is configured, whatever the field names are |
| Walker.EncodeField | Model/Behavior/SerializableBehavior.php:129-131 | one pass of the field loop leaves the field encoded when it was set and held a string or an array, and as it was otherwise |
| Walker.EncodeFields | Model/Behavior/SerializableBehavior.php:128-132 | the field loop keeps the record's keys and leaves every unconfigured field unchanged |
| Walker.EncodeFieldsOnce | Model/Behavior/SerializableBehavior.php:128-132 | each configured field that is set and holds a string or an array is replaced by its encoding; a configured field that is absent, null, numeric or boolean is unchanged |
| Walker.SerializeDataSpec | Model/Behavior/SerializableBehavior.php:117-136 | `serialize` returns the data unchanged when the alias entry is empty. Otherwise only the alias entry is rewritten, in place: the other keys are kept, and an array stays an array with the same keys. |
| Walker.BatchShape | Model/Behavior/SerializableBehavior.php:122-126 | in a batch every record is serialized independently and written back under its own key: keys, order and count preserved |
| Walker.SingletonSerialize | Model/Behavior/SerializableBehavior.php:124-125 | the recursive call on `array(alias => $model)` answers the record serialized on its own, under the alias |
| Walker.DecodeField | Model/Behavior/SerializableBehavior.php:144-150 | one pass of the unserialize loop leaves the field decoded, emptied to `[]`, or as it was, according to its content |
| Walker.DecodeFields | Model/Behavior/SerializableBehavior.php:143-151 | the unserialize loop keeps the record's keys and leaves every unconfigured field unchanged |
| Walker.DecodeFieldsOnce | Model/Behavior/SerializableBehavior.php:143-151 | four outcomes per configured field: a non-empty string is decoded, a present empty value becomes `[]`, an absent field stays absent, and a non-empty non-string stays as it is |
| Walker.UnserializeDataSpec | Model/Behavior/SerializableBehavior.php:138-154 | `unserialize` returns the data unchanged when the alias entry is empty. Otherwise only the alias entry is rewritten, in place, with its fields decoded; the other keys are kept. |
| Walker.RowsShape | Model/Behavior/SerializableBehavior.php:156-164 | an empty result, or one that is not an array, comes back as it is. Otherwise every row is unserialized and written back under its key, with keys, order and count preserved. |
| Behavior.SerializableBehavior.constructor | Model/Behavior/SerializableBehavior.php:39 | a new behaviour has no settings |
| Behavior.SerializableBehavior.Setup | Model/Behavior/SerializableBehavior.php:53-59 | the settings map becomes `Settings.Register` of the old map: defaults seeded on the first call, then the configuration merged over them |
| Behavior.SerializableBehavior.Serialize | Model/Behavior/SerializableBehavior.php:117-136 | the method's result is `Walker.SerializeData` of its input under the model's settings |
| Behavior.SerializableBehavior.SerializeBatch | Model/Behavior/SerializableBehavior.php:122-126 | the batch loop, with its recursive calls, computes every record serialized and assigned under its key |
| Behavior.SerializableBehavior.EncodeRecord | Model/Behavior/SerializableBehavior.php:128-133 | the field loop computes `Walker.EncodeFields` over the configured fields |
| Behavior.SerializableBehavior.Unserialize | Model/Behavior/SerializableBehavior.php:138-154 | the method's result is `Walker.UnserializeData` of its input under the model's settings |
| Behavior.SerializableBehavior.AfterFind | Model/Behavior/SerializableBehavior.php:156-164 | the method's result is `Walker.AfterFindResults` of the find result |
| Behavior.SerializableBehavior.UnserializeRow | Model/Behavior/SerializableBehavior.php:159 | one pass of the row loop answers that row unserialized |
| Behavior.SerializableBehavior.BeforeSave | Model/Behavior/SerializableBehavior.php:166-170 | the model's data is replaced by its serialization and the hook answers true |
| RoundTrip.AliasAfterSerialize | Model/Behavior/SerializableBehavior.php:117-136 | after `serialize` the alias entry is the serialized alias entry |
| RoundTrip.AliasAfterUnserialize | Model/Behavior/SerializableBehavior.php:138-154 | after `unserialize` the alias entry of a record is that record with its fields decoded |
| RoundTrip.SingleRecord | Model/Behavior/SerializableBehavior.php:122-133 | a record without an entry 0 is never taken for a batch: its fields are encoded |
| RoundTrip.SavedField | Model/Behavior/SerializableBehavior.php:117-136 | in a single record, a configured field holding a string or an array is stored as its encoding |
| RoundTrip.FoundField | Model/Behavior/SerializableBehavior.php:138-154 | a configured field holding a non-empty string is read back as its decoding |
| RoundTrip.SaveThenFind | Model/Behavior/SerializableBehavior.php:117-154 | after a save and a find, such a field holds the decoding of its encoding whenever that encoding is a non-empty string |
| RoundTrip.TemplateSaveThenFind | Model/Behavior/SerializableBehavior.php:73-154 | with a custom template whose text after `%s` is as long as the decoder's cut, a field whose elements are cut cleanly comes back as the list of those elements (trimmed, without repeats when `unique`); a string field comes back as an array |

## Left out

- The PHP library codecs `serialize`, `unserialize`, `json_encode` and `json_decode` are not modelled. They are uninterpreted function fields of `Codecs`, which is given to the behaviour's constructor, and nothing is claimed about their round trips.
- `Multibyte` is not part of this model. `strpos`, `strlen` and `substr` act on characters, and `substr` is clamped to the string. No encoding is modelled.
- `sprintf` is modelled only for a format whose only `%` directive is one `%s`, or which has no directive at all. Other directives are outside the model (`Transcoder.EncodeReady`).
- The decoder's `strlen($settings['format'] - $pos - 2)` follows PHP 5/7, where a non-numeric format counts as 0. PHP 8 raises a TypeError there instead. The model excludes every format whose first character is a digit, a sign, `.` or whitespace (`Transcoder.NumericLead`, required by `Transcoder.DecodeReady`). That exclusion is wider than PHP's: formats such as `-%s-`, `+%s` or ` [%s]` are also read as 0 by PHP 5/7 and decode normally in the source, but the model does not cover them.
- An empty delimiter is excluded, because `explode` refuses it.
- A `delimiter` array other than a two-element pair is excluded, and so are configuration keys other than the four settings.
- Behavior.SerializableBehavior.Serialize, Unserialize, AfterFind and BeforeSave require the model's alias to have been set up. PHP would read null settings with warnings instead.
- An alias entry that is a non-empty string or number is left unchanged by `serialize` and `unserialize`. PHP's string-offset reads and writes on it are not modelled.
- Configured field names are string keys. PHP's conversion of numeric-string keys to integers, and a `fields` setting with non-list keys, are not modelled.
- Floating-point values are not modelled.
- An array element of a field that is itself an array converts to "", as the null that `trim` answers for it converts. The PHP warning is not modelled.
- How CakePHP registers a behaviour and invokes its hooks is not modelled. The `Model` class holds only the alias and the data, and the `$primary` argument of `afterFind` is unused, as in the source.
