# XsvReader record-collection assembly, in Dafny

This project models the assembly layer of `Monry.XsvUtility.XsvReader`, the Unity helper
that turns a CSV or TSV `TextAsset` into collections. The helper's own code never splits text or
fills records. It hands that work to the tokenizer (`XsvParser.Parse` and `ParseWithHeader`)
and to the deserializer (`InternalSerializer.Deserialize` and `DeserializeWithHeader`). It then
builds the caller's shape from what they return:

- **Key selection.** `GetKeyColumn` finds the primary-key member of a record type. The first
  field marked `[XsvKey]` wins, then the first marked property; otherwise there is no key.
- **Keyed dictionaries.** `GetDictionary<TKey, TValue>` and `GetDictionary<TValue>` group the
  rows by key, keep the last row of each group, and build a dictionary. The latest row wins,
  and a string `TKey` uses the key's `ToString()`.
- **Row lists.** `GetList<TValue>` returns the deserialized rows.
- **Raw grid.** The raw `GetList` returns the parsed grid. With the header flag set, row 0 is
  removed in place.
- **Header-keyed rows.** `GetListWithHeader` builds one dictionary per header-keyed row.
- **Null assets.** `ReadXsv` lets a missing asset through as null.
- **The reader object.** An `XsvReader` holds its settings in four fields. Each has a setter,
  and the instance overloads forward the current settings to the static readers.

The modules are:

- `XsvTypes`: values, records, record shapes (reflection as an explicit member list),
  .NET exceptions as `Error`, and the `Collaborators` that stand for the parser, the
  deserializer and `Resources.Load`.
- `Conversion`: `Int32.ToString` in the invariant culture, with its inverse and injectivity.
- `Linq`: the .NET operators the pipelines use, on values (`ToDictionary`, `GroupBy`, `Last`,
  `List.RemoveAt`), and an in-place `List` class.
- `KeyColumn`: key-member selection.
- `XsvReading`: the static readers.
- `Reader`: the `XsvReader` class.
- `ReaderProperties`: lemmas that relate several readers or key modes, and the library's
  sample rows worked through.

Two behaviours of the code for degenerate inputs:

- `GetKeyColumn` has no fallback to a column-bound member. With no `[XsvKey]` member it
  returns null (line 97), and building a dictionary from any non-empty rows then raises.
- A missing asset gives a null dictionary from `GetDictionary`, `ArgumentNullException`
  from `GetList<TValue>`, and `NullReferenceException` from the raw `GetList` and
  `GetListWithHeader`. Unset `Rows` from the deserializer give a null dictionary and
  `ArgumentNullException` in the same way.

The static readers take `headerEnable` with the default `true`, as the C# overloads do.

## Model

| member | source | states |
|---|---|---|
| KeyColumn.FirstKeyOfKind | Scripts/XsvReader.cs:79-85 | the result is the first position at or after `from` whose member has the given kind and is marked as a key; none exactly when no such member exists |
| KeyColumn.KeyMember | Scripts/XsvReader.cs:76-98 | precedence: a marked field beats any marked property; the chosen member is marked and no earlier member of its kind is; none exactly when no member is marked, with no fallback to unmarked members |
| KeyColumn.GetKeyColumn | Scripts/XsvReader.cs:76-98 | the key value is the instance's value at the key member, or null when the shape has no key member |
| XsvReading.ReadXsv | Scripts/XsvReader.cs:105-122 | null for a missing asset; otherwise the header flag (default true) alone picks the deserializer, whose `Rows`, null or not, or exception are passed through unchanged |
| XsvReading.KeyOf | Scripts/XsvReader.cs:137-146 | string mode gives the key's `ToString()` and raises on a null key; int mode unboxes an int, raises NullReference on null and InvalidCast on other values; object mode passes the value through |
| XsvReading.RowKeys | Scripts/XsvReader.cs:136-147 | succeeds exactly when every row's key succeeds, giving the keys position by position; otherwise fails with the error of the first failing row |
| XsvReading.DictionaryOf | Scripts/XsvReader.cs:135-148 | last-wins: every key maps to the row at its last occurrence; the keys are exactly the rows' keys; repeated keys never fail; it fails only on a key-selector exception (passed on) or a null key (ArgumentNull) |
| XsvReading.GetDictionary | Scripts/XsvReader.cs:130-149 | a missing asset or null `Rows` give a null dictionary (`?.`); a deserializer error is passed on; otherwise the result is DictionaryOf of the deserialized rows |
| XsvReading.GetStringDictionary | Scripts/XsvReader.cs:156-162 | equals GetDictionary in string-key mode, and every key of the result is a string |
| XsvReading.GetRecordList | Scripts/XsvReader.cs:169-175 | the deserialized rows in order with duplicates kept; a missing asset or null `Rows` raise ArgumentNull from `ToList()` |
| XsvReading.GetList | Scripts/XsvReader.cs:181-194 | a missing asset raises NullReference; without the header flag the result is the parsed grid; with it, the grid minus row 0, or ArgumentOutOfRange when the grid is empty |
| XsvReading.HeaderRowsToDictionaries | Scripts/XsvReader.cs:204-205 | one dictionary per row, same count and order; each has exactly the row's header names as keys, each mapped to its cell; fails with a duplicate-key error exactly when some row repeats a header name |
| XsvReading.GetListWithHeader | Scripts/XsvReader.cs:200-206 | a missing asset raises NullReference; otherwise HeaderRowsToDictionaries of the header-keyed parse |
| Linq.ToDictionary | Scripts/XsvReader.cs:148 | succeeds exactly when no key is null and no key repeats; the map's keys are the pairs' keys and each key maps to its value; otherwise it raises ArgumentNull for a null key or a duplicate-key error |
| Linq.Last | Scripts/XsvReader.cs:148 | `x.Last()` of a non-empty group is its final element: the group is its other elements followed by the result |
| Linq.LastIndex | Scripts/XsvReader.cs:148 | the position of the last occurrence of a present key: the key is there and at no later position |
| Linq.Insert | Scripts/XsvReader.cs:136 | adding an element keeps group keys distinct and groups non-empty, adds its key to the key set, and appends it to its own key's group only |
| Linq.GroupBy | Scripts/XsvReader.cs:136-147 | one non-empty group per distinct key, with group keys exactly the item keys; each key's group holds the items with that key in source order |
| Linq.LookupAt | Scripts/XsvReader.cs:136 | with distinct group keys, looking up a group's key finds that group's elements |
| Linq.LastOfElementsWithKey | Scripts/XsvReader.cs:148 | the group of a present key is non-empty, and its `Last()` is the item at the key's last occurrence |
| Linq.LastOfEachGroup | Scripts/XsvReader.cs:136-148 | the (Key, Last()) pairs have distinct keys, exactly the item keys, each paired with the item at the key's last occurrence |
| Linq.RemovedAt | Scripts/XsvReader.cs:190 | an index not below the count raises ArgumentOutOfRange; otherwise one item shorter, with the items before the index kept and the later ones moved down by one |
| Linq.List.constructor | Scripts/XsvReader.cs:187 | `ToList()` holds the source's items in order |
| Linq.List.RemoveAt | Scripts/XsvReader.cs:190 | in place: the new items are RemovedAt of the old ones; on an out-of-range index it raises and leaves the list unchanged |
| Conversion.NatToString | Scripts/XsvReader.cs:142 | decimal text is non-empty, all digits, and has no leading zero |
| Conversion.IntToString | Scripts/XsvReader.cs:142 | the text of an int starts with '-' exactly when the int is negative, and ParseInt reads the text back to the int |
| Conversion.ToString | Scripts/XsvReader.cs:142 | `ToString()` of a boxed string is the string itself; of a boxed int, its decimal text, which reads back to the int |
| Conversion.ParseNatOfNatToString | Scripts/XsvReader.cs:142 | reading back the decimal text of a natural number gives the number |
| Conversion.IntToStringInjective | Scripts/XsvReader.cs:142 | two ints have the same text exactly when they are equal |
| ReaderProperties.NoKeyMemberFails | Scripts/XsvReader.cs:97 | a shape with no marked member cannot build a dictionary from any non-empty rows: NullReference in string and int mode, ArgumentNull in object mode |
| ReaderProperties.DictionarySize | Scripts/XsvReader.cs:136-148 | the dictionary has at most one entry per row, and exactly one per row exactly when the row keys are distinct |
| ReaderProperties.DictionaryValuesAreListRows | Scripts/XsvReader.cs:130-175 | whenever GetDictionary builds a dictionary, GetList<TValue> on the same arguments succeeds; every dictionary value is one of its rows, and there are no more entries than rows |
| ReaderProperties.StringAndIntKeysAgree | Scripts/XsvReader.cs:140-145 | on int-keyed rows, string and int mode both succeed with the same number of entries; int key n is present exactly when its text is, mapped to the same row |
| ReaderProperties.KeyModesCorrespond | Scripts/XsvReader.cs:140-145 | on int-keyed rows both key passes succeed without nulls, and the string key at each position is the text of the int key |
| ReaderProperties.TextKeysCorrespond | Scripts/XsvReader.cs:140-145 | under an injective text function, an int key and its text occur at the same positions, so their last occurrences coincide |
| ReaderProperties.KeyCorrespondenceSize | Scripts/XsvReader.cs:140-145 | under an injective text function, there are as many distinct text keys as distinct int keys |
| ReaderProperties.RowKeysFromKeys | Scripts/XsvReader.cs:136-147 | when each row's key is known, the key pass gives exactly those keys |
| ReaderProperties.SampleColumns | Tests/EditMode/Scripts/XsvReaderTest.cs:12-17 | the test struct has three fields; `id` at position 0 is the only one marked `[XsvKey]`, so it is the key member |
| ReaderProperties.SampleKeys | Tests/EditMode/Scripts/XsvReaderTest.cs:12-17 | the sample shape's key is its `id` field: int mode gives the id and string mode its text |
| ReaderProperties.DictionaryFromKeys | Scripts/XsvReader.cs:136-148 | the dictionary is determined by the row keys: the keys present, and the row at each key's last occurrence |
| ReaderProperties.SameLastWinsMap | Scripts/XsvReader.cs:148 | two maps with the same keys whose every key maps to the row at its last occurrence are equal |
| ReaderProperties.SampleTexts | Tests/EditMode/Scripts/XsvReaderTest.cs:56-58 | the texts of 10 and 100 are "10" and "100" |
| ReaderProperties.SampleIntKeyScenario | Tests/EditMode/Scripts/XsvReaderTest.cs:61-64 | the sample rows keyed by int give {10: Bob, 100: Michael} |
| ReaderProperties.SampleStringKeyScenario | Tests/EditMode/Scripts/XsvReaderTest.cs:55-58 | the sample rows keyed by string give {"10": Bob, "100": Michael} |
| ReaderProperties.SampleLastWinsScenario | Scripts/XsvReader.cs:136-148 | with a third row repeating id 10, that later row replaces Bob |
| Reader.IsNullOrEmpty | Scripts/XsvReader.cs:36 | `string.IsNullOrEmpty` holds exactly for no string or a string without characters |
| Reader.ResolvedAsset | Scripts/XsvReader.cs:32-44 | a set asset is kept; with no asset and an empty path there is none; otherwise the asset is what the loader finds at the path |
| Reader.XsvReader.constructor | Scripts/XsvReader.cs:14-24 | the field initialisers: comma, no asset, no path, header flag set |
| Reader.XsvReader.SetDelimiter | Scripts/XsvReader.cs:26-30 | sets the delimiter and changes no other field |
| Reader.XsvReader.SetXsvAsset | Scripts/XsvReader.cs:43 | sets the asset and changes no other field |
| Reader.XsvReader.SetXsvPathInResources | Scripts/XsvReader.cs:46-50 | sets the path and changes no other field |
| Reader.XsvReader.SetHeaderEnable | Scripts/XsvReader.cs:52-56 | sets the header flag and changes no other field |
| Reader.XsvReader.GetXsvAsset | Scripts/XsvReader.cs:32-42 | caches and returns the resolved asset, changing only the asset field |
| Reader.XsvReader.GetDictionary | Scripts/XsvReader.cs:214-217 | the static GetDictionary on the current delimiter, resolved asset and header flag |
| Reader.XsvReader.GetStringDictionary | Scripts/XsvReader.cs:224-227 | the static string-key GetDictionary on the current settings |
| Reader.XsvReader.GetRecordList | Scripts/XsvReader.cs:234-237 | the static GetList<TValue> on the current settings |
| Reader.XsvReader.GetList | Scripts/XsvReader.cs:243-246 | the raw GetList on the current settings: NullReference with no asset; otherwise the grid, or the grid minus row 0 under the header flag, with ArgumentOutOfRange for an empty grid |

Helper lemmas without a row are proof steps for the members above. They split key sets, set
sizes and key distinctness into the part before the last element and the last element:
`Linq.PairsSnoc`, `Linq.GroupKeysCons`, `Linq.ToSetSnoc`, `Linq.ToSetCardinality` (used by
`DictionarySize`) and `ReaderProperties.SnocCardinality` (used by `KeyCorrespondenceSize`).

## Left out

- `XsvParser.Parse`, `XsvParser.ParseWithHeader`, `InternalSerializer.Deserialize` and `InternalSerializer.DeserializeWithHeader` are not part of this model. They are uninterpreted functions in `Collaborators`: text to grid, text to header rows, and text to records or an error. Quoting, tokenizing and field coercion are not specified.
- `Resources.Load` is the `load` function of `Collaborators`. It is opaque engine I/O that returns an asset or none.
- Reflection and attribute discovery are replaced by an explicit member list. The model assumes `GetFields` and `GetProperties` return members in declaration order, which .NET does not guarantee.
- Unity's overloaded `==`, under which a destroyed asset compares equal to null, is not modelled. An asset is either present or absent.
- Record values are a sequence aligned with the shape. A position past its end reads as null, which stands for a default or unset member.
- `TKey` ranges over three modes: string, int, and a reference type that takes the boxed value unchanged. Other value types, and casts that convert, are not modelled.
- `Conversion.IntToString` uses the invariant culture's "-" sign. A culture with another negative sign is not modelled, and neither is `Int32` range.
- `Data<TValue>` and its `AOTWorkaround` stub, the serialization attributes and the tooltips carry no behaviour and are left out. The `Rows` property is modelled by the deserializer returning an optional record sequence, with none for unset rows.
- An unknown `Delimiter` enum value is not modelled. `Delimiter` is Comma or Tab.
- XsvReading.ReadXsv: the deserializer is assumed to raise before it yields any row. If its `Rows` were lazy and failed part-way, a key-selector exception on an earlier row would escape first from `GetDictionary`; the model lets the deserializer's error win. LINQ laziness is otherwise not modelled.
- Header-keyed rows are sequences of (header, cell) pairs. A repeated header name makes `ToDictionary` raise. Whether the parser can produce one is a property of the parser, which is not part of this model.
- The test harness logs through `Debug.Log` and asserts nothing, so it is not modelled. Its sample rows appear as the `Sample…` lemmas.
- The fixture structs in `Tests/EditMode/Scripts/Fixture/Item.cs` have no `[XsvKey]` member. `ReaderProperties.NoKeyMemberFails` covers that shape.
