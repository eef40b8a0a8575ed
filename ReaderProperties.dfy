/**
 Properties that relate several readers or several key modes of XsvReader.
 */
module ReaderProperties {
  import opened XsvTypes
  import opened Linq
  import opened KeyColumn
  import opened Conversion
  import opened XsvReading

  /**
   A shape with no [XsvKey] member cannot build a dictionary from any row: the key is
   null, so ToString() or the unboxing cast raises NullReferenceException, and a
   reference TKey lets the null through to ToDictionary, which raises ArgumentNullException.
   */
  lemma NoKeyMemberFails(shape: Shape, keyType: KeyType, rows: seq<Record>)
    requires KeyMember(shape).None?
    requires |rows| > 0
    ensures DictionaryOf(shape, keyType, rows) == Err(if keyType == ObjectKey then ArgumentNull else NullReference)
  {
    assert KeyOf(shape, keyType, rows[0]) == if keyType == ObjectKey then Ok(Null) else Err(NullReference);
    if keyType == ObjectKey {
      assert RowKeys(shape, keyType, rows).value[0] == Null;
    } else {
      var ks := RowKeys(shape, keyType, rows);
      assert forall i :: 0 <= i < |rows| ==> KeyOf(shape, keyType, rows[i]) == Err(NullReference);
    }
  }

  /**
   Rows sharing a key collapse into one entry: the dictionary has at most one entry per
   row, and exactly one per row when no two rows share a key.
   */
  lemma DictionarySize(shape: Shape, keyType: KeyType, rows: seq<Record>)
    requires DictionaryOf(shape, keyType, rows).Ok?
    ensures var d := DictionaryOf(shape, keyType, rows).value;
            var ks := RowKeys(shape, keyType, rows).value;
            |d| <= |rows| && (|d| == |rows| <==> Distinct(ks))
  {
    var ks := RowKeys(shape, keyType, rows).value;
    ToSetCardinality(ks);
    assert |DictionaryOf(shape, keyType, rows).value| == |DictionaryOf(shape, keyType, rows).value.Keys|;
  }

  /**
   Whatever GetDictionary builds comes from the rows GetList<TValue> returns for the same
   arguments: each value is one of those rows, and there are no more entries than rows.
   */
  lemma DictionaryValuesAreListRows(io: Collaborators, shape: Shape, keyType: KeyType, delimiter: Delimiter,
                                    asset: Option<TextAsset>, headerEnable: bool)
    requires GetDictionary(io, shape, keyType, delimiter, asset, headerEnable).Ok?
    requires GetDictionary(io, shape, keyType, delimiter, asset, headerEnable).value.Some?
    ensures var d := GetDictionary(io, shape, keyType, delimiter, asset, headerEnable).value.value;
            var list := GetRecordList(io, shape, delimiter, asset, headerEnable);
            && list.Ok?
            && |d| <= |list.value|
            && forall k :: k in d ==> d[k] in list.value
  {
    var read := ReadXsv(io, shape, delimiter, asset, headerEnable);
    assert asset.Some? && read.Ok? && read.value.Some?;
    var rows := read.value.value;
    var built := DictionaryOf(shape, keyType, rows);
    assert built.Ok?;
    DictionarySize(shape, keyType, rows);
    var ks := RowKeys(shape, keyType, rows).value;
    forall k | k in built.value ensures built.value[k] in rows {
      assert built.value[k] == rows[LastIndex(ks, k)];
    }
  }

  /**
   When the key member holds ints, the string-key dictionary (GetDictionary<TValue>) and
   the int-key dictionary (GetDictionary<int, TValue>) hold the same entries: int key n
   is present exactly when its decimal text is, with the same row. No two int keys
   merge under their text, because Int32.ToString is injective.
   */
  lemma StringAndIntKeysAgree(shape: Shape, rows: seq<Record>)
    requires forall i :: 0 <= i < |rows| ==> GetKeyColumn(shape, rows[i]).IntValue?
    ensures DictionaryOf(shape, IntKey, rows).Ok? && DictionaryOf(shape, StringKey, rows).Ok?
    ensures var di, ds := DictionaryOf(shape, IntKey, rows).value, DictionaryOf(shape, StringKey, rows).value;
            && |di| == |ds|
            && forall n: int :: (IntValue(n) in di <==> StringValue(IntToString(n)) in ds)
                                && (IntValue(n) in di ==> di[IntValue(n)] == ds[StringValue(IntToString(n))])
  {
    var ki, ks := KeyModesCorrespond(shape, rows);
    forall a, b | IntToString(a) == IntToString(b) ensures a == b {
      IntToStringInjective(a, b);
    }
    assert InjectiveText(IntToString) && TextKeys(ki, ks, IntToString);
    var di, ds := DictionaryOf(shape, IntKey, rows).value, DictionaryOf(shape, StringKey, rows).value;
    forall n: int
      ensures (IntValue(n) in di <==> StringValue(IntToString(n)) in ds)
      ensures IntValue(n) in di ==> di[IntValue(n)] == ds[StringValue(IntToString(n))]
    {
      TextKeysCorrespond(ki, ks, IntToString, n);
    }
    KeyCorrespondenceSize(ki, ks, IntToString);
    assert |di| == |di.Keys| && |ds| == |ds.Keys|;
  }

  /** The int-key and string-key passes over int-keyed rows both succeed, position by position related by IntToString. */
  lemma KeyModesCorrespond(shape: Shape, rows: seq<Record>) returns (ki: seq<Value>, ks: seq<Value>)
    requires forall i :: 0 <= i < |rows| ==> GetKeyColumn(shape, rows[i]).IntValue?
    ensures RowKeys(shape, IntKey, rows) == Ok(ki) && RowKeys(shape, StringKey, rows) == Ok(ks)
    ensures Null !in ki && Null !in ks
    ensures |ki| == |ks|
    ensures forall i :: 0 <= i < |ki| ==> ki[i].IntValue? && ks[i] == StringValue(IntToString(ki[i].i))
  {
    assert forall i :: 0 <= i < |rows| ==> KeyOf(shape, IntKey, rows[i]).Ok? && KeyOf(shape, StringKey, rows[i]).Ok?;
    ki, ks := RowKeys(shape, IntKey, rows).value, RowKeys(shape, StringKey, rows).value;
  }

  /** `text` prints distinct ints as distinct strings. */
  ghost predicate InjectiveText(text: int -> string) {
    forall a, b :: text(a) == text(b) ==> a == b
  }

  /** String keys are the texts of int keys, position by position. */
  ghost predicate TextKeys(ki: seq<Value>, ks: seq<Value>, text: int -> string) {
    && |ki| == |ks|
    && forall i :: 0 <= i < |ki| ==> ki[i].IntValue? && ks[i] == StringValue(text(ki[i].i))
  }

  /** An int key and its text occur at the same positions, so their last occurrences coincide. */
  lemma TextKeysCorrespond(ki: seq<Value>, ks: seq<Value>, text: int -> string, n: int)
    requires InjectiveText(text) && TextKeys(ki, ks, text)
    ensures IntValue(n) in ki <==> StringValue(text(n)) in ks
    ensures IntValue(n) in ki ==> LastIndex(ki, IntValue(n)) == LastIndex(ks, StringValue(text(n)))
  {
    var t := StringValue(text(n));
    if IntValue(n) in ki {
      var j := LastIndex(ki, IntValue(n));
      assert ks[j] == t;
    }
    if t in ks {
      var j :| 0 <= j < |ks| && ks[j] == t;
      assert ki[j] == IntValue(n);
    }
  }

  /** The distinct string keys are exactly as many as the distinct int keys. */
  lemma {:induction false} KeyCorrespondenceSize(ki: seq<Value>, ks: seq<Value>, text: int -> string)
    requires InjectiveText(text) && TextKeys(ki, ks, text)
    ensures |ToSet(ki)| == |ToSet(ks)|
    decreases |ki|
  {
    if ki != [] {
      var n := |ki| - 1;
      var initI, initS := ki[..n], ks[..n];
      assert TextKeys(initI, initS, text);
      KeyCorrespondenceSize(initI, initS, text);
      TextKeysCorrespond(initI, initS, text, ki[n].i);
      assert ki == initI + [ki[n]] && ks == initS + [ks[n]];
      ToSetSnoc(initI, ki[n]);
      ToSetSnoc(initS, ks[n]);
      SnocCardinality(ToSet(initI), ki[n], ToSet(initS), ks[n]);
    }
  }

  lemma SnocCardinality<T>(a: set<T>, x: T, b: set<T>, y: T)
    requires |a| == |b| && (x in a <==> y in b)
    ensures |a + {x}| == |b + {y}|
  {
    if x in a {
      assert a + {x} == a && b + {y} == b;
    }
  }

  /** SampleColumns of the library's test: `id` is a field marked [XsvKey] and bound to column 0. */
  function SampleColumns(): (r: Shape)
    ensures |r.members| == 3 && KeyMember(r) == Some(0)
    ensures r.members[0] == Member("id", Field, true)
    ensures forall j :: 1 <= j < |r.members| ==> !r.members[j].isKey
  {
    Shape([Member("id", Field, true), Member("name", Field, false), Member("place", Field, false)])
  }

  function Sample(id: int, name: string, place: string): Record {
    Record([IntValue(id), StringValue(name), StringValue(place)])
  }

  lemma RowKeysFromKeys(shape: Shape, keyType: KeyType, rows: seq<Record>, keys: seq<Value>)
    requires |rows| == |keys|
    requires forall i :: 0 <= i < |rows| ==> KeyOf(shape, keyType, rows[i]) == Ok(keys[i])
    ensures RowKeys(shape, keyType, rows) == Ok(keys)
  {
    var r := RowKeys(shape, keyType, rows);
    assert r.Ok?;
    assert r.value == keys;
  }

  lemma SampleKeys(id: int, name: string, place: string)
    ensures KeyOf(SampleColumns(), IntKey, Sample(id, name, place)) == Ok(IntValue(id))
    ensures KeyOf(SampleColumns(), StringKey, Sample(id, name, place)) == Ok(StringValue(IntToString(id)))
  {
    assert KeyMember(SampleColumns()) == Some(0);
  }

  /** A dictionary is pinned down by its row keys: the keys present and the row at each key's last occurrence. */
  lemma DictionaryFromKeys(shape: Shape, keyType: KeyType, rows: seq<Record>, keys: seq<Value>,
                           expected: map<Value, Record>)
    requires RowKeys(shape, keyType, rows) == Ok(keys) && Null !in keys
    requires expected.Keys == ToSet(keys)
    requires forall k :: k in expected ==> k in keys && expected[k] == rows[LastIndex(keys, k)]
    ensures DictionaryOf(shape, keyType, rows) == Ok(expected)
  {
    var m := DictionaryOf(shape, keyType, rows).value;
    SameLastWinsMap(rows, keys, m, expected);
  }

  lemma SameLastWinsMap(rows: seq<Record>, keys: seq<Value>, m: map<Value, Record>, expected: map<Value, Record>)
    requires m.Keys == ToSet(keys) && expected.Keys == ToSet(keys)
    requires |keys| == |rows|
    requires forall k :: k in m ==> k in keys && m[k] == rows[LastIndex(keys, k)]
    requires forall k :: k in expected ==> k in keys && expected[k] == rows[LastIndex(keys, k)]
    ensures m == expected
  {
  }

  lemma SampleTexts()
    ensures IntToString(10) == "10" && IntToString(100) == "100"
  {
    assert NatToString(1) == "1";
    assert NatToString(10) == "10";
  }

  /**
   The rows 10/Bob and 100/Michael of the library's test, keyed by the int field `id`
   and looked up as dic[10] (GetDictionary<int, SampleColumns>).
   */
  lemma SampleIntKeyScenario()
    ensures var bob := Sample(10, "Bob", "State of Connecticut");
            var michael := Sample(100, "Michael", "Manhattan Borough\nNew York County");
            DictionaryOf(SampleColumns(), IntKey, [bob, michael]) == Ok(map[IntValue(10) := bob, IntValue(100) := michael])
  {
    var bob := Sample(10, "Bob", "State of Connecticut");
    var michael := Sample(100, "Michael", "Manhattan Borough\nNew York County");
    var rows := [bob, michael];
    SampleKeys(10, "Bob", "State of Connecticut");
    SampleKeys(100, "Michael", "Manhattan Borough\nNew York County");
    var ki := [IntValue(10), IntValue(100)];
    RowKeysFromKeys(SampleColumns(), IntKey, rows, ki);
    var expected := map[IntValue(10) := bob, IntValue(100) := michael];
    assert ToSet(ki) == expected.Keys;
    assert LastIndex(ki, IntValue(10)) == 0 && LastIndex(ki, IntValue(100)) == 1;
    DictionaryFromKeys(SampleColumns(), IntKey, rows, ki, expected);
  }

  /** The same rows looked up as dic["10"] (GetDictionary<SampleColumns>, string keys). */
  lemma SampleStringKeyScenario()
    ensures var bob := Sample(10, "Bob", "State of Connecticut");
            var michael := Sample(100, "Michael", "Manhattan Borough\nNew York County");
            DictionaryOf(SampleColumns(), StringKey, [bob, michael]) == Ok(map[StringValue("10") := bob, StringValue("100") := michael])
  {
    var bob := Sample(10, "Bob", "State of Connecticut");
    var michael := Sample(100, "Michael", "Manhattan Borough\nNew York County");
    var rows := [bob, michael];
    SampleTexts();
    SampleKeys(10, "Bob", "State of Connecticut");
    SampleKeys(100, "Michael", "Manhattan Borough\nNew York County");
    var ks := [StringValue("10"), StringValue("100")];
    RowKeysFromKeys(SampleColumns(), StringKey, rows, ks);
    var expected := map[StringValue("10") := bob, StringValue("100") := michael];
    assert ToSet(ks) == expected.Keys;
    assert LastIndex(ks, StringValue("10")) == 0 && LastIndex(ks, StringValue("100")) == 1;
    DictionaryFromKeys(SampleColumns(), StringKey, rows, ks, expected);
  }

  /** A later row repeating id 10 replaces the earlier one: the latest row wins. */
  lemma SampleLastWinsScenario()
    ensures var bob := Sample(10, "Bob", "State of Connecticut");
            var michael := Sample(100, "Michael", "Manhattan Borough\nNew York County");
            var ann := Sample(10, "Ann", "Hartford");
            DictionaryOf(SampleColumns(), IntKey, [bob, michael, ann]) == Ok(map[IntValue(10) := ann, IntValue(100) := michael])
  {
    var bob := Sample(10, "Bob", "State of Connecticut");
    var michael := Sample(100, "Michael", "Manhattan Borough\nNew York County");
    var ann := Sample(10, "Ann", "Hartford");
    var rows := [bob, michael, ann];
    SampleKeys(10, "Bob", "State of Connecticut");
    SampleKeys(100, "Michael", "Manhattan Borough\nNew York County");
    SampleKeys(10, "Ann", "Hartford");
    var ki := [IntValue(10), IntValue(100), IntValue(10)];
    RowKeysFromKeys(SampleColumns(), IntKey, rows, ki);
    var expected := map[IntValue(10) := ann, IntValue(100) := michael];
    assert ToSet(ki) == expected.Keys;
    assert LastIndex(ki, IntValue(10)) == 2 && LastIndex(ki, IntValue(100)) == 1;
    DictionaryFromKeys(SampleColumns(), IntKey, rows, ki, expected);
  }
}
