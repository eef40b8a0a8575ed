/**
 The static readers of XsvReader: ReadXsv, both GetDictionary overloads, GetList<TValue>,
 the raw GetList and GetListWithHeader. Each builds the caller's output shape from rows
 that the tokenizer or the deserializer (both collaborators) have already produced.
 */
module XsvReading {
  import opened XsvTypes
  import opened Linq
  import opened KeyColumn
  import opened Conversion

  /**
   ReadXsv: null for a missing asset; otherwise the header flag alone picks the
   header-keyed or the positional deserializer, and its `Rows` (possibly null) are
   returned as they are.
   */
  function ReadXsv(io: Collaborators, shape: Shape, delimiter: Delimiter, asset: Option<TextAsset>,
                   headerEnable: bool := true): (r: Result<Option<seq<Record>>>)
    ensures asset.None? ==> r == Ok(None)
    ensures asset.Some? && headerEnable ==> r == io.deserializeWithHeader(shape, delimiter, asset.value.text)
    ensures asset.Some? && !headerEnable ==> r == io.deserialize(shape, delimiter, asset.value.text)
  {
    match asset
    case None => Ok(None)
    case Some(a) =>
      if headerEnable then io.deserializeWithHeader(shape, delimiter, a.text)
      else io.deserialize(shape, delimiter, a.text)
  }

  /**
   The key selector handed to GroupBy: ToString() of the key member's value when TKey
   is string, otherwise the value cast to TKey.
   */
  function KeyOf(shape: Shape, keyType: KeyType, row: Record): (r: Result<Value>)
    ensures var v := GetKeyColumn(shape, row);
      && (keyType == StringKey ==> r == if v.Null? then Err(NullReference) else Ok(StringValue(ToString(v))))
      && (keyType == IntKey ==> r == if v.Null? then Err(NullReference) else if v.IntValue? then Ok(v) else Err(InvalidCast))
      && (keyType == ObjectKey ==> r == Ok(v))
    ensures r.Ok? && keyType == StringKey ==> r.value.StringValue?
    ensures r.Ok? && keyType == IntKey ==> r.value.IntValue?
  {
    var v := GetKeyColumn(shape, row);
    match keyType
    case StringKey => if v.Null? then Err(NullReference) else Ok(StringValue(ToString(v)))
    case IntKey =>
      if v.Null? then Err(NullReference)
      else if v.IntValue? then Ok(v)
      else Err(InvalidCast)
    case ObjectKey => Ok(v)
  }

  /** GroupBy evaluates the key selector on every row in order; the first exception escapes. */
  function RowKeys(shape: Shape, keyType: KeyType, rows: seq<Record>): (r: Result<seq<Value>>)
    ensures r.Ok? <==> forall i :: 0 <= i < |rows| ==> KeyOf(shape, keyType, rows[i]).Ok?
    ensures r.Ok? ==> |r.value| == |rows| && forall i :: 0 <= i < |rows| ==> r.value[i] == KeyOf(shape, keyType, rows[i]).value
    ensures r.Err? ==> exists i :: 0 <= i < |rows| && KeyOf(shape, keyType, rows[i]) == Err(r.error)
                                   && forall j :: 0 <= j < i ==> KeyOf(shape, keyType, rows[j]).Ok?
    decreases |rows|
  {
    if rows == [] then Ok([])
    else
      var init, last := rows[..|rows| - 1], rows[|rows| - 1];
      assert forall j :: 0 <= j < |init| ==> init[j] == rows[j];
      match RowKeys(shape, keyType, init)
      case Err(e) =>
        assert exists i :: 0 <= i < |rows| && KeyOf(shape, keyType, rows[i]) == Err(e)
                           && forall j :: 0 <= j < i ==> KeyOf(shape, keyType, rows[j]).Ok? by {
          var i :| 0 <= i < |init| && KeyOf(shape, keyType, init[i]) == Err(e)
                   && forall j :: 0 <= j < i ==> KeyOf(shape, keyType, init[j]).Ok?;
          assert rows[i] == init[i];
        }
        Err(e)
      case Ok(ks) =>
        match KeyOf(shape, keyType, last)
        case Err(e) =>
          assert KeyOf(shape, keyType, rows[|rows| - 1]) == Err(e);
          Err(e)
        case Ok(k) => Ok(ks + [k])
  }

  /**
   GroupBy(key).ToDictionary(x => x.Key, x => x.Last()) over the deserialized rows.
   Each key maps to the row at its last occurrence; the keys are exactly the rows' keys;
   a repeated key never fails, only a key-selector exception or a null key does.
   */
  function DictionaryOf(shape: Shape, keyType: KeyType, rows: seq<Record>): (r: Result<map<Value, Record>>)
    ensures rows == [] ==> r == Ok(map[])
    ensures var ks := RowKeys(shape, keyType, rows);
      && (ks.Err? ==> r == Err(ks.error))
      && (ks.Ok? && Null in ks.value ==> r == Err(ArgumentNull))
      && (r.Ok? <==> ks.Ok? && Null !in ks.value)
    ensures var ks := RowKeys(shape, keyType, rows);
      r.Ok? ==> && r.value.Keys == ToSet(ks.value)
                && forall k :: k in r.value ==> k in ks.value && r.value[k] == rows[LastIndex(ks.value, k)]
  {
    match RowKeys(shape, keyType, rows)
    case Err(e) => Err(e)
    case Ok(keys) =>
      var pairs := LastOfEachGroup(keys, rows);
      var d := ToDictionary(pairs, IsNull);
      assert (forall i :: 0 <= i < |pairs| ==> !IsNull(pairs[i].0)) <==> Null !in keys by {
        if Null in keys {
          assert Null in KeysOf(pairs);
        }
      }
      assert d.Ok? ==> forall k :: k in d.value ==> k in keys && d.value[k] == rows[LastIndex(keys, k)] by {
        if d.Ok? {
          forall k | k in d.value
            ensures k in keys && d.value[k] == rows[LastIndex(keys, k)]
          {
            var j :| 0 <= j < |pairs| && pairs[j].0 == k;
          }
        }
      }
      d
  }

  /** GetDictionary<TKey, TValue>: a null asset or null rows pass through as a null dictionary. */
  function GetDictionary(io: Collaborators, shape: Shape, keyType: KeyType, delimiter: Delimiter,
                         asset: Option<TextAsset>, headerEnable: bool := true): (r: Result<Option<map<Value, Record>>>)
    ensures asset.None? ==> r == Ok(None)
    ensures var read := ReadXsv(io, shape, delimiter, asset, headerEnable);
      && (read.Err? ==> r == Err(read.error))
      && (read == Ok(None) ==> r == Ok(None))
      && (read.Ok? && read.value.Some? ==>
            var d := DictionaryOf(shape, keyType, read.value.value);
            r == if d.Ok? then Ok(Some(d.value)) else Err(d.error))
  {
    match ReadXsv(io, shape, delimiter, asset, headerEnable)
    case Err(e) => Err(e)
    case Ok(None) => Ok(None)
    case Ok(Some(rows)) =>
      match DictionaryOf(shape, keyType, rows)
      case Err(e) => Err(e)
      case Ok(d) => Ok(Some(d))
  }

  /** GetDictionary<TValue>: the string-key mode of GetDictionary, so every key is a string. */
  function GetStringDictionary(io: Collaborators, shape: Shape, delimiter: Delimiter,
                               asset: Option<TextAsset>, headerEnable: bool := true): (r: Result<Option<map<Value, Record>>>)
    ensures r == GetDictionary(io, shape, StringKey, delimiter, asset, headerEnable)
    ensures r.Ok? && r.value.Some? ==> forall k :: k in r.value.value ==> k.StringValue?
  {
    var r := GetDictionary(io, shape, StringKey, delimiter, asset, headerEnable);
    assert r.Ok? && r.value.Some? ==> forall k :: k in r.value.value ==> k.StringValue? by {
      var read := ReadXsv(io, shape, delimiter, asset, headerEnable);
      if r.Ok? && r.value.Some? {
        var ks := RowKeys(shape, StringKey, read.value.value);
        forall k | k in r.value.value ensures k.StringValue? {
          var i :| 0 <= i < |ks.value| && ks.value[i] == k;
        }
      }
    }
    r
  }

  /**
   GetList<TValue>: the deserialized rows in order, duplicates kept. There is no null
   guard: ToList() on the null of a missing asset or of unset rows raises ArgumentNullException.
   */
  function GetRecordList(io: Collaborators, shape: Shape, delimiter: Delimiter,
                         asset: Option<TextAsset>, headerEnable: bool := true): (r: Result<seq<Record>>)
    ensures asset.None? ==> r == Err(ArgumentNull)
    ensures var read := ReadXsv(io, shape, delimiter, asset, headerEnable);
      && (read.Err? ==> r == Err(read.error))
      && (read == Ok(None) ==> r == Err(ArgumentNull))
      && (read.Ok? && read.value.Some? ==> r == Ok(read.value.value))
  {
    match ReadXsv(io, shape, delimiter, asset, headerEnable)
    case Err(e) => Err(e)
    case Ok(None) => Err(ArgumentNull)
    case Ok(Some(rows)) => Ok(rows)
  }

  /**
   The raw GetList: the parsed grid copied into a list, whose row 0 is removed in place
   when the header flag is set. `asset.text` on a null asset raises NullReferenceException,
   and RemoveAt(0) on an empty grid raises ArgumentOutOfRangeException.
   */
  method GetList(io: Collaborators, delimiter: Delimiter, asset: Option<TextAsset>, headerEnable: bool := true)
    returns (r: Result<Grid>)
    ensures asset.None? ==> r == Err(NullReference)
    ensures asset.Some? ==>
              var grid := io.parse(delimiter, asset.value.text);
              && (!headerEnable ==> r == Ok(grid))
              && (headerEnable && |grid| == 0 ==> r == Err(ArgumentOutOfRange))
              && (headerEnable && |grid| > 0 ==> r == Ok(grid[1..]))
  {
    if asset.None? {
      return Err(NullReference);
    }
    var parse := io.parse(delimiter, asset.value.text);
    var list := new List(parse);
    if headerEnable {
      var failure := list.RemoveAt(0);
      if failure.Some? {
        return Err(failure.value);
      }
      assert list.items == parse[1..];
    }
    return Ok(list.items);
  }

  /** Whether a header name is null: the parser's names are strings, never null. */
  predicate HeaderNameIsNull(name: string) { false }

  /** Select(x => x.ToDictionary(a => a.Key, a => a.Value)).ToList(): rows converted in order, the first failure escapes. */
  function HeaderRowsToDictionaries(rows: seq<HeaderRow>): (r: Result<seq<map<string, string>>>)
    ensures r.Ok? <==> forall i :: 0 <= i < |rows| ==> DistinctKeys(rows[i])
    ensures r.Err? ==> r.error == DuplicateKey
    ensures r.Ok? ==> |r.value| == |rows|
    ensures r.Ok? ==> forall i :: 0 <= i < |rows| ==>
                        && r.value[i].Keys == KeysOf(rows[i])
                        && forall j :: 0 <= j < |rows[i]| ==> r.value[i][rows[i][j].0] == rows[i][j].1
    decreases |rows|
  {
    if rows == [] then Ok([])
    else
      var init := rows[..|rows| - 1];
      match HeaderRowsToDictionaries(init)
      case Err(e) => Err(e)
      case Ok(ds) =>
        match ToDictionary(rows[|rows| - 1], HeaderNameIsNull)
        case Err(e) => Err(e)
        case Ok(d) => Ok(ds + [d])
  }

  /**
   GetListWithHeader: one dictionary per header-keyed data row, in the parser's order.
   There is no null guard: a null asset raises NullReferenceException.
   */
  function GetListWithHeader(io: Collaborators, delimiter: Delimiter, asset: Option<TextAsset>)
    : (r: Result<seq<map<string, string>>>)
    ensures asset.None? ==> r == Err(NullReference)
    ensures asset.Some? ==> r == HeaderRowsToDictionaries(io.parseWithHeader(delimiter, asset.value.text))
  {
    match asset
    case None => Err(NullReference)
    case Some(a) => HeaderRowsToDictionaries(io.parseWithHeader(delimiter, a.text))
  }
}
