/**
 The values the record-assembly layer of XsvReader works on: the outcome of a call
 (a value, or the .NET exception it raises), record shapes standing in for reflection,
 record instances, and the collaborators whose source is not part of this model.
 */
module XsvTypes {

  datatype Option<+T> = None | Some(value: T)

  /** A call either returns a value or raises one of the exceptions below. */
  datatype Result<+T> = Ok(value: T) | Err(error: Error)

  /** The .NET exceptions the assembly layer can raise, plus a failure of a collaborator. */
  datatype Error =
    | NullReference       // NullReferenceException: a member access or unboxing on null
    | ArgumentNull        // ArgumentNullException: a null LINQ source, a null dictionary key
    | InvalidCast         // InvalidCastException: unboxing a value of another type
    | ArgumentOutOfRange  // ArgumentOutOfRangeException: List.RemoveAt past the end
    | DuplicateKey        // ArgumentException: Dictionary.Add of a key already present
    | Deserialization(message: string)  // raised inside the deserializer

  /** XsvParser.Delimiter: CSV or TSV. */
  datatype Delimiter = Comma | Tab

  /** A boxed member value as reflection returns it: null, an int or a string. */
  datatype Value = Null | IntValue(i: int) | StringValue(s: string)

  predicate IsNull(v: Value) { v.Null? }

  datatype MemberKind = Field | Property

  /** One instance member of a record type; `isKey` says whether it carries [XsvKey]. */
  datatype Member = Member(name: string, kind: MemberKind, isKey: bool)

  /**
   The members of a record type in declaration order (fields and properties interleaved
   as declared); a member's declaration position is its index.
   */
  datatype Shape = Shape(members: seq<Member>)

  /** A record instance: `values[i]` is the value of the shape's member at position `i`. */
  datatype Record = Record(values: seq<Value>)

  /** What GetValue returns for the member at `position`; an absent position reads as null. */
  function ValueAt(instance: Record, position: nat): Value {
    if position < |instance.values| then instance.values[position] else Null
  }

  /** The TKey type argument of GetDictionary: string, int, or a reference type such as object. */
  datatype KeyType = StringKey | IntKey | ObjectKey

  /** A Unity TextAsset, reduced to its text. */
  datatype TextAsset = TextAsset(text: string)

  /** Rows of cells, as XsvParser.Parse returns them. */
  type Grid = seq<seq<string>>

  /** One data row of XsvParser.ParseWithHeader: (header name, cell) pairs in column order. */
  type HeaderRow = seq<(string, string)>

  /**
   The code this layer calls but whose source is not modelled: the tokenizer, the
   deserializer (one per record shape) and Unity's Resources.Load. A deserializer gives
   the `Rows` of the Data<TValue> it fills, which is null when it leaves them unset.
   */
  datatype Collaborators = Collaborators(
    parse: (Delimiter, string) -> Grid,
    parseWithHeader: (Delimiter, string) -> seq<HeaderRow>,
    deserialize: (Shape, Delimiter, string) -> Result<Option<seq<Record>>>,
    deserializeWithHeader: (Shape, Delimiter, string) -> Result<Option<seq<Record>>>,
    load: string -> Option<TextAsset>)
}
