/**
 The XsvReader object: the settings a Unity inspector edits (delimiter, asset, path in
 Resources, header flag), their setters, and the instance readers, which hand the
 current settings to the static readers.
 */
module Reader {
  import opened XsvTypes
  import XsvReading

  /** string.IsNullOrEmpty: no string, or one without characters. */
  predicate IsNullOrEmpty(s: Option<string>): (r: bool)
    ensures r <==> s.None? || |s.value| == 0
  {
    s.None? || s.value == ""
  }

  /**
   The asset the XsvAsset getter leaves in its field: a set asset is kept, otherwise
   the one Resources.Load finds at a non-empty path (possibly none).
   */
  function ResolvedAsset(asset: Option<TextAsset>, path: Option<string>, load: string -> Option<TextAsset>)
    : (r: Option<TextAsset>)
    ensures asset.Some? ==> r == asset
    ensures asset.None? && IsNullOrEmpty(path) ==> r.None?
    ensures asset.None? && !IsNullOrEmpty(path) ==> r == load(path.value)
  {
    if asset.None? && !IsNullOrEmpty(path) then load(path.value) else asset
  }

  class XsvReader {
    var delimiter: Delimiter
    var xsvAsset: Option<TextAsset>
    var xsvPathInResources: Option<string>
    var headerEnable: bool

    /** The field initialisers: comma-separated, no asset, no path, header row skipped. */
    constructor ()
      ensures delimiter == Comma && xsvAsset == None && xsvPathInResources == None && headerEnable
    {
      delimiter := Comma;
      xsvAsset := None;
      xsvPathInResources := None;
      headerEnable := true;
    }

    method SetDelimiter(value: Delimiter)
      modifies this`delimiter
      ensures delimiter == value
      ensures xsvAsset == old(xsvAsset) && xsvPathInResources == old(xsvPathInResources)
      ensures headerEnable == old(headerEnable)
    {
      delimiter := value;
    }

    method SetXsvAsset(value: Option<TextAsset>)
      modifies this`xsvAsset
      ensures xsvAsset == value
      ensures delimiter == old(delimiter) && xsvPathInResources == old(xsvPathInResources)
      ensures headerEnable == old(headerEnable)
    {
      xsvAsset := value;
    }

    method SetXsvPathInResources(value: Option<string>)
      modifies this`xsvPathInResources
      ensures xsvPathInResources == value
      ensures delimiter == old(delimiter) && xsvAsset == old(xsvAsset)
      ensures headerEnable == old(headerEnable)
    {
      xsvPathInResources := value;
    }

    method SetHeaderEnable(value: bool)
      modifies this`headerEnable
      ensures headerEnable == value
      ensures delimiter == old(delimiter) && xsvAsset == old(xsvAsset)
      ensures xsvPathInResources == old(xsvPathInResources)
    {
      headerEnable := value;
    }

    /**
     The XsvAsset getter: when no asset is set and the path is not empty, the asset is
     loaded from Resources (the `load` parameter) and cached in the field.
     */
    method GetXsvAsset(load: string -> Option<TextAsset>) returns (asset: Option<TextAsset>)
      modifies this`xsvAsset
      ensures xsvAsset == ResolvedAsset(old(xsvAsset), xsvPathInResources, load)
      ensures asset == xsvAsset
    {
      if xsvAsset.None? && !IsNullOrEmpty(xsvPathInResources) {
        xsvAsset := load(xsvPathInResources.value);
      }
      asset := xsvAsset;
    }

    /** GetDictionary<TKey, TValue>() on the current settings. */
    method GetDictionary(io: Collaborators, shape: Shape, keyType: KeyType)
      returns (r: Result<Option<map<Value, Record>>>)
      modifies this`xsvAsset
      ensures xsvAsset == ResolvedAsset(old(xsvAsset), xsvPathInResources, io.load)
      ensures r == XsvReading.GetDictionary(io, shape, keyType, delimiter, xsvAsset, headerEnable)
    {
      var asset := GetXsvAsset(io.load);
      r := XsvReading.GetDictionary(io, shape, keyType, delimiter, asset, headerEnable);
    }

    /** GetDictionary<TValue>() on the current settings: string keys. */
    method GetStringDictionary(io: Collaborators, shape: Shape)
      returns (r: Result<Option<map<Value, Record>>>)
      modifies this`xsvAsset
      ensures xsvAsset == ResolvedAsset(old(xsvAsset), xsvPathInResources, io.load)
      ensures r == XsvReading.GetStringDictionary(io, shape, delimiter, xsvAsset, headerEnable)
    {
      var asset := GetXsvAsset(io.load);
      r := XsvReading.GetStringDictionary(io, shape, delimiter, asset, headerEnable);
    }

    /** GetList<TValue>() on the current settings. */
    method GetRecordList(io: Collaborators, shape: Shape) returns (r: Result<seq<Record>>)
      modifies this`xsvAsset
      ensures xsvAsset == ResolvedAsset(old(xsvAsset), xsvPathInResources, io.load)
      ensures r == XsvReading.GetRecordList(io, shape, delimiter, xsvAsset, headerEnable)
    {
      var asset := GetXsvAsset(io.load);
      r := XsvReading.GetRecordList(io, shape, delimiter, asset, headerEnable);
    }

    /** The raw GetList() on the current settings. */
    method GetList(io: Collaborators) returns (r: Result<Grid>)
      modifies this`xsvAsset
      ensures xsvAsset == ResolvedAsset(old(xsvAsset), xsvPathInResources, io.load)
      ensures xsvAsset.None? ==> r == Err(NullReference)
      ensures xsvAsset.Some? ==>
                var grid := io.parse(delimiter, xsvAsset.value.text);
                && (!headerEnable ==> r == Ok(grid))
                && (headerEnable && |grid| == 0 ==> r == Err(ArgumentOutOfRange))
                && (headerEnable && |grid| > 0 ==> r == Ok(grid[1..]))
    {
      var asset := GetXsvAsset(io.load);
      r := XsvReading.GetList(io, delimiter, asset, headerEnable);
    }
  }
}
