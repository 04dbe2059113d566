/**
 * The header check of loading an HNSW index from a snapshot file.
 *
 * The header is read field by field: the encoding version, the algorithm tag, the
 * dimension and the data-type tag. The first field that is wrong ends the load with an
 * error whose message names what was read; a file that does not exist fails before any
 * field is read, and a file that ends before a field is read fails as truncated.
 */
module SnapshotHeader {
  import opened Decimal

  /** The encoding versions: up to 2 are no longer read, 3 and 4 are current, 5 and up are invalid. */
  const DeprecatedVersion: int := 2
  const VersionV3: int := 3
  const VersionV4: int := 4
  const InvalidVersion: int := 5

  /** Algorithm tags. */
  const AlgoBF: int := 0
  const AlgoHNSW: int := 1
  const AlgoTiered: int := 2

  /** Data-type tags. */
  const TypeFloat32: int := 0
  const TypeFloat64: int := 1

  /** A file that is not there, or the fields it holds, in the order they were written. */
  datatype Snapshot = Missing | Present(fields: seq<int>)

  datatype Header = Header(version: int, algo: int, dim: int, dataType: int)

  datatype LoadError =
    | CannotOpen
    | Truncated
    | Deprecated(version: int)
    | BadVersion(version: int)
    | WrongAlgorithm(algo: int)
    | BadDataType(dataType: int)

  datatype LoadResult = Loaded(header: Header) | Failed(error: LoadError)

  const UnknownName: string := "Unknown (corrupted file?)"

  function AlgoName(tag: int): (name: string)
    ensures name == UnknownName <==> tag !in {AlgoBF, AlgoHNSW, AlgoTiered}
  {
    if tag == AlgoBF then "FLAT"
    else if tag == AlgoHNSW then "HNSW"
    else if tag == AlgoTiered then "TIERED"
    else UnknownName
  }

  function TypeName(tag: int): (name: string)
    ensures name == UnknownName <==> tag !in {TypeFloat32, TypeFloat64}
  {
    if tag == TypeFloat32 then "FLOAT32"
    else if tag == TypeFloat64 then "FLOAT64"
    else UnknownName
  }

  const LoadPrefix: string := "Cannot load index: "

  /** The text of the runtime error each failure raises. */
  function Message(e: LoadError): (m: string)
    ensures e != CannotOpen ==> |m| > |LoadPrefix| && m[..|LoadPrefix|] == LoadPrefix
  {
    match e
    case CannotOpen => "Cannot open file"
    case Truncated => LoadPrefix + "unexpected end of file"
    case Deprecated(v) => LoadPrefix + "deprecated encoding version: " + IntToString(v)
    case BadVersion(v) => LoadPrefix + "bad encoding version: " + IntToString(v)
    case WrongAlgorithm(a) => LoadPrefix + "Expected HNSW file but got algorithm type: " + AlgoName(a)
    case BadDataType(t) => LoadPrefix + "bad index data type: " + TypeName(t)
  }

  predicate ValidHeader(h: Header) {
    && VersionV3 <= h.version < InvalidVersion
    && h.algo == AlgoHNSW
    && h.dataType in {TypeFloat32, TypeFloat64}
  }

  /** Read the header, stopping at the first field that is missing or wrong. */
  function Load(s: Snapshot): (r: LoadResult)
    ensures r.Loaded? ==> ValidHeader(r.header)
    ensures r.Loaded? ==> s.Present? && |s.fields| >= 4
  {
    if s.Missing? then Failed(CannotOpen)
    else
      var f := s.fields;
      if |f| < 1 then Failed(Truncated)
      else if f[0] <= DeprecatedVersion then Failed(Deprecated(f[0]))
      else if f[0] >= InvalidVersion then Failed(BadVersion(f[0]))
      else if |f| < 2 then Failed(Truncated)
      else if f[1] != AlgoHNSW then Failed(WrongAlgorithm(f[1]))
      else if |f| < 4 then Failed(Truncated)
      else if f[3] !in {TypeFloat32, TypeFloat64} then Failed(BadDataType(f[3]))
      else Loaded(Header(f[0], f[1], f[2], f[3]))
  }

  /** The fields a header is written as. */
  function Encode(h: Header): (f: seq<int>)
    ensures |f| == 4
  {
    [h.version, h.algo, h.dim, h.dataType]
  }

  // ---------------------------------------------------------------- properties

  /** A valid header, written and read back, whatever follows it. */
  lemma LoadEncode(h: Header, rest: seq<int>)
    requires ValidHeader(h)
    ensures Load(Present(Encode(h) + rest)) == Loaded(h)
  {
  }

  /** What loads is a valid header written at the start of the file. */
  lemma EncodeLoad(s: Snapshot)
    requires Load(s).Loaded?
    ensures s.Present? && s.fields == Encode(Load(s).header) + s.fields[4..]
  {
  }

  /** Fields written after the one that failed do not change the error, unless it was the end of the file. */
  lemma FirstFailureStands(f: seq<int>, more: seq<int>)
    requires Load(Present(f)).Failed? && Load(Present(f)).error != Truncated
    ensures Load(Present(f + more)) == Load(Present(f))
  {
  }

  /** Each error is raised exactly when the fields before it were right and it is wrong. */
  lemma FailureConditions(f: seq<int>)
    ensures Load(Present(f)).Failed? && Load(Present(f)).error.Deprecated?
      <==> |f| >= 1 && f[0] <= DeprecatedVersion
    ensures Load(Present(f)).Failed? && Load(Present(f)).error.BadVersion?
      <==> |f| >= 1 && f[0] >= InvalidVersion
    ensures Load(Present(f)).Failed? && Load(Present(f)).error.WrongAlgorithm?
      <==> |f| >= 2 && VersionV3 <= f[0] <= VersionV4 && f[1] != AlgoHNSW
    ensures Load(Present(f)).Failed? && Load(Present(f)).error.BadDataType?
      <==> |f| >= 4 && VersionV3 <= f[0] <= VersionV4 && f[1] == AlgoHNSW && f[3] !in {TypeFloat32, TypeFloat64}
  {
  }

  /** The message of a version error names the version that was read. */
  lemma VersionNamed(v: int, w: int)
    ensures Message(Deprecated(v)) == Message(Deprecated(w)) ==> v == w
    ensures Message(BadVersion(v)) == Message(BadVersion(w)) ==> v == w
  {
    var p := LoadPrefix + "deprecated encoding version: ";
    var q := LoadPrefix + "bad encoding version: ";
    if Message(Deprecated(v)) == Message(Deprecated(w)) {
      assert IntToString(v) == Message(Deprecated(v))[|p|..] == Message(Deprecated(w))[|p|..] == IntToString(w);
      IntToStringInjective(v, w);
    }
    if Message(BadVersion(v)) == Message(BadVersion(w)) {
      assert IntToString(v) == Message(BadVersion(v))[|q|..] == Message(BadVersion(w))[|q|..] == IntToString(w);
      IntToStringInjective(v, w);
    }
  }

  /** The files of the serializer test and the messages they fail with. */
  lemma RecordedMissing()
    ensures Message(Load(Missing).error) == "Cannot open file"
  {
  }

  lemma RecordedDeprecated()
    ensures Message(Load(Present([0])).error) == "Cannot load index: " + "deprecated encoding version: " + "0"
  {
    assert Load(Present([0])) == Failed(Deprecated(0));
    assert IntToString(0) == "0";
  }

  lemma RecordedBadVersion()
    ensures Message(Load(Present([42])).error) == "Cannot load index: " + "bad encoding version: " + "42"
  {
    assert Load(Present([42])) == Failed(BadVersion(42));
    assert IntToString(42) == "42" by {
      assert ToDecimal(4) == "4";
    }
  }

  lemma RecordedWrongAlgorithm()
    ensures Message(Load(Present([VersionV3, 42])).error)
      == "Cannot load index: " + "Expected HNSW file but got algorithm type: " + "Unknown (corrupted file?)"
  {
    assert Load(Present([VersionV3, 42])) == Failed(WrongAlgorithm(42));
    assert AlgoName(42) == UnknownName;
  }

  lemma RecordedBadDataType()
    ensures Message(Load(Present([VersionV3, AlgoHNSW, 128, 42])).error)
      == "Cannot load index: " + "bad index data type: " + "Unknown (corrupted file?)"
  {
    assert Load(Present([VersionV3, AlgoHNSW, 128, 42])) == Failed(BadDataType(42));
    assert TypeName(42) == UnknownName;
  }
}
