/**
 * The space codec: `Encode` maps a space description to its wire message,
 * `Decode` maps a wire message back. Numeric payloads go through the array
 * codec `c`; `f` is the array format asked of it.
 */
module SpaceCodec {
  import opened Wrappers
  import opened NDArrays
  import opened Spaces

  /**
   * The size array a MultiBinary is sent with: an array as it is, an int as
   * the one-element int32 array `[k]`, anything else converted to int32.
   */
  function SizeArray(size: MultiBinarySize): (a: Array)
    ensures size.IntSize? ==> a.shape == [1] && a.data == [size.k]
    ensures size.ArraySize? ==> a == size.a
    ensures !size.ArraySize? ==> a.dtype == Int32
    ensures size.OtherSize? ==> a.shape == size.like.shape && a.data == size.like.data
  {
    match size
    case ArraySize(a) => a
    case IntSize(k) => Int32Vector([k])
    case OtherSize(like) => NDArray(like.shape, Int32, like.data)
  }

  /**
   * Encodes a space. Sub-spaces of a Dict are encoded with the STRUCTURED
   * format whatever `f` is: the recursive call does not pass `f` on.
   */
  function Encode(s: Space, f: Format, c: ArrayCodec): (r: Result<Wire, CodecError>)
    ensures r.Ok? <==> Supported(s)
    ensures r.Ok? ==> !r.value.Unset? && !r.value.UnknownKind? && WireKind(r.value) == SpaceKind(s)
    ensures r.Err? ==> r.error.UnsupportedSpaceType? && ContainsUnsupported(s, r.error.name)
    decreases s
  {
    match s
    case Discrete(n, start) => Ok(WDiscrete(n, start))
    case Box(low, high, _, _) => Ok(WBox(c.serialize(low, f), c.serialize(high, f)))
    case MultiBinary(size) => Ok(WMultiBinary(c.serialize(SizeArray(size), f)))
    case MultiDiscrete(nvec) => Ok(WMultiDiscrete(c.serialize(nvec, f)))
    case Dict(entries) =>
      var spaces :- EncodeEntries(entries, c);
      Ok(WDict(spaces))
    case Unsupported(typeName) => Err(UnsupportedSpaceType(typeName))
  }

  /** Encodes Dict entries in order; the first unsupported sub-space aborts. */
  function EncodeEntries(entries: seq<(string, Space)>, c: ArrayCodec): (r: Result<seq<SubSpace>, CodecError>)
    ensures r.Ok? <==> forall i :: 0 <= i < |entries| ==> Supported(entries[i].1)
    ensures r.Err? ==> r.error.UnsupportedSpaceType?
    ensures r.Err? ==> exists i :: 0 <= i < |entries| && ContainsUnsupported(entries[i].1, r.error.name)
    decreases entries
  {
    if |entries| == 0 then Ok([])
    else
      assert entries[0] in entries && entries[0].1 < entries[0];
      var sub :- Encode(entries[0].1, Structured, c);
      var rest :- EncodeEntries(entries[1..], c);
      assert forall i :: 1 <= i < |entries| ==> entries[i] == entries[1..][i - 1];
      Ok([SubSpace(entries[0].0, sub)] + rest)
  }

  /**
   * The size `n` the decoder hands to MultiBinary: the array itself when it
   * has more than one element, otherwise `size[0]`, which is a numpy scalar
   * (an array-like, not a Python int) for a 1-D array and a sub-array for a
   * deeper one.
   */
  function DecodeSize(size: Array): (r: Result<MultiBinarySize, CodecError>)
    ensures r.Ok? <==> SizeIndexable(size)
    ensures r.Ok? ==> !r.value.IntSize?
    ensures r.Ok? && r.value.OtherSize? ==> r.value.like.shape == [] && r.value.like.dtype == size.dtype
    ensures r.Ok? && r.value.ArraySize? ==> r.value.a.dtype == size.dtype
    ensures size.Size() > 1 ==> r == Ok(ArraySize(size))
    ensures size.Size() <= 1 && r.Ok? && r.value.OtherSize? ==>
      IndexFirst(size) == Some(Scalar(r.value.like.data[0], size.dtype))
    ensures size.Size() <= 1 && r.Ok? && r.value.ArraySize? ==> IndexFirst(size) == Some(SubArray(r.value.a))
    ensures r.Err? ==> r.error == SizeIndexError
  {
    if size.Size() > 1 then
      Ok(ArraySize(size))
    else
      match IndexFirst(size)
      case None => Err(SizeIndexError)
      case Some(Scalar(k, dtype)) => Ok(OtherSize(NumpyScalar(k, dtype)))
      case Some(SubArray(sub)) => Ok(ArraySize(sub))
  }

  /** `deserialize_ndarray`, which raises on a payload it cannot read (ArrayPayloadError). */
  function DecodeArray(c: ArrayCodec, payload: Bytes): (r: Result<Array, CodecError>)
  {
    match c.deserialize(payload)
    case Some(a) => Ok(a)
    case None => Err(ArrayPayloadError)
  }

  /**
   * Decodes a wire message. A decoded Box takes its shape and dtype from
   * its decoded `low`; `high` is not compared with it.
   */
  function Decode(w: Wire, c: ArrayCodec): (r: Result<Space, CodecError>)
    ensures r.Ok? ==> Supported(r.value)
    ensures r.Ok? ==> !w.Unset? && !w.UnknownKind? && SpaceKind(r.value) == WireKind(w)
    ensures w.Unset? ==> r == Err(UnsupportedSpaceType("None"))
    ensures w.UnknownKind? ==> r == Err(UnsupportedSpaceType(w.name))
  {
    match w
    case WDiscrete(n, start) => Ok(Discrete(n, start))
    case WBox(lowPayload, highPayload) =>
      var low :- DecodeArray(c, lowPayload);
      var high :- DecodeArray(c, highPayload);
      Ok(Box(low, high, low.shape, low.dtype))
    case WMultiBinary(sizePayload) =>
      var sizeArray :- DecodeArray(c, sizePayload);
      var size :- DecodeSize(sizeArray);
      Ok(MultiBinary(size))
    case WMultiDiscrete(nvecPayload) =>
      var nvec :- DecodeArray(c, nvecPayload);
      Ok(MultiDiscrete(nvec))
    case WDict(spaces) =>
      var entries :- DecodeEntries(spaces, c);
      Ok(Dict(entries))
    case Unset => Err(UnsupportedSpaceType("None"))
    case UnknownKind(name) => Err(UnsupportedSpaceType(name))
  }

  /** Decodes Dict entries in order, keeping each key; the first failing sub-space aborts. */
  function DecodeEntries(spaces: seq<SubSpace>, c: ArrayCodec): (r: Result<seq<(string, Space)>, CodecError>)
    ensures r.Ok? ==> |r.value| == |spaces|
    ensures r.Ok? ==> forall i :: 0 <= i < |spaces| ==> Supported(r.value[i].1)
  {
    if |spaces| == 0 then Ok([])
    else
      var sub :- Decode(spaces[0].space, c);
      var rest :- DecodeEntries(spaces[1..], c);
      Ok([(spaces[0].key, sub)] + rest)
  }
}
