/**
 * What the space codec promises: per-variant behaviour, the structure of
 * Dict messages, the format the recursion uses, and exactly which spaces
 * survive an encode/decode round trip.
 */
module SpaceCodecProofs {
  import opened Wrappers
  import opened NDArrays
  import opened Spaces
  import opened SpaceCodec

  /** A Discrete space round-trips through any two array codecs and any format: no array is involved. */
  lemma DiscreteNeedsNoArrayCodec(n: int, start: int, f: Format, c: ArrayCodec, c': ArrayCodec)
    ensures Encode(Discrete(n, start), f, c) == Ok(WDiscrete(n, start))
    ensures Decode(WDiscrete(n, start), c') == Ok(Discrete(n, start))
  {
  }

  /**
   * An int size k is sent as the int32 array [k]. It comes back as the
   * numpy scalar int32(k), not as a Python int, and that scalar is sent as a
   * 0-d array, which the next decode cannot index.
   */
  lemma MultiBinaryIntRoundTrip(k: int, f: Format, c: ArrayCodec)
    requires Lossless(c)
    ensures Encode(MultiBinary(IntSize(k)), f, c) == Ok(WMultiBinary(c.serialize(Int32Vector([k]), f)))
    ensures Decode(Encode(MultiBinary(IntSize(k)), f, c).value, c) == Ok(MultiBinary(OtherSize(NumpyScalar(k, Int32))))
    ensures Decode(Encode(MultiBinary(OtherSize(NumpyScalar(k, Int32))), f, c).value, c) == Err(SizeIndexError)
  {
  }

  /** A size payload holding a one-dimensional one-element array decodes to a MultiBinary sized by the numpy scalar it holds. */
  lemma DecodeOneElementSize(payload: Bytes, size: Array, c: ArrayCodec)
    requires c.deserialize(payload) == Some(size)
    requires size.shape == [1]
    ensures |size.data| == 1
    ensures Decode(WMultiBinary(payload), c) == Ok(MultiBinary(OtherSize(NumpyScalar(size.data[0], size.dtype))))
  {
    ProductOfOneAxis(1);
  }

  /** A size payload holding more than one element decodes to that very array. */
  lemma DecodeManyElementSize(payload: Bytes, size: Array, c: ArrayCodec)
    requires c.deserialize(payload) == Some(size)
    requires size.Size() > 1
    ensures Decode(WMultiBinary(payload), c) == Ok(MultiBinary(ArraySize(size)))
  {
  }

  /** A size array with no entry `size[0]` (empty, or 0-d) makes decoding fail. */
  lemma DecodeUnindexableSize(payload: Bytes, size: Array, c: ArrayCodec)
    requires c.deserialize(payload) == Some(size)
    requires |size.shape| == 0 || size.shape[0] == 0
    ensures Decode(WMultiBinary(payload), c) == Err(SizeIndexError)
  {
  }

  /**
   * A MultiBinary comes back unchanged exactly when it is sized by an ndarray
   * of more than one element. An int or a 1-D one-element size comes back
   * as a numpy scalar, any other array-like as an ndarray or a numpy scalar.
   */
  lemma MultiBinaryRoundTripIff(size: MultiBinarySize, f: Format, c: ArrayCodec)
    requires Lossless(c)
    ensures Decode(Encode(MultiBinary(size), f, c).value, c) == Ok(MultiBinary(size))
        <==> size.ArraySize? && size.a.Size() > 1
  {
  }

  /**
   * A MultiBinary whose size is a 0-d array-like (a numpy integer rather
   * than a Python int) is encoded, but its encoding cannot be decoded.
   */
  lemma ZeroDimSizeDoesNotDecode(like: Array, f: Format, c: ArrayCodec)
    requires Lossless(c)
    requires like.shape == []
    ensures Encode(MultiBinary(OtherSize(like)), f, c).Ok?
    ensures Decode(Encode(MultiBinary(OtherSize(like)), f, c).value, c) == Err(SizeIndexError)
  {
  }

  /**
   * A size array of shape [1, 1] never settles: the first round trip yields
   * its one-element row, the second the numpy scalar it holds, and the
   * third fails.
   */
  lemma NestedSingletonNeverSettles(k: int, f: Format, c: ArrayCodec)
    requires Lossless(c)
    ensures
      var a: Array := NDArray([1, 1], Int32, [k]);
      var row: Array := NDArray([1], Int32, [k]);
      && Decode(Encode(MultiBinary(ArraySize(a)), f, c).value, c) == Ok(MultiBinary(ArraySize(row)))
      && Decode(Encode(MultiBinary(ArraySize(row)), f, c).value, c) == Ok(MultiBinary(OtherSize(NumpyScalar(k, Int32))))
      && Decode(Encode(MultiBinary(OtherSize(NumpyScalar(k, Int32))), f, c).value, c) == Err(SizeIndexError)
  {
    ProductOfOneAxis(1);
    assert Product([1, 1]) == 1 by {
      assert [1, 1][1..] == [1];
    }
    var a: Array := NDArray([1, 1], Int32, [k]);
    var row: Array := NDArray([1], Int32, [k]);
    assert c.deserialize(c.serialize(a, f)) == Some(a);
    assert c.deserialize(c.serialize(row, f)) == Some(row);
    assert a.shape[1..] == [1];
    assert a.data[..1] == [k];
  }

  /**
   * A Box payload pair decodes whenever both payloads do, with the shape
   * and dtype of `low`, whatever `high` looks like.
   */
  lemma DecodeBoxTakesShapeFromLow(lowPayload: Bytes, highPayload: Bytes, low: Array, high: Array, c: ArrayCodec)
    requires c.deserialize(lowPayload) == Some(low)
    requires c.deserialize(highPayload) == Some(high)
    ensures Decode(WBox(lowPayload, highPayload), c) == Ok(Box(low, high, low.shape, low.dtype))
  {
  }

  /**
   * low and high are each sent in the given format; a Box comes back with
   * the same bounds and the shape and dtype of its `low`, whatever it held.
   */
  lemma BoxRoundTrip(low: Array, high: Array, shape: seq<nat>, dtype: DType, f: Format, c: ArrayCodec)
    requires Lossless(c)
    ensures Encode(Box(low, high, shape, dtype), f, c) == Ok(WBox(c.serialize(low, f), c.serialize(high, f)))
    ensures Decode(Encode(Box(low, high, shape, dtype), f, c).value, c) == Ok(Box(low, high, low.shape, low.dtype))
  {
  }

  /** nvec is sent in the given format and comes back unchanged. */
  lemma MultiDiscreteRoundTrip(nvec: Array, f: Format, c: ArrayCodec)
    requires Lossless(c)
    ensures Encode(MultiDiscrete(nvec), f, c) == Ok(WMultiDiscrete(c.serialize(nvec, f)))
    ensures Decode(Encode(MultiDiscrete(nvec), f, c).value, c) == Ok(MultiDiscrete(nvec))
  {
  }

  /**
   * An encoded Dict lists exactly the source keys, in source order, each
   * with its sub-space encoded in the STRUCTURED format.
   */
  lemma {:induction false} EncodeDictStructure(entries: seq<(string, Space)>, c: ArrayCodec)
    requires EncodeEntries(entries, c).Ok?
    ensures var spaces := EncodeEntries(entries, c).value;
      && |spaces| == |entries|
      && forall i :: 0 <= i < |entries| ==>
           spaces[i].key == entries[i].0 && Encode(entries[i].1, Structured, c) == Ok(spaces[i].space)
    decreases entries
  {
    if |entries| > 0 {
      EncodeDictStructure(entries[1..], c);
      EncodeEntriesUnfold(entries, c);
      var spaces := EncodeEntries(entries, c).value;
      var rest := EncodeEntries(entries[1..], c).value;
      forall i | 1 <= i < |entries|
        ensures entries[i] == entries[1..][i - 1] && spaces[i] == rest[i - 1]
      {
      }
    }
  }

  /** One step of EncodeEntries on a non-empty list. */
  lemma EncodeEntriesUnfold(entries: seq<(string, Space)>, c: ArrayCodec)
    requires |entries| > 0 && EncodeEntries(entries, c).Ok?
    ensures Encode(entries[0].1, Structured, c).Ok? && EncodeEntries(entries[1..], c).Ok?
    ensures EncodeEntries(entries, c).value
         == [SubSpace(entries[0].0, Encode(entries[0].1, Structured, c).value)] + EncodeEntries(entries[1..], c).value
  {
  }

  /**
   * A wire Dict decodes exactly when every sub-space does; the result keeps
   * every key, in wire order, with its sub-space decoded.
   */
  lemma {:induction false} DecodeDictStructure(spaces: seq<SubSpace>, c: ArrayCodec)
    ensures DecodeEntries(spaces, c).Ok? <==> forall i :: 0 <= i < |spaces| ==> Decode(spaces[i].space, c).Ok?
    ensures DecodeEntries(spaces, c).Ok? ==>
      var entries := DecodeEntries(spaces, c).value;
      && |entries| == |spaces|
      && forall i :: 0 <= i < |spaces| ==>
           entries[i].0 == spaces[i].key && Decode(spaces[i].space, c) == Ok(entries[i].1)
    decreases spaces
  {
    if |spaces| > 0 {
      DecodeDictStructure(spaces[1..], c);
      DecodeEntriesUnfold(spaces, c);
      forall i | 1 <= i < |spaces|
        ensures spaces[i] == spaces[1..][i - 1]
      {
      }
      if DecodeEntries(spaces, c).Ok? {
        var entries := DecodeEntries(spaces, c).value;
        var rest := DecodeEntries(spaces[1..], c).value;
        forall i | 1 <= i < |spaces|
          ensures entries[i] == rest[i - 1]
        {
        }
      }
    }
  }

  /** One step of DecodeEntries on a non-empty list. */
  lemma DecodeEntriesUnfold(spaces: seq<SubSpace>, c: ArrayCodec)
    requires |spaces| > 0
    ensures DecodeEntries(spaces, c).Ok? <==> Decode(spaces[0].space, c).Ok? && DecodeEntries(spaces[1..], c).Ok?
    ensures DecodeEntries(spaces, c).Ok? ==>
      DecodeEntries(spaces, c).value == [(spaces[0].key, Decode(spaces[0].space, c).value)] + DecodeEntries(spaces[1..], c).value
  {
  }

  /** The format given to a Dict is never used: the encoding is the one STRUCTURED gives. */
  lemma DictFormatNotForwarded(entries: seq<(string, Space)>, f: Format, c: ArrayCodec)
    ensures Encode(Dict(entries), f, c) == Encode(Dict(entries), Structured, c)
  {
  }

  /**
   * When the array codec tells formats apart, a Box nested in a Dict is not
   * encoded the way the same Box is at top level with format f.
   */
  lemma NestedBoxUsesStructured(key: string, low: Array, high: Array, shape: seq<nat>, dtype: DType, f: Format, c: ArrayCodec)
    requires c.serialize(low, f) != c.serialize(low, Structured)
    ensures var box := Box(low, high, shape, dtype);
      && Encode(Dict([(key, box)]), f, c) == Ok(WDict([SubSpace(key, Encode(box, Structured, c).value)]))
      && Encode(box, Structured, c) != Encode(box, f, c)
  {
    var box := Box(low, high, shape, dtype);
    var entries := [(key, box)];
    assert entries[0].1 == box && entries[1..] == [];
    assert EncodeEntries(entries[1..], c) == Ok([]);
    assert EncodeEntries(entries, c) == Ok([SubSpace(key, Encode(box, Structured, c).value)] + []);
    assert [SubSpace(key, Encode(box, Structured, c).value)] + [] == [SubSpace(key, Encode(box, Structured, c).value)];
  }

  /**
   * The round trip: with a lossless array codec, decoding the encoding of a
   * space gives back that very space if and only if it is canonical.
   */
  lemma {:induction false} RoundTripIff(s: Space, f: Format, c: ArrayCodec)
    requires Lossless(c)
    ensures (Encode(s, f, c).Ok? && Decode(Encode(s, f, c).value, c) == Ok(s)) <==> Canonical(s)
    decreases s
  {
    match s
    case Discrete(_, _) =>
    case Box(low, high, shape, dtype) =>
      BoxRoundTrip(low, high, shape, dtype, f, c);
    case MultiBinary(size) =>
      MultiBinaryRoundTripIff(size, f, c);
    case MultiDiscrete(nvec) =>
      MultiDiscreteRoundTrip(nvec, f, c);
    case Dict(entries) =>
      RoundTripEntriesIff(entries, c);
    case Unsupported(_) =>
  }

  lemma {:induction false} RoundTripEntriesIff(entries: seq<(string, Space)>, c: ArrayCodec)
    requires Lossless(c)
    ensures (EncodeEntries(entries, c).Ok? && DecodeEntries(EncodeEntries(entries, c).value, c) == Ok(entries))
        <==> forall i :: 0 <= i < |entries| ==> Canonical(entries[i].1)
    decreases entries
  {
    if |entries| > 0 {
      var head := entries[0];
      assert head in entries && head.1 < head;
      RoundTripIff(head.1, Structured, c);
      RoundTripEntriesIff(entries[1..], c);
      forall i | 1 <= i < |entries|
        ensures entries[i] == entries[1..][i - 1]
      {
      }
      assert entries == [head] + entries[1..];
      var sub := Encode(head.1, Structured, c);
      var rest := EncodeEntries(entries[1..], c);
      if sub.Ok? && rest.Ok? {
        var wire := [SubSpace(head.0, sub.value)] + rest.value;
        assert EncodeEntries(entries, c) == Ok(wire);
        assert wire[0].space == sub.value;
        assert wire[1..] == rest.value;
      }
    }
  }

  /**
   * Decoding an encoding fails only on unsupported spaces and on
   * MultiBinary size arrays that have no entry `size[0]`.
   */
  lemma {:induction false} DecodeOfEncodeOkIff(s: Space, f: Format, c: ArrayCodec)
    requires Lossless(c)
    ensures (Encode(s, f, c).Ok? && Decode(Encode(s, f, c).value, c).Ok?) <==> Supported(s) && SizesIndexable(s)
    decreases s
  {
    match s
    case Discrete(_, _) =>
    case Box(low, high, shape, dtype) =>
      BoxRoundTrip(low, high, shape, dtype, f, c);
    case MultiBinary(size) =>
      var a := SizeArray(size);
      assert c.deserialize(c.serialize(a, f)) == Some(a);
    case MultiDiscrete(nvec) =>
      MultiDiscreteRoundTrip(nvec, f, c);
    case Dict(entries) =>
      DecodeOfEncodeEntriesOkIff(entries, c);
    case Unsupported(_) =>
  }

  lemma {:induction false} DecodeOfEncodeEntriesOkIff(entries: seq<(string, Space)>, c: ArrayCodec)
    requires Lossless(c)
    ensures (EncodeEntries(entries, c).Ok? && DecodeEntries(EncodeEntries(entries, c).value, c).Ok?)
        <==> forall i :: 0 <= i < |entries| ==> Supported(entries[i].1) && SizesIndexable(entries[i].1)
    decreases entries
  {
    if |entries| > 0 {
      var head := entries[0];
      assert head in entries && head.1 < head;
      DecodeOfEncodeOkIff(head.1, Structured, c);
      DecodeOfEncodeEntriesOkIff(entries[1..], c);
      forall i | 1 <= i < |entries|
        ensures entries[i] == entries[1..][i - 1]
      {
      }
      var sub := Encode(head.1, Structured, c);
      var rest := EncodeEntries(entries[1..], c);
      if sub.Ok? && rest.Ok? {
        var wire := [SubSpace(head.0, sub.value)] + rest.value;
        assert EncodeEntries(entries, c) == Ok(wire);
        assert wire[0].space == sub.value;
        assert wire[1..] == rest.value;
      }
    }
  }
}
