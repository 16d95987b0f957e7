/**
 * An abstract view of the numeric arrays the space codec carries (numpy
 * ndarrays) and of the array codec it delegates their wire form to.
 * The array codec's own byte layout is not modelled: it is a parameter
 * of the space codec, and its round trip is a hypothesis (`Lossless`).
 */
module NDArrays {
  import opened Wrappers

  /** Element type tag of an array. */
  datatype DType = Bool | Int8 | Int16 | Int32 | Int64 | UInt8 | Float32 | Float64

  /** Number of elements of an array of the given shape (1 for a 0-d array). */
  function Product(shape: seq<nat>): nat
  {
    if |shape| == 0 then 1 else shape[0] * Product(shape[1..])
  }

  /** A shape, an element type and the elements in row-major order. */
  datatype NDArray = NDArray(shape: seq<nat>, dtype: DType, data: seq<int>) {
    /** numpy's `size`: the number of elements the shape describes. */
    function Size(): nat {
      Product(shape)
    }

    predicate Valid() {
      |data| == Size()
    }
  }

  /** The arrays numpy can build: as many elements as the shape says. */
  type Array = a: NDArray | a.Valid() witness NDArray([], Int32, [0])

  /** `np.array(items, dtype=int32)` for a flat list of ints: a one-dimensional int32 array. */
  function Int32Vector(items: seq<int>): Array
  {
    ProductOfOneAxis(|items|);
    NDArray([|items|], Int32, items)
  }

  lemma ProductOfOneAxis(k: nat)
    ensures Product([k]) == k
  {
  }

  /**
   * A numpy scalar such as `numpy.int32(5)`. It is not a Python int; numpy
   * turns it back into a 0-d array of its dtype.
   */
  function NumpyScalar(value: int, dtype: DType): Array
  {
    NDArray([], dtype, [value])
  }

  /** What `a[0]` yields: a numpy scalar of the array's dtype for a 1-D array, a sub-array otherwise. */
  datatype Element = Scalar(value: int, dtype: DType) | SubArray(sub: Array)

  /**
   * numpy's `a[0]`: the first entry along the first axis. A 0-d array has no
   * axis to index and an array whose first axis is empty has no entry 0;
   * both raise IndexError, modelled as None.
   */
  function IndexFirst(a: Array): (r: Option<Element>)
    ensures r.Some? <==> |a.shape| > 0 && a.shape[0] > 0
    ensures r.Some? && |a.shape| == 1 ==> |a.data| == a.shape[0] && r == Some(Scalar(a.data[0], a.dtype))
    ensures r.Some? && |a.shape| > 1 ==>
      && r.value.SubArray?
      && r.value.sub.shape == a.shape[1..]
      && r.value.sub.dtype == a.dtype
      && |r.value.sub.data| * a.shape[0] == |a.data|
      && r.value.sub.data <= a.data
  {
    if |a.shape| == 0 || a.shape[0] == 0 then None
    else if |a.shape| == 1 then
      assert a.shape == [a.shape[0]];
      ProductOfOneAxis(a.shape[0]);
      Some(Scalar(a.data[0], a.dtype))
    else
      var block := Product(a.shape[1..]);
      assert |a.data| == a.shape[0] * block;
      Some(SubArray(NDArray(a.shape[1..], a.dtype, a.data[..block])))
  }

  /** Wire formats the array codec can be asked for; only STRUCTURED is named by the space codec. */
  datatype Format = Structured | OtherFormat(name: string)

  /** Serialized array payload. */
  type Bytes = seq<bv8>

  /**
   * The array codec: `serialize(array, format)` and `deserialize(payload)`.
   * Deserialization of a malformed payload fails (None).
   */
  datatype ArrayCodec = ArrayCodec(serialize: (Array, Format) -> Bytes, deserialize: Bytes -> Option<Array>)

  /** The array codec's round trip: every array comes back from its payload, in every format. */
  ghost predicate Lossless(c: ArrayCodec)
  {
    forall a: Array, f: Format {:trigger c.serialize(a, f)} :: c.deserialize(c.serialize(a, f)) == Some(a)
  }
}
