/**
 * The two sides of the space codec: the in-memory space description an
 * environment publishes (gym / gymnasium spaces, folded into one type) and
 * the wire message whose one-of `kind` selects the variant.
 */
module Spaces {
  import opened NDArrays

  /**
   * How a MultiBinary space holds its size `n`: a Python int, a numpy array,
   * or any other array-like value (a list, a tuple, a numpy scalar), given
   * here as the array numpy builds from it.
   */
  datatype MultiBinarySize =
    | IntSize(k: int)
    | ArraySize(a: Array)
    | OtherSize(like: Array)

  /**
   * A space description. `Unsupported` stands for any other runtime type
   * handed to the encoder (a Tuple or Graph space, say), named by its type.
   */
  datatype Space =
    | Discrete(n: int, start: int)
    | Box(low: Array, high: Array, shape: seq<nat>, dtype: DType)
    | MultiBinary(size: MultiBinarySize)
    | MultiDiscrete(nvec: Array)
    | Dict(entries: seq<(string, Space)>)
    | Unsupported(typeName: string)

  /** One entry of the wire Dict: a key and its encoded sub-space. */
  datatype SubSpace = SubSpace(key: string, space: Wire)

  /**
   * The wire message. `Unset` is a message with no variant populated;
   * `UnknownKind` is a variant this codec does not know (from a newer schema):
   * its `name` is none of "discrete", "box", "multi_binary", "multi_discrete"
   * and "dict", which the other constructors stand for.
   */
  datatype Wire =
    | WDiscrete(n: int, start: int)
    | WBox(low: Bytes, high: Bytes)
    | WMultiBinary(size: Bytes)
    | WMultiDiscrete(nvec: Bytes)
    | WDict(spaces: seq<SubSpace>)
    | Unset
    | UnknownKind(name: string)

  /** Raised conditions: the source's RuntimeError, numpy's IndexError, and a payload the array codec rejects. */
  datatype CodecError =
    | UnsupportedSpaceType(name: string)
    | SizeIndexError
    | ArrayPayloadError

  /** The five variants, shared by both sides so dispatch can be compared. */
  datatype Kind = KDiscrete | KBox | KMultiBinary | KMultiDiscrete | KDict

  function SpaceKind(s: Space): Kind
    requires !s.Unsupported?
  {
    match s
    case Discrete(_, _) => KDiscrete
    case Box(_, _, _, _) => KBox
    case MultiBinary(_) => KMultiBinary
    case MultiDiscrete(_) => KMultiDiscrete
    case Dict(_) => KDict
  }

  function WireKind(w: Wire): Kind
    requires !w.Unset? && !w.UnknownKind?
  {
    match w
    case WDiscrete(_, _) => KDiscrete
    case WBox(_, _) => KBox
    case WMultiBinary(_) => KMultiBinary
    case WMultiDiscrete(_) => KMultiDiscrete
    case WDict(_) => KDict
  }

  /** No `Unsupported` anywhere in the tree. */
  predicate Supported(s: Space)
  {
    match s
    case Unsupported(_) => false
    case Dict(entries) => forall i :: 0 <= i < |entries| ==> Supported(entries[i].1)
    case _ => true
  }

  /** Some `Unsupported` in the tree carries the type name `name`. */
  predicate ContainsUnsupported(s: Space, name: string)
  {
    match s
    case Unsupported(typeName) => typeName == name
    case Dict(entries) => exists i :: 0 <= i < |entries| && ContainsUnsupported(entries[i].1, name)
    case _ => false
  }

  /**
   * The size array of a MultiBinary can be decoded: either it has more than
   * one element, or `size[0]` exists (a first axis that is not empty).
   */
  predicate SizeIndexable(a: Array)
  {
    |a.shape| > 0 && a.shape[0] > 0
  }

  /** Every MultiBinary size array in the tree can be decoded. */
  predicate SizesIndexable(s: Space)
  {
    match s
    case MultiBinary(IntSize(_)) => true
    case MultiBinary(ArraySize(a)) => SizeIndexable(a)
    case MultiBinary(OtherSize(like)) => SizeIndexable(like)
    case Dict(entries) => forall i :: 0 <= i < |entries| ==> SizesIndexable(entries[i].1)
    case _ => true
  }

  /**
   * The spaces the codec reproduces exactly: a Box whose shape and dtype are
   * those of its `low`, a MultiBinary sized by an ndarray of more than one
   * element, and Dicts of such spaces. An int-sized MultiBinary is not one
   * of them: it comes back sized by a numpy scalar.
   */
  predicate Canonical(s: Space)
  {
    match s
    case Discrete(_, _) => true
    case Box(low, _, shape, dtype) => shape == low.shape && dtype == low.dtype
    case MultiBinary(ArraySize(a)) => a.Size() > 1
    case MultiBinary(_) => false
    case MultiDiscrete(_) => true
    case Dict(entries) => forall i :: 0 <= i < |entries| ==> Canonical(entries[i].1)
    case Unsupported(_) => false
  }
}
