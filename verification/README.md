# Space codec of cogment-verse, modelled in Dafny

cogment-verse publishes the observation and action spaces of its
environments (the `gym` / `gymnasium` space classes Discrete, Box,
MultiBinary, MultiDiscrete and Dict) as a protobuf `Space` message.
`serialize_gym_space` turns a space into that message and
`deserialize_gym_space` turns a message back into a space. Numeric arrays
(Box bounds, MultiBinary sizes, MultiDiscrete `nvec`) go through a separate
array codec, `serialize_ndarray` / `deserialize_ndarray`.

This project models the two functions and proves what they do:

- `wrappers.dfy` (`Wrappers`): `Option` and `Result`.
- `ndarray.dfy` (`NDArrays`): arrays as shape, dtype tag and row-major
  elements (`Array` keeps exactly as many elements as the shape says).
  It also models numpy's `a[0]` (`IndexFirst`), the wire formats (`Format`,
  with STRUCTURED the one the space codec names) and the array codec. The
  array codec is a parameter `ArrayCodec(serialize, deserialize)`, and its
  round trip is the hypothesis `Lossless`.
- `spaces.dfy` (`Spaces`): the space description `Space`, the wire message
  `Wire` with its one-of `kind`, and the error conditions. It also defines
  the predicates the theorems use: `Supported`, `SizesIndexable`,
  `Canonical`.
- `codec.dfy` (`SpaceCodec`): `Encode`, `Decode` and their Dict and
  MultiBinary helpers.
- `codec_proofs.dfy` (`SpaceCodecProofs`): per-variant lemmas, Dict
  structure, format propagation, and the two round-trip characterisations.

Modelling choices:

- One `Space` type stands for both the gym and the gymnasium class of each
  variant. The encoder tests each variant in a fixed order, but the variants
  are disjoint constructors here, so each space reaches exactly one arm and
  the order does not matter.
- `Unsupported(typeName)` stands for any other runtime type handed to the
  encoder.
- The MultiBinary size `n` is one of three things. `IntSize` is a Python
  int. `ArraySize` is a numpy array. `OtherSize` is anything else, such as
  a list, a tuple or a numpy integer; it is given as the array numpy builds
  from it. The decoder records the arguments it passes to the MultiBinary
  constructor. For a one-element size array that argument is `size[0]`, a
  numpy scalar such as `numpy.int32(5)`. That is an `OtherSize` holding a
  0-d array (`NumpyScalar`), not an `IntSize`.
- A Box carries `shape` and `dtype` as well as `low` and `high`, because
  the decoder sets them from `low`.
- `Wire.Unset` is a message with no variant set. `WhichOneof` returns None
  for it and the error text shows `None`. `Wire.UnknownKind` is a variant
  this decoder does not know.
- numpy's `IndexError` on `size[0]` is `SizeIndexError`. A payload the
  array codec rejects is `ArrayPayloadError`.

The round trip is not the identity on every supported space. The code
reproduces a space exactly when it is `Canonical`: every Box has the shape
and dtype of its `low`, and every MultiBinary is sized by an ndarray of more
than one element (`RoundTripIff`). Other MultiBinary sizes change, for
example:

- An int size `k` comes back as the numpy scalar `int32(k)`. Encoding that
  scalar gives a 0-d array, which the next decode cannot index
  (`MultiBinaryIntRoundTrip`).
- A 1-D one-element size array comes back as the numpy scalar it holds.
- A size array of shape [1, 1] comes back as its one-element row
  (`NestedSingletonNeverSettles`).
- A list-like size with more than one element comes back as an int32
  ndarray; a one-element list-like comes back as the numpy scalar
  `int32(k)`.
- A size array of shape [2, 0] comes back as its empty first row, of shape
  [0], whose next decode fails.
- A 0-d size array, or one whose first axis is empty, cannot be decoded
  (`DecodeOfEncodeOkIff`).

The Dict branch calls the encoder without the format, so nested sub-spaces
are always encoded with STRUCTURED.

## Model

| member | source | states |
|---|---|---|
| `NDArrays.IndexFirst` | cogment_verse/specs/spaces_serialization.py:74 | `size[0]` exists exactly when the array has a first axis that is not empty. On a 1-D array it is the first element. On an n-D array it is the first block of the first axis: one shape[0]-th of the elements, same dtype, shape without the first axis. |
| `SpaceCodec.SizeArray` | cogment_verse/specs/spaces_serialization.py:36-42 | The MultiBinary size array. An int `k` becomes the one-element int32 array `[k]`. An ndarray is sent unchanged. Any other array-like is cast to int32 and keeps its shape and elements. |
| `SpaceCodec.Encode` | cogment_verse/specs/spaces_serialization.py:23-56 | Encoding succeeds exactly when no unsupported type appears anywhere in the space. A failure is an UnsupportedSpaceType error naming a type that occurs in the space. A success has the same variant as the input. |
| `SpaceCodec.EncodeEntries` | cogment_verse/specs/spaces_serialization.py:51-55 | The Dict entries encode exactly when every sub-space is supported. A failure names an unsupported type found in one of the entries. |
| `SpaceCodec.DecodeSize` | cogment_verse/specs/spaces_serialization.py:71-74 | A decoded size array gives a MultiBinary exactly when it has more than one element or `size[0]` exists; otherwise the result is an IndexError. The size passed on is never a Python int. It is the array itself, a sub-array, or a 0-d numpy scalar, always of the decoded array's dtype. |
| `SpaceCodec.Decode` | cogment_verse/specs/spaces_serialization.py:59-87 | A decoded space is supported and has the variant of the message's kind. An unset kind or an unknown kind fails with UnsupportedSpaceType naming that kind ("None" when unset). |
| `SpaceCodec.DecodeEntries` | cogment_verse/specs/spaces_serialization.py:79-85 | Decoded Dict entries are as many as the wire entries, and every one is supported. |
| `SpaceCodecProofs.DiscreteNeedsNoArrayCodec` | cogment_verse/specs/spaces_serialization.py:61-63 | Discrete `n` and `start` are sent as they are (line 25) and read back as they are, whichever array codec or format is in use. |
| `SpaceCodecProofs.MultiBinaryIntRoundTrip` | cogment_verse/specs/spaces_serialization.py:39-40 | An int size `k` is sent as the int32 array `[k]` and comes back as the numpy scalar `int32(k)`. Sending that scalar again takes the array-like branch (line 42) and gives a 0-d array, whose decode fails with IndexError at line 74. |
| `SpaceCodecProofs.DecodeOneElementSize` | cogment_verse/specs/spaces_serialization.py:72-74 | A one-dimensional one-element size array decodes to a MultiBinary sized by its only element, as a numpy scalar of the array's dtype. |
| `SpaceCodecProofs.DecodeManyElementSize` | cogment_verse/specs/spaces_serialization.py:72-73 | A size array with more than one element decodes to a MultiBinary sized by that same array. |
| `SpaceCodecProofs.DecodeUnindexableSize` | cogment_verse/specs/spaces_serialization.py:74 | A size array that is 0-d or has an empty first axis makes decoding fail with IndexError. |
| `SpaceCodecProofs.MultiBinaryRoundTripIff` | cogment_verse/specs/spaces_serialization.py:36-74 | With a lossless array codec, a MultiBinary comes back unchanged if and only if it is sized by an ndarray of more than one element. |
| `SpaceCodecProofs.ZeroDimSizeDoesNotDecode` | cogment_verse/specs/spaces_serialization.py:41-42 | A size that is neither an int nor an ndarray and converts to a 0-d array is encoded, but its message cannot be decoded. |
| `SpaceCodecProofs.NestedSingletonNeverSettles` | cogment_verse/specs/spaces_serialization.py:72-74 | A size array of shape [1, 1] first comes back as its one-element row, then as the numpy scalar it holds. A third round trip fails. |
| `SpaceCodecProofs.DecodeBoxTakesShapeFromLow` | cogment_verse/specs/spaces_serialization.py:64-68 | A Box message decodes whenever both payloads decode. The result takes its shape and dtype from `low`, and `high` is not checked against them. |
| `SpaceCodecProofs.BoxRoundTrip` | cogment_verse/specs/spaces_serialization.py:26-34 | `low` and `high` are each serialized with the given format. With a lossless array codec, the Box comes back with the same bounds and with the shape and dtype of `low`. |
| `SpaceCodecProofs.MultiDiscreteRoundTrip` | cogment_verse/specs/spaces_serialization.py:45-49 | `nvec` is serialized with the given format and, with a lossless array codec, comes back unchanged. |
| `SpaceCodecProofs.EncodeDictStructure` | cogment_verse/specs/spaces_serialization.py:51-55 | An encoded Dict has exactly the source keys in source order. Each key is paired with its sub-space encoded in the STRUCTURED format. |
| `SpaceCodecProofs.DecodeDictStructure` | cogment_verse/specs/spaces_serialization.py:79-85 | A wire Dict decodes if and only if every sub-space decodes. The result keeps every key in wire order, each with its decoded sub-space. |
| `SpaceCodecProofs.DictFormatNotForwarded` | cogment_verse/specs/spaces_serialization.py:54 | The format passed for a Dict is never used: the encoding is the one STRUCTURED gives. |
| `SpaceCodecProofs.NestedBoxUsesStructured` | cogment_verse/specs/spaces_serialization.py:23 | A Box nested in a Dict is encoded with the default STRUCTURED format. When the array codec tells the formats apart, this differs from encoding the same Box at top level with the given format. |
| `SpaceCodecProofs.RoundTripIff` | cogment_verse/specs/spaces_serialization.py:23-87 | With a lossless array codec and any format, decoding the encoding of a space gives back that very space if and only if the space is canonical. |
| `SpaceCodecProofs.RoundTripEntriesIff` | cogment_verse/specs/spaces_serialization.py:79-85 | Dict entries come back unchanged, keys and order included, if and only if every sub-space is canonical. |
| `SpaceCodecProofs.DecodeOfEncodeOkIff` | cogment_verse/specs/spaces_serialization.py:59-87 | With a lossless array codec, a space's encoding exists and decodes if and only if the space is supported and every MultiBinary size array in it has an entry `size[0]`. |
| `SpaceCodecProofs.DecodeOfEncodeEntriesOkIff` | cogment_verse/specs/spaces_serialization.py:82-83 | Dict entries encode and decode if and only if every sub-space is supported and has only indexable MultiBinary sizes. |

Behaviour of the code worth knowing:

- decode(encode(s)) is not the identity on every supported space (`RoundTripIff`).
- Dict sub-spaces are always encoded with STRUCTURED, whatever format was asked for.
- Neither direction checks that Box `low` and `high` agree in shape or dtype.
- The code raises RuntimeError for an unsupported type or kind; the model calls the condition UnsupportedSpaceType.

## Left out

- The array codec's internals and byte layout (its module is not part of this model). It is a parameter. Its round trip is the `Lossless` hypothesis of the lemmas that need it, and a payload it rejects is an error.
- SerializationFormat's members other than STRUCTURED: they are opaque `OtherFormat` values.
- The two parallel class hierarchies (gym and gymnasium): one `Space` type stands for both. Decoding always builds gym classes, which the model does not tell apart.
- What the gym constructors do with the values handed to them. Some gym versions convert a MultiBinary `n` with `int()`, or into a tuple of ints. With that conversion an int size would come back as an int and an ndarray size as a tuple, and the MultiBinary statements of `RoundTripIff` would change accordingly. The model keeps the arguments exactly as the decoder passes them. This covers Box broadcasting and casting `high` to `low`'s dtype, its shape assertions, MultiBinary converting `n` to int or tuple, positivity assertions, and Dict sorting or merging duplicate keys. Dict entries are a sequence in wire order, and key uniqueness is neither checked nor needed.
- Values `np.array(n, dtype=int32)` (line 42) cannot convert, such as ragged or non-numeric ones, make the encoder raise; `OtherSize` covers only values it can convert.
- Floating-point element values and numpy dtype promotion: elements are integers and the dtype is a tag.
- SpaceCodec.SizeArray: does not model the int32 cast overflowing for sizes outside the int32 range. What numpy does there depends on its version.
- SpaceCodecProofs.DiscreteNeedsNoArrayCodec: does not model the range limits of the protobuf integer fields for `n` and `start`. The message schema is not part of this model.
- Error message texts: only the offending type or kind name is kept.
- The tutorial actor and training code (actors/tutorial/tutorial_3.py) and the web FPS counter component. They are runtime glue and UI outside the codec.
