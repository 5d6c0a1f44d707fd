# Merge-patch equality of Kubernetes objects

A model of `IsEqual` from `pkg/object`, the repository's "would this update
change anything?" check. `IsEqual(old, new)` calls `mergeObject`, which
encodes both objects as JSON, builds the JSON Merge Patch (RFC 7386) from
old to new, applies it to old's encoding, and decodes the result onto a deep
copy of old. `IsEqual` then reports whether old still deeply equals that
copy. It returns `false` together with the error when any step fails.

The model works on parsed JSON values, the datatype `Document.Json`. It has
these modules:

- `Wrappers`: `Option` and `Result`, used for Go's `(value, error)` returns.
- `Document`: the `Json` datatype and the `Error` values of encoding and
  decoding.
- `MergePatch`: the json-patch library's `CreateMergePatch` as `Diff`, and
  its `MergePatch` (the algorithm of section 2 of RFC 7386) as `Apply`.
- `Decoding`: `json.Unmarshal` onto an existing object as `Overlay`, with
  `Decodable` for its type errors. Object members the document lacks keep
  their old values. Array elements are decoded onto the old elements in
  the same positions, because Go's decoder reuses the existing slice.
- `Compare`: `mergeObject` as `MergeObject` and `IsEqual` itself. Objects
  have a type parameter `T`, and `json.Marshal` is the parameter `marshal`.
  The main theorem, `IsEqualIffTolerates`, says the verdict is `true` with
  no error exactly when the independent relation `Tolerates` holds between
  the two encodings.
- `CompareScenarios`: the five cases of `Test_Compare`, each stated with the
  pods' JSON encodings.

Some behaviour follows from the decode step and is easy to get wrong:

- A member only old sets is tolerated. This includes `ports: [80]` against a
  new object that omits it. The patch deletes the member, and decoding onto
  the copy of old puts it back.
- A member new sets to `null` is tolerated too. A zero `creationTimestamp`
  encodes as `null`, so the timestamp case gives `true`.
- Arrays are not compared wholesale. The patch replaces an array that
  differs, but decoding lays the new elements over the old ones. So an old
  element's extra members survive, as in the extra-`ports` case. A
  difference that does count is a changed length, a changed scalar, or a
  member only new sets.

## Model

| member | source | states |
|---|---|---|
| `MergePatch.Diff` | pkg/object/jsonpatch.go:23 | Between two objects the patch names exactly the members that were added, removed or changed. A removed member maps to `null` and an added one to its new value. In every other case the patch is the new document itself. |
| `MergePatch.Apply` | pkg/object/jsonpatch.go:28 | A non-object patch replaces the target. An object patch gives an object in which its `null` members are deleted, target members it does not name keep their values, and no key is invented. |
| `MergePatch.DiffEmptyIffEqual` | pkg/object/jsonpatch.go:23 | The patch between two objects is `{}` exactly when they are equal. |
| `MergePatch.NestedMemberEmittedIffNonEmpty` | pkg/object/jsonpatch.go:23 | A member whose old and new values are both objects is in the patch exactly when its nested patch is non-empty. |
| `MergePatch.DiffSelfIsEmpty` | pkg/object/jsonpatch.go:23 | The patch from an object to itself is the empty object. |
| `MergePatch.ApplyEmptyPatch` | pkg/object/jsonpatch.go:28 | Applying `{}` returns the document unchanged exactly when the document is an object. |
| `MergePatch.ApplyDiffSelf` | pkg/object/jsonpatch.go:23-28 | Idempotence: applying the patch from a document to itself gives back the document, whatever its shape. |
| `MergePatch.RoundTrip` | pkg/object/jsonpatch.go:23-28 | The patch from old to new, applied to old, yields new whenever new has no explicit `null` members. |
| `Decoding.Overlay` | pkg/object/jsonpatch.go:33-34 | Decoding an object onto an object keeps the union of their keys, and old members the document lacks keep old's values. Decoding an array gives the document's length. Any other value replaces the target. The result equals the target exactly when the document embeds into it: for arrays, same length and each element embeds into old's element in the same position. |
| `Decoding.Unmarshal` | pkg/object/jsonpatch.go:33-36 | Decoding succeeds exactly when every value fits its place. A failure is the type error alone, with no partial object. It returns the target unchanged, without error, exactly when the document embeds into it. |
| `Decoding.EmbedsDecodable` | pkg/object/jsonpatch.go:33-36 | A document that embeds into the target never raises a decode type error. |
| `Decoding.UnmarshalUnchangedIffEmbeds` | pkg/object/jsonpatch.go:33-34 | Decoding leaves the copy of old unchanged, without error, exactly when the document embeds into old. |
| `Decoding.EmbedsReflexive` | pkg/object/jsonpatch.go:33-34 | Every document embeds into itself. |
| `Decoding.UnmarshalSelf` | pkg/object/jsonpatch.go:33-34 | Decoding an object's own encoding onto a copy of it succeeds and changes nothing. |
| `Compare.MergeObject` | pkg/object/jsonpatch.go:13-40 | If old fails to encode, that error is returned whatever new is. If only new fails, new's error is returned. Otherwise the only possible failure is the decode type error. When new has no explicit `null` members, the result is new's encoding decoded onto a copy of old. |
| `Compare.IsEqual` | pkg/object/compare.go:10-16 | A failed merge gives `false` with that same error. A successful merge gives a nil error. When both objects encode, the result is `(true, nil)` exactly when old's encoding tolerates new's. |
| `Compare.MergedMember` | pkg/object/jsonpatch.go:23-28 | Between two objects, each member of the merged document comes from new. A non-null member of new is carried as the merge of its own old and new values. A `null` member survives only as an untouched `null` of old. |
| `Compare.MergedUnchangedIffTolerates` | pkg/object/jsonpatch.go:23-34 | Decoding the merged document onto old reproduces old, without error, exactly when old tolerates new. |
| `Compare.IsEqualIffTolerates` | pkg/object/compare.go:10-16 | With both encodings successful, `IsEqual` returns `(true, nil)` exactly when old's encoding tolerates new's. |
| `Compare.MergedDecodable` | pkg/object/jsonpatch.go:28-36 | If new fits old's types, then so does the merged document. |
| `Compare.IsEqualNoError` | pkg/object/compare.go:11-15 | If new's encoding fits old's types, `IsEqual` returns a nil error. |
| `Compare.MergeObjectDecodesModified` | pkg/object/jsonpatch.go:23-34 | If new has no explicit `null` members, `mergeObject` amounts to decoding new's encoding onto a copy of old. |
| `Compare.MergeObjectKeepsBaselineOnly` | pkg/object/jsonpatch.go:33-34 | A member only old sets, or one new sets to `null`, keeps old's value in the merged object. |
| `Compare.ToleratesReflexive` | pkg/object/compare.go:15 | Every document tolerates itself. |
| `Compare.IsEqualReflexive` | pkg/object/compare.go:15 | An object compared with itself gives `(true, nil)`. |
| `Compare.IsEqualToleratesOmittedMembers` | pkg/object/compare_test.go:85-118 | If every non-null member of new equals old's member, the verdict is `(true, nil)`, whatever members only old has. |
| `Compare.IsEqualDetectsChangedScalar` | pkg/object/compare_test.go:52-84 | A member that both objects set, to different values where new's is a scalar, gives `false`. |
| `Compare.IsEqualDetectsAddedMember` | pkg/object/compare_test.go:157-194 | A non-null member that only new sets gives `false`. |
| `CompareScenarios.IdenticalPodsAreEqual` | pkg/object/compare_test.go:19-51 | Two identical pods give `(true, nil)`. |
| `CompareScenarios.ChangedImageIsNotEqual` | pkg/object/compare_test.go:52-84 | Image `nginx:v1` against `nginx:v2` gives `(false, nil)`. |
| `CompareScenarios.TimestampOnlyInOldIsEqual` | pkg/object/compare_test.go:85-118 | A creation timestamp that only old has gives `(true, nil)`. New's zero timestamp encodes as `null`. |
| `CompareScenarios.PortsOnlyInOldIsEqual` | pkg/object/compare_test.go:119-156 | `ports` only in old's container gives `(true, nil)`, even though the patch replaces the container list. |
| `CompareScenarios.PortsOnlyInNewIsNotEqual` | pkg/object/compare_test.go:157-194 | `ports` only in new's container gives `(false, nil)`. |

## Left out

- JSON bytes, `encoding/json` field tags and omit-empty rules: objects are given by their encodings, and `json.Marshal` is the parameter `marshal`. A failure of it is an opaque `MarshalError`.
- The error returns after `CreateMergePatch` and `MergePatch` (pkg/object/jsonpatch.go:24-26 and 29-31): the json-patch library is not part of this model. Both calls succeed on two JSON objects, which is what a Kubernetes object encodes to, and RFC 7386 makes both steps total on parsed values, so the model has no such branch.
- Top-level documents that are not objects: the library rejects or specially handles them (arrays, scalars), while the model follows RFC 7386 and replaces wholesale. So the model gives `(true, nil)` for two equal scalar documents, where the library would report an error. Encoded Kubernetes objects are always JSON objects.
- The library's pruning of `null` members inside objects nested in arrays when it applies a patch: `Apply` follows RFC 7386, which copies array values verbatim.
- Float-valued JSON numbers and their precision: numbers are integers.
- Kubernetes and Go types. `Decodable` treats old's non-null kind as the Go type of each field. The following are not modelled: custom decoders that accept several kinds (`IntOrString`, `Quantity`, `metav1.Time`), `interface{}` fields, and fields new sets where old holds nothing.
- Go's decoding of `null`: it leaves non-pointer fields untouched, whereas `Overlay` replaces the target with `null`.
- Go's decoding of map values: it decodes a map value into a fresh element, whereas `Overlay` overlays every object member as for struct fields. The maps of a pod (labels, annotations) hold strings, where the two agree.
- `reflect.DeepEqual` internals, such as nil against empty slices: the model compares encodings with the datatype's own equality.
- Slice capacity beyond its length, and `DeepCopyObject` internals: values are immutable, so old is never mutated by construction.
- The `fmt.Println` at pkg/object/jsonpatch.go:38: an output side effect with no contractual meaning.
- The test pods are abridged to the members the cases exercise: `metadata` (name, namespace, creation timestamp), one container with `resources: {}`, and `status: {}`.
