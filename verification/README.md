# avro4k record naming and serializer dispatch, in Dafny

This project models two small, deterministic parts of the avro4k library, which
maps Kotlin values to and from Avro.

- **Record naming** (`RecordNaming.kt`, module `Naming`). A record's schema
  identity is a simple name plus a nullable namespace. Its full name,
  `namespace.name` (or `name` when the namespace is null), is the key under
  which generated schemas are cached. The identity is computed from these inputs:
  - a dotted class path;
  - the name and namespace overrides found in the class's annotations;
  - a naming strategy.

  The path is normalised first: every `.<init>` is removed, then every
  `.<anonymous>`. The namespace is the text before the last dot and the name is
  the text after it. Either one can be replaced by an override. The naming
  strategy is applied to the name only. Overloads take a serial descriptor:
  its serial name, with one trailing `?` dropped when the descriptor is
  nullable, and its annotations. A second form takes one element of the
  descriptor, using that element's name and annotations.
- **Serializer dispatch** (`AvroSerializer.kt`, module `Serialization`). Every
  custom serializer inherits two final operations. `serialize` reads the
  current field's schema. When it is a UNION, `serialize` replaces it with
  `extractNonNull(schema)`, then calls the subclass hook `encodeAvroValue`.
  `deserialize` passes the schema to `decodeAvroValue` unchanged, unions
  included.

Module `Text` models the Kotlin string functions the naming code uses:
`replace`, `split('.')`, `dropLast`, `joinToString(".")`, `last` and
`removeSuffix`. It also gives an independent reference for "before / after
the last dot" (`LastDot`, `BeforeLastDot`, `AfterLastDot`) and proves that
the split/join pipeline matches it. Module `Wrappers` gives `Option` for
Kotlin's nullable types.

How the model stands in for the pieces around the core:

- An annotation list is represented by what the annotation extractor returns
  from it: `AnnotationView(name, namespace)`, two optional strings.
- A naming strategy is a function `string -> string`. `DefaultNamingStrategy`
  is the identity.
- `extractNonNull` is a function parameter with no interpretation.
- A concrete serializer is a value holding its two hooks as functions.
- An encoder or decoder is the current field's schema plus an opaque output
  or input.
- `Serialize` and `Deserialize` also return the list of hook calls they made.
  This is how "called exactly once, with these arguments" is stated.

Three behaviours of the code are worth knowing, and the model keeps them:

- A dotless path gets namespace `""`, not null, so the full name of `Top` is
  `.Top` (`DotlessPathEmptyNamespace`, `FullNameRoundTrip`).
- Every `.<init>` anywhere in the path is removed in one left-to-right pass,
  then every `.<anonymous>` (`NormalizeDropsInnerInit`,
  `NormalizeDropsInnerAnonymous`). A marker formed by a removal stays
  (`NormalizeSinglePass`). Because `.<init>` goes first, removing it can
  complete an `.<anonymous>` that the second pass then removes
  (`InnerAnonymousCanReform`).
- Every UNION goes through `extractNonNull`, whether or not it has a NULL
  branch.

## Model

| member | source | states |
|---|---|---|
| `Naming.FromPath` | src/main/kotlin/com/github/avrokotlin/avro4k/RecordNaming.kt:35-46 | The namespace is never null. It is the namespace override if there is one, otherwise the normalised path's text before the last dot. The name is the strategy applied to the name override if there is one, otherwise to the text after the last dot. |
| `Naming.Normalize` | src/main/kotlin/com/github/avrokotlin/avro4k/RecordNaming.kt:36-38 | Normalisation never lengthens a path, and a path without a dot is left as it is. Together with `NormalizeUnchangedIff`, `NormalizeDropsInnerInit`, `NormalizeDropsInnerAnonymous`, `NormalizeTrailingInit`, `NormalizeTrailingAnonymous`, `NormalizeSinglePass` and `InnerAnonymousCanReform`, it describes what normalisation does. |
| `Naming.FromPathDefault` | src/main/kotlin/com/github/avrokotlin/avro4k/RecordNaming.kt:61-62 | With the default strategy, the name is the override or the text after the last dot, unchanged. The namespace is derived as in the three-argument overload. |
| `Naming.FromDescriptor` | src/main/kotlin/com/github/avrokotlin/avro4k/RecordNaming.kt:48-52 | The namespace is never null. The descriptor's own annotations supply the overrides. Without them, both parts come from the serial name after the nullable `?` is dropped, and the strategy applies to the name only. `NullableDropsOneQuestionMark` and `NonNullableKeepsSerialName` reduce it exactly to the path overload. |
| `Naming.FromDescriptorDefault` | src/main/kotlin/com/github/avrokotlin/avro4k/RecordNaming.kt:64 | With the default strategy, the name is the name override or the last segment of the adjusted serial name, unchanged. `DescriptorDefaultIsPathDefault` reduces it exactly to the default path overload. |
| `Naming.DescriptorPath` | src/main/kotlin/com/github/avrokotlin/avro4k/RecordNaming.kt:48-49 | One trailing `?` is removed from the serial name, and only when the descriptor is nullable. Any other serial name is kept as it is. |
| `Naming.NullableDropsOneQuestionMark` | src/main/kotlin/com/github/avrokotlin/avro4k/RecordNaming.kt:48-52 | A nullable descriptor named `base?` gets the naming of path `base`, under the descriptor's own annotations and the given strategy. |
| `Naming.NonNullableKeepsSerialName` | src/main/kotlin/com/github/avrokotlin/avro4k/RecordNaming.kt:48-52 | A non-nullable descriptor is named from its serial name exactly, any `?` included. |
| `Naming.DescriptorDefaultIsPathDefault` | src/main/kotlin/com/github/avrokotlin/avro4k/RecordNaming.kt:61-64 | The default-strategy descriptor overload agrees with the default-strategy path overload on the descriptor's adjusted serial name. |
| `Naming.FromElement` | src/main/kotlin/com/github/avrokotlin/avro4k/RecordNaming.kt:54-59 | There is a result exactly when the index is in range. The result is the naming of that element's own name under that element's own annotations. |
| `Naming.ElementIgnoresOwner` | src/main/kotlin/com/github/avrokotlin/avro4k/RecordNaming.kt:54-59 | The element naming does not depend on the owning descriptor's serial name, nullability or annotations. |
| `Naming.RecordNaming.FullName` | src/main/kotlin/com/github/avrokotlin/avro4k/RecordNaming.kt:30-32 | The name always ends the full name. A namespace, even an empty one, is followed by exactly one dot and then the name. Without a namespace, nothing precedes the name. |
| `Naming.FullNameParts` | src/main/kotlin/com/github/avrokotlin/avro4k/RecordNaming.kt:30-32 | With a namespace and a dot-free name, the full name splits back: the namespace is before the last dot and the name after it. Without a namespace, the full name is the name, whatever the name. |
| `Naming.FullNameInjective` | src/main/kotlin/com/github/avrokotlin/avro4k/RecordNaming.kt:30-32 | Take two namings with dot-free names and non-null namespaces. If their full names are equal, the namings are equal, so the full name is a faithful cache key. |
| `Naming.FullNameCollision` | src/main/kotlin/com/github/avrokotlin/avro4k/RecordNaming.kt:30-32 | A dotted name override breaks the key. Name `b.c` in namespace `a` and name `c` in namespace `a.b` are different namings with the same full name `a.b.c`. |
| `Naming.NormalizeUnchangedIff` | src/main/kotlin/com/github/avrokotlin/avro4k/RecordNaming.kt:36-38 | Normalisation leaves a path unchanged if and only if the path contains neither `.<init>` nor `.<anonymous>`. |
| `Naming.NormalizeTrailingInit` | src/main/kotlin/com/github/avrokotlin/avro4k/RecordNaming.kt:36-38 | For every path, appending `.<init>` does not change the normalised path. |
| `Naming.NormalizeTrailingAnonymous` | src/main/kotlin/com/github/avrokotlin/avro4k/RecordNaming.kt:36-38 | For every path, appending `.<anonymous>` does not change the normalised path. |
| `Naming.NormalizeSinglePass` | src/main/kotlin/com/github/avrokotlin/avro4k/RecordNaming.kt:36-38 | `a..<init><init>` normalises to `a.<init>`: a marker formed by a removal is not removed again. |
| `Naming.NormalizeDropsInnerInit` | src/main/kotlin/com/github/avrokotlin/avro4k/RecordNaming.kt:36-38 | A `.<init>` anywhere in the path is removed and the rest of the path is kept, whenever the text after it is empty or starts a new segment (a dot). |
| `Naming.NormalizeDropsInnerAnonymous` | src/main/kotlin/com/github/avrokotlin/avro4k/RecordNaming.kt:36-38 | A `.<anonymous>` anywhere in the path is removed and the rest of the path is kept, whenever the text after it is empty, or starts a new segment that is not `.<init>`. |
| `Naming.InnerAnonymousCanReform` | src/main/kotlin/com/github/avrokotlin/avro4k/RecordNaming.kt:36-38 | The condition on `.<anonymous>` cannot be dropped. `q.<anon.<anonymous>.<init>ymous>` normalises to `q.<anonymous>`, while the same path without its inner `.<anonymous>` normalises to `q`. This is because `.<init>` is removed first. |
| `Naming.TrailingMarkerIgnored` | src/main/kotlin/com/github/avrokotlin/avro4k/RecordNaming.kt:35-46 | A path followed by `.<init>` or `.<anonymous>` gets the same naming as the bare path, for every annotation view and strategy. |
| `Naming.DotlessPathEmptyNamespace` | src/main/kotlin/com/github/avrokotlin/avro4k/RecordNaming.kt:40-41 | Without a namespace override, a dotless path gets namespace `""`, never null. Without a name override, its name is the strategy applied to the whole path. |
| `Naming.NameOverrideOnlyChangesName` | src/main/kotlin/com/github/avrokotlin/avro4k/RecordNaming.kt:40-43 | A name override makes the name the strategy applied to the override. The namespace is the same as without the override. |
| `Naming.NamespaceOverrideOnlyChangesNamespace` | src/main/kotlin/com/github/avrokotlin/avro4k/RecordNaming.kt:40-43 | A namespace override becomes the namespace. The name is the same as without the override. |
| `Naming.StrategyOnlyAffectsName` | src/main/kotlin/com/github/avrokotlin/avro4k/RecordNaming.kt:40-44 | The namespace does not depend on the strategy. The name is the strategy applied to the default-strategy name. |
| `Naming.DefaultNamingOfNormalPath` | src/main/kotlin/com/github/avrokotlin/avro4k/RecordNaming.kt:35-46 | Take an already-normal path, no overrides and the default strategy. The path is cut at its last dot: the name is after it and the namespace before it. |
| `Naming.FullNameRoundTrip` | src/main/kotlin/com/github/avrokotlin/avro4k/RecordNaming.kt:30-46 | Take a marker-free path, the default strategy and no overrides. If the path has a dot, its full name is the path itself. If it has none, the full name is `"." + path`. |
| `Text.Replace` | src/main/kotlin/com/github/avrokotlin/avro4k/RecordNaming.kt:37-38 | Replacing a text by itself changes nothing. The reading of `replace` that normalisation relies on (leftmost occurrences, no overlaps, no re-scan of replaced text) is proved in `RemoveUnchangedIff`, `RemoveNeverLengthens`, `ReplaceMarkerConcat` and `ReplaceMarkerSegment`. |
| `Text.Split` | src/main/kotlin/com/github/avrokotlin/avro4k/RecordNaming.kt:40-41 | `split('.')` always yields at least one segment, and no segment contains a dot. |
| `Text.JoinSplit` | src/main/kotlin/com/github/avrokotlin/avro4k/RecordNaming.kt:40-41 | Joining the segments of a split with `.` gives back the original text. |
| `Text.SplitJoin` | src/main/kotlin/com/github/avrokotlin/avro4k/RecordNaming.kt:40-41 | Splitting the join of a non-empty list of dot-free segments gives back the list. |
| `Text.SplitAtLastDot` | src/main/kotlin/com/github/avrokotlin/avro4k/RecordNaming.kt:40-41 | Joining all segments but the last gives the text before the last dot. The last segment is the text after the last dot and contains no dot. |
| `Text.Join` | src/main/kotlin/com/github/avrokotlin/avro4k/RecordNaming.kt:40 | `joinToString(".")` of no segments is empty and of one segment is that segment. With more, the first segment and a dot start the result. `JoinSplit`, `SplitJoin` and `SplitAtLastDot` relate it to `split('.')`. |
| `Text.DropLast` | src/main/kotlin/com/github/avrokotlin/avro4k/RecordNaming.kt:40 | `dropLast(1)` leaves one segment fewer, and putting the last segment back gives the list again. An empty list stays empty. |
| `Text.Last` | src/main/kotlin/com/github/avrokotlin/avro4k/RecordNaming.kt:41 | `last()` is an element of the list, and the only one when the list has one element. `DropLast` puts it back to give the list. |
| `Text.RemoveSuffix` | src/main/kotlin/com/github/avrokotlin/avro4k/RecordNaming.kt:49 | `removeSuffix(suffix)` removes exactly one copy of the suffix when the text ends with it, so appending the suffix to the result gives the text back. Otherwise the text is unchanged. |
| `Text.ReplaceMarkerSegment` | src/main/kotlin/com/github/avrokotlin/avro4k/RecordNaming.kt:37-38 | A segment, meaning a dot followed by dot-free text, loses the marker at its head if it starts with one, and is otherwise kept whole. |
| `Text.RemoveUnchangedIff` | src/main/kotlin/com/github/avrokotlin/avro4k/RecordNaming.kt:37-38 | `replace(x, "")` leaves a text unchanged if and only if `x` does not occur in it. |
| `Text.ReplaceMarkerConcat` | src/main/kotlin/com/github/avrokotlin/avro4k/RecordNaming.kt:37-38 | Take a marker that has a dot only at its start, and a second part that starts with a dot. Removing the marker from the joined text equals removing it from each part. |
| `Serialization.Serialize` | src/main/kotlin/com/github/avrokotlin/avro4k/serializer/AvroSerializer.kt:15-23 | `encodeAvroValue` is called exactly once, with the caller's value. It gets the field schema unchanged when that is not a UNION, and `extractNonNull(schema)` when it is. The output is what the hook wrote. |
| `Serialization.Deserialize` | src/main/kotlin/com/github/avrokotlin/avro4k/serializer/AvroSerializer.kt:25-33 | `decodeAvroValue` is called exactly once, with the field schema unchanged, unions included. The value returned is the one the hook produced. |
| `Serialization.EncodePolicyUniform` | src/main/kotlin/com/github/avrokotlin/avro4k/serializer/AvroSerializer.kt:13-23 | Any two serializers make the same encode hook call for the same field and value. The union policy belongs to the final skeleton, not to the subclass. |
| `Serialization.DecodePolicyUniform` | src/main/kotlin/com/github/avrokotlin/avro4k/serializer/AvroSerializer.kt:25-37 | Any two serializers make the same decode hook call for the same field. |
| `Serialization.UnionSeenOnlyWhenDecoding` | src/main/kotlin/com/github/avrokotlin/avro4k/serializer/AvroSerializer.kt:15-32 | Suppose `extractNonNull` turns the field's union into a non-union. Then the encode hook never sees a UNION, while the decode hook sees one exactly when the field schema is a UNION. |
| `Serialization.SameSchemaOffUnion` | src/main/kotlin/com/github/avrokotlin/avro4k/serializer/AvroSerializer.kt:15-32 | For a field schema that is not a UNION, the encode hook and the decode hook get the same schema. |

## Left out

- `AnnotationExtractor` is not part of this model. An annotation list is represented by the two overrides the extractor returns from it. The rule it uses when several annotations of one kind are present is not modelled, and neither is the erased-name flag, which this code does not read.
- `DefaultNamingStrategy` is not part of this model. It is taken to be the identity.
- `extractNonNull` is not part of this model. It is a parameter, so nothing is claimed about which union branch it picks or how it treats branch order.
- The lazy caching of `fullName` and its thread safety are not modelled. `FullName` is a pure function of the two fields.
- The casts `encoder as SchemaBasedEncoder`, `encoder as ExtendedEncoder` and `decoder as FieldDecoder` are not modelled, nor is the `ClassCastException` they could throw. The encoder and decoder are assumed to provide the field schema.
- Concrete encoders, decoders and byte I/O are not modelled. The encode hook's effect is an opaque new output. The input the decode hook consumes is not tracked, because `deserialize` returns only the value.
- Naming.Normalize: the lemmas describe a marker removed at a segment boundary, meaning the text after it is empty or starts with a dot. A marker followed directly by other text, as in `a.<init>x`, is still removed by the model's `Replace`, but no lemma states the result for that case.
- Naming.FromElement: `getElementName` throwing on an index out of range is modelled as `None`.
- The record-name format with type parameters (`name__typea_typeb`) described in the field's documentation is not produced by this code, and is not modelled.
- `buildSrc/src/main/kotlin/Libs.kt` holds only build and dependency versions, with no behaviour to model.
