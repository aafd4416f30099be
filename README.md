# Guava `ImmutableList` deserializer — a Dafny model

This project models the part of jackson-datatype-guava that reads the contents of a JSON array
(RFC 8259, section 5) into a Guava `ImmutableList`. It is the class `ImmutableListDeserializer`,
and its model has two parts:

- `_deserializeContents` is the element loop. It pulls tokens from the parser until the first
  end-of-array token. A JSON null token becomes a null entry. Every other element goes to the
  element deserializer: to its plain `deserialize` when no type deserializer is configured, to
  `deserializeWithType` otherwise. Each result is added to a Guava builder. The builder is
  frozen into the immutable list once the loop ends.
- `withResolved` copies the deserializer with a new type deserializer and value deserializer.

Files and modules:

- `wrappers.dfy` (`Wrappers`): `Option` (Java's nullable reference) and `Result` (a value, or the
  exception that was thrown instead).
- `json_parser.dfy` (`JsonParser`): the parser as a class over a finite token sequence. Each
  token is a slot: the end-of-array marker, a JSON null, or one whole element (`Value`) whose
  payload the element deserializer reads. `NextToken` advances. At end of input it returns
  `None`, Java's null token.
- `guava_builder.dfy` (`GuavaBuilder`): the list builder as a class with an append-only
  `entries` sequence. Whether it admits null entries is the constant `admitsNull`.
- `immutable_list_deserializer.dfy` (`ImmutableListDeserializer`): the configured deserializer
  as a datatype; `WithResolved`; and the imperative loop `DeserializeContents` with its element
  classification `DecodeElement`. Both methods are proved equal to pure specifications.
  `Dispatch` picks the entry point, `Invoke` calls it, `Step` is one loop iteration and `Run`
  is the whole loop. `Run` gives the result, the number of tokens pulled and the sequence of
  decoder calls.
- `immutable_list_properties.dfy` (`ImmutableListProperties`): what `Run` guarantees for every
  input, every element deserializer and both builder null policies.
- `immutable_list_example.dfy` (`ImmutableListExample`): the `[1,2,3]` case from
  `TestImmutables.testImmutableList`, proved both on `Run` and through the imperative loop.

The code passes an element deserializer's exception on unchanged. It does not add the element's
position, so `Failure.ElementFailure` carries only the cause.

## Model

| member | source | states |
|---|---|---|
| `JsonParser.Parser.NextToken` | src/main/java/com/fasterxml/jackson/datatype/guava/deser/ImmutableListDeserializer.java:45 | returns the next token and advances by one; at end of input it returns null (`None`) and does not move |
| `GuavaBuilder.ListBuilder.constructor` | src/main/java/com/fasterxml/jackson/datatype/guava/deser/ImmutableListDeserializer.java:43 | a fresh builder holds no entries |
| `GuavaBuilder.ListBuilder.Add` | src/main/java/com/fasterxml/jackson/datatype/guava/deser/ImmutableListDeserializer.java:55 | appends the entry at the end; it refuses a null entry exactly when nulls are not admitted, and then nothing changes; it keeps the invariant that no refused null is held |
| `GuavaBuilder.ListBuilder.Build` | src/main/java/com/fasterxml/jackson/datatype/guava/deser/ImmutableListDeserializer.java:57 | the frozen list holds exactly the entries added, in order, and none of them is null when nulls are not admitted |
| `ImmutableListDeserializer.WithResolved` | src/main/java/com/fasterxml/jackson/datatype/guava/deser/ImmutableListDeserializer.java:23-27 | the new deserializer keeps the receiver's container type and holds exactly the supplied type deserializer and value deserializer; the receiver is a value and is left as it was |
| `ImmutableListDeserializer.DecodeElement` | src/main/java/com/fasterxml/jackson/datatype/guava/deser/ImmutableListDeserializer.java:46-54 | a null token yields a null entry and calls nothing; any other token calls exactly the one entry point that `Dispatch` picks from the configured type deserializer, and yields what that entry point returns |
| `ImmutableListDeserializer.DeserializeContents` | src/main/java/com/fasterxml/jackson/datatype/guava/deser/ImmutableListDeserializer.java:35-58 | the loop's result, the parser position it leaves and the decoder calls it makes are exactly those of `Run` on the tokens not yet read |
| `ImmutableListProperties.RunBuildsList` | src/main/java/com/fasterxml/jackson/datatype/guava/deser/ImmutableListDeserializer.java:45-57 | if the first end marker is at token k and every element before it decodes and is admitted: a list is built with exactly k entries; entry j is element j's decoded value, in order; exactly k+1 tokens are pulled; element j went to the entry point picked for it |
| `ImmutableListProperties.RunOkOnlyIfStopsCleanly` | src/main/java/com/fasterxml/jackson/datatype/guava/deser/ImmutableListDeserializer.java:45-57 | conversely, a list is built only when the last token pulled is the first end marker and every element before it succeeded |
| `ImmutableListProperties.RunFailsAtFirstBadElement` | src/main/java/com/fasterxml/jackson/datatype/guava/deser/ImmutableListDeserializer.java:45-57 | the first element that fails to decode, or that the builder refuses, ends the loop with that element's failure; no list is produced and no later token is pulled; that element was still passed to its entry point, as the last of exactly j+1 calls |
| `ImmutableListProperties.RunEndOfInput` | src/main/java/com/fasterxml/jackson/datatype/guava/deser/ImmutableListDeserializer.java:45 | input that runs out before any end marker, with no failing element, yields `EndOfInput` after every token has been pulled |
| `ImmutableListProperties.EmptyArrayYieldsEmptyList` | src/main/java/com/fasterxml/jackson/datatype/guava/deser/ImmutableListDeserializer.java:43-57 | when the first token is the end marker, the result is the empty list after one token and no decoder call |
| `ImmutableListProperties.RunReadsOnlyConsumed` | src/main/java/com/fasterxml/jackson/datatype/guava/deser/ImmutableListDeserializer.java:45 | the loop never pulls more tokens than exist; unless input ran out, the tokens it pulled alone determine its whole run |
| `ImmutableListProperties.RunIgnoresRest` | src/main/java/com/fasterxml/jackson/datatype/guava/deser/ImmutableListDeserializer.java:45 | tokens after the point where the loop stopped cannot change its result, its position or its calls |
| `ImmutableListProperties.RunCallsFollowTokens` | src/main/java/com/fasterxml/jackson/datatype/guava/deser/ImmutableListDeserializer.java:39-54 | every token pulled except a final end marker is an element that made exactly one call, the failing element included. A null token calls nothing. Any other token calls the plain entry point if there is no type deserializer, and the typed one with the configured type deserializer otherwise. The choice is the same for the whole loop |
| `ImmutableListProperties.NullTokenGivesNullEntry` | src/main/java/com/fasterxml/jackson/datatype/guava/deser/ImmutableListDeserializer.java:48-49 | in a built list, the entry for a null token is null and no decoder was called for it; such a list exists only if the builder admits null |
| `ImmutableListProperties.ResolvedRunUsesSuppliedCollaborators` | src/main/java/com/fasterxml/jackson/datatype/guava/deser/ImmutableListDeserializer.java:23-27 | after `WithResolved`, the loop's behaviour depends only on the supplied collaborators, not on what the receiver held before |
| `ImmutableListExample.ReadsOneTwoThree` | src/test/java/com/fasterxml/jackson/module/guava/TestImmutables.java:92-99 | `[1,2,3]` followed by anything reads as the list 1, 2, 3 in order, after exactly four tokens |
| `ImmutableListExample.ReadIntegerList` | src/test/java/com/fasterxml/jackson/module/guava/TestImmutables.java:94-98 | the imperative loop over `[1,2,3]`, with a builder that rejects nulls, returns the three integers in order |

## Left out

- The start-of-array token, how `_deserializeContents` is invoked, and where its fields
  `_valueDeserializer`, `_typeDeserializerForValue` and `_containerType` come from. They belong to
  the base class `GuavaCollectionDeserializer`, which is not part of this model. The model starts
  with the parser positioned after the start marker.
- Real token I/O and the `DeserializationContext`. The parser is a finite token sequence. Each
  element is one slot, so how an element deserializer consumes the tokens of a nested
  structure is not modelled. The context is not modelled.
- DeserializeContents: when input runs out before an end marker, the model fails with
  `EndOfInput` and calls nothing. The source passes the exhausted parser (null token) to the
  element deserializer. What that deserializer does there is outside this file.
- RunEndOfInput: states the model's `EndOfInput` outcome, not the source's. The loop at
  `ImmutableListDeserializer.java:45-56` has no check for a null token. On cut-off input it
  hands the exhausted parser to the decoder (:51/:53), adds the result and pulls again. It ends
  only if the decoder throws or the builder refuses the value it returns.
- The element deserializer's two entry points, `deserialize` and `deserializeWithType`, are
  opaque functions. Each returns a value, a null reference or an exception. The type
  deserializer is an opaque value `T` passed to the typed entry point; how it resolves a type id
  is not modelled.
- Guava's `ImmutableList.Builder` internals. Whether the builder accepts the null added for a
  JSON null is decided by the Guava library, so it is the parameter `admitsNull`, and a refusal is
  `Failure.NullNotAllowed`. Exceptions are not distinguished by Java type.
- A null `_valueDeserializer` is not modelled; the source does not handle it either.
- The set, sorted-set, map and multimap deserializers and all serialization. Their sources are
  not part of this model. They appear only in `TestImmutables.java:36-48`,
  `TestImmutables.java:101-127` and `TestMultimaps.java:34-52`.
- Module registration, the failure for a missing deserializer (`TestImmutables.java:53-84`) and
  the test helper `verifyException` (`BaseTest.java:13-29`). The first two belong to the host
  mapper; the helper is test scaffolding.
