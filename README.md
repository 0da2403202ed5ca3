# Type-alias index and missing-features inspection (intellij-rust)

This project models two small pieces of decision logic from the Rust plugin
for IntelliJ. It proves properties of the models in Dafny.

**Type-alias index** (`type_alias_index.dfy`, module `TypeAliasIndex`). This
is an inverted index from a type fingerprint to type-alias declarations.

- *Building.* `Index` reports an alias to the host's sink (`IndexSink`). It
  emits one occurrence per fingerprint of the alias's type reference, in
  order, and nothing when the alias has no type reference. The owner is not
  looked at.
- *Storage.* The host's storage is modelled as a map from a fingerprint to a
  sequence of aliases (`Build`, `GetElements`). It is proved equal to a
  reference filter (`AliasesUnder`).
- *Querying.* `FindPotentialAliases` answers `false` at once when there are
  more than ten candidates (`MaxCandidates`). Otherwise it walks the
  candidates in order and offers only module-level (`Free`) aliases to the
  processor. It stops at the first alias the processor accepts.
- *Calls.* The processor is a pure predicate. The method also returns, as
  the ghost out-parameter `calls`, the aliases it passed to the processor,
  so "never called" can be stated.
- *Ambiguous `false`.* `FalseIsAmbiguous` proves that a cut-off list and an
  empty list both give `false`. The caller cannot tell the two apart.

**Missing-features inspection** (`missing_features.dfy`, module
`MissingFeaturesInspection`). This reports the disabled Cargo features that a
file's target needs.

- The collected sets are specified by set comprehensions:
  `MissingFromDependencies`, `DisabledAmong` and `MissingForTarget`.
- The collectors are loops over dependencies and required features. They grow
  a mutable set (`PackageFeatureSet`) in place and are verified against those
  comprehensions.
- `CheckFile` has four early exits. Each one gives no answer.
- `CreateProblemDescriptors` gives no warning for an empty set and exactly one
  warning for a non-empty set.

`wrappers.dfy` holds the `Option` datatype. It stands for Kotlin's nullable
references.

Details of the code the model keeps:

- Indexing fingerprints the type reference with an empty list of generic
  parameters, not with the alias's declared parameters
  (`RsTypeAliasIndex.kt:49`).
- The query returns only a Boolean. Any results are collected by the
  processor itself (`RsTypeAliasIndex.kt:41-43`).
- Trait- and impl-owned aliases are stored in the index. They are filtered
  out only when the index is queried (`RsTypeAliasIndex.kt:46-51`).

## Model

| member | source | states |
|---|---|---|
| `TypeAliasIndex.Index` | src/main/kotlin/org/rust/lang/core/resolve/indexes/RsTypeAliasIndex.kt:46-51 | the sink receives exactly the fingerprints of the type reference, one occurrence each, in order; nothing for an alias with no type reference |
| `TypeAliasIndex.IndexSink.Occurrence` | src/main/kotlin/org/rust/lang/core/resolve/indexes/RsTypeAliasIndex.kt:50 | one reported occurrence is appended to the sink |
| `TypeAliasIndex.NoTypeReferenceNoOccurrence` | src/main/kotlin/org/rust/lang/core/resolve/indexes/RsTypeAliasIndex.kt:48 | an alias without a type reference is recorded under no key |
| `TypeAliasIndex.IndexedKeysIgnoreOwner` | src/main/kotlin/org/rust/lang/core/resolve/indexes/RsTypeAliasIndex.kt:46-51 | two aliases with the same type reference are recorded under the same keys, whatever their owners |
| `TypeAliasIndex.BuildMatchesReference` | src/main/kotlin/org/rust/lang/core/resolve/indexes/RsTypeAliasIndex.kt:46-51 | the index built one alias at a time holds, under each key, the aliases whose fingerprints contain that key, in indexing order |
| `TypeAliasIndex.IndexMembership` | src/main/kotlin/org/rust/lang/core/resolve/indexes/RsTypeAliasIndex.kt:46-51 | an alias is stored under a key if and only if it was indexed, it has a type reference, and the key is one of that reference's fingerprints |
| `TypeAliasIndex.NonFreeAliasesAreIndexed` | src/main/kotlin/org/rust/lang/core/resolve/indexes/RsTypeAliasIndex.kt:46-51 | trait- and impl-owned aliases are stored under their fingerprints; the build does not filter by owner |
| `TypeAliasIndex.BuildIndependence` | src/main/kotlin/org/rust/lang/core/resolve/indexes/RsTypeAliasIndex.kt:46-51 | indexing two batches together gives, under every key, the first batch's entries followed by the second's |
| `TypeAliasIndex.FindPotentialAliases` | src/main/kotlin/org/rust/lang/core/resolve/indexes/RsTypeAliasIndex.kt:29-44 | more than ten candidates: `false` and no processor call; otherwise `true` if and only if some `Free` candidate is accepted, with the processor called exactly as the short-circuiting walk does |
| `TypeAliasIndex.ProcessorSeesOnlyFree` | src/main/kotlin/org/rust/lang/core/resolve/indexes/RsTypeAliasIndex.kt:41-43 | every alias passed to the processor is `Free` |
| `TypeAliasIndex.ProcessorCallsArePrefixOfFree` | src/main/kotlin/org/rust/lang/core/resolve/indexes/RsTypeAliasIndex.kt:41-43 | the processor receives a prefix of the `Free` candidates, in order; each one before the last was rejected; if none is accepted, it receives all of them |
| `TypeAliasIndex.ProcessorCallsStopAtAccepted` | src/main/kotlin/org/rust/lang/core/resolve/indexes/RsTypeAliasIndex.kt:41-43 | the last alias passed to the processor is accepted if and only if some `Free` candidate is accepted, so nothing after the first accepted one is passed |
| `TypeAliasIndex.NoFreeCandidateNoAlias` | src/main/kotlin/org/rust/lang/core/resolve/indexes/RsTypeAliasIndex.kt:41-43 | an empty list, or a list of only trait- and impl-owned aliases, gives `false` with no processor call |
| `TypeAliasIndex.CutoffIsStrict` | src/main/kotlin/org/rust/lang/core/resolve/indexes/RsTypeAliasIndex.kt:37 | ten accepted `Free` candidates give `true`; eleven give `false` |
| `TypeAliasIndex.FalseIsAmbiguous` | src/main/kotlin/org/rust/lang/core/resolve/indexes/RsTypeAliasIndex.kt:37-43 | a cut-off list that contains an accepted `Free` alias and the empty list both give `false` |
| `MissingFeaturesInspection.PackageFeatureSet.Add` | src/main/kotlin/org/rust/ide/inspections/RsMissingFeaturesInspection.kt:57 | `+=` on the mutable set adds one element and keeps the rest |
| `MissingFeaturesInspection.CollectMissingFeaturesForPackageInto` | src/main/kotlin/org/rust/ide/inspections/RsMissingFeaturesInspection.kt:52-62 | the given set only grows; the new set is the old set plus the comprehension of disabled features required of workspace dependencies |
| `MissingFeaturesInspection.CollectMissingFeaturesForPackage` | src/main/kotlin/org/rust/ide/inspections/RsMissingFeaturesInspection.kt:64-68 | starting from an empty set, the result is exactly the package-level comprehension |
| `MissingFeaturesInspection.CollectMissingFeatureForTarget` | src/main/kotlin/org/rust/ide/inspections/RsMissingFeaturesInspection.kt:34-49 | the result is the package-level set plus the target's own disabled required features, paired with its package, when the package has a library target and the target is not it |
| `MissingFeaturesInspection.PackageMissingIff` | src/main/kotlin/org/rust/ide/inspections/RsMissingFeaturesInspection.kt:52-62 | (p, f) is reported if and only if some dependency leads to p, p is of workspace origin, the dependency requires f, and p has f `Disabled` |
| `MissingFeaturesInspection.ReportedAreWorkspaceDisabled` | src/main/kotlin/org/rust/ide/inspections/RsMissingFeaturesInspection.kt:53-60 | every reported pair is a `Disabled` feature of a workspace package |
| `MissingFeaturesInspection.NonWorkspaceContributesNothing` | src/main/kotlin/org/rust/ide/inspections/RsMissingFeaturesInspection.kt:54 | a dependency on a package that is not of workspace origin contributes nothing, whatever its feature states |
| `MissingFeaturesInspection.EnabledOrAbsentNeverReported` | src/main/kotlin/org/rust/ide/inspections/RsMissingFeaturesInspection.kt:37-60 | a feature that is `Enabled`, or missing from the state table, is never reported for a target |
| `MissingFeaturesInspection.TargetExtendsPackage` | src/main/kotlin/org/rust/ide/inspections/RsMissingFeaturesInspection.kt:37-47 | the target-level set contains the package-level set; it equals that set for a library target or a package without a library; anything extra is the target's own disabled required feature |
| `MissingFeaturesInspection.OwnDisabledFeatureReported` | src/main/kotlin/org/rust/ide/inspections/RsMissingFeaturesInspection.kt:41-47 | a non-library target of a package with a library reports each of its own disabled required features |
| `MissingFeaturesInspection.CreateProblemDescriptors` | src/main/kotlin/org/rust/ide/inspections/RsMissingFeaturesInspection.kt:70-90 | no descriptor for an empty set; exactly one for a non-empty set, carrying the whole set and a fix for it |
| `MissingFeaturesInspection.CheckFile` | src/main/kotlin/org/rust/ide/inspections/RsMissingFeaturesInspection.kt:23-32 | no answer (null) exactly for a non-Rust file, a file with no cargo project or no containing target, or a target of a non-workspace package; otherwise the descriptors for the target's missing features |

## Left out

- `TyFingerprint.create` is a parameter of the model (`Fingerprinter`). Its internals, and any claim that fingerprints are sound, are not modelled.
- The stub-index plumbing is not modelled: `getVersion`, `getKey`, `getKeyDescriptor`, `KEY`, the scope passed to `getElements`, and persistence. A query's candidates are an input sequence. Stored entries keep indexing order, which the host does not promise.
- Background indexing runs concurrently and queries read snapshots. Neither is modelled.
- The processor is a pure predicate. Side effects it has in the plugin, such as collecting results, are not modelled. Only which aliases it receives, and in what order, is modelled.
- Navigating the program structure is replaced by plain fields: `findCargoProject`, `containingCargoTarget`, `stub.psi`, `typeReference` and `owner`.
- Target identity is an id. Package identity is structural equality of the package value.
- `PackageOrigin`'s definition is not among the modelled files. The model's variants (Stdlib, StdlibDependency, Workspace, Dependency) stand for it, and the code tests only `Workspace`.
- Inspection presentation is not modelled: the "Missing features: ..." message text, the highlight type, the `isOnTheFly` flag and `InspectionManager`. A descriptor keeps only the feature set and the fix's project and features.
