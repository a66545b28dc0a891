# Barber binding engine (`RealBarber`) in Dafny

This project models the binding-resolution engine of Barber. That is the class
`RealBarber`, which holds the installed `DocumentCopy` templates keyed by copy
model class. It offers two operations:

- `newRenderer(copyModelClass, documentSpecClass)`:
  1. looks up the installed copy for the copy model;
  2. checks that the document spec is one of the copy's targets;
  3. reads the parameter names of the spec's primary constructor;
  4. copies the template's fields into a mutable map;
  5. adds, with `putIfAbsent(name, null)`, every non-null, non-blank parameter
     name that the template lacks.
- `getAllRenderers()` walks the installed copies and each copy's targets. It
  fills a `LinkedHashMap` keyed by `RendererKey(source, target)` with the result
  of `newRenderer(source, target)`.

Files:

- `kotlin_std.dfy` (`KotlinStd`): the Kotlin/JVM library behaviour the engine
  relies on:
  - nullable values (`Option`);
  - `isNullOrBlank`, using the JVM definition of whitespace;
  - `putIfAbsent`;
  - a `LinkedHashMap` as an insertion-ordered map, `LinkedMap`, whose key order
    is the first occurrences of the keys put into it.
- `models.dfy` (`Models`): the data:
  - the installed copies and the registry, which is the ordered entries of
    `installedDocumentCopy`;
  - renderer keys and renderers;
  - the failures;
  - the constructor table that stands for reflection.
- `real_barber.dfy` (`RealBarber`):
  - field reconciliation;
  - `newRenderer`, as the specification function `Resolve` and as the method
    `NewRenderer`, whose `putIfAbsent` loop is proved against `Resolve`;
  - `getAllRenderers`, as the specification function `Catalog` (a fold, `Build`,
    over the visited keys) and as the method `GetAllRenderers`, whose nested
    loops are proved against `Catalog`;
  - the lemmas relating the specification functions to the behaviour the source
    promises.

Reflection is a parameter. A `ConstructorTable` maps each document spec class
to the parameter names of its primary constructor. A class missing from the
table has no primary constructor.

Points where the source's own comments or names suggest more than the code does;
the model follows the code:

- **Optionality.** The comment at `RealBarber.kt:34` speaks of nullable fields.
  The filter at lines 37-39 tests only the parameter name. So every non-null,
  non-blank parameter name the template lacks is added with a null value,
  whether or not the parameter is nullable.
- **Missing primary constructor.** `primaryConstructor!!` at line 30 throws a
  null-pointer exception, not a `BarberException`. The model calls this case
  `NoPrimaryConstructor`.
- **Resolution by source.** Line 52 resolves by `documentCopy.source`, not by
  the key the copy is installed under. So `getAllRenderers` fails when a copy
  that has a target names a source that is not installed
  (`MismatchedSourceFails`); a copy without targets is never resolved. Full
  coverage is proved only under the assumptions that every copy's source equals
  its key and every target has a primary constructor (`CatalogCoverage`).

## Model

| member | source | states |
|---|---|---|
| `KotlinStd.PutIfAbsent` | client/src/main/kotlin/com/squareup/barber/RealBarber.kt:43 | the key is present afterwards; a non-null value is never replaced; a missing or null-bound key gets the new value; every other key keeps its value |
| `KotlinStd.EmptyLinkedMap` | client/src/main/kotlin/com/squareup/barber/RealBarber.kt:49 | `linkedMapOf()` is a well-formed map with no entries |
| `KotlinStd.PutSpec` | client/src/main/kotlin/com/squareup/barber/RealBarber.kt:52 | `renderers[key] = value` keeps the map well formed and binds `key` to `value`; a new key goes last in iteration order; a present key keeps its place; every other entry is unchanged |
| `KotlinStd.FirstOccurrencesSpec` | client/src/main/kotlin/com/squareup/barber/RealBarber.kt:49-53 | the first occurrences of a sequence list every element exactly once, nothing else, and are no longer than the sequence |
| `KotlinStd.PutOrder` | client/src/main/kotlin/com/squareup/barber/RealBarber.kt:52 | after putting a key and then more keys, the iteration order is the first occurrences of the old order followed by all the keys, whether or not the key was already present |
| `Models.Registry.InstalledSpec` | client/src/main/kotlin/com/squareup/barber/RealBarber.kt:50-51 | iterating `installedDocumentCopy` yields one copy per entry: every installed copy, and nothing that is not installed |
| `KotlinStd.IsNullOrBlank` | client/src/main/kotlin/com/squareup/barber/RealBarber.kt:38 | a parameter name is null-or-blank iff it is null or every character is JVM whitespace; the empty name is blank |
| `RealBarber.MissingFields` | client/src/main/kotlin/com/squareup/barber/RealBarber.kt:37-39 | the missing fields are exactly the non-null, non-blank parameter names absent from the template's fields, each listed once |
| `RealBarber.MissingFieldsNone` | client/src/main/kotlin/com/squareup/barber/RealBarber.kt:37-39 | nothing is missing from a field map that already holds every named parameter |
| `RealBarber.ReconciledSpec` | client/src/main/kotlin/com/squareup/barber/RealBarber.kt:37-43 | the reconciled key set is the template's keys plus the named parameters; template fields keep their values; every added key is bound to null |
| `RealBarber.ReconciledAddsOnlyNamed` | client/src/main/kotlin/com/squareup/barber/RealBarber.kt:37-43 | every added key is the name of a constructor parameter, and that name is not blank; null names are never added |
| `RealBarber.ReconcileIdempotent` | client/src/main/kotlin/com/squareup/barber/RealBarber.kt:42-43 | after reconciliation nothing is missing, and reconciling again against the same constructor changes nothing |
| `RealBarber.ResolveSpec` | client/src/main/kotlin/com/squareup/barber/RealBarber.kt:10-46 | fails with `UnboundCopyModel` iff the copy model is not installed; with `InvalidTarget`, carrying the copy's targets, iff the copy lacks the target; with `NoPrimaryConstructor` iff the target has no constructor; otherwise yields the target, its parameters and the reconciled fields |
| `RealBarber.NewRenderer` | client/src/main/kotlin/com/squareup/barber/RealBarber.kt:10-46 | the lookup, the target check and the `putIfAbsent` loop over a copy of the fields compute exactly `Resolve` |
| `RealBarber.TargetKeysSpec` | client/src/main/kotlin/com/squareup/barber/RealBarber.kt:52 | the `forEach` over one copy's targets visits one key per target, and a key is visited iff the copy declares it (its source paired with one of its targets) |
| `RealBarber.KeysOf` | client/src/main/kotlin/com/squareup/barber/RealBarber.kt:50-52 | the nested loop visits as many keys as the copies have targets in total |
| `RealBarber.KeysOfMembership` | client/src/main/kotlin/com/squareup/barber/RealBarber.kt:50-52 | a key is visited iff one of the copies declares it, as its source paired with one of its targets |
| `RealBarber.BuildSucceedsIff` | client/src/main/kotlin/com/squareup/barber/RealBarber.kt:49-53 | the loop completes iff every visited key resolves |
| `RealBarber.BuildFirstError` | client/src/main/kotlin/com/squareup/barber/RealBarber.kt:49-53 | a failing loop raises the failure of the first key that does not resolve; every key before it resolved |
| `RealBarber.BuildValid` | client/src/main/kotlin/com/squareup/barber/RealBarber.kt:49-53 | a completed loop keeps the map well formed: its iteration order lists each key exactly once |
| `RealBarber.BuildOrder` | client/src/main/kotlin/com/squareup/barber/RealBarber.kt:49-53 | a completed loop's iteration order is the first occurrences of the old order followed by the visited keys, so a repeated key keeps its first position |
| `RealBarber.BuildEntries` | client/src/main/kotlin/com/squareup/barber/RealBarber.kt:49-53 | a completed loop holds exactly the old keys plus the visited keys; each visited key is bound to its resolved renderer; every other entry is unchanged |
| `RealBarber.BuildAppend` | client/src/main/kotlin/com/squareup/barber/RealBarber.kt:50-53 | visiting two runs of keys equals visiting the first and, if it succeeds, continuing from its map with the second |
| `RealBarber.VisitedKeys` | client/src/main/kotlin/com/squareup/barber/RealBarber.kt:50-52 | the visited keys are exactly the pairs some installed copy declares |
| `RealBarber.VisitedKeysResolve` | client/src/main/kotlin/com/squareup/barber/RealBarber.kt:50-52 | every visited key resolves iff every pair an installed copy declares resolves |
| `RealBarber.CatalogSucceedsIff` | client/src/main/kotlin/com/squareup/barber/RealBarber.kt:48-55 | `getAllRenderers` returns iff `newRenderer(copy.source, target)` succeeds for every installed copy and target |
| `RealBarber.CatalogFirstError` | client/src/main/kotlin/com/squareup/barber/RealBarber.kt:48-55 | a failing `getAllRenderers` raises the failure of the first visited pair that does not resolve; all earlier pairs resolved |
| `RealBarber.CatalogOrder` | client/src/main/kotlin/com/squareup/barber/RealBarber.kt:48-55 | the returned map is well formed; its order is the visited pairs in first-visit order (copies, then each copy's targets); it has at most as many entries as there are targets |
| `RealBarber.CatalogEntries` | client/src/main/kotlin/com/squareup/barber/RealBarber.kt:48-55 | the returned map's keys are exactly the declared pairs; each value is what `newRenderer` yields for that pair |
| `RealBarber.CatalogCoverage` | client/src/main/kotlin/com/squareup/barber/RealBarber.kt:48-55 | when every copy's source is its own key and every target has a constructor, `getAllRenderers` succeeds; it holds exactly one entry per installed copy and target, each the renderer for that pair |
| `RealBarber.MismatchedSourceFails` | client/src/main/kotlin/com/squareup/barber/RealBarber.kt:50-52 | a copy with a target, whose source is not installed, makes `getAllRenderers` fail |
| `RealBarber.PutCopyRenderers` | client/src/main/kotlin/com/squareup/barber/RealBarber.kt:52 | the `forEach` over one copy's targets computes the fold over that copy's keys, stopping at the first failure |
| `RealBarber.GetAllRenderers` | client/src/main/kotlin/com/squareup/barber/RealBarber.kt:48-55 | the nested loops filling the `LinkedHashMap` compute exactly `Catalog` |

## Left out

- Kotlin reflection (`KClass`, `primaryConstructor`, `parameters`) is not part of this model. Its result is a `ConstructorTable` parameter: parameter names in declaration order, `null` for an unnamed parameter, and no entry for a class without a primary constructor.
- `RealRenderer` and rendering (template substitution) are not part of this model. A renderer is the record of the target, the constructor's parameter names, and the reconciled field map.
- `Renderer` keeps the parameter list as the constructor reports it, not the `associateBy { it.name }` map built from it. Among parameters that share a name the map keeps the last; the model's field reconciliation depends only on the set of names.
- Exception message text (the `trimMargin` strings) is not modelled. Failures are the variants of `BarberError`, carrying the class names and the copy's targets.
- `NoPrimaryConstructor` stands for the `NullPointerException` thrown by `!!` (a `KotlinNullPointerException` before Kotlin 1.4). The source throws no `BarberException` for it.
- The iteration order of the reconciled `MutableMap` is not modelled. Only its keys and values are, because nothing in the core reads that order.
- The iteration order of `installedDocumentCopy` depends on a `Map` implementation that is not shown. The model takes it as the given order of `Registry`.
- `IsWhitespace` follows the JVM's `Char.isWhitespace` under current Unicode data. It does not count U+180E (MONGOLIAN VOWEL SEPARATOR), which older Unicode versions did.
- The registry is an immutable value, so `newRenderer` cannot change it or the installed fields. The defensive copy (`toMutableMap`) is modelled as a fresh local map.
- `RealBarber.KeysOf`: its contract states only the number of visited keys; which keys are visited is stated by `KeysOfMembership`, and their order by its definition.
- The test fixture `RecipientReceipt.kt` (a data class with no logic) is not part of this model.
