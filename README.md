# cpilint: the expanded iflow artifact reader, in Dafny

This project models how cpilint turns an expanded SAP Cloud Integration
integration-flow package (a directory on disk) into an iflow artifact, and proves
what that construction promises.

- The **tag** (ID and name) comes from `META-INF/MANIFEST.MF`. The name is the
  `Bundle-Name` header taken verbatim. The ID is the first `;`-separated token of
  `Bundle-SymbolicName`, which must split, as Java's `String.split` does, into one
  or two tokens.
- The **iflow document** is built from the raw bytes of the single `.iflw` file
  under `src/main/resources/scenarioflows/integrationflow`.
- The **resources** come from ten puts, one per resource type. Each put lists one
  directory under `src/main/resources` and keeps the files that a file-extension
  predicate accepts, in listing order. The resource name is the text after the
  last `/` of the file's absolute path. A directory that cannot be listed gives an
  empty collection.
- When `src/main/resources/parameters.prop` exists, every `.iflw` resource carries
  the external-parameters transform of the flow instead of its raw bytes.
- `getResourcesByType` fails only for a type that has no entry in the map.
- `ExtensionPredicate` accepts a non-null file whose final name component ends
  with a fixed extension. The comparison is case-sensitive, and predicates combine
  with `Predicate.or`.

Files:

- `wrappers.dfy`: `Option` and `Result`.
- `java_string.dfy`: the Java string operations the core relies on: `lastIndexOf`,
  `endsWith`, and `split` with a single-character separator, including Java's
  dropping of trailing empty tokens.
- `extension_predicate.dfy`: `File.getName` and `ExtensionPredicate.test`.
- `artifact_types.dfy`: tags, resource types, resources, errors, and the package
  on disk. A package is a root path plus, for each listable directory, its
  entries. An entry has a name and a body that is either its bytes or absent
  (the entry exists but cannot be read).
- `iflow_artifact.dfy`: the operations of `ExpandedZipArchiveIflowArtifact`.
  - `getArtifactResourceCollection` and `from` are methods with loops. Each is
    proved equal to a specification function (`Collection` and `Assemble`).
  - The rest are functions.
- `iflow_artifact_properties.dfy`: the lemmas about those operations.

Code the core calls but does not own is passed in as the function-typed fields of
`Collaborators`:

- the manifest parser, as `Bytes -> Option<Headers>`;
- `Properties.load`;
- the Saxon stylesheet run.

`None` from any of these stands for the exception it throws. The parsed flow is
`IflowXml(source)`, which records the bytes it was built from.

The model keeps these behaviours of the code, which a reader may not expect:

- An empty `Bundle-Name` value is accepted as the name (`CreateTagKeepsEmptyName`).
- A leading `;` yields an empty ID, for example `";a"` (`ExtractIdLeadingSeparator`).
- The iflow document is parsed from the raw `.iflw` bytes even when
  `parameters.prop` exists (`AssembleIflowXmlFromRawFile`). Only the `.iflw`
  resource carries the transformed bytes.
- The override replaces the bytes of every matched `.iflw` file rather than
  creating a resource of its own. `from` has already required exactly one `.iflw`
  file in that same directory, so the iflow entry holds exactly one resource
  (`AssembleIflowResource`).

## Model

| member | source | states |
|---|---|---|
| JavaString.LastIndexOf | src/dk/mwittrock/cpilint/artifacts/ExpandedZipArchiveIflowArtifact.java:253 | The result is -1 exactly when the character is absent. Otherwise it is an index holding the character, with no occurrence after it. |
| JavaString.EndsWithIffConcat | src/dk/mwittrock/cpilint/util/ExtensionPredicate.java:16 | `endsWith(suffix)` holds exactly when the string is some prefix followed by the suffix. |
| JavaString.SplitAll | src/dk/mwittrock/cpilint/artifacts/ExpandedZipArchiveIflowArtifact.java:228 | Splitting on the separator gives at least one piece, and no piece contains the separator. |
| JavaString.JoinSplitAll | src/dk/mwittrock/cpilint/artifacts/ExpandedZipArchiveIflowArtifact.java:228 | Joining the pieces with the separator gives back the original string. |
| JavaString.SplitAllJoin | src/dk/mwittrock/cpilint/artifacts/ExpandedZipArchiveIflowArtifact.java:228 | Splitting the join of separator-free pieces gives back exactly those pieces. |
| JavaString.SplitAllPrefix | src/dk/mwittrock/cpilint/artifacts/ExpandedZipArchiveIflowArtifact.java:228 | A separator-free prefix joins the first piece of what follows it. |
| JavaString.SplitAllFirst | src/dk/mwittrock/cpilint/artifacts/ExpandedZipArchiveIflowArtifact.java:228 | The first piece is a prefix of the string that ends at the first separator or at the end. |
| JavaString.DropTrailingEmpty | src/dk/mwittrock/cpilint/artifacts/ExpandedZipArchiveIflowArtifact.java:228 | Java's `split` keeps a prefix of the pieces that is empty or ends in a non-empty piece, and every piece it drops is empty. |
| JavaString.Split | src/dk/mwittrock/cpilint/artifacts/ExpandedZipArchiveIflowArtifact.java:228 | No token contains the separator. A string without the separator is its only token. When the separator occurs, the tokens are empty or end in a non-empty token (trailing empty tokens are dropped). |
| JavaString.SplitIsPrefixOfPieces | src/dk/mwittrock/cpilint/artifacts/ExpandedZipArchiveIflowArtifact.java:228 | For a non-empty string, the tokens of `split` are the pieces with the trailing empty pieces dropped. |
| ExtensionPredicates.GetName | src/dk/mwittrock/cpilint/util/ExtensionPredicate.java:16 | A file name has no separator, is a suffix of the path, and is either the whole path or preceded by a separator. |
| ExtensionPredicates.GetNameOfChild | src/dk/mwittrock/cpilint/util/ExtensionPredicate.java:16 | The name of `dir/name` is `name`. |
| ExtensionPredicates.Test | src/dk/mwittrock/cpilint/util/ExtensionPredicate.java:16 | A predicate, `or`-combined or not, accepts only a non-null file: a null file is rejected. The extension case is characterised by `TestExtensionIff`. |
| ExtensionPredicates.TestExtensionIff | src/dk/mwittrock/cpilint/util/ExtensionPredicate.java:16 | A non-null file is accepted exactly when its name is some text followed by the extension. |
| ExtensionPredicates.TestEmptyExtension | src/dk/mwittrock/cpilint/util/ExtensionPredicate.java:16 | The empty extension accepts every non-null file. |
| ExtensionPredicates.TestIgnoresDirectory | src/dk/mwittrock/cpilint/util/ExtensionPredicate.java:16 | Only the final name component counts: the same name under any two directories is judged alike. |
| ExtensionPredicates.TestIsCaseSensitive | src/dk/mwittrock/cpilint/util/ExtensionPredicate.java:16 | `Schema.XSD` is not accepted by `.xsd`. |
| ExtensionPredicates.TestIgnoresDirectoryExtension | src/dk/mwittrock/cpilint/util/ExtensionPredicate.java:16 | `flows.iflw/readme.txt` is not accepted by `.iflw`. |
| ArtifactTypes.Find | src/dk/mwittrock/cpilint/artifacts/ExpandedZipArchiveIflowArtifact.java:81 | An entry is found exactly when the listing holds one with that name, and the one found has that name. |
| ExpandedZipArchiveIflowArtifact.ExtractId | src/dk/mwittrock/cpilint/artifacts/ExpandedZipArchiveIflowArtifact.java:213-233 | The result is `EmptyId` exactly for the empty value. Any other error is `MalformedId`. An ID contains no `;`. |
| IflowArtifactProperties.ExtractIdFirstToken | src/dk/mwittrock/cpilint/artifacts/ExpandedZipArchiveIflowArtifact.java:228-232 | An accepted ID is the first piece, untrimmed: the prefix of the value up to its first `;` or its end. |
| IflowArtifactProperties.ExtractIdAccepts | src/dk/mwittrock/cpilint/artifacts/ExpandedZipArchiveIflowArtifact.java:228-231 | A non-empty value is accepted exactly when one of its first two pieces is non-empty and every later piece is empty. Otherwise the error is `MalformedId`. |
| IflowArtifactProperties.ExtractIdOfOnePiece | src/dk/mwittrock/cpilint/artifacts/ExpandedZipArchiveIflowArtifact.java:228-232 | A non-empty value without `;` is its own ID. |
| IflowArtifactProperties.ExtractIdOfTwoPieces | src/dk/mwittrock/cpilint/artifacts/ExpandedZipArchiveIflowArtifact.java:228-232 | `a;b` gives ID `a`, except that `;` alone is `MalformedId`. |
| IflowArtifactProperties.ExtractIdOfThreePieces | src/dk/mwittrock/cpilint/artifacts/ExpandedZipArchiveIflowArtifact.java:228-231 | `a;b;c` with non-empty `c` is rejected as `MalformedId`. |
| IflowArtifactProperties.ExtractIdBareFormat | src/dk/mwittrock/cpilint/artifacts/ExpandedZipArchiveIflowArtifact.java:217 | `HCITracker` gives ID `HCITracker`. |
| IflowArtifactProperties.ExtractIdSingletonFormat | src/dk/mwittrock/cpilint/artifacts/ExpandedZipArchiveIflowArtifact.java:218 | `HCITracker; singleton:=true` gives ID `HCITracker`. The directive is not inspected. |
| IflowArtifactProperties.ExtractIdTrailingSeparator | src/dk/mwittrock/cpilint/artifacts/ExpandedZipArchiveIflowArtifact.java:228-232 | `Foo;` gives ID `Foo`: the trailing empty token is dropped. |
| IflowArtifactProperties.ExtractIdSeparatorOnly | src/dk/mwittrock/cpilint/artifacts/ExpandedZipArchiveIflowArtifact.java:228-231 | `;` leaves no token and is `MalformedId`. |
| IflowArtifactProperties.ExtractIdLeadingSeparator | src/dk/mwittrock/cpilint/artifacts/ExpandedZipArchiveIflowArtifact.java:228-232 | `;a` gives the empty ID: the leading empty token is kept. |
| IflowArtifactProperties.ExtractIdThreeTokens | src/dk/mwittrock/cpilint/artifacts/ExpandedZipArchiveIflowArtifact.java:228-231 | `a;b;c` is `MalformedId`. |
| ExpandedZipArchiveIflowArtifact.CreateTag | src/dk/mwittrock/cpilint/artifacts/ExpandedZipArchiveIflowArtifact.java:235-247 | Checks run in this order: an unparsable manifest, then the missing name header, then the missing ID header, then the ID's own error. On success the tag is the extracted ID and the verbatim name. |
| IflowArtifactProperties.CreateTagKeepsEmptyName | src/dk/mwittrock/cpilint/artifacts/ExpandedZipArchiveIflowArtifact.java:245-246 | An empty name header value is accepted as the name. |
| IflowArtifactProperties.CreateTagChecksNameFirst | src/dk/mwittrock/cpilint/artifacts/ExpandedZipArchiveIflowArtifact.java:238-243 | A manifest missing both headers is reported as missing the name header. |
| ExpandedZipArchiveIflowArtifact.ResourceNameFromResourcePath | src/dk/mwittrock/cpilint/artifacts/ExpandedZipArchiveIflowArtifact.java:250-259 | A path is accepted exactly when it is non-empty and does not end in `/`. The error is the trailing-slash error. The name is non-empty, has no `/`, is a suffix of the path, and is either the whole path or preceded by `/`. |
| IflowArtifactProperties.ResourceNameWithoutSlash | src/dk/mwittrock/cpilint/artifacts/ExpandedZipArchiveIflowArtifact.java:252-258 | A non-empty path without `/` is its own name. |
| IflowArtifactProperties.ResourceNameOfChild | src/dk/mwittrock/cpilint/artifacts/ExpandedZipArchiveIflowArtifact.java:252-258 | The name of `dir/name` is `name`. |
| IflowArtifactProperties.ResourceNameIsFileName | src/dk/mwittrock/cpilint/artifacts/ExpandedZipArchiveIflowArtifact.java:252-258 | An accepted resource name equals `File.getName` of the same path. |
| IflowArtifactProperties.ResourceNameExamples | src/dk/mwittrock/cpilint/artifacts/ExpandedZipArchiveIflowArtifact.java:250-259 | `/tmp/iflow/foo/bar.xsd` gives `bar.xsd`. The empty path and `/tmp/iflow/foo/` are rejected. |
| ExpandedZipArchiveIflowArtifact.Matching | src/dk/mwittrock/cpilint/artifacts/ExpandedZipArchiveIflowArtifact.java:170-171 | The filter keeps exactly the listed files the predicate accepts, and is no longer than the listing. Order and multiplicity are fixed by `MatchingOne` and `MatchingAppend`. |
| IflowArtifactProperties.MatchingOne | src/dk/mwittrock/cpilint/artifacts/ExpandedZipArchiveIflowArtifact.java:170-171 | The filter of one entry keeps it exactly when the predicate accepts its file. |
| IflowArtifactProperties.MatchingAppend | src/dk/mwittrock/cpilint/artifacts/ExpandedZipArchiveIflowArtifact.java:170-171 | The filter of a listing `a + b` is the filter of `a` followed by the filter of `b`: accepted files are kept once each, in listing order. |
| ExpandedZipArchiveIflowArtifact.MakeResource | src/dk/mwittrock/cpilint/artifacts/ExpandedZipArchiveIflowArtifact.java:176-178 | A built resource has the given tag and type, and a non-empty name without `/`. Its content is the override when there is one, else the file's readable bytes. With an override it can fail only on a trailing slash. |
| ExpandedZipArchiveIflowArtifact.BuildEach | src/dk/mwittrock/cpilint/artifacts/ExpandedZipArchiveIflowArtifact.java:174-180 | A successful loop over the matched files yields one resource per file. |
| ExpandedZipArchiveIflowArtifact.BuildEachStep | src/dk/mwittrock/cpilint/artifacts/ExpandedZipArchiveIflowArtifact.java:175-179 | One more iteration appends the next file's resource, or stops at the first exception. |
| ExpandedZipArchiveIflowArtifact.BuildEachErrorPersists | src/dk/mwittrock/cpilint/artifacts/ExpandedZipArchiveIflowArtifact.java:175-179 | The first exception in the loop is the result of the whole collection. |
| ExpandedZipArchiveIflowArtifact.Collection | src/dk/mwittrock/cpilint/artifacts/ExpandedZipArchiveIflowArtifact.java:165-181 | A directory that cannot be listed gives `Ok([])`. A listed directory gives at most one resource per listed file. |
| ExpandedZipArchiveIflowArtifact.GetArtifactResourceCollectionWithContent | src/dk/mwittrock/cpilint/artifacts/ExpandedZipArchiveIflowArtifact.java:165-181 | The loop returns exactly `Collection`: the resources of the matched files, in order, or the first failure. |
| ExpandedZipArchiveIflowArtifact.GetArtifactResourceCollection | src/dk/mwittrock/cpilint/artifacts/ExpandedZipArchiveIflowArtifact.java:182-184 | The four-argument form equals `Collection` with no override content. |
| IflowArtifactProperties.CollectionOfMissingDirectory | src/dk/mwittrock/cpilint/artifacts/ExpandedZipArchiveIflowArtifact.java:167-172 | A directory that cannot be listed gives an empty collection, not an error. |
| IflowArtifactProperties.BuildEachAll | src/dk/mwittrock/cpilint/artifacts/ExpandedZipArchiveIflowArtifact.java:174-180 | The loop succeeds exactly when every file builds. Its result at each position is that file's resource. |
| IflowArtifactProperties.BuildEachAppend | src/dk/mwittrock/cpilint/artifacts/ExpandedZipArchiveIflowArtifact.java:174-180 | The loop over `x + y` succeeds exactly when both parts succeed, and gives the results of `x` followed by those of `y`. |
| IflowArtifactProperties.MakeResourceOfListedEntry | src/dk/mwittrock/cpilint/artifacts/ExpandedZipArchiveIflowArtifact.java:176-178 | A listed file's resource has the file's own name. Its bytes are the override when there is one, else the file's bytes. It fails only when there is no override and the file cannot be read. |
| IflowArtifactProperties.ResourcesOfListedEntries | src/dk/mwittrock/cpilint/artifacts/ExpandedZipArchiveIflowArtifact.java:174-180 | Plain-named entries give one resource each, in order, with the given tag and type, the entry's name, and the override or else the entry's bytes. Building fails only on an unreadable entry when there is no override. |
| IflowArtifactProperties.CollectionOfListedDirectory | src/dk/mwittrock/cpilint/artifacts/ExpandedZipArchiveIflowArtifact.java:165-181 | A listed directory gives one resource per matching file, in the filter's order, with the override or else the file's bytes. It fails exactly when a matching file cannot be read and there is no override. |
| IflowArtifactProperties.CollectionKeepsListingOrder | src/dk/mwittrock/cpilint/artifacts/ExpandedZipArchiveIflowArtifact.java:165-181 | When a directory lists `a` then `b`, the collection is the resources of `a`'s matching files followed by those of `b`'s, and succeeds exactly when both parts do. |
| IflowArtifactProperties.MatchingListedNames | src/dk/mwittrock/cpilint/artifacts/ExpandedZipArchiveIflowArtifact.java:170-171 | The files a filter keeps have plain names. |
| IflowArtifactProperties.CollectionOfListing | src/dk/mwittrock/cpilint/artifacts/ExpandedZipArchiveIflowArtifact.java:167-180 | For a listable directory, the collection is the loop over the matched files. |
| IflowArtifactProperties.GroovyPredicateAcceptsGshWithoutDot | src/dk/mwittrock/cpilint/artifacts/ExpandedZipArchiveIflowArtifact.java:107 | The Groovy predicate's `gsh` has no dot, so a script named `notagsh` is collected as Groovy. |
| ExpandedZipArchiveIflowArtifact.ReplaceExternalParameters | src/dk/mwittrock/cpilint/artifacts/ExpandedZipArchiveIflowArtifact.java:187-195 | The iflow file is read first: an unreadable iflow file is that read error. `parameters.prop` is read next: when it is missing, the error names its path. Success needs both files. |
| IflowArtifactProperties.ReplaceExternalParametersResult | src/dk/mwittrock/cpilint/artifacts/ExpandedZipArchiveIflowArtifact.java:187-195 | A successful replacement means three things: the raw iflow file and `parameters.prop` were both readable, the properties loaded, and the result is the transform of the raw bytes with them. |
| ExpandedZipArchiveIflowArtifact.ParameterOverride | src/dk/mwittrock/cpilint/artifacts/ExpandedZipArchiveIflowArtifact.java:96-99 | Without `parameters.prop` there is no override. With it, the override succeeds exactly when the replacement does, and is the replacement's result. |
| IflowArtifactProperties.ParameterOverrideValue | src/dk/mwittrock/cpilint/artifacts/ExpandedZipArchiveIflowArtifact.java:96-99 | There is an override exactly when `parameters.prop` exists, and it is the replacement's result. |
| IflowArtifactProperties.ParameterOverrideWithoutParameters | src/dk/mwittrock/cpilint/artifacts/ExpandedZipArchiveIflowArtifact.java:96-99 | Without `parameters.prop` there is no override. |
| IflowArtifactProperties.AssembleIgnoresResolverWithoutParameters | src/dk/mwittrock/cpilint/artifacts/ExpandedZipArchiveIflowArtifact.java:96-99 | Without `parameters.prop`, `from` gives the same result whatever the properties loader and stylesheet do. |
| ExpandedZipArchiveIflowArtifact.RowContent | src/dk/mwittrock/cpilint/artifacts/ExpandedZipArchiveIflowArtifact.java:105-156 | Only the iflow put receives override content. Every other put gets none. |
| ExpandedZipArchiveIflowArtifact.PutEach | src/dk/mwittrock/cpilint/artifacts/ExpandedZipArchiveIflowArtifact.java:103-156 | After successful puts, every row's type is a key of the map. |
| ExpandedZipArchiveIflowArtifact.PutEachStep | src/dk/mwittrock/cpilint/artifacts/ExpandedZipArchiveIflowArtifact.java:103-156 | One more put stores the next row's collection under its type, or stops at the first exception. |
| ExpandedZipArchiveIflowArtifact.PutEachErrorPersists | src/dk/mwittrock/cpilint/artifacts/ExpandedZipArchiveIflowArtifact.java:103-156 | The first failing put is the result of `from`'s puts as a whole. |
| IflowArtifactProperties.ResourceTableTypes | src/dk/mwittrock/cpilint/artifacts/ExpandedZipArchiveIflowArtifact.java:105-156 | The ten puts are for the ten types in source order. |
| IflowArtifactProperties.ResourceTableDistinct | src/dk/mwittrock/cpilint/artifacts/ExpandedZipArchiveIflowArtifact.java:105-156 | No two puts share a type. |
| IflowArtifactProperties.ResourceTableCoversEveryType | src/dk/mwittrock/cpilint/artifacts/ExpandedZipArchiveIflowArtifact.java:105-156 | Every resource type is put exactly once. |
| IflowArtifactProperties.IflowRow | src/dk/mwittrock/cpilint/artifacts/ExpandedZipArchiveIflowArtifact.java:133-136 | The iflow put collects `.iflw` files from the iflow directory. |
| IflowArtifactProperties.TypesOfLast | src/dk/mwittrock/cpilint/artifacts/ExpandedZipArchiveIflowArtifact.java:103-156 | The types put are those of the earlier puts plus the last one's. |
| IflowArtifactProperties.PutEachKeys | src/dk/mwittrock/cpilint/artifacts/ExpandedZipArchiveIflowArtifact.java:103-156 | After successful puts the map's keys are exactly the types put. |
| IflowArtifactProperties.PutEachEntries | src/dk/mwittrock/cpilint/artifacts/ExpandedZipArchiveIflowArtifact.java:103-156 | When puts have distinct types, each type's entry holds its own row's collection. |
| IflowArtifactProperties.PutEachEntryAt | src/dk/mwittrock/cpilint/artifacts/ExpandedZipArchiveIflowArtifact.java:103-156 | The same fact for one given row. |
| IflowArtifactProperties.ResourceTableEntry | src/dk/mwittrock/cpilint/artifacts/ExpandedZipArchiveIflowArtifact.java:103-156 | Each of the ten entries of `from`'s map is its row's collection, with the override only for the iflow row. |
| ExpandedZipArchiveIflowArtifact.LocateIflowFile | src/dk/mwittrock/cpilint/artifacts/ExpandedZipArchiveIflowArtifact.java:87-94 | An iflow directory that cannot be listed is an error. Otherwise the result succeeds exactly when one `.iflw` file matches, and is that file. Any other count is an error. |
| ExpandedZipArchiveIflowArtifact.BuildArtifact | src/dk/mwittrock/cpilint/artifacts/ExpandedZipArchiveIflowArtifact.java:103-162 | A built artifact carries the given tag, a key for every row of the table, and the document of the readable raw `.iflw` bytes. |
| ExpandedZipArchiveIflowArtifact.Assemble | src/dk/mwittrock/cpilint/artifacts/ExpandedZipArchiveIflowArtifact.java:75-163 | A missing manifest is a read error for its path. A successful build read the manifest, carries the tag `createTag` gives for it, and found the single `.iflw` file. |
| ExpandedZipArchiveIflowArtifact.From | src/dk/mwittrock/cpilint/artifacts/ExpandedZipArchiveIflowArtifact.java:75-163 | The method, with its loop of puts, returns exactly `Assemble`. `Assemble` is the staged specification: manifest, tag, single `.iflw` file, override, puts, iflow document. |
| IflowArtifactProperties.AssembleSteps | src/dk/mwittrock/cpilint/artifacts/ExpandedZipArchiveIflowArtifact.java:75-99 | A successful `from` read the manifest, built the tag, found the single `.iflw` file and computed the override, in that order. |
| IflowArtifactProperties.BuildArtifactSteps | src/dk/mwittrock/cpilint/artifacts/ExpandedZipArchiveIflowArtifact.java:103-162 | A built artifact carries the tag, the map of the ten puts, and the document of the raw `.iflw` bytes. |
| IflowArtifactProperties.AssembleNeedsOneIflowFile | src/dk/mwittrock/cpilint/artifacts/ExpandedZipArchiveIflowArtifact.java:87-94 | Once the tag is built, `from` fails when the iflow directory cannot be listed or does not hold exactly one `.iflw` file. |
| IflowArtifactProperties.BuildArtifactHasEveryType | src/dk/mwittrock/cpilint/artifacts/ExpandedZipArchiveIflowArtifact.java:103-156 | A built artifact's map has a key for every resource type. |
| IflowArtifactProperties.AssembleHasEveryType | src/dk/mwittrock/cpilint/artifacts/ExpandedZipArchiveIflowArtifact.java:52-63 | Every artifact `from` returns has an entry for every type, so `getResourcesByType` never fails on it. |
| IflowArtifactProperties.AssembleIflowXmlFromRawFile | src/dk/mwittrock/cpilint/artifacts/ExpandedZipArchiveIflowArtifact.java:159-160 | The iflow document is built from the raw bytes of the single `.iflw` file, whether or not there is an override. |
| IflowArtifactProperties.IflowCollectionOfSingleFile | src/dk/mwittrock/cpilint/artifacts/ExpandedZipArchiveIflowArtifact.java:133-136 | An iflow directory with one `.iflw` file gives exactly that file's resource, carrying the override if there is one. |
| IflowArtifactProperties.IflowEntryOfPuts | src/dk/mwittrock/cpilint/artifacts/ExpandedZipArchiveIflowArtifact.java:133-136 | After the ten puts over a package with one `.iflw` file, the iflow entry is that file's single resource, with the override or else its own bytes. |
| IflowArtifactProperties.BuildArtifactIflowResource | src/dk/mwittrock/cpilint/artifacts/ExpandedZipArchiveIflowArtifact.java:133-136 | A built artifact's iflow entry is the single resource of the located `.iflw` file, with the override or else its own bytes. |
| IflowArtifactProperties.AssembleIflowResource | src/dk/mwittrock/cpilint/artifacts/ExpandedZipArchiveIflowArtifact.java:96-136 | The iflow entry of an artifact from `from` is one resource. It carries the parameters transform when `parameters.prop` exists, and the raw bytes otherwise. |
| IflowArtifactProperties.BuildArtifactOtherTypes | src/dk/mwittrock/cpilint/artifacts/ExpandedZipArchiveIflowArtifact.java:105-156 | Every type but the iflow is collected from its own directory with no override. |
| IflowArtifactProperties.AssembleOtherTypesReadTheirFiles | src/dk/mwittrock/cpilint/artifacts/ExpandedZipArchiveIflowArtifact.java:105-156 | In an artifact from `from`, every non-iflow type holds its directory's collection without override. |
| ExpandedZipArchiveIflowArtifact.GetResourcesByType | src/dk/mwittrock/cpilint/artifacts/ExpandedZipArchiveIflowArtifact.java:52-63 | The lookup fails exactly when the type has no key, with the type-not-found error. Otherwise it returns that key's collection. |

## Left out

- File-system access is modelled as a finished snapshot, `Package`. Each listed directory maps to its entries, and an entry is either readable bytes or unreadable. Concurrent changes to the disk, symbolic links, `Files.exists` versus `Files.newInputStream` races, and the distinction between a missing file and an unreadable one are not modelled.
- Paths are `/`-separated strings built from the root, the directory and the name, as `getAbsolutePath` gives them for a normalised root. `Path.of` normalisation of doubled or trailing separators is not modelled.
- Manifest parsing (`java.util.jar.Manifest`) is a parameter. Case-insensitive header lookup through `Attributes.Name` is left to that parser.
- `Properties.load` and the Saxon XSLT run are parameters. The stylesheet loaded from the class path is folded into the transform parameter, so a missing stylesheet is a transform failure.
- `IflowXml.fromInputStream` is modelled as `IflowXml(bytes)`. Its XML parse failures are outside the model.
- The `tag == null` check in `from` is not modelled. `createTag` never returns null: it returns a tag or throws.
- Error kinds are a single `Error` datatype. Java's exception classes and messages are not distinguished, and every exception is a `Result` error that ends `from`.
- The ten literal `put` calls of `from` are one loop over a ten-row table in the same order. The first failing collection is the same as in the source.
- `Collections.unmodifiableCollection` and the mutability of the returned map are not modelled: the model's values are immutable.
- `ListFiles` order: `File.listFiles` order is platform-dependent. The model takes the listing order as given in the package.
