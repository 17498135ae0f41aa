# Treetop bundles: compiler and archive verifier

A Treetop bundle is made of separately owned modules. Each module has a namespace, and
brings policies, schema fragments and label rules. The compiler checks every module against its
namespace and composes all of them into one set of parts; `build` turns the parts into a
canonical, optionally signed archive. The verifier trusts none of this: from the archive alone
it derives ownership and the assignment of policies to modules again.

This project models both halves and proves what holds between them.

- **Build, then validate.** What the compiler accepts, the verifier accepts, with the same manifest
  and the same parts, exactly when there is no schema or one that does not nest too deep
  (`BuildThenValidate`, on `CompiledFacts`, `Verifier`, `Archives`, `ManifestCheck`, `Signing`;
  `DeepSchemas` is the case that fails).
- **Compilation.** What a bundle compiles to is listed from the files of its modules, and the compiler's
  one pass over them is proved to compute it, warnings included (`Compilation`, on `Compiler`).
- **Signatures.** A required signature is worth this: an accepted archive is one that was released under
  a trusted key, but for the signature entry itself (`Releases`, on `Verifier`).
- **Partition.** A request whose action types one ordinary module owns gets the same response
  from that module's store as from all policies (`Partition`; `ForeignAncestor` shows why the
  action's ancestors count too).
- **Ownership.** Owning is having a segment prefix, a tree order (`Names`). The neighbour check on
  sorted namespaces is not the pairwise check; `NeighbourCheck` says exactly when the two differ.
- **Policies.** The reference collector finds exactly the types that occur, and the ownership check
  passes exactly the policies that keep to their module (`Policies`).
- **Text.** Line endings, generated headers, and when concatenation keeps every policy (`Sources`).
- **Schemas.** The merge of all fragments is a disjoint union, independent of their order (`Schemas`).
- **Labels.** Budgets, parsing, combination and the alias resolver (`Labels`, `LabelSchema`,
  `LabelDocuments`).
- **Canonical form and identity.** `Json`, `Codecs`, `Records`, `ArchiveManifests`.

`Text`, `Sorting`, `Paths` and `Diagnostics` hold the byte order on strings, sorting, path components and
diagnostic lists.

## How the model is made

Code that updates things step by step is a method proved against a function or predicate that says
what it computes; the promises are lemmas about that function. A `&mut` argument is an object of
class `Mut`. Diagnostics are a growing list of severity and code. `Reported(before, after, bad)`
says that errors were added exactly if `bad`; `Appended` says the same where warnings come too, and which
were added if no error was.

A function that both the code and a contract use is tied down by a statement that does not go through
it: budgets to the flattened patterns, ownership to the constraint and the expression that name a type, a
verified signature to the primitive that verified it, a read record to the JSON it is read from.

What lies outside the repository is a value of function type, with the laws that a theorem needs
as a premise: Cedar (parsing of policies, schemas and labels, schema construction, strict validation) in
`Compiler.Cedar`, JSON text, UTF-8 and SHA-256 in `Codecs.Codec`, Ed25519 and base64 in
`Signing.Crypto`, gzip and tar in `Archives.Container`, regular expressions and label targets in
`Labels.LabelEnv`. The laws:

- policies are parsed from a text's content, that is the runs of text between comments, one after the
  other, and a text that ends inside a string literal does not parse (`CompiledFacts.LawfulParser`);
- different canonical values have different JSON text, which is UTF-8 and reads back exactly if at most 127
  arrays and objects nest, the limit of `serde_json::from_str` (`Codecs.LawfulCodec`);
- the text of a label document parses as that document (`BuildThenValidate.LawfulLabels`), and the core
  leaves a target it has given its form as it is (`Labels.LawfulTargets`);
- a signature verifies under its own key (`Signing.LawfulCrypto`);
- packed entries with the archive's names unpack (`Archives.LawfulContainer`).

`serde_json` is built with `preserve_order`, so objects keep insertion order and compare as maps:
`Json.Value` is the ordered form, `Json.Json` its meaning, and removing a key moves the last
member into the gap. A record reads from an object with exactly its keys, or from an array of its fields in
order, as derived readers take both.

Lemmas on recursive functions carry `{:induction false}`, also where the proof is not by induction: their
proofs are the ones written here and owe nothing to the verifier's own induction.

The code and what it stands for disagree in four places. The model follows the code.

- A schema written in Cedar's syntax may nest deeper than the archive's JSON reader goes. Such a bundle compiles
  and is built, and its archive is refused (`DeepSchemas.DeepSchemaIsRefused`); nothing else that compiles is
  (`BuildThenValidate.CompiledArchiveIsAcceptedIff`).
- The neighbour check replaced a quadratic check (CHANGELOG.md:128) and accepts some overlapping roots,
  for example `B`, `B1`, `B::C` (`NeighbourCheck.CheckMissesAnOverlap`). `NeighbourCheck.CheckDecides`
  gives the condition for every list.
- The alias resolver remembers qualified names, and two types can share one when a declared name
  begins with a colon (`LabelSchema.SharedNameCutsChain`). `LabelSchema.ResolveIffFreshChain` gives the
  condition for every schema; Cedar rejects such names, so `LabelSchema.ResolveIffReachable` covers every
  schema that reaches the resolver.
- Concatenation swallows the next file's header when a file ends inside a string literal
  (`Sources.SwallowedHeader`). Such a file does not parse, so no accepted compilation contains one.

## Model

| member | source | states |
|---|---|---|
| BuildThenValidate.CompiledArchiveIsAcceptedIff | src/archive.rs:576-651 | what compiles from an accepted bundle manifest, and is built unsigned where that is allowed or signed with a trusted key, passes every check of the verifier exactly if its schema, if any, does not nest deeper than the reader goes; and then yields the manifest it was built with and the very parts that were compiled |
| BuildThenValidate.BuiltArchiveValidatesIff | src/archive.rs:345-447 | the built bytes validate exactly if they are within the limits and the schema can be read |
| DeepSchemas.DeepSchemaIsRefused | src/archive.rs:845-850 | a bundle whose Cedar schema nests record types compiles at any number of levels, and its archive is accepted exactly up to 61 |
| DeepSchemas.DeepSchemaFits | src/archive.rs:845-850 | the JSON of that schema nests two containers a level and five more |
| BuildThenValidate.BuiltLabelsRead | src/archive.rs:405 | the written labels read back as a valid document that gives the same rules |
| BuildThenValidate.BuiltSchemaReads | src/archive.rs:401-404 | the written schema reads back with its meaning if it does not nest too deep, and not at all otherwise |
| BuildThenValidate.CompiledManifestOk | src/archive.rs:653-759 | every manifest check holds of compiled parts: sorted distinct names and ids, resolved imports, and a partition of the ids |
| BuildThenValidate.CompiledPartsOk | src/validation.rs:326-446 | the checks the compiler makes module by module imply the verifier's checks against any module |
| BuildThenValidate.CompiledLabelsOk | src/validation.rs:236-279 | the labels of an accepted compilation come from one valid document and each has an owning module |
| BuildThenValidate.Build | src/archive.rs:399-447 | the archive packs the manifest, the optional signature and the artifacts, in archive order, with the right size, digest and id |
| BuildThenValidate.Resign | src/archive.rs:355-371 | re-signing succeeds exactly on archives that are in order with at most a well-formed signature, which need not verify, and replaces the signature entry only |
| BuildThenValidate.ChainKeepsContent | src/archive.rs:355-371 | after any run of successful re-signs the archive holds what it held at the start but for the signature, which is the last key's |
| BuildThenValidate.ChainVerifiesUnderLastKey | src/archive.rs:355-397 | any run of re-signs keeps every byte but the signature, hence the manifest and its bundle id, and the last archive's bytes validate, with a signature required, under every store that trusts the last key, exactly if they are within the limits given |
| BuildThenValidate.BuiltManifestReads | src/archive.rs:411-437 | the manifest bytes read back as the manifest, whose id matches its content |
| Compilation.CompileManifest | src/validation.rs:135-324 | compilation succeeds exactly if every file is in order by itself, no two policies share an id, no two schema fragments conflict, the label documents make one valid document and the schema agrees with both; the parts are the aggregate of all files, one record for each module with its files' ids, the merge of all fragments if some module lists a schema file, the rules of all documents, and the warnings in order |
| Compilation.FoldFitsIff | src/validation.rs:152-281 | the pass, which checks each file against what came before it, accepts exactly the modules whose files are in order one by one, with distinct ids and no two conflicting fragments among all of them |
| Compilation.FoldIsListed | src/validation.rs:152-281 | after the pass the texts, policies, ids, records, schema and label sets are those listed from the files of all modules, in order |
| Compiler.CompilePolicies | src/validation.rs:160-199 | the loop over a module's policy files reports an error exactly if some file does not fit, and otherwise extends text and ids by each file in order |
| Compiler.CompilePolicyFile | src/validation.rs:161-198 | one file: an error exactly if it does not parse, has a template, breaks ownership or repeats an id; otherwise header and text are appended, and only the warnings about its ids are added |
| Compiler.ValidateModulePolicies | src/validation.rs:448-510 | errors exactly if a template occurs or some policy has no id, a known id or breaks ownership; ids are recorded in order and in the ordered set |
| Compiler.CompileSchemas | src/validation.rs:201-234 | errors exactly if some fragment does not parse, leaves the namespace or conflicts; otherwise the schema is the fold of the merges |
| Compiler.CompileLabels | src/validation.rs:236-266 | errors exactly if some document is invalid or labels a type outside the namespace; otherwise one label set for each file in order |
| Compiler.ValidatePolicySet | src/validation.rs:693-708 | strict validation: errors and invalid action applications are errors, other findings warnings |
| Compiler.CheckAgainstSchema | src/validation.rs:283-307 | errors exactly if the schema is invalid, or policies or labels disagree with it |
| CompiledFacts.CompiledPolicies | src/validation.rs:448-510 | every policy in a file of an accepted compilation is listed by a module whose rules it satisfies |
| CompiledFacts.AggregateParses | src/validation.rs:160-199 | the compiled text parses to exactly the policies of all files of all modules, in order, each as its own file parses |
| CompiledFacts.CompiledIds | src/validation.rs:280-322 | the compiled ids are in increasing order and are exactly the ids of the policies in the files, one for each policy |
| CompiledFacts.RecordsListIds | src/validation.rs:268-270 | the records list the ids of all policies, in order |
| CompiledFacts.CompiledSchema | src/validation.rs:201-234 | every namespace of the compiled schema is owned by a module |
| CompiledFacts.CompiledSchemaIsUnion | src/validation.rs:201-234 | the schema of an accepted compilation holds exactly the declarations of all fragments of all modules, no two of which clash |
| CompiledFacts.CompiledLabels | src/validation.rs:236-279 | every rule of an accepted compilation labels a type that some module owns |
| CompiledFacts.WarnedIff | src/validation.rs:283-307 | a compiled bundle warns exactly of ids without their module's prefix, of what Cedar warns about in schema files and policies, and of a missing schema |
| Verifier.ValidateArchiveParts | src/validation.rs:326-446 | accepts exactly if the text parses without templates, every policy has a new, assigned id and keeps to its module, the ids are the declared ones, and schema and labels are owned and agree; the parts are returned unchanged, with the warnings about ids and schema |
| Verifier.CheckArchivePolicy | src/validation.rs:359-395 | one policy: an error exactly if it lacks an id, repeats one, is unassigned or breaks its module's rules |
| Verifier.ValidateDecoded | src/archive.rs:576-651 | accepts exactly the archives in order and returns their manifest, their parts and a true report of their signature |
| Verifier.ValidateArtifacts | src/archive.rs:631-650 | accepts exactly if text, schema and labels can be read and their parts are in order |
| Verifier.CheckSignature | src/archive.rs:582-611 | accepts exactly if a signature is present where required, and a present one is well-formed and, where checked, verifies over domain and manifest under the trusted key it names; the id reported is that of this key |
| Verifier.CheckArtifacts | src/archive.rs:615-630 | path, size and digest of every record match the entries, one for one |
| Verifier.Validate | src/archive.rs:345-397 | accepts exactly the archives that decode within the limits and are in order, and returns the manifest, signature and parts of what they hold; a signature reported as verified was verified by the crypto primitive under the trusted key reported |
| Releases.AcceptedWasReleased | src/archive.rs:576-651 | if the trusted keys signed only the manifests of released archives, and digests do not collide, an archive accepted with a signature required is a released one but for its signature entry |
| Releases.ManifestFixesContent | src/archive.rs:612-630 | two archives in order with the same manifest bytes hold the same policies, schema and labels, where digests do not collide |
| Signing.DomainIsText | src/signing.rs:14 | the signed message begins with the domain text and a zero byte |
| Verifier.AcceptedPoliciesAreTheDeclared | src/validation.rs:346-402 | in an accepted archive the policies of the text are in bijection with the declared ids |
| Verifier.AcceptedPoliciesPassed | src/validation.rs:346-395 | each policy of an accepted archive passed the ownership check of the one module that lists it |
| ManifestCheck.ValidateManifest | src/archive.rs:653-759 | accepts exactly the manifests in order |
| ManifestCheck.CheckModules | src/archive.rs:695-737 | one pass over the modules: names, namespaces, imports and distinct ids, with the set of all ids collected |
| ManifestCheck.AssignIds | src/archive.rs:728-736 | inserting a module's ids fails exactly at a repeated id |
| ManifestCheck.AcceptedPartitions | src/archive.rs:673-757 | an accepted manifest partitions its declared ids: each stands in one place of one module, no other id is listed, and the list lengths sum to the declared count |
| Partition.PartitionPreservesResponses | src/archive.rs:214-232 | with disjoint stores, a request whose action and action ancestors have types one ordinary module owns gets the same decision, reasons and errors from that module's policies and the global ones as from all policies |
| Partition.LayoutPreservesResponses | src/archive.rs:214-232 | the same for the store as the layout describes it, by its root and the global ids |
| Partition.ListedIffRootOwns | src/archive.rs:214-228 | with disjoint stores an ordinary module lists a policy that is not global exactly if its root owns the policy's action types |
| Partition.ValidatedArchivePartitions | src/archive.rs:200-232 | for every archive whose content validates, the engine with stores and the monolithic engine answer such a request alike |
| Partition.SelectionIsFaithfulIff | src/archive.rs:214-232 | a selection of policies answers a request like all of them, whatever the other conditions evaluate to, exactly if it keeps each policy whose action scope matches |
| Partition.AuthorizeDecides | src/archive.rs:200-232 | the response of a policy set: allowed exactly if some permit and no forbid is satisfied, with the satisfied policies of the deciding effect and the failing ones |
| Partition.SelectConcat | src/archive.rs:200-232 | a selection keeps the order of the policies |
| Partition.ModuleOfStore | src/archive.rs:214-221 | each store is that of one ordinary module, with its name and namespace |
| Partition.GlobalIff | src/archive.rs:222-228 | the global ids are exactly those that global modules list |
| Partition.StoreKeepsMatch | src/validation.rs:512-545 | a policy that passed the ownership check and can match such a request is in the module's store |
| Partition.OneStoreOwns | src/archive.rs:215-221 | two ordinary modules that own one valid name are the same module |
| Partition.AcceptedStoresAreDisjoint | src/archive.rs:738-746 | acceptance makes the stores disjoint if no namespace continues another directly with a digit |
| ForeignAncestor.StoreMissesForeignGroup | src/archive.rs:214-232 | the condition on ancestors is needed: an accepted archive with disjoint stores, a policy that passed its module's check, and a request on another module's action that all policies together allow and its store denies |
| Partition.ForeignAncestorBreaksPartition | src/archive.rs:214-232 | a policy that matches by an ancestor and is not in the store is missed, whatever else the store holds |
| Names.OwnsIffSegmentPrefix | src/manifest.rs:431-436 | on valid names, owning is having the owner's segments as a prefix |
| Names.OwnershipIsTreeOrder | src/manifest.rs:431-440 | ownership is a partial order, and any two roots that own one name overlap |
| Names.UniqueOwner | src/validation.rs:736-755 | with pairwise disjoint roots every valid name has at most one owner |
| Names.ChainNeedsValidNames | src/manifest.rs:431-436 | on texts that are not names two roots can own one text without overlapping |
| Names.JoinSegments | src/labels.rs:566-568 | joining the segments of a name gives the name back |
| Names.SegmentsAreCut | src/manifest.rs:431-436 | no segment holds a separator |
| Names.ShortName | src/manifest.rs:337-349 | a text without colons is a name exactly if it is an identifier and no reserved word |
| NeighbourCheck.CheckDecides | src/manifest.rs:395-410 | the check fires exactly if two roots are equal or some owner that has no listed digit extension owns another root; a hit is always a real overlap |
| NeighbourCheck.CheckExactIff | src/manifest.rs:395-410 | the check agrees with the pairwise check exactly if a list without such a pair has no overlap; in particular on every list where no name continues another with a digit |
| NeighbourCheck.DigitExtensionHidesOverlap | src/manifest.rs:395-410 | a root, its digit extension and a name it owns always pass the check although two of them overlap |
| NeighbourCheck.CheckMissesAnOverlap | src/archive.rs:738-746 | three valid roots that overlap and pass |
| NeighbourCheck.SegmentOrderMakesCheckExact | src/manifest.rs:395-410 | under segment-wise order looking at neighbours is the pairwise check |
| Policies.ValidatePolicyOwnership | src/validation.rs:512-601 | an error exactly if the policy has no structured form, or its module is ordinary and the action is unconstrained or not owned, or a type that a constraint or clause names is outside namespace and imports |
| Policies.CollectedIffOccurs | src/validation.rs:626-669 | the collector finds a type exactly if some subexpression, at any depth, names it |
| Policies.CollectExprReferences | src/validation.rs:626-669 | the recursive collector appends the types of an expression, in order, and keeps what was there |
| Policies.OccursByForm | src/validation.rs:626-669 | where a type occurs in each form of expression, both parts of an `is … in` included |
| Policies.CollectedIffMentioned | src/validation.rs:548-583 | the list checked holds exactly the types the principal, resource and action constraints name, as a tested type or the type of an entity, and those that occur in a clause |
| Policies.CollectReferences | src/validation.rs:547-583 | scope types, action types and clause types in collection order |
| Policies.CheckAction | src/validation.rs:533-545 | an error exactly if the action is unconstrained or the type of one of its actions is not owned |
| Policies.CheckOwnedAction | src/validation.rs:603-618 | an error exactly if the module does not own the action type |
| Policies.CheckReferences | src/validation.rs:584-600 | an error exactly if some type is outside namespace and imports |
| Sources.NormalizeText | src/validation.rs:833-840 | the two replacements and the trimming loop give the one-scan normal form |
| Sources.TwoPassesAreOneScan | src/validation.rs:834 | replacing CRLF and then CR equals one scan that takes CRLF, CR and LF as one break |
| Sources.NormalizedShape | src/validation.rs:833-840 | no carriage return, and exactly one newline at the end |
| Sources.NormalizedIsIdempotent | src/validation.rs:833-840 | normalizing again changes nothing |
| Sources.SameNormalizedIff | src/validation.rs:833-840 | two sources normalize alike exactly if they differ only in the style of line breaks and in breaks at the end |
| Sources.BreakStyleIsIrrelevant | src/validation.rs:834 | CRLF, CR and LF are the same break wherever they stand |
| Sources.LinesAreKept | src/validation.rs:833-840 | lines ended by LF are kept as they are, but for breaks at the end |
| Sources.SingleLine | src/validation.rs:842-853 | line breaks become spaces, every other character stays |
| Sources.HeaderAddsNothing | src/validation.rs:193-197 | whatever the module name and path hold, a header read in code adds no content |
| Sources.AggregateOfOne | src/validation.rs:193-198 | the generated header names module and path |
| Sources.AggregateIgnoresBreaks | src/validation.rs:842-853 | line breaks in a name or path count as spaces |
| Sources.AggregateConcat | src/validation.rs:193-198 | the aggregate of a list is put together file by file |
| Sources.CommentIsDropped | src/validation.rs:193-198 | a comment separates the content before it from that after it and adds none |
| Sources.CodeIsContent | src/validation.rs:162-163 | text without slashes and quotes is content as it stands |
| Sources.LiteralIsContent | src/validation.rs:162-163 | inside a string literal everything is content, slashes too |
| Sources.PairIsContent | src/validation.rs:162-163 | a slash that begins no comment and an escaped character are content |
| Sources.QuoteIsContent | src/validation.rs:162-163 | quotes open and close a literal |
| Sources.ConcatenationKeepsContentIff | src/validation.rs:193-198 | the content of the aggregate is the concatenation of the files' contents exactly if every file but the last ends outside a string literal |
| Sources.SwallowedHeader | src/validation.rs:193-198 | after a file that ends inside a literal the contents differ, whatever follows |
| Schemas.MergeSchemaFragment | src/validation.rs:757-821 | the merge in place gives the merged schema and reports an error exactly if some declaration repeats or some other field differs |
| Schemas.MergeDeclarations | src/validation.rs:782-800 | declarations are added to those present; an error exactly if a name repeats |
| Schemas.MergedEntry | src/validation.rs:757-821 | every declaration and field of the merged schema comes from one of the two sides, and none is lost |
| Schemas.KindsAreMerged | src/validation.rs:757-821 | entity types, actions and common types are merged name by name, and a name on both sides is a conflict |
| Schemas.OtherFieldsStay | src/validation.rs:757-821 | of any other field the first value stays, and two different ones are a conflict |
| Schemas.ConflictIffClash | src/validation.rs:757-821 | a conflict is reported exactly if both sides declare one name, or differ in another field |
| Schemas.FoldConflictIff | src/validation.rs:201-234 | folding any list of fragments reports nothing exactly if no two of them clash |
| Schemas.FoldIsUnion | src/validation.rs:201-234 | then the result holds exactly the union of all declarations and fields |
| Schemas.FragmentOrderIsIrrelevant | src/validation.rs:201-234 | any order of the fragments conflicts alike and gives the same schema |
| Schemas.ValidateSchemaOwnership | src/validation.rs:710-734 | an error exactly if a declared namespace is outside the module's |
| Schemas.ValidateAggregateSchemaOwnership | src/validation.rs:736-755 | an error exactly if a declared namespace has no owning module |
| Labels.FromRaw | src/labels.rs:197-322 | accepts exactly the documents within every budget whose rules are valid with distinct targets, compared in the core's form; then one rule for each raw rule, in order, with its field and patterns, its target in that form, and patterns matched one by one up to four |
| Labels.ParseRule | src/labels.rs:204-315 | one rule of the loop: the target in the core's form is recorded exactly if valid, an error exactly if the rule is not acceptable or repeats a target, the rule appended if acceptable |
| Labels.CheckPatterns | src/labels.rs:254-292 | errors exactly if a name is blank or repeated, a regex is empty or too long; valid exactly if the count is in range and every regex has a fitting length |
| Labels.SaturatedSumExceedsIff | src/labels.rs:501-524 | the overflow-checked fold with the maximum as fallback exceeds a limit exactly if the true sum does |
| Labels.LimitError | src/labels.rs:494-560 | no limit error exactly if there are at most 256 rules, 4096 patterns in all of them together, and 1048576 bytes in all regular expressions together |
| Labels.CountsTotal | src/labels.rs:501-510 | the counts added up are the number of all patterns |
| Labels.LengthsTotal | src/labels.rs:511-524 | the lengths added up are the bytes of all regular expressions written one after the other |
| Text.ByteLenConcat | src/labels.rs:511-524 | byte lengths add up |
| Text.CharacterWidth | src/labels.rs:511-524 | the UTF-8 width of each range of code points |
| Labels.Combine | src/labels.rs:324-346 | accepts exactly if the concatenated rules have distinct targets and fit the budgets, and then returns them in order |
| Labels.CombineAgreesWithParse | src/labels.rs:324-346 | n documents are all accepted and combine exactly if the concatenated document is accepted, with the same rules in the same order |
| Labels.AcceptedRulesReparse | src/labels.rs:78-87 | the serialized rules of an accepted document are an accepted document with the same rules, whatever form the targets had |
| Labels.DerivedNames | src/labels.rs:127-138 | a label is derived exactly if some pattern of that name matches |
| Labels.DerivedOnce | src/labels.rs:127-138 | under the checks of parsing each matching pattern gives its own label once |
| LabelSchema.RecordAttributes | src/labels.rs:580-608 | the resolver, which mutates one visited set, terminates on every schema, cyclic or not, and computes the resolution |
| LabelSchema.ResolveIffReachable | src/labels.rs:580-608 | on well-named schemas attributes are found exactly if following aliases reaches a record in finitely many steps |
| LabelSchema.ResolveIffFreshChain | src/labels.rs:580-608 | on every schema attributes are found exactly if some chain of aliases ends at the record that has them and no two of its steps share a qualified name |
| LabelSchema.ResolvedIsReached | src/labels.rs:580-608 | on every schema what is found is reached by some chain of aliases |
| LabelSchema.SharedNameCutsChain | src/labels.rs:592-600 | two types with one qualified name make the resolver miss a record that a chain reaches |
| LabelSchema.ColonBasesCanShareAName | src/labels.rs:592-600 | two such types, in a concrete schema |
| LabelSchema.QualifiedIsInjective | src/labels.rs:597 | names without colons at the start of the base are told apart by their qualified form |
| LabelSchema.FindEntityAttributes | src/labels.rs:562-578 | the attributes of an entity type's shape, resolved in the namespace that declares it |
| LabelSchema.EntityShapeIsAt | src/labels.rs:562-578 | the shape of an entity type is what stands under its namespace, `entityTypes`, its last segment and `shape` |
| LabelSchema.CommonTypeIsAt | src/labels.rs:601-606 | a common type is what stands under its namespace, `commonTypes` and its name |
| LabelSchema.RecordIsAt | src/labels.rs:586-588 | a record is tagged so and lists its attributes in an object |
| LabelSchema.AliasIsAt | src/labels.rs:586-597 | what a shape is an alias of: the name it holds, cut at its last `::`, else in the current namespace |
| LabelSchema.ValidateSchema | src/labels.rs:367-435 | nothing is reported exactly if every rule's type is known, its input a string and its output a set of strings |
| LabelDocuments.DocumentRoundTrip | src/labels.rs:54-87 | a written label document reads back as itself |
| LabelDocuments.DocumentIsShallow | src/labels.rs:54-87 | a label document nests four deep at most |
| Manifests.LoadBundle | src/manifest.rs:225-305 | loading succeeds exactly if every check on modules and set holds; the result has the name and version read and the very modules selected, roles included, by increasing name |
| Manifests.ValidateModule | src/manifest.rs:71-107 | errors exactly if version, name, namespace, imports or an input path are wrong |
| Manifests.ValidateInputPath | src/manifest.rs:351-382 | an error exactly if the path is empty, absolute, leads upwards, has a wildcard, or does not lead to a file of the module's directory |
| Manifests.ValidateModuleSet | src/manifest.rs:384-429 | errors exactly if a name repeats, a neighbour overlaps or an import is unresolved |
| Manifests.ModuleOrderIsIrrelevant | src/manifest.rs:270-305 | the same modules selected in any order are accepted or rejected alike and load to the same list, hence compile to the same parts |
| Manifests.LoadedKeepsChecks | src/manifest.rs:294-302 | the loaded list is a reordering of the selected modules with strictly increasing names, and passes every check again |
| Sorting.SortedListsAgree | src/manifest.rs:296 | lists sorted on a key that tells their elements apart are equal if they are reorderings |
| Text.NeighboursIncreaseIffSorted | src/archive.rs:673-682 | the neighbour test on names and ids holds exactly for strictly increasing lists |
| Text.LessIff | src/archive.rs:673-682 | the order of names and ids: a string is below its extensions and below what has a larger character where the two first differ |
| Text.SortedSetsAgree | src/validation.rs:397-402 | a set of strings has one increasing enumeration |
| Text.BlankIffTrimmedAway | src/manifest.rs:71-107 | the blank test is that nothing is left after trimming |
| Text.WhiteSpace | src/manifest.rs:71-107 | the characters that trimming removes |
| Paths.SplitJoins | src/manifest.rs:351-382 | the parts of a path, joined by slashes, are the path, and none holds a slash |
| Paths.OneComponent | src/archive.rs:495-496 | there is one component exactly if one part counts |
| Json.SortEqualIff | src/archive.rs:831-843 | two values sort to the same value exactly if they agree up to key order at every depth |
| Json.SortIsIdempotent | src/archive.rs:831-843 | sorting twice is sorting once |
| Json.SortKeepsMeaning | src/archive.rs:831-843 | sorting changes key order only |
| Json.CanonicalIsUnique | src/archive.rs:831-843 | a meaning has one value with keys in increasing order at every depth |
| Json.SortedFits | src/archive.rs:831-843 | canonical text nests exactly as deep as its meaning |
| Json.ToValueIsSorted | src/archive.rs:821-829 | the canonical value of a meaning is what sorting any value of that meaning gives |
| Codecs.CanonicalBytesIff | src/archive.rs:821-829 | canonical bytes are equal exactly for values of one meaning |
| Codecs.CanonicalBytesRead | src/archive.rs:821-850 | canonical bytes are UTF-8, and read back with the same meaning exactly if the value does not nest too deep |
| Records.WrittenFields | src/archive.rs:70-98 | a record written with distinct keys is read with every field |
| Records.FieldsIff | src/archive.rs:70-98 | a record reads from an object with exactly its keys or an array of its fields in order, and from nothing else |
| ArchiveManifests.ManifestIsShallow | src/archive.rs:70-98 | a manifest nests four deep at most |
| ArchiveManifests.ManifestRoundTrip | src/archive.rs:68-98 | a manifest written as JSON reads back as itself, whatever the key order |
| ArchiveManifests.ManifestReadExactly | src/archive.rs:68-98 | written with objects, a manifest is read from its own JSON only: no field is ignored, defaulted or changed |
| ArchiveManifests.FieldNames | src/archive.rs:68-98 | the names of the written fields, in order |
| ArchiveManifests.PayloadMeaning | src/archive.rs:811-819 | what the id is computed from means the manifest without its id |
| ArchiveManifests.PayloadDeterminesRest | src/archive.rs:811-819 | the hashed bytes are equal exactly if all fields but the id agree |
| ArchiveManifests.BundleIdIdentifies | src/archive.rs:811-819 | the id does not depend on the id stored, and where the digest does not collide equal ids mean equal fields |
| ArchiveManifests.BundleIdIgnoresKeyOrder | src/archive.rs:811-819 | any value that means the payload, in any key order, has the same id |
| Signing.SignedVerifies | src/signing.rs:195-206 | what a key signs verifies under every store that trusts the key, and names it |
| Signing.SignatureRoundTrip | src/signing.rs:44-51 | a written signature reads back as itself |
| Signing.SignatureReadExactly | src/signing.rs:42-51 | written as an object, a signature is read from its own JSON only |
| Signing.TrustStore.Insert | src/signing.rs:273-285 | a key is refused exactly if its id is taken by other bytes; otherwise it is present and nothing else changes |
| Signing.FromKeys | src/signing.rs:265-271 | a store is built exactly from consistent keys, and holds exactly the listed ones |
| Archives.NewLimits | src/archive.rs:36-48 | limits are accepted exactly if both are positive and below 2^64 - 1 |
| Archives.LimitedReader.Read | src/archive.rs:467-470 | bytes consumed and bytes left always sum to the start limit; nothing is read only at the end, at the limit or on an empty request |
| Archives.LimitedReader.Drain | src/archive.rs:512-515 | after draining nothing is left exactly if the stream holds at least the start limit |
| Archives.ExceedsMaximum | src/archive.rs:512-520 | however the stream is split into reads, the limit is reported as exceeded exactly if the total is larger than the maximum |
| Archives.ReadEntries | src/archive.rs:474-510 | the entry loop accepts exactly up to five regular files with safe names, and keeps their order and contents |
| Archives.PathSafeIff | src/archive.rs:490-507 | a safe path does not begin with a slash and has exactly one part that counts, which does not lead upwards |
| Archives.EncodeEntries | src/archive.rs:770-795 | manifest, optional signature, then the artifacts in order |
| Archives.EntriesRoundTrip | src/archive.rs:529-573 | decoding what was encoded gives every part back, present or absent |
| Archives.DecodedIffLayout | src/archive.rs:529-573 | exactly the four layouts decode, and what decodes encodes to the same entries |
| Archives.DecodeArchive | src/archive.rs:458-573 | an archive decodes exactly if it is within both limits, uses all its bytes, and has safe regular entries in one of the layouts |
| Archives.PackedDecodesIff | src/archive.rs:458-573 | packed entries decode exactly if they are within the limits, and to what was packed |

## Left out

- The text, module, path, line and column of diagnostics, and their order where a map is iterated.
- File system work: a path of an input comes with where it leads, to a file of the module's directory, elsewhere or nowhere, and a file with its text, or none if it cannot be read.
- `BundleArchive::read`, absolute module paths, TOML parsing, and errors raised before the checks begin.
- Numbers in JSON that are not 64-bit integers.
- Which error is reported when several apply; the model says when an operation fails, and that a validation failure carries an error.
- gzip and tar framing, UTF-8, JSON text, SHA-256, Ed25519, base64, PEM, regular expressions: functions with the laws listed above.
- Cedar's parsers, schema construction and strict validation: functions; only the structured policy form is concrete, with one leaf for the expression forms the collector does not handle.
- The iteration order of a parsed policy set is taken to be the order of the text.
- The branch for a failed insertion into the aggregate policy set: the indices it uses as ids are always new.
- The engine that evaluates policies, its refusal of layouts, sessions and label registry: the partition theorem takes the layout built here and Cedar's rule that a forbid overrides a permit.
- The order in which the merge visits map keys: the merge is proved for every order.
- The regular-expression labeler used for few patterns, which is not part of this repository; both labelers answer with the names of the patterns that match.
- The form the policy core gives a label target: a function, of which only idempotence is used.
- The in-memory size of artifacts is assumed to be below 2^64 bytes.
- `check_policy`, `check_module`, the builder, the command line, benches and fuzz targets.
