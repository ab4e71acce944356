# AutoIvyDeps — a verified model of the dependency decision

AutoIvyDeps is a TeamCity server plugin. When a commit changes a build
configuration's Ivy descriptor (`ivy.xml`), the plugin does three things:

- it finds the build configuration that owns the old descriptor;
- it works out which other configurations the new descriptor depends on;
- it rewrites the owner's snapshot dependencies to match.

This project models that decision logic in Dafny and proves what it does.

- `wrappers.dfy`, `exceptions.dfy`: `Option` (Java null) and `Result`.
  `Fault` lists the exceptions the code can raise: null dereference, XPath
  error, IO error, and a rejected regular expression.
- `strings.dfy`: Java's `startsWith`, `endsWith` and `contains`.
- `ivy_dependency.dfy` (module `Dependencies`): the `IvyDependency` record.
  Its four fields may each be null.
- `revision_pattern.dfy` (module `RevisionPattern`): `Pattern.compile` and
  `matcher(..).matches()`, restricted to a subset of Java regular expressions.
  - The subset has literal characters, `.` (any character but a line
    terminator) and postfix `+`/`*`.
  - `Matches` is a backtracking full match. It is proved equal to a
    split-based reference semantics, `Generates`.
- `ivy_descriptor.dfy` (module `Descriptors`): `IvyDescriptor`.
  - Parsing runs over an abstract document. The document holds the
    attributes of `info` and of each `dependency` element, in document
    order.
  - Also here: `dependsOn`, `matchesRevision`, `equals` and `hashCode`, and
    the unit tests' scenarios as lemmas.
- `change_listener.dfy` (module `ChangeListener`): the server side.
  - `BuildType` is a class. Its parameter keys and its last finished build's
    artifacts are constant. Its edge list and persist counter are mutable.
  - The methods mirror `getIvyDescriptor`, `updateSnapshotDependencies`,
    `removeDependencies` and `changeAdded`. Each is proved against a
    specification function (`DescriptorOfBuild`, `Resolve`/`UpdateOf`,
    `ChangeOutcomeOf`/`EdgesAfter`).

Three behaviours of the code worth knowing:

- The owner is the last build type whose descriptor equals the old one. The
  scan has no `break`.
- A build type with no loadable descriptor makes `equals` be called on null
  (ChangeListener.java:100). That aborts the whole file change; it does not
  skip the candidate.
- While an artifact is parsed, only XPath and IO errors are caught. Any
  other exception leaves the artifact scan and aborts the file change.

## Model

| member | source | states |
|---|---|---|
| Dependencies.Unset | plugin/src/com/alvrod/ivyplug/IvyDependency.java:4-10 | the no-argument constructor leaves all four fields null |
| Dependencies.Create | plugin/src/com/alvrod/ivyplug/IvyDependency.java:12-17 | the four-argument constructor stores organisation, name, rev and branch into the matching fields |
| Dependencies.CreateKeepsArguments | plugin/src/com/alvrod/ivyplug/IvyDependency.java:7-17 | the record applies no defaults: equal records come from equal arguments, and only from them |
| Descriptors.Empty | plugin/src/com/alvrod/ivyplug/IvyDescriptor.java:19-25 | a new descriptor has empty organisation, module and revision, branch `trunk`, status `integration`, and no dependencies |
| Descriptors.GetBranch | plugin/src/com/alvrod/ivyplug/IvyDescriptor.java:96-101 | an absent `branch` attribute gives `trunk`; a present one is kept as it is, even when empty |
| Descriptors.GetStatus | plugin/src/com/alvrod/ivyplug/IvyDescriptor.java:103-108 | an absent `status` attribute gives `integration`; a present one is kept as it is, even when empty |
| Descriptors.InfoOf | plugin/src/com/alvrod/ivyplug/IvyDescriptor.java:70-79 | reading `info` throws a null dereference iff the element or its organisation, module or revision is missing; otherwise those three are kept verbatim, branch and status fall back to their defaults only when absent, and no dependency is read yet |
| Descriptors.ParseKeepsInfoAttributes | plugin/src/com/alvrod/ivyplug/IvyDescriptor.java:70-79 | a parsed descriptor keeps each `info` attribute verbatim, an empty one included; branch and status fall back to `trunk`/`integration` only when the attribute is absent |
| Descriptors.ParseFailsExactly | plugin/src/com/alvrod/ivyplug/IvyDescriptor.java:56-94 | parsing fails exactly when the bytes are not XML (XPath error), `info` or its organisation/module/revision is missing, or a `dependency` lacks org/name/rev (null dereference) |
| Descriptors.DependenciesOfCharacterized | plugin/src/com/alvrod/ivyplug/IvyDescriptor.java:81-94 | dependency parsing succeeds iff every element has org, name and rev; it then yields one declaration per element, in order, with branch defaulting to `trunk` |
| Descriptors.ParseDependencies | plugin/src/com/alvrod/ivyplug/IvyDescriptor.java:81-94 | the loop filling fresh records field by field computes exactly `DependenciesOf` |
| Descriptors.Parse | plugin/src/com/alvrod/ivyplug/IvyDescriptor.java:56-68 | `parse` (info, then dependencies appended to the empty list) computes exactly `DescriptorOf` |
| Descriptors.FromBytes | plugin/src/com/alvrod/ivyplug/IvyDescriptor.java:45-48 | a null byte array throws a null dereference; otherwise the bytes are parsed |
| Descriptors.FromStream | plugin/src/com/alvrod/ivyplug/IvyDescriptor.java:41-43 | an unreadable stream throws an IO error; otherwise its bytes are parsed |
| Descriptors.ParseKeepsDependencyOrder | plugin/src/com/alvrod/ivyplug/IvyDescriptor.java:82-93 | a parsed descriptor has one declaration per `dependency` element, in document order |
| Descriptors.SampleDescriptorParses | plugin/test/src/IvyParsing.java:14-42 | the parsing test's document parses to its asserted identity, default status `integration`, and its two dependencies in order |
| Descriptors.MatchesRevision | plugin/src/com/alvrod/ivyplug/IvyDescriptor.java:124-132 | a revision containing `latest` always matches, a null constraint among the rest throws; otherwise a constraint outside the supported syntax throws its compile error, and a compiled one gives the whole-string match of the revision |
| Descriptors.IdentityMatches | plugin/src/com/alvrod/ivyplug/IvyDescriptor.java:113-115 | a declaration with a null org, name or branch names no candidate; `DependsOnIsExistential` uses it to characterise `dependsOn` |
| Descriptors.DependsOnAny | plugin/src/com/alvrod/ivyplug/IvyDescriptor.java:112-119 | true only with a declaration naming the candidate's org, module and branch whose revision matches, every earlier such declaration's check being false; false only when every such declaration's revision check is false; an exception comes from the first throwing check |
| Descriptors.DependsOn | plugin/src/com/alvrod/ivyplug/IvyDescriptor.java:110-122 | `dependsOn(null)` is false |
| Descriptors.DependsOnAnySucceeds | plugin/src/com/alvrod/ivyplug/IvyDescriptor.java:112-119 | the declaration loop throws only when some revision check on a matching declaration throws |
| Descriptors.DependsOnIsExistential | plugin/src/com/alvrod/ivyplug/IvyDescriptor.java:110-122 | without exceptions, `dependsOn(d)` is true iff some declaration has d's org, module and branch and d's revision matches it |
| Descriptors.LatestDependsOnIdentityAlone | plugin/src/com/alvrod/ivyplug/IvyDescriptor.java:125-128 | for a candidate whose revision contains `latest`, only org, module and branch decide |
| Descriptors.DependsOnAnyReadsIdentity | plugin/src/com/alvrod/ivyplug/IvyDescriptor.java:112-116 | matching reads only the candidate's org, module, branch and revision |
| Descriptors.LibraryRevisionMatches | plugin/test/src/IvyDependencies.java:9-45 | `1.+` accepts revision `1.0.4.2332` and `0.+` rejects it |
| Descriptors.SimplePositiveDependency | plugin/test/src/IvyDependencies.java:9-26 | the positive test's app depends on its library |
| Descriptors.SimpleNegativeDependency | plugin/test/src/IvyDependencies.java:28-45 | the negative test's app does not depend on its library |
| Descriptors.Equals | plugin/src/com/alvrod/ivyplug/IvyDescriptor.java:134-148 | two descriptors are equal iff they differ at most in their dependency list |
| Descriptors.EqualsIsEquivalence | plugin/src/com/alvrod/ivyplug/IvyDescriptor.java:134-148 | `equals` is reflexive, symmetric and transitive |
| Descriptors.HashCode | plugin/src/com/alvrod/ivyplug/IvyDescriptor.java:150-158 | the hash is a Java `int` |
| Descriptors.StringHash | plugin/src/com/alvrod/ivyplug/IvyDescriptor.java:152 | a string's hash is a Java `int` |
| Descriptors.EqualsImpliesEqualHash | plugin/src/com/alvrod/ivyplug/IvyDescriptor.java:134-158 | equal descriptors hash equally |
| RevisionPattern.Compile | plugin/src/com/alvrod/ivyplug/IvyDescriptor.java:130 | compiling yields at most one piece per character, or a syntax or unsupported-syntax error; a compiled literal is never `.`, `+`, `*` or an unsupported metacharacter, so `.` is always the wildcard |
| RevisionPattern.CompileRoundTrip | plugin/src/com/alvrod/ivyplug/IvyDescriptor.java:130 | a compiled pattern, written back as text, is the constraint itself |
| RevisionPattern.CompileInvertsRender | plugin/src/com/alvrod/ivyplug/IvyDescriptor.java:130 | every pattern the compiler can build compiles back from its text; with `CompileRoundTrip`, compiling is the exact inverse of writing a pattern out, so each character's reading is fixed |
| RevisionPattern.RenderInjective | plugin/src/com/alvrod/ivyplug/IvyDescriptor.java:130 | two compiled patterns with the same text are the same pattern |
| RevisionPattern.VersionDotIsWildcard | plugin/src/com/alvrod/ivyplug/IvyDescriptor.java:124-131 | the version constraint `1.0` is read as a regular expression: it accepts `1.0` and `1x0` and rejects `1.00` |
| RevisionPattern.Matches | plugin/src/com/alvrod/ivyplug/IvyDescriptor.java:131 | a match needs at least one character per piece quantified once or by `+`; `MatchesIffGenerates` gives its exact language |
| RevisionPattern.CompileSucceedsIff | plugin/src/com/alvrod/ivyplug/IvyDescriptor.java:130 | compiling succeeds iff the constraint has no unsupported metacharacter and every `+`/`*` follows a non-quantifier character |
| RevisionPattern.MatchesSound | plugin/src/com/alvrod/ivyplug/IvyDescriptor.java:131 | every full match found is a split of the input into words of the pieces |
| RevisionPattern.MatchesComplete | plugin/src/com/alvrod/ivyplug/IvyDescriptor.java:131 | every such split is found by the backtracking match |
| RevisionPattern.MatchesIffGenerates | plugin/src/com/alvrod/ivyplug/IvyDescriptor.java:131 | the full match and the reference semantics agree |
| RevisionPattern.CompileLiteral | plugin/src/com/alvrod/ivyplug/IvyDescriptor.java:130 | a literal prefix compiles to one literal piece per character, in front of the rest |
| RevisionPattern.MatchesLiteralPrefix | plugin/src/com/alvrod/ivyplug/IvyDescriptor.java:131 | a literal prefix matches exactly the strings that start with it and whose rest the remainder matches |
| RevisionPattern.LiteralConstraintIsExact | plugin/src/com/alvrod/ivyplug/IvyDescriptor.java:130-131 | a constraint without metacharacters matches only itself; there is no wildcard translation |
| RevisionPattern.AnyStarMatches | plugin/src/com/alvrod/ivyplug/IvyDescriptor.java:131 | `.*` matches exactly the strings without line terminators |
| RevisionPattern.AnyPlusMatches | plugin/src/com/alvrod/ivyplug/IvyDescriptor.java:131 | `.+` matches exactly the non-empty strings without line terminators |
| RevisionPattern.LiteralDotPlus | plugin/src/com/alvrod/ivyplug/IvyDescriptor.java:130-131 | `p.+` matches exactly the strings that extend `p` by at least one non-terminator character |
| ChangeListener.BuildType.AddDependency | plugin/src/com/alvrod/ivyplug/ChangeListener.java:128 | appends one edge; the counter is untouched |
| ChangeListener.BuildType.RemoveDependency | plugin/src/com/alvrod/ivyplug/ChangeListener.java:172 | removes the first equal edge, keeping the others in order |
| ChangeListener.BuildType.Persist | plugin/src/com/alvrod/ivyplug/ChangeListener.java:130 | counts one persist; the edges are untouched |
| ChangeListener.FirstIndex | plugin/src/com/alvrod/ivyplug/ChangeListener.java:172 | the position of the first occurrence of an edge in the list |
| ChangeListener.RemoveFirst | plugin/src/com/alvrod/ivyplug/ChangeListener.java:172 | the list with its first occurrence of the edge cut out, the rest in order; unchanged without one |
| ChangeListener.RemoveFirstDropsOne | plugin/src/com/alvrod/ivyplug/ChangeListener.java:172 | one occurrence fewer of the edge, every other edge kept |
| ChangeListener.RemoveDependencies | plugin/src/com/alvrod/ivyplug/ChangeListener.java:167-174 | removing each edge of a snapshot of the list leaves it empty and persists nothing |
| ChangeListener.OptedIn | plugin/src/com/alvrod/ivyplug/ChangeListener.java:77-85 | a build type has opted in iff its parameters have the key `AutoSetSnapshotDependenciesFromIvy` |
| ChangeListener.FirstDescriptor | plugin/src/com/alvrod/ivyplug/ChangeListener.java:141-162 | an exception leaving the artifact scan is never an XPath or IO error |
| ChangeListener.IsDescriptorArtifact | plugin/src/com/alvrod/ivyplug/ChangeListener.java:147-149 | an artifact is parsed only if it is a file whose path starts with `ivy` and ends with `.xml`, so the path has at least the length of `ivy.xml`; `FirstDescriptorDecided` states how the scan uses it |
| ChangeListener.DescriptorNameLength | plugin/src/com/alvrod/ivyplug/ChangeListener.java:148-149 | the prefix `ivy` and the suffix `.xml` cannot overlap |
| ChangeListener.FirstDescriptorDecided | plugin/src/com/alvrod/ivyplug/ChangeListener.java:141-162 | the scan yields null iff every artifact is passed over (not a `ivy*.xml` file, or its parse throws an XPath/IO error); otherwise the first artifact not passed over decides, and an escaping exception is never XPath/IO |
| ChangeListener.FirstDescriptorStops | plugin/src/com/alvrod/ivyplug/ChangeListener.java:151-152 | scanning stops at the deciding artifact: later artifacts change nothing |
| ChangeListener.GetIvyDescriptor | plugin/src/com/alvrod/ivyplug/ChangeListener.java:133-165 | null without a finished build, otherwise the scan's result |
| ChangeListener.Resolve | plugin/src/com/alvrod/ivyplug/ChangeListener.java:98-112 | the owner and every build type depended on are positions in the list |
| ChangeListener.Step | plugin/src/com/alvrod/ivyplug/ChangeListener.java:99-111 | one iteration throws iff its candidate throws, with that exception; otherwise it makes an equal candidate the owner, or appends a qualifying one |
| ChangeListener.ResolveFaults | plugin/src/com/alvrod/ivyplug/ChangeListener.java:98-103 | the scan throws iff some candidate throws (no descriptor: `equals` on null; unloadable; `dependsOn` throws), and it throws the first one's exception |
| ChangeListener.ResolveOwner | plugin/src/com/alvrod/ivyplug/ChangeListener.java:98-103 | the owner is the last candidate equal to the old descriptor, and is missing iff none is |
| ChangeListener.ResolveDependsOn | plugin/src/com/alvrod/ivyplug/ChangeListener.java:103-111 | the list depended on holds exactly the non-owner, not opted-out candidates the new descriptor depends on, in enumeration order, each once |
| ChangeListener.NoSelfEdgeNoOptedOut | plugin/src/com/alvrod/ivyplug/ChangeListener.java:100-111 | the owner is never depended on, nor is any opted-out candidate |
| ChangeListener.ResolvePrefixFailure | plugin/src/com/alvrod/ivyplug/ChangeListener.java:98-112 | an exception raised in a prefix of the scan is the scan's exception |
| ChangeListener.UpdateOf | plugin/src/com/alvrod/ivyplug/ChangeListener.java:114-122 | the update throws iff the scan throws, with the scan's exception (a faulty candidate is not skipped); a reconciled owner has opted in, a `NotOptedIn` owner has not |
| ChangeListener.ReconciledDecision | plugin/src/com/alvrod/ivyplug/ChangeListener.java:98-130 | reconciling means: the owner is the last candidate equal to the old descriptor and has opted in; its targets are exactly the qualifying candidates, in order, without itself |
| ChangeListener.GatesDecision | plugin/src/com/alvrod/ivyplug/ChangeListener.java:114-122 | nothing is reconciled without an owner, which happens iff no candidate equals the old descriptor; a `NotOptedIn` owner is the last candidate equal to the old descriptor |
| ChangeListener.Targets | plugin/src/com/alvrod/ivyplug/ChangeListener.java:125-129 | one edge per build type depended on, in order |
| ChangeListener.VisitCandidate | plugin/src/com/alvrod/ivyplug/ChangeListener.java:99-111 | the loop body for one build type computes exactly one step of `Resolve` |
| ChangeListener.ScanBuildTypes | plugin/src/com/alvrod/ivyplug/ChangeListener.java:93-112 | the scanning loop computes exactly `Resolve` and changes nothing |
| ChangeListener.UpdateSnapshotDependencies | plugin/src/com/alvrod/ivyplug/ChangeListener.java:89-131 | the result is `UpdateOf`; when reconciled, the owner's edges are exactly the targets in order, persisted once; every other build type, and every build type when not reconciled, is unchanged |
| ChangeListener.ChangeOutcomeOf | plugin/src/com/alvrod/ivyplug/ChangeListener.java:54-71 | a file change is considered iff its path ends with `ivy.xml`; it does nothing iff it is considered and its content is unchanged; otherwise the old content's parse error, then the new content's, then the update's, is the outcome, and a change that gets through all three is processed with the update's result |
| ChangeListener.SameContent | plugin/src/com/alvrod/ivyplug/ChangeListener.java:61 | two contents compare equal as `Arrays.equals` does: both null, or both present with the same bytes; only the bytes are compared |
| ChangeListener.ReadContent | plugin/src/com/alvrod/ivyplug/ChangeListener.java:64-65 | reading a content is `FromBytes` (null content throws) |
| ChangeListener.HandleChange | plugin/src/com/alvrod/ivyplug/ChangeListener.java:54-71 | one file change's outcome is `ChangeOutcomeOf`; only a build type it reconciles changes, taking the targets as edges and one persist |
| ChangeListener.ChangeAdded | plugin/src/com/alvrod/ivyplug/ChangeListener.java:47-73 | every file change gets its own outcome, an exception ending only that change; each build type's edges are those of the last change that reconciled it, and it is persisted once per such change |
| ChangeListener.EdgesAfterForgetsStart | plugin/src/com/alvrod/ivyplug/ChangeListener.java:124-130 | once a build type is reconciled its edges no longer depend on the old ones; otherwise they are the old ones |
| ChangeListener.EdgesAfterIdempotent | plugin/src/com/alvrod/ivyplug/ChangeListener.java:124-130 | handling the same outcomes again leaves every edge list as it is |
| ChangeListener.ChangeAddedTwice | plugin/src/com/alvrod/ivyplug/ChangeListener.java:47-73 | delivering a change set twice gives the same outcomes and the same edges as delivering it once |

## Left out

- XML and XPath evaluation. A byte buffer carries the document the XML layer
  reads from it (`Blob.reading`). A malformed document stands for every
  `XPathExpressionException`.
- `IvyDescriptor.copy` and the three stream/byte/String constructors
  (IvyDescriptor.java:27-53). They are stream plumbing: `FromBytes` and
  `FromStream` stand in for them, and an unreadable stream is an
  `IOException`.
- Descriptor fields are never null in the model, because the parser never
  stores null there. So `equals` and `hashCode` do not need the null arms of
  IvyDescriptor.java:141-156. Descriptors are values, not objects: the
  reference test `this == o` is subsumed by field equality.
- RevisionPattern.Compile: Java syntax outside the modelled subset is
  rejected with `PatternUnsupported` rather than given Java's meaning.
  - This covers classes, groups, alternation (`|`), anchors, `?`,
    `{n,m}`, escapes and possessive quantifiers.
  - A declaration written in that syntax (an Ivy range such as
    `[1.0,2.0]`, a Java character class) therefore makes `dependsOn`
    throw in the model, and the whole file change is abandoned. Java would
    compile the pattern and compute a match.
  - A lone `]` or `}` is rejected too, although Java reads it as a literal
    character.
  - A leading `+`/`*` is a syntax error, as in Java.
- Descriptors.HashCode: characters are Unicode code points. Java hashes
  UTF-16 units, so the two differ for characters outside the Basic
  Multilingual Plane.
- The TeamCity server API.
  - Not modelled: listener registration, `Loggers`, `ProjectManager`, the
    artifact traversal mechanics, `DependencyFactory`, and persistence.
  - A build type is a class with constant parameter keys and a constant list
    of last-build artifacts, a mutable edge list, and a persist counter.
  - Created edges are values naming their target.
  - `removeDependencies` iterates a snapshot of the edge list.
- ChangeListener.ChangeAdded: the Java method returns nothing. The model
  returns one outcome per file change, standing for what is logged.
  `buildTypes` and `root` are unused by the source and not modelled.
- Logging of every kind is left out.
- There is no concurrency: the listener handles one modification at a time.
