/** `ChangeListener`: when a committed change touches an `ivy.xml`, find the
    build configuration whose last build published the old descriptor (the
    owner), collect the configurations the new descriptor depends on, and
    replace the owner's snapshot dependencies with edges to them. */
module ChangeListener {
  import opened Wrappers
  import opened Exceptions
  import opened Strings
  import opened Descriptors

  const DescriptorFileSuffix := "ivy.xml"
  const OptedInKey := "AutoSetSnapshotDependenciesFromIvy"
  const OptedOutKey := "DisableAutoDependFromMe"

  /** One entry of a finished build's artifact tree, in traversal order. */
  datatype Artifact = Artifact(relativePath: string, isFile: bool, stream: Stream)

  /** One file of a committed modification; either content may be null. */
  datatype FileChange = FileChange(relativeFileName: string, contentBefore: Option<Blob>, contentAfter: Option<Blob>)

  /** A snapshot dependency: an edge from its owner to the build type it
      depends on. */
  datatype Dependency = Dependency(dependOn: BuildType)

  /** A build configuration of the server. This code reads its parameters and
      its last finished build, and rewrites its own dependency list. */
  class BuildType {
    /** The keys of `getParameters()`. */
    const parameters: set<string>
    /** The artifacts of `getLastChangesFinished()`, None when there is none. */
    const lastChangesFinished: Option<seq<Artifact>>
    /** `getOwnDependencies()`, in insertion order. */
    var ownDependencies: seq<Dependency>
    /** How many times `persist()` has been called. */
    var persistCount: nat

    constructor(parameters: set<string>, lastChangesFinished: Option<seq<Artifact>>, ownDependencies: seq<Dependency>)
      ensures this.parameters == parameters && this.lastChangesFinished == lastChangesFinished
      ensures this.ownDependencies == ownDependencies && persistCount == 0
    {
      this.parameters := parameters;
      this.lastChangesFinished := lastChangesFinished;
      this.ownDependencies := ownDependencies;
      persistCount := 0;
    }

    /** `addDependency(dependency)` */
    method AddDependency(dependency: Dependency)
      modifies this
      ensures ownDependencies == old(ownDependencies) + [dependency]
      ensures persistCount == old(persistCount)
    {
      ownDependencies := ownDependencies + [dependency];
    }

    /** `removeDependency(dependency)` */
    method RemoveDependency(dependency: Dependency)
      modifies this
      ensures ownDependencies == RemoveFirst(old(ownDependencies), dependency)
      ensures persistCount == old(persistCount)
    {
      ownDependencies := RemoveFirst(ownDependencies, dependency);
    }

    /** `persist()` */
    method Persist()
      modifies this
      ensures ownDependencies == old(ownDependencies)
      ensures persistCount == old(persistCount) + 1
    {
      persistCount := persistCount + 1;
    }
  }

  /** The position of the first occurrence of `x`. */
  function FirstIndex(s: seq<Dependency>, x: Dependency): (i: nat)
    requires x in s
    ensures i < |s| && s[i] == x && x !in s[..i]
  {
    assert s == [s[0]] + s[1..];
    if s[0] == x then 0
    else
      var i := FirstIndex(s[1..], x);
      assert s[..i + 1] == [s[0]] + s[1..][..i];
      i + 1
  }

  /** The list without the first occurrence of `x`: the kept edges stay in
      order. */
  function RemoveFirst(s: seq<Dependency>, x: Dependency): (r: seq<Dependency>)
    ensures x in s ==> r == s[..FirstIndex(s, x)] + s[FirstIndex(s, x) + 1..]
    ensures x !in s ==> r == s
  {
    if s == [] then []
    else
      var t := s[1..];
      assert s == [s[0]] + t;
      if s[0] == x then
        assert s[..0] == [];
        t
      else
        var rest := RemoveFirst(t, x);
        assert x in s ==> x in t;
        assert x in s ==>
          var k := FirstIndex(t, x);
          && FirstIndex(s, x) == k + 1
          && s[..k + 1] == [s[0]] + t[..k]
          && s[k + 2..] == t[k + 1..];
        [s[0]] + rest
  }

  /** Removing drops one occurrence of `x`, when there is one, and keeps
      every other edge. */
  lemma RemoveFirstDropsOne(s: seq<Dependency>, x: Dependency)
    ensures multiset(RemoveFirst(s, x)) == multiset(s) - multiset{x}
  {
    if x in s {
      var k := FirstIndex(s, x);
      assert s == s[..k] + [s[k]] + s[k + 1..];
    }
  }

  /** `removeDependencies`: removes every edge of a snapshot of the list. */
  method RemoveDependencies(buildType: BuildType)
    modifies buildType
    ensures buildType.ownDependencies == []
    ensures buildType.persistCount == old(buildType.persistCount)
  {
    var dependencies := buildType.ownDependencies;
    var i := 0;
    while i < |dependencies|
      invariant 0 <= i <= |dependencies|
      invariant buildType.ownDependencies == dependencies[i..]
      invariant buildType.persistCount == old(buildType.persistCount)
    {
      buildType.RemoveDependency(dependencies[i]);
      i := i + 1;
    }
  }

  /** `optedIn` */
  predicate OptedIn(buildType: BuildType)
    ensures OptedIn(buildType) <==> CandidateOf(buildType).optedIn
  {
    OptedInKey in buildType.parameters
  }

  // ---------------------------------------------------------------------
  // The descriptor of a build type

  /** An artifact `getIvyDescriptor` tries to parse. */
  predicate IsDescriptorArtifact(a: Artifact)
    ensures IsDescriptorArtifact(a) ==> a.isFile && |a.relativePath| >= |"ivy.xml"|
  {
    var path := a.relativePath;
    if StartsWith(path, "ivy") && EndsWith(path, ".xml") then
      DescriptorNameLength(path);
      a.isFile
    else
      false
  }

  /** The prefix `ivy` and the suffix `.xml` cannot overlap: the shortest
      such name is `ivy.xml`. */
  lemma DescriptorNameLength(path: string)
    requires StartsWith(path, "ivy") && EndsWith(path, ".xml")
    ensures |path| >= |"ivy.xml"|
  {
    var k := |path| - 4;
    assert path[k] == '.' by { assert path[k..][0] == path[k]; }
  }

  /** The exceptions the artifact visitor catches and logs. */
  predicate IsCaught(e: Fault) {
    e == XPathError || e == IoError
  }

  /** The scan passes over this artifact: it is not a descriptor artifact,
      or parsing it throws an exception the visitor catches. */
  predicate Skipped(a: Artifact) {
    !IsDescriptorArtifact(a) || (FromStream(a.stream).Failure? && IsCaught(FromStream(a.stream).error))
  }

  /** What an artifact the scan does not pass over decides: its descriptor,
      or the exception its parse throws. */
  function Decision(a: Artifact): Result<Option<IvyDescriptor>, Fault> {
    match FromStream(a.stream)
    case Success(d) => Success(Some(d))
    case Failure(e) => Failure(e)
  }

  /** The artifact scan: the first descriptor artifact that parses; one
      whose parse throws an XPath or IO error is skipped, any other
      exception escapes the scan. */
  function FirstDescriptor(artifacts: seq<Artifact>): (r: Result<Option<IvyDescriptor>, Fault>)
    ensures r.Failure? ==> !IsCaught(r.error)
  {
    if artifacts == [] then Success(None)
    else if !IsDescriptorArtifact(artifacts[0]) then FirstDescriptor(artifacts[1..])
    else
      match FromStream(artifacts[0].stream)
      case Success(d) => Success(Some(d))
      case Failure(e) => if IsCaught(e) then FirstDescriptor(artifacts[1..]) else Failure(e)
  }

  /** The scan finds nothing exactly when it passes over every artifact;
      otherwise the first artifact it does not pass over decides, and an
      exception that escapes is never one the visitor catches. */
  lemma {:induction false} FirstDescriptorDecided(artifacts: seq<Artifact>)
    ensures FirstDescriptor(artifacts) == Success(None) <==>
              forall i :: 0 <= i < |artifacts| ==> Skipped(artifacts[i])
    ensures FirstDescriptor(artifacts) != Success(None) ==>
              exists i :: 0 <= i < |artifacts| && !Skipped(artifacts[i])
                && (forall j :: 0 <= j < i ==> Skipped(artifacts[j]))
                && FirstDescriptor(artifacts) == Decision(artifacts[i])
    ensures FirstDescriptor(artifacts).Failure? ==> !IsCaught(FirstDescriptor(artifacts).error)
  {
    if artifacts != [] {
      var rest := artifacts[1..];
      FirstDescriptorDecided(rest);
      assert forall i :: 1 <= i < |artifacts| ==> artifacts[i] == rest[i - 1];
      if Skipped(artifacts[0]) {
        assert FirstDescriptor(artifacts) == FirstDescriptor(rest);
        if FirstDescriptor(rest) != Success(None) {
          var i :| 0 <= i < |rest| && !Skipped(rest[i])
                   && (forall j :: 0 <= j < i ==> Skipped(rest[j]))
                   && FirstDescriptor(rest) == Decision(rest[i]);
          assert !Skipped(artifacts[i + 1]) && FirstDescriptor(artifacts) == Decision(artifacts[i + 1]);
        }
      } else {
        assert FirstDescriptor(artifacts) == Decision(artifacts[0]);
      }
    }
  }

  /** The scan stops at the first artifact that yields a descriptor or an
      exception: whatever follows it is never looked at. */
  lemma {:induction false} FirstDescriptorStops(artifacts: seq<Artifact>, more: seq<Artifact>)
    requires FirstDescriptor(artifacts) != Success(None)
    ensures FirstDescriptor(artifacts + more) == FirstDescriptor(artifacts)
  {
    assert artifacts != [];
    assert (artifacts + more)[0] == artifacts[0];
    assert (artifacts + more)[1..] == artifacts[1..] + more;
    var first := artifacts[0];
    if IsDescriptorArtifact(first) && FromStream(first.stream).Failure? && IsCaught(FromStream(first.stream).error) {
      FirstDescriptorStops(artifacts[1..], more);
    } else if !IsDescriptorArtifact(first) {
      FirstDescriptorStops(artifacts[1..], more);
    }
  }

  /** What `getIvyDescriptor` returns or throws for a build type's last
      finished build. */
  function DescriptorOfBuild(lastChangesFinished: Option<seq<Artifact>>): Result<Option<IvyDescriptor>, Fault> {
    match lastChangesFinished
    case None => Success(None)
    case Some(artifacts) => FirstDescriptor(artifacts)
  }

  /** `getIvyDescriptor`: null without a finished build; otherwise the
      artifact visitor, which breaks at the first descriptor it parses. */
  method GetIvyDescriptor(buildType: BuildType) returns (r: Result<Option<IvyDescriptor>, Fault>)
    ensures r == DescriptorOfBuild(buildType.lastChangesFinished)
  {
    if buildType.lastChangesFinished.None? {
      return Success(None);
    }
    var artifacts := buildType.lastChangesFinished.value;
    var i := 0;
    while i < |artifacts|
      invariant 0 <= i <= |artifacts|
      invariant FirstDescriptor(artifacts) == FirstDescriptor(artifacts[i..])
    {
      var artifact := artifacts[i];
      assert artifacts[i..][0] == artifact && artifacts[i..][1..] == artifacts[i + 1..];
      if IsDescriptorArtifact(artifact) {
        var parsed: Result<IvyDescriptor, Fault>;
        if artifact.stream.Unreadable? {
          parsed := Failure(IoError);
        } else {
          parsed := Parse(artifact.stream.blob.reading);
        }
        if parsed.Success? {
          return Success(Some(parsed.value));
        }
        if !IsCaught(parsed.error) {
          return Failure(parsed.error);
        }
      }
      i := i + 1;
    }
    r := Success(None);
  }

  // ---------------------------------------------------------------------
  // Resolution: the scan over the active build types

  /** What the scan reads of one build type. */
  datatype Candidate = Candidate(descriptor: Result<Option<IvyDescriptor>, Fault>, optedIn: bool, optedOut: bool)

  function CandidateOf(b: BuildType): Candidate {
    Candidate(DescriptorOfBuild(b.lastChangesFinished), OptedInKey in b.parameters, OptedOutKey in b.parameters)
  }

  function Snapshot(buildTypes: seq<BuildType>): seq<Candidate> {
    seq(|buildTypes|, i requires 0 <= i < |buildTypes| => CandidateOf(buildTypes[i]))
  }

  /** The scan's state: the owner found so far (`myBuild`) and the build
      types depended on (`dependsOnBuilds`), as positions in the list of
      active build types. */
  datatype Resolution = Resolution(owner: Option<nat>, dependsOn: seq<nat>)

  /** One iteration of the scan, over the build type at position `i`. */
  function Step(r: Resolution, i: nat, c: Candidate, oldD: IvyDescriptor, newD: IvyDescriptor): (next: Result<Resolution, Fault>)
    ensures next.Success? <==> FaultOf(c, oldD, newD).None?
    ensures next.Failure? ==> Some(next.error) == FaultOf(c, oldD, newD)
    ensures next.Success? ==>
              && next.value.owner == (if IsOwner(c, oldD) then Some(i) else r.owner)
              && next.value.dependsOn == (if IsDependedOn(c, oldD, newD) then r.dependsOn + [i] else r.dependsOn)
  {
    match c.descriptor
    case Failure(e) => Failure(e)
    case Success(None) => Failure(NullPointer)
    case Success(Some(d)) =>
      if Equals(d, oldD) then Success(r.(owner := Some(i)))
      else
        match DependsOn(newD, Some(d))
        case Failure(e) => Failure(e)
        case Success(false) => Success(r)
        case Success(true) =>
          if c.optedOut then Success(r) else Success(r.(dependsOn := r.dependsOn + [i]))
  }

  /** The scan over all candidates, in enumeration order. */
  function Resolve(oldD: IvyDescriptor, newD: IvyDescriptor, cs: seq<Candidate>): (r: Result<Resolution, Fault>)
    ensures r.Success? && r.value.owner.Some? ==> r.value.owner.value < |cs|
    ensures r.Success? ==> forall k :: 0 <= k < |r.value.dependsOn| ==> r.value.dependsOn[k] < |cs|
  {
    if cs == [] then Success(Resolution(None, []))
    else
      match Resolve(oldD, newD, cs[..|cs| - 1])
      case Failure(e) => Failure(e)
      case Success(r) => Step(r, |cs| - 1, cs[|cs| - 1], oldD, newD)
  }

  /** The exception handling this candidate throws, if any: its descriptor
      cannot be loaded, it has none (`equals` on null), or `dependsOn` throws. */
  function FaultOf(c: Candidate, oldD: IvyDescriptor, newD: IvyDescriptor): Option<Fault> {
    match c.descriptor
    case Failure(e) => Some(e)
    case Success(None) => Some(NullPointer)
    case Success(Some(d)) =>
      if Equals(d, oldD) then None
      else
        match DependsOn(newD, Some(d))
        case Failure(e) => Some(e)
        case Success(_) => None
  }

  /** The candidate's descriptor equals the old descriptor. */
  predicate IsOwner(c: Candidate, oldD: IvyDescriptor) {
    c.descriptor.Success? && c.descriptor.value.Some? && Equals(c.descriptor.value.value, oldD)
  }

  /** The candidate is one the new descriptor depends on, is not the owner,
      and has not opted out. */
  predicate IsDependedOn(c: Candidate, oldD: IvyDescriptor, newD: IvyDescriptor) {
    c.descriptor.Success? && c.descriptor.value.Some?
    && !Equals(c.descriptor.value.value, oldD)
    && DependsOn(newD, c.descriptor.value) == Success(true)
    && !c.optedOut
  }

  predicate StrictlyIncreasing(s: seq<nat>) {
    forall i, j :: 0 <= i < j < |s| ==> s[i] < s[j]
  }

  /** The scan throws exactly when some candidate throws, and then it throws
      the first candidate's exception. */
  lemma {:induction false} ResolveFaults(oldD: IvyDescriptor, newD: IvyDescriptor, cs: seq<Candidate>)
    ensures Resolve(oldD, newD, cs).Success? <==> forall i :: 0 <= i < |cs| ==> FaultOf(cs[i], oldD, newD).None?
    ensures Resolve(oldD, newD, cs).Failure? ==>
              exists i :: 0 <= i < |cs| && FaultOf(cs[i], oldD, newD) == Some(Resolve(oldD, newD, cs).error)
                && forall j :: 0 <= j < i ==> FaultOf(cs[j], oldD, newD).None?
  {
    if cs != [] {
      var n := |cs| - 1;
      var prefix := cs[..n];
      ResolveFaults(oldD, newD, prefix);
      assert forall i :: 0 <= i < n ==> prefix[i] == cs[i];
    }
  }

  /** The owner is the LAST candidate whose descriptor equals the old one
      (the scan has no `break`), and there is none exactly when no candidate
      matches. */
  lemma {:induction false} ResolveOwner(oldD: IvyDescriptor, newD: IvyDescriptor, cs: seq<Candidate>)
    requires Resolve(oldD, newD, cs).Success?
    ensures var owner := Resolve(oldD, newD, cs).value.owner;
            && (owner.None? <==> forall i :: 0 <= i < |cs| ==> !IsOwner(cs[i], oldD))
            && (owner.Some? ==> IsOwner(cs[owner.value], oldD)
                                && forall j :: owner.value < j < |cs| ==> !IsOwner(cs[j], oldD))
  {
    if cs != [] {
      var n := |cs| - 1;
      var prefix := cs[..n];
      ResolveOwner(oldD, newD, prefix);
      assert forall i :: 0 <= i < n ==> prefix[i] == cs[i];
      var before := Resolve(oldD, newD, prefix).value;
      assert Resolve(oldD, newD, cs) == Step(before, n, cs[n], oldD, newD);
      var after := Resolve(oldD, newD, cs).value;
    }
  }

  /** The build types depended on are exactly the qualifying candidates
      that are not the owner and have not opted out, each once, in
      enumeration order. */
  lemma {:induction false} ResolveDependsOn(oldD: IvyDescriptor, newD: IvyDescriptor, cs: seq<Candidate>)
    requires Resolve(oldD, newD, cs).Success?
    ensures var deps := Resolve(oldD, newD, cs).value.dependsOn;
            && StrictlyIncreasing(deps)
            && forall i :: i in deps <==> 0 <= i < |cs| && IsDependedOn(cs[i], oldD, newD)
  {
    if cs != [] {
      var n := |cs| - 1;
      var prefix := cs[..n];
      ResolveDependsOn(oldD, newD, prefix);
      assert forall i :: 0 <= i < n ==> prefix[i] == cs[i];
      var before := Resolve(oldD, newD, prefix).value;
      assert Resolve(oldD, newD, cs) == Step(before, n, cs[n], oldD, newD);
      var after := Resolve(oldD, newD, cs).value;
      if IsDependedOn(cs[n], oldD, newD) {
        assert after.dependsOn == before.dependsOn + [n];
      } else {
        assert after.dependsOn == before.dependsOn;
      }
    }
  }

  /** No self-edge: the owner is never among the build types it depends on,
      and no opted-out build type is. */
  lemma NoSelfEdgeNoOptedOut(oldD: IvyDescriptor, newD: IvyDescriptor, cs: seq<Candidate>)
    requires Resolve(oldD, newD, cs).Success?
    ensures var r := Resolve(oldD, newD, cs).value;
            && (r.owner.Some? ==> r.owner.value !in r.dependsOn)
            && forall k :: 0 <= k < |r.dependsOn| ==> !cs[r.dependsOn[k]].optedOut
  {
    ResolveOwner(oldD, newD, cs);
    ResolveDependsOn(oldD, newD, cs);
    var r := Resolve(oldD, newD, cs).value;
    assert forall k :: 0 <= k < |r.dependsOn| ==> r.dependsOn[k] in r.dependsOn;
  }

  // ---------------------------------------------------------------------
  // Reconciliation

  /** How `updateSnapshotDependencies` ends when it does not throw. */
  datatype Update = NoOwner | NotOptedIn(owner: nat) | Reconciled(owner: nat, dependsOn: seq<nat>)

  /** The decision of `updateSnapshotDependencies`: the scan, then the two
      gates (an owner exists, the owner opted in). */
  function UpdateOf(oldD: IvyDescriptor, newD: IvyDescriptor, cs: seq<Candidate>): (r: Result<Update, Fault>)
    ensures r.Success? && !r.value.NoOwner? ==> r.value.owner < |cs|
    ensures r.Success? && r.value.Reconciled? ==>
              cs[r.value.owner].optedIn && forall k :: 0 <= k < |r.value.dependsOn| ==> r.value.dependsOn[k] < |cs|
    ensures r.Success? && r.value.NotOptedIn? ==> !cs[r.value.owner].optedIn
    ensures r.Failure? <==> Resolve(oldD, newD, cs).Failure?
    ensures r.Failure? ==> r.error == Resolve(oldD, newD, cs).error
  {
    match Resolve(oldD, newD, cs)
    case Failure(e) => Failure(e)
    case Success(Resolution(None, _)) => Success(NoOwner)
    case Success(Resolution(Some(o), deps)) =>
      if cs[o].optedIn then Success(Reconciled(o, deps)) else Success(NotOptedIn(o))
  }

  /** The decision in terms of the candidates: a reconciled owner is the
      last candidate equal to the old descriptor and has opted in; its
      targets are exactly the qualifying candidates, in order, without it. */
  lemma ReconciledDecision(oldD: IvyDescriptor, newD: IvyDescriptor, cs: seq<Candidate>, o: nat, deps: seq<nat>)
    requires UpdateOf(oldD, newD, cs) == Success(Reconciled(o, deps))
    ensures o < |cs| && IsOwner(cs[o], oldD) && cs[o].optedIn
    ensures forall j :: o < j < |cs| ==> !IsOwner(cs[j], oldD)
    ensures StrictlyIncreasing(deps) && o !in deps
    ensures forall i :: i in deps <==> 0 <= i < |cs| && IsDependedOn(cs[i], oldD, newD)
  {
    ResolveOwner(oldD, newD, cs);
    ResolveDependsOn(oldD, newD, cs);
    NoSelfEdgeNoOptedOut(oldD, newD, cs);
  }

  /** No reconciliation happens exactly when no candidate equals the old
      descriptor (`NoOwner`) or the owner has not opted in (`NotOptedIn`). */
  lemma GatesDecision(oldD: IvyDescriptor, newD: IvyDescriptor, cs: seq<Candidate>)
    requires Resolve(oldD, newD, cs).Success?
    ensures UpdateOf(oldD, newD, cs) == Success(NoOwner) <==> forall i :: 0 <= i < |cs| ==> !IsOwner(cs[i], oldD)
    ensures UpdateOf(oldD, newD, cs).value.NotOptedIn? ==>
              var owner := UpdateOf(oldD, newD, cs).value.owner;
              && IsOwner(cs[owner], oldD)
              && forall j :: owner < j < |cs| ==> !IsOwner(cs[j], oldD)
  {
    ResolveOwner(oldD, newD, cs);
  }

  /** The edges `dependencyFactory.createDependency` makes, one per target. */
  function Targets(buildTypes: seq<BuildType>, dependsOn: seq<nat>): (r: seq<Dependency>)
    requires forall k :: 0 <= k < |dependsOn| ==> dependsOn[k] < |buildTypes|
    ensures |r| == |dependsOn|
    ensures forall k :: 0 <= k < |dependsOn| ==> r[k].dependOn == buildTypes[dependsOn[k]]
  {
    seq(|dependsOn|, k requires 0 <= k < |dependsOn| => Dependency(buildTypes[dependsOn[k]]))
  }

  /** A failure anywhere in a prefix of the scan is the failure of the whole
      scan. */
  lemma {:induction false} ResolvePrefixFailure(oldD: IvyDescriptor, newD: IvyDescriptor, cs: seq<Candidate>, n: nat)
    requires n <= |cs|
    requires Resolve(oldD, newD, cs[..n]).Failure?
    ensures Resolve(oldD, newD, cs) == Resolve(oldD, newD, cs[..n])
    decreases |cs| - n
  {
    if n < |cs| {
      assert cs[..n + 1][..n] == cs[..n];
      ResolvePrefixFailure(oldD, newD, cs, n + 1);
    } else {
      assert cs[..n] == cs;
    }
  }

  /** The body of the scanning loop, for the build type at position `i`. */
  method VisitCandidate(oldD: IvyDescriptor, newD: IvyDescriptor, myBuild: Option<nat>, dependsOnBuilds: seq<nat>,
                        i: nat, candidateBuild: BuildType)
    returns (r: Result<Resolution, Fault>)
    ensures r == Step(Resolution(myBuild, dependsOnBuilds), i, CandidateOf(candidateBuild), oldD, newD)
  {
    var loaded := GetIvyDescriptor(candidateBuild);
    if loaded.Failure? {
      return Failure(loaded.error);
    }
    if loaded.value.None? {
      return Failure(NullPointer);
    }
    var candidateDescriptor := loaded.value.value;
    if Equals(candidateDescriptor, oldD) {
      return Success(Resolution(Some(i), dependsOnBuilds));
    }
    var depends := DependsOn(newD, Some(candidateDescriptor));
    if depends.Failure? {
      return Failure(depends.error);
    }
    if depends.value && OptedOutKey !in candidateBuild.parameters {
      return Success(Resolution(myBuild, dependsOnBuilds + [i]));
    }
    r := Success(Resolution(myBuild, dependsOnBuilds));
  }

  /** The loop of `updateSnapshotDependencies` over the active build types:
      it changes nothing, and returns the scan's result or the first
      exception a candidate throws. */
  method ScanBuildTypes(oldD: IvyDescriptor, newD: IvyDescriptor, buildTypes: seq<BuildType>)
    returns (r: Result<Resolution, Fault>)
    ensures r == Resolve(oldD, newD, Snapshot(buildTypes))
  {
    ghost var cs := Snapshot(buildTypes);
    var myBuild: Option<nat> := None;
    var dependsOnBuilds: seq<nat> := [];
    var i := 0;
    while i < |buildTypes|
      invariant 0 <= i <= |buildTypes|
      invariant Resolve(oldD, newD, cs[..i]) == Success(Resolution(myBuild, dependsOnBuilds))
    {
      assert cs[..i + 1][..i] == cs[..i];
      assert cs[i] == CandidateOf(buildTypes[i]);
      var visited := VisitCandidate(oldD, newD, myBuild, dependsOnBuilds, i, buildTypes[i]);
      assert Resolve(oldD, newD, cs[..i + 1]) == visited;
      if visited.Failure? {
        ResolvePrefixFailure(oldD, newD, cs, i + 1);
        return Failure(visited.error);
      }
      myBuild := visited.value.owner;
      dependsOnBuilds := visited.value.dependsOn;
      i := i + 1;
    }
    assert cs[..i] == cs;
    r := Success(Resolution(myBuild, dependsOnBuilds));
  }

  /** `updateSnapshotDependencies`. Every exception is thrown during the
      scan, before anything is changed. Past the two gates, the owner's edges
      are removed, one edge per build type depended on is added in order, and
      the owner is persisted once; nothing else changes. */
  method UpdateSnapshotDependencies(oldD: IvyDescriptor, newD: IvyDescriptor, buildTypes: seq<BuildType>)
    returns (r: Result<Update, Fault>)
    modifies set b | b in buildTypes
    ensures r == UpdateOf(oldD, newD, Snapshot(buildTypes))
    ensures r.Success? && r.value.Reconciled? ==>
              var owner := buildTypes[r.value.owner];
              && owner.ownDependencies == Targets(buildTypes, r.value.dependsOn)
              && owner.persistCount == old(owner.persistCount) + 1
    ensures forall b :: b in buildTypes && !(r.Success? && r.value.Reconciled? && b == buildTypes[r.value.owner]) ==>
              b.ownDependencies == old(b.ownDependencies) && b.persistCount == old(b.persistCount)
  {
    var scan := ScanBuildTypes(oldD, newD, buildTypes);
    if scan.Failure? {
      return Failure(scan.error);
    }
    if scan.value.owner.None? {
      return Success(NoOwner);
    }
    var myBuild := scan.value.owner.value;
    var dependsOnBuilds := scan.value.dependsOn;
    var owner := buildTypes[myBuild];
    if !OptedIn(owner) {
      return Success(NotOptedIn(myBuild));
    }
    RemoveDependencies(owner);
    var k := 0;
    while k < |dependsOnBuilds|
      modifies owner
      invariant 0 <= k <= |dependsOnBuilds|
      invariant owner.ownDependencies == Targets(buildTypes, dependsOnBuilds[..k])
      invariant owner.persistCount == old(owner.persistCount)
    {
      assert dependsOnBuilds[..k + 1] == dependsOnBuilds[..k] + [dependsOnBuilds[k]];
      var dependency := Dependency(buildTypes[dependsOnBuilds[k]]);
      owner.AddDependency(dependency);
      k := k + 1;
    }
    assert dependsOnBuilds[..k] == dependsOnBuilds;
    owner.Persist();
    r := Success(Reconciled(myBuild, dependsOnBuilds));
  }

  // ---------------------------------------------------------------------
  // The change gate

  /** `Arrays.equals(before, after)`: equal when both are null or both hold
      the same bytes. */
  predicate SameContent(before: Option<Blob>, after: Option<Blob>)
    ensures before == after ==> SameContent(before, after)
    ensures before.Some? && after.Some? && before.value.bytes == after.value.bytes ==> SameContent(before, after)
    ensures SameContent(before, after) ==> before.None? == after.None?
    ensures SameContent(before, after) && before.Some? ==> before.value.bytes == after.value.bytes
  {
    match (before, after)
    case (None, None) => true
    case (Some(a), Some(b)) => a.bytes == b.bytes
    case _ => false
  }

  /** What handling one file change does, as seen in the log. */
  datatype ChangeOutcome =
    | NotDescriptor
    | Unchanged
    | Failed(fault: Fault)
    | Processed(update: Update)

  /** The body of the loop in `changeAdded`, for one file change; an
      exception is caught there and ends the handling of this change only. */
  function ChangeOutcomeOf(change: FileChange, buildTypes: seq<BuildType>): (r: ChangeOutcome)
    ensures r.NotDescriptor? <==> !EndsWith(change.relativeFileName, DescriptorFileSuffix)
    ensures r.Unchanged? <==>
              EndsWith(change.relativeFileName, DescriptorFileSuffix) && SameContent(change.contentBefore, change.contentAfter)
    ensures EndsWith(change.relativeFileName, DescriptorFileSuffix) && !SameContent(change.contentBefore, change.contentAfter) ==>
              var before := FromBytes(change.contentBefore);
              var after := FromBytes(change.contentAfter);
              && (before.Failure? ==> r == Failed(before.error))
              && (before.Success? && after.Failure? ==> r == Failed(after.error))
              && (before.Success? && after.Success? ==>
                    var update := UpdateOf(before.value, after.value, Snapshot(buildTypes));
                    && (update.Failure? ==> r == Failed(update.error))
                    && (update.Success? ==> r == Processed(update.value)))
    ensures r.Processed? ==>
              && !SameContent(change.contentBefore, change.contentAfter)
              && FromBytes(change.contentBefore).Success? && FromBytes(change.contentAfter).Success?
              && UpdateOf(FromBytes(change.contentBefore).value, FromBytes(change.contentAfter).value,
                          Snapshot(buildTypes)) == Success(r.update)
  {
    if !EndsWith(change.relativeFileName, DescriptorFileSuffix) then NotDescriptor
    else if SameContent(change.contentBefore, change.contentAfter) then Unchanged
    else
      match FromBytes(change.contentBefore)
      case Failure(e) => Failed(e)
      case Success(oldD) =>
        match FromBytes(change.contentAfter)
        case Failure(e) => Failed(e)
        case Success(newD) =>
          match UpdateOf(oldD, newD, Snapshot(buildTypes))
          case Failure(e) => Failed(e)
          case Success(u) => Processed(u)
  }

  /** The outcome reconciles build type `b`. */
  predicate Reconciles(outcome: ChangeOutcome, b: BuildType, buildTypes: seq<BuildType>) {
    && outcome.Processed? && outcome.update.Reconciled?
    && outcome.update.owner < |buildTypes| && buildTypes[outcome.update.owner] == b
    && forall k :: 0 <= k < |outcome.update.dependsOn| ==> outcome.update.dependsOn[k] < |buildTypes|
  }

  /** `b`'s edge list after the outcomes, starting from `edges`: the targets
      of the last change that reconciled `b`. */
  function EdgesAfter(edges: seq<Dependency>, b: BuildType, outcomes: seq<ChangeOutcome>, buildTypes: seq<BuildType>): seq<Dependency>
  {
    if outcomes == [] then edges
    else
      var last := outcomes[|outcomes| - 1];
      if Reconciles(last, b, buildTypes) then Targets(buildTypes, last.update.dependsOn)
      else EdgesAfter(edges, b, outcomes[..|outcomes| - 1], buildTypes)
  }

  /** How many of the outcomes persisted `b`. */
  function PersistsAfter(b: BuildType, outcomes: seq<ChangeOutcome>, buildTypes: seq<BuildType>): nat
  {
    if outcomes == [] then 0
    else
      PersistsAfter(b, outcomes[..|outcomes| - 1], buildTypes)
      + if Reconciles(outcomes[|outcomes| - 1], b, buildTypes) then 1 else 0
  }

  /** `changeAdded`: handles the file changes in order; returns what
      happened to each. */
  method ChangeAdded(changes: seq<FileChange>, buildTypes: seq<BuildType>) returns (outcomes: seq<ChangeOutcome>)
    modifies set b | b in buildTypes
    ensures |outcomes| == |changes|
    ensures forall i :: 0 <= i < |changes| ==> outcomes[i] == ChangeOutcomeOf(changes[i], buildTypes)
    ensures forall b :: b in buildTypes ==>
              && b.ownDependencies == EdgesAfter(old(b.ownDependencies), b, outcomes, buildTypes)
              && b.persistCount == old(b.persistCount) + PersistsAfter(b, outcomes, buildTypes)
  {
    outcomes := [];
    var i := 0;
    while i < |changes|
      invariant 0 <= i <= |changes|
      invariant |outcomes| == i
      invariant forall j :: 0 <= j < i ==> outcomes[j] == ChangeOutcomeOf(changes[j], buildTypes)
      invariant forall b :: b in buildTypes ==>
                  && b.ownDependencies == EdgesAfter(old(b.ownDependencies), b, outcomes, buildTypes)
                  && b.persistCount == old(b.persistCount) + PersistsAfter(b, outcomes, buildTypes)
    {
      var outcome := HandleChange(changes[i], buildTypes);
      assert (outcomes + [outcome])[..i] == outcomes;
      outcomes := outcomes + [outcome];
      i := i + 1;
    }
  }

  /** The body of `changeAdded`'s loop for one file change: the suffix and
      content gates, both parses, then the update. Only a build type the
      change reconciles is changed, and it is persisted once. */
  method HandleChange(change: FileChange, buildTypes: seq<BuildType>) returns (outcome: ChangeOutcome)
    modifies set b | b in buildTypes
    ensures outcome == ChangeOutcomeOf(change, buildTypes)
    ensures forall b :: b in buildTypes && Reconciles(outcome, b, buildTypes) ==>
              b.ownDependencies == Targets(buildTypes, outcome.update.dependsOn)
              && b.persistCount == old(b.persistCount) + 1
    ensures forall b :: b in buildTypes && !Reconciles(outcome, b, buildTypes) ==>
              b.ownDependencies == old(b.ownDependencies) && b.persistCount == old(b.persistCount)
  {
    if !EndsWith(change.relativeFileName, DescriptorFileSuffix) {
      return NotDescriptor;
    }
    if SameContent(change.contentBefore, change.contentAfter) {
      return Unchanged;
    }
    var oldD := ReadContent(change.contentBefore);
    if oldD.Failure? {
      return Failed(oldD.error);
    }
    var newD := ReadContent(change.contentAfter);
    if newD.Failure? {
      return Failed(newD.error);
    }
    var update := UpdateSnapshotDependencies(oldD.value, newD.value, buildTypes);
    outcome := if update.Failure? then Failed(update.error) else Processed(update.value);
  }

  /** `new IvyDescriptor(byte[])` in the change gate. */
  method ReadContent(content: Option<Blob>) returns (r: Result<IvyDescriptor, Fault>)
    ensures r == FromBytes(content)
  {
    if content.None? {
      return Failure(NullPointer);
    }
    r := Parse(content.value.reading);
  }

  // ---------------------------------------------------------------------
  // Repeating a change set

  /** Once some outcome reconciles `b`, its edges no longer depend on the
      edges it started with; otherwise they are the edges it started with. */
  lemma {:induction false} EdgesAfterForgetsStart(e1: seq<Dependency>, e2: seq<Dependency>, b: BuildType,
                                                  outcomes: seq<ChangeOutcome>, buildTypes: seq<BuildType>)
    ensures (exists k :: 0 <= k < |outcomes| && Reconciles(outcomes[k], b, buildTypes)) ==>
              EdgesAfter(e1, b, outcomes, buildTypes) == EdgesAfter(e2, b, outcomes, buildTypes)
    ensures (forall k :: 0 <= k < |outcomes| ==> !Reconciles(outcomes[k], b, buildTypes)) ==>
              EdgesAfter(e1, b, outcomes, buildTypes) == e1
  {
    if outcomes != [] {
      var n := |outcomes| - 1;
      var prefix := outcomes[..n];
      EdgesAfterForgetsStart(e1, e2, b, prefix, buildTypes);
      assert forall k :: 0 <= k < n ==> prefix[k] == outcomes[k];
    }
  }

  /** Handling the same outcomes again leaves every edge list as it was:
      reconciliation is idempotent. */
  lemma EdgesAfterIdempotent(edges: seq<Dependency>, b: BuildType, outcomes: seq<ChangeOutcome>, buildTypes: seq<BuildType>)
    ensures EdgesAfter(EdgesAfter(edges, b, outcomes, buildTypes), b, outcomes, buildTypes)
            == EdgesAfter(edges, b, outcomes, buildTypes)
  {
    EdgesAfterForgetsStart(EdgesAfter(edges, b, outcomes, buildTypes), edges, b, outcomes, buildTypes);
    EdgesAfterForgetsStart(edges, edges, b, outcomes, buildTypes);
  }

  /** A change set delivered twice: the second delivery computes the same
      outcomes and leaves every build type with the edges the first one
      left (each reconciled owner is persisted again). */
  method ChangeAddedTwice(changes: seq<FileChange>, buildTypes: seq<BuildType>)
    returns (first: seq<ChangeOutcome>, second: seq<ChangeOutcome>)
    modifies set b | b in buildTypes
    ensures second == first
    ensures forall b :: b in buildTypes ==> b.ownDependencies == EdgesAfter(old(b.ownDependencies), b, first, buildTypes)
  {
    first := ChangeAdded(changes, buildTypes);
    ghost var between := map b | b in buildTypes :: b.ownDependencies;
    assert forall b | b in buildTypes :: between[b] == EdgesAfter(old(b.ownDependencies), b, first, buildTypes);
    second := ChangeAdded(changes, buildTypes);
    assert second == first;
    assert forall b | b in buildTypes :: b.ownDependencies == EdgesAfter(between[b], b, first, buildTypes);
    forall b | b in buildTypes
      ensures b.ownDependencies == EdgesAfter(old(b.ownDependencies), b, first, buildTypes)
    {
      EdgesAfterIdempotent(old(b.ownDependencies), b, first, buildTypes);
    }
  }
}
