/** `IvyDescriptor`: the identity of an Ivy module (organisation, module
    name, branch, revision, status) and the dependencies it declares; how it
    is read from a descriptor document, how it decides that it depends on
    another module's descriptor, and its equality and hash code. */
module Descriptors {
  import opened Wrappers
  import opened Exceptions
  import opened Strings
  import opened RevisionPattern
  import opened Dependencies

  const DefaultBranch := "trunk"
  const DefaultStatus := "integration"

  /** The five identity fields are never null in this model: they start from
      non-null initialisers and the parser only stores attribute values. */
  datatype IvyDescriptor = IvyDescriptor(
    organisation: string,
    moduleName: string,
    branch: string,
    revision: string,
    status: string,
    dependencies: seq<IvyDependency>)

  /** `new IvyDescriptor()`: the field initialisers. */
  function Empty(): (d: IvyDescriptor)
    ensures d.organisation == "" && d.moduleName == "" && d.revision == ""
    ensures d.branch == DefaultBranch && d.status == DefaultStatus
    ensures d.dependencies == []
  {
    IvyDescriptor("", "", DefaultBranch, "", DefaultStatus, [])
  }

  // ---------------------------------------------------------------------
  // The document the XPath queries see

  /** The attributes of one XML element, by name. */
  type Attributes = map<string, string>

  /** What `//ivy-module/info` and `//ivy-module/dependencies/dependency`
      select: the attributes of the `info` element, if there is one, and of
      each `dependency` element in document order. */
  datatype Document = Document(info: Option<Attributes>, dependencyNodes: seq<Attributes>)

  /** What the XML layer makes of a byte buffer. */
  datatype XmlReading = Malformed | WellFormed(doc: Document)

  /** A byte buffer together with the XML layer's reading of it. Only `bytes`
      is ever compared; `reading` is what parsing those bytes yields. */
  datatype Blob = Blob(bytes: seq<bv8>, reading: XmlReading)

  /** An artifact's input stream: reading it may fail with an `IOException`. */
  datatype Stream = Unreadable | Readable(blob: Blob)

  /** `attributes.getNamedItem(name)`, null when absent. */
  function GetNamedItem(attributes: Attributes, name: string): Option<string> {
    if name in attributes then Some(attributes[name]) else None
  }

  /** `getBranch(node)`: the default applies only to an absent attribute. */
  function GetBranch(node: Option<string>): (branch: string)
    ensures node.None? ==> branch == DefaultBranch
    ensures node.Some? ==> branch == node.value
  {
    match node
    case None => DefaultBranch
    case Some(v) => v
  }

  /** `getStatus(node)`: the default applies only to an absent attribute. */
  function GetStatus(node: Option<string>): (status: string)
    ensures node.None? ==> status == DefaultStatus
    ensures node.Some? ==> status == node.value
  {
    match node
    case None => DefaultStatus
    case Some(v) => v
  }

  // ---------------------------------------------------------------------
  // Parsing

  /** `parseInfo`: a missing `info` element, or a missing `organisation`,
      `module` or `revision` attribute, dereferences null. */
  function InfoOf(doc: Document): (r: Result<IvyDescriptor, Fault>)
    ensures r.Failure? <==> !InfoComplete(doc)
    ensures r.Failure? ==> r.error == NullPointer
    ensures r.Success? ==>
              var a := doc.info.value;
              && r.value.organisation == a["organisation"]
              && r.value.moduleName == a["module"]
              && r.value.revision == a["revision"]
              && r.value.branch == (if "branch" in a then a["branch"] else DefaultBranch)
              && r.value.status == (if "status" in a then a["status"] else DefaultStatus)
              && r.value.dependencies == []
  {
    match doc.info
    case None => Failure(NullPointer)
    case Some(a) =>
      if "organisation" in a && "module" in a && "revision" in a then
        Success(Empty().(
          organisation := a["organisation"],
          moduleName := a["module"],
          branch := GetBranch(GetNamedItem(a, "branch")),
          status := GetStatus(GetNamedItem(a, "status")),
          revision := a["revision"]))
      else
        Failure(NullPointer)
  }

  predicate HasRequiredAttributes(a: Attributes) {
    "org" in a && "name" in a && "rev" in a
  }

  /** The declaration one `dependency` element yields. */
  function DependencyOf(a: Attributes): Result<IvyDependency, Fault> {
    if HasRequiredAttributes(a) then
      Success(Create(a["org"], a["name"], a["rev"], GetBranch(GetNamedItem(a, "branch"))))
    else
      Failure(NullPointer)
  }

  /** The declarations of the `dependency` elements, in document order. */
  function DependenciesOf(nodes: seq<Attributes>): Result<seq<IvyDependency>, Fault> {
    if nodes == [] then Success([])
    else
      match DependencyOf(nodes[0])
      case Failure(e) => Failure(e)
      case Success(d) =>
        match DependenciesOf(nodes[1..])
        case Failure(e) => Failure(e)
        case Success(rest) => Success([d] + rest)
  }

  /** Parsing the dependency elements fails exactly when one of them lacks
      `org`, `name` or `rev`; otherwise it yields one declaration per element,
      in order, whose branch is `trunk` when the attribute is absent. */
  lemma {:induction false} DependenciesOfCharacterized(nodes: seq<Attributes>)
    ensures DependenciesOf(nodes).Success? <==> forall i :: 0 <= i < |nodes| ==> HasRequiredAttributes(nodes[i])
    ensures DependenciesOf(nodes).Failure? ==> DependenciesOf(nodes).error == NullPointer
    ensures DependenciesOf(nodes).Success? ==>
              var deps := DependenciesOf(nodes).value;
              |deps| == |nodes| &&
              forall i :: 0 <= i < |nodes| ==>
                deps[i] == Create(nodes[i]["org"], nodes[i]["name"], nodes[i]["rev"],
                                  if "branch" in nodes[i] then nodes[i]["branch"] else DefaultBranch)
  {
    if nodes != [] {
      DependenciesOfCharacterized(nodes[1..]);
      assert forall i :: 1 <= i < |nodes| ==> nodes[i] == nodes[1..][i - 1];
    }
  }

  /** `parseDependencies`: reads each selected element's attributes into a
      fresh `IvyDependency` and appends it to the list. */
  method ParseDependencies(nodes: seq<Attributes>) returns (r: Result<seq<IvyDependency>, Fault>)
    ensures r == DependenciesOf(nodes)
  {
    DependenciesOfCharacterized(nodes);
    var deps: seq<IvyDependency> := [];
    var i := 0;
    while i < |nodes|
      invariant 0 <= i <= |nodes|
      invariant |deps| == i
      invariant forall j :: 0 <= j < i ==> HasRequiredAttributes(nodes[j]) && Success(deps[j]) == DependencyOf(nodes[j])
    {
      var attributes := nodes[i];
      var dep := Unset();
      if "org" !in attributes {
        return Failure(NullPointer);
      }
      dep := dep.(organisation := Some(attributes["org"]));
      if "name" !in attributes {
        return Failure(NullPointer);
      }
      dep := dep.(name := Some(attributes["name"]));
      if "rev" !in attributes {
        return Failure(NullPointer);
      }
      dep := dep.(rev := Some(attributes["rev"]));
      dep := dep.(branch := Some(GetBranch(GetNamedItem(attributes, "branch"))));
      deps := deps + [dep];
      i := i + 1;
    }
    assert deps == DependenciesOf(nodes).value;
    r := Success(deps);
  }

  /** The descriptor a reading of the bytes parses to: `parseInfo`, then
      `parseDependencies` appending to the (empty) dependency list. */
  function DescriptorOf(x: XmlReading): Result<IvyDescriptor, Fault> {
    match x
    case Malformed => Failure(XPathError)
    case WellFormed(doc) =>
      match InfoOf(doc)
      case Failure(e) => Failure(e)
      case Success(d) =>
        match DependenciesOf(doc.dependencyNodes)
        case Failure(e) => Failure(e)
        case Success(deps) => Success(d.(dependencies := d.dependencies + deps))
  }

  /** `parse`: the imperative reading, field by field. */
  method Parse(x: XmlReading) returns (r: Result<IvyDescriptor, Fault>)
    ensures r == DescriptorOf(x)
  {
    if x.Malformed? {
      return Failure(XPathError);
    }
    var info := InfoOf(x.doc);
    if info.Failure? {
      return Failure(info.error);
    }
    var d := info.value;
    var deps := ParseDependencies(x.doc.dependencyNodes);
    if deps.Failure? {
      return Failure(deps.error);
    }
    d := d.(dependencies := d.dependencies + deps.value);
    r := Success(d);
  }

  /** `new IvyDescriptor(byte[])`: a null array fails before any parsing. */
  function FromBytes(content: Option<Blob>): (r: Result<IvyDescriptor, Fault>)
    ensures content.None? ==> r == Failure(NullPointer)
    ensures content.Some? ==> r == DescriptorOf(content.value.reading)
  {
    match content
    case None => Failure(NullPointer)
    case Some(b) => DescriptorOf(b.reading)
  }

  /** `new IvyDescriptor(InputStream)`: reading the stream may fail first. */
  function FromStream(s: Stream): (r: Result<IvyDescriptor, Fault>)
    ensures s.Unreadable? ==> r == Failure(IoError)
    ensures s.Readable? ==> r == DescriptorOf(s.blob.reading)
  {
    match s
    case Unreadable => Failure(IoError)
    case Readable(b) => DescriptorOf(b.reading)
  }

  /** The document has an `info` element carrying the three attributes
      `parseInfo` dereferences without a null check. */
  predicate InfoComplete(doc: Document) {
    doc.info.Some? && "organisation" in doc.info.value && "module" in doc.info.value
    && "revision" in doc.info.value
  }

  /** Parsing fails exactly when the bytes are not XML (an XPath error), the
      `info` element or one of its three required attributes is missing, or a
      `dependency` element lacks `org`, `name` or `rev` (null dereferences). */
  lemma ParseFailsExactly(x: XmlReading)
    ensures DescriptorOf(x).Failure? <==>
              x.Malformed? || !InfoComplete(x.doc)
              || exists i :: 0 <= i < |x.doc.dependencyNodes| && !HasRequiredAttributes(x.doc.dependencyNodes[i])
    ensures DescriptorOf(x).Failure? ==> (DescriptorOf(x).error == XPathError <==> x.Malformed?)
    ensures DescriptorOf(x).Failure? ==> DescriptorOf(x).error in {XPathError, NullPointer}
  {
    if x.WellFormed? {
      DependenciesOfCharacterized(x.doc.dependencyNodes);
    }
  }

  /** A parsed descriptor carries the `info` attributes verbatim (an empty
      value included); `branch` and `status` take their defaults only when the
      attribute is absent. */
  lemma ParseKeepsInfoAttributes(x: XmlReading)
    requires DescriptorOf(x).Success?
    ensures x.WellFormed? && InfoComplete(x.doc)
    ensures var a := x.doc.info.value;
            var d := DescriptorOf(x).value;
            && d.organisation == a["organisation"]
            && d.moduleName == a["module"]
            && d.revision == a["revision"]
            && d.branch == (if "branch" in a then a["branch"] else DefaultBranch)
            && d.status == (if "status" in a then a["status"] else DefaultStatus)
  {
  }

  /** A parsed descriptor declares one dependency per `dependency` element, in
      document order. */
  lemma ParseKeepsDependencyOrder(x: XmlReading)
    requires DescriptorOf(x).Success?
    ensures x.WellFormed?
    ensures var nodes := x.doc.dependencyNodes;
            var deps := DescriptorOf(x).value.dependencies;
            |deps| == |nodes| &&
            forall i :: 0 <= i < |nodes| ==> Success(deps[i]) == DependencyOf(nodes[i])
  {
    DependenciesOfCharacterized(x.doc.dependencyNodes);
    assert [] + DependenciesOf(x.doc.dependencyNodes).value == DependenciesOf(x.doc.dependencyNodes).value;
  }

  // ---------------------------------------------------------------------
  // Matching

  /** `matchesRevision`, on the candidate `d`: a revision containing `latest`
      accepts any constraint (even a null one); otherwise the constraint is
      compiled as a regular expression that must match the whole revision. */
  function MatchesRevision(d: IvyDescriptor, dep: IvyDependency): (r: Result<bool, Fault>)
    ensures Contains(d.revision, "latest") ==> r == Success(true)
    ensures !Contains(d.revision, "latest") && r.Success? ==>
              dep.rev.Some? && Compile(dep.rev.value).Success?
              && (r.value <==> Generates(Compile(dep.rev.value).value, d.revision))
    ensures !Contains(d.revision, "latest") && dep.rev.None? ==> r == Failure(NullPointer)
    ensures !Contains(d.revision, "latest") && dep.rev.Some? ==>
              && (Compile(dep.rev.value).Failure? ==> r == Failure(Compile(dep.rev.value).error))
              && (Compile(dep.rev.value).Success? ==> r.Success?)
  {
    if Contains(d.revision, "latest") then Success(true)
    else
      match dep.rev
      case None => Failure(NullPointer)
      case Some(constraint) =>
        match Compile(constraint)
        case Failure(e) => Failure(e)
        case Success(re) =>
          MatchesIffGenerates(re, d.revision);
          Success(Matches(re, d.revision))
  }

  /** The declaration names the candidate's organisation, module and branch
      (`x.equals(null)` is false, so a null field never matches). */
  predicate IdentityMatches(dep: IvyDependency, d: IvyDescriptor)
    ensures IdentityMatches(dep, d) ==> dep.organisation.Some? && dep.name.Some? && dep.branch.Some?
  {
    dep.organisation == Some(d.organisation) && dep.name == Some(d.moduleName)
    && dep.branch == Some(d.branch)
  }

  /** The loop of `dependsOn` over the declarations: it returns true at the
      first declaration that accepts `d`, and propagates the exception of the
      first revision check that throws. */
  function DependsOnAny(deps: seq<IvyDependency>, d: IvyDescriptor): (r: Result<bool, Fault>)
    ensures r == Success(true) ==>
              exists i :: 0 <= i < |deps| && IdentityMatches(deps[i], d)
                && MatchesRevision(d, deps[i]) == Success(true)
                && forall j :: 0 <= j < i && IdentityMatches(deps[j], d) ==> MatchesRevision(d, deps[j]) == Success(false)
    ensures r == Success(false) ==>
              forall i :: 0 <= i < |deps| && IdentityMatches(deps[i], d) ==> MatchesRevision(d, deps[i]) == Success(false)
    ensures r.Failure? ==>
              exists i :: 0 <= i < |deps| && IdentityMatches(deps[i], d)
                && MatchesRevision(d, deps[i]) == Failure(r.error)
                && forall j :: 0 <= j < i && IdentityMatches(deps[j], d) ==> MatchesRevision(d, deps[j]) == Success(false)
  {
    if deps == [] then Success(false)
    else if IdentityMatches(deps[0], d) then
      match MatchesRevision(d, deps[0])
      case Failure(e) => Failure(e)
      case Success(true) => Success(true)
      case Success(false) => DependsOnAny(deps[1..], d)
    else DependsOnAny(deps[1..], d)
  }

  /** `self.dependsOn(candidate)`: false for a null candidate. */
  function DependsOn(self: IvyDescriptor, candidate: Option<IvyDescriptor>): (r: Result<bool, Fault>)
    ensures candidate.None? ==> r == Success(false)
  {
    match candidate
    case None => Success(false)
    case Some(d) => DependsOnAny(self.dependencies, d)
  }

  /** No exception escapes the declaration loop when no revision check on a
      declaration naming `d` throws. */
  lemma {:induction false} DependsOnAnySucceeds(deps: seq<IvyDependency>, d: IvyDescriptor)
    requires forall i :: 0 <= i < |deps| && IdentityMatches(deps[i], d) ==> MatchesRevision(d, deps[i]).Success?
    ensures DependsOnAny(deps, d).Success?
  {
    if deps != [] {
      assert forall i :: 1 <= i < |deps| ==> deps[i] == deps[1..][i - 1];
      DependsOnAnySucceeds(deps[1..], d);
    }
  }

  /** When no revision check on a declaration naming `d` throws, `dependsOn`
      is the existential over the declarations. */
  lemma DependsOnIsExistential(self: IvyDescriptor, d: IvyDescriptor)
    requires forall i :: 0 <= i < |self.dependencies| && IdentityMatches(self.dependencies[i], d)
               ==> MatchesRevision(d, self.dependencies[i]).Success?
    ensures DependsOn(self, Some(d)) ==
              Success(exists i :: 0 <= i < |self.dependencies| && IdentityMatches(self.dependencies[i], d)
                        && MatchesRevision(d, self.dependencies[i]) == Success(true))
  {
    var deps := self.dependencies;
    DependsOnAnySucceeds(deps, d);
    var r := DependsOnAny(deps, d);
    if r.value {
      assert r == Success(true);
      assert exists i :: 0 <= i < |deps| && IdentityMatches(deps[i], d)
               && MatchesRevision(d, deps[i]) == Success(true);
    } else {
      assert r == Success(false);
      forall i | 0 <= i < |deps| && IdentityMatches(deps[i], d)
        ensures MatchesRevision(d, deps[i]) != Success(true)
      {
        assert MatchesRevision(d, deps[i]) == Success(false);
      }
    }
  }

  /** A candidate whose revision contains `latest` is depended on exactly
      when some declaration names its organisation, module and branch. */
  lemma LatestDependsOnIdentityAlone(self: IvyDescriptor, d: IvyDescriptor)
    requires Contains(d.revision, "latest")
    ensures DependsOn(self, Some(d)) ==
              Success(exists i :: 0 <= i < |self.dependencies| && IdentityMatches(self.dependencies[i], d))
  {
    DependsOnIsExistential(self, d);
  }

  /** Matching reads only the candidate's organisation, module name, branch
      and revision: its status and its own declarations play no part. */
  lemma {:induction false} DependsOnAnyReadsIdentity(deps: seq<IvyDependency>, d: IvyDescriptor, d': IvyDescriptor)
    requires d.organisation == d'.organisation && d.moduleName == d'.moduleName
    requires d.branch == d'.branch && d.revision == d'.revision
    ensures DependsOnAny(deps, d) == DependsOnAny(deps, d')
  {
    if deps != [] {
      DependsOnAnyReadsIdentity(deps[1..], d, d');
    }
  }

  // ---------------------------------------------------------------------
  // Equality and hash code

  /** `equals`: the five identity fields, compared in the source's order. */
  predicate Equals(a: IvyDescriptor, b: IvyDescriptor)
    ensures Equals(a, b) <==> a.(dependencies := b.dependencies) == b
  {
    a.branch == b.branch && a.moduleName == b.moduleName && a.organisation == b.organisation
    && a.revision == b.revision && a.status == b.status
  }

  /** `equals` is an equivalence relation. */
  lemma EqualsIsEquivalence(a: IvyDescriptor, b: IvyDescriptor, c: IvyDescriptor)
    ensures Equals(a, a)
    ensures Equals(a, b) ==> Equals(b, a)
    ensures Equals(a, b) && Equals(b, c) ==> Equals(a, c)
  {
  }

  /** Java's 32-bit two's-complement wrap-around. */
  function Wrap32(x: int): (r: int)
    ensures -0x8000_0000 <= r < 0x8000_0000
    ensures (r - x) % 0x1_0000_0000 == 0
  {
    (x + 0x8000_0000) % 0x1_0000_0000 - 0x8000_0000
  }

  /** `String.hashCode`: h = 31 * h + c over the characters, in `int`. */
  function StringHash(s: string): (h: int)
    ensures -0x8000_0000 <= h < 0x8000_0000
  {
    if s == [] then 0 else Wrap32(31 * StringHash(s[..|s| - 1]) + s[|s| - 1] as int)
  }

  /** `hashCode`: folds the five identity fields' hashes. */
  function HashCode(d: IvyDescriptor): (h: int)
    ensures -0x8000_0000 <= h < 0x8000_0000
  {
    var h0 := StringHash(d.organisation);
    var h1 := Wrap32(31 * h0 + StringHash(d.moduleName));
    var h2 := Wrap32(31 * h1 + StringHash(d.branch));
    var h3 := Wrap32(31 * h2 + StringHash(d.revision));
    Wrap32(31 * h3 + StringHash(d.status))
  }

  /** Equal descriptors have equal hash codes. */
  lemma EqualsImpliesEqualHash(a: IvyDescriptor, b: IvyDescriptor)
    requires Equals(a, b)
    ensures HashCode(a) == HashCode(b)
  {
  }

  // ---------------------------------------------------------------------
  // The unit tests' scenarios

  function Library(): IvyDescriptor {
    Empty().(branch := "trunk", moduleName := "MyLibrary", organisation := "MyOrg", revision := "1.0.4.2332")
  }

  function App(libraryConstraint: string): IvyDescriptor {
    Empty().(moduleName := "App", organisation := "MyOrg", branch := "stable",
             dependencies := [Create("MyOrg", "AnotherLib", "1.+", "stable"),
                              Create("MyOrg", "MyLibrary", libraryConstraint, "trunk")])
  }

  lemma LibraryRevisionMatches(prefix: char)
    requires prefix in "01"
    ensures !Contains(Library().revision, "latest")
    ensures MatchesRevision(Library(), Create("MyOrg", "MyLibrary", [prefix] + ".+", "trunk"))
            == Success(prefix == '1')
  {
    var rev := Library().revision;
    NotContainsWithoutFirstChar(rev, "latest");
    LiteralDotPlus([prefix], rev);
    assert rev[..1] == ['1'];
  }

  /** `1.+` accepts revision `1.0.4.2332`, so the app depends on the library. */
  lemma SimplePositiveDependency()
    ensures DependsOn(App("1.+"), Some(Library())) == Success(true)
  {
    LibraryRevisionMatches('1');
    assert ['1'] + ".+" == "1.+";
    var deps := App("1.+").dependencies;
    assert !IdentityMatches(deps[0], Library());
    assert deps[1..][0] == deps[1];
  }

  /** `0.+` rejects revision `1.0.4.2332`, so the app does not depend on it. */
  lemma SimpleNegativeDependency()
    ensures DependsOn(App("0.+"), Some(Library())) == Success(false)
  {
    LibraryRevisionMatches('0');
    assert ['0'] + ".+" == "0.+";
    var deps := App("0.+").dependencies;
    assert !IdentityMatches(deps[0], Library());
    assert deps[1..][0] == deps[1];
    assert deps[1..][1..] == [];
  }

  /** The parsing test's document: an explicit branch, no status, and two
      dependency elements that carry their own branch. */
  lemma SampleDescriptorParses()
    ensures var info := map["organisation" := "PayTrue", "module" := "AcquirerMerchantRepository",
                            "revision" := "1.0", "branch" := "ProcesadoraRegional_E1"];
            var abc := map["org" := "PayTrue", "name" := "AcquirerBusinessConfiguration",
                           "rev" := "1.+", "branch" := "ProcesadoraRegional_E1"];
            var events := map["org" := "PayTrue", "name" := "Events",
                              "rev" := "1.+", "branch" := "ProcesadoraRegional_E1"];
            DescriptorOf(WellFormed(Document(Some(info), [abc, events])))
            == Success(IvyDescriptor("PayTrue", "AcquirerMerchantRepository", "ProcesadoraRegional_E1",
                                     "1.0", DefaultStatus,
                                     [Create("PayTrue", "AcquirerBusinessConfiguration", "1.+", "ProcesadoraRegional_E1"),
                                      Create("PayTrue", "Events", "1.+", "ProcesadoraRegional_E1")]))
  {
    var abc := map["org" := "PayTrue", "name" := "AcquirerBusinessConfiguration",
                   "rev" := "1.+", "branch" := "ProcesadoraRegional_E1"];
    var events := map["org" := "PayTrue", "name" := "Events",
                      "rev" := "1.+", "branch" := "ProcesadoraRegional_E1"];
    var info := map["organisation" := "PayTrue", "module" := "AcquirerMerchantRepository",
                    "revision" := "1.0", "branch" := "ProcesadoraRegional_E1"];
    var nodes := [abc, events];
    var a := Create("PayTrue", "AcquirerBusinessConfiguration", "1.+", "ProcesadoraRegional_E1");
    var e := Create("PayTrue", "Events", "1.+", "ProcesadoraRegional_E1");
    assert "status" !in info;
    assert nodes[1..] == [events];
    assert [events][1..] == [];
    assert [e] + [] == [e];
    assert DependencyOf(abc) == Success(a);
    assert DependencyOf(events) == Success(e);
    assert DependenciesOf([events]) == Success([e]);
    assert nodes[0] == abc;
    assert [a] + [e] == [a, e];
    assert DependenciesOf(nodes) == Success([a, e]);
    var doc := Document(Some(info), nodes);
    var identity := IvyDescriptor("PayTrue", "AcquirerMerchantRepository", "ProcesadoraRegional_E1",
                                  "1.0", DefaultStatus, []);
    assert InfoOf(doc) == Success(identity);
    assert [] + [a, e] == [a, e];
  }
}
