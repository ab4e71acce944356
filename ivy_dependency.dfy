/** `IvyDependency`: one `<dependency>` declaration of an Ivy descriptor, a
    plain holder of four public string fields that may each be null. */
module Dependencies {
  import opened Wrappers

  /** Each field is `None` when the Java field holds null. `rev` is the
      revision constraint, read as a regular expression when matching. */
  datatype IvyDependency = IvyDependency(
    organisation: Option<string>,
    name: Option<string>,
    rev: Option<string>,
    branch: Option<string>)

  /** `new IvyDependency()`: every field left null. */
  function Unset(): (d: IvyDependency)
    ensures d.organisation.None? && d.name.None? && d.rev.None? && d.branch.None?
  {
    IvyDependency(None, None, None, None)
  }

  /** `new IvyDependency(organisation, name, rev, branch)`. */
  function Create(organisation: string, name: string, rev: string, branch: string): (d: IvyDependency)
    ensures d.organisation == Some(organisation) && d.name == Some(name)
    ensures d.rev == Some(rev) && d.branch == Some(branch)
  {
    IvyDependency(Some(organisation), Some(name), Some(rev), Some(branch))
  }

  /** The record applies no defaults: the four-argument constructor is
      injective, so distinct arguments (an empty branch included) give
      distinct records. */
  lemma CreateKeepsArguments(o: string, n: string, r: string, b: string,
                             o': string, n': string, r': string, b': string)
    ensures Create(o, n, r, b) == Create(o', n', r', b') <==> o == o' && n == n' && r == r' && b == b'
  {
  }
}
