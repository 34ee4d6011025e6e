/** Resolving a command name against the configured search directories, as
    the started child does before executing: the name itself is tried
    first, then dir/name for each directory in order; the first that exists
    replaces the name, and if none exists the name is kept as it is. The
    file system is the existence test present, fixed for one resolution. */
module PathSearch {
  import opened Wrappers

  /** The path tried for name in directory dir. */
  function Candidate(dir: string, name: string): string {
    dir + "/" + name
  }

  /** The paths tried, in order: the name itself, then one per directory. */
  function Candidates(name: string, dirs: seq<string>): (cs: seq<string>)
    ensures |cs| == |dirs| + 1 && cs[0] == name
    ensures forall k :: 0 <= k < |dirs| ==> cs[k + 1] == Candidate(dirs[k], name)
  {
    [name] + seq(|dirs|, k requires 0 <= k < |dirs| => Candidate(dirs[k], name))
  }

  /** Index of the first path of cs that exists, if any. */
  function FirstExisting(cs: seq<string>, present: string -> bool): (r: Option<nat>)
    ensures r.Some? ==> r.value < |cs| && present(cs[r.value])
    ensures r.Some? ==> forall k :: 0 <= k < r.value ==> !present(cs[k])
    ensures r.None? ==> forall k :: 0 <= k < |cs| ==> !present(cs[k])
  {
    FirstFrom(cs, present, 0)
  }

  /** Index of the first path of cs from position i on that exists, if any. */
  function FirstFrom(cs: seq<string>, present: string -> bool, i: nat): (r: Option<nat>)
    requires i <= |cs|
    ensures r.Some? ==> i <= r.value < |cs| && present(cs[r.value])
    ensures r.Some? ==> forall k :: i <= k < r.value ==> !present(cs[k])
    ensures r.None? ==> forall k :: i <= k < |cs| ==> !present(cs[k])
    decreases |cs| - i
  {
    if i == |cs| then None
    else if present(cs[i]) then Some(i)
    else FirstFrom(cs, present, i + 1)
  }

  /** The path the search settles on: the first existing candidate, or the
      name unchanged when none exists. */
  function Resolution(name: string, dirs: seq<string>, present: string -> bool): string {
    match FirstExisting(Candidates(name, dirs), present)
    case Some(k) => Candidates(name, dirs)[k]
    case None => name
  }

  /** The search loop of the child and the swap after it: command is the
      path to execute, found whether it exists. */
  method Resolve(name: string, dirs: seq<string>, present: string -> bool)
    returns (command: string, found: bool)
    ensures found <==> FirstExisting(Candidates(name, dirs), present).Some?
    ensures command == Resolution(name, dirs, present)
    ensures found ==> present(command)
    ensures !found ==> command == name
  {
    ghost var cs := Candidates(name, dirs);
    command := name;
    var k := 0;
    while k < |dirs| && !present(command)
      invariant 0 <= k <= |dirs|
      invariant command == cs[k]
      invariant forall m :: 0 <= m < k ==> !present(cs[m])
    {
      assert cs[k + 1] == Candidate(dirs[k], name);
      command := Candidate(dirs[k], name);
      k := k + 1;
    }
    found := present(command);
    FirstExistingAt(cs, present, k);
    if !found {
      command := name;
    }
  }

  /** When the candidates before k do not exist, the search ends at k if
      cs[k] present, and otherwise (with k the last candidate) finds nothing. */
  lemma FirstExistingAt(cs: seq<string>, present: string -> bool, k: nat)
    requires k < |cs|
    requires forall m :: 0 <= m < k ==> !present(cs[m])
    requires !present(cs[k]) ==> k == |cs| - 1
    ensures present(cs[k]) ==> FirstExisting(cs, present) == Some(k)
    ensures !present(cs[k]) ==> FirstExisting(cs, present) == None
  {
  }

  /** A name that exists as given is used as it is, whatever the directories. */
  lemma ExistingNameIsKept(name: string, dirs: seq<string>, present: string -> bool)
    requires present(name)
    ensures Resolution(name, dirs, present) == name
  {
  }

  /** A name that does not exist as given resolves to dir/name for the first
      directory where that exists, and no earlier directory has it. */
  lemma FirstDirectoryWins(name: string, dirs: seq<string>, present: string -> bool, k: nat)
    requires !present(name)
    requires k < |dirs| && present(Candidate(dirs[k], name))
    requires forall m :: 0 <= m < k ==> !present(Candidate(dirs[m], name))
    ensures Resolution(name, dirs, present) == Candidate(dirs[k], name)
  {
    MissingUpTo(name, dirs, present, k);
    ResolutionAt(name, dirs, present, k + 1);
  }

  /** The search settles on candidate j when it exists and none before it does. */
  lemma ResolutionAt(name: string, dirs: seq<string>, present: string -> bool, j: nat)
    requires j < |dirs| + 1
    requires forall m :: 0 <= m < j ==> !present(Candidates(name, dirs)[m])
    requires present(Candidates(name, dirs)[j])
    ensures Resolution(name, dirs, present) == Candidates(name, dirs)[j]
  {
    FirstExistingAt(Candidates(name, dirs), present, j);
  }

  /** With no directories, or none holding the name, an unknown name is left
      as it is. */
  lemma NotFoundKeepsName(name: string, dirs: seq<string>, present: string -> bool)
    requires !present(name)
    requires forall m :: 0 <= m < |dirs| ==> !present(Candidate(dirs[m], name))
    ensures Resolution(name, dirs, present) == name
    ensures FirstExisting(Candidates(name, dirs), present).None?
  {
    MissingUpTo(name, dirs, present, |dirs|);
  }

  /** The candidates up to the name in directory k are missing when the
      name and its places in the directories before k are. */
  lemma MissingUpTo(name: string, dirs: seq<string>, present: string -> bool, k: nat)
    requires k <= |dirs|
    requires !present(name)
    requires forall m :: 0 <= m < k ==> !present(Candidate(dirs[m], name))
    ensures forall m :: 0 <= m < k + 1 ==> !present(Candidates(name, dirs)[m])
  {
    var cs := Candidates(name, dirs);
    forall m | 0 <= m < k + 1
      ensures !present(cs[m])
    {
      if m > 0 {
        assert cs[m] == Candidate(dirs[m - 1], name);
      }
    }
  }
}
