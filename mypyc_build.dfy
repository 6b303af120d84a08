/**
 * How mypyc's build driver (mypyc/build.py) chooses what to compile and
 * how: the sources kept for compilation, whether a shared library is
 * needed, the partition of the sources into compilation groups and the
 * groups' names, and the translation of optimisation and debug levels for
 * the MSVC compiler.
 */
module MypycBuild {
  import opened Wrappers
  import opened Seqs
  import opened Strings
  import opened EmitModule

  // ---------------------------------------------------------------------------
  // Sources to compile

  /** Kept under `only_compile_paths`: a source whose path is one of them. */
  predicate OnlyCompileKeeps(src: BuildSource, paths: set<string>) {
    src.path.Some? && src.path.value in paths
  }

  /** Kept in separate mode: a source with a (non-empty) path that is not a package's `__init__.py`. */
  predicate SeparateKeeps(src: BuildSource) {
    src.path.Some? && src.path.value != "" && !EndsWith(src.path.value, "__init__.py")
  }

  /** Whether `get_mypy_config` keeps a source for compilation. */
  predicate Keeps(src: BuildSource, onlyPaths: Option<set<string>>, separate: bool) {
    (onlyPaths.Some? ==> OnlyCompileKeeps(src, onlyPaths.value)) && (separate ==> SeparateKeeps(src))
  }

  /**
   * The mypyc sources of `get_mypy_config`: all sources, or those whose path
   * was asked for; in separate mode, without the path-less ones and the
   * `__init__.py` files. Order is kept.
   */
  function FilterSources(sources: seq<BuildSource>, onlyPaths: Option<set<string>>, separate: bool): (r: seq<BuildSource>)
    ensures |r| <= |sources|
    decreases |sources|
  {
    if sources == [] then []
    else if Keeps(sources[0], onlyPaths, separate) then [sources[0]] + FilterSources(sources[1..], onlyPaths, separate)
    else FilterSources(sources[1..], onlyPaths, separate)
  }

  /** A source is compiled exactly when it is one of the sources and is kept. */
  lemma {:induction false} FilterSourcesMember(sources: seq<BuildSource>, onlyPaths: Option<set<string>>, separate: bool, s: BuildSource)
    ensures s in FilterSources(sources, onlyPaths, separate) <==> s in sources && Keeps(s, onlyPaths, separate)
    decreases |sources|
  {
    if sources != [] {
      FilterSourcesMember(sources[1..], onlyPaths, separate, s);
      assert s in sources <==> s == sources[0] || s in sources[1..];
    }
  }

  /** Filtering keeps the sources' order: it distributes over concatenation. */
  lemma {:induction false} FilterSourcesConcat(a: seq<BuildSource>, b: seq<BuildSource>, onlyPaths: Option<set<string>>, separate: bool)
    ensures FilterSources(a + b, onlyPaths, separate) == FilterSources(a, onlyPaths, separate) + FilterSources(b, onlyPaths, separate)
    decreases |a|
  {
    if a == [] {
      assert a + b == b;
    } else {
      assert (a + b)[0] == a[0] && (a + b)[1..] == a[1..] + b;
      FilterSourcesConcat(a[1..], b, onlyPaths, separate);
    }
  }

  // ---------------------------------------------------------------------------
  // Shared library and group names

  function AnyDotted(sources: seq<BuildSource>): (r: bool)
    ensures r <==> exists i :: 0 <= i < |sources| && '.' in sources[i].moduleId
    decreases |sources|
  {
    if sources == [] then false
    else '.' in sources[0].moduleId || AnyDotted(sources[1..])
  }

  /** A shared library serves several modules, a module inside a package, or a build that asks for one. */
  function UseSharedLib(sources: seq<BuildSource>, alwaysUseSharedLib: bool): (r: bool)
    ensures r <==> |sources| > 1 || (exists i :: 0 <= i < |sources| && '.' in sources[i].moduleId) || alwaysUseSharedLib
  {
    |sources| > 1 || AnyDotted(sources) || alwaysUseSharedLib
  }

  /** The first `n` characters, as `s[:n]`. */
  function Take(s: string, n: nat): (r: string)
    ensures |r| == if |s| < n then |s| else n
    ensures StartsWith(s, r)
  {
    s[..if |s| < n then |s| else n]
  }

  /**
   * `group_name`: a single module names its group; otherwise the first 20
   * hex digits of the SHA-1 digest of the comma-joined names, which
   * `hexDigest` stands for.
   */
  function GroupName(modules: seq<string>, hexDigest: string -> string): (r: string)
    ensures |modules| == 1 ==> r == modules[0]
    ensures |modules| != 1 ==> r == Take(hexDigest(Join(",", modules)), 20)
  {
    if |modules| == 1 then modules[0]
    else Take(hexDigest(Join(",", modules)), 20)
  }

  // ---------------------------------------------------------------------------
  // Compilation groups

  /** The `separate` argument: `True`, an explicit list of (files, name) groups, or `False`. */
  datatype Separate =
    | SeparateEach
    | SeparateListed(listed: seq<(seq<string>, Option<string>)>)
    | SeparateNone

  /** One unnamed group for each source, in order. */
  function Singletons(sources: seq<BuildSource>): (r: seq<Group>)
    ensures |r| == |sources| && forall i :: 0 <= i < |r| ==> r[i] == ([sources[i]], None)
  {
    seq(|sources|, i requires 0 <= i < |sources| => ([sources[i]], None))
  }

  /** The sources whose path is among `files`, in order. */
  function InFiles(sources: seq<BuildSource>, files: seq<string>): (r: seq<BuildSource>)
    ensures |r| <= |sources|
    decreases |sources|
  {
    if sources == [] then []
    else if InFilesOf(sources[0], files) then [sources[0]] + InFiles(sources[1..], files)
    else InFiles(sources[1..], files)
  }

  predicate InFilesOf(src: BuildSource, files: seq<string>) {
    src.path.Some? && src.path.value in files
  }

  /** A source is in a listed group exactly when its path is among the group's files. */
  lemma {:induction false} InFilesMember(sources: seq<BuildSource>, files: seq<string>, s: BuildSource)
    ensures s in InFiles(sources, files) <==> s in sources && InFilesOf(s, files)
    decreases |sources|
  {
    if sources != [] {
      InFilesMember(sources[1..], files, s);
      assert s in sources <==> s == sources[0] || s in sources[1..];
    }
  }

  /** The groups of an explicit list: each with the sources in its files and its given name. */
  function ListedGroups(sources: seq<BuildSource>, listed: seq<(seq<string>, Option<string>)>): (r: seq<Group>)
    ensures |r| == |listed|
    ensures forall k :: 0 <= k < |r| ==> r[k] == (InFiles(sources, listed[k].0), listed[k].1)
  {
    seq(|listed|, k requires 0 <= k < |listed| => (InFiles(sources, listed[k].0), listed[k].1))
  }

  /** The sources placed by some listed group. */
  function UsedSources(sources: seq<BuildSource>, listed: seq<(seq<string>, Option<string>)>): set<BuildSource>
    decreases |listed|
  {
    if listed == [] then {}
    else UsedSources(sources, listed[..|listed| - 1]) + Elems(InFiles(sources, listed[|listed| - 1].0))
  }

  /** The sources outside `used`, in order. */
  function Unused(sources: seq<BuildSource>, used: set<BuildSource>): (r: seq<BuildSource>)
    ensures |r| <= |sources|
    decreases |sources|
  {
    if sources == [] then []
    else if sources[0] !in used then [sources[0]] + Unused(sources[1..], used)
    else Unused(sources[1..], used)
  }

  /** A source gets a group of its own exactly when no listed group took it. */
  lemma {:induction false} UnusedMember(sources: seq<BuildSource>, used: set<BuildSource>, s: BuildSource)
    ensures s in Unused(sources, used) <==> s in sources && s !in used
    decreases |sources|
  {
    if sources != [] {
      UnusedMember(sources[1..], used, s);
      assert s in sources <==> s == sources[0] || s in sources[1..];
    }
  }

  /** The groups before naming. */
  function InitialGroups(sources: seq<BuildSource>, separate: Separate): seq<Group> {
    match separate
    case SeparateEach => Singletons(sources)
    case SeparateListed(listed) =>
      ListedGroups(sources, listed) + Singletons(Unused(sources, UsedSources(sources, listed)))
    case SeparateNone => [(sources, None)]
  }

  /**
   * A group's final name: with a shared library, a group without a
   * (non-empty) name takes the override, or else its `group_name`; other
   * groups keep theirs.
   */
  function NameGroup(g: Group, useSharedLib: bool, nameOverride: Option<string>, hexDigest: string -> string): (r: Group)
    ensures r.0 == g.0
    ensures !(useSharedLib && (g.1.None? || g.1.value == "")) ==> r.1 == g.1
    ensures useSharedLib && (g.1.None? || g.1.value == "") ==>
              r.1 == Some(if nameOverride.Some? then nameOverride.value else GroupName(Modules(g.0), hexDigest))
  {
    if useSharedLib && (g.1.None? || g.1.value == "") then
      (g.0, Some(if nameOverride.Some? then nameOverride.value else GroupName(Modules(g.0), hexDigest)))
    else g
  }

  /** The groups `construct_groups` returns. */
  function Groups(sources: seq<BuildSource>, separate: Separate, useSharedLib: bool, nameOverride: Option<string>,
                  hexDigest: string -> string): (r: seq<Group>)
    ensures |r| == |InitialGroups(sources, separate)|
    ensures forall i :: 0 <= i < |r| ==> r[i] == NameGroup(InitialGroups(sources, separate)[i], useSharedLib, nameOverride, hexDigest)
  {
    var init := InitialGroups(sources, separate);
    seq(|init|, i requires 0 <= i < |init| => NameGroup(init[i], useSharedLib, nameOverride, hexDigest))
  }

  /**
   * `construct_groups`: build the groups for the `separate` setting, then
   * give each unnamed group a name when a shared library is used.
   */
  method ConstructGroups(sources: seq<BuildSource>, separate: Separate, useSharedLib: bool, nameOverride: Option<string>,
                         hexDigest: string -> string)
    returns (groups: seq<Group>)
    ensures groups == Groups(sources, separate, useSharedLib, nameOverride, hexDigest)
  {
    if separate.SeparateEach? {
      groups := Singletons(sources);
    } else if separate.SeparateListed? {
      var listed := separate.listed;
      groups := [];
      var used: set<BuildSource> := {};
      var k := 0;
      while k < |listed|
        invariant 0 <= k <= |listed|
        invariant groups == ListedGroups(sources, listed[..k]) && used == UsedSources(sources, listed[..k])
      {
        TakeTake(listed, k + 1, k);
        var (files, name) := listed[k];
        var groupSources := InFiles(sources, files);
        groups := groups + [(groupSources, name)];
        used := used + Elems(groupSources);
        k := k + 1;
      }
      TakeAll(listed);
      var unused := Unused(sources, used);
      if unused != [] {
        groups := groups + Singletons(unused);
      } else {
        assert Singletons(unused) == [];
        assert groups + [] == groups;
      }
    } else {
      groups := [(sources, None)];
    }
    ghost var initial := groups;
    assert initial == InitialGroups(sources, separate);
    var i := 0;
    while i < |groups|
      invariant 0 <= i <= |groups| == |initial|
      invariant forall j :: 0 <= j < i ==> groups[j] == NameGroup(initial[j], useSharedLib, nameOverride, hexDigest)
      invariant forall j :: i <= j < |groups| ==> groups[j] == initial[j]
    {
      var (group, name) := groups[i];
      if useSharedLib && (name.None? || name.value == "") {
        if nameOverride.Some? {
          name := nameOverride;
        } else {
          name := Some(GroupName(Modules(group), hexDigest));
        }
      }
      groups := groups[i := (group, name)];
      i := i + 1;
    }
  }

  /** Naming changes no group's sources. */
  lemma GroupsSources(sources: seq<BuildSource>, separate: Separate, useSharedLib: bool, nameOverride: Option<string>,
                      hexDigest: string -> string, i: nat)
    requires i < |InitialGroups(sources, separate)|
    ensures Groups(sources, separate, useSharedLib, nameOverride, hexDigest)[i].0 == InitialGroups(sources, separate)[i].0
  {
  }

  /** With `separate=True`: one group per source, in source order. */
  lemma GroupsEach(sources: seq<BuildSource>, useSharedLib: bool, nameOverride: Option<string>, hexDigest: string -> string, i: nat)
    requires i < |sources|
    ensures |Groups(sources, SeparateEach, useSharedLib, nameOverride, hexDigest)| == |sources|
    ensures Groups(sources, SeparateEach, useSharedLib, nameOverride, hexDigest)[i].0 == [sources[i]]
  {
    GroupsSources(sources, SeparateEach, useSharedLib, nameOverride, hexDigest, i);
  }

  /** With `separate=False`: exactly one group, holding every source. */
  lemma GroupsNone(sources: seq<BuildSource>, useSharedLib: bool, nameOverride: Option<string>, hexDigest: string -> string)
    ensures |Groups(sources, SeparateNone, useSharedLib, nameOverride, hexDigest)| == 1
    ensures Groups(sources, SeparateNone, useSharedLib, nameOverride, hexDigest)[0].0 == sources
  {
    GroupsSources(sources, SeparateNone, useSharedLib, nameOverride, hexDigest, 0);
  }

  /** With an explicit list, group `k` of the first `|listed|` holds the sources in the files listed `k`-th. */
  lemma GroupsListed(sources: seq<BuildSource>, listed: seq<(seq<string>, Option<string>)>, useSharedLib: bool,
                     nameOverride: Option<string>, hexDigest: string -> string, k: nat)
    requires k < |listed|
    ensures Groups(sources, SeparateListed(listed), useSharedLib, nameOverride, hexDigest)[k].0 == InFiles(sources, listed[k].0)
  {
    GroupsSources(sources, SeparateListed(listed), useSharedLib, nameOverride, hexDigest, k);
  }

  /** After the listed groups comes one group for each source no listed group took, in source order. */
  lemma GroupsUnused(sources: seq<BuildSource>, listed: seq<(seq<string>, Option<string>)>, useSharedLib: bool,
                     nameOverride: Option<string>, hexDigest: string -> string, u: nat)
    requires u < |Unused(sources, UsedSources(sources, listed))|
    ensures |Groups(sources, SeparateListed(listed), useSharedLib, nameOverride, hexDigest)|
            == |listed| + |Unused(sources, UsedSources(sources, listed))|
    ensures Groups(sources, SeparateListed(listed), useSharedLib, nameOverride, hexDigest)[|listed| + u].0
            == [Unused(sources, UsedSources(sources, listed))[u]]
  {
    var unused := Unused(sources, UsedSources(sources, listed));
    var init := InitialGroups(sources, SeparateListed(listed));
    assert init == ListedGroups(sources, listed) + Singletons(unused);
    assert init[|listed| + u] == Singletons(unused)[u];
    GroupsSources(sources, SeparateListed(listed), useSharedLib, nameOverride, hexDigest, |listed| + u);
  }

  /** With a shared library every group ends up named; without one the names stay as given. */
  lemma GroupsNamed(sources: seq<BuildSource>, separate: Separate, useSharedLib: bool, nameOverride: Option<string>,
                    hexDigest: string -> string, i: nat)
    requires i < |InitialGroups(sources, separate)|
    ensures useSharedLib ==> Groups(sources, separate, useSharedLib, nameOverride, hexDigest)[i].1.Some?
    ensures !useSharedLib ==> Groups(sources, separate, useSharedLib, nameOverride, hexDigest)[i].1 == InitialGroups(sources, separate)[i].1
  {
  }

  /** The sources placed by listed groups are those in some listed group's files. */
  lemma {:induction false} UsedSourcesMember(sources: seq<BuildSource>, listed: seq<(seq<string>, Option<string>)>, s: BuildSource)
    ensures s in UsedSources(sources, listed) <==>
              s in sources && exists k :: 0 <= k < |listed| && InFilesOf(s, listed[k].0)
    decreases |listed|
  {
    if listed != [] {
      var init := listed[..|listed| - 1];
      UsedSourcesMember(sources, init, s);
      InFilesMember(sources, listed[|listed| - 1].0, s);
      assert forall k :: 0 <= k < |init| ==> init[k] == listed[k];
    }
  }

  /** However `separate` is set, every source lands in some group. */
  lemma GroupsCover(sources: seq<BuildSource>, separate: Separate, useSharedLib: bool, nameOverride: Option<string>,
                    hexDigest: string -> string, s: BuildSource)
    requires s in sources
    ensures exists i :: 0 <= i < |Groups(sources, separate, useSharedLib, nameOverride, hexDigest)|
                        && s in Groups(sources, separate, useSharedLib, nameOverride, hexDigest)[i].0
  {
    var gs := Groups(sources, separate, useSharedLib, nameOverride, hexDigest);
    var j :| 0 <= j < |sources| && sources[j] == s;
    match separate
    case SeparateEach =>
      GroupsEach(sources, useSharedLib, nameOverride, hexDigest, j);
      assert s in gs[j].0;
    case SeparateNone =>
      GroupsNone(sources, useSharedLib, nameOverride, hexDigest);
      assert s in gs[0].0;
    case SeparateListed(listed) =>
      var used := UsedSources(sources, listed);
      UsedSourcesMember(sources, listed, s);
      if s in used {
        var k :| 0 <= k < |listed| && InFilesOf(s, listed[k].0);
        GroupsListed(sources, listed, useSharedLib, nameOverride, hexDigest, k);
        InFilesMember(sources, listed[k].0, s);
        assert s in gs[k].0;
      } else {
        var unused := Unused(sources, used);
        UnusedMember(sources, used, s);
        var u :| 0 <= u < |unused| && unused[u] == s;
        GroupsUnused(sources, listed, useSharedLib, nameOverride, hexDigest, u);
        assert s in gs[|listed| + u].0;
      }
  }

  // ---------------------------------------------------------------------------
  // MSVC levels

  /** MSVC has no optimisation levels: `0` disables optimisation, `1` to `3` mean full. */
  function MsvcOptLevel(opt: string): (r: string)
    ensures opt == "0" ==> r == "d"
    ensures opt == "1" || opt == "2" || opt == "3" ==> r == "2"
    ensures opt != "0" && opt != "1" && opt != "2" && opt != "3" ==> r == opt
  {
    if opt == "0" then "d"
    else if opt == "1" || opt == "2" || opt == "3" then "2"
    else opt
  }

  /** Debug levels: `0` none, `1` fast linking, `2` and `3` full. */
  function MsvcDebugLevel(debug: string): (r: string)
    ensures debug == "0" ==> r == "NONE"
    ensures debug == "1" ==> r == "FASTLINK"
    ensures debug == "2" || debug == "3" ==> r == "FULL"
    ensures debug != "0" && debug != "1" && debug != "2" && debug != "3" ==> r == debug
  {
    if debug == "0" then "NONE"
    else if debug == "1" then "FASTLINK"
    else if debug == "2" || debug == "3" then "FULL"
    else debug
  }

  /** The MSVC compile flags: optimisation and debug level, suppressed warnings, and the multi-file and tracing extras. */
  function MsvcCflags(optLevel: string, debugLevel: string, multiFile: bool, logTrace: bool): (r: seq<string>)
    ensures |r| == 5 + (if multiFile then 2 else 0) + (if logTrace then 1 else 0)
    ensures r[0] == "/O" + MsvcOptLevel(optLevel) && r[1] == "/DEBUG:" + MsvcDebugLevel(debugLevel)
    ensures "/GL-" in r <==> multiFile
    ensures "/DMYPYC_LOG_TRACE" in r <==> logTrace
  {
    var base := ["/O" + MsvcOptLevel(optLevel), "/DEBUG:" + MsvcDebugLevel(debugLevel), "/wd4102", "/wd4101", "/wd4146"];
    var multi := if multiFile then base + ["/GL-", "/wd9025"] else base;
    assert "/GL-" != base[0] by { assert "/GL-"[1] != base[0][1]; }
    assert "/GL-" != base[1] by { assert "/GL-"[1] != base[1][1]; }
    assert "/DMYPYC_LOG_TRACE" != base[0] by { assert "/DMYPYC_LOG_TRACE"[1] != base[0][1]; }
    assert "/DMYPYC_LOG_TRACE" != base[1] by { assert "/DMYPYC_LOG_TRACE"[2] != base[1][2]; }
    if logTrace then multi + ["/DMYPYC_LOG_TRACE"] else multi
  }
}
