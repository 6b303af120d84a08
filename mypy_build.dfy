/**
 * The dependency bookkeeping of mypy's build manager (mypy/build.py):
 * import priorities, the resolution of relative imports, the list of
 * (priority, module, line) entries a file's imports produce, a module's
 * ancestors, the paired list/set structures holding a module's dependencies
 * and suppressed dependencies, the priority filter on dependency edges, the
 * statistics counters, and the names of a module's cache files.
 */
module MypyBuild {
  import opened Wrappers
  import opened Seqs
  import opened Strings

  // ---------------------------------------------------------------------------
  // Import priorities (lower numbers are higher priorities)

  const PRI_HIGH: int := 5
  const PRI_MED: int := 10
  const PRI_LOW: int := 20
  const PRI_MYPY: int := 25
  const PRI_INDIRECT: int := 30
  const PRI_ALL: int := 99

  /** Where an import statement sits. */
  datatype ImportPlace = ImportPlace(isTopLevel: bool, isMypyOnly: bool)

  /**
   * `import_priority`: an import inside a function gets `PRI_LOW`; one under
   * `if MYPY`/`if TYPE_CHECKING` is never more urgent than `PRI_MYPY`; any
   * other import gets the priority its form was given.
   */
  function ImportPriority(imp: ImportPlace, toplevelPriority: int): (r: int)
    ensures !imp.isTopLevel ==> r == PRI_LOW
    ensures imp.isTopLevel && imp.isMypyOnly ==>
              r >= PRI_MYPY && r >= toplevelPriority && (r == PRI_MYPY || r == toplevelPriority)
    ensures imp.isTopLevel && !imp.isMypyOnly ==> r == toplevelPriority
  {
    if !imp.isTopLevel then PRI_LOW
    else if imp.isMypyOnly then (if PRI_MYPY >= toplevelPriority then PRI_MYPY else toplevelPriority)
    else toplevelPriority
  }

  /** A lower (more urgent) priority for the form never gives a less urgent import priority. */
  lemma ImportPriorityMonotone(imp: ImportPlace, p: int, q: int)
    requires p <= q
    ensures ImportPriority(imp, p) <= ImportPriority(imp, q)
  {
  }

  // ---------------------------------------------------------------------------
  // Dotted names

  /** The components of a dotted module id. */
  function Components(id: string): seq<string> {
    Split(id, '.')
  }

  /** `parts[:-k]`, which is empty once `k` reaches the length. */
  function DropLast(parts: seq<string>, k: nat): (r: seq<string>)
    ensures |r| == if k < |parts| then |parts| - k else 0
    ensures r == parts[..|r|]
  {
    parts[..if k < |parts| then |parts| - k else 0]
  }

  /**
   * The proper dotted prefixes of the components, longest first:
   * `a.b.c` has `a.b` and `a`.
   */
  function Prefixes(parts: seq<string>): (r: seq<string>)
    ensures |r| == if |parts| <= 1 then 0 else |parts| - 1
    ensures forall k :: 0 <= k < |r| ==> r[k] == Join(".", parts[..|parts| - 1 - k])
    decreases |parts|
  {
    if |parts| <= 1 then []
    else
      var init := parts[..|parts| - 1];
      var rest := Prefixes(init);
      forall k | 0 <= k < |rest|
        ensures rest[k] == Join(".", parts[..|parts| - 1 - (k + 1)])
      {
        assert init[..|init| - 1 - k] == parts[..|parts| - 1 - (k + 1)];
      }
      [Join(".", init)] + rest
  }

  // ---------------------------------------------------------------------------
  // Relative imports

  /** The last `/`-separated part of a path, as `os.path.split(path)[1]`. */
  function BaseName(path: string): (r: string)
    ensures '/' !in r
    decreases |path|
  {
    if path == [] then ""
    else if path[|path| - 1] == '/' then ""
    else BaseName(path[..|path| - 1]) + [path[|path| - 1]]
  }

  /** A file that defines a package: its base name starts with `__init__.`. */
  predicate IsInitFile(path: string) {
    StartsWith(BaseName(path), "__init__.")
  }

  /** A relative import resolved against the importing module, and whether there was no parent to resolve it in. */
  datatype RelImport = RelImport(id: string, noParent: bool)

  /**
   * `correct_rel_imp`: an absolute import names its own module; an import of
   * level `r` drops `r` trailing components of the importing module (one
   * fewer in an `__init__` file) and appends the imported name when it has one.
   */
  function CorrectRelImp(fileId: string, isInitFile: bool, relative: nat, impId: string): (r: RelImport)
    ensures r.noParent <==> relative != 0 && r.id == ""
    ensures relative == 0 ==> r.id == impId
  {
    if relative == 0 then RelImport(impId, false)
    else
      var rel := if isInitFile then relative - 1 else relative;
      var base := if rel != 0 then Join(".", DropLast(Components(fileId), rel)) else fileId;
      var newId := if impId != "" then base + "." + impId else base;
      RelImport(newId, newId == "")
  }

  /**
   * Resolving an import of level `r` from a plain module lands in its
   * `r`-th ancestor, the same one `add_ancestors` lists at position `r - 1`,
   * with the imported name appended when there is one.
   */
  lemma RelImpIsAncestor(fileId: string, relative: nat, impId: string)
    requires 1 <= relative < |Components(fileId)|
    ensures var anc := Prefixes(Components(fileId))[relative - 1];
            CorrectRelImp(fileId, false, relative, impId).id == if impId != "" then anc + "." + impId else anc
  {
  }

  /** In an `__init__` file a level-one import resolves inside the package itself. */
  lemma RelImpInPackage(fileId: string, impId: string)
    ensures CorrectRelImp(fileId, true, 1, impId).id == if impId != "" then fileId + "." + impId else fileId
  {
  }

  /** Climbing past the top package with nothing to import reports the missing parent. */
  lemma RelImpNoParent(fileId: string, relative: nat)
    requires relative >= |Components(fileId)|
    ensures CorrectRelImp(fileId, false, relative, "").noParent
  {
  }

  // ---------------------------------------------------------------------------
  // Ancestors

  /** The index of the last `c` in `s`. */
  function LastIndex(s: string, c: char): (r: Option<nat>)
    ensures r.Some? <==> c in s
    ensures r.Some? ==> r.value < |s| && s[r.value] == c && c !in s[r.value + 1..]
    decreases |s|
  {
    if s == [] then None
    else if s[|s| - 1] == c then Some(|s| - 1)
    else
      var r := LastIndex(s[..|s| - 1], c);
      assert r.Some? ==> s[r.value + 1..] == s[..|s| - 1][r.value + 1..] + [s[|s| - 1]];
      r
  }

  /** `s.rsplit(c, 1)[0]`: everything before the last `c`. */
  function RSplitHead(s: string, c: char): string
    requires c in s
  {
    s[..LastIndex(s, c).value]
  }

  /**
   * The file-name stem, as `os.path.splitext(name)[0]`: the part before the
   * last dot, unless only dots precede it (a leading dot starts no extension).
   */
  function Stem(name: string): string {
    match LastIndex(name, '.')
    case None => name
    case Some(i) => if forall k :: 0 <= k < i ==> name[k] == '.' then name else name[..i]
  }

  /** Cutting a joined name at its last dot drops the last component. */
  lemma RSplitSnoc(init: seq<string>, last: string, c: char)
    requires init != [] && c !in last
    ensures c in Join([c], init + [last])
    ensures RSplitHead(Join([c], init + [last]), c) == Join([c], init)
  {
    JoinSnoc([c], init, last);
    LastIndexBefore(Join([c], init), c, last);
  }

  /** The last `c` of `a + [c] + b` is the one before `b` when `b` has none. */
  lemma {:induction false} LastIndexBefore(a: string, c: char, b: string)
    requires c !in b
    ensures LastIndex(a + [c] + b, c) == Some(|a|)
    decreases |b|
  {
    var s := a + [c] + b;
    if b != [] {
      assert s[..|s| - 1] == a + [c] + b[..|b| - 1];
      LastIndexBefore(a, c, b[..|b| - 1]);
    }
  }

  /** A name joined from the first `m` dot-free components has a dot exactly when `m` is at least two. */
  lemma DotIffSeveral(parts: seq<string>, m: nat)
    requires 1 <= m <= |parts| && forall k :: 0 <= k < |parts| ==> '.' !in parts[k]
    ensures '.' in Join(".", parts[..m]) <==> m >= 2
  {
    if m >= 2 {
      TakeSnoc(parts, m - 1);
      RSplitSnoc(parts[..m - 1], parts[m - 1], '.');
    } else {
      assert parts[..m] == [parts[0]];
    }
  }

  /** One cut at the last dot gives the next ancestor and one fewer component. */
  lemma AncestorStep(parts: seq<string>, m: nat)
    requires 2 <= m <= |parts| && '.' !in parts[m - 1]
    ensures RSplitHead(Join(".", parts[..m]), '.') == Join(".", parts[..m - 1])
  {
    TakeSnoc(parts, m - 1);
    RSplitSnoc(parts[..m - 1], parts[m - 1], '.');
  }

  /**
   * The loop of `add_ancestors`: cut the id at its last dot while it has
   * one, collecting each cut.
   */
  method Ancestors(id: string) returns (anc: seq<string>)
    ensures anc == Prefixes(Components(id))
  {
    var parts := Components(id);
    var n := |parts|;
    SplitParts(id, '.');
    JoinSplit(id, '.');
    assert parts[..n] == parts;
    anc := [];
    var parent := id;
    var m := n;
    DotIffSeveral(parts, m);
    while '.' in parent
      invariant 1 <= m <= n && parent == Join(".", parts[..m])
      invariant |anc| == n - m && forall j :: 0 <= j < n - m ==> anc[j] == Join(".", parts[..n - 1 - j])
      invariant '.' in parent <==> m >= 2
      decreases m
    {
      AncestorStep(parts, m);
      parent := RSplitHead(parent, '.');
      anc := anc + [parent];
      m := m - 1;
      DotIffSeveral(parts, m);
    }
    assert |anc| == |Prefixes(parts)|;
  }

  // ---------------------------------------------------------------------------
  // The dependency lists

  /**
   * What `add_dependency` does to the two lists: `dep` joins the end of the
   * dependencies unless it is there already, and leaves the suppressed ones.
   */
  function AddDep(deps: seq<string>, supp: seq<string>, dep: string): (r: (seq<string>, seq<string>))
    ensures Elems(r.0) == Elems(deps) + {dep} && |deps| <= |r.0| <= |deps| + 1 && r.0[..|deps|] == deps
    ensures NoDups(deps) ==> NoDups(r.0)
    ensures NoDups(supp) ==> NoDups(r.1) && Elems(r.1) == Elems(supp) - {dep}
    ensures dep !in supp ==> r.1 == supp
  {
    var d := if dep in deps then deps else deps + [dep];
    ElemsSnoc(deps, dep);
    if dep in supp then
      RemoveFirstNoDupsIf(supp, dep);
      (d, RemoveFirst(supp, dep))
    else (d, supp)
  }

  /**
   * What `suppress_dependency` does: `dep` leaves the dependencies and joins
   * the end of the suppressed ones unless it is there already.
   */
  function SuppressDep(deps: seq<string>, supp: seq<string>, dep: string): (r: (seq<string>, seq<string>))
    ensures Elems(r.1) == Elems(supp) + {dep} && |supp| <= |r.1| <= |supp| + 1 && r.1[..|supp|] == supp
    ensures NoDups(supp) ==> NoDups(r.1)
    ensures NoDups(deps) ==> NoDups(r.0) && Elems(r.0) == Elems(deps) - {dep}
    ensures dep !in deps ==> r.0 == deps
  {
    var s := if dep in supp then supp else supp + [dep];
    ElemsSnoc(supp, dep);
    if dep in deps then
      RemoveFirstNoDupsIf(deps, dep);
      (RemoveFirst(deps, dep), s)
    else (deps, s)
  }

  /** `RemoveFirstNoDups` for callers that do not know the list is duplicate-free. */
  lemma RemoveFirstNoDupsIf(s: seq<string>, x: string)
    requires x in s
    ensures NoDups(s) ==> NoDups(RemoveFirst(s, x)) && Elems(RemoveFirst(s, x)) == Elems(s) - {x}
  {
    if NoDups(s) {
      RemoveFirstNoDups(s, x);
    }
  }

  // ---------------------------------------------------------------------------
  // compute_dependencies, entry by entry

  function Min(a: int, b: int): int {
    if a <= b then a else b
  }

  /** The priority map after the entries: each id's priority is lowered to the entry's, starting from `PRI_ALL`. */
  function Priorities(entries: seq<DepEntry>): map<string, int>
    decreases |entries|
  {
    if entries == [] then map[]
    else
      var p := Priorities(entries[..|entries| - 1]);
      var e := entries[|entries| - 1];
      p[e.id := Min(e.pri, if e.id in p then p[e.id] else PRI_ALL)]
  }

  /** The dependencies the entries add, one `add_dependency` per entry that is not the module itself. */
  function DepIds(entries: seq<DepEntry>, selfId: string): seq<string>
    decreases |entries|
  {
    if entries == [] then []
    else
      var d := DepIds(entries[..|entries| - 1], selfId);
      var e := entries[|entries| - 1];
      if e.id == selfId then d else AddDep(d, [], e.id).0
  }

  /** The line of each dependency: the line of the first entry that named it. */
  function DepLines(entries: seq<DepEntry>, selfId: string): map<string, int>
    decreases |entries|
  {
    if entries == [] then map[]
    else
      var m := DepLines(entries[..|entries| - 1], selfId);
      var e := entries[|entries| - 1];
      if e.id == selfId || e.id in m then m else m[e.id := e.line]
  }

  /** The dependencies `compute_dependencies` leaves: those of the entries, then `builtins` for every other module. */
  function ComputedDeps(entries: seq<DepEntry>, selfId: string): seq<string> {
    var d := DepIds(entries, selfId);
    if selfId != "builtins" then AddDep(d, [], "builtins").0 else d
  }

  /** The ids the entries name, other than `selfId`. */
  function EntryIds(entries: seq<DepEntry>, selfId: string): set<string> {
    set k | 0 <= k < |entries| && entries[k].id != selfId :: entries[k].id
  }

  /** Entry `k` is the first to name its module. */
  predicate FirstMention(entries: seq<DepEntry>, k: nat)
    requires k < |entries|
  {
    forall j :: 0 <= j < k ==> entries[j].id != entries[k].id
  }

  /**
   * Each named id gets the least priority of its entries, and never more
   * than `PRI_ALL`; ids no entry names get none.
   */
  lemma {:induction false} PrioritiesMin(entries: seq<DepEntry>)
    ensures forall id :: id in Priorities(entries) <==> exists k :: 0 <= k < |entries| && entries[k].id == id
    ensures forall k :: 0 <= k < |entries| ==> Priorities(entries)[entries[k].id] <= Min(entries[k].pri, PRI_ALL)
    ensures forall id :: id in Priorities(entries) ==>
              Priorities(entries)[id] == PRI_ALL
              || exists k :: 0 <= k < |entries| && entries[k].id == id && entries[k].pri == Priorities(entries)[id]
    decreases |entries|
  {
    if entries != [] {
      var init := entries[..|entries| - 1];
      PrioritiesMin(init);
      assert forall k :: 0 <= k < |init| ==> init[k] == entries[k];
    }
  }

  /** The dependencies hold no duplicates and are exactly the ids the entries name other than the module itself. */
  lemma {:induction false} DepIdsProps(entries: seq<DepEntry>, selfId: string)
    ensures NoDups(DepIds(entries, selfId)) && Elems(DepIds(entries, selfId)) == EntryIds(entries, selfId)
    decreases |entries|
  {
    if entries != [] {
      var n := |entries| - 1;
      var init := entries[..n];
      DepIdsProps(init, selfId);
      assert forall k :: 0 <= k < n ==> init[k] == entries[k];
      assert EntryIds(entries, selfId) == EntryIds(init, selfId) + (if entries[n].id != selfId then {entries[n].id} else {});
    }
  }

  /** The dependencies the entries name are exactly those with a line. */
  lemma {:induction false} DepLinesKeys(entries: seq<DepEntry>, selfId: string)
    ensures DepLines(entries, selfId).Keys == EntryIds(entries, selfId)
    decreases |entries|
  {
    if entries != [] {
      var n := |entries| - 1;
      var init := entries[..n];
      DepLinesKeys(init, selfId);
      assert forall k :: 0 <= k < n ==> init[k] == entries[k];
      assert EntryIds(entries, selfId) == EntryIds(init, selfId) + (if entries[n].id != selfId then {entries[n].id} else {});
    }
  }

  /** A dependency's line is the line of the first entry naming it. */
  lemma {:induction false} DepLineFirst(entries: seq<DepEntry>, selfId: string, k: nat)
    requires k < |entries| && entries[k].id != selfId && FirstMention(entries, k)
    ensures entries[k].id in DepLines(entries, selfId) && DepLines(entries, selfId)[entries[k].id] == entries[k].line
    decreases |entries|
  {
    var n := |entries| - 1;
    var init := entries[..n];
    if k < n {
      assert FirstMention(init, k);
      DepLineFirst(init, selfId, k);
    } else {
      DepLinesKeys(init, selfId);
      assert forall j :: 0 <= j < n ==> init[j] == entries[j];
      assert entries[k].id !in EntryIds(init, selfId);
    }
  }

  /**
   * After `compute_dependencies` a module never depends on itself, depends
   * on `builtins` unless it is `builtins`, and depends on every other module
   * its entries name, each once.
   */
  lemma ComputedDepsProps(entries: seq<DepEntry>, selfId: string)
    ensures NoDups(ComputedDeps(entries, selfId))
    ensures selfId !in ComputedDeps(entries, selfId)
    ensures "builtins" in ComputedDeps(entries, selfId) <==> selfId != "builtins"
    ensures Elems(ComputedDeps(entries, selfId))
         == EntryIds(entries, selfId) + (if selfId != "builtins" then {"builtins"} else {})
  {
    DepIdsProps(entries, selfId);
    assert selfId !in EntryIds(entries, selfId);
  }

  /** `m.get(key, default)`. */
  function Lookup(m: map<string, int>, key: string, default: int): int {
    if key in m then m[key] else default
  }

  /** Each module's recorded priority, `PRI_HIGH` when there is none. */
  function PrioritiesOf(priorities: map<string, int>, mods: seq<string>): (r: seq<int>)
    ensures |r| == |mods|
  {
    seq(|mods|, k requires 0 <= k < |mods| => Lookup(priorities, mods[k], PRI_HIGH))
  }

  /**
   * After `compute_dependencies` every dependency the entries name has the
   * least priority among its entries (at most `PRI_ALL`), and `builtins`,
   * when only implied, has `PRI_HIGH`.
   */
  lemma ComputedPriorities(entries: seq<DepEntry>, selfId: string, k: nat)
    requires k < |ComputedDeps(entries, selfId)|
    ensures var dep := ComputedDeps(entries, selfId)[k];
            var p := PrioritiesOf(Priorities(entries), ComputedDeps(entries, selfId))[k];
            (dep in EntryIds(entries, selfId) ==>
               p <= PRI_ALL && (forall j :: 0 <= j < |entries| && entries[j].id == dep ==> p <= entries[j].pri)
               && (p == PRI_ALL || exists j :: 0 <= j < |entries| && entries[j].id == dep && entries[j].pri == p))
            && (dep !in EntryIds(entries, selfId) ==> dep == "builtins" && p == PRI_HIGH)
  {
    var deps := ComputedDeps(entries, selfId);
    ComputedDepsProps(entries, selfId);
    PrioritiesMin(entries);
    assert deps[k] in Elems(deps);
  }

  // ---------------------------------------------------------------------------
  // The per-module state

  /** What `compute_dependencies` reads from one import entry: (priority, module id, line). */
  datatype DepEntry = DepEntry(pri: int, id: string, line: int)

  /**
   * A module's `State`: its id and path, its ancestors, and its dependencies
   * and suppressed dependencies, each kept as an ordered list with a set
   * beside it, together with each dependency's priority and first line.
   */
  class State {
    const id: string
    const path: Option<string>
    var ancestors: seq<string>
    var dependencies: seq<string>
    var dependenciesSet: set<string>
    var suppressed: seq<string>
    var suppressedSet: set<string>
    var priorities: map<string, int>
    var depLineMap: map<string, int>

    constructor (id: string, path: Option<string>)
      ensures this.id == id && this.path == path
      ensures ancestors == [] && dependencies == [] && suppressed == [] && priorities == map[] && depLineMap == map[]
      ensures Valid()
    {
      this.id := id;
      this.path := path;
      ancestors := [];
      dependencies := [];
      dependenciesSet := {};
      suppressed := [];
      suppressedSet := {};
      priorities := map[];
      depLineMap := map[];
    }

    /**
     * Each list matches its set and holds no duplicates, and no module is
     * both a dependency and a suppressed one.
     */
    ghost predicate Valid()
      reads this
    {
      dependenciesSet == Elems(dependencies) && NoDups(dependencies)
      && suppressedSet == Elems(suppressed) && NoDups(suppressed)
      && dependenciesSet !! suppressedSet
    }

    /**
     * `add_ancestors`: every parent package of the id, longest first, except
     * for a file whose stem itself has a dot, which gets none.
     */
    method AddAncestors()
      modifies this
      ensures ancestors == if path.Some? && '.' in Stem(BaseName(path.value)) then []
                           else Prefixes(Components(id))
      ensures dependencies == old(dependencies) && dependenciesSet == old(dependenciesSet)
      ensures suppressed == old(suppressed) && suppressedSet == old(suppressedSet)
      ensures priorities == old(priorities) && depLineMap == old(depLineMap)
    {
      if path.Some? {
        var base := Stem(BaseName(path.value));
        if '.' in base {
          ancestors := [];
          return;
        }
      }
      ancestors := Ancestors(id);
    }

    /** `add_dependency`: makes `dep` a dependency and no longer a suppressed one. */
    method AddDependency(dep: string)
      requires Valid()
      modifies this
      ensures Valid()
      ensures (dependencies, suppressed) == AddDep(old(dependencies), old(suppressed), dep)
      ensures ancestors == old(ancestors) && priorities == old(priorities) && depLineMap == old(depLineMap)
    {
      ghost var r := AddDep(dependencies, suppressed, dep);
      if dep !in dependenciesSet {
        NoDupsSnoc(dependencies, dep);
        dependencies := dependencies + [dep];
        dependenciesSet := dependenciesSet + {dep};
      }
      if dep in suppressedSet {
        suppressed := RemoveFirst(suppressed, dep);
        suppressedSet := suppressedSet - {dep};
      }
    }

    /** `suppress_dependency`: makes `dep` a suppressed dependency and no longer a dependency. */
    method SuppressDependency(dep: string)
      requires Valid()
      modifies this
      ensures Valid()
      ensures (dependencies, suppressed) == SuppressDep(old(dependencies), old(suppressed), dep)
      ensures ancestors == old(ancestors) && priorities == old(priorities) && depLineMap == old(depLineMap)
    {
      ghost var r := SuppressDep(dependencies, suppressed, dep);
      if dep in dependenciesSet {
        dependencies := RemoveFirst(dependencies, dep);
        dependenciesSet := dependenciesSet - {dep};
      }
      if dep !in suppressedSet {
        NoDupsSnoc(suppressed, dep);
        suppressed := suppressed + [dep];
        suppressedSet := suppressedSet + {dep};
      }
    }

    /**
     * `compute_dependencies`, given the entries of the file's imports and
     * the plugin's extra ones: all six collections start empty, each entry
     * lowers its id's priority, and every entry other than the module itself
     * becomes a dependency, recording its first line; `builtins` comes last.
     */
    method ComputeDependencies(entries: seq<DepEntry>)
      modifies this
      ensures Valid()
      ensures dependencies == ComputedDeps(entries, id) && suppressed == []
      ensures priorities == Priorities(entries) && depLineMap == DepLines(entries, id)
      ensures ancestors == old(ancestors)
    {
      dependencies := [];
      dependenciesSet := {};
      suppressed := [];
      suppressedSet := {};
      priorities := map[];
      depLineMap := map[];
      var i := 0;
      while i < |entries|
        invariant 0 <= i <= |entries|
        invariant Valid() && suppressed == []
        invariant dependencies == DepIds(entries[..i], id)
        invariant priorities == Priorities(entries[..i]) && depLineMap == DepLines(entries[..i], id)
        invariant ancestors == old(ancestors)
      {
        var e := entries[i];
        assert entries[..i + 1][..i] == entries[..i];
        priorities := priorities[e.id := Min(e.pri, if e.id in priorities then priorities[e.id] else PRI_ALL)];
        if e.id != id {
          AddDependency(e.id);
          if e.id !in depLineMap {
            depLineMap := depLineMap[e.id := e.line];
          }
        }
        i := i + 1;
      }
      assert entries[..i] == entries;
      if id != "builtins" {
        AddDependency("builtins");
      }
    }

    /** `dependency_priorities`: the priority of each dependency, then of each suppressed one, `PRI_HIGH` when unrecorded. */
    function DependencyPriorities(): (r: seq<int>)
      reads this
      ensures |r| == |dependencies| + |suppressed|
    {
      PrioritiesOf(priorities, dependencies + suppressed)
    }
  }

  // ---------------------------------------------------------------------------
  // Cache file names

  /** The meta, data and (with fine-grained caching) deps file names of a module's cache. */
  datatype CacheNames = CacheNames(meta: string, data: string, deps: Option<string>)

  /**
   * `get_cache_names`: an entry of the cache map wins (given here already
   * made relative to the cache directory, with no deps file); otherwise the
   * module's components form a directory path, a package adds `__init__`,
   * and the three suffixes are appended.
   */
  function GetCacheNames(id: string, path: string, mapped: Option<(string, string)>, fineGrained: bool): (r: CacheNames)
    ensures mapped.Some? ==> r == CacheNames(mapped.value.0, mapped.value.1, None)
    ensures mapped.None? ==> r.meta == CachePrefix(id, path) + ".meta.json"
                             && r.data == CachePrefix(id, path) + ".data.json"
                             && (r.deps.Some? <==> fineGrained)
                             && (fineGrained ==> r.deps == Some(CachePrefix(id, path) + ".deps.json"))
  {
    if mapped.Some? then CacheNames(mapped.value.0, mapped.value.1, None)
    else
      var prefix := CachePrefix(id, path);
      CacheNames(prefix + ".meta.json", prefix + ".data.json", if fineGrained then Some(prefix + ".deps.json") else None)
  }

  /** `os.path.join(*id.split("."))`, then `__init__` for a package. */
  function CachePrefix(id: string, path: string): string {
    var prefix := Join("/", Components(id));
    if StartsWith(BaseName(path), "__init__.py") then prefix + "/" + "__init__" else prefix
  }

  /** A cache prefix has no dot: the module's dots became directory separators. */
  lemma CachePrefixNoDot(id: string, path: string)
    ensures '.' !in CachePrefix(id, path)
  {
    SplitParts(id, '.');
    JoinNoChar(Components(id), '.');
  }

  /** Joining with `/` parts free of `c` gives a string free of `c`, when `c` is not `/`. */
  lemma {:induction false} JoinNoChar(parts: seq<string>, c: char)
    requires c != '/' && forall k :: 0 <= k < |parts| ==> c !in parts[k]
    ensures c !in Join("/", parts)
    decreases |parts|
  {
    if |parts| > 1 {
      JoinNoChar(parts[1..], c);
    }
  }

  // ---------------------------------------------------------------------------
  // Filtering dependency edges

  /** The dependencies inside `vertices` whose priority (default `PRI_HIGH`) is below `priMax`, in order. */
  function FilterDeps(deps: seq<string>, vertices: set<string>, priorities: map<string, int>, priMax: int): (r: seq<string>)
    ensures forall d :: d in r <==> d in deps && d in vertices && Lookup(priorities, d, PRI_HIGH) < priMax
    ensures |r| <= |deps|
    decreases |deps|
  {
    if deps == [] then []
    else
      var rest := FilterDeps(deps[1..], vertices, priorities, priMax);
      assert forall d :: d in deps <==> d == deps[0] || d in deps[1..];
      if deps[0] in vertices && Lookup(priorities, deps[0], PRI_HIGH) < priMax then [deps[0]] + rest else rest
  }

  /** Filtering keeps the order: it distributes over concatenation. */
  lemma {:induction false} FilterDepsConcat(a: seq<string>, b: seq<string>, vertices: set<string>, priorities: map<string, int>, priMax: int)
    ensures FilterDeps(a + b, vertices, priorities, priMax)
         == FilterDeps(a, vertices, priorities, priMax) + FilterDeps(b, vertices, priorities, priMax)
    decreases |a|
  {
    if a == [] {
      assert a + b == b;
    } else {
      assert (a + b)[1..] == a[1..] + b;
      FilterDepsConcat(a[1..], b, vertices, priorities, priMax);
    }
  }

  /** `deps_filtered`: nothing for an id outside `vertices`, else its filtered dependencies. */
  function DepsFiltered(graph: map<string, State>, vertices: set<string>, id: string, priMax: int): (r: seq<string>)
    requires id in vertices ==> id in graph
    reads graph.Values
    ensures id !in vertices ==> r == []
    ensures id in vertices ==>
              forall d :: d in r <==> d in graph[id].dependencies && d in vertices
                                      && Lookup(graph[id].priorities, d, PRI_HIGH) < priMax
  {
    if id !in vertices then []
    else FilterDeps(graph[id].dependencies, vertices, graph[id].priorities, priMax)
  }

  // ---------------------------------------------------------------------------
  // Statistics

  /** The counters after adding each keyword's value: summed into an existing key, inserted otherwise. */
  function StatsAdded(stats: map<string, int>, kwds: seq<(string, int)>): map<string, int>
    decreases |kwds|
  {
    if kwds == [] then stats
    else
      var m := StatsAdded(stats, kwds[..|kwds| - 1]);
      var (key, value) := kwds[|kwds| - 1];
      m[key := if key in m then m[key] + value else value]
  }

  /** Keyword arguments have distinct names. */
  predicate DistinctKeys(kwds: seq<(string, int)>) {
    forall i, j :: 0 <= i < j < |kwds| ==> kwds[i].0 != kwds[j].0
  }

  /**
   * Each named counter grows by its value from its old value (0 when
   * absent); every other counter is unchanged and no other key appears.
   */
  lemma {:induction false} StatsAddedSpec(stats: map<string, int>, kwds: seq<(string, int)>)
    requires DistinctKeys(kwds)
    ensures forall key :: key in StatsAdded(stats, kwds) <==> key in stats || exists j :: 0 <= j < |kwds| && kwds[j].0 == key
    ensures forall key :: key in stats && (forall j :: 0 <= j < |kwds| ==> kwds[j].0 != key) ==>
              StatsAdded(stats, kwds)[key] == stats[key]
    ensures forall j :: 0 <= j < |kwds| ==>
              StatsAdded(stats, kwds)[kwds[j].0] == Lookup(stats, kwds[j].0, 0) + kwds[j].1
    decreases |kwds|
  {
    if kwds != [] {
      var init := kwds[..|kwds| - 1];
      assert forall j :: 0 <= j < |init| ==> init[j] == kwds[j];
      StatsAddedSpec(stats, init);
    }
  }

  /** The build manager's statistics counters. */
  class BuildManager {
    var stats: map<string, int>

    constructor ()
      ensures stats == map[]
    {
      stats := map[];
    }

    /** `add_stats`: adds each keyword's value to its counter. */
    method AddStats(kwds: seq<(string, int)>)
      requires DistinctKeys(kwds)
      modifies this
      ensures stats == StatsAdded(old(stats), kwds)
    {
      var i := 0;
      while i < |kwds|
        invariant 0 <= i <= |kwds|
        invariant stats == StatsAdded(old(stats), kwds[..i])
      {
        assert kwds[..i + 1][..i] == kwds[..i];
        var (key, value) := kwds[i];
        if key in stats {
          stats := stats[key := stats[key] + value];
        } else {
          stats := stats[key := value];
        }
        i := i + 1;
      }
      assert kwds[..i] == kwds;
    }
  }

  // ---------------------------------------------------------------------------
  // The entries of a file's imports

  /** The three import statements: `import a.b, c`, `from m import x, y`, `from m import *`. */
  datatype ImportKind =
    | ImportIds(ids: seq<string>)
    | ImportFrom(fromId: string, relative: nat, names: seq<string>)
    | ImportAll(fromId: string, relative: nat)

  datatype ImportStmt = ImportStmt(kind: ImportKind, place: ImportPlace, line: int, isUnreachable: bool)

  /** What the entries need of a parsed file: its module name, its path and its imports. */
  datatype FileInfo = FileInfo(fullname: string, path: string, imports: seq<ImportStmt>)

  /** One entry for each dotted prefix of `parts`, shortest first. */
  function AncestorEntries(parts: seq<string>, pri: int, line: int): (r: seq<DepEntry>)
    ensures |r| == |parts|
    ensures forall k :: 0 <= k < |r| ==> r[k] == DepEntry(pri, Join(".", parts[..k + 1]), line)
    decreases |parts|
  {
    if parts == [] then []
    else
      var init := parts[..|parts| - 1];
      var rest := AncestorEntries(init, pri, line);
      forall k | 0 <= k < |rest|
        ensures rest[k] == DepEntry(pri, Join(".", parts[..k + 1]), line)
      {
        assert init[..k + 1] == parts[..k + 1];
      }
      assert parts[..|parts|] == parts;
      rest + [DepEntry(pri, Join(".", parts), line)]
  }

  /**
   * The ancestor entries of an imported module name the same packages
   * `add_ancestors` computes for it, in the opposite order.
   */
  lemma ImportedAncestors(id: string, pri: int, line: int, k: nat)
    requires k < |Components(id)| - 1
    ensures AncestorEntries(DropLast(Components(id), 1), pri, line)[k].id
         == Prefixes(Components(id))[|Components(id)| - 2 - k]
  {
    var parts := Components(id);
    assert DropLast(parts, 1)[..k + 1] == parts[..k + 1];
  }

  /** `import a.b, c`: each module at `pri`, followed by its ancestors at `ancestorPri`. */
  function IdsEntries(ids: seq<string>, pri: int, ancestorPri: int, line: int): seq<DepEntry>
    decreases |ids|
  {
    if ids == [] then []
    else [DepEntry(pri, ids[0], line)] + AncestorEntries(DropLast(Components(ids[0]), 1), ancestorPri, line)
         + IdsEntries(ids[1..], pri, ancestorPri, line)
  }

  /** `from cur import names`: the names that are modules themselves, at `pri`. */
  function SubmoduleEntries(cur: string, names: seq<string>, modules: set<string>, pri: int, line: int): seq<DepEntry>
    decreases |names|
  {
    if names == [] then []
    else
      var rest := SubmoduleEntries(cur, names[1..], modules, pri, line);
      if cur + "." + names[0] in modules then [DepEntry(pri, cur + "." + names[0], line)] + rest else rest
  }

  predicate AllSubmodules(cur: string, names: seq<string>, modules: set<string>) {
    forall k :: 0 <= k < |names| ==> cur + "." + names[k] in modules
  }

  /**
   * The entries of one reachable import; `modules` stands for the module
   * finder's answer to whether an id names a module.
   */
  function ImportEntries(file: FileInfo, imp: ImportStmt, modules: set<string>): seq<DepEntry> {
    match imp.kind
    case ImportIds(ids) =>
      IdsEntries(ids, ImportPriority(imp.place, PRI_MED), ImportPriority(imp.place, PRI_LOW), imp.line)
    case ImportFrom(fromId, relative, names) =>
      var cur := CorrectRelImp(file.fullname, IsInitFile(file.path), relative, fromId).id;
      SubmoduleEntries(cur, names, modules, ImportPriority(imp.place, PRI_MED), imp.line)
      + [DepEntry(ImportPriority(imp.place, if AllSubmodules(cur, names, modules) then PRI_LOW else PRI_HIGH), cur, imp.line)]
    case ImportAll(fromId, relative) =>
      [DepEntry(ImportPriority(imp.place, PRI_HIGH), CorrectRelImp(file.fullname, IsInitFile(file.path), relative, fromId).id, imp.line)]
  }

  /** The entries of the reachable imports among `imports`, in order. */
  function FileEntries(file: FileInfo, imports: seq<ImportStmt>, modules: set<string>): seq<DepEntry>
    decreases |imports|
  {
    if imports == [] then []
    else
      var imp := imports[|imports| - 1];
      FileEntries(file, imports[..|imports| - 1], modules)
      + (if imp.isUnreachable then [] else ImportEntries(file, imp, modules))
  }

  /** The entries of a non-empty list: those of all but the last import, then the last one's. */
  lemma FileEntriesLast(file: FileInfo, imports: seq<ImportStmt>, modules: set<string>)
    requires imports != []
    ensures var imp := imports[|imports| - 1];
            FileEntries(file, imports, modules)
            == FileEntries(file, imports[..|imports| - 1], modules) + (if imp.isUnreachable then [] else ImportEntries(file, imp, modules))
  {
  }

  lemma {:induction false} FileEntriesConcat(file: FileInfo, a: seq<ImportStmt>, b: seq<ImportStmt>, modules: set<string>)
    ensures FileEntries(file, a + b, modules) == FileEntries(file, a, modules) + FileEntries(file, b, modules)
    decreases |b|
  {
    if b == [] {
      assert a + b == a;
    } else {
      var b' := b[..|b| - 1];
      assert (a + b)[..|a + b| - 1] == a + b' && (a + b)[|a + b| - 1] == b[|b| - 1];
      FileEntriesLast(file, a + b, modules);
      FileEntriesLast(file, b, modules);
      FileEntriesConcat(file, a, b', modules);
      ConcatAssoc(FileEntries(file, a, modules), FileEntries(file, b', modules),
                  if b[|b| - 1].isUnreachable then [] else ImportEntries(file, b[|b| - 1], modules));
    }
  }

  /** One import more adds its entries, when it is reachable. */
  lemma FileEntriesSnoc(file: FileInfo, imports: seq<ImportStmt>, modules: set<string>, i: nat)
    requires i < |imports|
    ensures FileEntries(file, imports[..i + 1], modules)
         == FileEntries(file, imports[..i], modules)
            + (if imports[i].isUnreachable then [] else ImportEntries(file, imports[i], modules))
  {
    TakeTake(imports, i + 1, i);
  }

  /**
   * Import `i` contributes its own entries, in place, between those of the
   * imports before it and those after it; an unreachable one contributes none.
   */
  lemma FileEntriesAt(file: FileInfo, imports: seq<ImportStmt>, modules: set<string>, i: nat)
    requires i < |imports|
    ensures FileEntries(file, imports, modules)
         == FileEntries(file, imports[..i], modules)
            + (if imports[i].isUnreachable then [] else ImportEntries(file, imports[i], modules))
            + FileEntries(file, imports[i + 1..], modules)
  {
    assert imports == (imports[..i] + [imports[i]]) + imports[i + 1..];
    FileEntriesConcat(file, imports[..i] + [imports[i]], imports[i + 1..], modules);
    FileEntriesConcat(file, imports[..i], [imports[i]], modules);
    assert FileEntries(file, [imports[i]], modules)
        == if imports[i].isUnreachable then [] else ImportEntries(file, imports[i], modules) by {
      assert [imports[i]][..0] == [];
    }
  }

  /** A `from` import always depends on the module it imports from, even when every name is a submodule. */
  lemma FromImportDependsOnModule(file: FileInfo, imp: ImportStmt, modules: set<string>)
    requires imp.kind.ImportFrom?
    ensures var cur := CorrectRelImp(file.fullname, IsInitFile(file.path), imp.kind.relative, imp.kind.fromId).id;
            exists e :: e in ImportEntries(file, imp, modules) && e.id == cur && e.line == imp.line
  {
    var cur := CorrectRelImp(file.fullname, IsInitFile(file.path), imp.kind.relative, imp.kind.fromId).id;
    var es := ImportEntries(file, imp, modules);
    assert es[|es| - 1].id == cur;
  }

  // ---------------------------------------------------------------------------
  // Ordering the entries

  /** The number of dots in an entry's module id. */
  function Dots(e: DepEntry): nat {
    CountChar(e.id, '.')
  }

  /** Entries with more dots come first. */
  predicate SortedByDots(s: seq<DepEntry>) {
    forall i, j :: 0 <= i < j < |s| ==> Dots(s[i]) >= Dots(s[j])
  }

  /** Places `x` after every entry with at least as many dots. */
  function InsertByDots(t: seq<DepEntry>, x: DepEntry): (r: seq<DepEntry>)
    ensures multiset(r) == multiset(t) + multiset{x}
    decreases |t|
  {
    if t == [] || Dots(t[|t| - 1]) >= Dots(x) then t + [x]
    else
      InitLast(t);
      InsertByDots(t[..|t| - 1], x) + [t[|t| - 1]]
  }

  /** Inserting into sorted entries keeps them sorted. */
  lemma {:induction false} InsertSorted(t: seq<DepEntry>, x: DepEntry)
    requires SortedByDots(t)
    ensures SortedByDots(InsertByDots(t, x))
    decreases |t|
  {
    if t != [] && Dots(t[|t| - 1]) < Dots(x) {
      var init, last := t[..|t| - 1], t[|t| - 1];
      var u := InsertByDots(init, x);
      InsertSorted(init, x);
      forall i | 0 <= i < |u|
        ensures Dots(u[i]) >= Dots(last)
      {
        assert u[i] in multiset(u);
        if u[i] != x {
          assert u[i] in multiset(init);
          var j :| 0 <= j < |init| && init[j] == u[i];
          assert t[j] == init[j];
        }
      }
    }
  }

  /**
   * `res.sort(key=lambda x: -x[1].count("."))`, a stable sort: the entries
   * rearranged so that more dots come first.
   */
  function SortByDots(s: seq<DepEntry>): (r: seq<DepEntry>)
    ensures multiset(r) == multiset(s)
    ensures SortedByDots(r)
    decreases |s|
  {
    if s == [] then []
    else
      InitLast(s);
      InsertSorted(SortByDots(s[..|s| - 1]), s[|s| - 1]);
      InsertByDots(SortByDots(s[..|s| - 1]), s[|s| - 1])
  }

  /** The entries with exactly `d` dots, in order. */
  function WithDots(s: seq<DepEntry>, d: nat): seq<DepEntry>
    decreases |s|
  {
    if s == [] then []
    else WithDots(s[..|s| - 1], d) + (if Dots(s[|s| - 1]) == d then [s[|s| - 1]] else [])
  }

  lemma {:induction false} WithDotsConcat(a: seq<DepEntry>, b: seq<DepEntry>, d: nat)
    ensures WithDots(a + b, d) == WithDots(a, d) + WithDots(b, d)
    decreases |b|
  {
    if b == [] {
      assert a + b == a;
    } else {
      assert (a + b)[..|a + b| - 1] == a + b[..|b| - 1];
      WithDotsConcat(a, b[..|b| - 1], d);
    }
  }

  /** Inserting `x` puts it after the entries that have its dot count. */
  lemma {:induction false} InsertStable(t: seq<DepEntry>, x: DepEntry, d: nat)
    ensures WithDots(InsertByDots(t, x), d) == WithDots(t, d) + WithDots([x], d)
    decreases |t|
  {
    if t == [] || Dots(t[|t| - 1]) >= Dots(x) {
      WithDotsConcat(t, [x], d);
    } else {
      var init, last := t[..|t| - 1], t[|t| - 1];
      assert InsertByDots(t, x) == InsertByDots(init, x) + [last];
      InsertStable(init, x, d);
      WithDotsConcat(InsertByDots(init, x), [last], d);
      var a, wx, wl := WithDots(init, d), WithDots([x], d), WithDots([last], d);
      assert wx == [] || wl == [] by {
        assert wx == (if Dots(x) == d then [x] else []);
        assert wl == (if Dots(last) == d then [last] else []);
      }
      assert WithDots(t, d) == a + wl by {
        InitLast(t);
        WithDotsConcat(init, [last], d);
      }
      SwapEmpty(a, wx, wl);
    }
  }

  /** The sort is stable: entries with equal dot counts keep their order. */
  lemma {:induction false} SortStable(s: seq<DepEntry>, d: nat)
    ensures WithDots(SortByDots(s), d) == WithDots(s, d)
    decreases |s|
  {
    if s != [] {
      var init, last := s[..|s| - 1], s[|s| - 1];
      SortStable(init, d);
      InsertStable(SortByDots(init), last, d);
      InitLast(s);
      WithDotsConcat(init, [last], d);
    }
  }

  /**
   * `all_imported_modules_in_file`: the entries of each reachable import in
   * turn, then sorted so that a module comes before its ancestors.
   */
  method AllImportedModulesInFile(file: FileInfo, modules: set<string>) returns (res: seq<DepEntry>)
    ensures res == SortByDots(FileEntries(file, file.imports, modules))
  {
    res := [];
    var i := 0;
    while i < |file.imports|
      invariant 0 <= i <= |file.imports|
      invariant res == FileEntries(file, file.imports[..i], modules)
    {
      FileEntriesSnoc(file, file.imports, modules, i);
      var imp := file.imports[i];
      if !imp.isUnreachable {
        res := res + ImportEntries(file, imp, modules);
      }
      i := i + 1;
    }
    TakeAll(file.imports);
    res := SortByDots(res);
  }
}
