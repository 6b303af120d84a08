/**
 * The ordering and naming helpers of mypyc's module code generator
 * (mypyc/codegen/emitmodule.py): the depth-first topological sort of a
 * dependency dict and of the C header declarations, `declare_global`,
 * the pointer rewriting of a C declarator, a group's output directory,
 * the IR cache file name, the fastcall test, and the plugin that makes
 * every module of a compilation group depend on its group-mates.
 */
module EmitModule {
  import opened Wrappers
  import opened Seqs
  import opened Strings
  import MypyBuild

  // ---------------------------------------------------------------------------
  // Topological sort

  /**
   * A rank for every key that drops along each dependency edge, every
   * dependency being a key itself: a witness that the dict is closed and
   * has no cycle, which the recursion needs (on a cycle it never returns).
   */
  ghost predicate Ranked<T>(deps: map<T, seq<T>>, rank: map<T, nat>) {
    forall k :: k in deps ==> k in rank && forall c :: c in deps[k] ==> c in deps && c in rank && rank[c] < rank[k]
  }

  /** Every listed item is a key and each of its dependencies is listed before it. */
  predicate DepsFirst<T(==)>(deps: map<T, seq<T>>, result: seq<T>) {
    forall i :: 0 <= i < |result| ==> result[i] in deps && forall c :: c in deps[result[i]] ==> c in result[..i]
  }

  /** Appending an item whose dependencies are all listed keeps the dependencies first. */
  lemma DepsFirstSnoc<T>(deps: map<T, seq<T>>, result: seq<T>, item: T)
    requires DepsFirst(deps, result) && item in deps
    requires forall c :: c in deps[item] ==> c in result
    ensures DepsFirst(deps, result + [item])
  {
    var r := result + [item];
    forall i | 0 <= i < |r|
      ensures r[i] in deps && forall c :: c in deps[r[i]] ==> c in r[..i]
    {
      if i < |result| {
        assert r[..i] == result[..i];
      } else {
        assert r[..i] == result;
      }
    }
  }

  /**
   * `visit` inside `toposort`: an item not yet visited has its dependencies
   * visited first, then is appended and marked.
   */
  method Visit<T(==)>(deps: map<T, seq<T>>, ghost rank: map<T, nat>, item: T, result: seq<T>, visited: set<T>)
    returns (result': seq<T>, visited': set<T>)
    requires Ranked(deps, rank) && item in deps
    requires NoDups(result) && DepsFirst(deps, result) && visited == Elems(result)
    ensures NoDups(result') && DepsFirst(deps, result') && visited' == Elems(result')
    ensures |result| <= |result'| && result'[..|result|] == result
    ensures item in visited'
    ensures forall x :: x in result' && x !in result ==> rank[x] <= rank[item]
    decreases rank[item]
  {
    if item in visited {
      return result, visited;
    }
    result', visited' := result, visited;
    var children := deps[item];
    var i := 0;
    while i < |children|
      invariant 0 <= i <= |children|
      invariant NoDups(result') && DepsFirst(deps, result') && visited' == Elems(result')
      invariant |result| <= |result'| && result'[..|result|] == result
      invariant forall j :: 0 <= j < i ==> children[j] in visited'
      invariant forall x :: x in result' && x !in result ==> rank[x] < rank[item]
    {
      ghost var before := result';
      result', visited' := Visit(deps, rank, children[i], result', visited');
      assert result'[..|result|] == before[..|result|];
      i := i + 1;
    }
    assert item !in result';
    DepsFirstSnoc(deps, result', item);
    NoDupsSnoc(result', item);
    ElemsSnoc(result', item);
    assert (result' + [item])[..|result|] == result'[..|result|];
    result' := result' + [item];
    visited' := visited' + {item};
  }

  /**
   * `toposort`: every key exactly once, each after its dependencies, given
   * the keys in the dict's order.
   */
  method Toposort<T(==)>(keys: seq<T>, deps: map<T, seq<T>>, ghost rank: map<T, nat>) returns (result: seq<T>)
    requires Elems(keys) == deps.Keys && Ranked(deps, rank)
    ensures NoDups(result) && Elems(result) == deps.Keys && DepsFirst(deps, result)
  {
    result := [];
    var visited: set<T> := {};
    var i := 0;
    while i < |keys|
      invariant 0 <= i <= |keys|
      invariant NoDups(result) && DepsFirst(deps, result) && visited == Elems(result)
      invariant forall j :: 0 <= j < i ==> keys[j] in visited
    {
      result, visited := Visit(deps, rank, keys[i], result, visited);
      i := i + 1;
    }
    assert forall x :: x in deps.Keys ==> x in keys;
  }

  // ---------------------------------------------------------------------------
  // Header declarations

  /** A C header declaration: its text, its definition when it has one, and the declarations it needs first. */
  datatype HeaderDeclaration = HeaderDeclaration(decl: string, defn: Option<seq<string>>, dependencies: seq<string>)

  /** The dependency dict of the declarations. */
  function DepsOf(decls: map<string, HeaderDeclaration>): (r: map<string, seq<string>>)
    ensures r.Keys == decls.Keys
    ensures forall k :: k in r ==> r[k] == decls[k].dependencies
  {
    map k | k in decls :: decls[k].dependencies
  }

  /**
   * `toposort_declarations`: the declarations, each once, in an order
   * (`order`, by name) that puts every declaration after those it depends on.
   */
  method ToposortDeclarations(names: seq<string>, decls: map<string, HeaderDeclaration>, ghost rank: map<string, nat>)
    returns (result: seq<HeaderDeclaration>, ghost order: seq<string>)
    requires Elems(names) == decls.Keys && Ranked(DepsOf(decls), rank)
    ensures NoDups(order) && Elems(order) == decls.Keys && DepsFirst(DepsOf(decls), order)
    ensures |result| == |order| && forall i :: 0 <= i < |order| ==> result[i] == decls[order[i]]
  {
    var sorted := Toposort(names, DepsOf(decls), rank);
    order := sorted;
    result := [];
    var i := 0;
    while i < |sorted|
      invariant 0 <= i <= |sorted| && |result| == i
      invariant forall j :: 0 <= j < i ==> result[j] == decls[sorted[j]]
    {
      assert sorted[i] in Elems(sorted);
      result := result + [decls[sorted[i]]];
      i := i + 1;
    }
  }

  /** The index of the first `c` in `s`. */
  function FirstIndex(s: string, c: char): (r: Option<nat>)
    ensures r.Some? <==> c in s
    ensures r.Some? ==> r.value < |s| && s[r.value] == c && c !in s[..r.value]
    decreases |s|
  {
    if s == [] then None
    else if s[0] == c then Some(0)
    else
      var r := FirstIndex(s[1..], c);
      if r.None? then None
      else
        assert s[..r.value + 1] == [s[0]] + s[1..][..r.value];
        Some(r.value + 1)
  }

  /**
   * The declarator `declare_global` builds: the name after the type, or
   * just before the type's first `[` for an array type.
   */
  function GlobalBase(typeSpaced: string, name: string): (r: string)
    ensures '[' !in typeSpaced ==> r == typeSpaced + name
    ensures '[' in typeSpaced ==>
              exists i :: 0 <= i < |typeSpaced| && typeSpaced[i] == '[' && '[' !in typeSpaced[..i]
                          && r == typeSpaced[..i] + name + typeSpaced[i..]
  {
    match FirstIndex(typeSpaced, '[')
    case None => typeSpaced + name
    case Some(i) =>
      assert typeSpaced[i..] == "[" + typeSpaced[i + 1..];
      typeSpaced[..i] + name + "[" + typeSpaced[i + 1..]
  }

  /** The declaration `declare_global` records: the declarator, and a definition only for a non-empty initializer. */
  function GlobalDecl(typeSpaced: string, name: string, initializer: Option<string>): (r: HeaderDeclaration)
    ensures r.decl == GlobalBase(typeSpaced, name) + ";" && r.dependencies == []
    ensures r.defn.None? <==> initializer.None? || initializer.value == ""
    ensures r.defn.Some? ==> r.defn.value == [GlobalBase(typeSpaced, name) + " = " + initializer.value + ";"]
  {
    var base := GlobalBase(typeSpaced, name);
    var defn := if initializer.None? || initializer.value == "" then None else Some([base + " = " + initializer.value + ";"]);
    HeaderDeclaration(base + ";", defn, [])
  }

  /** The emitter context's declarations: a dict, kept as its keys in insertion order and the map. */
  class EmitterContext {
    var names: seq<string>
    var declarations: map<string, HeaderDeclaration>

    constructor ()
      ensures names == [] && declarations == map[] && Valid()
    {
      names := [];
      declarations := map[];
    }

    ghost predicate Valid()
      reads this
    {
      NoDups(names) && Elems(names) == declarations.Keys
    }

    /** `declare_global`: records the declaration under `name`, unless one is there already. */
    method DeclareGlobal(typeSpaced: string, name: string, initializer: Option<string>)
      requires Valid()
      modifies this
      ensures Valid()
      ensures name in old(declarations) ==> declarations == old(declarations) && names == old(names)
      ensures name !in old(declarations) ==>
                declarations == old(declarations)[name := GlobalDecl(typeSpaced, name, initializer)]
                && names == old(names) + [name]
    {
      var base: string;
      if '[' !in typeSpaced {
        base := typeSpaced + name;
      } else {
        var i := FirstIndex(typeSpaced, '[').value;
        var a, b := typeSpaced[..i], typeSpaced[i + 1..];
        base := a + name + "[" + b;
      }
      var defn: Option<seq<string>>;
      if initializer.None? || initializer.value == "" {
        defn := None;
      } else {
        defn := Some([base + " = " + initializer.value + ";"]);
      }
      if name !in declarations {
        NoDupsSnoc(names, name);
        ElemsSnoc(names, name);
        declarations := declarations[name := HeaderDeclaration(base + ";", defn, [])];
        names := names + [name];
      }
    }
  }

  // ---------------------------------------------------------------------------
  // Declarators, directories, cache names

  /**
   * `pointerize`: a declaration of a pointer to what `decl` declares,
   * `(*name)` for a function declarator and `*name` otherwise.
   */
  function Pointerize(decl: string, name: string): string {
    if '(' in decl then ReplaceAll(decl, name, "(*" + name + ")") else ReplaceAll(decl, name, "*" + name)
  }

  /** When the name occurs once, exactly that occurrence becomes a pointer declarator. */
  lemma PointerizeOnce(pre: string, name: string, post: string)
    requires name != []
    requires forall i :: 0 <= i <= |pre + name + post| && i != |pre| ==> !OccursAt(pre + name + post, name, i)
    ensures Pointerize(pre + name + post, name)
         == pre + (if '(' in pre + name + post then "(*" + name + ")" else "*" + name) + post
  {
    ReplaceUnique(pre, name, post, "(*" + name + ")");
    ReplaceUnique(pre, name, post, "*" + name);
  }

  /** `group_dir`: the group name without its last component, as a directory path. */
  function GroupDir(groupName: string): string {
    Join("/", MypyBuild.DropLast(Split(groupName, '.'), 1))
  }

  /** A group named after a module lives in the directory of the module's package. */
  lemma GroupDirOfModule(package: seq<string>, last: string)
    requires package != [] && '.' !in last && forall k :: 0 <= k < |package| ==> '.' !in package[k]
    ensures GroupDir(Join(".", package + [last])) == Join("/", package)
  {
    var parts := package + [last];
    assert forall k :: 0 <= k < |parts| ==> '.' !in parts[k];
    SplitJoin(parts, '.');
    assert MypyBuild.DropLast(parts, 1) == package;
  }

  /** `get_ir_cache_name`: the meta cache file name with `.meta.json` replaced by `.ir.json`. */
  function GetIrCacheName(id: string, path: string, mapped: Option<(string, string)>, fineGrained: bool): string {
    ReplaceAll(MypyBuild.GetCacheNames(id, path, mapped, fineGrained).meta, ".meta.json", ".ir.json")
  }

  /** Without a cache map entry, the IR cache file sits beside the meta file, with its own suffix. */
  lemma IrCacheNameBesideMeta(id: string, path: string, fineGrained: bool)
    ensures GetIrCacheName(id, path, None, fineGrained) == MypyBuild.CachePrefix(id, path) + ".ir.json"
  {
    var pre := MypyBuild.CachePrefix(id, path);
    var pat := ".meta.json";
    MypyBuild.CachePrefixNoDot(id, path);
    var s := pre + pat + "";
    forall i | 0 <= i <= |s| && i != |pre|
      ensures !OccursAt(s, pat, i)
    {
      if i < |pre| {
        assert s[i] == pre[i] && pre[i] != '.' && pat[0] == '.';
      }
    }
    ReplaceUnique(pre, pat, "", ".ir.json");
    assert pre + pat + "" == pre + pat;
  }

  /** `is_fastcall_supported`: every function except a class's `__init__`. */
  function IsFastcallSupported(className: Option<string>, name: string): (r: bool)
    ensures r <==> !(className.Some? && name == "__init__")
  {
    if className.Some? then
      if name == "__call__" then true
      else name != "__init__"
    else true
  }

  // ---------------------------------------------------------------------------
  // Compilation groups and the plugin

  /** A source file of the build: its path, when it has one, and its module. */
  datatype BuildSource = BuildSource(path: Option<string>, moduleId: string)

  /** A compilation group: its sources and its name, when it has one. */
  type Group = (seq<BuildSource>, Option<string>)

  function Modules(sources: seq<BuildSource>): (r: seq<string>)
    ensures |r| == |sources| && forall i :: 0 <= i < |r| ==> r[i] == sources[i].moduleId
  {
    seq(|sources|, i requires 0 <= i < |sources| => sources[i].moduleId)
  }

  /** Python's ordering of strings: by code point, a proper prefix first. */
  predicate LexLe(a: string, b: string)
    decreases |a|
  {
    a == [] || (b != [] && (a[0] < b[0] || (a[0] == b[0] && LexLe(a[1..], b[1..]))))
  }

  lemma {:induction false} LexTotal(a: string, b: string)
    ensures LexLe(a, b) || LexLe(b, a)
    decreases |a|
  {
    if a != [] && b != [] && a[0] == b[0] {
      LexTotal(a[1..], b[1..]);
    }
  }

  predicate SortedStrings(s: seq<string>) {
    forall i :: 0 < i < |s| ==> LexLe(s[i - 1], s[i])
  }

  /** Places `x` after every string not above it. */
  function InsertString(t: seq<string>, x: string): (r: seq<string>)
    ensures multiset(r) == multiset(t) + multiset{x}
    ensures |r| == |t| + 1 && (r[|r| - 1] == x || (t != [] && r[|r| - 1] == t[|t| - 1]))
    decreases |t|
  {
    if t == [] || LexLe(t[|t| - 1], x) then t + [x]
    else
      InitLast(t);
      InsertString(t[..|t| - 1], x) + [t[|t| - 1]]
  }

  lemma {:induction false} InsertStringSorted(t: seq<string>, x: string)
    requires SortedStrings(t)
    ensures SortedStrings(InsertString(t, x))
    decreases |t|
  {
    if t != [] && !LexLe(t[|t| - 1], x) {
      var init, last := t[..|t| - 1], t[|t| - 1];
      var u := InsertString(init, x);
      InsertStringSorted(init, x);
      LexTotal(last, x);
      assert LexLe(u[|u| - 1], last) by {
        if init != [] {
          assert init[|init| - 1] == t[|t| - 2];
        }
      }
      var r := u + [last];
      forall i | 0 < i < |r| ensures LexLe(r[i - 1], r[i]) {
        if i < |u| {
          assert r[i - 1] == u[i - 1] && r[i] == u[i];
        }
      }
    }
  }

  /** Python's `sorted` on strings. */
  function SortStrings(s: seq<string>): (r: seq<string>)
    ensures multiset(r) == multiset(s)
    ensures SortedStrings(r)
    decreases |s|
  {
    if s == [] then []
    else
      InitLast(s);
      InsertStringSorted(SortStrings(s[..|s| - 1]), s[|s| - 1]);
      InsertString(SortStrings(s[..|s| - 1]), s[|s| - 1])
  }

  /** Each of `mods` mapped to the group's name and its whole sorted module list. */
  function AddModules(m: map<string, (Option<string>, seq<string>)>, name: Option<string>, all: seq<string>, mods: seq<string>)
    : (r: map<string, (Option<string>, seq<string>)>)
    ensures r.Keys == m.Keys + Elems(mods)
    ensures forall id :: id in r ==> r[id] == if id in mods then (name, all) else m[id]
    decreases |mods|
  {
    if mods == [] then m
    else
      var init := mods[..|mods| - 1];
      assert forall id :: id in mods <==> id in init || id == mods[|mods| - 1];
      AddModules(m, name, all, init)[mods[|mods| - 1] := (name, all)]
  }

  /** The plugin's group map after the groups: a later group wins for a module listed twice. */
  function GroupMap(groups: seq<Group>): map<string, (Option<string>, seq<string>)>
    decreases |groups|
  {
    if groups == [] then map[]
    else
      var g := groups[|groups| - 1];
      var modules := SortStrings(Modules(g.0));
      AddModules(GroupMap(groups[..|groups| - 1]), g.1, modules, modules)
  }

  /** The modules of all the groups. */
  function AllModules(groups: seq<Group>): set<string>
    decreases |groups|
  {
    if groups == [] then {}
    else AllModules(groups[..|groups| - 1]) + Elems(Modules(groups[|groups| - 1].0))
  }

  /** Sorting keeps the modules. */
  lemma SortedModules(sources: seq<BuildSource>, id: string)
    ensures id in SortStrings(Modules(sources)) <==> id in Modules(sources)
  {
    assert id in SortStrings(Modules(sources)) <==> id in multiset(SortStrings(Modules(sources)));
  }

  /** The map holds exactly the modules of the groups. */
  lemma {:induction false} GroupMapKeys(groups: seq<Group>)
    ensures GroupMap(groups).Keys == AllModules(groups)
    decreases |groups|
  {
    if groups != [] {
      var g := groups[|groups| - 1];
      GroupMapKeys(groups[..|groups| - 1]);
      forall id ensures id in SortStrings(Modules(g.0)) <==> id in Modules(g.0) {
        SortedModules(g.0, id);
      }
    }
  }

  /** A module's entry comes from the last group listing it: that group's name and sorted modules. */
  lemma {:induction false} GroupMapLast(groups: seq<Group>, i: nat, id: string)
    requires i < |groups| && id in Modules(groups[i].0)
    requires forall j :: i < j < |groups| ==> id !in Modules(groups[j].0)
    ensures id in GroupMap(groups) && GroupMap(groups)[id] == (groups[i].1, SortStrings(Modules(groups[i].0)))
    decreases |groups|
  {
    var n := |groups| - 1;
    var init, g := groups[..n], groups[n];
    var mods := SortStrings(Modules(g.0));
    assert GroupMap(groups) == AddModules(GroupMap(init), g.1, mods, mods);
    SortedModules(g.0, id);
    if i < n {
      assert forall j :: i < j < |init| ==> init[j] == groups[j];
      GroupMapLast(init, i, id);
    }
  }

  /** A module's group always lists the module itself. */
  lemma {:induction false} GroupMapSelf(groups: seq<Group>, id: string)
    requires id in GroupMap(groups)
    ensures id in GroupMap(groups)[id].1
    decreases |groups|
  {
    var n := |groups| - 1;
    SortedModules(groups[n].0, id);
    if id !in SortStrings(Modules(groups[n].0)) {
      GroupMapSelf(groups[..n], id);
    }
  }

  /**
   * Fed to `compute_dependencies`, the plugin's entries make a module depend
   * on each of its group-mates (and never on itself).
   */
  lemma GroupmatesAreDependencies(p: MypycPlugin, entries: seq<MypyBuild.DepEntry>, id: string, mate: string)
    requires id in p.groupMap && mate in p.groupMap[id].1 && mate != id
    ensures mate in MypyBuild.ComputedDeps(entries + p.GetAdditionalDeps(id), id)
    ensures id !in MypyBuild.ComputedDeps(entries + p.GetAdditionalDeps(id), id)
  {
    var all := entries + p.GetAdditionalDeps(id);
    var mods := p.groupMap[id].1;
    var k :| 0 <= k < |mods| && mods[k] == mate;
    assert all[|entries| + k].id == mate;
    assert mate in MypyBuild.EntryIds(all, id);
    MypyBuild.ComputedDepsProps(all, id);
  }

  /** The plugin's map from each module to its group's name and sorted modules. */
  class MypycPlugin {
    var groupMap: map<string, (Option<string>, seq<string>)>

    /** Records, for each group in turn, the group's name and sorted module list under each of its modules. */
    constructor (groups: seq<Group>)
      ensures groupMap == GroupMap(groups)
    {
      groupMap := map[];
      new;
      var i := 0;
      while i < |groups|
        invariant 0 <= i <= |groups| && groupMap == GroupMap(groups[..i])
      {
        TakeTake(groups, i + 1, i);
        var (sources, name) := groups[i];
        var modules := SortStrings(Modules(sources));
        ghost var before := groupMap;
        var j := 0;
        while j < |modules|
          invariant 0 <= j <= |modules| && groupMap == AddModules(before, name, modules, modules[..j])
        {
          TakeTake(modules, j + 1, j);
          groupMap := groupMap[modules[j] := (name, modules)];
          j := j + 1;
        }
        TakeAll(modules);
        i := i + 1;
      }
      TakeAll(groups);
    }

    /** `get_additional_deps`: one entry of priority 10 and line -1 for each module of the file's group. */
    function GetAdditionalDeps(fullname: string): (r: seq<MypyBuild.DepEntry>)
      reads this
      ensures fullname !in groupMap ==> r == []
      ensures fullname in groupMap ==> |r| == |groupMap[fullname].1|
      ensures forall k :: 0 <= k < |r| ==> r[k] == MypyBuild.DepEntry(10, groupMap[fullname].1[k], -1)
    {
      var mods := if fullname in groupMap then groupMap[fullname].1 else [];
      seq(|mods|, k requires 0 <= k < |mods| => MypyBuild.DepEntry(10, mods[k], -1))
    }
  }
}
