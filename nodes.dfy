/**
 * Helpers of mypy's AST module (mypy/nodes.py): the argument kinds and their
 * predicates, the two validators of a function's argument list, flag
 * get/set on a node, the dotted name of a member expression, member lookup
 * along a class's MRO, the recording of a class's type variables, and the
 * walk over the locally defined names of a symbol table.
 */
module Nodes {
  import opened Wrappers
  import opened Seqs
  import opened Strings

  // ---------------------------------------------------------------------------
  // Argument kinds

  /** `ArgKind`: `ARG_POS`, `ARG_OPT`, `ARG_STAR`, `ARG_NAMED`, `ARG_STAR2`, `ARG_NAMED_OPT`. */
  datatype ArgKind = Pos | Opt | Star | Named | Star2 | NamedOpt {

    predicate IsPositional(star: bool) {
      this == Pos || this == Opt || (star && this == Star)
    }

    predicate IsNamed(star: bool) {
      this == Named || this == NamedOpt || (star && this == Star2)
    }

    predicate IsRequired() {
      this == Pos || this == Named
    }

    predicate IsOptional() {
      this == Opt || this == NamedOpt
    }

    predicate IsStar() {
      this == Star || this == Star2
    }
  }

  /** `ArgKind.value`, the number a kind is serialized as. */
  function KindValue(k: ArgKind): (v: nat)
    ensures v < 6
  {
    match k
    case Pos => 0
    case Opt => 1
    case Star => 2
    case Named => 3
    case Star2 => 4
    case NamedOpt => 5
  }

  /** `ArgKind(v)`: the kind with value `v`; any other number raises `ValueError`. */
  function KindOfValue(v: int): (r: Option<ArgKind>)
    ensures r.Some? <==> 0 <= v < 6
    ensures r.Some? ==> KindValue(r.value) == v
  {
    if v == 0 then Some(Pos)
    else if v == 1 then Some(Opt)
    else if v == 2 then Some(Star)
    else if v == 3 then Some(Named)
    else if v == 4 then Some(Star2)
    else if v == 5 then Some(NamedOpt)
    else None
  }

  /** Serializing a kind as its value and reading it back gives the kind. */
  lemma KindValueRoundTrip(k: ArgKind)
    ensures KindOfValue(KindValue(k)) == Some(k)
  {
  }

  /**
   * Every kind is exactly one of required, optional and star, and exactly one
   * of positional and named once star kinds are counted on their side.
   */
  lemma KindClasses(k: ArgKind)
    ensures k.IsRequired() || k.IsOptional() || k.IsStar()
    ensures !(k.IsRequired() && k.IsOptional())
    ensures !(k.IsRequired() && k.IsStar()) && !(k.IsOptional() && k.IsStar())
    ensures k.IsPositional(true) != k.IsNamed(true)
    ensures k.IsPositional(false) ==> k.IsPositional(true)
    ensures k.IsNamed(false) ==> k.IsNamed(true)
  {
  }

  // ---------------------------------------------------------------------------
  // check_arg_kinds

  /**
   * The position of a kind in the only order `check_arg_kinds` accepts:
   * positional, then optional positional, then `*args`, then keyword-only,
   * then `**kwargs`.
   */
  function Rank(k: ArgKind): nat {
    match k
    case Pos => 0
    case Opt => 1
    case Star => 2
    case Named => 3
    case NamedOpt => 3
    case Star2 => 4
  }

  /**
   * The kinds follow `POS* OPT* STAR? (NAMED | NAMED_OPT)* STAR2?`: ranks never
   * go down, and the two star kinds never repeat.
   */
  ghost predicate WellOrdered(kinds: seq<ArgKind>) {
    forall i, j :: 0 <= i < j < |kinds| ==>
      Rank(kinds[i]) < Rank(kinds[j]) || (Rank(kinds[i]) == Rank(kinds[j]) && !kinds[i].IsStar())
  }

  /** A failure reported through the `fail` callback: the message and the node it is about. */
  datatype Failure<T> = Failure(index: nat, node: T, message: string)

  /** The message `check_arg_kinds` gives when `k` is out of order. */
  function KindMessage(k: ArgKind): string {
    match k
    case Pos => "Required positional args may not appear after default, named or var args"
    case Opt => "Positional default args may not appear after named or var args"
    case Star => "Var args may not appear after named or var args"
    case Named => "A **kwargs argument must be the last argument"
    case NamedOpt => "A **kwargs argument must be the last argument"
    case Star2 => "You may only have one **kwargs argument"
  }

  /** Whether `k` may follow a well-ordered prefix with the given flags, as the loop decides. */
  predicate KindAllowed(k: ArgKind, isVarArg: bool, isKwArg: bool, seenNamed: bool, seenOpt: bool) {
    match k
    case Pos => !(isVarArg || isKwArg || seenNamed || seenOpt)
    case Opt => !(isVarArg || isKwArg || seenNamed)
    case Star => !(isVarArg || isKwArg || seenNamed)
    case Named => !isKwArg
    case NamedOpt => !isKwArg
    case Star2 => !isKwArg
  }

  /** The loop's test is exactly "the extended list is still well ordered". */
  lemma ExtendWellOrdered(p: seq<ArgKind>, k: ArgKind)
    requires WellOrdered(p)
    ensures WellOrdered(p + [k]) <==>
            KindAllowed(k, Star in p, Star2 in p, Named in p || NamedOpt in p, Opt in p)
  {
    var q := p + [k];
    if KindAllowed(k, Star in p, Star2 in p, Named in p || NamedOpt in p, Opt in p) {
      forall i, j | 0 <= i < j < |q|
        ensures Rank(q[i]) < Rank(q[j]) || (Rank(q[i]) == Rank(q[j]) && !q[i].IsStar())
      {
        if j == |p| {
          assert q[i] in p;
        }
      }
    } else {
      var x :| x in p && (match k
        case Pos => x != Pos
        case Opt => x == Star || x == Star2 || x == Named || x == NamedOpt
        case Star => x == Star || x == Star2 || x == Named || x == NamedOpt
        case _ => x == Star2);
      var i :| 0 <= i < |p| && p[i] == x;
      assert q[i] == x && q[|p|] == k;
    }
  }

  /**
   * `check_arg_kinds`: walk the kinds with four flags and report the first
   * kind that breaks the order, then stop. `zip` stops at the shorter list.
   */
  method CheckArgKinds<T>(kinds: seq<ArgKind>, nodes: seq<T>) returns (failure: Option<Failure<T>>)
    ensures var n := if |kinds| < |nodes| then |kinds| else |nodes|;
            failure.None? <==> WellOrdered(kinds[..n])
    ensures failure.Some? ==>
              var i := failure.value.index;
              i < |kinds| && i < |nodes| && WellOrdered(kinds[..i]) && !WellOrdered(kinds[..i + 1])
              && failure.value.node == nodes[i] && failure.value.message == KindMessage(kinds[i])
  {
    var n := if |kinds| < |nodes| then |kinds| else |nodes|;
    var isVarArg, isKwArg, seenNamed, seenOpt := false, false, false, false;
    var i := 0;
    while i < n
      invariant 0 <= i <= n
      invariant WellOrdered(kinds[..i])
      invariant isVarArg == (Star in kinds[..i]) && isKwArg == (Star2 in kinds[..i])
      invariant seenNamed == (Named in kinds[..i] || NamedOpt in kinds[..i])
      invariant seenOpt == (Opt in kinds[..i])
    {
      var kind := kinds[i];
      ExtendWellOrdered(kinds[..i], kind);
      TakeSnoc(kinds, i);
      if !KindAllowed(kind, isVarArg, isKwArg, seenNamed, seenOpt) {
        failure := Some(Failure(i, nodes[i], KindMessage(kind)));
        PrefixBroken(kinds, i, n);
        assert failure.Some? && !WellOrdered(kinds[..n]);
        return;
      }
      match kind {
        case Opt => seenOpt := true;
        case Star => isVarArg := true;
        case Named => seenNamed := true;
        case NamedOpt => seenNamed := true;
        case Star2 => isKwArg := true;
        case Pos =>
      }
      i := i + 1;
    }
    assert kinds[..i] == kinds[..n] && WellOrdered(kinds[..n]);
    failure := None;
  }

  /** A list is well ordered only if all of its prefixes are. */
  lemma PrefixBroken(kinds: seq<ArgKind>, i: nat, n: nat)
    requires i < n <= |kinds| && !WellOrdered(kinds[..i + 1])
    ensures !WellOrdered(kinds[..n])
  {
    var a, b :| 0 <= a < b < i + 1 &&
      !(Rank(kinds[..i + 1][a]) < Rank(kinds[..i + 1][b]) ||
        (Rank(kinds[..i + 1][a]) == Rank(kinds[..i + 1][b]) && !kinds[..i + 1][a].IsStar()));
    assert kinds[..i + 1][a] == kinds[..n][a] && kinds[..i + 1][b] == kinds[..n][b];
  }

  // ---------------------------------------------------------------------------
  // check_arg_names

  /** Some name other than `None` occurs twice among the first `n` names. */
  ghost predicate HasDuplicate(names: seq<Option<string>>, n: nat)
    requires n <= |names|
  {
    exists i, j :: 0 <= i < j < n && names[j].Some? && names[i] == names[j]
  }

  /**
   * `check_arg_names`: report the first name that repeats an earlier one, then
   * stop. `None` names are remembered but never reported.
   */
  method CheckArgNames<T>(names: seq<Option<string>>, nodes: seq<T>, description: string)
    returns (failure: Option<Failure<T>>)
    ensures var n := if |names| < |nodes| then |names| else |nodes|;
            failure.None? <==> !HasDuplicate(names, n)
    ensures failure.Some? ==>
              var j := failure.value.index;
              j < |names| && j < |nodes| && names[j].Some? && names[j] in names[..j]
              && !HasDuplicate(names, j) && failure.value.node == nodes[j]
              && failure.value.message == "Duplicate argument \"" + names[j].value + "\" in " + description
  {
    var n := if |names| < |nodes| then |names| else |nodes|;
    var seen: set<Option<string>> := {};
    var i := 0;
    while i < n
      invariant 0 <= i <= n
      invariant seen == Elems(names[..i])
      invariant !HasDuplicate(names, i)
    {
      var name := names[i];
      if name.Some? && name in seen {
        failure := Some(Failure(i, nodes[i], "Duplicate argument \"" + name.value + "\" in " + description));
        var k :| 0 <= k < i && names[k] == name;
        assert HasDuplicate(names, n) by {
          assert 0 <= k < i < n && names[i].Some? && names[k] == names[i];
        }
        return;
      }
      assert names[..i + 1] == names[..i] + [name];
      seen := seen + {name};
      i := i + 1;
    }
    failure := None;
  }

  // ---------------------------------------------------------------------------
  // get_flags / set_flags

  /** The names among `names` that are set, in the order of `names`. */
  function FlagsIn(names: seq<string>, set_: set<string>): (r: seq<string>)
    ensures forall x :: x in r <==> x in names && x in set_
    ensures |r| <= |names|
  {
    if names == [] then []
    else (if names[0] in set_ then [names[0]] else []) + FlagsIn(names[1..], set_)
  }

  /** Order is kept: the flags of a concatenation are the flags of each part, concatenated. */
  lemma {:induction false} FlagsInConcat(a: seq<string>, b: seq<string>, set_: set<string>)
    ensures FlagsIn(a + b, set_) == FlagsIn(a, set_) + FlagsIn(b, set_)
    decreases |a|
  {
    if a == [] {
      assert a + b == b;
    } else {
      assert (a + b)[0] == a[0];
      assert (a + b)[1..] == a[1..] + b;
      FlagsInConcat(a[1..], b, set_);
    }
  }

  /** A node whose boolean attributes are set by name; `flags` holds the true ones. */
  class FlagNode {
    var flags: set<string>

    constructor (initial: set<string>)
      ensures flags == initial
    {
      flags := initial;
    }

    /** `get_flags`: the names of `names` whose attribute is true, in order. */
    function GetFlags(names: seq<string>): (r: seq<string>)
      reads this
      ensures forall x :: x in r <==> x in names && x in flags
    {
      FlagsIn(names, flags)
    }

    /** `set_flags`: set every attribute in `fs` to true. */
    method SetFlags(fs: seq<string>)
      modifies this
      ensures flags == old(flags) + Elems(fs)
      ensures forall names: seq<string>, x :: x in names && x in fs ==> x in GetFlags(names)
    {
      var i := 0;
      while i < |fs|
        invariant 0 <= i <= |fs|
        invariant flags == old(flags) + Elems(fs[..i])
      {
        assert fs[..i + 1] == fs[..i] + [fs[i]];
        flags := flags + {fs[i]};
        i := i + 1;
      }
      assert fs[..i] == fs;
    }
  }

  // ---------------------------------------------------------------------------
  // get_member_expr_fullname

  /** The expressions the function looks at: names, attribute accesses, and anything else. */
  datatype Expr = NameExpr(name: string) | MemberExpr(expr: Expr, name: string) | OtherExpr

  /** The innermost base of a chain of attribute accesses. */
  function Innermost(e: Expr): Expr {
    if e.MemberExpr? then Innermost(e.expr) else e
  }

  /** The names along a chain, innermost first. */
  function Names(e: Expr): seq<string> {
    match e
    case NameExpr(n) => [n]
    case MemberExpr(b, n) => Names(b) + [n]
    case OtherExpr => []
  }

  /**
   * `get_member_expr_fullname`: the dotted chain `a.b.c` when the chain bottoms
   * out at a name, and `None` otherwise.
   */
  function MemberExprFullname(e: Expr): (r: Option<string>)
    requires e.MemberExpr?
    ensures r.Some? <==> Innermost(e).NameExpr?
    ensures r.Some? ==> r.value == Join(".", Names(e)) && |Names(e)| >= 2
  {
    var initial: Option<string> :=
      if e.expr.NameExpr? then Some(e.expr.name)
      else if e.expr.MemberExpr? then MemberExprFullname(e.expr)
      else None;
    if initial.None? then None
    else
      JoinSnoc(".", Names(e.expr), e.name);
      Some(initial.value + "." + e.name)
  }

  /** When no name contains a dot, splitting the full name at dots recovers the chain. */
  lemma MemberExprFullnameSplits(e: Expr)
    requires e.MemberExpr? && Innermost(e).NameExpr?
    requires forall k :: 0 <= k < |Names(e)| ==> '.' !in Names(e)[k]
    ensures Split(MemberExprFullname(e).value, '.') == Names(e)
  {
    SplitJoin(Names(e), '.');
  }

  // ---------------------------------------------------------------------------
  // TypeInfo

  /** What a symbol table binds a name to (its `node` and kind are not looked at here). */
  datatype SymbolTableNode = SymbolTableNode(id: nat)

  /** The kinds of type variable a class may declare. */
  datatype TypeVarLike = TypeVar(name: string) | ParamSpec(name: string) | TypeVarTuple(name: string)

  /** The class-level record of a class definition. */
  class TypeInfo {
    var fullname: string
    var names: map<string, SymbolTableNode>
    /** The method resolution order, this class first once it has been computed. */
    var mro: seq<TypeInfo>
    var typeVars: seq<string>
    var hasParamSpecType: bool
    var hasTypeVarTupleType: bool
    var typeVarTuplePrefix: Option<nat>
    var typeVarTupleSuffix: Option<nat>

    /**
     * `TypeInfo.__init__`: the full name and table of the class definition,
     * an empty MRO (it is computed later), and the definition's type
     * variables recorded by `add_type_vars`.
     */
    constructor (fullname: string, names: map<string, SymbolTableNode>, defnTypeVars: seq<TypeVarLike>)
      requires forall i, j :: 0 <= i < j < |defnTypeVars| && defnTypeVars[i].TypeVarTuple? ==> !defnTypeVars[j].TypeVarTuple?
      ensures this.fullname == fullname && this.names == names && mro == []
      ensures typeVars == TypeVarNames(defnTypeVars)
      ensures hasParamSpecType == AnyParamSpec(defnTypeVars)
      ensures hasTypeVarTupleType == TupleIndex(defnTypeVars).Some?
      ensures TupleIndex(defnTypeVars).Some? ==>
                typeVarTuplePrefix == TupleIndex(defnTypeVars)
                && typeVarTupleSuffix == Some(|defnTypeVars| - TupleIndex(defnTypeVars).value - 1)
      ensures TupleIndex(defnTypeVars).None? ==> typeVarTuplePrefix.None? && typeVarTupleSuffix.None?
    {
      this.fullname := fullname;
      this.names := names;
      mro := [];
      typeVars := [];
      hasParamSpecType := false;
      hasTypeVarTupleType := false;
      typeVarTuplePrefix := None;
      typeVarTupleSuffix := None;
      new;
      AddTypeVars(defnTypeVars);
    }

    /**
     * `TypeInfo.get`: the binding from the first class along the MRO whose
     * table has `name`, or `None` if no class has it.
     */
    function Get(name: string): (r: Option<SymbolTableNode>)
      reads this, mro
      ensures r.None? <==> forall i :: 0 <= i < |mro| ==> name !in mro[i].names
      ensures r.Some? ==> exists i :: 0 <= i < |mro| && name in mro[i].names && r.value == mro[i].names[name]
                                      && forall j :: 0 <= j < i ==> name !in mro[j].names
    {
      GetFrom(mro, name)
    }

    /** `TypeInfo.has_base`: some class along the MRO has the given full name. */
    function HasBase(fullname: string): (r: bool)
      reads this, mro
      ensures r <==> exists i :: 0 <= i < |mro| && mro[i].fullname == fullname
    {
      HasBaseIn(mro, fullname)
    }

    /**
     * `add_type_vars`: append the names of the class definition's type
     * variables and record where its one `TypeVarTuple` sits.
     */
    method AddTypeVars(defnTypeVars: seq<TypeVarLike>)
      requires forall i, j :: 0 <= i < j < |defnTypeVars| && defnTypeVars[i].TypeVarTuple? ==> !defnTypeVars[j].TypeVarTuple?
      modifies this
      ensures typeVars == old(typeVars) + TypeVarNames(defnTypeVars)
      ensures hasParamSpecType == (old(hasParamSpecType) || AnyParamSpec(defnTypeVars))
      ensures hasTypeVarTupleType == TupleIndex(defnTypeVars).Some?
      ensures TupleIndex(defnTypeVars).Some? ==>
                typeVarTuplePrefix == TupleIndex(defnTypeVars)
                && typeVarTupleSuffix == Some(|defnTypeVars| - TupleIndex(defnTypeVars).value - 1)
      ensures TupleIndex(defnTypeVars).None? ==>
                typeVarTuplePrefix == old(typeVarTuplePrefix) && typeVarTupleSuffix == old(typeVarTupleSuffix)
      ensures fullname == old(fullname) && names == old(names) && mro == old(mro)
    {
      var vars, paramSpec, tupleSeen, prefix, suffix :=
        ScanTypeVars(defnTypeVars, typeVars, hasParamSpecType, typeVarTuplePrefix, typeVarTupleSuffix);
      typeVars, hasParamSpecType, hasTypeVarTupleType := vars, paramSpec, tupleSeen;
      typeVarTuplePrefix, typeVarTupleSuffix := prefix, suffix;
    }
  }

  /**
   * The loop of `add_type_vars`, on the values of the fields it updates: the
   * method above writes the results back, since nothing reads the fields
   * while the loop runs.
   */
  method ScanTypeVars(tvs: seq<TypeVarLike>, vars0: seq<string>, spec0: bool, prefix0: Option<nat>, suffix0: Option<nat>)
    returns (vars: seq<string>, paramSpec: bool, tupleSeen: bool, prefix: Option<nat>, suffix: Option<nat>)
    ensures vars == vars0 + TypeVarNames(tvs)
    ensures paramSpec == (spec0 || AnyParamSpec(tvs))
    ensures tupleSeen == TupleIndex(tvs).Some?
    ensures TupleIndex(tvs).Some? ==> prefix == TupleIndex(tvs) && suffix == Some(|tvs| - TupleIndex(tvs).value - 1)
    ensures TupleIndex(tvs).None? ==> prefix == prefix0 && suffix == suffix0
  {
    vars, paramSpec, tupleSeen, prefix, suffix := vars0, spec0, false, prefix0, suffix0;
    var i := 0;
    while i < |tvs|
      invariant 0 <= i <= |tvs|
      invariant vars == vars0 + TypeVarNames(tvs[..i])
      invariant paramSpec == (spec0 || AnyParamSpec(tvs[..i]))
      invariant tupleSeen == TupleIndex(tvs[..i]).Some?
      invariant TupleIndex(tvs[..i]).Some? ==>
                  prefix == TupleIndex(tvs[..i]) && suffix == Some(|tvs| - TupleIndex(tvs[..i]).value - 1)
      invariant TupleIndex(tvs[..i]).None? ==> prefix == prefix0 && suffix == suffix0
    {
      var vd := tvs[i];
      assert tvs[..i + 1][..i] == tvs[..i] && tvs[..i + 1][i] == vd;
      if vd.ParamSpec? {
        paramSpec := true;
      }
      if vd.TypeVarTuple? {
        tupleSeen := true;
        prefix := Some(i);
        suffix := Some(|tvs| - i - 1);
      }
      vars := vars + [vd.name];
      i := i + 1;
    }
    assert tvs[..i] == tvs;
  }

  /** Some declared type variable is a `ParamSpec`. */
  predicate AnyParamSpec(tvs: seq<TypeVarLike>)
  {
    if tvs == [] then false else AnyParamSpec(tvs[..|tvs| - 1]) || tvs[|tvs| - 1].ParamSpec?
  }

  /** Where the `TypeVarTuple` sits among the declared type variables (the last one, if several). */
  function TupleIndex(tvs: seq<TypeVarLike>): (r: Option<nat>)
    ensures r.Some? ==> r.value < |tvs| && tvs[r.value].TypeVarTuple?
  {
    if tvs == [] then None
    else if tvs[|tvs| - 1].TypeVarTuple? then Some(|tvs| - 1)
    else TupleIndex(tvs[..|tvs| - 1])
  }

  /** `TupleIndex` finds the last `TypeVarTuple`, and finds none only when there is none. */
  lemma {:induction false} TupleIndexLast(tvs: seq<TypeVarLike>)
    ensures TupleIndex(tvs).Some? ==> forall k :: TupleIndex(tvs).value < k < |tvs| ==> !tvs[k].TypeVarTuple?
    ensures TupleIndex(tvs).None? <==> forall k :: 0 <= k < |tvs| ==> !tvs[k].TypeVarTuple?
  {
    if tvs != [] && !tvs[|tvs| - 1].TypeVarTuple? {
      var init := tvs[..|tvs| - 1];
      TupleIndexLast(init);
      assert forall k :: 0 <= k < |init| ==> init[k] == tvs[k];
    }
  }

  /**
   * With at most one `TypeVarTuple`, the recorded prefix and suffix count the
   * type variables on either side of it, so together with it they are all.
   */
  lemma TupleSplit(tvs: seq<TypeVarLike>, k: nat)
    requires forall i, j :: 0 <= i < j < |tvs| && tvs[i].TypeVarTuple? ==> !tvs[j].TypeVarTuple?
    requires k < |tvs| && tvs[k].TypeVarTuple?
    ensures TupleIndex(tvs) == Some(k)
    ensures k + (|tvs| - k - 1) + 1 == |tvs|
  {
    TupleIndexLast(tvs);
  }

  /** The names of the declared type variables, in order. */
  function TypeVarNames(tvs: seq<TypeVarLike>): (r: seq<string>)
    ensures |r| == |tvs| && forall k :: 0 <= k < |tvs| ==> r[k] == tvs[k].name
  {
    if tvs == [] then [] else TypeVarNames(tvs[..|tvs| - 1]) + [tvs[|tvs| - 1].name]
  }

  /** The MRO walk of `get`, as a function of the classes' tables. */
  function GetFrom(mro: seq<TypeInfo>, name: string): (r: Option<SymbolTableNode>)
    reads mro
    ensures r.None? <==> forall i :: 0 <= i < |mro| ==> name !in mro[i].names
    ensures r.Some? ==> exists i :: 0 <= i < |mro| && name in mro[i].names && r.value == mro[i].names[name]
                                    && forall j :: 0 <= j < i ==> name !in mro[j].names
    decreases |mro|
  {
    if mro == [] then None
    else if name in mro[0].names then Some(mro[0].names[name])
    else
      var r := GetFrom(mro[1..], name);
      assert forall i :: 1 <= i < |mro| ==> mro[i] == mro[1..][i - 1];
      r
  }

  function HasBaseIn(mro: seq<TypeInfo>, fullname: string): (r: bool)
    reads mro
    ensures r <==> exists i :: 0 <= i < |mro| && mro[i].fullname == fullname
    decreases |mro|
  {
    if mro == [] then false
    else if mro[0].fullname == fullname then true
    else
      var r := HasBaseIn(mro[1..], fullname);
      assert forall i :: 1 <= i < |mro| ==> mro[i] == mro[1..][i - 1];
      r
  }

  // ---------------------------------------------------------------------------
  // local_definitions

  /**
   * A snapshot of a symbol table for the definitions walk, in insertion order.
   * An entry holds the bound name and the node it refers to, if any; a class
   * node carries its own table in `members`.
   */
  datatype SymbolTable = SymbolTable(entries: seq<Entry>)
  datatype Entry = Entry(name: string, node: Option<DefNode>)
  datatype DefNode = DefNode(fullname: string, members: Option<SymbolTable>)

  /** A yielded definition: full name, entry, and the enclosing class (if any). */
  datatype Definition = Definition(fullname: string, entry: Entry, info: Option<DefNode>)

  /** The name a mangled `f-redef` definition was originally given. */
  function ShortName(name: string): (r: string)
    ensures StartsWith(name, r)
    ensures !Contains(name, "-redef") ==> r == name
  {
    if Contains(name, "-redef") then BeforeFirst(name, "-redef") else name
  }

  /** The entry is a local definition under `prefix`. */
  predicate IsLocal(e: Entry, prefix: string) {
    e.node.Some? && e.node.value.fullname == prefix + "." + ShortName(e.name)
  }

  /**
   * `local_definitions`: each entry whose node's full name is the prefix plus
   * its (unmangled) name, followed, for a class, by the local definitions of
   * its own table under its full name.
   */
  function LocalDefinitions(names: SymbolTable, prefix: string, info: Option<DefNode>): (r: seq<Definition>)
    ensures forall d :: d in r ==>
              d.entry.node.Some? && d.entry.node.value.fullname == d.fullname
              && StartsWith(d.fullname, prefix + ".")
    ensures forall e :: e in names.entries && IsLocal(e, prefix) ==>
              Definition(prefix + "." + ShortName(e.name), e, info) in r
  {
    LocalDefinitionsFromUnder(names, 0, prefix, info);
    LocalEntriesYielded(names, prefix, info);
    LocalDefinitionsFrom(names, 0, prefix, info)
  }

  /** The walk of `local_definitions` over the entries from position `i` on. */
  function LocalDefinitionsFrom(names: SymbolTable, i: nat, prefix: string, info: Option<DefNode>): (r: seq<Definition>)
    requires i <= |names.entries|
    ensures i == |names.entries| ==> r == []
    decreases names, |names.entries| - i
  {
    if i == |names.entries| then []
    else EntryDefinitions(names.entries[i], prefix, info) + LocalDefinitionsFrom(names, i + 1, prefix, info)
  }

  /** What one entry contributes: itself when it is local and then, for a class, the definitions inside it. */
  function EntryDefinitions(e: Entry, prefix: string, info: Option<DefNode>): (r: seq<Definition>)
    ensures IsLocal(e, prefix) ==> r != [] && r[0] == Definition(prefix + "." + ShortName(e.name), e, info)
    ensures !IsLocal(e, prefix) ==> r == []
    decreases e, 1
  {
    if IsLocal(e, prefix) then
      var fullname := prefix + "." + ShortName(e.name);
      [Definition(fullname, e, info)]
      + (if e.node.value.members.Some? then LocalDefinitionsFrom(e.node.value.members.value, 0, fullname, e.node) else [])
    else []
  }

  /** Every definition an entry contributes has a node whose full name it carries, under the prefix. */
  lemma {:induction false} EntryDefinitionsUnder(e: Entry, prefix: string, info: Option<DefNode>)
    ensures forall d :: d in EntryDefinitions(e, prefix, info) ==>
              d.entry.node.Some? && d.entry.node.value.fullname == d.fullname
              && StartsWith(d.fullname, prefix + ".")
    decreases e, 1
  {
    if IsLocal(e, prefix) && e.node.value.members.Some? {
      var fullname := prefix + "." + ShortName(e.name);
      var inner := LocalDefinitionsFrom(e.node.value.members.value, 0, fullname, e.node);
      LocalDefinitionsFromUnder(e.node.value.members.value, 0, fullname, e.node);
      assert StartsWith(fullname + ".", prefix + ".") by {
        assert (fullname + ".")[..|prefix + "."|] == fullname[..|prefix + "."|];
      }
      forall d | d in inner ensures StartsWith(d.fullname, prefix + ".") {
        StartsWithTrans(d.fullname, fullname + ".", prefix + ".");
      }
      assert EntryDefinitions(e, prefix, info) == [Definition(fullname, e, info)] + inner;
    }
  }

  /** The walk from entry `i` on yields only definitions whose node carries their full name, under the prefix. */
  lemma {:induction false} LocalDefinitionsFromUnder(names: SymbolTable, i: nat, prefix: string, info: Option<DefNode>)
    requires i <= |names.entries|
    ensures forall d :: d in LocalDefinitionsFrom(names, i, prefix, info) ==>
              d.entry.node.Some? && d.entry.node.value.fullname == d.fullname
              && StartsWith(d.fullname, prefix + ".")
    decreases names, |names.entries| - i
  {
    if i < |names.entries| {
      EntryDefinitionsUnder(names.entries[i], prefix, info);
      LocalDefinitionsFromUnder(names, i + 1, prefix, info);
    }
  }

  /** Every local entry of the table is yielded under the prefix plus its unmangled name. */
  lemma LocalEntriesYielded(names: SymbolTable, prefix: string, info: Option<DefNode>)
    ensures forall e :: e in names.entries && IsLocal(e, prefix) ==>
              Definition(prefix + "." + ShortName(e.name), e, info) in LocalDefinitionsFrom(names, 0, prefix, info)
  {
    forall e | e in names.entries && IsLocal(e, prefix)
      ensures Definition(prefix + "." + ShortName(e.name), e, info) in LocalDefinitionsFrom(names, 0, prefix, info)
    {
      var d := Definition(prefix + "." + ShortName(e.name), e, info);
      var k :| 0 <= k < |names.entries| && names.entries[k] == e;
      assert YieldedBy(names.entries[k], prefix, info, d);
      LocalDefinitionsFromYields(names, 0, prefix, info, d);
    }
  }

  lemma StartsWithTrans(a: string, b: string, c: string)
    requires StartsWith(a, b) && StartsWith(b, c)
    ensures StartsWith(a, c)
  {
    assert a[..|c|] == b[..|c|];
  }

  /**
   * What the walk of `names` from entry `i` on yields: what some entry from
   * `i` on yields.
   */
  predicate YieldedFrom(names: SymbolTable, i: nat, prefix: string, info: Option<DefNode>, d: Definition)
    decreases names, 0
  {
    exists k :: i <= k < |names.entries| && YieldedBy(names.entries[k], prefix, info, d)
  }

  /**
   * What an entry yields: itself, when it is local under `prefix`, with
   * `info` as its enclosing class; and, for a local class, whatever the
   * walk of the class's own table yields under the class's full name, with
   * that class as the enclosing class.
   */
  predicate YieldedBy(e: Entry, prefix: string, info: Option<DefNode>, d: Definition)
    decreases e, 0
  {
    IsLocal(e, prefix)
    && (d == Definition(prefix + "." + ShortName(e.name), e, info)
        || (e.node.value.members.Some? && YieldedFrom(e.node.value.members.value, 0, prefix + "." + ShortName(e.name), e.node, d)))
  }

  /** One entry's definitions are exactly what it yields. */
  lemma {:induction false} EntryDefinitionsYields(e: Entry, prefix: string, info: Option<DefNode>, d: Definition)
    ensures d in EntryDefinitions(e, prefix, info) <==> YieldedBy(e, prefix, info, d)
    decreases e, 1
  {
    if IsLocal(e, prefix) && e.node.value.members.Some? {
      LocalDefinitionsFromYields(e.node.value.members.value, 0, prefix + "." + ShortName(e.name), e.node, d);
    }
  }

  /** The walk from entry `i` yields exactly what the entries from `i` on yield. */
  lemma {:induction false} LocalDefinitionsFromYields(names: SymbolTable, i: nat, prefix: string, info: Option<DefNode>, d: Definition)
    requires i <= |names.entries|
    ensures d in LocalDefinitionsFrom(names, i, prefix, info) <==> YieldedFrom(names, i, prefix, info, d)
    decreases names, |names.entries| - i
  {
    if i < |names.entries| {
      EntryDefinitionsYields(names.entries[i], prefix, info, d);
      LocalDefinitionsFromYields(names, i + 1, prefix, info, d);
      if YieldedFrom(names, i, prefix, info, d) {
        var k :| i <= k < |names.entries| && YieldedBy(names.entries[k], prefix, info, d);
        assert k > i ==> YieldedFrom(names, i + 1, prefix, info, d);
      }
      if YieldedFrom(names, i + 1, prefix, info, d) {
        var k :| i + 1 <= k < |names.entries| && YieldedBy(names.entries[k], prefix, info, d);
        assert YieldedFrom(names, i, prefix, info, d);
      }
      if YieldedBy(names.entries[i], prefix, info, d) {
        assert YieldedFrom(names, i, prefix, info, d);
      }
    }
  }

  /**
   * `local_definitions` yields exactly the local entries of the table and,
   * recursively, the members of local classes under the class's full name,
   * each with its class as the enclosing class.
   */
  lemma LocalDefinitionsYields(names: SymbolTable, prefix: string, info: Option<DefNode>, d: Definition)
    ensures d in LocalDefinitions(names, prefix, info) <==> YieldedFrom(names, 0, prefix, info, d)
  {
    LocalDefinitionsFromYields(names, 0, prefix, info, d);
  }

  /** Within one entry's definitions, a class is followed at once by the definitions inside it. */
  lemma {:induction false} EntryClassMembersFollow(e: Entry, prefix: string, info: Option<DefNode>, j: nat)
    requires j < |EntryDefinitions(e, prefix, info)|
    requires EntryDefinitions(e, prefix, info)[j].entry.node.Some?
    requires EntryDefinitions(e, prefix, info)[j].entry.node.value.members.Some?
    ensures var r := EntryDefinitions(e, prefix, info);
            var node := r[j].entry.node.value;
            var inner := LocalDefinitionsFrom(node.members.value, 0, r[j].fullname, Some(node));
            j + 1 + |inner| <= |r| && r[j + 1..j + 1 + |inner|] == inner
    decreases e, 2
  {
    if j == 0 {
      EntryClassFollowedAtHead(e, prefix, info);
    } else {
      EntryInnerClassMembersFollow(e, prefix, info, j);
    }
  }

  /** The case of `EntryClassMembersFollow` where the class is the entry itself. */
  lemma EntryClassFollowedAtHead(e: Entry, prefix: string, info: Option<DefNode>)
    requires IsLocal(e, prefix) && e.node.value.members.Some?
    ensures var r := EntryDefinitions(e, prefix, info);
            var node := r[0].entry.node.value;
            var inner := LocalDefinitionsFrom(node.members.value, 0, r[0].fullname, Some(node));
            1 + |inner| <= |r| && r[1..1 + |inner|] == inner
  {
    var fullname := prefix + "." + ShortName(e.name);
    HeadFollowed(EntryDefinitions(e, prefix, info), Definition(fullname, e, info),
                 LocalDefinitionsFrom(e.node.value.members.value, 0, fullname, e.node));
  }

  /** The case of `EntryClassMembersFollow` where the class lies inside the entry's own class. */
  lemma {:induction false} EntryInnerClassMembersFollow(e: Entry, prefix: string, info: Option<DefNode>, j: nat)
    requires 0 < j < |EntryDefinitions(e, prefix, info)|
    requires EntryDefinitions(e, prefix, info)[j].entry.node.Some?
    requires EntryDefinitions(e, prefix, info)[j].entry.node.value.members.Some?
    ensures var r := EntryDefinitions(e, prefix, info);
            var node := r[j].entry.node.value;
            var inner := LocalDefinitionsFrom(node.members.value, 0, r[j].fullname, Some(node));
            j + 1 + |inner| <= |r| && r[j + 1..j + 1 + |inner|] == inner
    decreases e, 1
  {
    var fullname := prefix + "." + ShortName(e.name);
    var head := [Definition(fullname, e, info)];
    var n := LocalDefinitionsFrom(e.node.value.members.value, 0, fullname, e.node);
    assert EntryDefinitions(e, prefix, info) == head + n;
    ClassMembersFollow(e.node.value.members.value, 0, fullname, e.node, j - 1);
    var inner := n[j - 1].entry.node.value;
    FollowedRight(EntryDefinitions(e, prefix, info), head, n, j - 1, j,
                  LocalDefinitionsFrom(inner.members.value, 0, n[j - 1].fullname, Some(inner)));
  }

  /**
   * A local class is followed at once by the members its own table yields,
   * walked under the class's full name with the class as the enclosing class.
   */
  lemma {:induction false} ClassMembersFollow(names: SymbolTable, i: nat, prefix: string, info: Option<DefNode>, j: nat)
    requires i <= |names.entries| && j < |LocalDefinitionsFrom(names, i, prefix, info)|
    requires LocalDefinitionsFrom(names, i, prefix, info)[j].entry.node.Some?
    requires LocalDefinitionsFrom(names, i, prefix, info)[j].entry.node.value.members.Some?
    ensures var r := LocalDefinitionsFrom(names, i, prefix, info);
            var node := r[j].entry.node.value;
            var inner := LocalDefinitionsFrom(node.members.value, 0, r[j].fullname, Some(node));
            j + 1 + |inner| <= |r| && r[j + 1..j + 1 + |inner|] == inner
    decreases names, |names.entries| - i, 1
  {
    if j < |EntryDefinitions(names.entries[i], prefix, info)| {
      ClassMembersFollowHere(names, i, prefix, info, j);
    } else {
      ClassMembersFollowRest(names, i, prefix, info, j);
    }
  }

  /** The case of `ClassMembersFollow` where the class comes from entry `i` itself. */
  lemma {:induction false} ClassMembersFollowHere(names: SymbolTable, i: nat, prefix: string, info: Option<DefNode>, j: nat)
    requires i < |names.entries| && j < |EntryDefinitions(names.entries[i], prefix, info)|
    requires EntryDefinitions(names.entries[i], prefix, info)[j].entry.node.Some?
    requires EntryDefinitions(names.entries[i], prefix, info)[j].entry.node.value.members.Some?
    ensures var r := LocalDefinitionsFrom(names, i, prefix, info);
            var node := r[j].entry.node.value;
            var inner := LocalDefinitionsFrom(node.members.value, 0, r[j].fullname, Some(node));
            j + 1 + |inner| <= |r| && r[j + 1..j + 1 + |inner|] == inner
    decreases names, |names.entries| - i, 0
  {
    var r := LocalDefinitionsFrom(names, i, prefix, info);
    var here := EntryDefinitions(names.entries[i], prefix, info);
    assert r == here + LocalDefinitionsFrom(names, i + 1, prefix, info);
    EntryClassMembersFollow(names.entries[i], prefix, info, j);
    var node := here[j].entry.node.value;
    FollowedLeft(r, here, LocalDefinitionsFrom(names, i + 1, prefix, info), j, LocalDefinitionsFrom(node.members.value, 0, here[j].fullname, Some(node)));
  }

  /** The case of `ClassMembersFollow` where the class comes from a later entry. */
  lemma {:induction false} ClassMembersFollowRest(names: SymbolTable, i: nat, prefix: string, info: Option<DefNode>, j: nat)
    requires i < |names.entries| && |EntryDefinitions(names.entries[i], prefix, info)| <= j < |LocalDefinitionsFrom(names, i, prefix, info)|
    requires LocalDefinitionsFrom(names, i, prefix, info)[j].entry.node.Some?
    requires LocalDefinitionsFrom(names, i, prefix, info)[j].entry.node.value.members.Some?
    ensures var r := LocalDefinitionsFrom(names, i, prefix, info);
            var node := r[j].entry.node.value;
            var inner := LocalDefinitionsFrom(node.members.value, 0, r[j].fullname, Some(node));
            j + 1 + |inner| <= |r| && r[j + 1..j + 1 + |inner|] == inner
    decreases names, |names.entries| - i, 0
  {
    var r := LocalDefinitionsFrom(names, i, prefix, info);
    var here := EntryDefinitions(names.entries[i], prefix, info);
    var rest := LocalDefinitionsFrom(names, i + 1, prefix, info);
    assert r == here + rest;
    IndexRight(r, here, rest, j);
    var k := j - |here|;
    ClassMembersFollow(names, i + 1, prefix, info, k);
    var node := rest[k].entry.node.value;
    FollowedRight(r, here, rest, k, j, LocalDefinitionsFrom(node.members.value, 0, rest[k].fullname, Some(node)));
  }

  /**
   * In what `local_definitions` yields, a local class is followed at once by
   * what `local_definitions` yields for the class's own table, under the
   * class's full name and with the class as the enclosing class.
   */
  lemma LocalClassMembersFollow(names: SymbolTable, prefix: string, info: Option<DefNode>, j: nat)
    requires j < |LocalDefinitions(names, prefix, info)|
    requires LocalDefinitions(names, prefix, info)[j].entry.node.Some?
    requires LocalDefinitions(names, prefix, info)[j].entry.node.value.members.Some?
    ensures var r := LocalDefinitions(names, prefix, info);
            var node := r[j].entry.node.value;
            var inner := LocalDefinitions(node.members.value, r[j].fullname, Some(node));
            j + 1 + |inner| <= |r| && r[j + 1..j + 1 + |inner|] == inner
  {
    ClassMembersFollow(names, 0, prefix, info, j);
  }
}
