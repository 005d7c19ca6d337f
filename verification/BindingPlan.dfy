// Matching the configured bindings of a trusted-publisher target against the
// parameters of `main`. Every configured name must be taken by exactly one
// parameter of its kind, and every such parameter must find its binding.

module BindingPlan {
  import opened Prelude
  import opened Names

  datatype Type = Named(name: string, args: seq<Type>) | Qualified(inner: Type) | Structural

  datatype Param = Param(name: string, ty: Option<Type>)

  datatype DirBinding = Cwd | At(path: string)
  datatype NetBinding = AnyAddress | Addresses(addresses: seq<string>)
  datatype ExecBinding = AnyProgram(childPaths: seq<string>) | Programs(programs: seq<string>, childPaths: seq<string>)

  // The configured target. File bindings hold a path, environment bindings the
  // variable names, secrets their provider.
  datatype Target = Target(
    dirs: map<string, DirBinding>,
    files: map<string, string>,
    env: map<string, seq<string>>,
    net: map<string, NetBinding>,
    exec: map<string, ExecBinding>,
    secrets: map<string, string>)

  datatype Rights = Rights(read: bool, write: bool)

  datatype DirPlan = DirPlan(name: string, source: DirBinding, rights: Rights)
  datatype FilePlan = FilePlan(name: string, path: string, rights: Rights)
  datatype EnvPlan = EnvPlan(name: string, names: seq<string>)
  datatype NetPlan = NetPlan(name: string, allow: seq<string>)
  datatype ExecPlan = ExecPlan(name: string, programs: Option<seq<string>>, childPaths: seq<string>)

  datatype Plan = Plan(
    dirs: seq<DirPlan>, files: seq<FilePlan>, env: Option<EnvPlan>, net: seq<NetPlan>, exec: Option<ExecPlan>)

  // ---------- types ----------

  function Unqualified(ty: Type): Type {
    if ty.Qualified? then Unqualified(ty.inner) else ty
  }

  // What a parameter asks for. Ambient values need no configuration; a type
  // without a provider is unsupported.
  datatype Kind = Ambient | SecretStore | Dir | File | Env | Net | Exec | Unsupported

  function KindOf(p: Param): Kind {
    if p.ty.None? || !Unqualified(p.ty.value).Named? then Unsupported
    else
      var Named(name, args) := Unqualified(p.ty.value);
      if name in ["Console", "Clock", "Rand"] then Ambient
      else if name == "Env" then Env
      else if name == "SecretStore" then SecretStore
      else if name == "Dir" then Dir
      else if name == "File" then File
      else if name == "Net" then Net
      else if name == "Exec" then Exec
      else if name == "List" && args == [Named("String", [])] then Ambient
      else Unsupported
  }

  function Args(p: Param): seq<Type> {
    if p.ty.Some? && Unqualified(p.ty.value).Named? then Unqualified(p.ty.value).args else []
  }

  predicate IsRight(ty: Type, name: string) {
    Unqualified(ty) == Named(name, [])
  }

  predicate KnownRights(args: seq<Type>) {
    forall i :: 0 <= i < |args| ==> IsRight(args[i], "Read") || IsRight(args[i], "Write")
  }

  predicate GrantsRight(args: seq<Type>, name: string) {
    exists i :: 0 <= i < |args| && IsRight(args[i], name)
  }

  function RightsOf(args: seq<Type>): Rights {
    Rights(GrantsRight(args, "Read"), GrantsRight(args, "Write"))
  }

  // Collect the rights named by type arguments, refusing anything else.
  method FsRights(args: seq<Type>) returns (r: Option<Rights>)
    ensures r == if KnownRights(args) then Some(RightsOf(args)) else None
  {
    var rights := Rights(false, false);
    for k := 0 to |args|
      invariant KnownRights(args[..k])
      invariant rights == RightsOf(args[..k])
    {
      if IsRight(args[k], "Read") {
        rights := rights.(read := true);
        assert args[..k + 1][k] == args[k];
      } else if IsRight(args[k], "Write") {
        rights := rights.(write := true);
        assert args[..k + 1][k] == args[k];
      } else {
        assert !(IsRight(args[k], "Read") || IsRight(args[k], "Write"));
        return None;
      }
      RightsGrow(args, k);
    }
    assert args[..|args|] == args;
    return Some(rights);
  }

  lemma RightsGrow(args: seq<Type>, k: nat)
    requires k < |args|
    ensures forall name :: GrantsRight(args[..k + 1], name) <==> GrantsRight(args[..k], name) || IsRight(args[k], name)
    ensures KnownRights(args[..k + 1]) <==>
      KnownRights(args[..k]) && (IsRight(args[k], "Read") || IsRight(args[k], "Write"))
  {
    hide IsRight;
    var a, b := args[..k], args[..k + 1];
    assert b == a + [args[k]];
    forall name ensures GrantsRight(b, name) <==> GrantsRight(a, name) || IsRight(args[k], name) {
      if GrantsRight(a, name) {
        var i :| 0 <= i < |a| && IsRight(a[i], name);
        assert b[i] == a[i];
      }
      assert b[k] == args[k];
    }
  }

  // ---------- bindings ----------

  const ANYWHERE: seq<string> := ["0.0.0.0/0:*", "::/0:*"]

  function Allowed(binding: NetBinding): seq<string> {
    match binding
    case AnyAddress => ANYWHERE
    case Addresses(addresses) => addresses
  }

  function Dedup(s: seq<string>): seq<string> {
    if |s| < 2 then s
    else if s[0] == s[1] then Dedup(s[1..])
    else [s[0]] + Dedup(s[1..])
  }

  // Deduplicating sorted names leaves them strictly ascending, none lost.
  lemma {:induction false} DedupAscends(s: seq<string>)
    requires Ascending(s)
    ensures StrictlyAscending(Dedup(s))
    ensures Elements(Dedup(s)) == Elements(s)
    ensures s != [] ==> Dedup(s) != [] && Dedup(s)[0] == s[0]
  {
    if |s| >= 2 {
      var rest := s[1..];
      DedupAscends(rest);
      assert s == [s[0]] + rest;
      assert Elements(s) == {s[0]} + Elements(rest);
      if s[0] == s[1] {
        assert s[0] == rest[0];
      } else {
        var d := Dedup(rest);
        assert AtMost(s[0], s[1]);
        forall j | 0 <= j < |d| ensures Before(s[0], d[j]) {
          if j > 0 {
            assert Before(d[0], d[j]);
            BeforeIsTransitive(s[0], d[0], d[j]);
          }
        }
        assert Elements([s[0]] + d) == {s[0]} + Elements(d);
      }
    }
  }

  function DirPlanOf(t: Target, p: Param): DirPlan {
    DirPlan(p.name, if p.name in t.dirs then t.dirs[p.name] else Cwd, RightsOf(Args(p)))
  }

  function FilePlanOf(t: Target, p: Param): FilePlan {
    FilePlan(p.name, if p.name in t.files then t.files[p.name] else "", RightsOf(Args(p)))
  }

  function EnvPlanOf(t: Target, p: Param): EnvPlan {
    EnvPlan(p.name, if p.name in t.env then Dedup(Sort(t.env[p.name])) else [])
  }

  function NetPlanOf(t: Target, p: Param): NetPlan {
    NetPlan(p.name, if p.name in t.net then Allowed(t.net[p.name]) else [])
  }

  function ExecPlanOf(t: Target, p: Param): ExecPlan {
    if p.name in t.exec then
      match t.exec[p.name]
      case AnyProgram(childPaths) => ExecPlan(p.name, None, childPaths)
      case Programs(programs, childPaths) => ExecPlan(p.name, Some(programs), childPaths)
    else ExecPlan(p.name, None, [])
  }

  // A parameter by itself: a supported type, and for the configurable kinds a
  // usable binding of its name.
  predicate Usable(t: Target, netOk: string -> bool, p: Param) {
    match KindOf(p)
    case Ambient => true
    case SecretStore => true
    case Env => p.name in t.env && "" !in t.env[p.name]
    case Dir => p.name in t.dirs && t.dirs[p.name] != At("") && KnownRights(Args(p))
    case File => p.name in t.files && t.files[p.name] != "" && KnownRights(Args(p))
    case Net => p.name in t.net && forall a :: a in Allowed(t.net[p.name]) ==> netOk(a)
    case Exec => p.name in t.exec && "" !in t.exec[p.name].childPaths
    case Unsupported => false
  }

  // ---------- the parameters of one kind ----------

  function Select(params: seq<Param>, kind: Kind): seq<Param> {
    if params == [] then []
    else
      var last := params[|params| - 1];
      Select(params[..|params| - 1], kind) + if KindOf(last) == kind then [last] else []
  }

  function NamesIn(params: seq<Param>): (r: seq<string>)
    ensures |r| == |params| && forall i :: 0 <= i < |r| ==> r[i] == params[i].name
  {
    seq(|params|, i requires 0 <= i < |params| => params[i].name)
  }

  function Taken(params: seq<Param>, kind: Kind): set<string> {
    Elements(NamesIn(Select(params, kind)))
  }

  // Each parameter is usable, and no two of a kind share a name.
  ghost predicate Compatible(t: Target, netOk: string -> bool, params: seq<Param>) {
    && (forall i :: 0 <= i < |params| ==> Usable(t, netOk, params[i]))
    && Distinct(NamesIn(Select(params, Dir)))
    && Distinct(NamesIn(Select(params, File)))
    && Distinct(NamesIn(Select(params, Net)))
    && |Select(params, Env)| <= 1 && |Select(params, Exec)| <= 1
  }

  lemma SelectStep(params: seq<Param>, p: Param, kind: Kind)
    ensures Select(params + [p], kind) == if KindOf(p) == kind then Select(params, kind) + [p] else Select(params, kind)
  {
    assert (params + [p])[..|params|] == params;
  }

  lemma TakeStep(selected: seq<Param>, p: Param)
    ensures NamesIn(selected + [p]) == NamesIn(selected) + [p.name]
    ensures Elements(NamesIn(selected + [p])) == Elements(NamesIn(selected)) + {p.name}
    ensures Distinct(NamesIn(selected + [p])) <==>
      Distinct(NamesIn(selected)) && p.name !in Elements(NamesIn(selected))
  {
    var a, b := NamesIn(selected), NamesIn(selected + [p]);
    assert b == a + [p.name];
    if Distinct(b) {
      forall i, j | 0 <= i < j < |a| ensures a[i] != a[j] {
        assert b[i] != b[j];
      }
      forall i | 0 <= i < |a| ensures a[i] != p.name {
        assert b[i] != b[|a|];
      }
    }
  }

  // ---------- building the plan ----------

  // The remaining bindings, the plan so far and the secret stores seen.
  datatype Building = Building(target: Target, plan: Plan, stores: nat)

  function MapDirs(t: Target, s: seq<Param>): seq<DirPlan> {
    seq(|s|, i requires 0 <= i < |s| => DirPlanOf(t, s[i]))
  }

  function MapFiles(t: Target, s: seq<Param>): seq<FilePlan> {
    seq(|s|, i requires 0 <= i < |s| => FilePlanOf(t, s[i]))
  }

  function MapNets(t: Target, s: seq<Param>): seq<NetPlan> {
    seq(|s|, i requires 0 <= i < |s| => NetPlanOf(t, s[i]))
  }

  // The plan for parameters that are compatible with the target.
  function PlanOf(t: Target, params: seq<Param>): Plan {
    var env, exec := Select(params, Env), Select(params, Exec);
    Plan(MapDirs(t, Select(params, Dir)),
         MapFiles(t, Select(params, File)),
         if env == [] then None else Some(EnvPlanOf(t, env[0])),
         MapNets(t, Select(params, Net)),
         if exec == [] then None else Some(ExecPlanOf(t, exec[0])))
  }

  function BuildingOf(t: Target, params: seq<Param>): Building {
    Building(
      t.(dirs := t.dirs - Taken(params, Dir), files := t.files - Taken(params, File),
         env := t.env - Taken(params, Env), net := t.net - Taken(params, Net),
         exec := t.exec - Taken(params, Exec)),
      PlanOf(t, params),
      |Select(params, SecretStore)|)
  }

  // Bind one parameter, taking its binding out of the target.
  function BindParam(b: Building, netOk: string -> bool, p: Param): Option<Building> {
    var t, name := b.target, p.name;
    match KindOf(p)
    case Ambient => Some(b)
    case SecretStore => Some(b.(stores := b.stores + 1))
    case Env =>
      if b.plan.env.Some? || name !in t.env || "" in t.env[name] then None
      else Some(b.(target := t.(env := t.env - {name}), plan := b.plan.(env := Some(EnvPlanOf(t, p)))))
    case Dir =>
      if name !in t.dirs || t.dirs[name] == At("") || !KnownRights(Args(p)) then None
      else
        var dirs := b.plan.dirs + [DirPlanOf(t, p)];
        Some(b.(target := t.(dirs := t.dirs - {name}), plan := b.plan.(dirs := dirs)))
    case File =>
      if name !in t.files || t.files[name] == "" || !KnownRights(Args(p)) then None
      else
        var files := b.plan.files + [FilePlanOf(t, p)];
        Some(b.(target := t.(files := t.files - {name}), plan := b.plan.(files := files)))
    case Net =>
      if name !in t.net || exists a :: a in Allowed(t.net[name]) && !netOk(a) then None
      else Some(b.(target := t.(net := t.net - {name}), plan := b.plan.(net := b.plan.net + [NetPlanOf(t, p)])))
    case Exec =>
      if b.plan.exec.Some? || name !in t.exec || "" in t.exec[name].childPaths then None
      else Some(b.(target := t.(exec := t.exec - {name}), plan := b.plan.(exec := Some(ExecPlanOf(t, p)))))
    case Unsupported => None
  }

  // The step as the loop takes it, rights being collected argument by argument.
  method BindParameter(b: Building, netOk: string -> bool, p: Param) returns (r: Option<Building>)
    ensures r == BindParam(b, netOk, p)
  {
    hide KindOf, Args, KnownRights, RightsOf, Sort, Dedup;
    var t, name := b.target, p.name;
    match KindOf(p)
    case Dir =>
      if name !in t.dirs || t.dirs[name] == At("") {
        return None;
      }
      var rights := FsRights(Args(p));
      if rights.None? {
        return None;
      }
      var dir := DirPlan(name, t.dirs[name], rights.value);
      return Some(b.(target := t.(dirs := t.dirs - {name}), plan := b.plan.(dirs := b.plan.dirs + [dir])));
    case File =>
      if name !in t.files || t.files[name] == "" {
        return None;
      }
      var rights := FsRights(Args(p));
      if rights.None? {
        return None;
      }
      var file := FilePlan(name, t.files[name], rights.value);
      return Some(b.(target := t.(files := t.files - {name}), plan := b.plan.(files := b.plan.files + [file])));
    case Env =>
      if b.plan.env.Some? || name !in t.env || "" in t.env[name] {
        return None;
      }
      var env := EnvPlan(name, Dedup(Sort(t.env[name])));
      return Some(b.(target := t.(env := t.env - {name}), plan := b.plan.(env := Some(env))));
    case Net =>
      if name !in t.net {
        return None;
      }
      var allow := if t.net[name].AnyAddress? then ANYWHERE else t.net[name].addresses;
      if exists a :: a in allow && !netOk(a) {
        return None;
      }
      var net := NetPlan(name, allow);
      return Some(b.(target := t.(net := t.net - {name}), plan := b.plan.(net := b.plan.net + [net])));
    case Exec =>
      if b.plan.exec.Some? || name !in t.exec || "" in t.exec[name].childPaths {
        return None;
      }
      var programs := if t.exec[name].AnyProgram? then None else Some(t.exec[name].programs);
      var exec := ExecPlan(name, programs, t.exec[name].childPaths);
      return Some(b.(target := t.(exec := t.exec - {name}), plan := b.plan.(exec := Some(exec))));
    case SecretStore => return Some(b.(stores := b.stores + 1));
    case Ambient => return Some(b);
    case Unsupported => return None;
  }

  // Parameters of other kinds do not change what one kind selects.
  lemma SelectSteps(params: seq<Param>, p: Param)
    ensures forall kind {:trigger Select(params + [p], kind)} ::
      Select(params + [p], kind) == if KindOf(p) == kind then Select(params, kind) + [p] else Select(params, kind)
  {
    forall kind {:trigger Select(params + [p], kind)}
      ensures Select(params + [p], kind) ==
        if KindOf(p) == kind then Select(params, kind) + [p] else Select(params, kind)
    {
      SelectStep(params, p, kind);
    }
  }

  lemma UsableStep(t: Target, netOk: string -> bool, params: seq<Param>, p: Param)
    ensures (forall i :: 0 <= i < |params + [p]| ==> Usable(t, netOk, (params + [p])[i])) <==>
      (forall i :: 0 <= i < |params| ==> Usable(t, netOk, params[i])) && Usable(t, netOk, p)
  {
    var longer := params + [p];
    if forall i :: 0 <= i < |longer| ==> Usable(t, netOk, longer[i]) {
      assert Usable(t, netOk, longer[|params|]);
      forall i | 0 <= i < |params| ensures Usable(t, netOk, params[i]) {
        assert Usable(t, netOk, longer[i]);
      }
    }
  }

  // How compatibility and the plan grow by one parameter.
  lemma CompatibleStep(t: Target, netOk: string -> bool, params: seq<Param>, p: Param)
    requires Compatible(t, netOk, params)
    ensures Compatible(t, netOk, params + [p]) <==>
      && Usable(t, netOk, p)
      && (KindOf(p) in {Dir, File, Net} ==> p.name !in Taken(params, KindOf(p)))
      && (KindOf(p) in {Env, Exec} ==> Select(params, KindOf(p)) == [])
  {
    hide Usable, Select, NamesIn, Distinct;
    UsableStep(t, netOk, params, p);
    SelectSteps(params, p);
    TakeStep(Select(params, KindOf(p)), p);
  }

  lemma BuildingKeeps(t: Target, params: seq<Param>, p: Param)
    requires KindOf(p) in {Ambient, SecretStore, Unsupported}
    ensures BuildingOf(t, params + [p]) ==
      BuildingOf(t, params).(stores := BuildingOf(t, params).stores + if KindOf(p) == SecretStore then 1 else 0)
  {
    hide Select, NamesIn;
    SelectSteps(params, p);
  }

  lemma RemoveOneMore<V>(m: map<string, V>, taken: set<string>, name: string)
    ensures m - (taken + {name}) == (m - taken) - {name}
    ensures name in m - taken <==> name in m && name !in taken
    ensures name in m - taken ==> (m - taken)[name] == m[name]
  {
  }

  lemma TakenStep(params: seq<Param>, p: Param)
    ensures Taken(params + [p], KindOf(p)) == Taken(params, KindOf(p)) + {p.name}
    ensures forall kind {:trigger Taken(params + [p], kind)} ::
      kind != KindOf(p) ==> Taken(params + [p], kind) == Taken(params, kind)
  {
    hide Select, NamesIn;
    SelectSteps(params, p);
    TakeStep(Select(params, KindOf(p)), p);
  }

  // For parameters compatible so far, binding one more succeeds exactly when
  // all of them are compatible, and then it does what the plan for all of them
  // says.
  lemma BindDir(t: Target, netOk: string -> bool, params: seq<Param>, p: Param)
    requires Compatible(t, netOk, params) && KindOf(p) == Dir
    ensures BindParam(BuildingOf(t, params), netOk, p) ==
      if Compatible(t, netOk, params + [p]) then Some(BuildingOf(t, params + [p])) else None
  {
    hide Select, NamesIn, Taken, Compatible, Dedup, RightsOf, KnownRights, KindOf, Args, Sort;
    CompatibleStep(t, netOk, params, p);
    SelectSteps(params, p);
    TakenStep(params, p);
    RemoveOneMore(t.dirs, Taken(params, Dir), p.name);
    assert MapDirs(t, Select(params, Dir) + [p]) == MapDirs(t, Select(params, Dir)) + [DirPlanOf(t, p)];
  }

  lemma BindFile(t: Target, netOk: string -> bool, params: seq<Param>, p: Param)
    requires Compatible(t, netOk, params) && KindOf(p) == File
    ensures BindParam(BuildingOf(t, params), netOk, p) ==
      if Compatible(t, netOk, params + [p]) then Some(BuildingOf(t, params + [p])) else None
  {
    hide Select, NamesIn, Taken, Compatible, Dedup, RightsOf, KnownRights, KindOf, Args, Sort;
    CompatibleStep(t, netOk, params, p);
    SelectSteps(params, p);
    TakenStep(params, p);
    RemoveOneMore(t.files, Taken(params, File), p.name);
    assert MapFiles(t, Select(params, File) + [p]) == MapFiles(t, Select(params, File)) + [FilePlanOf(t, p)];
  }

  lemma BindNet(t: Target, netOk: string -> bool, params: seq<Param>, p: Param)
    requires Compatible(t, netOk, params) && KindOf(p) == Net
    ensures BindParam(BuildingOf(t, params), netOk, p) ==
      if Compatible(t, netOk, params + [p]) then Some(BuildingOf(t, params + [p])) else None
  {
    hide Select, NamesIn, Taken, Compatible, Dedup, RightsOf, KnownRights, Allowed, KindOf, Args, Sort;
    CompatibleStep(t, netOk, params, p);
    SelectSteps(params, p);
    TakenStep(params, p);
    RemoveOneMore(t.net, Taken(params, Net), p.name);
    assert MapNets(t, Select(params, Net) + [p]) == MapNets(t, Select(params, Net)) + [NetPlanOf(t, p)];
  }

  lemma NothingTaken(params: seq<Param>, kind: Kind)
    requires Select(params, kind) == []
    ensures Taken(params, kind) == {}
  {
  }

  lemma BindEnv(t: Target, netOk: string -> bool, params: seq<Param>, p: Param)
    requires Compatible(t, netOk, params) && KindOf(p) == Env
    ensures BindParam(BuildingOf(t, params), netOk, p) ==
      if Compatible(t, netOk, params + [p]) then Some(BuildingOf(t, params + [p])) else None
  {
    hide Select, NamesIn, Taken, Compatible, Dedup, RightsOf, KnownRights, KindOf, Args, Sort;
    CompatibleStep(t, netOk, params, p);
    SelectSteps(params, p);
    TakenStep(params, p);
    if Select(params, Env) == [] {
      NothingTaken(params, Env);
      RemoveOneMore(t.env, Taken(params, Env), p.name);
    }
  }

  lemma BindExec(t: Target, netOk: string -> bool, params: seq<Param>, p: Param)
    requires Compatible(t, netOk, params) && KindOf(p) == Exec
    ensures BindParam(BuildingOf(t, params), netOk, p) ==
      if Compatible(t, netOk, params + [p]) then Some(BuildingOf(t, params + [p])) else None
  {
    hide Select, NamesIn, Taken, Compatible, Dedup, RightsOf, KnownRights, KindOf, Args, Sort;
    CompatibleStep(t, netOk, params, p);
    SelectSteps(params, p);
    TakenStep(params, p);
    if Select(params, Exec) == [] {
      NothingTaken(params, Exec);
      RemoveOneMore(t.exec, Taken(params, Exec), p.name);
    }
  }

  lemma BindOther(t: Target, netOk: string -> bool, params: seq<Param>, p: Param)
    requires Compatible(t, netOk, params) && KindOf(p) in {Ambient, SecretStore, Unsupported}
    ensures BindParam(BuildingOf(t, params), netOk, p) ==
      if Compatible(t, netOk, params + [p]) then Some(BuildingOf(t, params + [p])) else None
  {
    hide Compatible, BuildingOf, KindOf, Args, Sort;
    CompatibleStep(t, netOk, params, p);
    BuildingKeeps(t, params, p);
  }

  lemma BindOne(t: Target, netOk: string -> bool, params: seq<Param>, p: Param)
    requires Compatible(t, netOk, params)
    ensures BindParam(BuildingOf(t, params), netOk, p) ==
      if Compatible(t, netOk, params + [p]) then Some(BuildingOf(t, params + [p])) else None
  {
    hide Compatible, BuildingOf, BindParam;
    var kind := KindOf(p);
    if kind == Dir { BindDir(t, netOk, params, p); }
    else if kind == File { BindFile(t, netOk, params, p); }
    else if kind == Net { BindNet(t, netOk, params, p); }
    else if kind == Env { BindEnv(t, netOk, params, p); }
    else if kind == Exec { BindExec(t, netOk, params, p); }
    else { BindOther(t, netOk, params, p); }
  }

  // Parameters that are compatible all together are so from the start.
  lemma {:induction false} CompatiblePrefix(t: Target, netOk: string -> bool, params: seq<Param>, k: nat)
    requires k <= |params| && Compatible(t, netOk, params)
    ensures Compatible(t, netOk, params[..k])
    decreases |params| - k
  {
    hide Usable, NamesIn, Distinct;
    if k == |params| {
      assert params[..k] == params;
    } else {
      CompatiblePrefix(t, netOk, params, k + 1);
      assert params[..k + 1] == params[..k] + [params[k]];
      CompatibleShrinks(t, netOk, params[..k], params[k]);
    }
  }

  lemma CompatibleShrinks(t: Target, netOk: string -> bool, params: seq<Param>, p: Param)
    requires Compatible(t, netOk, params + [p])
    ensures Compatible(t, netOk, params)
  {
    hide Usable, Select, NamesIn, Distinct;
    UsableStep(t, netOk, params, p);
    SelectSteps(params, p);
    TakeStep(Select(params, KindOf(p)), p);
  }

  // ---------- the whole check ----------

  // The providers of secrets name an environment variable.
  predicate KnownProviders(secrets: map<string, string>) {
    forall name :: name in secrets ==> "env:" < secrets[name]
  }

  // When `main` and the configuration fit together.
  ghost predicate Fits(t: Target, netOk: string -> bool, params: seq<Param>) {
    && Compatible(t, netOk, params)
    && t.dirs.Keys == Taken(params, Dir)
    && t.files.Keys == Taken(params, File)
    && t.env.Keys == Taken(params, Env)
    && t.net.Keys == Taken(params, Net)
    && t.exec.Keys == Taken(params, Exec)
    && (Select(params, Exec) != [] ==>
          exists i :: 0 <= i < |params| && KindOf(params[i]) == Dir && GrantsRight(Args(params[i]), "Read"))
    && (t.secrets != map[] ==> Select(params, SecretStore) != [])
    && KnownProviders(t.secrets)
  }

  predicate NothingLeft(t: Target) {
    t.dirs == map[] && t.files == map[] && t.env == map[] && t.net == map[] && t.exec == map[]
  }

  lemma {:induction false} SelectMembers(params: seq<Param>, kind: Kind, p: Param)
    ensures p in Select(params, kind) <==> p in params && KindOf(p) == kind
  {
    if params != [] {
      var front := params[..|params| - 1];
      SelectMembers(front, kind, p);
      assert params == front + [params[|params| - 1]];
    }
  }

  // A readable directory is in the plan exactly when it is among the parameters.
  lemma ReadableDirs(t: Target, params: seq<Param>)
    ensures (exists d :: d in PlanOf(t, params).dirs && d.rights.read) <==>
      exists i :: 0 <= i < |params| && KindOf(params[i]) == Dir && GrantsRight(Args(params[i]), "Read")
  {
    hide Select, GrantsRight;
    var selected := Select(params, Dir);
    var dirs := MapDirs(t, selected);
    if exists d :: d in dirs && d.rights.read {
      var k :| 0 <= k < |dirs| && dirs[k].rights.read;
      assert selected[k] in selected;
      SelectMembers(params, Dir, selected[k]);
      var i :| 0 <= i < |params| && params[i] == selected[k];
    }
    if exists i :: 0 <= i < |params| && KindOf(params[i]) == Dir && GrantsRight(Args(params[i]), "Read") {
      var i :| 0 <= i < |params| && KindOf(params[i]) == Dir && GrantsRight(Args(params[i]), "Read");
      SelectMembers(params, Dir, params[i]);
      var k :| 0 <= k < |selected| && selected[k] == params[i];
      assert dirs[k] in dirs && dirs[k].rights.read;
    }
  }

  // Nothing is left over exactly when every configured name was taken.
  lemma LeftoversDecide(t: Target, netOk: string -> bool, params: seq<Param>)
    requires Compatible(t, netOk, params)
    ensures NothingLeft(BuildingOf(t, params).target) <==>
      && t.dirs.Keys == Taken(params, Dir) && t.files.Keys == Taken(params, File)
      && t.env.Keys == Taken(params, Env) && t.net.Keys == Taken(params, Net)
      && t.exec.Keys == Taken(params, Exec)
  {
    hide Select, Taken, PlanOf, Compatible;
    TakenIsConfigured(t, netOk, params);
    EmptyAfterRemoving(t.dirs, Taken(params, Dir));
    EmptyAfterRemoving(t.files, Taken(params, File));
    EmptyAfterRemoving(t.env, Taken(params, Env));
    EmptyAfterRemoving(t.net, Taken(params, Net));
    EmptyAfterRemoving(t.exec, Taken(params, Exec));
  }

  lemma EmptyAfterRemoving<V>(m: map<string, V>, taken: set<string>)
    ensures m - taken == map[] <==> m.Keys <= taken
  {
    if m.Keys <= taken {
      assert (m - taken).Keys == {};
    } else {
      var k :| k in m.Keys && k !in taken;
      assert k in m - taken;
    }
  }

  lemma TakenIsConfigured(t: Target, netOk: string -> bool, params: seq<Param>)
    requires Compatible(t, netOk, params)
    ensures Taken(params, Dir) <= t.dirs.Keys && Taken(params, File) <= t.files.Keys
    ensures Taken(params, Env) <= t.env.Keys && Taken(params, Net) <= t.net.Keys
    ensures Taken(params, Exec) <= t.exec.Keys
  {
    hide Select, Distinct, KnownRights, Allowed, Taken;
    forall name | name in Taken(params, Dir) ensures name in t.dirs { var p := TakenBy(params, Dir, name); }
    forall name | name in Taken(params, File) ensures name in t.files { var p := TakenBy(params, File, name); }
    forall name | name in Taken(params, Env) ensures name in t.env { var p := TakenBy(params, Env, name); }
    forall name | name in Taken(params, Net) ensures name in t.net { var p := TakenBy(params, Net, name); }
    forall name | name in Taken(params, Exec) ensures name in t.exec { var p := TakenBy(params, Exec, name); }
  }

  lemma TakenBy(params: seq<Param>, kind: Kind, name: string) returns (p: Param)
    requires name in Taken(params, kind)
    ensures p in params && KindOf(p) == kind && p.name == name
  {
    hide Select;
    var selected := Select(params, kind);
    var i :| 0 <= i < |selected| && NamesIn(selected)[i] == name;
    p := selected[i];
    SelectMembers(params, kind, p);
  }

  // Build the plan, or refuse. It is built exactly when `main` and the target
  // fit together, by kinds and by the names of types alike, and then it is the
  // plan they determine.
  method BuildBindingPlan(target0: Target, netOk: string -> bool, params: seq<Param>) returns (r: Option<Plan>)
    ensures r.Some? <==> Fits(target0, netOk, params)
    ensures r.Some? <==> FitsMain(target0, netOk, params)
    ensures r.Some? ==> r.value == PlanOf(target0, params)
  {
    hide Compatible, BuildingOf, BindParam, PlanOf, Select, Taken, FitsMain;
    FitsIff(target0, netOk, params);
    var b := Building(target0, Plan([], [], None, [], None), 0);
    StartBuilding(target0, netOk);
    assert params[..0] == [];
    for k := 0 to |params|
      invariant Compatible(target0, netOk, params[..k])
      invariant b == BuildingOf(target0, params[..k])
    {
      BindOne(target0, netOk, params[..k], params[k]);
      assert params[..k + 1] == params[..k] + [params[k]];
      var bound := BindParameter(b, netOk, params[k]);
      if bound.None? {
        if Compatible(target0, netOk, params) {
          CompatiblePrefix(target0, netOk, params, k + 1);
        }
        return None;
      }
      b := bound.value;
    }
    assert params[..|params|] == params;
    ReadableDirs(target0, params);
    LeftoversDecide(target0, netOk, params);
    BuildingParts(target0, params);
    if b.plan.exec.Some? && !exists d :: d in b.plan.dirs && d.rights.read {
      return None;
    }
    if b.stores == 0 && b.target.secrets != map[] {
      return None;
    }
    if !NothingLeft(b.target) {
      return None;
    }
    if !KnownProviders(b.target.secrets) {
      return None;
    }
    return Some(b.plan);
  }

  lemma StartBuilding(t: Target, netOk: string -> bool)
    ensures Compatible(t, netOk, [])
    ensures BuildingOf(t, []) == Building(t, Plan([], [], None, [], None), 0)
  {
  }

  lemma BuildingParts(t: Target, params: seq<Param>)
    ensures var b := BuildingOf(t, params);
      && b.plan == PlanOf(t, params)
      && b.stores == |Select(params, SecretStore)|
      && b.target.secrets == t.secrets
      && (b.plan.exec.Some? <==> Select(params, Exec) != [])
  {
  }

  // ---------- what a plan holds ----------

  // Directories, files and network grants come in parameter order, each once;
  // the environment grant lists the configured variables in strictly ascending
  // order, none added or lost.
  lemma PlanKeepsNames(t: Target, netOk: string -> bool, params: seq<Param>)
    requires Fits(t, netOk, params)
    ensures var plan := PlanOf(t, params);
      && |plan.dirs| == |Select(params, Dir)| && |plan.files| == |Select(params, File)|
      && |plan.net| == |Select(params, Net)|
      && (forall i :: 0 <= i < |plan.dirs| ==> plan.dirs[i].name == Select(params, Dir)[i].name)
      && (forall i :: 0 <= i < |plan.files| ==> plan.files[i].name == Select(params, File)[i].name)
      && (forall i :: 0 <= i < |plan.net| ==> plan.net[i].name == Select(params, Net)[i].name)
      && (plan.env.Some? ==>
            && plan.env.value.name in t.env
            && StrictlyAscending(plan.env.value.names)
            && Elements(plan.env.value.names) == Elements(t.env[plan.env.value.name]))
      && (plan.env.None? <==> t.env == map[])
  {
    hide Select, Usable, Dedup, Sort;
    if Select(params, Env) != [] {
      var p := Select(params, Env)[0];
      assert NamesIn(Select(params, Env))[0] == p.name;
      assert p.name in t.env;
      SortAscends(t.env[p.name]);
      DedupAscends(Sort(t.env[p.name]));
      SameMultisetDistinct(Sort(t.env[p.name]), t.env[p.name]);
    } else {
      NothingTaken(params, Env);
      assert t.env.Keys == {};
    }
  }

  // Every entry of the plan carries what is configured under its name, and a
  // directory or file exactly the rights its parameter's type names.
  lemma PlanKeepsBindings(t: Target, netOk: string -> bool, params: seq<Param>)
    requires Fits(t, netOk, params)
    ensures var plan := PlanOf(t, params);
      && (forall i :: 0 <= i < |plan.dirs| ==>
            && plan.dirs[i].name in t.dirs && plan.dirs[i].source == t.dirs[plan.dirs[i].name]
            && (plan.dirs[i].rights.read <==> GrantsRight(Args(Select(params, Dir)[i]), "Read"))
            && (plan.dirs[i].rights.write <==> GrantsRight(Args(Select(params, Dir)[i]), "Write")))
      && (forall i :: 0 <= i < |plan.files| ==>
            && plan.files[i].name in t.files && plan.files[i].path == t.files[plan.files[i].name] != ""
            && (plan.files[i].rights.read <==> GrantsRight(Args(Select(params, File)[i]), "Read"))
            && (plan.files[i].rights.write <==> GrantsRight(Args(Select(params, File)[i]), "Write")))
      && (forall i :: 0 <= i < |plan.net| ==>
            && plan.net[i].name in t.net
            && (t.net[plan.net[i].name].AnyAddress? ==> plan.net[i].allow == ANYWHERE)
            && (t.net[plan.net[i].name].Addresses? ==> plan.net[i].allow == t.net[plan.net[i].name].addresses)
            && (forall a :: a in plan.net[i].allow ==> netOk(a)))
      && (plan.exec.Some? ==>
            && plan.exec.value.name in t.exec
            && plan.exec.value.childPaths == t.exec[plan.exec.value.name].childPaths
            && (t.exec[plan.exec.value.name].AnyProgram? <==> plan.exec.value.programs.None?)
            && (plan.exec.value.programs.Some? ==>
                  plan.exec.value.programs.value == t.exec[plan.exec.value.name].programs))
  {
    hide Select, KindOf, Args, GrantsRight, KnownRights, Dedup, Sort, Taken, NamesIn, Distinct;
    forall i | 0 <= i < |Select(params, Dir)|
      ensures Usable(t, netOk, Select(params, Dir)[i]) && KindOf(Select(params, Dir)[i]) == Dir
    {
      SelectedIsUsable(t, netOk, params, Dir, i);
    }
    forall i | 0 <= i < |Select(params, File)|
      ensures Usable(t, netOk, Select(params, File)[i]) && KindOf(Select(params, File)[i]) == File
    {
      SelectedIsUsable(t, netOk, params, File, i);
    }
    forall i | 0 <= i < |Select(params, Net)|
      ensures Usable(t, netOk, Select(params, Net)[i]) && KindOf(Select(params, Net)[i]) == Net
    {
      SelectedIsUsable(t, netOk, params, Net, i);
    }
    if Select(params, Exec) != [] {
      SelectedIsUsable(t, netOk, params, Exec, 0);
    }
  }

  lemma SelectedIsUsable(t: Target, netOk: string -> bool, params: seq<Param>, kind: Kind, i: nat)
    requires Compatible(t, netOk, params) && i < |Select(params, kind)|
    ensures Usable(t, netOk, Select(params, kind)[i]) && KindOf(Select(params, kind)[i]) == kind
  {
    hide Select, Usable, KindOf, Distinct;
    var p := Select(params, kind)[i];
    SelectMembers(params, kind, p);
    var k :| 0 <= k < |params| && params[k] == p;
  }

  // ---------- fitting together, by the names of types ----------

  // The annotated type of a parameter, qualifiers aside, has a name.
  predicate AsksFor(p: Param, typeName: string) {
    p.ty.Some? && Unqualified(p.ty.value).Named? && Unqualified(p.ty.value).name == typeName
  }

  predicate IsArguments(p: Param) {
    AsksFor(p, "List") && Args(p) == [Named("String", [])]
  }

  // Which type asks for which kind.
  lemma KindByType(p: Param)
    ensures KindOf(p) == Dir <==> AsksFor(p, "Dir")
    ensures KindOf(p) == File <==> AsksFor(p, "File")
    ensures KindOf(p) == Env <==> AsksFor(p, "Env")
    ensures KindOf(p) == Net <==> AsksFor(p, "Net")
    ensures KindOf(p) == Exec <==> AsksFor(p, "Exec")
    ensures KindOf(p) == SecretStore <==> AsksFor(p, "SecretStore")
    ensures KindOf(p) == Ambient <==>
      AsksFor(p, "Console") || AsksFor(p, "Clock") || AsksFor(p, "Rand") || IsArguments(p)
    ensures p.ty.Some? ==> KindOf(p.(ty := Some(Qualified(p.ty.value)))) == KindOf(p)
  {
  }

  // Qualifiers are taken off, however many there are, and nothing else is.
  lemma {:induction false} UnqualifiedStrips(ty: Type)
    ensures !Unqualified(ty).Qualified?
    ensures !ty.Qualified? ==> Unqualified(ty) == ty
    ensures Unqualified(Qualified(ty)) == Unqualified(ty)
  {
    if ty.Qualified? {
      UnqualifiedStrips(ty.inner);
    }
  }

  ghost predicate HasRight(p: Param, right: string) {
    exists arg :: arg in Args(p) && Unqualified(arg) == Named(right, [])
  }

  ghost predicate OnlyRights(p: Param) {
    forall arg :: arg in Args(p) ==> Unqualified(arg) == Named("Read", []) || Unqualified(arg) == Named("Write", [])
  }

  lemma RightsByName(p: Param)
    ensures OnlyRights(p) <==> KnownRights(Args(p))
    ensures forall right :: HasRight(p, right) <==> GrantsRight(Args(p), right)
  {
    hide Unqualified;
    var args := Args(p);
    if OnlyRights(p) {
      forall i | 0 <= i < |args| ensures IsRight(args[i], "Read") || IsRight(args[i], "Write") {
        assert args[i] in args;
      }
    }
    forall right ensures HasRight(p, right) <==> GrantsRight(args, right) {
      if GrantsRight(args, right) {
        var i :| 0 <= i < |args| && IsRight(args[i], right);
        assert args[i] in args;
      }
    }
  }

  // A parameter can be given a value: it needs no binding, or the binding of
  // its name is there and complete.
  ghost predicate Served(t: Target, netOk: string -> bool, p: Param) {
    || AsksFor(p, "Console") || AsksFor(p, "Clock") || AsksFor(p, "Rand") || IsArguments(p)
    || AsksFor(p, "SecretStore")
    || (AsksFor(p, "Env") && p.name in t.env && forall name :: name in t.env[p.name] ==> name != "")
    || (AsksFor(p, "Dir") && p.name in t.dirs && t.dirs[p.name] != At("") && OnlyRights(p))
    || (AsksFor(p, "File") && p.name in t.files && t.files[p.name] != "" && OnlyRights(p))
    || (AsksFor(p, "Net") && p.name in t.net &&
        match t.net[p.name]
        case AnyAddress => netOk("0.0.0.0/0:*") && netOk("::/0:*")
        case Addresses(addresses) => forall address :: address in addresses ==> netOk(address))
    || (AsksFor(p, "Exec") && p.name in t.exec && forall path :: path in t.exec[p.name].childPaths ==> path != "")
  }

  lemma UsableIsServed(t: Target, netOk: string -> bool, p: Param)
    ensures Usable(t, netOk, p) <==> Served(t, netOk, p)
  {
    KindByType(p);
    RightsByName(p);
    hide KindOf, AsksFor, IsArguments, Args, OnlyRights, KnownRights;
    if p.name in t.net && t.net[p.name].AnyAddress? {
      assert "0.0.0.0/0:*" in ANYWHERE && "::/0:*" in ANYWHERE;
    }
  }

  // ---------- parameters by position ----------

  ghost predicate Asked(params: seq<Param>, typeName: string, name: string) {
    exists i :: 0 <= i < |params| && AsksFor(params[i], typeName) && params[i].name == name
  }

  ghost predicate SomeAsks(params: seq<Param>, typeName: string) {
    exists i :: 0 <= i < |params| && AsksFor(params[i], typeName)
  }

  ghost predicate NamesApart(params: seq<Param>, typeName: string) {
    forall i, j :: 0 <= i < j < |params| && AsksFor(params[i], typeName) && AsksFor(params[j], typeName) ==>
      params[i].name != params[j].name
  }

  ghost predicate AtMostOneAsks(params: seq<Param>, typeName: string) {
    forall i, j :: 0 <= i < j < |params| ==> !(AsksFor(params[i], typeName) && AsksFor(params[j], typeName))
  }

  // The kind stands for the type of that name.
  ghost predicate Stands(kind: Kind, typeName: string) {
    forall p :: KindOf(p) == kind <==> AsksFor(p, typeName)
  }

  lemma KindsStand()
    ensures Stands(Dir, "Dir") && Stands(File, "File") && Stands(Env, "Env") && Stands(Net, "Net")
    ensures Stands(Exec, "Exec") && Stands(SecretStore, "SecretStore")
  {
    hide KindOf, AsksFor;
    forall p ensures KindOf(p) == Dir <==> AsksFor(p, "Dir") { KindByType(p); }
    forall p ensures KindOf(p) == File <==> AsksFor(p, "File") { KindByType(p); }
    forall p ensures KindOf(p) == Env <==> AsksFor(p, "Env") { KindByType(p); }
    forall p ensures KindOf(p) == Net <==> AsksFor(p, "Net") { KindByType(p); }
    forall p ensures KindOf(p) == Exec <==> AsksFor(p, "Exec") { KindByType(p); }
    forall p ensures KindOf(p) == SecretStore <==> AsksFor(p, "SecretStore") { KindByType(p); }
  }

  // The parameters of a kind, by position: in order and all of them.
  lemma {:induction false} SelectPositions(params: seq<Param>, kind: Kind) returns (at: seq<nat>)
    ensures |at| == |Select(params, kind)|
    ensures forall i :: 0 <= i < |at| ==> at[i] < |params| && Select(params, kind)[i] == params[at[i]]
    ensures forall i, j :: 0 <= i < j < |at| ==> at[i] < at[j]
    ensures forall k: nat :: k < |params| ==> (k in at <==> KindOf(params[k]) == kind)
  {
    if params == [] {
      at := [];
    } else {
      hide KindOf;
      var last := |params| - 1;
      var front := params[..last];
      at := SelectPositions(front, kind);
      assert forall k :: 0 <= k < last ==> front[k] == params[k];
      if KindOf(params[last]) == kind {
        at := at + [last];
      }
    }
  }

  lemma SelectionByPosition(params: seq<Param>, kind: Kind, typeName: string)
    requires Stands(kind, typeName)
    ensures forall name :: name in Taken(params, kind) <==> Asked(params, typeName, name)
    ensures Select(params, kind) != [] <==> SomeAsks(params, typeName)
    ensures Distinct(NamesIn(Select(params, kind))) <==> NamesApart(params, typeName)
    ensures |Select(params, kind)| <= 1 <==> AtMostOneAsks(params, typeName)
  {
    var at := SelectPositions(params, kind);
    hide Select, KindOf, AsksFor;
    var selected := Select(params, kind);
    forall name ensures name in Taken(params, kind) <==> Asked(params, typeName, name) {
      if name in Taken(params, kind) {
        var p := TakenBy(params, kind, name);
      }
      if Asked(params, typeName, name) {
        var i: nat :| 0 <= i < |params| && AsksFor(params[i], typeName) && params[i].name == name;
        var k := PositionOf(at, i);
        assert NamesIn(selected)[k] == name;
      }
    }
    PositionsApart(params, kind, typeName, at);
    PositionsSingle(params, kind, typeName, at);
  }

  lemma PositionOf(at: seq<nat>, i: nat) returns (k: nat)
    requires i in at
    ensures k < |at| && at[k] == i
  {
    k :| 0 <= k < |at| && at[k] == i;
  }

  // Positions of the parameters that ask for a type, in order and all of them.
  ghost predicate Positions(params: seq<Param>, typeName: string, at: seq<nat>) {
    && (forall i :: 0 <= i < |at| ==> at[i] < |params|)
    && (forall i, j :: 0 <= i < j < |at| ==> at[i] < at[j])
    && (forall k: nat :: k < |params| ==> (k in at <==> AsksFor(params[k], typeName)))
  }

  lemma PositionsApart(params: seq<Param>, kind: Kind, typeName: string, at: seq<nat>)
    requires Stands(kind, typeName) && Positions(params, typeName, at)
    requires |at| == |Select(params, kind)|
    requires forall i :: 0 <= i < |at| ==> Select(params, kind)[i] == params[at[i]]
    ensures Distinct(NamesIn(Select(params, kind))) <==> NamesApart(params, typeName)
  {
    hide Select, KindOf, AsksFor, Stands;
    var names := NamesIn(Select(params, kind));
    if Distinct(names) {
      forall i: nat, j: nat | i < j < |params| && AsksFor(params[i], typeName) && AsksFor(params[j], typeName)
        ensures params[i].name != params[j].name
      {
        var a := PositionOf(at, i);
        var b := PositionOf(at, j);
        assert names[a] != names[b];
      }
    }
    if NamesApart(params, typeName) {
      forall a, b | 0 <= a < b < |names| ensures names[a] != names[b] {
        assert at[a] in at && at[b] in at;
      }
    }
  }

  lemma PositionsSingle(params: seq<Param>, kind: Kind, typeName: string, at: seq<nat>)
    requires Positions(params, typeName, at) && |at| == |Select(params, kind)|
    ensures |at| <= 1 <==> AtMostOneAsks(params, typeName)
    ensures at != [] <==> SomeAsks(params, typeName)
  {
    hide Select, AsksFor;
    if |at| >= 2 {
      assert at[0] in at && at[1] in at;
    }
    if at != [] {
      assert at[0] in at;
    }
    if |at| <= 1 {
      forall i: nat, j: nat | i < j < |params|
        ensures !(AsksFor(params[i], typeName) && AsksFor(params[j], typeName))
      {
      }
    }
  }

  // ---------- the reference ----------

  // `main` and the configuration fit: every parameter is served, no two share a
  // binding, every binding is asked for, programs come with a readable directory
  // and secrets with a store and a provider.
  ghost predicate FitsMain(t: Target, netOk: string -> bool, params: seq<Param>) {
    && (forall i :: 0 <= i < |params| ==> Served(t, netOk, params[i]))
    && NamesApart(params, "Dir") && NamesApart(params, "File") && NamesApart(params, "Net")
    && AtMostOneAsks(params, "Env") && AtMostOneAsks(params, "Exec")
    && (forall name :: name in t.dirs ==> Asked(params, "Dir", name))
    && (forall name :: name in t.files ==> Asked(params, "File", name))
    && (forall name :: name in t.env ==> Asked(params, "Env", name))
    && (forall name :: name in t.net ==> Asked(params, "Net", name))
    && (forall name :: name in t.exec ==> Asked(params, "Exec", name))
    && (SomeAsks(params, "Exec") ==>
          exists i :: 0 <= i < |params| && AsksFor(params[i], "Dir") && HasRight(params[i], "Read"))
    && (t.secrets != map[] ==> SomeAsks(params, "SecretStore"))
    && (forall name :: name in t.secrets ==> |t.secrets[name]| > 4 && t.secrets[name][..4] == "env:")
  }

  lemma CompatibleByType(t: Target, netOk: string -> bool, params: seq<Param>)
    ensures Compatible(t, netOk, params) <==>
      && (forall i :: 0 <= i < |params| ==> Served(t, netOk, params[i]))
      && NamesApart(params, "Dir") && NamesApart(params, "File") && NamesApart(params, "Net")
      && AtMostOneAsks(params, "Env") && AtMostOneAsks(params, "Exec")
  {
    hide Usable, Served, Select, NamesIn, Distinct, NamesApart, AtMostOneAsks, Stands, Taken, Asked;
    KindsStand();
    SelectionByPosition(params, Dir, "Dir");
    SelectionByPosition(params, File, "File");
    SelectionByPosition(params, Net, "Net");
    SelectionByPosition(params, Env, "Env");
    SelectionByPosition(params, Exec, "Exec");
    forall i | 0 <= i < |params| ensures Usable(t, netOk, params[i]) <==> Served(t, netOk, params[i]) {
      UsableIsServed(t, netOk, params[i]);
    }
  }

  lemma ReadableByType(params: seq<Param>)
    ensures (exists i :: 0 <= i < |params| && KindOf(params[i]) == Dir && GrantsRight(Args(params[i]), "Read")) <==>
      exists i :: 0 <= i < |params| && AsksFor(params[i], "Dir") && HasRight(params[i], "Read")
  {
    hide KindOf, AsksFor, Args, GrantsRight, HasRight;
    forall i | 0 <= i < |params|
      ensures KindOf(params[i]) == Dir <==> AsksFor(params[i], "Dir")
      ensures HasRight(params[i], "Read") <==> GrantsRight(Args(params[i]), "Read")
    {
      KindByType(params[i]);
      RightsByName(params[i]);
    }
  }

  lemma ProvidersByPrefix(secrets: map<string, string>)
    ensures KnownProviders(secrets) <==>
      forall name :: name in secrets ==> |secrets[name]| > 4 && secrets[name][..4] == "env:"
  {
  }

  // Every configured name is taken exactly when it is asked for.
  lemma KeysAreTakenIff<V>(m: map<string, V>, params: seq<Param>, kind: Kind, typeName: string)
    requires Stands(kind, typeName) && Taken(params, kind) <= m.Keys
    ensures m.Keys == Taken(params, kind) <==> forall name :: name in m ==> Asked(params, typeName, name)
  {
    hide Select, Taken, Asked, Stands;
    SelectionByPosition(params, kind, typeName);
  }

  lemma SectionsByType(t: Target, netOk: string -> bool, params: seq<Param>)
    requires Compatible(t, netOk, params)
    ensures t.dirs.Keys == Taken(params, Dir) <==> forall name :: name in t.dirs ==> Asked(params, "Dir", name)
    ensures t.files.Keys == Taken(params, File) <==> forall name :: name in t.files ==> Asked(params, "File", name)
    ensures t.env.Keys == Taken(params, Env) <==> forall name :: name in t.env ==> Asked(params, "Env", name)
    ensures t.net.Keys == Taken(params, Net) <==> forall name :: name in t.net ==> Asked(params, "Net", name)
    ensures t.exec.Keys == Taken(params, Exec) <==> forall name :: name in t.exec ==> Asked(params, "Exec", name)
  {
    hide Compatible, Taken, Asked, Stands;
    KindsStand();
    TakenIsConfigured(t, netOk, params);
    KeysAreTakenIff(t.dirs, params, Dir, "Dir");
    KeysAreTakenIff(t.files, params, File, "File");
    KeysAreTakenIff(t.env, params, Env, "Env");
    KeysAreTakenIff(t.net, params, Net, "Net");
    KeysAreTakenIff(t.exec, params, Exec, "Exec");
  }

  lemma PresenceByType(params: seq<Param>)
    ensures Select(params, Exec) != [] <==> SomeAsks(params, "Exec")
    ensures Select(params, Env) != [] <==> SomeAsks(params, "Env")
    ensures Select(params, SecretStore) != [] <==> SomeAsks(params, "SecretStore")
  {
    hide Select, SomeAsks, Stands;
    KindsStand();
    SelectionByPosition(params, Exec, "Exec");
    SelectionByPosition(params, Env, "Env");
    SelectionByPosition(params, SecretStore, "SecretStore");
  }

  // A plan is built exactly when `main` and the configuration fit in this sense.
  lemma FitsIff(t: Target, netOk: string -> bool, params: seq<Param>)
    ensures Fits(t, netOk, params) <==> FitsMain(t, netOk, params)
  {
    hide Compatible, Served, Select, NamesApart, AtMostOneAsks, Taken, Asked, SomeAsks,
         KindOf, AsksFor, Args, HasRight, GrantsRight, KnownProviders;
    CompatibleByType(t, netOk, params);
    PresenceByType(params);
    ReadableByType(params);
    ProvidersByPrefix(t.secrets);
    if Compatible(t, netOk, params) {
      SectionsByType(t, netOk, params);
    }
  }

  lemma PositionsOfKind(params: seq<Param>, kind: Kind, typeName: string) returns (at: seq<nat>)
    requires Stands(kind, typeName)
    ensures Positions(params, typeName, at)
    ensures |at| == |Select(params, kind)| && forall i :: 0 <= i < |at| ==> Select(params, kind)[i] == params[at[i]]
  {
    hide Select, KindOf, AsksFor;
    at := SelectPositions(params, kind);
  }

  lemma RightsOfSelected(params: seq<Param>, kind: Kind, at: seq<nat>)
    requires |at| == |Select(params, kind)|
    requires forall i :: 0 <= i < |at| ==> at[i] < |params| && Select(params, kind)[i] == params[at[i]]
    ensures forall i :: 0 <= i < |at| ==>
      && (RightsOf(Args(Select(params, kind)[i])).read <==> HasRight(params[at[i]], "Read"))
      && (RightsOf(Args(Select(params, kind)[i])).write <==> HasRight(params[at[i]], "Write"))
  {
    hide Select, Args, HasRight, GrantsRight;
    forall i | 0 <= i < |at|
      ensures RightsOf(Args(Select(params, kind)[i])).read <==> HasRight(params[at[i]], "Read")
      ensures RightsOf(Args(Select(params, kind)[i])).write <==> HasRight(params[at[i]], "Write")
    {
      RightsByName(params[at[i]]);
    }
  }

  // Every list of grants follows the parameters that ask for it: one grant each,
  // in their order, under their name, with the rights their type names.
  lemma PlanFollowsMain(t: Target, params: seq<Param>) returns (dirs: seq<nat>, files: seq<nat>, nets: seq<nat>)
    ensures Positions(params, "Dir", dirs) && Positions(params, "File", files) && Positions(params, "Net", nets)
    ensures var plan := PlanOf(t, params);
      && |plan.dirs| == |dirs| && |plan.files| == |files| && |plan.net| == |nets|
      && (forall i :: 0 <= i < |dirs| ==>
            && plan.dirs[i].name == params[dirs[i]].name
            && (plan.dirs[i].rights.read <==> HasRight(params[dirs[i]], "Read"))
            && (plan.dirs[i].rights.write <==> HasRight(params[dirs[i]], "Write")))
      && (forall i :: 0 <= i < |files| ==>
            && plan.files[i].name == params[files[i]].name
            && (plan.files[i].rights.read <==> HasRight(params[files[i]], "Read"))
            && (plan.files[i].rights.write <==> HasRight(params[files[i]], "Write")))
      && (forall i :: 0 <= i < |nets| ==> plan.net[i].name == params[nets[i]].name)
      && (plan.env.Some? <==> SomeAsks(params, "Env")) && (plan.exec.Some? <==> SomeAsks(params, "Exec"))
  {
    hide Select, Stands, AsksFor, HasRight, RightsOf, Args, SomeAsks, Dedup, Sort, Allowed;
    KindsStand();
    PresenceByType(params);
    dirs := PositionsOfKind(params, Dir, "Dir");
    files := PositionsOfKind(params, File, "File");
    nets := PositionsOfKind(params, Net, "Net");
    RightsOfSelected(params, Dir, dirs);
    RightsOfSelected(params, File, files);
  }
}
