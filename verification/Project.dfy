/** `Add` and `Upgrade` of internal/scaffold/scaffold.go: several writes to a small file tree, each
    of which can be the last one that happens. */
module Project {
  import opened Wrappers
  import opened Text
  import opened Catalog
  import GoMod

  const METADATA_FORMAT := 1

  /** The manifest as a value; the names in it are not yet validated. */
  datatype Manifest = Manifest(format: int, framework: string, modules: seq<string>)

  datatype MetaFile = Encoded(manifest: Manifest) | Malformed

  /** The file that a module installs at `index` in its list of files. */
  datatype Target = Target(module_: Module, index: nat)

  /** A module file: its template rendered with a module path, or what a broken write left. */
  datatype TargetFile = Rendered(modulePath: string) | Partial

  /** The files of a project that Add and Upgrade read or write: app/routes.go, go.mod,
      .wahoo/project.json, .wahoo/modules.json and the module files. */
  datatype Tree = Tree(
    routes: Option<string>,
    goMod: Option<string>,
    metadata: Option<MetaFile>,
    legacy: Option<MetaFile>,
    targets: map<Target, TargetFile>)

  datatype Error =
    | UnknownModule | NoModules
    | NotAProject | Undecodable | UnsupportedFormat | InvalidManifest
    | NoRoutes | NoMarker | NoGoMod | NoModulePath | TargetExists
    | BadRequirement(cause: GoMod.Error) | InvalidVersion | Io

  datatype Result<T> = Ok(value: T) | Err(error: Error)

  // ---- reading ----

  datatype Metadata = Metadata(format: int, framework: string, modules: seq<Module>)

  function Decode(file: MetaFile): Result<Metadata> {
    match file
    case Malformed => Err(Undecodable)
    case Encoded(m) =>
      if m.format != 0 && m.format != METADATA_FORMAT then Err(UnsupportedFormat)
      else if Parsed(m.modules).None? then Err(InvalidManifest)
      else Ok(Metadata(m.format, m.framework, Parsed(m.modules).value))
  }

  /** readManifest, with the legacy manifest as a fallback. */
  function ReadManifest(t: Tree): Result<Metadata> {
    if t.metadata.Some? then Decode(t.metadata.value)
    else if t.legacy.Some? then Decode(t.legacy.value)
    else Err(NotAProject)
  }

  function ModulePathIn(lines: seq<string>): Option<string> {
    if lines == [] then None
    else
      var fields := Fields(lines[0]);
      if |fields| == 2 && fields[0] == "module" then Some(fields[1]) else ModulePathIn(lines[1..])
  }

  /** projectModulePath. */
  function ModulePath(goMod: string): Option<string> {
    ModulePathIn(Split(goMod, '\n'))
  }

  /** Line k declares a module path: two fields, the first of them "module". */
  predicate Declares(line: string) {
    var fields := Fields(line); |fields| == 2 && fields[0] == "module"
  }

  /** The first line that declares a module path declares this one. */
  ghost predicate DeclaredFirst(lines: seq<string>, path: string) {
    exists k :: 0 <= k < |lines| && Declares(lines[k]) && Fields(lines[k])[1] == path
                && forall j :: 0 <= j < k ==> !Declares(lines[j])
  }

  ghost predicate NotDeclared(lines: seq<string>) {
    forall k :: 0 <= k < |lines| ==> !Declares(lines[k])
  }

  lemma {:induction false} ModulePathAt(lines: seq<string>, path: string)
    ensures ModulePathIn(lines) == None <==> NotDeclared(lines)
    ensures ModulePathIn(lines) == Some(path) <==> DeclaredFirst(lines, path)
  {
    hide Fields;
    if lines != [] {
      var rest := lines[1..];
      ModulePathAt(rest, path);
      assert forall k :: 1 <= k < |lines| ==> lines[k] == rest[k - 1];
      if !Declares(lines[0]) {
        if DeclaredFirst(rest, path) {
          var k :| 0 <= k < |rest| && Declares(rest[k]) && Fields(rest[k])[1] == path
                   && forall j :: 0 <= j < k ==> !Declares(rest[j]);
          assert lines[k + 1] == rest[k];
        }
        if DeclaredFirst(lines, path) {
          var k :| 0 <= k < |lines| && Declares(lines[k]) && Fields(lines[k])[1] == path
                   && forall j :: 0 <= j < k ==> !Declares(lines[j]);
          assert rest[k - 1] == lines[k] && forall j :: 0 <= j < k - 1 ==> rest[j] == lines[j + 1];
        }
        assert NotDeclared(lines) <==> NotDeclared(rest) by {
          assert forall k :: 0 <= k < |rest| ==> rest[k] == lines[k + 1];
        }
      }
    }
  }

  /** The module path is the second field of the first line that declares one. */
  lemma ModulePathIs(goMod: string, path: string)
    ensures ModulePath(goMod) == None <==> NotDeclared(Split(goMod, '\n'))
    ensures ModulePath(goMod) == Some(path) <==> DeclaredFirst(Split(goMod, '\n'), path)
  {
    hide Fields, DeclaredFirst, NotDeclared;
    ModulePathAt(Split(goMod, '\n'), path);
  }

  // ---- Add, when no file operation fails ----

  function TargetsOf(ms: seq<Module>): set<Target> {
    set m, i | m in ms && 0 <= i < FileCount(m) :: Target(m, i)
  }

  datatype Plan = Plan(meta: Metadata, additions: seq<Module>, modulePath: string)

  /** Everything that Add checks before it writes. */
  function PlanAdd(t: Tree, request: seq<string>): Result<Plan> {
    if Parsed(request).None? then Err(UnknownModule)
    else if Parsed(request).value == [] then Err(NoModules)
    else if ReadManifest(t).Err? then Err(ReadManifest(t).error)
    else if t.routes.None? then Err(NoRoutes)
    else if IndexOf(t.routes.value, MARKER) < 0 then Err(NoMarker)
    else if t.goMod.None? then Err(NoGoMod)
    else if ModulePath(t.goMod.value).None? then Err(NoModulePath)
    else
      var meta := ReadManifest(t).value;
      var additions := Additions(meta.modules, Parsed(request).value);
      if exists x :: x in TargetsOf(additions) && x in t.targets then Err(TargetExists)
      else Ok(Plan(meta, additions, ModulePath(t.goMod.value).value))
  }

  function Filled(targets: map<Target, TargetFile>, xs: set<Target>, modulePath: string): map<Target, TargetFile> {
    targets + map x | x in xs :: Rendered(modulePath)
  }

  function WithTargets(targets: map<Target, TargetFile>, ms: seq<Module>, modulePath: string): map<Target, TargetFile> {
    Filled(targets, TargetsOf(ms), modulePath)
  }

  /** The tree after all module files and the routes are written. */
  function Installed(t: Tree, plan: Plan): Tree
    requires t.routes.Some?
  {
    t.(targets := WithTargets(t.targets, plan.additions, plan.modulePath),
       routes := Some(InsertedAll(t.routes.value, plan.additions)))
  }

  function NewManifest(framework: string, ms: seq<Module>): MetaFile {
    Encoded(Manifest(METADATA_FORMAT, framework, Names(ms)))
  }

  /** The result of a whole Add. */
  function Added(t: Tree, request: seq<string>): Result<Tree> {
    var p := PlanAdd(t, request);
    if p.Err? then Err(p.error)
    else if p.value.additions == [] then Ok(t)
    else
      var requirement := GoMod.Replaced(t.goMod.value, "");
      if requirement.Err? then Err(BadRequirement(requirement.error))
      else
        Ok(Installed(t, p.value).(
             metadata := Some(NewManifest(requirement.current, p.value.meta.modules + p.value.additions))))
  }

  // ---- Add, stopped at some file operation ----

  /** Some module files were begun; the routes are as before, or all module files are complete and
      the routes are written. Nothing else changed. */
  ghost predicate Interrupted(t: Tree, plan: Plan, t': Tree)
    requires t.routes.Some?
  {
    && t' == t.(targets := t'.targets, routes := t'.routes)
    && (forall x :: x in t.targets ==> x in t'.targets && t'.targets[x] == t.targets[x])
    && (forall x :: x in t'.targets && x !in t.targets ==> x in TargetsOf(plan.additions))
    && (t'.routes == t.routes || t' == Installed(t, plan))
  }

  ghost predicate AddStopped(t: Tree, request: seq<string>, t': Tree) {
    t' == t || (PlanAdd(t, request).Ok? && Interrupted(t, PlanAdd(t, request).value, t'))
  }

  // ---- consistency ----

  /** All files of m are there and complete. */
  ghost predicate FilesComplete(t: Tree, m: Module) {
    forall i :: 0 <= i < FileCount(m) ==> Target(m, i) in t.targets && t.targets[Target(m, i)].Rendered?
  }

  function RegisteredTimes(t: Tree, m: Module): nat
    requires t.routes.Some?
  {
    Occurrences(t.routes.value, Registration(m))
  }

  /** What every write order keeps: a module that the manifest lists has its files and, if it has a
      registration, that line; a registration line stands in the routes at most once and only with
      all its module's files. */
  ghost predicate ModuleConsistent(t: Tree, m: Module)
    requires t.routes.Some? && ReadManifest(t).Ok?
  {
    && (m in ReadManifest(t).value.modules ==> FilesComplete(t, m) && (m != Jobs ==> RegisteredTimes(t, m) == 1))
    && (m != Jobs ==> RegisteredTimes(t, m) <= 1)
    && (m != Jobs && RegisteredTimes(t, m) > 0 ==> FilesComplete(t, m))
  }

  ghost predicate Consistent(t: Tree) {
    && t.routes.Some?
    && ReadManifest(t).Ok?
    && forall m :: ModuleConsistent(t, m)
  }

  /** A project right after Create without modules. */
  ghost predicate Created(t: Tree) {
    && t.routes.Some? && IndexOf(t.routes.value, MARKER) >= 0
    && (forall m :: m != Jobs ==> Occurrences(t.routes.value, Registration(m)) == 0)
    && t.metadata.Some? && t.metadata.value.Encoded?
    && t.metadata.value.manifest.format == METADATA_FORMAT && t.metadata.value.manifest.modules == []
    && t.targets == map[]
  }

  lemma CreatedIsConsistent(t: Tree)
    requires Created(t)
    ensures Consistent(t)
  {
    hide Occurrences, Registration;
    assert Parts([]) == [];
  }

  lemma PlanFacts(t: Tree, request: seq<string>)
    requires PlanAdd(t, request).Ok?
    ensures var plan := PlanAdd(t, request).value;
            && ReadManifest(t) == Ok(plan.meta)
            && Parsed(request).Some? && t.goMod.Some?
            && NoDuplicates(plan.meta.modules + plan.additions)
            && NoDuplicates(plan.additions)
            && t.routes.Some? && IndexOf(t.routes.value, MARKER) >= 0
            && (forall x :: x in TargetsOf(plan.additions) ==> x !in t.targets)
            && plan.additions == Additions(plan.meta.modules, Parsed(request).value)
  {
    hide MARKER, IndexOf, ModulePath;
    ParsedHasNoDuplicates(request);
    var plan := PlanAdd(t, request).value;
    ManifestHasNoDuplicates(t);
    AdditionsAre(plan.meta.modules, Parsed(request).value);
    NoDuplicatesTogether(plan.meta.modules, plan.additions);
  }

  lemma NoDuplicatesTogether(a: seq<Module>, b: seq<Module>)
    requires NoDuplicates(a) && NoDuplicates(b) && forall m :: m in b ==> m !in a
    ensures NoDuplicates(a + b)
  {
    var all := a + b;
    forall i, j | 0 <= i < j < |all|
      ensures all[i] != all[j]
    {
      if i < |a| <= j {
        assert all[j] == b[j - |a|];
        assert all[j] in b;
      }
    }
  }

  lemma ManifestHasNoDuplicates(t: Tree)
    requires ReadManifest(t).Ok?
    ensures NoDuplicates(ReadManifest(t).value.modules)
  {
    if t.metadata.Some? {
      ParsedHasNoDuplicates(t.metadata.value.manifest.modules);
    } else {
      ParsedHasNoDuplicates(t.legacy.value.manifest.modules);
    }
  }

  lemma NewManifestReads(framework: string, ms: seq<Module>)
    requires NoDuplicates(ms)
    ensures Decode(NewManifest(framework, ms)) == Ok(Metadata(METADATA_FORMAT, framework, ms))
  {
    NamesParseBack(ms);
  }

  /** A module to be added has no registration yet: its files would be there. */
  lemma AdditionUnregistered(t: Tree, request: seq<string>, m: Module)
    requires Consistent(t) && PlanAdd(t, request).Ok? && m in PlanAdd(t, request).value.additions && m != Jobs
    ensures RegisteredTimes(t, m) == 0
  {
    PlanFacts(t, request);
    assert ModuleConsistent(t, m);
    assert Target(m, 0) in TargetsOf(PlanAdd(t, request).value.additions);
  }

  // ---- Add keeps the project consistent, however far it gets ----

  lemma InstalledFiles(t: Tree, plan: Plan, m: Module)
    requires t.routes.Some?
    requires FilesComplete(t, m) || m in plan.additions
    ensures FilesComplete(Installed(t, plan), m)
  {
    if m in plan.additions {
      forall i | 0 <= i < FileCount(m)
        ensures Target(m, i) in TargetsOf(plan.additions)
      {
      }
    }
  }

  lemma InstalledRegistrations(t: Tree, request: seq<string>, m: Module)
    requires PlanAdd(t, request).Ok? && m != Jobs
    ensures var plan := PlanAdd(t, request).value;
            t.routes.Some?
            && RegisteredTimes(Installed(t, plan), m) == RegisteredTimes(t, m) + if m in plan.additions then 1 else 0
  {
    hide PlanAdd, MARKER, Registration, Occurrences, InsertedAll, IndexOf;
    PlanFacts(t, request);
    InsertedAllCount(t.routes.value, PlanAdd(t, request).value.additions, m);
  }

  /** All files and the routes are written; the manifest is still the old one. */
  lemma InstalledKeeps(t: Tree, request: seq<string>, m: Module)
    requires Consistent(t) && PlanAdd(t, request).Ok?
    ensures ReadManifest(Installed(t, PlanAdd(t, request).value)) == ReadManifest(t)
    ensures ModuleConsistent(Installed(t, PlanAdd(t, request).value), m)
    ensures m in PlanAdd(t, request).value.additions ==>
              && FilesComplete(Installed(t, PlanAdd(t, request).value), m)
              && (m != Jobs ==> RegisteredTimes(Installed(t, PlanAdd(t, request).value), m) == 1)
  {
    hide PlanAdd, RegisteredTimes, FilesComplete;
    var plan := PlanAdd(t, request).value;
    assert ModuleConsistent(t, m);
    PlanFacts(t, request);
    AdditionsAre(plan.meta.modules, Parsed(request).value);
    if FilesComplete(t, m) || m in plan.additions {
      InstalledFiles(t, plan, m);
    }
    if m != Jobs {
      InstalledRegistrations(t, request, m);
      if m in plan.additions {
        AdditionUnregistered(t, request, m);
      }
    }
  }

  lemma AddedKeeps(t: Tree, request: seq<string>)
    requires Consistent(t) && Added(t, request).Ok?
    ensures Consistent(Added(t, request).value)
  {
    var t' := Added(t, request).value;
    var plan := PlanAdd(t, request).value;
    if plan.additions != [] {
      PlanFacts(t, request);
      NewManifestReads(GoMod.Replaced(t.goMod.value, "").current, plan.meta.modules + plan.additions);
      forall m
        ensures ModuleConsistent(t', m)
      {
        InstalledKeeps(t, request, m);
        SameFiles(Installed(t, plan), t', m);
        assert ModuleConsistent(Installed(t, plan), m);
      }
    }
  }

  lemma SameFiles(t: Tree, t': Tree, m: Module)
    requires t.targets == t'.targets && t.routes == t'.routes
    ensures FilesComplete(t, m) <==> FilesComplete(t', m)
    ensures t.routes.Some? ==> RegisteredTimes(t, m) == RegisteredTimes(t', m)
  {
  }

  lemma StoppedKeeps(t: Tree, request: seq<string>, t': Tree)
    requires Consistent(t) && AddStopped(t, request, t')
    ensures Consistent(t')
  {
    if t' != t {
      var plan := PlanAdd(t, request).value;
      if t' == Installed(t, plan) {
        forall m
          ensures ModuleConsistent(t', m)
        {
          InstalledKeeps(t, request, m);
        }
      } else {
        assert ReadManifest(t') == ReadManifest(t);
        forall m
          ensures ModuleConsistent(t', m)
        {
          assert ModuleConsistent(t, m);
        }
      }
    }
  }

  // ---- Add composes ----

  lemma {:induction false} AdditionsTwice(installed: seq<Module>, a: seq<Module>, b: seq<Module>)
    ensures var first := Additions(installed, a);
            Additions(installed, Merged(a, b)) == first + Additions(installed + first, b)
  {
    var first := Additions(installed, a);
    AdditionsAppend(installed, a, Additions(a, b));
    AdditionsAre(installed, a);
    AdditionsOfAdditions(installed, a, first, b);
  }

  lemma {:induction false} AdditionsAppend(installed: seq<Module>, a: seq<Module>, b: seq<Module>)
    ensures Additions(installed, a + b) == Additions(installed, a) + Additions(installed, b)
  {
    if a == [] {
      assert a + b == b;
    } else {
      assert (a + b)[1..] == a[1..] + b;
      AdditionsAppend(installed, a[1..], b);
    }
  }

  lemma {:induction false} AdditionsOfAdditions(installed: seq<Module>, a: seq<Module>, first: seq<Module>,
                                                b: seq<Module>)
    requires forall m :: m in first <==> m in a && m !in installed
    ensures Additions(installed, Additions(a, b)) == Additions(installed + first, b)
  {
    if b != [] {
      AdditionsOfAdditions(installed, a, first, b[1..]);
      var rest := Additions(a, b[1..]);
      if b[0] in a {
        assert Additions(a, b) == rest;
      } else {
        assert Additions(a, b) == [b[0]] + rest;
        AdditionsCons(installed, b[0], rest);
      }
      assert b[0] in installed + first <==> b[0] in installed || b[0] in a;
    }
  }

  lemma {:induction false} AdditionsOfInstalled(installed: seq<Module>, ms: seq<Module>)
    requires forall m :: m in ms ==> m in installed
    ensures Additions(installed, ms) == []
  {
    if ms != [] {
      AdditionsOfInstalled(installed, ms[1..]);
    }
  }

  /** What the second of two calls finds. */
  lemma AddedFacts(t: Tree, request: seq<string>)
    requires Added(t, request).Ok?
    ensures var plan, t' := PlanAdd(t, request).value, Added(t, request).value;
            && PlanAdd(t, request).Ok?
            && ReadManifest(t').Ok?
            && ReadManifest(t').value.modules == plan.meta.modules + plan.additions
            && t.routes.Some? && t'.routes == Some(InsertedAll(t.routes.value, plan.additions))
            && IndexOf(t'.routes.value, MARKER) >= 0
            && t'.goMod == t.goMod && t'.legacy == t.legacy
            && t'.targets == WithTargets(t.targets, plan.additions, plan.modulePath)
            && (plan.additions == [] ==> t' == t)
  {
    hide PlanAdd, MARKER, InsertedAll, IndexOf, Decode, Parsed;
    PlanFacts(t, request);
    var plan := PlanAdd(t, request).value;
    if plan.additions == [] {
      NoTargets(t.targets, plan.modulePath);
      InsertedNothing(t.routes.value);
      assert plan.meta.modules + [] == plan.meta.modules;
    } else {
      NewManifestReads(GoMod.Replaced(t.goMod.value, "").current, plan.meta.modules + plan.additions);
      MarkerStays(t.routes.value, plan.additions);
    }
  }

  lemma InsertedNothing(routes: string)
    ensures InsertedAll(routes, []) == routes
  {
  }

  lemma MarkerStays(routes: string, ms: seq<Module>)
    requires IndexOf(routes, MARKER) >= 0
    ensures IndexOf(InsertedAll(routes, ms), MARKER) >= 0
  {
    hide MARKER, InsertedAll, IndexOf;
    var p, s := FindMarker(routes);
    InsertedAllShape(routes, ms, p, s);
    MarkedHasMarker(InsertedAll(routes, ms), p + Registrations(ms), s);
  }

  lemma NoTargets(targets: map<Target, TargetFile>, modulePath: string)
    ensures WithTargets(targets, [], modulePath) == targets
  {
    assert TargetsOf([]) == {};
  }

  lemma TargetsOfBoth(a: seq<Module>, b: seq<Module>)
    ensures TargetsOf(a + b) == TargetsOf(a) + TargetsOf(b)
  {
    assert forall m :: m in a + b <==> m in a || m in b;
  }

  lemma FilledTwice(targets: map<Target, TargetFile>, xs: set<Target>, ys: set<Target>, modulePath: string)
    ensures Filled(Filled(targets, xs, modulePath), ys, modulePath) == Filled(targets, xs + ys, modulePath)
    ensures Filled(targets, xs, modulePath).Keys == targets.Keys + xs
  {
  }

  lemma TargetsTogether(targets: map<Target, TargetFile>, a: seq<Module>, b: seq<Module>, modulePath: string)
    ensures WithTargets(targets, a + b, modulePath) == WithTargets(WithTargets(targets, a, modulePath), b, modulePath)
    ensures TargetsOf(a + b) == TargetsOf(a) + TargetsOf(b)
    ensures WithTargets(targets, a, modulePath).Keys == targets.Keys + TargetsOf(a)
  {
    hide TargetsOf, Filled;
    TargetsOfBoth(a, b);
    FilledTwice(targets, TargetsOf(a), TargetsOf(b), modulePath);
  }

  lemma TogetherFacts(t: Tree, a: seq<string>, b: seq<string>)
    requires Added(t, a).Ok? && PlanAdd(Added(t, a).value, b).Ok?
    ensures PlanAdd(t, a + b).Ok?
    ensures var first, second := PlanAdd(t, a).value, PlanAdd(Added(t, a).value, b).value;
            var both := PlanAdd(t, a + b).value;
            && both.meta == first.meta && both.modulePath == first.modulePath == second.modulePath
            && both.additions == first.additions + second.additions
  {
    hide MARKER, ModulePath, IndexOf, ReadManifest, Parsed, WithTargets, TargetsOf, Added, InsertedAll;
    var t1 := Added(t, a).value;
    AddedFacts(t, a);
    PlanFacts(t, a);
    PlanFacts(t1, b);
    var first, second := PlanAdd(t, a).value, PlanAdd(t1, b).value;
    ParsedTogether(a, b);
    TargetsTogether(t.targets, first.additions, second.additions, first.modulePath);
    AdditionsTwice(first.meta.modules, Parsed(a).value, Parsed(b).value);
  }

  // ---- Add succeeds ----

  /** A project that Add can work on: there is a marker, go.mod names the module and the framework, and
      no file of a module is there that the manifest does not list. */
  ghost predicate Ready(t: Tree) {
    && ReadManifest(t).Ok?
    && t.routes.Some? && IndexOf(t.routes.value, MARKER) >= 0
    && t.goMod.Some? && ModulePath(t.goMod.value).Some? && GoMod.Replaced(t.goMod.value, "").Ok?
    && forall x :: x in t.targets ==> x.module_ in ReadManifest(t).value.modules
  }

  lemma CreatedIsReady(t: Tree)
    requires Created(t)
    ensures Ready(t) <==> t.goMod.Some? && ModulePath(t.goMod.value).Some? && GoMod.Replaced(t.goMod.value, "").Ok?
  {
    hide Occurrences, Registration, GoMod.Replaced, ModulePath, MARKER, IndexOf;
    assert Parts([]) == [];
  }

  lemma ReadyPlan(t: Tree, request: seq<string>)
    requires Ready(t) && Parsed(request).Some? && Parsed(request).value != []
    ensures PlanAdd(t, request).Ok?
  {
    hide MARKER, IndexOf, Parsed, ReadManifest, GoMod.Replaced, ModulePath;
    AdditionsAre(ReadManifest(t).value.modules, Parsed(request).value);
  }

  /** On such a project every request for known modules succeeds, and leaves such a project. */
  lemma AddSucceeds(t: Tree, request: seq<string>)
    requires Ready(t) && Parsed(request).Some? && Parsed(request).value != []
    ensures Added(t, request).Ok? && Ready(Added(t, request).value)
  {
    hide MARKER, IndexOf, Parsed, ReadManifest, GoMod.Replaced, ModulePath, PlanAdd, InsertedAll, NewManifest;
    ReadyPlan(t, request);
    PlanFacts(t, request);
    AddedFacts(t, request);
  }

  ghost predicate HasMarker(routes: string) {
    exists i: nat :: OccursAt(routes, MARKER, i)
  }

  ghost predicate HasPath(goMod: string) {
    exists path :: DeclaredFirst(Split(goMod, '\n'), path)
  }

  ghost predicate HasRequirement(goMod: string) {
    exists v :: GoMod.NamedOnce(SplitAfter(goMod), v)
  }

  /** No file of a requested module is there that the manifest does not list. */
  ghost predicate NoneInTheWay(t: Tree, installed: seq<Module>, requested: seq<Module>) {
    forall x :: x in t.targets && x.module_ in requested && x.module_ !in installed ==> x.index >= FileCount(x.module_)
  }

  ghost predicate AllInstalled(installed: seq<Module>, requested: seq<Module>) {
    forall m :: m in requested ==> m in installed
  }

  /** What Add asks of a project: a manifest, a marker, a module path, none of the files of what is
      missing, and, if anything is missing, one framework requirement. */
  ghost predicate Addable(t: Tree, requested: seq<Module>) {
    && ReadManifest(t).Ok?
    && t.routes.Some? && HasMarker(t.routes.value)
    && t.goMod.Some? && HasPath(t.goMod.value)
    && NoneInTheWay(t, ReadManifest(t).value.modules, requested)
    && (AllInstalled(ReadManifest(t).value.modules, requested) || HasRequirement(t.goMod.value))
  }

  lemma MarkerOccurs(routes: string)
    ensures IndexOf(routes, MARKER) >= 0 <==> HasMarker(routes)
  {
    hide MARKER;
  }

  lemma RequirementReads(goMod: string)
    ensures GoMod.Replaced(goMod, "").Ok? <==> HasRequirement(goMod)
  {
    hide GoMod.NamedOnce, GoMod.Replaced;
    if GoMod.Replaced(goMod, "").Ok? {
      GoMod.ReadsItself(goMod);
      GoMod.ReadExactly(goMod, GoMod.Replaced(goMod, "").current);
    }
    forall v | GoMod.NamedOnce(SplitAfter(goMod), v)
      ensures GoMod.Replaced(goMod, "").Ok?
    {
      GoMod.ReadExactly(goMod, v);
    }
  }

  lemma PathDeclared(goMod: string)
    ensures ModulePath(goMod).Some? <==> HasPath(goMod)
  {
    hide DeclaredFirst, ModulePath;
    if ModulePath(goMod).Some? {
      ModulePathIs(goMod, ModulePath(goMod).value);
    }
    forall path | DeclaredFirst(Split(goMod, '\n'), path)
      ensures ModulePath(goMod).Some?
    {
      ModulePathIs(goMod, path);
    }
  }

  lemma WayIsFree(t: Tree, installed: seq<Module>, requested: seq<Module>)
    ensures var additions := Additions(installed, requested);
            && ((exists x :: x in TargetsOf(additions) && x in t.targets) <==> !NoneInTheWay(t, installed, requested))
            && (additions == [] <==> AllInstalled(installed, requested))
  {
    AdditionsAre(installed, requested);
    var additions := Additions(installed, requested);
    assert additions != [] ==> additions[0] in additions;
  }

  lemma PlanExactly(t: Tree, request: seq<string>)
    ensures PlanAdd(t, request).Ok? <==>
            && Parsed(request).Some? && Parsed(request).value != [] && ReadManifest(t).Ok?
            && t.routes.Some? && HasMarker(t.routes.value) && t.goMod.Some? && HasPath(t.goMod.value)
            && NoneInTheWay(t, ReadManifest(t).value.modules, Parsed(request).value)
  {
    hide MARKER, IndexOf, Parsed, ReadManifest, ModulePath, HasMarker, HasPath, NoneInTheWay, AllInstalled, TargetsOf;
    if Parsed(request).Some? && ReadManifest(t).Ok? && t.routes.Some? && t.goMod.Some? {
      MarkerOccurs(t.routes.value);
      PathDeclared(t.goMod.value);
      WayIsFree(t, ReadManifest(t).value.modules, Parsed(request).value);
    }
  }

  /** Without an I/O failure Add succeeds exactly for a non-empty request of known modules on a project
      that meets its demands. */
  lemma AddExactly(t: Tree, request: seq<string>)
    ensures Added(t, request).Ok? <==>
            Parsed(request).Some? && Parsed(request).value != [] && Addable(t, Parsed(request).value)
  {
    hide PlanAdd, Parsed, ReadManifest, GoMod.Replaced, HasMarker, HasPath, HasRequirement, NoneInTheWay, AllInstalled,
         InsertedAll, NewManifest;
    PlanExactly(t, request);
    if PlanAdd(t, request).Ok? {
      PlanAdditions(t, request);
      RequirementReads(t.goMod.value);
      WayIsFree(t, ReadManifest(t).value.modules, Parsed(request).value);
    }
  }

  // ---- what a completed Add leaves ----

  /** The manifest names the framework version of go.mod and, after the modules it had, the additions. */
  lemma AddedManifest(t: Tree, request: seq<string>)
    requires Added(t, request).Ok? && PlanAdd(t, request).value.additions != []
    ensures var t', plan := Added(t, request).value, PlanAdd(t, request).value;
            && t.goMod.Some? && GoMod.Replaced(t.goMod.value, "").Ok?
            && ReadManifest(t')
               == Ok(Metadata(METADATA_FORMAT, GoMod.Replaced(t.goMod.value, "").current,
                              ReadManifest(t).value.modules + plan.additions))
            && plan.additions == Additions(ReadManifest(t).value.modules, Parsed(request).value)
  {
    hide PlanAdd, GoMod.Replaced, Decode, Parsed, InsertedAll;
    PlanFacts(t, request);
    var plan := PlanAdd(t, request).value;
    PlanAdditions(t, request);
    NewManifestReads(GoMod.Replaced(t.goMod.value, "").current, plan.meta.modules + plan.additions);
  }

  lemma PlanAdditions(t: Tree, request: seq<string>)
    requires PlanAdd(t, request).Ok?
    ensures Parsed(request).Some? && ReadManifest(t).Ok?
    ensures PlanAdd(t, request).value.additions == Additions(ReadManifest(t).value.modules, Parsed(request).value)
  {
    hide Parsed, ReadManifest, MARKER, IndexOf, ModulePath;
  }

  /** Every file of an addition is there, rendered with the module path; every other file is as it was, and
      none of the additions' files was there before. */
  lemma AddedFiles(t: Tree, request: seq<string>, x: Target)
    requires Added(t, request).Ok?
    ensures var t', plan := Added(t, request).value, PlanAdd(t, request).value;
            if x.module_ in plan.additions && x.index < FileCount(x.module_)
            then x !in t.targets && x in t'.targets && t'.targets[x] == Rendered(plan.modulePath)
            else (x in t'.targets <==> x in t.targets) && (x in t.targets ==> t'.targets[x] == t.targets[x])
  {
    hide PlanAdd, InsertedAll, ReadManifest, MARKER, IndexOf, GoMod.Replaced;
    AddedFacts(t, request);
    PlanFacts(t, request);
  }

  /** A manifest is read exactly when the first of the two files that is there can be decoded, is of the
      current or the unnumbered format and lists known modules; it lists each of them once. */
  lemma ManifestReadsExactly(t: Tree)
    ensures var file := if t.metadata.Some? then t.metadata else t.legacy;
            && (ReadManifest(t).Ok? <==>
                && file.Some? && file.value.Encoded?
                && (file.value.manifest.format == 0 || file.value.manifest.format == 1)
                && AllKnown(Parts(file.value.manifest.modules)))
            && (ReadManifest(t).Ok? ==>
                  && ReadManifest(t).value.format == file.value.manifest.format
                  && ReadManifest(t).value.framework == file.value.manifest.framework
                  && Parsed(file.value.manifest.modules) == Some(ReadManifest(t).value.modules))
  {
    hide Parsed, AllKnown, Parts;
    var file := if t.metadata.Some? then t.metadata else t.legacy;
    if file.Some? && file.value.Encoded? {
      ParsedExactly(file.value.manifest.modules);
    }
  }

  /** Two successful calls in a row do what one call with both requests does. */
  lemma AddComposes(t: Tree, a: seq<string>, b: seq<string>)
    requires Added(t, a).Ok? && Added(Added(t, a).value, b).Ok?
    ensures Added(t, a + b) == Added(Added(t, a).value, b)
  {
    hide PlanAdd, MARKER, IndexOf, InsertedAll, WithTargets, NewManifest, GoMod.Replaced, ReadManifest,
         TargetsOf, Names;
    var t1 := Added(t, a).value;
    var first, second := PlanAdd(t, a).value, PlanAdd(t1, b).value;
    TogetherFacts(t, a, b);
    AddedFacts(t, a);
    AddedFacts(t1, b);
    PlanFacts(t, a);
    PlanFacts(t1, b);
    var both := PlanAdd(t, a + b).value;
    TargetsTogether(t.targets, first.additions, second.additions, first.modulePath);
    InsertedAllAppend(t.routes.value, first.additions, second.additions);
    if first.additions == [] {
      assert both.additions == second.additions;
    } else if second.additions == [] {
      assert both.additions == first.additions;
    } else {
      assert both.meta.modules + both.additions == (first.meta.modules + first.additions) + second.additions;
    }
  }

  /** Repeating a successful call changes nothing. */
  lemma AddIdempotent(t: Tree, request: seq<string>)
    requires Added(t, request).Ok?
    ensures Added(Added(t, request).value, request) == Added(t, request)
  {
    hide MARKER, IndexOf, InsertedAll, ReadManifest, GoMod.Replaced, Parsed, ModulePath, WithTargets, NewManifest;
    var t' := Added(t, request).value;
    var plan := PlanAdd(t, request).value;
    AddedFacts(t, request);
    PlanFacts(t, request);
    AdditionsAre(plan.meta.modules, Parsed(request).value);
    AdditionsOfInstalled(plan.meta.modules + plan.additions, Parsed(request).value);
    assert TargetsOf([]) == {};
  }

  /** The new registration lines stand together, in the order of the request, immediately before the
      first marker of the old routes, which is the first marker of the new ones. */
  lemma AddedRoutes(t: Tree, request: seq<string>) returns (p: string, s: string)
    requires Added(t, request).Ok?
    ensures var t' := Added(t, request).value;
            && t.routes.Some? && t'.routes.Some?
            && t.routes.value == p + (MARKER + s) && IndexOf(t.routes.value, MARKER) == |p|
            && var lines := Registrations(PlanAdd(t, request).value.additions);
               && t'.routes.value == p + lines + (MARKER + s)
               && IndexOf(t'.routes.value, MARKER) == |p + lines|
  {
    hide MARKER, IndexOf, InsertedAll, PlanAdd, Added, Registrations;
    AddedFacts(t, request);
    PlanFacts(t, request);
    p, s := FindMarker(t.routes.value);
    MarkedHasMarker(t.routes.value, p, s);
    var additions := PlanAdd(t, request).value.additions;
    InsertedAllShape(t.routes.value, additions, p, s);
    MarkedHasMarker(InsertedAll(t.routes.value, additions), p + Registrations(additions), s);
  }

  // ---- Upgrade ----

  predicate Digit(c: char) {
    '0' <= c <= '9'
  }

  predicate Alphanumeric(c: char) {
    Digit(c) || 'A' <= c <= 'Z' || 'a' <= c <= 'z'
  }

  function Run(s: string, allowed: char -> bool): (n: nat)
    ensures n <= |s| && forall i :: 0 <= i < n ==> allowed(s[i])
  {
    if s == "" || !allowed(s[0]) then 0 else 1 + Run(s[1..], allowed)
  }

  predicate Suffix(c: char) {
    Alphanumeric(c) || c == '.' || c == '-'
  }

  /** validFrameworkVersion: `v`, three runs of digits between dots, an optional prerelease and
      optional build data. */
  predicate ValidVersion(version: string) {
    version != "" && version[0] == 'v' && Numbers(version[1..], 3)
  }

  predicate Numbers(s: string, count: nat)
    requires count >= 1
  {
    var n := Run(s, Digit);
    n > 0 && if count == 1 then Prerelease(s[n..]) else n < |s| && s[n] == '.' && Numbers(s[n + 1..], count - 1)
  }

  predicate Prerelease(s: string) {
    if s != "" && s[0] == '-' then |s| > 1 && Alphanumeric(s[1]) && Build(s[1 + Run(s[1..], Suffix)..]) else Build(s)
  }

  predicate Build(s: string) {
    s == "" || (s[0] == '+' && |s| > 1 && Run(s[1..], Suffix) == |s| - 1)
  }

  predicate AllOf(s: string, allowed: char -> bool) {
    forall i :: 0 <= i < |s| ==> allowed(s[i])
  }

  predicate IsNumber(s: string) {
    s != "" && AllOf(s, Digit)
  }

  /** Nothing, or a dash, a letter or digit, and letters, digits, dots and dashes. */
  predicate IsPrerelease(s: string) {
    s == "" || (|s| >= 2 && s[0] == '-' && Alphanumeric(s[1]) && AllOf(s[2..], Suffix))
  }

  /** Nothing, or a plus sign and at least one letter, digit, dot or dash. */
  predicate IsBuild(s: string) {
    s == "" || (|s| >= 2 && s[0] == '+' && AllOf(s[1..], Suffix))
  }

  /** What the pattern describes. */
  ghost predicate VersionShaped(version: string, a: string, b: string, c: string, pre: string, build: string) {
    && version == "v" + a + "." + b + "." + c + pre + build
    && IsNumber(a) && IsNumber(b) && IsNumber(c) && IsPrerelease(pre) && IsBuild(build)
  }

  lemma {:induction false} RunOf(s: string, rest: string, allowed: char -> bool)
    requires AllOf(s, allowed) && (rest == "" || !allowed(rest[0]))
    ensures Run(s + rest, allowed) == |s|
  {
    if s == "" {
      assert s + rest == rest;
    } else {
      RunOf(s[1..], rest, allowed);
      assert (s + rest)[1..] == s[1..] + rest;
    }
  }

  lemma {:induction false} RunStops(s: string, allowed: char -> bool)
    ensures var n := Run(s, allowed); AllOf(s[..n], allowed) && (n < |s| ==> !allowed(s[n]))
  {
    if s != "" && allowed(s[0]) {
      RunStops(s[1..], allowed);
    }
  }

  lemma BuildExactly(s: string)
    ensures Build(s) <==> IsBuild(s)
  {
    if s != "" {
      RunStops(s[1..], Suffix);
      if AllOf(s[1..], Suffix) {
        RunOf(s[1..], "", Suffix);
        assert s[1..] + "" == s[1..];
      }
    }
  }

  lemma TailAccepted(pre: string, build: string)
    requires IsPrerelease(pre) && IsBuild(build)
    ensures Prerelease(pre + build)
  {
    BuildExactly(build);
    if pre == "" {
      assert pre + build == build;
    } else {
      var s := pre + build;
      assert s[1..] == pre[1..] + build;
      RunOf(pre[1..], build, Suffix);
      assert s[1 + |pre[1..]|..] == build;
    }
  }

  lemma TailShape(s: string) returns (pre: string, build: string)
    requires Prerelease(s)
    ensures s == pre + build && IsPrerelease(pre) && IsBuild(build)
  {
    if s != "" && s[0] == '-' {
      var n := Run(s[1..], Suffix);
      RunStops(s[1..], Suffix);
      pre, build := s[..1 + n], s[1 + n..];
      assert n >= 1;
      assert forall i :: 0 <= i < |pre[2..]| ==> pre[2..][i] == s[1..][..n][i + 1];
    } else {
      pre, build := "", s;
    }
    BuildExactly(build);
  }

  /** A number before text that does not go on with a digit is read off. */
  lemma NumberAccepted(a: string, rest: string, count: nat)
    requires count >= 1 && IsNumber(a) && (rest == "" || !Digit(rest[0]))
    ensures Numbers(a + rest, count) <==>
            if count == 1 then Prerelease(rest) else rest != "" && rest[0] == '.' && Numbers(rest[1..], count - 1)
  {
    RunOf(a, rest, Digit);
    assert (a + rest)[|a|..] == rest;
    assert rest != "" ==> (a + rest)[|a| + 1..] == rest[1..];
  }

  lemma NumberShape(s: string, count: nat) returns (a: string, rest: string)
    requires count >= 1 && Numbers(s, count)
    ensures s == a + rest && IsNumber(a)
    ensures if count == 1 then Prerelease(rest) else rest != "" && rest[0] == '.' && Numbers(rest[1..], count - 1)
  {
    RunStops(s, Digit);
    var n := Run(s, Digit);
    a, rest := s[..n], s[n..];
    assert count > 1 ==> rest[1..] == s[n + 1..];
  }

  lemma VersionAccepted(version: string, a: string, b: string, c: string, pre: string, build: string)
    requires VersionShaped(version, a, b, c, pre, build)
    ensures ValidVersion(version)
  {
    hide Numbers, Prerelease, AllOf;
    var tail := pre + build;
    TailAccepted(pre, build);
    TailStart(pre, build);
    NumberAccepted(c, tail, 1);
    var third := "." + (c + tail);
    assert third[1..] == c + tail;
    NumberAccepted(b, third, 2);
    var second := "." + (b + third);
    assert second[1..] == b + third;
    NumberAccepted(a, second, 3);
    assert version[1..] == a + second;
  }

  lemma TailStart(pre: string, build: string)
    requires IsPrerelease(pre) && IsBuild(build)
    ensures pre + build == "" || !Digit((pre + build)[0])
  {
  }

  lemma VersionShape(version: string) returns (a: string, b: string, c: string, pre: string, build: string)
    requires ValidVersion(version)
    ensures VersionShaped(version, a, b, c, pre, build)
  {
    hide Numbers, Prerelease, IsNumber, IsPrerelease, IsBuild;
    var second, third, tail;
    a, second := NumberShape(version[1..], 3);
    b, third := NumberShape(second[1..], 2);
    c, tail := NumberShape(third[1..], 1);
    pre, build := TailShape(tail);
    assert second == "." + second[1..] && third == "." + third[1..];
    assert version == "v" + version[1..];
    Glued("v", ".", a, b, c, tail, pre, build);
  }

  lemma Glued(v: string, dot: string, a: string, b: string, c: string, tail: string, pre: string, build: string)
    requires tail == pre + build
    ensures v + (a + (dot + (b + (dot + (c + tail))))) == v + a + dot + b + dot + c + pre + build
  {
  }

  ghost predicate IsVersion(version: string) {
    exists a, b, c, pre, build :: VersionShaped(version, a, b, c, pre, build)
  }

  /** A version is valid exactly when it has the shape of the pattern: v, three numbers between dots, an
      optional prerelease and optional build data. */
  lemma ValidExactly(version: string)
    ensures ValidVersion(version) <==> IsVersion(version)
  {
    hide ValidVersion, VersionShaped;
    if ValidVersion(version) {
      var a, b, c, pre, build := VersionShape(version);
    }
    if IsVersion(version) {
      var a, b, c, pre, build :| VersionShaped(version, a, b, c, pre, build);
      VersionAccepted(version, a, b, c, pre, build);
    }
  }

  lemma {:induction false} NumbersNoSpace(s: string, count: nat)
    requires count >= 1 && Numbers(s, count)
    ensures NoSpace(s)
    decreases count
  {
    var n := Run(s, Digit);
    if count > 1 {
      NumbersNoSpace(s[n + 1..], count - 1);
      assert s == s[..n] + ['.'] + s[n + 1..];
    } else {
      TailNoSpace(s[n..]);
      assert s == s[..n] + s[n..];
    }
  }

  lemma TailNoSpace(s: string)
    requires Prerelease(s)
    ensures NoSpace(s)
  {
    if s != "" && s[0] == '-' {
      var n := Run(s[1..], Suffix);
      var build := s[1 + n..];
      assert s == ['-'] + s[1..][..n] + build;
      assert build != "" ==> build == ['+'] + build[1..];
    } else if s != "" {
      assert s == ['+'] + s[1..];
    }
  }

  /** A valid version is one token, so the requirement edit is exact for it. */
  lemma VersionIsToken(version: string)
    requires ValidVersion(version)
    ensures IsToken(version)
  {
    NumbersNoSpace(version[1..], 3);
    assert version == ['v'] + version[1..];
  }

  datatype UpgradeResult = UpgradeResult(from: string, to: string, changed: bool)

  /** What Upgrade reads before it writes: its report, the new go.mod text and the manifest. */
  datatype UpgradePlan = UpgradePlan(report: UpgradeResult, goMod: string, meta: Metadata)

  function ProjectChanged(meta: Metadata, version: string): bool {
    meta.format != METADATA_FORMAT || meta.framework != version
  }

  function PlanUpgrade(t: Tree, version: string): Result<UpgradePlan> {
    if !ValidVersion(version) then Err(InvalidVersion)
    else if ReadManifest(t).Err? then Err(ReadManifest(t).error)
    else if t.goMod.None? then Err(NoGoMod)
    else
      var meta := ReadManifest(t).value;
      match GoMod.Replaced(t.goMod.value, version)
      case Err(cause) => Err(BadRequirement(cause))
      case Ok(current, text) =>
        var changed := current != version || ProjectChanged(meta, version);
        Ok(UpgradePlan(UpgradeResult(current, version, changed), text, meta))
  }

  function WithGoMod(t: Tree, plan: UpgradePlan): Tree {
    if plan.report.from != plan.report.to then t.(goMod := Some(plan.goMod)) else t
  }

  function WithManifest(t: Tree, plan: UpgradePlan): Tree {
    if ProjectChanged(plan.meta, plan.report.to)
    then t.(metadata := Some(NewManifest(plan.report.to, plan.meta.modules))) else t
  }

  /** The report and the tree after Upgrade when no file operation fails. */
  function Upgraded(t: Tree, version: string, apply: bool): Result<(UpgradeResult, Tree)> {
    match PlanUpgrade(t, version)
    case Err(e) => Err(e)
    case Ok(plan) =>
      Ok((plan.report, if apply && plan.report.changed then WithManifest(WithGoMod(t, plan), plan) else t))
  }

  /** Upgrade stopped before the end: nothing is written, or go.mod alone. */
  ghost predicate UpgradeStopped(t: Tree, version: string, t': Tree) {
    t' == t || (PlanUpgrade(t, version).Ok? && t' == WithGoMod(t, PlanUpgrade(t, version).value))
  }

  /** Check mode reports a change exactly when apply mode changes a file. */
  lemma CheckIsExact(t: Tree, version: string)
    requires PlanUpgrade(t, version).Ok?
    ensures Upgraded(t, version, false).Ok? && Upgraded(t, version, false).value.1 == t
    ensures Upgraded(t, version, true).Ok? && Upgraded(t, version, true).value.0 == Upgraded(t, version, false).value.0
    ensures Upgraded(t, version, false).value.0.changed <==> Upgraded(t, version, true).value.1 != t
  {
    var plan := PlanUpgrade(t, version).value;
    VersionIsToken(version);
    if plan.report.from != version {
      var head, gap, s := GoMod.OneTokenEdit(t.goMod.value, version);
      Different(head + GoMod.WAHOO + gap, plan.report.from, version, s);
    } else if ProjectChanged(plan.meta, version) {
      ManifestHasNoDuplicates(t);
      NewManifestReads(version, plan.meta.modules);
    }
  }

  lemma Different(p: string, v: string, w: string, s: string)
    requires v != w
    ensures p + v + s != p + w + s
  {
    var a, b := p + v + s, p + w + s;
    if |v| == |w| {
      assert a[|p|..|p| + |v|] == v && b[|p|..|p| + |w|] == w;
    }
  }

  /** The go.mod part of an upgrade: the new text reads the new version and stays as it is. */
  lemma GoModSettles(t: Tree, version: string)
    requires PlanUpgrade(t, version).Ok?
    ensures var plan := PlanUpgrade(t, version).value;
            && t.goMod.Some? && ReadManifest(t) == Ok(plan.meta) && plan.report.to == version
            && GoMod.Replaced(t.goMod.value, version) == GoMod.Ok(plan.report.from, plan.goMod)
            && GoMod.Replaced(plan.goMod, version) == GoMod.Ok(version, plan.goMod)
            && (plan.report.from == version ==> plan.goMod == t.goMod.value)
  {
    hide ValidVersion, ReadManifest, GoMod.Replaced;
    VersionIsToken(version);
    var head, gap, s := GoMod.OneTokenEdit(t.goMod.value, version);
  }

  lemma ManifestSettles(t: Tree, version: string)
    requires ReadManifest(t).Ok? && ProjectChanged(ReadManifest(t).value, version)
    ensures var meta := ReadManifest(t).value;
            Decode(NewManifest(version, meta.modules)) == Ok(Metadata(METADATA_FORMAT, version, meta.modules))
  {
    ManifestHasNoDuplicates(t);
    NewManifestReads(version, ReadManifest(t).value.modules);
  }

  /** After a successful apply, a check reports the version on both sides and no change, and the
      list of modules is the one that was read before. */
  lemma UpgradeSettles(t: Tree, version: string)
    requires Upgraded(t, version, true).Ok?
    ensures var t' := Upgraded(t, version, true).value.1;
            && Upgraded(t', version, false) == Ok((UpgradeResult(version, version, false), t'))
            && ReadManifest(t) == Ok(PlanUpgrade(t, version).value.meta)
            && ReadManifest(t') == Ok(Metadata(METADATA_FORMAT, version, ReadManifest(t).value.modules))
            && t'.routes == t.routes && t'.targets == t.targets
  {
    hide GoMod.Replaced, ValidVersion, Decode, NewManifest;
    GoModSettles(t, version);
    if ProjectChanged(ReadManifest(t).value, version) {
      ManifestSettles(t, version);
    }
  }

  /** If the manifest write fails after the go.mod write, running again ends where an uninterrupted
      run would have ended. */
  lemma UpgradeResumes(t: Tree, version: string, t': Tree)
    requires Upgraded(t, version, true).Ok? && UpgradeStopped(t, version, t')
    ensures Upgraded(t', version, true).Ok?
    ensures Upgraded(t', version, true).value.1 == Upgraded(t, version, true).value.1
  {
    hide GoMod.Replaced, ValidVersion, Decode, NewManifest;
    GoModSettles(t, version);
  }

  lemma UpgradedKeeps(t: Tree, version: string, apply: bool)
    requires Consistent(t) && Upgraded(t, version, apply).Ok?
    ensures Consistent(Upgraded(t, version, apply).value.1)
  {
    var t' := Upgraded(t, version, apply).value.1;
    if t' != t {
      UpgradeSettles(t, version);
      forall m
        ensures ModuleConsistent(t', m)
      {
        assert ModuleConsistent(t, m);
        SameFiles(t, t', m);
      }
    }
  }

  lemma UpgradeStoppedKeeps(t: Tree, version: string, t': Tree)
    requires Consistent(t) && UpgradeStopped(t, version, t')
    ensures Consistent(t')
  {
    hide PlanUpgrade, FilesComplete, RegisteredTimes;
    assert ReadManifest(t') == ReadManifest(t);
    forall m
      ensures ModuleConsistent(t', m)
    {
      assert ModuleConsistent(t, m);
      SameFiles(t, t', m);
    }
  }

  // ---- any sequence of calls ----

  /** One call of Add or Upgrade that ended in success, in an error or at a stop. */
  ghost predicate CallStep(t: Tree, t': Tree) {
    || (exists request :: AddStopped(t, request, t') || Added(t, request) == Ok(t'))
    || (exists version :: UpgradeStopped(t, version, t')
                          || (Upgraded(t, version, true).Ok? && Upgraded(t, version, true).value.1 == t'))
  }

  lemma CallKeeps(t: Tree, t': Tree)
    requires Consistent(t) && CallStep(t, t')
    ensures Consistent(t')
  {
    hide Consistent, Added, Upgraded, AddStopped, UpgradeStopped;
    if request :| AddStopped(t, request, t') {
      StoppedKeeps(t, request, t');
    } else if request :| Added(t, request) == Ok(t') {
      AddedKeeps(t, request);
    } else if version :| UpgradeStopped(t, version, t') {
      UpgradeStoppedKeeps(t, version, t');
    } else {
      var version :| Upgraded(t, version, true).Ok? && Upgraded(t, version, true).value.1 == t';
      UpgradedKeeps(t, version, true);
    }
  }

  /** From a created project, after any sequence of calls, each possibly stopped at any file
      operation: every module of the manifest has its files and its registration, every
      registration has its files, and no registration stands twice. */
  lemma {:induction false} AlwaysConsistent(trees: seq<Tree>)
    requires trees != [] && Created(trees[0])
    requires forall i :: 0 < i < |trees| ==> CallStep(trees[i - 1], trees[i])
    ensures Consistent(trees[|trees| - 1])
  {
    hide Consistent, CallStep, Created;
    var last := |trees| - 1;
    if last == 0 {
      CreatedIsConsistent(trees[0]);
    } else {
      AlwaysConsistent(trees[..last]);
      CallKeeps(trees[last - 1], trees[last]);
    }
  }

  // ---- the project directory ----

  /** The paths that are replaced by way of a temporary file. */
  datatype Managed = Routes | GoModFile | MetadataFile

  /** The first n files of a module. */
  function FilesUpTo(m: Module, n: nat): set<Target> {
    set i | 0 <= i < n :: Target(m, i)
  }

  lemma FilesOne(m: Module)
    ensures FilesUpTo(m, 0) == {} && FilesUpTo(m, FileCount(m)) == TargetsOf([m])
  {
  }

  lemma FilesMore(m: Module, n: nat)
    ensures FilesUpTo(m, n + 1) == FilesUpTo(m, n) + {Target(m, n)}
  {
  }

  lemma FilledMore(targets: map<Target, TargetFile>, xs: set<Target>, x: Target, modulePath: string)
    ensures Filled(targets, xs, modulePath)[x := Rendered(modulePath)] == Filled(targets, xs + {x}, modulePath)
  {
  }

  class Directory {
    var routes: Option<string>
    var goMod: Option<string>
    var metadata: Option<MetaFile>
    var legacy: Option<MetaFile>
    var targets: map<Target, TargetFile>
    var temporaries: set<Managed>

    ghost function Snapshot(): Tree
      reads this
    {
      Tree(routes, goMod, metadata, legacy, targets)
    }

    constructor (t: Tree)
      ensures Snapshot() == t && temporaries == {}
    {
      routes, goMod, metadata, legacy, targets := t.routes, t.goMod, t.metadata, t.legacy, t.targets;
      temporaries := {};
    }

    /** A file operation may fail at any time. */
    method Attempt() returns (ok: bool) {
      ok := *;
    }

    /** writeNewFile: exclusive create, write, close; a failure tries to remove the file. */
    method WriteNewFile(x: Target, content: TargetFile) returns (ok: bool)
      modifies this`targets
      ensures ok ==> x !in old(targets) && targets == old(targets)[x := content]
      ensures !ok ==> targets == old(targets) || (x !in old(targets) && targets == old(targets)[x := Partial])
    {
      var started := Attempt();
      if x in targets || !started {
        return false;
      }
      targets := targets[x := Partial];
      var wrote := Attempt();
      if !wrote {
        var removed := Attempt();
        if removed {
          targets := targets - {x};
          assert targets == old(targets);
        }
        return false;
      }
      targets := targets[x := content];
      assert targets == old(targets)[x := content];
      return true;
    }

    /** writeAtomic up to the rename: an exclusive create of the temporary file, write and close. */
    method PrepareTemporary(path: Managed) returns (ok: bool)
      modifies this`temporaries
      ensures ok ==> path !in old(temporaries) && temporaries == old(temporaries) + {path}
      ensures !ok ==> temporaries == old(temporaries) || temporaries == old(temporaries) + {path}
    {
      var started := Attempt();
      if path in temporaries || !started {
        return false;
      }
      temporaries := temporaries + {path};
      var wrote := Attempt();
      if !wrote {
        Discard(path);
        return false;
      }
      return true;
    }

    /** The deferred removal of the temporary file; its own failure is ignored. */
    method Discard(path: Managed)
      modifies this`temporaries
      ensures temporaries == old(temporaries) || temporaries == old(temporaries) - {path}
    {
      var removed := Attempt();
      if removed {
        temporaries := temporaries - {path};
      }
    }

    method WriteRoutes(text: string) returns (ok: bool)
      modifies this`routes, this`temporaries
      ensures ok ==> routes == Some(text)
      ensures !ok ==> routes == old(routes)
    {
      ok := PrepareTemporary(Routes);
      if !ok { return; }
      var renamed := Attempt();
      if !renamed {
        Discard(Routes);
        return false;
      }
      temporaries := temporaries - {Routes};
      routes := Some(text);
    }

    method WriteGoMod(text: string) returns (ok: bool)
      modifies this`goMod, this`temporaries
      ensures ok ==> goMod == Some(text)
      ensures !ok ==> goMod == old(goMod)
    {
      ok := PrepareTemporary(GoModFile);
      if !ok { return; }
      var renamed := Attempt();
      if !renamed {
        Discard(GoModFile);
        return false;
      }
      temporaries := temporaries - {GoModFile};
      goMod := Some(text);
    }

    method WriteManifest(framework: string, modules: seq<Module>) returns (ok: bool)
      modifies this`metadata, this`temporaries
      ensures ok ==> metadata == Some(NewManifest(framework, modules))
      ensures !ok ==> metadata == old(metadata)
    {
      ok := PrepareTemporary(MetadataFile);
      if !ok { return; }
      var renamed := Attempt();
      if !renamed {
        Discard(MetadataFile);
        return false;
      }
      temporaries := temporaries - {MetadataFile};
      metadata := Some(NewManifest(framework, modules));
    }

    /** readManifest; a read that fails for another reason than a missing file is an I/O error. */
    method LoadManifest() returns (r: Result<Metadata>)
      ensures r == ReadManifest(Snapshot()) || r == Err(Io)
    {
      var readable := Attempt();
      if !readable {
        return Err(Io);
      }
      if metadata.Some? {
        return Decode(metadata.value);
      }
      if legacy.Some? {
        return Decode(legacy.value);
      }
      return Err(NotAProject);
    }

    /** Upgrade. On success the tree and the report are those of an uninterrupted run; an error other
        than an I/O error is that run's error; and whatever stops it leaves go.mod ahead of the
        manifest at worst. */
    method Upgrade(version: string, apply: bool) returns (r: Result<UpgradeResult>)
      modifies this
      ensures r.Ok? ==> Upgraded(old(Snapshot()), version, apply) == Ok((r.value, Snapshot()))
      ensures r.Err? && r.error != Io ==> Upgraded(old(Snapshot()), version, apply) == Err(r.error)
      ensures r.Err? ==> UpgradeStopped(old(Snapshot()), version, Snapshot())
      ensures r.Err? ==> metadata == old(metadata)
      ensures routes == old(routes) && legacy == old(legacy) && targets == old(targets)
      ensures !apply ==> Snapshot() == old(Snapshot())
      ensures CallStep(old(Snapshot()), Snapshot())
    {
      hide ValidVersion, NewManifest, Decode, GoMod.Replaced;
      if !ValidVersion(version) {
        return Err(InvalidVersion);
      }
      var project := LoadManifest();
      if project.Err? {
        return Err(project.error);
      }
      var meta := project.value;
      var readable := Attempt();
      if !readable {
        return Err(Io);
      }
      if goMod.None? {
        return Err(NoGoMod);
      }
      var replaced := GoMod.ReplaceFrameworkRequirement(goMod.value, version);
      if replaced.Err? {
        return Err(BadRequirement(replaced.error));
      }
      var current := replaced.current;
      var projectChanged := meta.format != METADATA_FORMAT || meta.framework != version;
      var result := UpgradeResult(current, version, current != version || projectChanged);
      if !apply || !result.changed {
        assert UpgradeStopped(old(Snapshot()), version, Snapshot());
        return Ok(result);
      }
      if current != version {
        var ok := WriteGoMod(replaced.text);
        if !ok {
          return Err(Io);
        }
      }
      if projectChanged {
        var ok := WriteManifest(version, meta.modules);
        if !ok {
          return Err(Io);
        }
      }
      return Ok(result);
    }

    /** The module path from go.mod: the loop of projectModulePath. */
    method ReadModulePath(text: string) returns (r: Option<string>)
      ensures r == ModulePath(text)
    {
      hide Fields;
      var lines := Split(text, '\n');
      for i := 0 to |lines|
        invariant ModulePathIn(lines) == ModulePathIn(lines[i..])
      {
        assert lines[i..][1..] == lines[i + 1..];
        var fields := Fields(lines[i]);
        if |fields| == 2 && fields[0] == "module" {
          return Some(fields[1]);
        }
      }
      return None;
    }

    /** The checks of Add's first loop: what is new, unless one of its files is there. */
    method FindAdditions(installed: seq<Module>, modules: seq<Module>) returns (r: Result<seq<Module>>)
      ensures var additions := Additions(installed, modules);
              || r == Err(Io)
              || (r == Err(TargetExists) && exists x :: x in TargetsOf(additions) && x in targets)
              || (r == Ok(additions) && forall x :: x in TargetsOf(additions) ==> x !in targets)
    {
      var additions: seq<Module> := [];
      for k := 0 to |modules|
        invariant additions == Additions(installed, modules[..k])
        invariant forall x :: x in TargetsOf(additions) ==> x !in targets
      {
        var m := modules[k];
        assert modules[..k + 1] == modules[..k] + [m];
        AdditionsAppend(installed, modules[..k], [m]);
        AdditionsCons(installed, m, []);
        assert [m] + [] == [m];
        if m in installed {
          continue;
        }
        for i := 0 to FileCount(m)
          invariant forall j :: 0 <= j < i ==> Target(m, j) !in targets
        {
          var inspected := Attempt();
          if !inspected {
            return Err(Io);
          }
          if Target(m, i) in targets {
            AdditionsPrefix(installed, modules, k);
            assert Target(m, i) in TargetsOf(Additions(installed, modules));
            return Err(TargetExists);
          }
        }
        additions := additions + [m];
      }
      assert modules[..|modules|] == modules;
      return Ok(additions);
    }

    /** Add. On success the tree is that of an uninterrupted run; an error other than an I/O error is
        that run's error; and whatever stops it leaves the routes behind the module files and the
        manifest behind the routes at worst. */
    method Add(request: seq<string>) returns (r: Result<()>)
      modifies this
      ensures r.Ok? ==> Added(old(Snapshot()), request) == Ok(Snapshot())
      ensures r.Err? && r.error != Io ==> Added(old(Snapshot()), request) == Err(r.error)
      ensures r.Err? ==> AddStopped(old(Snapshot()), request, Snapshot())
      ensures r.Err? ==> metadata == old(metadata)
      ensures goMod == old(goMod) && legacy == old(legacy)
      ensures CallStep(old(Snapshot()), Snapshot())
    {
      hide MARKER, IndexOf, ModulePath, Decode, TargetsOf, InsertedAll, GoMod.Replaced, NewManifest, WithTargets,
           Interrupted, Parsed;
      var parsed := ParseModules(request);
      if parsed.None? {
        return Err(UnknownModule);
      }
      if parsed.value == [] {
        return Err(NoModules);
      }
      var project := LoadManifest();
      if project.Err? {
        return Err(project.error);
      }
      var readable := Attempt();
      if !readable {
        return Err(Io);
      }
      if routes.None? {
        return Err(NoRoutes);
      }
      if IndexOf(routes.value, MARKER) < 0 {
        return Err(NoMarker);
      }
      if goMod.None? {
        return Err(NoGoMod);
      }
      var modulePath := ReadModulePath(goMod.value);
      if modulePath.None? {
        return Err(NoModulePath);
      }
      var found := FindAdditions(project.value.modules, parsed.value);
      if found.Err? {
        return Err(found.error);
      }
      if found.value == [] {
        return Ok(());
      }
      ghost var plan := Plan(project.value, found.value, modulePath.value);
      assert PlanAdd(Snapshot(), request) == Ok(plan);
      r := Install(plan, found.value, modulePath.value, project.value);
    }

    /** Add's writes: the module files, then the routes, then the manifest. */
    method Install(ghost plan: Plan, additions: seq<Module>, modulePath: string, meta: Metadata) returns (r: Result<()>)
      requires routes.Some? && goMod.Some? && additions != []
      requires plan == Plan(meta, additions, modulePath)
      requires forall x :: x in TargetsOf(additions) ==> x !in targets
      modifies this
      ensures r.Ok? ==>
                && var requirement := GoMod.Replaced(old(goMod.value), "");
                && requirement.Ok?
                && Snapshot() == Installed(old(Snapshot()), plan).(
                     metadata := Some(NewManifest(requirement.current, meta.modules + additions)))
      ensures r.Err? && r.error != Io ==>
                && var requirement := GoMod.Replaced(old(goMod.value), "");
                && requirement.Err? && r.error == BadRequirement(requirement.error)
      ensures r.Err? ==> Snapshot() == old(Snapshot()) || Interrupted(old(Snapshot()), plan, Snapshot())
      ensures r.Err? ==> metadata == old(metadata)
      ensures goMod == old(goMod) && legacy == old(legacy)
    {
      hide MARKER, GoMod.Replaced, NewManifest, Interrupted, TargetsOf, InsertedAll;
      var text, changed, written := WriteFiles(plan, additions, modulePath);
      if !written {
        return Err(Io);
      }
      if changed {
        var ok := WriteRoutes(text);
        if !ok {
          InterruptedBefore(old(Snapshot()), plan, Snapshot());
          return Err(Io);
        }
      }
      assert Snapshot() == Installed(old(Snapshot()), plan);
      InterruptedAfter(old(Snapshot()), plan);
      var requirement := GoMod.ReplaceFrameworkRequirement(goMod.value, "");
      if requirement.Err? {
        return Err(BadRequirement(requirement.error));
      }
      var ok := WriteManifest(requirement.current, meta.modules + additions);
      if !ok {
        return Err(Io);
      }
      return Ok(());
    }

    /** The loop over the additions: their files, and the text that the routes will have. */
    method WriteFiles(ghost plan: Plan, additions: seq<Module>, modulePath: string)
      returns (text: string, changed: bool, ok: bool)
      requires routes.Some?
      requires plan.additions == additions && plan.modulePath == modulePath
      requires forall x :: x in TargetsOf(additions) ==> x !in targets
      modifies this`targets
      ensures ok && !changed ==> text == routes.value
      ensures ok ==> text == InsertedAll(routes.value, additions)
      ensures ok ==> targets == WithTargets(old(targets), additions, modulePath)
      ensures !ok ==> Interrupted(old(Snapshot()), plan, Snapshot())
    {
      hide TargetsOf, InsertedAll, Filled, Inserted, Interrupted;
      text, changed, ok := routes.value, false, false;
      InsertedNothing(text);
      NoTargets(targets, modulePath);
      for k := 0 to |additions|
        invariant targets == WithTargets(old(targets), additions[..k], modulePath)
        invariant text == InsertedAll(routes.value, additions[..k])
        invariant !changed ==> text == routes.value
      {
        var m := additions[k];
        assert additions[..k + 1] == additions[..k] + [m];
        TargetsOfBoth(additions[..k], [m]);
        FilesOne(m);
        ghost var before := TargetsOf(additions[..k]);
        assert before + FilesUpTo(m, 0) == before;
        for i := 0 to FileCount(m)
          invariant targets == Filled(old(targets), before + FilesUpTo(m, i), modulePath)
        {
          FilesMore(m, i);
          assert before + FilesUpTo(m, i) + {Target(m, i)} == before + FilesUpTo(m, i + 1);
          FilledMore(old(targets), before + FilesUpTo(m, i), Target(m, i), modulePath);
          var wrote := WriteNewFile(Target(m, i), Rendered(modulePath));
          if !wrote {
            InterruptedInFile(old(Snapshot()), plan, k, i, Snapshot());
            return;
          }
        }
        InsertedAllAppend(routes.value, additions[..k], [m]);
        InsertedOne(text, m);
        if m != Jobs {
          text, changed := Inserted(text, m), true;
        }
      }
      assert additions[..|additions|] == additions;
      ok := true;
    }
  }

  lemma InsertedOne(routes: string, m: Module)
    ensures InsertedAll(routes, [m]) == Inserted(routes, m)
    ensures m == Jobs ==> Inserted(routes, m) == routes
  {
  }

  lemma InterruptedBefore(t: Tree, plan: Plan, t': Tree)
    requires t.routes.Some? && t' == t.(targets := WithTargets(t.targets, plan.additions, plan.modulePath))
    requires forall x :: x in TargetsOf(plan.additions) ==> x !in t.targets
    ensures Interrupted(t, plan, t')
  {
    hide TargetsOf;
  }

  lemma InterruptedAfter(t: Tree, plan: Plan)
    requires t.routes.Some?
    requires forall x :: x in TargetsOf(plan.additions) ==> x !in t.targets
    ensures Interrupted(t, plan, Installed(t, plan))
  {
    hide TargetsOf, InsertedAll;
  }

  /** A failed write of file i of addition k leaves earlier files, and perhaps a broken one. */
  lemma InterruptedInFile(t: Tree, plan: Plan, k: nat, i: nat, t': Tree)
    requires t.routes.Some? && k < |plan.additions| && i < FileCount(plan.additions[k])
    requires forall x :: x in TargetsOf(plan.additions) ==> x !in t.targets
    requires var m := plan.additions[k];
             var filled := Filled(t.targets, TargetsOf(plan.additions[..k]) + FilesUpTo(m, i), plan.modulePath);
             && t' == t.(targets := t'.targets)
             && (t'.targets == filled || t'.targets == filled[Target(m, i) := Partial])
    ensures Interrupted(t, plan, t')
  {
    hide InsertedAll;
    assert Target(plan.additions[k], i) in TargetsOf(plan.additions);
  }

  lemma AdditionsPrefix(installed: seq<Module>, modules: seq<Module>, k: nat)
    requires k < |modules| && modules[k] !in installed
    ensures modules[k] in Additions(installed, modules)
  {
    AdditionsAre(installed, modules);
  }
}
