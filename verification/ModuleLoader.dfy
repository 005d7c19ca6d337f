// The authenticated module loader: a queue-driven walk over the imports of an
// entry module. Reading, authenticating and parsing files are parameters; so
// are the bundled toolchain modules and how paths are joined.

module ModuleLoader {
  import opened Prelude

  // Who a module belongs to: its package and its path inside the package.
  datatype Owner = Owner(package: string, modulePath: seq<string>)

  datatype Loader = Loader(
    read: string -> Result<Option<string>, string>,
    authenticate: (string, Owner, string) -> Option<string>,   // a refusal, if any
    closedPackage: bool,
    bundled: string -> Option<string>,
    bundledOwner: string -> Result<Owner, string>,
    validOwner: Owner -> bool,
    parse: (string, string) -> Result<seq<string>, string>,    // the imports of a source
    sibling: (string, string) -> string,                       // next to a module's file
    besideEntry: string -> string,                             // next to the entry file
    deps: map<string, string>,
    depOwners: map<string, Owner>,
    precompiled: map<string, Owner>)

  // A queued module, with the import that queued it: position `at` in the
  // imports of the module visited as number `from` (-1 for the entry itself).
  datatype Item = Item(name: string, path: string, proposed: Owner, from: int, at: nat)

  datatype Visit = Visit(item: Item, source: string, owner: Owner, user: bool, imports: seq<string>)

  datatype Loaded = Loaded(visited: seq<Visit>, userModules: set<string>, assignments: seq<(string, Owner)>)

  // ---------- one module ----------

  // Same package and directory, another module.
  function SiblingOwner(loader: Loader, owner: Owner, name: string): Result<Owner, string> {
    var parent := if owner.modulePath == [] then [] else owner.modulePath[..|owner.modulePath| - 1];
    var sibling := Owner(owner.package, parent + [name]);
    if loader.validOwner(sibling) then Ok(sibling) else Err("invalid module identity")
  }

  // Where an import that is not precompiled is to be found, and its proposed
  // owner.
  function Resolve(loader: Loader, importerPath: string, importerOwner: Owner, name: string)
    : Result<(string, Owner), string>
  {
    if name in loader.deps then
      if name in loader.depOwners then Ok((loader.deps[name], loader.depOwners[name]))
      else Err("authenticated dependency is missing loader ownership")
    else if loader.bundled(name).Some? then
      match loader.bundledOwner(name)
      case Err(message) => Err(message)
      case Ok(owner) => Ok((loader.besideEntry(name), owner))
    else
      match SiblingOwner(loader, importerOwner, name)
      case Err(message) => Err(message)
      case Ok(owner) => Ok((loader.sibling(importerPath, name), owner))
  }

  // The source of a queued module, its owner, and whether it is user code.
  function Enter(loader: Loader, name: string, path: string, proposed: Owner): Result<(string, Owner, bool), string> {
    match loader.read(path)
    case Err(message) => Err(message)
    case Ok(Some(source)) =>
      var refusal := loader.authenticate(path, proposed, source);
      if refusal.Some? then Err(refusal.value)
      else if loader.bundled(name) == Some(source) then
        match loader.bundledOwner(name)
        case Err(message) => Err(message)
        case Ok(owner) => Ok((source, owner, false))
      else if loader.closedPackage && loader.bundled(name).Some? then
        Err("packaged source cannot replace bundled module")
      else Ok((source, proposed, true))
    case Ok(None) =>
      match loader.bundled(name)
      case None => Err("source is missing")
      case Some(source) =>
        match loader.bundledOwner(name)
        case Err(message) => Err(message)
        case Ok(owner) => Ok((source, owner, false))
  }

  // When a module is entered, and as what: as user code, from its file, when the
  // file passes authentication and does not stand in for a bundled module of a
  // closed package; or as the bundled module, when the file is missing or is an
  // authentic copy.
  lemma EnterIff(loader: Loader, name: string, path: string, proposed: Owner, source: string, owner: Owner, user: bool)
    ensures Enter(loader, name, path, proposed) == Ok((source, owner, user)) <==>
      var authentic := loader.read(path) == Ok(Some(source)) && loader.authenticate(path, proposed, source).None?;
      if user then
        && authentic && owner == proposed && loader.bundled(name) != Some(source)
        && !(loader.closedPackage && loader.bundled(name).Some?)
      else
        && (authentic || loader.read(path) == Ok(None))
        && loader.bundled(name) == Some(source) && loader.bundledOwner(name) == Ok(owner)
  {
  }

  // Where an import resolves to: dependencies come first, then bundled modules,
  // then siblings of the importing module.
  lemma ResolveIff(loader: Loader, importerPath: string, importer: Owner, name: string, path: string, owner: Owner)
    ensures Resolve(loader, importerPath, importer, name) == Ok((path, owner)) <==>
      if name in loader.deps then
        name in loader.depOwners && path == loader.deps[name] && owner == loader.depOwners[name]
      else if loader.bundled(name).Some? then
        path == loader.besideEntry(name) && loader.bundledOwner(name) == Ok(owner)
      else
        && path == loader.sibling(importerPath, name) && loader.validOwner(owner)
        && owner.package == importer.package
        && owner.modulePath != [] && owner.modulePath[|owner.modulePath| - 1] == name
        && (importer.modulePath == [] ==> owner.modulePath == [name])
        && (importer.modulePath != [] ==>
              && |owner.modulePath| == |importer.modulePath|
              && owner.modulePath[..|owner.modulePath| - 1] == importer.modulePath[..|importer.modulePath| - 1])
  {
    var parent := if importer.modulePath == [] then [] else importer.modulePath[..|importer.modulePath| - 1];
    assert (parent + [name])[..|parent|] == parent;
    if owner.modulePath != [] {
      var n := |owner.modulePath| - 1;
      assert owner.modulePath == owner.modulePath[..n] + [owner.modulePath[n]];
    }
  }

  // ---------- the order of imports ----------

  // Imports are ordered by the number of the importing module, then by their
  // position in it.
  predicate Earlier(a: Item, b: Item) {
    a.from < b.from || (a.from == b.from && a.at < b.at)
  }

  ghost predicate Chain(items: seq<Item>) {
    forall i, j :: 0 <= i < j < |items| ==> Earlier(items[i], items[j])
  }

  function Items(visited: seq<Visit>): (r: seq<Item>)
    ensures |r| == |visited|
    ensures forall i :: 0 <= i < |r| ==> r[i] == visited[i].item
  {
    seq(|visited|, i requires 0 <= i < |visited| => visited[i].item)
  }

  function VisitedNames(visited: seq<Visit>): (r: set<string>)
    ensures forall i :: 0 <= i < |visited| ==> visited[i].item.name in r
  {
    set i | 0 <= i < |visited| :: visited[i].item.name
  }

  // The name imported at a position of a visited module.
  ghost predicate Imports(visited: seq<Visit>, j: int, p: int, name: string) {
    0 <= j < |visited| && 0 <= p < |visited[j].imports| && visited[j].imports[p] == name
  }

  // An item comes from the import it names.
  ghost predicate Queued(loader: Loader, entry: Item, visited: seq<Visit>, item: Item) {
    if item.from == -1 then item == entry
    else
      && Imports(visited, item.from, item.at, item.name)
      && item.name !in loader.precompiled
      && var importer := visited[item.from];
         Resolve(loader, importer.item.path, importer.owner, item.name) == Ok((item.path, item.proposed))
  }

  // A visit is what entering its item and parsing its source give.
  ghost predicate Faithful(loader: Loader, visit: Visit) {
    && Enter(loader, visit.item.name, visit.item.path, visit.item.proposed) ==
         Ok((visit.source, visit.owner, visit.user))
    && loader.parse(visit.item.path, visit.source) == Ok(visit.imports)
  }

  // ---------- the invariant of the walk ----------

  ghost predicate Walked(loader: Loader, entry: Item, visited: seq<Visit>, queue: seq<Item>) {
    && Chain(Items(visited) + queue)
    && (forall i :: 0 <= i < |visited| ==> Faithful(loader, visited[i]))
    && (forall i :: 0 <= i < |visited| ==> Queued(loader, entry, visited[..i], visited[i].item))
    && (forall k :: 0 <= k < |queue| ==> Queued(loader, entry, visited, queue[k]))
    && (forall i, j :: 0 <= i < j < |visited| ==> visited[i].item.name != visited[j].item.name)
  }

  // Every import seen so far has been visited or waits in the queue.
  ghost predicate Covered(loader: Loader, visited: seq<Visit>, queue: seq<Item>) {
    forall j, p :: 0 <= j < |visited| && 0 <= p < |visited[j].imports| ==>
      CoveredImport(loader, visited, queue, j, p)
  }

  ghost predicate CoveredImport(loader: Loader, visited: seq<Visit>, queue: seq<Item>, j: int, p: int)
    requires 0 <= j < |visited| && 0 <= p < |visited[j].imports|
  {
    var name := visited[j].imports[p];
    || name in loader.precompiled
    || name in VisitedNames(visited)
    || exists k :: 0 <= k < |queue| && queue[k].name == name && queue[k].from == j && queue[k].at == p
  }

  // No visited module is imported before the import it was visited for.
  ghost predicate FirstImports(visited: seq<Visit>) {
    forall i, j, p :: 0 <= i < |visited| && Imports(visited, j, p, visited[i].item.name) ==>
      visited[i].item.from == -1 || visited[i].item.from < j || (visited[i].item.from == j && visited[i].item.at <= p)
  }

  // ---------- queueing the imports of a visited module ----------

  // The items that module number `from` adds to the queue, from its p-th import
  // on. `known` holds the names visited so far; precompiled modules never enter
  // the queue.
  function NewItems(loader: Loader, visit: Visit, from: nat, known: set<string>, p: nat): Result<seq<Item>, string>
    requires p <= |visit.imports|
    decreases |visit.imports| - p
  {
    if p == |visit.imports| then Ok([])
    else
      var name := visit.imports[p];
      if name in known || name in loader.precompiled then NewItems(loader, visit, from, known, p + 1)
      else match Resolve(loader, visit.item.path, visit.owner, name)
        case Err(message) => Err(message)
        case Ok((path, proposed)) =>
          match NewItems(loader, visit, from, known, p + 1)
          case Err(message) => Err(message)
          case Ok(items) => Ok([Item(name, path, proposed, from, p)] + items)
  }

  // The import at a position is known, precompiled or among the items.
  ghost predicate ItemFor(loader: Loader, visit: Visit, from: nat, known: set<string>, items: seq<Item>, q: nat)
    requires q < |visit.imports|
  {
    var name := visit.imports[q];
    || name in known
    || name in loader.precompiled
    || exists k :: 0 <= k < |items| && items[k].name == name && items[k].from == from && items[k].at == q
  }

  lemma ItemForLater(
      loader: Loader, visit: Visit, from: nat, known: set<string>, first: Item, items: seq<Item>, q: nat)
    requires q < |visit.imports| && ItemFor(loader, visit, from, known, items, q)
    ensures ItemFor(loader, visit, from, known, [first] + items, q)
  {
    var name := visit.imports[q];
    if name !in known && name !in loader.precompiled {
      var k :| 0 <= k < |items| && items[k].name == name && items[k].from == from && items[k].at == q;
      assert ([first] + items)[k + 1] == items[k];
    }
  }

  lemma {:induction false} NewItemsProperties(
      loader: Loader, entry: Item, visited: seq<Visit>, from: nat, known: set<string>, p: nat)
    requires from < |visited| && p <= |visited[from].imports|
    requires NewItems(loader, visited[from], from, known, p).Ok?
    ensures var items := NewItems(loader, visited[from], from, known, p).value;
      && Chain(items)
      && (forall k :: 0 <= k < |items| ==>
            items[k].from == from && items[k].at >= p && Queued(loader, entry, visited, items[k]))
      && (forall q :: p <= q < |visited[from].imports| ==> ItemFor(loader, visited[from], from, known, items, q))
    decreases |visited[from].imports| - p
  {
    hide Resolve;
    var visit := visited[from];
    if p < |visit.imports| {
      var name := visit.imports[p];
      NewItemsProperties(loader, entry, visited, from, known, p + 1);
      var later := NewItems(loader, visit, from, known, p + 1).value;
      if name !in known && name !in loader.precompiled {
        var (path, proposed) := Resolve(loader, visit.item.path, visit.owner, name).value;
        var first := Item(name, path, proposed, from, p);
        assert Queued(loader, entry, visited, first);
        assert ([first] + later)[0] == first;
        forall q | p < q < |visit.imports| ensures ItemFor(loader, visit, from, known, [first] + later, q) {
          ItemForLater(loader, visit, from, known, first, later, q);
        }
      }
    }
  }

  // Precompiled imports join the loaded names where they are met.
  function PrecompiledImports(loader: Loader, imports: seq<string>): set<string> {
    set name | name in imports && name in loader.precompiled
  }

  ghost function PrecompiledReached(loader: Loader, visited: seq<Visit>): set<string> {
    set i, name | 0 <= i < |visited| && name in visited[i].imports && name in loader.precompiled :: name
  }

  // ---------- one step of the walk ----------

  lemma ChainDropsHead(items: seq<Item>, queue: seq<Item>)
    requires queue != [] && Chain(items + queue)
    ensures Chain(items + queue[1..])
  {
    var a, b := items + queue, items + queue[1..];
    forall i, j | 0 <= i < j < |b| ensures Earlier(b[i], b[j]) {
      var i', j' := if i < |items| then i else i + 1, if j < |items| then j else j + 1;
      assert b[i] == a[i'] && b[j] == a[j'];
    }
  }

  lemma QueuedGrows(loader: Loader, entry: Item, visited: seq<Visit>, visit: Visit, item: Item)
    requires Queued(loader, entry, visited, item)
    ensures Queued(loader, entry, visited + [visit], item)
  {
    hide Resolve;
  }

  // Skipping a queued module that has been visited keeps the invariant.
  lemma SkipKeepsWalk(loader: Loader, entry: Item, visited: seq<Visit>, queue: seq<Item>)
    requires Walked(loader, entry, visited, queue) && Covered(loader, visited, queue)
    requires queue != [] && queue[0].name in VisitedNames(visited)
    ensures Walked(loader, entry, visited, queue[1..]) && Covered(loader, visited, queue[1..])
  {
    hide Queued, Faithful, Chain;
    ChainDropsHead(Items(visited), queue);
    forall j, p | 0 <= j < |visited| && 0 <= p < |visited[j].imports|
      ensures CoveredImport(loader, visited, queue[1..], j, p)
    {
      assert CoveredImport(loader, visited, queue, j, p);
      var name := visited[j].imports[p];
      if name !in loader.precompiled && name !in VisitedNames(visited) {
        var k :| 0 <= k < |queue| && queue[k].name == name && queue[k].from == j && queue[k].at == p;
        assert queue[1..][k - 1] == queue[k];
      }
    }
  }

  lemma FromVisited(loader: Loader, entry: Item, visited: seq<Visit>, item: Item)
    requires Queued(loader, entry, visited, item)
    ensures -1 <= item.from < |visited| || item.from == -1
    ensures item.from == -1 ==> item == entry
  {
    hide Resolve;
  }

  lemma LaterThanFirst(visited: seq<Visit>, queue: seq<Item>, k: nat)
    requires visited != [] && Chain(Items(visited) + queue) && k < |queue|
    ensures Earlier(visited[0].item, queue[k])
  {
    var all := Items(visited) + queue;
    assert all[0] == visited[0].item && all[|visited| + k] == queue[k];
  }

  // The numbers of importing modules stay below the number of visited ones.
  lemma ItemsFromEarlier(loader: Loader, entry: Item, visited: seq<Visit>, queue: seq<Item>)
    requires Walked(loader, entry, visited, queue)
    ensures forall k :: 0 <= k < |queue| ==> queue[k].from < |visited|
    ensures forall i :: 0 <= i < |visited| ==> visited[i].item.from < i
    ensures visited != [] ==> forall k :: 0 <= k < |queue| ==> queue[k].from >= 0
  {
    hide Queued, Faithful, Chain;
    forall k | 0 <= k < |queue| ensures queue[k].from < |visited| {
      FromVisited(loader, entry, visited, queue[k]);
    }
    forall i | 0 <= i < |visited| ensures visited[i].item.from < i {
      assert Queued(loader, entry, visited[..i], visited[i].item);
      FromVisited(loader, entry, visited[..i], visited[i].item);
    }
    if visited != [] {
      assert Queued(loader, entry, visited[..0], visited[0].item);
      FromVisited(loader, entry, visited[..0], visited[0].item);
      forall k | 0 <= k < |queue| ensures queue[k].from >= 0 {
        FromVisited(loader, entry, visited, queue[k]);
        LaterThanFirst(visited, queue, k);
      }
    }
  }

  lemma ChainAppends(a: seq<Item>, b: seq<Item>)
    requires Chain(a) && Chain(b)
    requires forall i, j :: 0 <= i < |a| && 0 <= j < |b| ==> Earlier(a[i], b[j])
    ensures Chain(a + b)
  {
  }

  lemma VisitKeepsChain(
      loader: Loader, entry: Item, visited: seq<Visit>, queue: seq<Item>, visit: Visit, items: seq<Item>)
    requires Walked(loader, entry, visited, queue) && queue != [] && visit.item == queue[0]
    requires Chain(items) && forall k :: 0 <= k < |items| ==> items[k].from == |visited|
    ensures Chain(Items(visited + [visit]) + (queue[1..] + items))
  {
    hide Queued, Faithful, Chain;
    ItemsFromEarlier(loader, entry, visited, queue);
    var a := Items(visited) + queue;
    forall i | 0 <= i < |a| ensures a[i].from < |visited| {
      if i >= |visited| {
        assert a[i] == queue[i - |visited|];
      }
    }
    ChainAppends(a, items);
    assert Items(visited + [visit]) + (queue[1..] + items) == a + items;
  }

  lemma VisitKeepsQueued(
      loader: Loader, entry: Item, visited: seq<Visit>, queue: seq<Item>, visit: Visit, items: seq<Item>)
    requires queue != [] && forall k :: 0 <= k < |queue| ==> Queued(loader, entry, visited, queue[k])
    requires forall k :: 0 <= k < |items| ==> Queued(loader, entry, visited + [visit], items[k])
    ensures forall k :: 0 <= k < |queue[1..] + items| ==>
      Queued(loader, entry, visited + [visit], (queue[1..] + items)[k])
  {
    hide Queued;
    var queue' := queue[1..] + items;
    forall k | 0 <= k < |queue'| ensures Queued(loader, entry, visited + [visit], queue'[k]) {
      if k < |queue| - 1 {
        assert queue'[k] == queue[k + 1];
        QueuedGrows(loader, entry, visited, visit, queue[k + 1]);
      } else {
        assert queue'[k] == items[k - (|queue| - 1)];
      }
    }
  }

  // What holds of every visit so far holds after one more.
  lemma VisitKeepsVisits(loader: Loader, entry: Item, visited: seq<Visit>, visit: Visit)
    requires forall i :: 0 <= i < |visited| ==> Queued(loader, entry, visited[..i], visited[i].item)
    requires Queued(loader, entry, visited, visit.item)
    ensures forall i :: 0 <= i < |visited| + 1 ==>
      Queued(loader, entry, (visited + [visit])[..i], (visited + [visit])[i].item)
  {
    hide Queued;
    var visited' := visited + [visit];
    forall i | 0 <= i < |visited'| ensures Queued(loader, entry, visited'[..i], visited'[i].item) {
      assert visited'[..i] == if i < |visited| then visited[..i] else visited;
    }
  }

  // Visiting the head of the queue and queueing its imports keeps the invariant.
  lemma VisitKeepsWalk(
      loader: Loader, entry: Item, visited: seq<Visit>, queue: seq<Item>, visit: Visit, items: seq<Item>)
    requires Walked(loader, entry, visited, queue)
    requires queue != [] && visit.item == queue[0] && Faithful(loader, visit)
    requires queue[0].name !in VisitedNames(visited)
    requires NewItems(loader, visit, |visited|, VisitedNames(visited + [visit]), 0) == Ok(items)
    ensures Walked(loader, entry, visited + [visit], queue[1..] + items)
  {
    hide Queued, Faithful, Chain, NewItems, VisitedNames;
    var visited' := visited + [visit];
    assert visited'[|visited|] == visit;
    NewItemsProperties(loader, entry, visited', |visited|, VisitedNames(visited'), 0);
    VisitKeepsChain(loader, entry, visited, queue, visit, items);
    VisitKeepsQueued(loader, entry, visited, queue, visit, items);
    VisitKeepsVisits(loader, entry, visited, visit);
    assert forall i :: 0 <= i < |visited| ==> visited'[i] == visited[i];
  }

  lemma VisitKeepsCovered(
      loader: Loader, entry: Item, visited: seq<Visit>, queue: seq<Item>, visit: Visit, items: seq<Item>)
    requires Covered(loader, visited, queue)
    requires queue != [] && visit.item == queue[0]
    requires NewItems(loader, visit, |visited|, VisitedNames(visited + [visit]), 0) == Ok(items)
    ensures Covered(loader, visited + [visit], queue[1..] + items)
  {
    hide Resolve, Queued, Chain, NewItems;
    var visited', queue' := visited + [visit], queue[1..] + items;
    var known := VisitedNames(visited');
    assert visited'[|visited|] == visit;
    NewItemsProperties(loader, entry, visited', |visited|, known, 0);
    assert visit.item.name in known;
    forall j, p | 0 <= j < |visited'| && 0 <= p < |visited'[j].imports|
      ensures CoveredImport(loader, visited', queue', j, p)
    {
      var name := visited'[j].imports[p];
      if j < |visited| {
        assert CoveredImport(loader, visited, queue, j, p);
        if name !in loader.precompiled && name !in VisitedNames(visited) {
          var k :| 0 <= k < |queue| && queue[k].name == name && queue[k].from == j && queue[k].at == p;
          if k > 0 {
            assert queue'[k - 1] == queue[k];
          }
        } else if name in VisitedNames(visited) {
          var i :| 0 <= i < |visited| && visited[i].item.name == name;
          assert visited'[i].item.name == name;
        }
      } else if name !in known && name !in loader.precompiled {
        assert ItemFor(loader, visit, |visited|, known, items, p);
        var k :| 0 <= k < |items| && items[k].name == name && items[k].from == j && items[k].at == p;
        assert queue'[|queue| - 1 + k] == items[k];
      }
    }
  }

  // The head of the queue, when it is not visited yet, stands for the first
  // import of its module.
  lemma HeadIsFirstImport(loader: Loader, entry: Item, visited: seq<Visit>, queue: seq<Item>, j: int, p: int)
    requires Walked(loader, entry, visited, queue) && Covered(loader, visited, queue)
    requires queue != [] && queue[0].name !in VisitedNames(visited)
    requires Imports(visited, j, p, queue[0].name) && queue[0].from != -1
    ensures queue[0].from < j || (queue[0].from == j && queue[0].at <= p)
  {
    hide Queued, Faithful, Chain, VisitedNames;
    NotPrecompiled(loader, entry, visited, queue[0]);
    assert CoveredImport(loader, visited, queue, j, p);
    var k :| 0 <= k < |queue| && queue[k].name == queue[0].name && queue[k].from == j && queue[k].at == p;
    HeadIsEarliest(Items(visited), queue, k);
  }

  lemma NotPrecompiled(loader: Loader, entry: Item, visited: seq<Visit>, item: Item)
    requires Queued(loader, entry, visited, item) && item.from != -1
    ensures item.name !in loader.precompiled
  {
    hide Resolve;
  }

  lemma HeadIsEarliest(items: seq<Item>, queue: seq<Item>, k: nat)
    requires Chain(items + queue) && k < |queue|
    ensures k == 0 || Earlier(queue[0], queue[k])
  {
    var all := items + queue;
    assert all[|items|] == queue[0] && all[|items| + k] == queue[k];
  }

  lemma VisitKeepsFirstImports(
      loader: Loader, entry: Item, visited: seq<Visit>, queue: seq<Item>, visit: Visit)
    requires Walked(loader, entry, visited, queue) && Covered(loader, visited, queue) && FirstImports(visited)
    requires queue != [] && visit.item == queue[0]
    requires queue[0].name !in VisitedNames(visited)
    ensures FirstImports(visited + [visit])
  {
    hide Queued, Faithful, Chain, Covered, VisitedNames;
    ItemsFromEarlier(loader, entry, visited, queue);
    var visited' := visited + [visit];
    var n := |visited|;
    forall i, j, p | 0 <= i < |visited'| && Imports(visited', j, p, visited'[i].item.name)
      ensures visited'[i].item.from == -1 || visited'[i].item.from < j
        || (visited'[i].item.from == j && visited'[i].item.at <= p)
    {
      if j < n {
        assert Imports(visited, j, p, visited'[i].item.name);
        if i == n && visit.item.from != -1 {
          HeadIsFirstImport(loader, entry, visited, queue, j, p);
        }
      }
    }
  }

  // ---------- owners ----------

  // Exactly one assignment for every loaded name: a visited module's own owner,
  // or the owner given for a precompiled one.
  ghost predicate Assigned(
      loader: Loader, visited: seq<Visit>, loaded: set<string>, assignments: seq<(string, Owner)>)
  {
    && (forall i, j :: 0 <= i < j < |assignments| ==> assignments[i].0 != assignments[j].0)
    && (forall i :: 0 <= i < |assignments| ==> assignments[i].0 in loaded)
    && (forall name :: name in loaded ==> AssignedName(assignments, name))
    && (forall i :: 0 <= i < |assignments| ==> RightOwner(loader, visited, assignments[i]))
  }

  ghost predicate AssignedName(assignments: seq<(string, Owner)>, name: string) {
    exists i :: 0 <= i < |assignments| && assignments[i].0 == name
  }

  ghost predicate RightOwner(loader: Loader, visited: seq<Visit>, assignment: (string, Owner)) {
    if assignment.0 in VisitedNames(visited) then
      exists k :: 0 <= k < |visited| && visited[k].item.name == assignment.0 && visited[k].owner == assignment.1
    else assignment.0 in loader.precompiled && loader.precompiled[assignment.0] == assignment.1
  }

  // User code is what was read from files, and the precompiled modules.
  ghost predicate UserModules(visited: seq<Visit>, loaded: set<string>, userModules: set<string>) {
    forall name :: name in userModules <==>
      UserVisit(visited, name) || (name in loaded && name !in VisitedNames(visited))
  }

  ghost predicate UserVisit(visited: seq<Visit>, name: string) {
    exists k :: 0 <= k < |visited| && visited[k].item.name == name && visited[k].user
  }

  lemma AssignPrecompiled(
      loader: Loader, visited: seq<Visit>, loaded: set<string>, assignments: seq<(string, Owner)>,
      userModules: set<string>, name: string)
    requires Assigned(loader, visited, loaded, assignments) && UserModules(visited, loaded, userModules)
    requires VisitedNames(visited) <= loaded && name !in loaded && name in loader.precompiled
    ensures Assigned(loader, visited, loaded + {name}, assignments + [(name, loader.precompiled[name])])
    ensures UserModules(visited, loaded + {name}, userModules + {name})
  {
    hide VisitedNames, UserVisit;
    var assignments' := assignments + [(name, loader.precompiled[name])];
    forall x | x in loaded + {name} ensures AssignedName(assignments', x) {
      if x in loaded {
        var i :| 0 <= i < |assignments| && assignments[i].0 == x;
        assert assignments'[i].0 == x;
      } else {
        assert assignments'[|assignments|].0 == x;
      }
    }
  }

  lemma AssignVisited(
      loader: Loader, visited: seq<Visit>, loaded: set<string>, assignments: seq<(string, Owner)>,
      visit: Visit)
    requires Assigned(loader, visited, loaded, assignments)
    requires visit.item.name !in loaded && VisitedNames(visited) <= loaded
    ensures Assigned(loader, visited + [visit], loaded + {visit.item.name},
                     assignments + [(visit.item.name, visit.owner)])
  {
    hide VisitedNames;
    var name, visited' := visit.item.name, visited + [visit];
    var assignments' := assignments + [(name, visit.owner)];
    OneMoreVisited(visited, visit);
    forall x | x in loaded + {name} ensures AssignedName(assignments', x) {
      if x in loaded {
        var i :| 0 <= i < |assignments| && assignments[i].0 == x;
        assert assignments'[i].0 == x;
      } else {
        assert assignments'[|assignments|].0 == x;
      }
    }
    forall i | 0 <= i < |assignments'| ensures RightOwner(loader, visited', assignments'[i]) {
      if i < |assignments| {
        assert RightOwner(loader, visited, assignments[i]);
        if assignments[i].0 in VisitedNames(visited) {
          var k :| 0 <= k < |visited|
            && visited[k].item.name == assignments[i].0 && visited[k].owner == assignments[i].1;
          assert visited'[k] == visited[k];
        }
      } else {
        assert visited'[|visited|] == visit;
      }
    }
  }

  lemma UserVisited(visited: seq<Visit>, loaded: set<string>, userModules: set<string>, visit: Visit)
    requires UserModules(visited, loaded, userModules)
    requires visit.item.name !in loaded && VisitedNames(visited) <= loaded
    ensures UserModules(visited + [visit], loaded + {visit.item.name},
                        if visit.user then userModules + {visit.item.name} else userModules)
  {
    hide VisitedNames;
    var name, visited' := visit.item.name, visited + [visit];
    OneMoreVisited(visited, visit);
    forall x ensures UserVisit(visited', x) <==> UserVisit(visited, x) || (x == name && visit.user) {
      if UserVisit(visited, x) {
        var k :| 0 <= k < |visited| && visited[k].item.name == x && visited[k].user;
        assert visited'[k] == visited[k];
      }
      if x == name && visit.user {
        assert visited'[|visited|] == visit;
      }
    }
    forall x ensures UserVisit(visited, x) ==> x in VisitedNames(visited) {
      UserVisitIsVisited(visited, x);
    }
  }

  lemma UserVisitIsVisited(visited: seq<Visit>, name: string)
    ensures UserVisit(visited, name) ==> name in VisitedNames(visited)
  {
  }

  lemma OneMoreVisited(visited: seq<Visit>, visit: Visit)
    ensures VisitedNames(visited + [visit]) == VisitedNames(visited) + {visit.item.name}
  {
    var visited' := visited + [visit];
    assert forall i :: 0 <= i < |visited| ==> visited'[i] == visited[i];
    assert visited'[|visited|] == visit;
  }

  // ---------- the loader ----------

  // An import has to be looked for: it is neither known nor precompiled.
  ghost predicate Sought(loader: Loader, known: set<string>, name: string) {
    name !in known && name !in loader.precompiled
  }

  // The first import that has to be looked for and cannot be resolved fails
  // with the message.
  ghost predicate UnresolvedImport(loader: Loader, visit: Visit, known: set<string>, message: string) {
    exists p :: 0 <= p < |visit.imports|
      && Sought(loader, known, visit.imports[p])
      && Resolve(loader, visit.item.path, visit.owner, visit.imports[p]) == Err(message)
      && ResolvedBefore(loader, visit, known, p)
  }

  ghost predicate ResolvedBefore(loader: Loader, visit: Visit, known: set<string>, p: nat)
    requires p <= |visit.imports|
  {
    forall q :: 0 <= q < p && Sought(loader, known, visit.imports[q]) ==>
      Resolve(loader, visit.item.path, visit.owner, visit.imports[q]).Ok?
  }

  lemma NewItemsStep(loader: Loader, visit: Visit, from: nat, known: set<string>, p: nat)
    requires p < |visit.imports|
    ensures var name, rest := visit.imports[p], NewItems(loader, visit, from, known, p + 1);
      var resolved := Resolve(loader, visit.item.path, visit.owner, name);
      && (name in known || name in loader.precompiled ==> NewItems(loader, visit, from, known, p) == rest)
      && (name !in known && name !in loader.precompiled ==>
            && (resolved.Err? ==> NewItems(loader, visit, from, known, p) == Err(resolved.error))
            && (resolved.Ok? && rest.Err? ==> NewItems(loader, visit, from, known, p) == rest)
            && (resolved.Ok? && rest.Ok? ==>
                  NewItems(loader, visit, from, known, p) ==
                    Ok([Item(name, resolved.value.0, resolved.value.1, from, p)] + rest.value)))
    ensures PrecompiledImports(loader, visit.imports[..p + 1]) ==
      PrecompiledImports(loader, visit.imports[..p]) +
      (if visit.imports[p] in loader.precompiled then {visit.imports[p]} else {})
  {
    hide Resolve;
    assert visit.imports[..p + 1] == visit.imports[..p] + [visit.imports[p]];
  }

  lemma NoItemsYet(loader: Loader, visit: Visit, from: nat, known: set<string>)
    ensures NewItems(loader, visit, from, known, |visit.imports|) == Ok([])
    ensures PrecompiledImports(loader, visit.imports[..0]) == {}
    ensures PrecompiledImports(loader, visit.imports[..|visit.imports|]) == PrecompiledImports(loader, visit.imports)
  {
    assert visit.imports[..|visit.imports|] == visit.imports;
  }

  // Queue the imports of the module visited last. The failure, if any, is that
  // of the first import that cannot be resolved.
  method QueueImports(
      loader: Loader, visited: seq<Visit>, loaded0: set<string>, queue0: seq<Item>,
      users0: set<string>, assignments0: seq<(string, Owner)>)
    returns (failure: Option<string>, loaded: set<string>, queue: seq<Item>,
             users: set<string>, assignments: seq<(string, Owner)>)
    requires visited != []
    requires VisitedNames(visited) <= loaded0 <= VisitedNames(visited) + loader.precompiled.Keys
    requires Assigned(loader, visited, loaded0, assignments0) && UserModules(visited, loaded0, users0)
    ensures failure.None? ==>
      && var visit := visited[|visited| - 1];
      && var items := NewItems(loader, visit, |visited| - 1, VisitedNames(visited), 0);
      && items.Ok? && queue == queue0 + items.value
      && loaded == loaded0 + PrecompiledImports(loader, visit.imports)
      && Assigned(loader, visited, loaded, assignments) && UserModules(visited, loaded, users)
    ensures failure.Some? ==>
      UnresolvedImport(loader, visited[|visited| - 1], VisitedNames(visited), failure.value)
  {
    hide Assigned, UserModules, VisitedNames, SiblingOwner, Resolve, NewItems, PrecompiledImports;
    failure, loaded, queue, users, assignments := None, loaded0, queue0, users0, assignments0;
    var from := |visited| - 1;
    var visit := visited[from];
    ghost var known := VisitedNames(visited);
    ghost var all := NewItems(loader, visit, from, known, 0);
    assert all.Ok? ==> queue[|queue0|..] + all.value == all.value;
    NoItemsYet(loader, visit, from, known);
    for p := 0 to |visit.imports|
      invariant failure.None?
      invariant known <= loaded <= known + loader.precompiled.Keys
      invariant loaded == loaded0 + PrecompiledImports(loader, visit.imports[..p])
      invariant Assigned(loader, visited, loaded, assignments) && UserModules(visited, loaded, users)
      invariant queue0 <= queue
      invariant ResolvedBefore(loader, visit, known, p)
      invariant var rest := NewItems(loader, visit, from, known, p);
        NewItems(loader, visit, from, known, 0) ==
          if rest.Ok? then Ok(queue[|queue0|..] + rest.value) else rest
    {
      var name := visit.imports[p];
      NewItemsStep(loader, visit, from, known, p);
      if name in loaded {
        continue;
      }
      if name in loader.precompiled {
        AssignPrecompiled(loader, visited, loaded, assignments, users, name);
        loaded := loaded + {name};
        users := users + {name};
        assignments := assignments + [(name, loader.precompiled[name])];
        continue;
      }
      var resolved := Resolve(loader, visit.item.path, visit.owner, name);
      if resolved.Err? {
        failure := Some(resolved.error);
        return;
      }
      var item := Item(name, resolved.value.0, resolved.value.1, from, p);
      ghost var before, rest := queue[|queue0|..], NewItems(loader, visit, from, known, p + 1);
      queue := queue + [item];
      assert queue[|queue0|..] == before + [item];
      assert rest.Ok? ==> before + ([item] + rest.value) == (before + [item]) + rest.value;
    }
  }

  // The checks made before anything is read.
  function Misconfigured(loader: Loader, reserved: set<string>): (r: bool)
    ensures !r <==>
      && loader.deps.Keys == loader.depOwners.Keys
      && loader.deps.Keys !! loader.precompiled.Keys && reserved !! loader.precompiled.Keys
  {
    || (exists name :: name in loader.deps && name !in loader.depOwners)
    || (exists name :: name in loader.precompiled && name in loader.deps)
    || (exists name :: name in loader.precompiled && name in reserved)
    || (exists name :: name in loader.depOwners && name !in loader.deps)
  }

  // The import graph of the entry is finite: a finite set of names holds the
  // entry and whatever is imported by a source that one of the names can be
  // entered with.
  ghost predicate FiniteImports(loader: Loader, entry: string, universe: set<string>) {
    && entry in universe
    && forall name, path, proposed :: name in universe && Enter(loader, name, path, proposed).Ok? ==>
         ImportsWithin(loader, path, Enter(loader, name, path, proposed).value.0, universe)
  }

  ghost predicate ImportsWithin(loader: Loader, path: string, source: string, universe: set<string>) {
    loader.parse(path, source).Ok? ==>
      forall name :: name in loader.parse(path, source).value ==> name in universe
  }

  // What a successful load has done: the visits start with the entry, follow
  // the imports in breadth-first order and leave no import out; owners and
  // user modules are as they should be.
  ghost predicate LoadedWell(loader: Loader, entry: Item, r: Loaded) {
    && r.visited != []
    && Reached(loader, entry, r.visited, [])
    && var loaded := VisitedNames(r.visited) + PrecompiledReached(loader, r.visited);
    && Assigned(loader, r.visited, loaded, r.assignments)
    && UserModules(r.visited, loaded, r.userModules)
  }

  lemma ReachedOneMore(loader: Loader, visited: seq<Visit>, visit: Visit)
    ensures PrecompiledReached(loader, visited + [visit]) ==
      PrecompiledReached(loader, visited) + PrecompiledImports(loader, visit.imports)
  {
    var visited' := visited + [visit];
    assert forall i :: 0 <= i < |visited| ==> visited'[i] == visited[i];
    assert visited'[|visited|] == visit;
  }

  lemma QueuedNamesInUniverse(loader: Loader, entry: Item, visited: seq<Visit>, queue: seq<Item>, universe: set<string>)
    requires Walked(loader, entry, visited, queue) && FiniteImports(loader, entry.name, universe)
    requires VisitedNames(visited) <= universe
    ensures forall k :: 0 <= k < |queue| ==> queue[k].name in universe
  {
    hide Resolve, Enter, Chain;
    forall k | 0 <= k < |queue| ensures queue[k].name in universe {
      assert Queued(loader, entry, visited, queue[k]);
      if queue[k].from != -1 {
        var importer := visited[queue[k].from];
        assert Faithful(loader, importer) && importer.item.name in universe;
        assert ImportsWithin(loader, importer.item.path, importer.source, universe);
      }
    }
  }

  ghost predicate StartsAt(entry: Item, visited: seq<Visit>, queue: seq<Item>) {
    if visited == [] then queue == [entry] else visited[0].item == entry
  }

  // Every import that had to be looked for when its module was visited resolves.
  ghost predicate AllResolved(loader: Loader, visited: seq<Visit>) {
    forall j :: 0 <= j < |visited| ==>
      ResolvedBefore(loader, visited[j], VisitedNames(visited[..j + 1]), |visited[j].imports|)
  }

  // How far a walk from the entry has come.
  ghost predicate Reached(loader: Loader, entry: Item, visited: seq<Visit>, queue: seq<Item>) {
    && StartsAt(entry, visited, queue)
    && Walked(loader, entry, visited, queue)
    && Covered(loader, visited, queue)
    && FirstImports(visited)
    && AllResolved(loader, visited)
  }

  lemma {:induction false} NewItemsResolve(loader: Loader, visit: Visit, from: nat, known: set<string>, p: nat)
    requires p <= |visit.imports| && NewItems(loader, visit, from, known, p).Ok?
    ensures forall q :: p <= q < |visit.imports| && Sought(loader, known, visit.imports[q]) ==>
      Resolve(loader, visit.item.path, visit.owner, visit.imports[q]).Ok?
    decreases |visit.imports| - p
  {
    hide Resolve;
    if p < |visit.imports| {
      NewItemsResolve(loader, visit, from, known, p + 1);
    }
  }

  lemma VisitKeepsResolved(loader: Loader, visited: seq<Visit>, visit: Visit, items: seq<Item>)
    requires AllResolved(loader, visited)
    requires NewItems(loader, visit, |visited|, VisitedNames(visited + [visit]), 0) == Ok(items)
    ensures AllResolved(loader, visited + [visit])
  {
    hide Resolve, NewItems, VisitedNames, ResolvedBefore;
    var visited' := visited + [visit];
    forall j | 0 <= j < |visited'|
      ensures ResolvedBefore(loader, visited'[j], VisitedNames(visited'[..j + 1]), |visited'[j].imports|)
    {
      if j < |visited| {
        assert visited'[..j + 1] == visited[..j + 1];
      } else {
        assert visited'[..j + 1] == visited';
        VisitIsResolved(loader, visit, |visited|, VisitedNames(visited'));
      }
    }
  }

  lemma VisitIsResolved(loader: Loader, visit: Visit, from: nat, known: set<string>)
    requires NewItems(loader, visit, from, known, 0).Ok?
    ensures ResolvedBefore(loader, visit, known, |visit.imports|)
  {
    hide Resolve, NewItems;
    NewItemsResolve(loader, visit, from, known, 0);
  }

  // Between visits: everything the loop of the loader maintains.
  ghost predicate Loading(loader: Loader, entry: Item, visited: seq<Visit>, queue: seq<Item>, loaded: set<string>,
                          users: set<string>, assignments: seq<(string, Owner)>) {
    && Reached(loader, entry, visited, queue)
    && loaded == VisitedNames(visited) + PrecompiledReached(loader, visited)
    && Assigned(loader, visited, loaded, assignments)
    && UserModules(visited, loaded, users)
  }

  lemma LoadingStarts(loader: Loader, entry: Item)
    requires entry.from == -1
    ensures Loading(loader, entry, [], [entry], {}, {}, [])
  {
    assert Items([]) + [entry] == [entry];
    assert VisitedNames([]) == {} && PrecompiledReached(loader, []) == {};
  }

  // Precompiled modules do not enter the queue.
  lemma QueueIsNotPrecompiled(loader: Loader, entry: Item, visited: seq<Visit>, queue: seq<Item>)
    requires Walked(loader, entry, visited, queue)
    ensures queue != [] && visited != [] ==> queue[0].name !in PrecompiledReached(loader, visited)
  {
    hide Resolve, Faithful;
    ItemsFromEarlier(loader, entry, visited, queue);
    if queue != [] && visited != [] {
      assert Queued(loader, entry, visited, queue[0]);
    }
  }

  lemma SkipKeepsLoading(loader: Loader, entry: Item, visited: seq<Visit>, queue: seq<Item>, loaded: set<string>,
                         users: set<string>, assignments: seq<(string, Owner)>)
    requires Loading(loader, entry, visited, queue, loaded, users, assignments)
    requires queue != [] && queue[0].name in loaded
    ensures Loading(loader, entry, visited, queue[1..], loaded, users, assignments)
  {
    hide Walked, Covered, FirstImports, Assigned, UserModules, VisitedNames, AllResolved;
    NothingLoadedAtStart(loader, visited);
    QueueIsNotPrecompiled(loader, entry, visited, queue);
    SkipKeepsWalk(loader, entry, visited, queue);
  }

  lemma NothingLoadedAtStart(loader: Loader, visited: seq<Visit>)
    ensures visited == [] ==> VisitedNames(visited) + PrecompiledReached(loader, visited) == {}
  {
  }

  lemma VisitKeepsLoading(
      loader: Loader, entry: Item, visited: seq<Visit>, queue: seq<Item>, loaded: set<string>,
      users: set<string>, assignments: seq<(string, Owner)>, visit: Visit, items: seq<Item>,
      loaded': set<string>, users': set<string>, assignments': seq<(string, Owner)>)
    requires Loading(loader, entry, visited, queue, loaded, users, assignments)
    requires queue != [] && visit.item == queue[0] && Faithful(loader, visit)
    requires queue[0].name !in loaded
    requires NewItems(loader, visit, |visited|, VisitedNames(visited + [visit]), 0) == Ok(items)
    requires loaded' == loaded + {visit.item.name} + PrecompiledImports(loader, visit.imports)
    requires Assigned(loader, visited + [visit], loaded', assignments')
    requires UserModules(visited + [visit], loaded', users')
    ensures Loading(loader, entry, visited + [visit], queue[1..] + items, loaded', users', assignments')
  {
    hide Walked, Covered, FirstImports, Assigned, UserModules, VisitedNames, PrecompiledReached, NewItems, Faithful,
         AllResolved;
    VisitKeepsResolved(loader, visited, visit, items);
    VisitKeepsWalk(loader, entry, visited, queue, visit, items);
    VisitKeepsCovered(loader, entry, visited, queue, visit, items);
    VisitKeepsFirstImports(loader, entry, visited, queue, visit);
    ReachedOneMore(loader, visited, visit);
    OneMoreVisited(visited, visit);
  }

  // The walk has come to a module, not visited before, that cannot be read and
  // authenticated, parsed, or rid of an unresolved import.
  ghost predicate StopsAt(loader: Loader, entry: Item, visited: seq<Visit>, queue: seq<Item>, message: string) {
    && Reached(loader, entry, visited, queue)
    && queue != [] && queue[0].name !in VisitedNames(visited)
    && FailsAt(loader, visited, queue[0], message)
  }

  ghost predicate FailsAt(loader: Loader, visited: seq<Visit>, item: Item, message: string) {
    match Enter(loader, item.name, item.path, item.proposed)
    case Err(m) => m == message
    case Ok((source, owner, user)) =>
      match loader.parse(item.path, source)
      case Err(m) => m == message
      case Ok(imports) =>
        var visit := Visit(item, source, owner, user, imports);
        UnresolvedImport(loader, visit, VisitedNames(visited + [visit]), message)
  }

  // ---------- there is one walk ----------

  // Only the entry is not imported by an earlier module.
  lemma ImportedByEarlier(loader: Loader, entry: Item, visited: seq<Visit>, queue: seq<Item>, i: nat)
    requires Reached(loader, entry, visited, queue) && entry.from == -1 && 0 < i < |visited|
    ensures 0 <= visited[i].item.from < i
  {
    hide Resolve, Faithful, Covered, FirstImports, AllResolved, VisitedNames;
    var all := Items(visited) + queue;
    assert Queued(loader, entry, visited[..i], visited[i].item);
    assert Earlier(all[0], all[i]);
  }

  // Whether the walk goes on after k visits, and where to.
  ghost predicate GoesOn(visited: seq<Visit>, queue: seq<Item>, k: nat) {
    k < |visited| || (k == |visited| && queue != [] && queue[0].name !in VisitedNames(visited))
  }

  ghost function NextItem(visited: seq<Visit>, queue: seq<Item>, k: nat): Item
    requires GoesOn(visited, queue, k)
  {
    if k < |visited| then visited[k].item else queue[0]
  }

  // After the entry the walk goes on to an import of the modules visited before
  // that is not among them.
  lemma NextIsImported(loader: Loader, entry: Item, visited: seq<Visit>, queue: seq<Item>, k: nat)
    requires Reached(loader, entry, visited, queue) && entry.from == -1
    requires 0 < k && GoesOn(visited, queue, k)
    ensures var item := NextItem(visited, queue, k);
      && 0 <= item.from < k && Queued(loader, entry, visited[..k], item)
      && item.name !in VisitedNames(visited[..k])
  {
    hide Queued, Faithful, Chain, Covered, FirstImports, AllResolved;
    if k < |visited| {
      ImportedByEarlier(loader, entry, visited, queue, k);
    } else {
      assert visited[..k] == visited;
      ItemsFromEarlier(loader, entry, visited, queue);
    }
  }

  // What the walk goes on to comes before everything after it.
  lemma NextIsEarliest(visited: seq<Visit>, queue: seq<Item>, k: nat, m: nat)
    requires Chain(Items(visited) + queue) && GoesOn(visited, queue, k) && k <= m < |visited| + |queue|
    ensures var item := if m < |visited| then visited[m].item else queue[m - |visited|];
      NextItem(visited, queue, k) == item || Earlier(NextItem(visited, queue, k), item)
  {
    hide VisitedNames;
    var all := Items(visited) + queue;
    assert k == m || Earlier(all[k], all[m]);
  }

  // It goes on to the first of them: no import of the modules visited before
  // comes earlier, unless it is precompiled or visited.
  lemma NextIsFirst(loader: Loader, entry: Item, visited: seq<Visit>, queue: seq<Item>, k: nat, j: nat, p: nat)
    requires Reached(loader, entry, visited, queue) && entry.from == -1
    requires 0 < k && GoesOn(visited, queue, k)
    requires j < k && j < |visited| && p < |visited[j].imports|
    requires visited[j].imports[p] !in loader.precompiled
    requires visited[j].imports[p] !in VisitedNames(visited[..k])
    ensures var item := NextItem(visited, queue, k); item.from < j || (item.from == j && item.at <= p)
  {
    hide StartsAt, Walked, FirstImports, AllResolved, NextItem, VisitedNames;
    var name := visited[j].imports[p];
    assert CoveredImport(loader, visited, queue, j, p);
    if name in VisitedNames(visited) {
      var m := VisitedAfter(visited, k, name);
      VisitIsNotEarlier(loader, entry, visited, queue, k, m, j, p);
    } else {
      var q :| 0 <= q < |queue| && queue[q].name == name && queue[q].from == j && queue[q].at == p;
      QueueIsNotEarlier(loader, entry, visited, queue, k, q);
    }
  }

  lemma VisitedAfter(visited: seq<Visit>, k: nat, name: string) returns (m: nat)
    requires k <= |visited| && name in VisitedNames(visited) && name !in VisitedNames(visited[..k])
    ensures k <= m < |visited| && visited[m].item.name == name
  {
    var i :| 0 <= i < |visited| && visited[i].item.name == name;
    m := i;
  }

  lemma VisitIsNotEarlier(
      loader: Loader, entry: Item, visited: seq<Visit>, queue: seq<Item>, k: nat, m: nat, j: nat, p: nat)
    requires Reached(loader, entry, visited, queue) && entry.from == -1
    requires 0 < k <= m < |visited| && GoesOn(visited, queue, k)
    requires Imports(visited, j, p, visited[m].item.name)
    ensures var item := NextItem(visited, queue, k); item.from < j || (item.from == j && item.at <= p)
  {
    hide StartsAt, Covered, AllResolved, Chain, Queued, Faithful;
    ImportedByEarlier(loader, entry, visited, queue, m);
    NextIsEarliest(visited, queue, k, m);
  }

  lemma QueueIsNotEarlier(loader: Loader, entry: Item, visited: seq<Visit>, queue: seq<Item>, k: nat, q: nat)
    requires Reached(loader, entry, visited, queue) && GoesOn(visited, queue, k) && q < |queue|
    ensures var item := NextItem(visited, queue, k);
      item.from < queue[q].from || (item.from == queue[q].from && item.at <= queue[q].at)
  {
    hide StartsAt, Covered, FirstImports, AllResolved, Chain, Queued, Faithful;
    NextIsEarliest(visited, queue, k, |visited| + q);
  }

  lemma SameNext(loader: Loader, entry: Item, a: seq<Visit>, qa: seq<Item>, b: seq<Visit>, qb: seq<Item>, k: nat)
    requires Reached(loader, entry, a, qa) && Reached(loader, entry, b, qb) && entry.from == -1
    requires GoesOn(a, qa, k) && GoesOn(b, qb, k) && a[..k] == b[..k]
    ensures NextItem(a, qa, k) == NextItem(b, qb, k)
  {
    hide Resolve, Faithful, Walked, Covered, FirstImports, AllResolved, VisitedNames;
    if k > 0 {
      NextIsImported(loader, entry, a, qa, k);
      NextIsImported(loader, entry, b, qb, k);
      var x, y := NextItem(a, qa, k), NextItem(b, qb, k);
      assert a[x.from] == a[..k][x.from] == b[x.from] && a[y.from] == b[..k][y.from] == b[y.from];
      NextIsFirst(loader, entry, b, qb, k, x.from, x.at);
      NextIsFirst(loader, entry, a, qa, k, y.from, y.at);
    }
  }

  // Two walks from the same entry agree as far as both have come.
  lemma {:induction false} WalksAgree(
      loader: Loader, entry: Item, a: seq<Visit>, qa: seq<Item>, b: seq<Visit>, qb: seq<Item>, k: nat)
    requires Reached(loader, entry, a, qa) && Reached(loader, entry, b, qb) && entry.from == -1
    requires k <= |a| && k <= |b|
    ensures a[..k] == b[..k]
  {
    hide StartsAt, Enter, Queued, Chain, Covered, FirstImports, AllResolved;
    if k > 0 {
      WalksAgree(loader, entry, a, qa, b, qb, k - 1);
      SameNext(loader, entry, a, qa, b, qb, k - 1);
      assert Faithful(loader, a[k - 1]) && Faithful(loader, b[k - 1]);
      assert a[..k] == a[..k - 1] + [a[k - 1]] && b[..k] == b[..k - 1] + [b[k - 1]];
    }
  }

  lemma NothingQueued(loader: Loader, visited: seq<Visit>, j: nat, p: nat)
    requires Covered(loader, visited, []) && j < |visited| && p < |visited[j].imports|
    ensures visited[j].imports[p] in loader.precompiled || visited[j].imports[p] in VisitedNames(visited)
  {
    assert CoveredImport(loader, visited, [], j, p);
  }

  // Where one walk has emptied its queue, no other goes on.
  lemma CompleteIsLast(loader: Loader, entry: Item, a: seq<Visit>, qa: seq<Item>, b: seq<Visit>)
    requires Reached(loader, entry, a, qa) && Reached(loader, entry, b, []) && entry.from == -1
    requires b != [] && |b| <= |a|
    ensures !GoesOn(a, qa, |b|)
  {
    hide StartsAt, Resolve, Walked, Covered, FirstImports, AllResolved, VisitedNames;
    if GoesOn(a, qa, |b|) {
      WalksAgree(loader, entry, a, qa, b, [], |b|);
      assert b[..|b|] == b;
      NextIsImported(loader, entry, a, qa, |b|);
      var item := NextItem(a, qa, |b|);
      NothingQueued(loader, b, item.from, item.at);
    }
  }

  lemma VisitDoesNotFail(loader: Loader, visited: seq<Visit>, visit: Visit, message: string)
    requires Faithful(loader, visit)
    requires ResolvedBefore(loader, visit, VisitedNames(visited + [visit]), |visit.imports|)
    ensures !FailsAt(loader, visited, visit.item, message)
  {
    hide Enter, Resolve, VisitedNames;
  }

  lemma FailsOnce(loader: Loader, visited: seq<Visit>, item: Item, m: string, m': string)
    requires FailsAt(loader, visited, item, m) && FailsAt(loader, visited, item, m')
    ensures m == m'
  {
    hide Enter, Resolve, VisitedNames;
  }

  // No walk gets past a module that fails.
  lemma StopIsNotPassed(
      loader: Loader, entry: Item, a: seq<Visit>, qa: seq<Item>, message: string, b: seq<Visit>, qb: seq<Item>)
    requires StopsAt(loader, entry, a, qa, message) && Reached(loader, entry, b, qb) && entry.from == -1
    ensures |b| <= |a|
  {
    hide StartsAt, Covered, FirstImports, FailsAt, VisitedNames, ResolvedBefore, Faithful, Queued, Chain;
    if |a| < |b| {
      WalksAgree(loader, entry, a, qa, b, qb, |a|);
      assert a[..|a|] == a;
      SameNext(loader, entry, a, qa, b, qb, |a|);
      assert b[..|a| + 1] == a + [b[|a|]];
      VisitDoesNotFail(loader, a, b[|a|], message);
    }
  }

  // A walk that stops decides the outcome: no load succeeds, and no other
  // message is possible.
  lemma StopDecides(loader: Loader, entry: Item, visited: seq<Visit>, queue: seq<Item>, message: string)
    requires StopsAt(loader, entry, visited, queue, message) && entry.from == -1
    ensures forall r :: !LoadedWell(loader, entry, r)
    ensures forall visited', queue', m :: StopsAt(loader, entry, visited', queue', m) ==> m == message
  {
    hide Reached, FailsAt, VisitedNames, Assigned, UserModules, PrecompiledReached;
    forall r ensures !LoadedWell(loader, entry, r) {
      if LoadedWell(loader, entry, r) {
        StopIsNotPassed(loader, entry, visited, queue, message, r.visited, []);
        CompleteIsLast(loader, entry, visited, queue, r.visited);
      }
    }
    forall visited', queue', m | StopsAt(loader, entry, visited', queue', m) ensures m == message {
      StopIsNotPassed(loader, entry, visited, queue, message, visited', queue');
      StopIsNotPassed(loader, entry, visited', queue', m, visited, queue);
      WalksAgree(loader, entry, visited, queue, visited', queue', |visited|);
      assert visited[..|visited|] == visited && visited'[..|visited|] == visited';
      SameNext(loader, entry, visited, queue, visited', queue', |visited|);
      FailsOnce(loader, visited, queue[0], message, m);
    }
  }

  // So does a walk that empties its queue: no load fails, and every load visits
  // the same modules in the same order.
  lemma LoadDecides(loader: Loader, entry: Item, r: Loaded)
    requires LoadedWell(loader, entry, r) && entry.from == -1
    ensures forall visited, queue, m :: !StopsAt(loader, entry, visited, queue, m)
    ensures forall other :: LoadedWell(loader, entry, other) ==> other.visited == r.visited
  {
    hide Reached, FailsAt, VisitedNames, Assigned, UserModules, PrecompiledReached;
    forall visited, queue, m ensures !StopsAt(loader, entry, visited, queue, m) {
      if StopsAt(loader, entry, visited, queue, m) {
        StopDecides(loader, entry, visited, queue, m);
      }
    }
    forall other | LoadedWell(loader, entry, other) ensures other.visited == r.visited {
      var a, b := r.visited, other.visited;
      if |a| < |b| {
        CompleteIsLast(loader, entry, b, [], a);
      } else if |b| < |a| {
        CompleteIsLast(loader, entry, a, [], b);
      }
      WalksAgree(loader, entry, a, [], b, [], |a|);
      assert a[..|a|] == a && b[..|a|] == b;
    }
  }

  // Load the entry and everything it imports. `reserved` holds the names of the
  // bundled toolchain modules. The load succeeds exactly when the walk can
  // empty its queue, and fails with exactly the message at which it stops.
  method LoadModules(loader: Loader, reserved: set<string>, name: string, path: string, owner: Owner,
                     ghost universe: set<string>)
    returns (r: Result<Loaded, string>)
    requires FiniteImports(loader, name, universe)
    ensures r.Ok? ==> !Misconfigured(loader, reserved)
    ensures r.Ok? ==> LoadedWell(loader, Item(name, path, owner, -1, 0), r.value)
    ensures !Misconfigured(loader, reserved) ==>
      (r.Ok? <==> exists loaded :: LoadedWell(loader, Item(name, path, owner, -1, 0), loaded))
    ensures !Misconfigured(loader, reserved) ==>
      forall message :: r == Err(message) <==>
        exists visited, queue :: StopsAt(loader, Item(name, path, owner, -1, 0), visited, queue, message)
  {
    hide Walked, Covered, FirstImports, Assigned, UserModules, VisitedNames, PrecompiledReached, NewItems,
         PrecompiledImports, FiniteImports, Resolve, Enter, UnresolvedImport, AllResolved;
    if Misconfigured(loader, reserved) {
      return Err("loader ownership is inconsistent");
    }
    var entry := Item(name, path, owner, -1, 0);
    var visited: seq<Visit>, loaded, users, assignments := [], {}, {}, [];
    var queue := [entry];
    LoadingStarts(loader, entry);
    NothingVisited(loader, entry, universe);
    while queue != []
      invariant Loading(loader, entry, visited, queue, loaded, users, assignments)
      invariant VisitedNames(visited) <= universe
      decreases universe - loaded, |queue|
    {
      QueuedNamesInUniverse(loader, entry, visited, queue, universe);
      var item := queue[0];
      if item.name in loaded {
        SkipKeepsLoading(loader, entry, visited, queue, loaded, users, assignments);
        queue := queue[1..];
        continue;
      }
      var entered := Enter(loader, item.name, item.path, item.proposed);
      if entered.Err? {
        StopDecides(loader, entry, visited, queue, entered.error);
        return Err(entered.error);
      }
      var (source, moduleOwner, user) := entered.value;
      var parsed := loader.parse(item.path, source);
      if parsed.Err? {
        StopDecides(loader, entry, visited, queue, parsed.error);
        return Err(parsed.error);
      }
      var visit := Visit(item, source, moduleOwner, user, parsed.value);
      AssignVisited(loader, visited, loaded, assignments, visit);
      UserVisited(visited, loaded, users, visit);
      OneMoreVisited(visited, visit);
      ReachedIsPrecompiled(loader, visited);
      ghost var before := queue;
      var loaded1, users1 := loaded + {item.name}, if user then users + {item.name} else users;
      var failure, loaded', queue', users', assignments' := QueueImports(
        loader, visited + [visit], loaded1, queue[1..], users1, assignments + [(item.name, moduleOwner)]);
      if failure.Some? {
        StopDecides(loader, entry, visited, queue, failure.value);
        return Err(failure.value);
      }
      ghost var items := NewItems(loader, visit, |visited|, VisitedNames(visited + [visit]), 0).value;
      VisitKeepsLoading(loader, entry, visited, queue, loaded, users, assignments, visit, items,
                        loaded', users', assignments');
      assert item.name in universe - loaded && item.name !in universe - loaded';
      visited, loaded, queue, users, assignments := visited + [visit], loaded', queue', users', assignments';
    }
    LoadDecides(loader, entry, Loaded(visited, users, assignments));
    return Ok(Loaded(visited, users, assignments));
  }

  lemma NothingVisited(loader: Loader, entry: Item, universe: set<string>)
    requires FiniteImports(loader, entry.name, universe)
    ensures VisitedNames([]) <= universe
  {
  }

  lemma ReachedIsPrecompiled(loader: Loader, visited: seq<Visit>)
    ensures PrecompiledReached(loader, visited) <= loader.precompiled.Keys
  {
  }

  // ---------- what a successful load means ----------

  // The visits are the import closure of the entry, precompiled modules being
  // leaves: every import is visited or precompiled, and nothing is visited that
  // a set closed under imports and holding the entry could lack.
  lemma LoadIsClosure(loader: Loader, entry: Item, r: Loaded, closed: set<string>)
    requires LoadedWell(loader, entry, r)
    ensures forall j, p :: 0 <= j < |r.visited| && 0 <= p < |r.visited[j].imports| ==>
      r.visited[j].imports[p] in VisitedNames(r.visited) || r.visited[j].imports[p] in loader.precompiled
    ensures entry.name in closed && ClosedUnderImports(loader, r.visited, closed) ==> VisitedNames(r.visited) <= closed
  {
    hide Assigned, UserModules, FirstImports, Walked, PrecompiledReached;
    forall j, p | 0 <= j < |r.visited| && 0 <= p < |r.visited[j].imports|
      ensures r.visited[j].imports[p] in VisitedNames(r.visited) || r.visited[j].imports[p] in loader.precompiled
    {
      assert CoveredImport(loader, r.visited, [], j, p);
    }
    if entry.name in closed && ClosedUnderImports(loader, r.visited, closed) {
      forall i | 0 <= i < |r.visited| ensures r.visited[i].item.name in closed {
        VisitIsInClosure(loader, entry, r.visited, closed, i);
      }
    }
  }

  ghost predicate ClosedUnderImports(loader: Loader, visited: seq<Visit>, closed: set<string>) {
    forall j, p :: 0 <= j < |visited| && 0 <= p < |visited[j].imports| && visited[j].item.name in closed ==>
      visited[j].imports[p] in closed || visited[j].imports[p] in loader.precompiled
  }

  lemma {:induction false} VisitIsInClosure(
      loader: Loader, entry: Item, visited: seq<Visit>, closed: set<string>, i: nat)
    requires Walked(loader, entry, visited, []) && i < |visited|
    requires entry.name in closed && ClosedUnderImports(loader, visited, closed)
    ensures visited[i].item.name in closed
  {
    hide Resolve, Faithful, Chain;
    var item := visited[i].item;
    assert Queued(loader, entry, visited[..i], item);
    if item.from != -1 {
      VisitIsInClosure(loader, entry, visited, closed, item.from);
      assert visited[item.from].imports[item.at] == item.name;
    }
  }

  ghost predicate FromEarlier(visited: seq<Visit>) {
    && (forall i :: 0 <= i < |visited| ==> -1 <= visited[i].item.from < i)
    && (forall i, j :: 0 <= i < j < |visited| ==> visited[i].item.from <= visited[j].item.from)
    && (forall i :: 0 < i < |visited| ==> visited[i].item.from >= 0)
  }

  lemma LoadedFromEarlier(loader: Loader, entry: Item, r: Loaded)
    requires LoadedWell(loader, entry, r) && entry.from == -1
    ensures FromEarlier(r.visited)
  {
    hide Resolve, Faithful, Assigned, UserModules, Covered, FirstImports, PrecompiledReached, VisitedNames;
    var visited := r.visited;
    ItemsFromEarlier(loader, entry, visited, []);
    var all := Items(visited) + [];
    forall i, j | 0 <= i < j < |visited| ensures visited[i].item.from <= visited[j].item.from {
      assert Earlier(all[i], all[j]);
    }
    forall i | 0 <= i < |visited| ensures -1 <= visited[i].item.from && (i > 0 ==> visited[i].item.from >= 0) {
      assert Queued(loader, entry, visited[..i], visited[i].item);
      if i > 0 {
        assert Earlier(all[0], all[i]);
      }
    }
  }

  // How many imports a module is away from the entry, along first imports.
  ghost function Depth(visited: seq<Visit>, i: nat): nat
    requires FromEarlier(visited) && i < |visited|
  {
    if visited[i].item.from == -1 then 0 else 1 + Depth(visited, visited[i].item.from)
  }

  lemma {:induction false} DepthNeverDecreases(visited: seq<Visit>, i: nat, j: nat)
    requires FromEarlier(visited) && i <= j < |visited|
    ensures Depth(visited, i) <= Depth(visited, j)
    decreases j
  {
    if i < j && visited[i].item.from != -1 {
      DepthNeverDecreases(visited, visited[i].item.from, visited[j].item.from);
    }
  }

  ghost predicate ImportsModule(visited: seq<Visit>, a: nat, b: nat) {
    b < |visited| && exists p :: Imports(visited, a, p, visited[b].item.name)
  }

  lemma ImportAddsOne(visited: seq<Visit>, a: nat, b: nat)
    requires FromEarlier(visited) && FirstImports(visited)
    requires a < |visited| && ImportsModule(visited, a, b)
    ensures Depth(visited, b) <= Depth(visited, a) + 1
  {
    var p :| Imports(visited, a, p, visited[b].item.name);
    if visited[b].item.from != -1 {
      assert visited[b].item.from <= a;
      DepthNeverDecreases(visited, visited[b].item.from, a);
    }
  }

  // A chain of imports through visited modules, from the entry.
  ghost predicate ImportWalk(visited: seq<Visit>, walk: seq<nat>) {
    && walk != [] && walk[0] == 0
    && (forall k :: 0 <= k < |walk| ==> walk[k] < |visited|)
    && (forall k :: 0 <= k < |walk| - 1 ==> ImportsModule(visited, walk[k], walk[k + 1]))
  }

  lemma {:induction false} WalkBoundsDepth(visited: seq<Visit>, walk: seq<nat>)
    requires FromEarlier(visited) && FirstImports(visited) && ImportWalk(visited, walk)
    ensures Depth(visited, walk[|walk| - 1]) <= |walk| - 1
    decreases |walk|
  {
    hide FromEarlier, FirstImports, ImportsModule;
    if |walk| > 1 {
      var shorter, k := walk[..|walk| - 1], |walk| - 2;
      assert ImportsModule(visited, walk[k], walk[k + 1]);
      WalkBoundsDepth(visited, shorter);
      ImportAddsOne(visited, walk[k], walk[k + 1]);
    } else {
      EntryHasDepthZero(visited);
    }
  }

  lemma EntryHasDepthZero(visited: seq<Visit>)
    requires FromEarlier(visited) && visited != []
    ensures Depth(visited, 0) == 0
  {
  }

  // Some chain of exactly that many imports leads from the entry to a module.
  ghost predicate ReachedBy(visited: seq<Visit>, i: nat, imports: nat) {
    exists walk: seq<nat> :: ImportWalk(visited, walk) && walk[|walk| - 1] == i && |walk| - 1 == imports
  }

  // Following first imports back to the entry gives a chain of Depth imports.
  lemma {:induction false} DepthIsAttained(loader: Loader, entry: Item, visited: seq<Visit>, i: nat)
    returns (walk: seq<nat>)
    requires Walked(loader, entry, visited, []) && FromEarlier(visited) && i < |visited|
    ensures ImportWalk(visited, walk) && walk[|walk| - 1] == i && |walk| - 1 == Depth(visited, i)
  {
    hide Resolve, Faithful, Chain;
    var item := visited[i].item;
    if item.from == -1 {
      walk := [0];
    } else {
      var shorter := DepthIsAttained(loader, entry, visited, item.from);
      walk := shorter + [i];
      assert Queued(loader, entry, visited[..i], item);
      assert Imports(visited, item.from, item.at, item.name);
      forall k | 0 <= k < |walk| - 1 ensures ImportsModule(visited, walk[k], walk[k + 1]) {
        if k < |shorter| - 1 {
          assert ImportsModule(visited, shorter[k], shorter[k + 1]);
        }
      }
    }
  }

  // Loading is breadth first: modules come in the order of their distance from
  // the entry. Depth is that distance: some chain of imports is that long, and
  // none is shorter.
  lemma LoadIsBreadthFirst(loader: Loader, entry: Item, r: Loaded)
    requires LoadedWell(loader, entry, r) && entry.from == -1
    ensures FromEarlier(r.visited)
    ensures forall i, j :: 0 <= i <= j < |r.visited| ==> Depth(r.visited, i) <= Depth(r.visited, j)
    ensures forall walk: seq<nat> :: ImportWalk(r.visited, walk) ==> Depth(r.visited, walk[|walk| - 1]) <= |walk| - 1
    ensures forall i :: 0 <= i < |r.visited| ==> ReachedBy(r.visited, i, Depth(r.visited, i))
  {
    hide Walked, Assigned, UserModules, Covered, PrecompiledReached, VisitedNames, FirstImports, FromEarlier, Depth;
    LoadedFromEarlier(loader, entry, r);
    forall i, j | 0 <= i <= j < |r.visited| ensures Depth(r.visited, i) <= Depth(r.visited, j) {
      DepthNeverDecreases(r.visited, i, j);
    }
    forall walk: seq<nat> | ImportWalk(r.visited, walk) ensures Depth(r.visited, walk[|walk| - 1]) <= |walk| - 1 {
      WalkBoundsDepth(r.visited, walk);
    }
    forall i | 0 <= i < |r.visited| ensures ReachedBy(r.visited, i, Depth(r.visited, i)) {
      var walk := DepthIsAttained(loader, entry, r.visited, i);
    }
  }

  // A module found next to its importer belongs to the package of the first
  // module that imports it, in the same directory of that package.
  lemma SiblingsBelongToFirstImporter(loader: Loader, entry: Item, r: Loaded, i: nat)
    requires LoadedWell(loader, entry, r) && entry.from == -1
    requires 0 < i < |r.visited|
    requires r.visited[i].item.name !in loader.deps && loader.bundled(r.visited[i].item.name).None?
    ensures 0 <= r.visited[i].item.from < i
    ensures var visit, importer := r.visited[i], r.visited[r.visited[i].item.from];
      && visit.item.path == loader.sibling(importer.item.path, visit.item.name)
      && visit.owner.package == importer.owner.package
      && visit.owner.modulePath ==
           (if importer.owner.modulePath == [] then []
            else importer.owner.modulePath[..|importer.owner.modulePath| - 1]) + [visit.item.name]
      && forall j, p :: Imports(r.visited, j, p, visit.item.name) ==> visit.item.from <= j
  {
    hide Assigned, UserModules, Covered, PrecompiledReached, VisitedNames, Chain, Resolve, Enter;
    LoadedFromEarlier(loader, entry, r);
    assert Queued(loader, entry, r.visited[..i], r.visited[i].item);
    assert Faithful(loader, r.visited[i]);
    SiblingOwnership(loader, r.visited[i], r.visited[r.visited[i].item.from]);
  }

  lemma SiblingOwnership(loader: Loader, visit: Visit, importer: Visit)
    requires visit.item.name !in loader.deps && loader.bundled(visit.item.name).None?
    requires Resolve(loader, importer.item.path, importer.owner, visit.item.name) ==
      Ok((visit.item.path, visit.item.proposed))
    requires Enter(loader, visit.item.name, visit.item.path, visit.item.proposed) ==
      Ok((visit.source, visit.owner, visit.user))
    ensures visit.item.path == loader.sibling(importer.item.path, visit.item.name)
    ensures visit.owner.package == importer.owner.package
    ensures visit.owner.modulePath ==
      (if importer.owner.modulePath == [] then []
       else importer.owner.modulePath[..|importer.owner.modulePath| - 1]) + [visit.item.name]
  {
  }

  // A module whose source is the bundled one belongs to the toolchain and is
  // not user code; a closed package cannot put another source in its place.
  lemma BundledModulesStayBundled(loader: Loader, entry: Item, r: Loaded, i: nat)
    requires LoadedWell(loader, entry, r) && i < |r.visited|
    requires loader.bundled(r.visited[i].item.name).Some?
    ensures var visit := r.visited[i];
      var bundled := loader.bundled(visit.item.name).value;
      && (visit.source == bundled ==> !visit.user && loader.bundledOwner(visit.item.name) == Ok(visit.owner))
      && (visit.source != bundled ==> visit.user && visit.owner == visit.item.proposed && !loader.closedPackage)
  {
    hide Assigned, UserModules, Covered, PrecompiledReached, VisitedNames, Chain, Queued, FirstImports;
    assert Faithful(loader, r.visited[i]);
  }

  // Every source that is loaded from a file passed authentication under the
  // owner proposed for it, and every other one is the bundled source.
  lemma SourcesAreAuthentic(loader: Loader, entry: Item, r: Loaded, i: nat)
    requires LoadedWell(loader, entry, r) && i < |r.visited|
    ensures var visit := r.visited[i];
      var item := visit.item;
      && (loader.read(item.path) == Ok(Some(visit.source)) ==>
            loader.authenticate(item.path, item.proposed, visit.source).None?)
      && (loader.read(item.path) != Ok(Some(visit.source)) ==>
            loader.read(item.path) == Ok(None) && loader.bundled(item.name) == Some(visit.source))
      && loader.parse(item.path, visit.source) == Ok(visit.imports)
  {
    hide Assigned, UserModules, Covered, PrecompiledReached, VisitedNames, Chain, Queued, FirstImports, AllResolved,
         Enter;
    var visit := r.visited[i];
    assert Faithful(loader, visit);
    EnterIff(loader, visit.item.name, visit.item.path, visit.item.proposed, visit.source, visit.owner, visit.user);
  }

  // The user modules are the visited ones that count as user code, and the
  // imported precompiled ones that were not visited.
  lemma UserModulesIff(loader: Loader, entry: Item, r: Loaded, name: string)
    requires LoadedWell(loader, entry, r)
    ensures name in r.userModules <==>
      || (exists k :: 0 <= k < |r.visited| && r.visited[k].item.name == name && r.visited[k].user)
      || (&& name in loader.precompiled
          && (exists j, p :: Imports(r.visited, j, p, name))
          && forall k :: 0 <= k < |r.visited| ==> r.visited[k].item.name != name)
  {
    hide Assigned, Reached;
    if exists j, p :: Imports(r.visited, j, p, name) {
      var j, p :| Imports(r.visited, j, p, name);
      assert name in r.visited[j].imports;
    }
    if name in PrecompiledReached(loader, r.visited) {
      var j :| 0 <= j < |r.visited| && name in r.visited[j].imports;
      var p :| 0 <= p < |r.visited[j].imports| && r.visited[j].imports[p] == name;
      assert Imports(r.visited, j, p, name);
    }
  }

  // Every visited module has exactly one owner among the assignments, its own.
  lemma OneOwnerPerModule(loader: Loader, entry: Item, r: Loaded, i: nat) returns (k: nat)
    requires LoadedWell(loader, entry, r) && i < |r.visited|
    ensures k < |r.assignments| && r.assignments[k] == (r.visited[i].item.name, r.visited[i].owner)
    ensures forall j :: 0 <= j < |r.assignments| && r.assignments[j].0 == r.visited[i].item.name ==> j == k
  {
    hide Covered, PrecompiledReached, VisitedNames, Chain, Queued, FirstImports, Faithful, UserModules;
    var name := r.visited[i].item.name;
    assert name in VisitedNames(r.visited);
    assert AssignedName(r.assignments, name);
    k :| 0 <= k < |r.assignments| && r.assignments[k].0 == name;
    assert RightOwner(loader, r.visited, r.assignments[k]);
    var m :| 0 <= m < |r.visited| && r.visited[m].item.name == name && r.visited[m].owner == r.assignments[k].1;
  }

  // So has every precompiled module that a visited one imports: the one given
  // for it, unless the module was visited itself.
  lemma OneOwnerPerPrecompiled(loader: Loader, entry: Item, r: Loaded, i: nat, name: string) returns (k: nat)
    requires LoadedWell(loader, entry, r) && i < |r.visited|
    requires name in r.visited[i].imports && name in loader.precompiled && name !in VisitedNames(r.visited)
    ensures k < |r.assignments| && r.assignments[k] == (name, loader.precompiled[name])
    ensures forall j :: 0 <= j < |r.assignments| && r.assignments[j].0 == name ==> j == k
  {
    hide Reached, VisitedNames, UserModules;
    assert name in PrecompiledReached(loader, r.visited);
    assert AssignedName(r.assignments, name);
    k :| 0 <= k < |r.assignments| && r.assignments[k].0 == name;
    assert RightOwner(loader, r.visited, r.assignments[k]);
  }

  // A dependency is looked for where it is configured and under its configured
  // owner; a bundled module beside the entry and under the toolchain's owner.
  lemma DependenciesKeepTheirOwner(loader: Loader, entry: Item, r: Loaded, i: nat)
    requires LoadedWell(loader, entry, r) && entry.from == -1
    requires 0 < i < |r.visited|
    ensures var item := r.visited[i].item;
      && item.name !in loader.precompiled
      && (item.name in loader.deps ==>
            && item.name in loader.depOwners
            && item.path == loader.deps[item.name] && item.proposed == loader.depOwners[item.name])
      && (item.name !in loader.deps && loader.bundled(item.name).Some? ==>
            item.path == loader.besideEntry(item.name) && loader.bundledOwner(item.name) == Ok(item.proposed))
  {
    hide Assigned, UserModules, Covered, PrecompiledReached, VisitedNames, Chain, Enter, FirstImports;
    LoadedFromEarlier(loader, entry, r);
    assert Queued(loader, entry, r.visited[..i], r.visited[i].item);
  }
}
