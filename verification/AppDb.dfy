/**
 * The software database (database-internal.vala): applications, dependencies, and the associations
 * between them, as tables in order of id with AUTOINCREMENT counters.
 */
module AppDb {
  import opened Options
  import opened Splitting
  import opened FileList

  type Name = string

  /** An application as the caller hands it in. */
  datatype AppItem = AppItem(uniqueName: Name, fullName: string, version: string, origin: string,
                             dependencies: seq<Name>)

  datatype AppRow = AppRow(id: nat, uniqueName: Name, fullName: string, version: string, arch: string, origin: string)

  datatype DepRow = DepRow(id: nat, uniqueName: Name, version: string, items: string)

  datatype Assoc = Assoc(id: nat, appId: nat, depId: nat)

  /** An application as it is read back, with its dependencies. */
  datatype StoredApp = StoredApp(row: AppRow, dependencies: seq<DepRow>)

  datatype Error = ReadOnly | Invalid | NotFound | Inconsistent(depId: nat) | FileExists

  datatype Db = Db(apps: seq<AppRow>, deps: seq<DepRow>, assocs: seq<Assoc>, lastApp: nat, lastDep: nat, lastAssoc: nat)

  const EMPTY := Db([], [], [], 0, 0, 0)

  // ----- queries -----

  /** SELECT ... WHERE unique_name=?, of which only the first row is looked at. */
  function FirstApp(apps: seq<AppRow>, name: Name): (r: Option<AppRow>)
    ensures r.Some? ==> r.value in apps && r.value.uniqueName == name
    ensures r.None? <==> forall a :: a in apps ==> a.uniqueName != name
  {
    if apps == [] then None else if apps[0].uniqueName == name then Some(apps[0]) else FirstApp(apps[1..], name)
  }

  function FirstDep(deps: seq<DepRow>, name: Name): (r: Option<DepRow>)
    ensures r.Some? ==> r.value in deps && r.value.uniqueName == name
    ensures r.None? <==> forall d :: d in deps ==> d.uniqueName != name
  {
    if deps == [] then None else if deps[0].uniqueName == name then Some(deps[0]) else FirstDep(deps[1..], name)
  }

  function DepById(deps: seq<DepRow>, id: nat): (r: Option<DepRow>)
    ensures r.Some? ==> r.value in deps && r.value.id == id
    ensures r.None? <==> forall d :: d in deps ==> d.id != id
  {
    if deps == [] then None else if deps[0].id == id then Some(deps[0]) else DepById(deps[1..], id)
  }

  /** The dependencies of an application among the first n associations; an unknown id is an error. */
  function Retrieve(db: Db, appId: nat, n: nat): Result<seq<DepRow>, Error>
    requires n <= |db.assocs|
  {
    if n == 0 then Ok([])
    else
      var before, a := Retrieve(db, appId, n - 1), db.assocs[n - 1];
      if before.Err? || a.appId != appId then before
      else if DepById(db.deps, a.depId) == None then Err(Inconsistent(a.depId))
      else Ok(before.value + [DepById(db.deps, a.depId).value])
  }

  /** get_application_by_unique_name: the first row with its dependencies, if there is one. */
  function GetApp(db: Db, name: Name): Result<Option<StoredApp>, Error> {
    var row := FirstApp(db.apps, name);
    if row == None then Ok(None)
    else
      var deps := Retrieve(db, row.value.id, |db.assocs|);
      if deps.Err? then Err(deps.error) else Ok(Some(StoredApp(row.value, deps.value)))
  }

  // ----- changes -----

  function InsertApp(db: Db, item: AppItem, arch: string): Db {
    var row := AppRow(db.lastApp + 1, item.uniqueName, item.fullName, item.version, arch, item.origin);
    db.(apps := db.apps + [row], lastApp := db.lastApp + 1)
  }

  function InsertDep(db: Db, name: Name, version: string, items: string): Db {
    db.(deps := db.deps + [DepRow(db.lastDep + 1, name, version, items)], lastDep := db.lastDep + 1)
  }

  function InsertAssoc(db: Db, appId: nat, depId: nat): Db {
    db.(assocs := db.assocs + [Assoc(db.lastAssoc + 1, appId, depId)], lastAssoc := db.lastAssoc + 1)
  }

  /** Associate the application with the first dependency of each of the first n names; unknown names are skipped. */
  function Associate(db: Db, appId: nat, names: seq<Name>, n: nat): Db
    requires n <= |names|
  {
    if n == 0 then db
    else
      var d := Associate(db, appId, names, n - 1);
      var dep := FirstDep(db.deps, names[n - 1]);
      if dep == None then d else InsertAssoc(d, appId, dep.value.id)
  }

  function Names(deps: seq<DepRow>): (ns: seq<Name>)
    ensures |ns| == |deps| && forall i :: 0 <= i < |ns| ==> ns[i] == deps[i].uniqueName
  {
    seq(|deps|, i requires 0 <= i < |deps| => deps[i].uniqueName)
  }

  /** The row is inserted; then the dependencies that the first row of that name has are associated with it. */
  function AddApp(db: Db, item: AppItem, arch: string): Result<Db, Error> {
    var d := InsertApp(db, item, arch);
    if item.dependencies == [] then Ok(d)
    else
      var app := GetApp(d, item.uniqueName);
      if app.Err? then Err(app.error)
      else if app.value == None then Err(NotFound)
      else
        var names := Names(app.value.value.dependencies);
        Ok(Associate(d, app.value.value.row.id, names, |names|))
  }

  function SetDeps(db: Db, name: Name, names: seq<Name>): Result<Db, Error> {
    var app := GetApp(db, name);
    if app.Err? then Err(app.error)
    else if app.value == None then Err(NotFound)
    else Ok(Associate(db, app.value.value.row.id, names, |names|))
  }

  /** Every row but those of this name, among the first n. */
  function AppsWithout(apps: seq<AppRow>, name: Name, n: nat): seq<AppRow>
    requires n <= |apps|
  {
    if n == 0 then []
    else AppsWithout(apps, name, n - 1) + (if apps[n - 1].uniqueName == name then [] else [apps[n - 1]])
  }

  /** DELETE FROM applications; associations are left behind. */
  function RemoveApp(db: Db, name: Name): Db {
    db.(apps := AppsWithout(db.apps, name, |db.apps|))
  }

  /** Exactly the rows of other names are left. */
  lemma {:induction false} WithoutKeeps(apps: seq<AppRow>, name: Name, n: nat, a: AppRow)
    requires n <= |apps|
    ensures a in AppsWithout(apps, name, n) <==> a in apps[..n] && a.uniqueName != name
    decreases n
  {
    if n > 0 {
      WithoutKeeps(apps, name, n - 1, a);
      assert apps[..n] == apps[..n - 1] + [apps[n - 1]];
    }
  }

  // ----- what every run keeps -----

  /** Ids are handed out once, in increasing order. */
  ghost predicate IdsFrom(ids: seq<nat>, last: nat) {
    && (forall i :: 0 <= i < |ids| ==> 1 <= ids[i] <= last)
    && (forall i, j :: 0 <= i < j < |ids| ==> ids[i] < ids[j])
  }

  function AppIds(apps: seq<AppRow>): (r: seq<nat>)
    ensures |r| == |apps| && forall i :: 0 <= i < |r| ==> r[i] == apps[i].id
  {
    seq(|apps|, i requires 0 <= i < |apps| => apps[i].id)
  }

  function DepIds(deps: seq<DepRow>): (r: seq<nat>)
    ensures |r| == |deps| && forall i :: 0 <= i < |r| ==> r[i] == deps[i].id
  {
    seq(|deps|, i requires 0 <= i < |deps| => deps[i].id)
  }

  /** The association points at a dependency that exists, and at an application id that has been given out. */
  ghost predicate Sound(db: Db, a: Assoc) {
    1 <= a.appId <= db.lastApp && exists d :: d in db.deps && d.id == a.depId
  }

  ghost predicate Consistent(db: Db) {
    && IdsFrom(AppIds(db.apps), db.lastApp) && IdsFrom(DepIds(db.deps), db.lastDep)
    && forall i :: 0 <= i < |db.assocs| ==> Sound(db, db.assocs[i])
  }

  /** One call that changes the database. */
  datatype Op = OpAddApp(item: AppItem, arch: string) | OpRemoveApp(name: Name)
              | OpAddDep(name: Name, version: string, items: string) | OpSetDeps(name: Name, deps: seq<Name>)

  /** A call that fails leaves what it has done so far; only the insertion comes before a failure. */
  function Step(db: Db, op: Op): Db {
    match op
    case OpAddApp(item, arch) =>
      var r := AddApp(db, item, arch);
      if r.Ok? then r.value else InsertApp(db, item, arch)
    case OpRemoveApp(name) => RemoveApp(db, name)
    case OpAddDep(name, version, items) => InsertDep(db, name, version, items)
    case OpSetDeps(name, deps) =>
      var r := SetDeps(db, name, deps);
      if r.Ok? then r.value else db
  }

  function Run(db: Db, ops: seq<Op>): Db {
    if ops == [] then db else Step(Run(db, ops[..|ops| - 1]), ops[|ops| - 1])
  }

  lemma InsertAppConsistent(db: Db, item: AppItem, arch: string)
    requires Consistent(db)
    ensures Consistent(InsertApp(db, item, arch))
  {
    var d := InsertApp(db, item, arch);
    forall i | 0 <= i < |d.assocs| ensures Sound(d, d.assocs[i]) {
      assert Sound(db, db.assocs[i]);
    }
  }

  lemma InsertDepConsistent(db: Db, name: Name, version: string, items: string)
    requires Consistent(db)
    ensures Consistent(InsertDep(db, name, version, items))
  {
    var d := InsertDep(db, name, version, items);
    forall i | 0 <= i < |d.assocs| ensures Sound(d, d.assocs[i]) {
      assert Sound(db, db.assocs[i]);
      var dep :| dep in db.deps && dep.id == db.assocs[i].depId;
      assert dep in d.deps;
    }
  }

  lemma {:induction false} AssociateConsistent(db: Db, appId: nat, names: seq<Name>, n: nat)
    requires Consistent(db) && n <= |names| && 1 <= appId <= db.lastApp
    ensures var d := Associate(db, appId, names, n);
            Consistent(d) && d.apps == db.apps && d.deps == db.deps
            && d.lastApp == db.lastApp && d.lastDep == db.lastDep
    decreases n
  {
    if n > 0 {
      AssociateConsistent(db, appId, names, n - 1);
      AssociateStep(Associate(db, appId, names, n - 1), db, appId, names, n);
    }
  }

  lemma AssociateStep(c: Db, db: Db, appId: nat, names: seq<Name>, n: nat)
    requires 0 < n <= |names| && Consistent(c) && c.deps == db.deps && 1 <= appId <= c.lastApp
    requires c == Associate(db, appId, names, n - 1)
    ensures var d := Associate(db, appId, names, n);
            Consistent(d) && d.apps == c.apps && d.deps == c.deps && d.lastApp == c.lastApp && d.lastDep == c.lastDep
  {
    hide IdsFrom, AppIds, DepIds;
    var d := Associate(db, appId, names, n);
    forall i | 0 <= i < |d.assocs| ensures Sound(d, d.assocs[i]) {
      if i < |c.assocs| {
        assert Sound(c, c.assocs[i]);
      }
    }
  }

  ghost predicate BelowAll(apps: seq<AppRow>, id: nat) {
    forall i :: 0 <= i < |apps| ==> apps[i].id < id
  }

  lemma {:induction false} WithoutIncreasing(apps: seq<AppRow>, name: Name, n: nat, last: nat)
    requires n <= |apps| && IdsFrom(AppIds(apps), last)
    ensures IdsFrom(AppIds(AppsWithout(apps, name, n)), last)
    ensures n < |apps| ==> BelowAll(AppsWithout(apps, name, n), apps[n].id)
    decreases n
  {
    hide AppsWithout;
    if n == 0 {
      WithoutNone(apps, name);
    } else {
      WithoutIncreasing(apps, name, n - 1, last);
      WithoutStep(apps, name, n);
      var ids := AppIds(apps);
      assert 1 <= ids[n - 1] <= last && (n < |apps| ==> ids[n - 1] < ids[n]);
      if apps[n - 1].uniqueName != name {
        IdsSnoc(AppsWithout(apps, name, n - 1), apps[n - 1], last);
      }
    }
  }

  lemma IdsSnoc(apps: seq<AppRow>, row: AppRow, last: nat)
    requires IdsFrom(AppIds(apps), last) && BelowAll(apps, row.id) && 1 <= row.id <= last
    ensures IdsFrom(AppIds(apps + [row]), last)
  {
    assert AppIds(apps + [row]) == AppIds(apps) + [row.id];
  }

  lemma WithoutNone(apps: seq<AppRow>, name: Name)
    ensures AppsWithout(apps, name, 0) == []
  {
  }

  lemma WithoutStep(apps: seq<AppRow>, name: Name, n: nat)
    requires 0 < n <= |apps|
    ensures AppsWithout(apps, name, n)
         == if apps[n - 1].uniqueName == name then AppsWithout(apps, name, n - 1)
            else AppsWithout(apps, name, n - 1) + [apps[n - 1]]
  {
    assert AppsWithout(apps, name, n - 1) + [] == AppsWithout(apps, name, n - 1);
  }

  lemma StepConsistent(db: Db, op: Op)
    requires Consistent(db)
    ensures Consistent(Step(db, op))
  {
    match op
    case OpAddApp(item, arch) =>
      var d := InsertApp(db, item, arch);
      InsertAppConsistent(db, item, arch);
      var app := GetApp(d, item.uniqueName);
      if item.dependencies != [] && app.Ok? && app.value != None {
        var s := app.value.value;
        FirstAppId(d, item.uniqueName);
        AssociateConsistent(d, s.row.id, Names(s.dependencies), |s.dependencies|);
      }
    case OpRemoveApp(name) =>
      WithoutIncreasing(db.apps, name, |db.apps|, db.lastApp);
      var d := RemoveApp(db, name);
      forall i | 0 <= i < |d.assocs| ensures Sound(d, d.assocs[i]) {
        assert Sound(db, db.assocs[i]);
      }
    case OpAddDep(name, version, items) => InsertDepConsistent(db, name, version, items);
    case OpSetDeps(name, deps) =>
      var app := GetApp(db, name);
      if app.Ok? && app.value != None {
        FirstAppId(db, name);
        AssociateConsistent(db, app.value.value.row.id, deps, |deps|);
      }
  }

  lemma FirstAppId(db: Db, name: Name)
    requires Consistent(db) && FirstApp(db.apps, name).Some?
    ensures 1 <= FirstApp(db.apps, name).value.id <= db.lastApp
  {
    var row := FirstApp(db.apps, name).value;
    var i :| 0 <= i < |db.apps| && db.apps[i] == row;
    assert AppIds(db.apps)[i] == row.id;
  }

  /** Association integrity over all runs. */
  lemma {:induction false} RunConsistent(db: Db, ops: seq<Op>)
    requires Consistent(db)
    ensures Consistent(Run(db, ops))
    decreases |ops|
  {
    if ops != [] {
      RunConsistent(db, ops[..|ops| - 1]);
      StepConsistent(Run(db, ops[..|ops| - 1]), ops[|ops| - 1]);
    }
  }

  lemma {:induction false} RetrieveSucceeds(db: Db, appId: nat, n: nat)
    requires Consistent(db) && n <= |db.assocs|
    ensures Retrieve(db, appId, n).Ok?
    decreases n
  {
    if n > 0 {
      RetrieveSucceeds(db, appId, n - 1);
      assert Sound(db, db.assocs[n - 1]);
    }
  }

  /** In any database reached from the empty one no query ends in the inconsistent-state error. */
  lemma NeverInconsistent(ops: seq<Op>, name: Name)
    ensures GetApp(Run(EMPTY, ops), name).Ok?
  {
    assert Consistent(EMPTY);
    RunConsistent(EMPTY, ops);
    var db := Run(EMPTY, ops);
    var row := FirstApp(db.apps, name);
    if row.Some? {
      RetrieveSucceeds(db, row.value.id, |db.assocs|);
    }
  }

  // ----- what a query answers -----

  /** Association i is the application's, and its dependency is missing. */
  predicate Dangling(db: Db, appId: nat, i: nat)
    requires i < |db.assocs|
  {
    db.assocs[i].appId == appId && forall d :: d in db.deps ==> d.id != db.assocs[i].depId
  }

  /** How many of the first n associations are the application's. */
  function Associated(db: Db, appId: nat, n: nat): nat
    requires n <= |db.assocs|
  {
    if n == 0 then 0 else Associated(db, appId, n - 1) + (if db.assocs[n - 1].appId == appId then 1 else 0)
  }

  /** A query fails exactly if one of the associations dangles, and names the dependency of the first that does. */
  lemma {:induction false} RetrieveFails(db: Db, appId: nat, n: nat, i: nat)
    requires n <= |db.assocs|
    ensures (forall k :: 0 <= k < n ==> !Dangling(db, appId, k)) <==> Retrieve(db, appId, n).Ok?
    ensures i < n && Dangling(db, appId, i) && (forall k :: 0 <= k < i ==> !Dangling(db, appId, k)) ==>
      Retrieve(db, appId, n) == Err(Inconsistent(db.assocs[i].depId))
    decreases n
  {
    if n > 0 {
      RetrieveFails(db, appId, n - 1, i);
      DanglingIs(db, appId, n - 1);
    }
  }

  lemma DanglingIs(db: Db, appId: nat, i: nat)
    requires i < |db.assocs|
    ensures Dangling(db, appId, i) <==> db.assocs[i].appId == appId && DepById(db.deps, db.assocs[i].depId) == None
  {
  }

  /** Otherwise it answers with one dependency for each of the application's associations, in their order. */
  lemma {:induction false} RetrieveInOrder(db: Db, appId: nat, n: nat, i: nat)
    requires i < n <= |db.assocs| && Retrieve(db, appId, n).Ok?
    ensures |Retrieve(db, appId, n).value| == Associated(db, appId, n)
    ensures Associated(db, appId, i) <= Associated(db, appId, n)
    ensures db.assocs[i].appId == appId ==>
      Associated(db, appId, i) < Associated(db, appId, n)
      && Some(Retrieve(db, appId, n).value[Associated(db, appId, i)]) == DepById(db.deps, db.assocs[i].depId)
    decreases n
  {
    hide DepById;
    if i < n - 1 {
      RetrieveInOrder(db, appId, n - 1, i);
    } else {
      RetrieveCount(db, appId, n - 1);
    }
  }

  lemma {:induction false} RetrieveCount(db: Db, appId: nat, n: nat)
    requires n <= |db.assocs| && Retrieve(db, appId, n).Ok?
    ensures |Retrieve(db, appId, n).value| == Associated(db, appId, n)
    decreases n
  {
    hide DepById;
    if n > 0 {
      RetrieveCount(db, appId, n - 1);
    }
  }

  // ----- stale associations -----

  lemma {:induction false} NoneYet(db: Db, appId: nat, n: nat)
    requires n <= |db.assocs| && forall i :: 0 <= i < n ==> db.assocs[i].appId != appId
    ensures Retrieve(db, appId, n) == Ok([])
    decreases n
  {
    if n > 0 {
      NoneYet(db, appId, n - 1);
    }
  }

  /** A new row starts without dependencies, whatever associations earlier applications have left behind. */
  lemma NewAppHasNone(db: Db, item: AppItem, arch: string)
    requires Consistent(db)
    ensures var d := InsertApp(db, item, arch); Retrieve(d, d.lastApp, |d.assocs|) == Ok([])
  {
    var d := InsertApp(db, item, arch);
    forall i | 0 <= i < |d.assocs| ensures d.assocs[i].appId != d.lastApp {
      assert Sound(db, db.assocs[i]);
    }
    NoneYet(d, d.lastApp, |d.assocs|);
  }

  lemma {:induction false} FirstAppSnoc(apps: seq<AppRow>, row: AppRow, name: Name)
    ensures FirstApp(apps + [row], name)
         == if FirstApp(apps, name).Some? then FirstApp(apps, name)
            else if row.uniqueName == name then Some(row) else None
    decreases |apps|
  {
    if apps == [] {
      assert (apps + [row])[1..] == [];
    } else {
      assert (apps + [row])[1..] == apps[1..] + [row];
      FirstAppSnoc(apps[1..], row, name);
    }
  }

  /** Adding an application under a fresh name records none of the dependencies it was given. */
  lemma AddFreshApp(db: Db, item: AppItem, arch: string)
    requires Consistent(db) && FirstApp(db.apps, item.uniqueName) == None
    ensures AddApp(db, item, arch) == Ok(InsertApp(db, item, arch))
  {
    var d := InsertApp(db, item, arch);
    FirstAppSnoc(db.apps, d.apps[|db.apps|], item.uniqueName);
    NewAppHasNone(db, item, arch);
  }

  /** The application that was added is found with what it was added with. */
  lemma AddedAppReads(db: Db, item: AppItem, arch: string)
    requires Consistent(db) && FirstApp(db.apps, item.uniqueName) == None
    ensures var d := AddApp(db, item, arch);
            d.Ok? && GetApp(d.value, item.uniqueName)
                     == Ok(Some(StoredApp(AppRow(db.lastApp + 1, item.uniqueName, item.fullName, item.version, arch,
                                                 item.origin), [])))
            && forall name :: name != item.uniqueName ==> FirstApp(d.value.apps, name) == FirstApp(db.apps, name)
  {
    hide Consistent, Retrieve;
    AddFreshApp(db, item, arch);
    var d := InsertApp(db, item, arch);
    FirstAppSnoc(db.apps, d.apps[|db.apps|], item.uniqueName);
    NewAppHasNone(db, item, arch);
    forall name | name != item.uniqueName ensures FirstApp(d.apps, name) == FirstApp(db.apps, name) {
      FirstAppSnoc(db.apps, d.apps[|db.apps|], name);
    }
  }

  lemma {:induction false} FirstDepSnoc(deps: seq<DepRow>, row: DepRow, name: Name)
    ensures FirstDep(deps + [row], name)
         == if FirstDep(deps, name).Some? then FirstDep(deps, name)
            else if row.uniqueName == name then Some(row) else None
    decreases |deps|
  {
    if deps == [] {
      assert (deps + [row])[1..] == [];
    } else {
      assert (deps + [row])[1..] == deps[1..] + [row];
      FirstDepSnoc(deps[1..], row, name);
    }
  }

  /**
   * The dependency that was added is found under its name, unless an earlier one has it, and under its
   * new id, with its version and items; every other name and id leads where it did.
   */
  lemma AddedDepReads(db: Db, name: Name, version: string, items: string)
    requires Consistent(db)
    ensures var d, row := Step(db, OpAddDep(name, version, items)), DepRow(db.lastDep + 1, name, version, items);
            && FirstDep(d.deps, name) == (if FirstDep(db.deps, name).Some? then FirstDep(db.deps, name) else Some(row))
            && DepById(d.deps, db.lastDep + 1) == Some(row)
            && (forall other :: other != name ==> FirstDep(d.deps, other) == FirstDep(db.deps, other))
            && (forall x :: x in db.deps ==> x in d.deps && DepById(d.deps, x.id) == Some(x))
  {
    var d, row := Step(db, OpAddDep(name, version, items)), DepRow(db.lastDep + 1, name, version, items);
    assert d.deps == db.deps + [row];
    StepConsistent(db, OpAddDep(name, version, items));
    hide Consistent, FirstDep, DepById, Step;
    FirstDepSnoc(db.deps, row, name);
    forall other | other != name ensures FirstDep(d.deps, other) == FirstDep(db.deps, other) {
      FirstDepSnoc(db.deps, row, other);
    }
    DepIdsUnique(d);
    assert d.deps[|db.deps|] == row;
    ByIdFinds(d.deps, row, d.lastDep);
    forall x | x in db.deps ensures x in d.deps && DepById(d.deps, x.id) == Some(x) {
      ByIdFinds(d.deps, x, d.lastDep);
    }
  }

  // ----- associations read back -----

  /** The first dependencies of the first n names, in order, as far as they exist. */
  function Known(deps: seq<DepRow>, names: seq<Name>, n: nat): seq<DepRow>
    requires n <= |names|
  {
    if n == 0 then []
    else Known(deps, names, n - 1)
         + (if FirstDep(deps, names[n - 1]).Some? then [FirstDep(deps, names[n - 1]).value] else [])
  }

  lemma {:induction false} RetrieveSnoc(db: Db, d: Db, appId: nat, n: nat)
    requires n <= |db.assocs| <= |d.assocs| && d.deps == db.deps && d.assocs[..|db.assocs|] == db.assocs
    ensures Retrieve(d, appId, n) == Retrieve(db, appId, n)
    decreases n
  {
    if n > 0 {
      RetrieveSnoc(db, d, appId, n - 1);
      assert d.assocs[n - 1] == d.assocs[..|db.assocs|][n - 1];
    }
  }

  /** Ids are unique, so an association leads back to the very row it was made for. */
  lemma {:induction false} ByIdFinds(deps: seq<DepRow>, d: DepRow, last: nat)
    requires IdsFrom(DepIds(deps), last) && d in deps
    ensures DepById(deps, d.id) == Some(d)
    decreases |deps|
  {
    var ids := DepIds(deps);
    if deps[0] != d {
      var i :| 0 < i < |deps| && deps[i] == d;
      assert ids[0] < ids[i];
      var rest := deps[1..];
      assert forall k :: 0 <= k < |rest| ==> DepIds(rest)[k] == ids[k + 1];
      assert rest[i - 1] == d;
      ByIdFinds(rest, d, last);
    }
  }

  /** One new association is read as one more dependency. */
  lemma InsertReads(db: Db, appId: nat, dep: DepRow)
    requires Consistent(db) && dep in db.deps && Retrieve(db, appId, |db.assocs|).Ok?
    ensures var d := InsertAssoc(db, appId, dep.id);
            Retrieve(d, appId, |d.assocs|) == Ok(Retrieve(db, appId, |db.assocs|).value + [dep])
  {
    hide Consistent;
    var d := InsertAssoc(db, appId, dep.id);
    DepIdsUnique(db);
    ByIdFinds(db.deps, dep, db.lastDep);
    RetrieveSnoc(db, d, appId, |db.assocs|);
    assert d.assocs[|db.assocs|] == Assoc(db.lastAssoc + 1, appId, dep.id);
  }

  lemma DepIdsUnique(db: Db)
    requires Consistent(db)
    ensures IdsFrom(DepIds(db.deps), db.lastDep)
  {
  }

  /** Associating adds exactly the known dependencies to what the application had. */
  lemma {:induction false} AssociateReads(db: Db, appId: nat, names: seq<Name>, n: nat)
    requires Consistent(db) && n <= |names| && 1 <= appId <= db.lastApp && Retrieve(db, appId, |db.assocs|).Ok?
    ensures var d := Associate(db, appId, names, n);
            Retrieve(d, appId, |d.assocs|) == Ok(Retrieve(db, appId, |db.assocs|).value + Known(db.deps, names, n))
    decreases n
  {
    hide Consistent, Retrieve;
    var was := Retrieve(db, appId, |db.assocs|).value;
    if n == 0 {
      assert was + [] == was;
    } else {
      AssociateReads(db, appId, names, n - 1);
      AssociateConsistent(db, appId, names, n - 1);
      var dep, known := FirstDep(db.deps, names[n - 1]), Known(db.deps, names, n - 1);
      if dep.Some? {
        InsertReads(Associate(db, appId, names, n - 1), appId, dep.value);
        assert (was + known) + [dep.value] == was + (known + [dep.value]);
      } else {
        assert known + [] == known;
      }
    }
  }

  /** set_application_dependencies reads back: the application has what it had, and then the known ones, in order. */
  lemma SetDepsReadsBack(db: Db, name: Name, names: seq<Name>)
    requires Consistent(db) && FirstApp(db.apps, name).Some?
    ensures var row := FirstApp(db.apps, name).value;
            var was, r := Retrieve(db, row.id, |db.assocs|), SetDeps(db, name, names);
            was.Ok? && r.Ok?
            && GetApp(r.value, name) == Ok(Some(StoredApp(row, was.value + Known(db.deps, names, |names|))))
  {
    hide Consistent, Retrieve, Associate, Known;
    var row := FirstApp(db.apps, name).value;
    FirstAppId(db, name);
    RetrieveSucceeds(db, row.id, |db.assocs|);
    AssociateReads(db, row.id, names, |names|);
    AssociateConsistent(db, row.id, names, |names|);
  }

  /** Adding an application again under a name that exists gives the first row its own dependencies once more. */
  lemma AddAgainDoubles(db: Db, item: AppItem, arch: string)
    requires Consistent(db) && FirstApp(db.apps, item.uniqueName).Some? && item.dependencies != []
    ensures var row := FirstApp(db.apps, item.uniqueName).value;
            var was, r := Retrieve(db, row.id, |db.assocs|), AddApp(db, item, arch);
            was.Ok? && r.Ok?
            && GetApp(r.value, item.uniqueName)
               == Ok(Some(StoredApp(row, was.value + Known(db.deps, Names(was.value), |was.value|))))
  {
    hide Consistent, Retrieve, Associate, Known, FirstApp;
    var d := InsertApp(db, item, arch);
    var row := FirstApp(db.apps, item.uniqueName).value;
    FirstAppSnoc(db.apps, d.apps[|db.apps|], item.uniqueName);
    InsertAppConsistent(db, item, arch);
    FirstAppId(d, item.uniqueName);
    RetrieveSucceeds(db, row.id, |db.assocs|);
    RetrieveSnoc(db, d, row.id, |db.assocs|);
    var names := Names(Retrieve(db, row.id, |db.assocs|).value);
    AssociateReads(d, row.id, names, |names|);
    AssociateConsistent(d, row.id, names, |names|);
  }

  /** Without dependencies of its own, adding it again changes nothing of what any application has. */
  lemma AddAgainPlain(db: Db, item: AppItem, arch: string, name: Name)
    requires Consistent(db) && item.dependencies == [] && FirstApp(db.apps, name).Some?
    ensures AddApp(db, item, arch).Ok? && GetApp(AddApp(db, item, arch).value, name) == GetApp(db, name)
  {
    hide Consistent, Retrieve, FirstApp;
    var d, row := InsertApp(db, item, arch), FirstApp(db.apps, name).value;
    FirstAppSnoc(db.apps, d.apps[|db.apps|], name);
    RetrieveSnoc(db, d, row.id, |db.assocs|);
  }

  /** Dependencies cannot be set for an application that is not there. */
  lemma SetDepsNeedsApp(db: Db, name: Name, names: seq<Name>)
    requires Consistent(db)
    ensures SetDeps(db, name, names) == Err(NotFound) <==> forall a :: a in db.apps ==> a.uniqueName != name
    ensures SetDeps(db, name, names).Err? ==> SetDeps(db, name, names) == Err(NotFound)
  {
    hide Consistent, Retrieve, Associate;
    if FirstApp(db.apps, name).Some? {
      RetrieveSucceeds(db, FirstApp(db.apps, name).value.id, |db.assocs|);
    }
  }

  /** An application removed and installed again under its name starts without dependencies. */
  lemma ReinstalledStartsFresh(db: Db, item: AppItem, arch: string)
    requires Consistent(db)
    ensures var d := AddApp(RemoveApp(db, item.uniqueName), item, arch);
            d.Ok? && d.value.lastApp == db.lastApp + 1
            && GetApp(d.value, item.uniqueName)
               == Ok(Some(StoredApp(AppRow(db.lastApp + 1, item.uniqueName, item.fullName, item.version, arch,
                                           item.origin), [])))
  {
    hide Consistent, Retrieve;
    var e, name := RemoveApp(db, item.uniqueName), item.uniqueName;
    StepConsistent(db, OpRemoveApp(name));
    assert e == Step(db, OpRemoveApp(name));
    forall a | a in e.apps ensures a.uniqueName != name {
      WithoutKeeps(db.apps, name, |db.apps|, a);
    }
    AddFreshApp(e, item, arch);
    var d := InsertApp(e, item, arch);
    FirstAppSnoc(e.apps, d.apps[|e.apps|], name);
    NewAppHasNone(e, item, arch);
  }

  // ----- the database object -----

  class LocalDb {
    var apps: seq<AppRow>
    var deps: seq<DepRow>
    var assocs: seq<Assoc>
    var lastApp: nat
    var lastDep: nat
    var lastAssoc: nat
    var locked: bool
    var writeable: bool
    // The register directory: one directory per application, with its file list.
    var dirs: set<Name>
    var files: map<Name, string>

    function State(): Db
      reads this
    {
      Db(apps, deps, assocs, lastApp, lastDep, lastAssoc)
    }

    /** `busy` is what opening the database a second time reports. */
    method DatabaseWriteable(busy: bool) returns (r: bool)
      modifies this`locked
      ensures locked == busy && r == (!busy && writeable)
    {
      locked := busy;
      r := !locked && writeable;
    }

    method GetApplicationRow(name: Name) returns (r: Option<AppRow>)
      ensures r == FirstApp(apps, name)
    {
      var i := 0;
      while i < |apps|
        invariant i <= |apps| && FirstApp(apps[i..], name) == FirstApp(apps, name)
      {
        if apps[i].uniqueName == name {
          return Some(apps[i]);
        }
        i := i + 1;
      }
      r := None;
    }

    method GetDependencyByUniqueName(name: Name) returns (r: Option<DepRow>)
      ensures r == FirstDep(deps, name)
    {
      var i := 0;
      while i < |deps|
        invariant i <= |deps| && FirstDep(deps[i..], name) == FirstDep(deps, name)
      {
        if deps[i].uniqueName == name {
          return Some(deps[i]);
        }
        i := i + 1;
      }
      r := None;
    }

    method GetDependencyByDbid(id: nat) returns (r: Option<DepRow>)
      ensures r == DepById(deps, id)
    {
      var i := 0;
      while i < |deps|
        invariant i <= |deps| && DepById(deps[i..], id) == DepById(deps, id)
      {
        if deps[i].id == id {
          return Some(deps[i]);
        }
        i := i + 1;
      }
      r := None;
    }

    /** The dependencies of a row; fails on an association whose dependency is missing. */
    method RetrieveDependencies(appId: nat) returns (r: Result<seq<DepRow>, Error>)
      ensures r == Retrieve(State(), appId, |assocs|)
    {
      var found: seq<DepRow> := [];
      var i := 0;
      while i < |assocs|
        invariant i <= |assocs| && Retrieve(State(), appId, i) == Ok(found)
      {
        if assocs[i].appId == appId {
          var dep := GetDependencyByDbid(assocs[i].depId);
          if dep == None {
            StaysInconsistent(State(), appId, i + 1, |assocs|);
            return Err(Inconsistent(assocs[i].depId));
          }
          found := found + [dep.value];
        }
        i := i + 1;
      }
      r := Ok(found);
    }

    method GetApplicationByUniqueName(name: Name) returns (r: Result<Option<StoredApp>, Error>)
      ensures r == GetApp(State(), name)
    {
      var row := GetApplicationRow(name);
      if row == None {
        return Ok(None);
      }
      var found := RetrieveDependencies(row.value.id);
      if found.Err? {
        return Err(found.error);
      }
      r := Ok(Some(StoredApp(row.value, found.value)));
    }

    /** Associate an application with the dependencies of these names, as far as they are known. */
    method AssociateAll(appId: nat, names: seq<Name>)
      modifies this`assocs, this`lastAssoc
      ensures State() == Associate(old(State()), appId, names, |names|)
    {
      hide FirstDep;
      ghost var db := State();
      var i := 0;
      while i < |names|
        invariant i <= |names| && State() == Associate(db, appId, names, i)
        invariant deps == db.deps
      {
        var dep := GetDependencyByUniqueName(names[i]);
        if dep != None {
          lastAssoc := lastAssoc + 1;
          assocs := assocs + [Assoc(lastAssoc, appId, dep.value.id)];
        }
        i := i + 1;
      }
    }

    /** Adds the row, and then re-associates whatever the first row of this name is associated with. */
    method AddApplication(item: AppItem, arch: string, busy: bool) returns (r: Result<bool, Error>)
      modifies this
      ensures busy || !old(writeable) ==> r == Err(ReadOnly) && State() == old(State()) && dirs == old(dirs)
      ensures !busy && old(writeable) ==> State() == Step(old(State()), OpAddApp(item, arch))
      ensures !busy && old(writeable) ==>
        var a := AddApp(old(State()), item, arch); r == if a.Ok? then Ok(true) else Err(a.error)
      ensures dirs == old(dirs) + if r.Ok? then {item.uniqueName} else {}
      ensures files == old(files) && writeable == old(writeable)
    {
      var ok := DatabaseWriteable(busy);
      if !ok {
        return Err(ReadOnly);
      }
      ghost var db := State();
      lastApp := lastApp + 1;
      apps := apps + [AppRow(lastApp, item.uniqueName, item.fullName, item.version, arch, item.origin)];
      assert State() == InsertApp(db, item, arch);
      if item.dependencies != [] {
        var app := GetApplicationByUniqueName(item.uniqueName);
        if app.Err? {
          return Err(app.error);
        }
        if app.value == None {
          return Err(NotFound);
        }
        var names := Names(app.value.value.dependencies);
        AssociateAll(app.value.value.row.id, names);
      }
      dirs := dirs + {item.uniqueName};
      r := Ok(true);
    }

    /** The rows go; associations stay; the register directory is deleted with its file list. */
    method RemoveApplication(name: Name)
      modifies this
      ensures State() == Step(old(State()), OpRemoveApp(name))
      ensures dirs == old(dirs) - {name} && files == old(files) - {name} && writeable == old(writeable)
    {
      ghost var was := apps;
      var kept: seq<AppRow> := [];
      var i := 0;
      while i < |apps|
        invariant i <= |apps| == |was| && apps == was && kept == AppsWithout(was, name, i)
        invariant unchanged(this)
      {
        if apps[i].uniqueName != name {
          kept := kept + [apps[i]];
        }
        i := i + 1;
      }
      apps := kept;
      dirs := dirs - {name};
      files := files - {name};
    }

    method AddDependency(name: Name, version: string, items: string, valid: bool, busy: bool)
      returns (r: Result<bool, Error>)
      modifies this
      ensures busy || !old(writeable) ==> r == Err(ReadOnly) && State() == old(State())
      ensures !busy && old(writeable) && !valid ==> r == Err(Invalid) && State() == old(State())
      ensures !busy && old(writeable) && valid ==>
        r == Ok(true) && State() == Step(old(State()), OpAddDep(name, version, items))
      ensures dirs == old(dirs) && files == old(files) && writeable == old(writeable)
    {
      var ok := DatabaseWriteable(busy);
      if !ok {
        return Err(ReadOnly);
      }
      if !valid {
        return Err(Invalid);
      }
      lastDep := lastDep + 1;
      deps := deps + [DepRow(lastDep, name, version, items)];
      r := Ok(true);
    }

    method SetApplicationDependencies(name: Name, names: seq<Name>) returns (r: Result<bool, Error>)
      modifies this`assocs, this`lastAssoc
      ensures State() == Step(old(State()), OpSetDeps(name, names))
      ensures r.Ok? == SetDeps(old(State()), name, names).Ok?
    {
      var app := GetApplicationByUniqueName(name);
      if app.Err? {
        return Err(app.error);
      }
      if app.value == None {
        return Err(NotFound);
      }
      AssociateAll(app.value.value.row.id, names);
      r := Ok(true);
    }

    // ----- file lists -----

    /** A file list is written once: an existing one is not overwritten. */
    method AddApplicationFilelist(uniqueName: Name, name: string, flist: seq<FileEntry>, busy: bool)
      returns (r: Result<bool, Error>)
      modifies this
      ensures State() == old(State()) && dirs == old(dirs) && writeable == old(writeable)
      ensures r.Ok? <==> !busy && writeable && uniqueName in dirs && uniqueName !in old(files)
      ensures files == if r.Ok? then old(files)[uniqueName := Written(name, flist)] else old(files)
    {
      var ok := DatabaseWriteable(busy);
      if !ok {
        return Err(ReadOnly);
      }
      if uniqueName !in dirs {
        return Err(NotFound);
      }
      if uniqueName in files {
        return Err(FileExists);
      }
      var text := Write(name, flist);
      files := files[uniqueName := text];
      r := Ok(true);
    }

    method GetApplicationFilelist(uniqueName: Name) returns (r: Option<seq<FileEntry>>)
      ensures r == if uniqueName in files then Some(ReadAll(files[uniqueName])) else None
    {
      if uniqueName !in files {
        return None;
      }
      var flist := Read(files[uniqueName]);
      r := Some(flist);
    }
  }

  lemma {:induction false} StaysInconsistent(db: Db, appId: nat, i: nat, n: nat)
    requires i <= n <= |db.assocs| && Retrieve(db, appId, i).Err?
    ensures Retrieve(db, appId, n) == Retrieve(db, appId, i)
    decreases n
  {
    if i < n {
      StaysInconsistent(db, appId, i, n - 1);
    }
  }
}
