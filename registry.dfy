/** `Model` and the list-changing part of `Controller`: the ordered list of
    managed paths (the display order, duplicates kept), the dictionary from
    path to `ProcessModel` that grows on access, and the operations that add,
    delete, save and switch every entry on or off. */
module Registry {
  import opened Wrappers
  import opened OpenCommand
  import opened Processes
  import opened PathsFile

  /** Where `list.remove` finds `x`: its first occurrence. */
  function IndexOf(s: seq<string>, x: string): (i: nat)
    requires x in s
    ensures i < |s| && s[i] == x && x !in s[..i]
  {
    if s[0] == x then 0
    else
      var i := 1 + IndexOf(s[1..], x);
      assert s[..i] == [s[0]] + s[1..][..i - 1];
      i
  }

  /** `list.remove(x)` for an `x` in the list. */
  function RemoveFirst(s: seq<string>, x: string): (r: seq<string>)
    requires x in s
    ensures |r| == |s| - 1
    ensures multiset(r) == multiset(s) - multiset{x}
  {
    var i := IndexOf(s, x);
    assert s == s[..i] + [x] + s[i + 1..];
    s[..i] + s[i + 1..]
  }

  /** Removal takes out exactly the first occurrence: everything before it
      and everything after it, later copies of `x` included, stays in order. */
  lemma RemoveFirstOccurrence(s: seq<string>, x: string, i: nat)
    requires i < |s| && s[i] == x && x !in s[..i]
    ensures RemoveFirst(s, x) == s[..i] + s[i + 1..]
  {
  }

  /** The loop of `set_all_apps_alive`: every entry in turn gets the same
      value through its setter. An entry that occurs twice is set twice, and
      the second call changes nothing. */
  method SetEach(entries: seq<ProcessModel>, isAlive: bool, host: Host)
    modifies set e | e in entries
    ensures forall e :: e in entries ==>
              e.process == AfterSetAlive(old(e.process), isAlive, host, e.path)
  {
    var i := 0;
    while i < |entries|
      invariant 0 <= i <= |entries|
      invariant forall e :: e in entries[..i] ==>
                  e.process == AfterSetAlive(old(e.process), isAlive, host, e.path)
      invariant forall e :: e in entries && e !in entries[..i] ==> e.process == old(e.process)
    {
      var e := entries[i];
      SetAliveIdempotent(old(e.process), isAlive, host, e.path);
      e.SetAlive(isAlive, host);
      assert entries[..i + 1] == entries[..i] + [e];
      i := i + 1;
    }
    assert entries[..i] == entries;
  }

  /** `{path: ProcessModel(path) for path in paths}`: a new entry without a
      job for every path; a path listed twice keeps the later entry. */
  method NewEntries(ps: seq<string>) returns (m: map<string, ProcessModel>)
    ensures m.Keys == set p | p in ps
    ensures forall p :: p in m ==> m[p].path == p && fresh(m[p]) && m[p].process == None
  {
    m := map[];
    var i := 0;
    while i < |ps|
      invariant 0 <= i <= |ps|
      invariant m.Keys == set p | p in ps[..i]
      invariant forall p :: p in m ==> m[p].path == p && fresh(m[p]) && m[p].process == None
    {
      var entry := new ProcessModel(ps[i]);
      m := m[ps[i] := entry];
      assert ps[..i + 1] == ps[..i] + [ps[i]];
      i := i + 1;
    }
    assert ps[..i] == ps;
  }

  /** `[entries.setdefault(path, ProcessModel(path)) for path in paths]`:
      the entry of each path in order, a new one without a job added for
      each path that had none. */
  method SetDefaults(entries: map<string, ProcessModel>, paths: seq<string>)
      returns (m: map<string, ProcessModel>, r: seq<ProcessModel>)
    requires forall p :: p in entries ==> entries[p].path == p
    ensures forall p :: p in m ==> m[p].path == p
    ensures |r| == |paths|
    ensures forall k :: 0 <= k < |paths| ==> paths[k] in m && r[k] == m[paths[k]]
    ensures m.Keys == entries.Keys + set p | p in paths
    ensures forall p :: p in entries ==> m[p] == entries[p]
    ensures forall p :: p in m && p !in entries ==> fresh(m[p]) && m[p].process == None
  {
    m, r := entries, [];
    var i := 0;
    while i < |paths|
      invariant 0 <= i <= |paths| && |r| == i
      invariant forall p :: p in m ==> m[p].path == p
      invariant forall k :: 0 <= k < i ==> paths[k] in m && r[k] == m[paths[k]]
      invariant m.Keys == entries.Keys + set p | p in paths[..i]
      invariant forall p :: p in entries ==> m[p] == entries[p]
      invariant forall p :: p in m && p !in entries ==> fresh(m[p]) && m[p].process == None
    {
      var path := paths[i];
      var fallback := new ProcessModel(path);
      if path !in m {
        m := m[path := fallback];
      }
      r := r + [m[path]];
      assert paths[..i + 1] == paths[..i] + [path];
      i := i + 1;
    }
    assert paths[..i] == paths;
  }

  class Model {
    const storage: PathsStorage
    /** `paths`: the managed paths in display order. */
    var paths: seq<string>
    /** `_processes`: one `ProcessModel` per path ever seen. */
    var processes: map<string, ProcessModel>

    /** Every entry is the `ProcessModel` of its own key. */
    ghost predicate Valid()
      reads this
    {
      forall p :: p in processes ==> processes[p].path == p
    }

    /** Every listed path has an entry. */
    ghost predicate Covered()
      reads this
    {
      forall k :: 0 <= k < |paths| ==> paths[k] in processes
    }

    /** `Model.__init__` from the path list's storage (the configuration that
        names its file is not part of this model). */
    constructor (storage: PathsStorage)
      modifies storage
      ensures this.storage == storage
      ensures paths == old(storage.Current()) && storage.stored == paths
      ensures storage.file == old(storage.file)
      ensures Valid() && Covered()
      ensures processes.Keys == set p | p in paths
      ensures forall p :: p in processes ==> fresh(processes[p]) && processes[p].process == None
    {
      this.storage := storage;
      var ps := storage.GetPaths();
      var m := NewEntries(ps);
      paths := ps;
      processes := m;
    }

    /** The `processes` property: for each path in order, its entry, created
        by `setdefault` when missing. Existing entries are reused and none is
        removed. */
    method Processes() returns (r: seq<ProcessModel>)
      requires Valid()
      modifies this`processes
      ensures Valid() && Covered()
      ensures |r| == |paths|
      ensures forall k :: 0 <= k < |paths| ==> r[k] == processes[paths[k]] && r[k].path == paths[k]
      ensures processes.Keys == old(processes.Keys) + set p | p in paths
      ensures forall p :: p in old(processes) ==> processes[p] == old(processes[p])
      ensures forall p :: p in processes && p !in old(processes) ==>
                fresh(processes[p]) && processes[p].process == None
    {
      processes, r := SetDefaults(processes, paths);
    }

    /** `Model.save`: hand the list to the storage, which writes it, then read
        it back through the getter. The getter reloads only an empty tuple,
        and the empty list reloads as empty, so the list comes back as it
        was. */
    method Save()
      modifies this`paths, storage
      ensures paths == old(paths)
      ensures storage.stored == paths && storage.file == Some(WindowsNewlines(Serialize(paths)))
    {
      storage.SetPaths(paths);
      paths := storage.GetPaths();
    }
  }

  class Controller {
    const model: Model

    ghost predicate Valid()
      reads this, model, model.storage
    {
      model.Valid() && model.Covered() && model.storage.stored == model.paths
    }

    constructor (model: Model)
      requires model.Valid() && model.Covered() && model.storage.stored == model.paths
      ensures this.model == model && Valid()
    {
      this.model := model;
    }

    /** `add_apps`: append the chosen paths after the existing ones, in order
        and keeping duplicates, save, and fetch the entries for the view. */
    method AddApps(apps: seq<string>)
      requires Valid()
      modifies model, model.storage
      ensures Valid()
      ensures model.paths == old(model.paths) + apps
      ensures model.storage.file == Some(WindowsNewlines(Serialize(model.paths)))
      ensures forall p :: p in old(model.processes) ==>
                p in model.processes && model.processes[p] == old(model.processes[p])
      ensures forall p :: p in model.processes && p !in old(model.processes) ==>
                fresh(model.processes[p]) && model.processes[p].process == None
      ensures forall k :: 0 <= k < |apps| ==> apps[k] in model.processes
      ensures model.processes.Keys == old(model.processes.Keys) + set p | p in apps
    {
      model.paths := model.paths + apps;
      model.Save();
      var entries := model.Processes();
      assert forall k :: 0 <= k < |apps| ==> apps[k] == model.paths[|old(model.paths)| + k];
    }

    /** `delete_app`: `list.remove` takes out the first occurrence; when the
        path is not listed it raises before anything changes, which the
        result `false` stands for. Entries are never dropped. */
    method DeleteApp(app: string) returns (removed: bool)
      requires Valid()
      modifies model, model.storage
      ensures Valid()
      ensures removed <==> app in old(model.paths)
      ensures removed ==> model.paths == RemoveFirst(old(model.paths), app)
                          && model.storage.file == Some(WindowsNewlines(Serialize(model.paths)))
      ensures !removed ==> model.paths == old(model.paths)
                           && model.storage.file == old(model.storage.file)
      ensures model.processes == old(model.processes)
    {
      if app !in model.paths {
        return false;
      }
      ghost var before := model.paths;
      model.paths := RemoveFirst(model.paths, app);
      assert forall k :: 0 <= k < |model.paths| ==> model.paths[k] in multiset(before);
      model.Save();
      var entries := model.Processes();
      assert model.processes.Keys == old(model.processes).Keys;
      removed := true;
    }

    /** `delete_all_apps`: empty the list and save; entries are kept. */
    method DeleteAllApps()
      requires Valid()
      modifies model, model.storage
      ensures Valid()
      ensures model.paths == [] && model.storage.file == Some("")
      ensures model.processes == old(model.processes)
    {
      model.paths := [];
      model.Save();
      var entries := model.Processes();
      assert model.processes.Keys == old(model.processes).Keys;
    }

    /** `toggle_app`. */
    method ToggleApp(app: ProcessModel, host: Host)
      modifies app
      ensures app.process == AfterToggle(old(app.process), host, app.path)
    {
      app.Toggle(host);
    }

    /** `set_all_apps_alive`: give every listed entry's setter the same
        value. A path listed twice shares one entry, and the second call
        finds it already in the wanted state. Unlisted entries keep their
        job. */
    method SetAllAppsAlive(isAlive: bool, host: Host)
      requires Valid()
      modifies model, model.processes.Values
      ensures Valid()
      ensures model.paths == old(model.paths)
      ensures forall p :: p in old(model.processes) ==>
                p in model.processes && model.processes[p] == old(model.processes[p])
      ensures forall p :: p in model.processes ==>
                model.processes[p].process ==
                  var prior := if p in old(model.processes) then old(model.processes[p].process) else None;
                  if p in model.paths then AfterSetAlive(prior, isAlive, host, p) else prior
      ensures forall p :: p in model.paths ==> model.processes[p].IsAlive() == isAlive
      ensures model.processes.Keys == old(model.processes.Keys)
    {
      var entries := model.Processes();
      assert forall k :: 0 <= k < |entries| ==>
               entries[k] in old(model.processes.Values) || fresh(entries[k]);
      SetEach(entries, isAlive, host);
      forall p | p in model.processes
        ensures model.processes[p] in entries <==> p in model.paths
      {
        if p in model.paths {
          var k :| 0 <= k < |model.paths| && model.paths[k] == p;
          assert entries[k] == model.processes[p];
        }
      }
    }
  }
}
