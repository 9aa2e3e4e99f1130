/** The status labels the window shows: `AppView.get_state` for one managed
    path and `View.get_common_state` for the whole list. Both read, for each
    `ProcessModel`, whether its path exists on disk (`is_exists`) and whether
    its job is alive (`is_alive`); a snapshot holds those two answers. */
module Status {
  import opened Text
  import opened OpenCommand
  import opened Processes

  datatype AppSnapshot = AppSnapshot(found: bool, alive: bool)

  /** The two answers an entry gives the view: `is_exists`, whether its path
      exists on disk, and `is_alive`. The label the view shows for the entry
      is then decided by the path and the job alone. */
  function Snapshot(host: Host, app: ProcessModel): (r: AppSnapshot)
    reads app
    ensures GetState(r) == NotFound <==> !host.pathExists(app.path)
    ensures GetState(r) == Active <==> host.pathExists(app.path) && Alive(app.process)
    ensures GetState(r) == NotActive <==> host.pathExists(app.path) && !Alive(app.process)
  {
    AppSnapshot(host.pathExists(app.path), app.IsAlive())
  }

  datatype AppState = NotFound | Active | NotActive
  {
    function Text(): string
    {
      match this
      case NotFound => "NOT FOUND"
      case Active => "ACTIVE"
      case NotActive => "NOT ACTIVE"
    }
  }

  /** `AppView.get_state`: a missing path is "NOT FOUND" whatever its job
      does; otherwise the job's liveness decides. */
  function GetState(app: AppSnapshot): (r: AppState)
    ensures r == NotFound <==> !app.found
    ensures r == Active <==> app.found && app.alive
    ensures r == NotActive <==> app.found && !app.alive
  {
    if !app.found then NotFound
    else if app.alive then Active
    else NotActive
  }

  datatype CommonState = NothingFound | AllActive | AllInactive | PartialActive(active: nat, total: nat)
  {
    function Text(): string
    {
      match this
      case NothingFound => "NOTHING FOUND"
      case AllActive => "ALL ACTIVE"
      case AllInactive => "ALL INACTIVE"
      case PartialActive(k, n) => "PARTIAL ACTIVE (" + NatToString(k) + "/" + NatToString(n) + ")"
    }
  }

  /** `all(not app.is_exists for app in apps)`. */
  predicate NoneFound(apps: seq<AppSnapshot>)
  {
    apps == [] || (!apps[0].found && NoneFound(apps[1..]))
  }

  /** `alive_states.count(True)`. */
  function CountAlive(apps: seq<AppSnapshot>): (k: nat)
    ensures k <= |apps|
  {
    if apps == [] then 0 else (if apps[0].alive then 1 else 0) + CountAlive(apps[1..])
  }

  lemma {:induction false} NoneFoundMeans(apps: seq<AppSnapshot>)
    ensures NoneFound(apps) <==> forall i :: 0 <= i < |apps| ==> !apps[i].found
  {
    if apps != [] {
      NoneFoundMeans(apps[1..]);
      assert forall i :: 1 <= i < |apps| ==> apps[i] == apps[1..][i - 1];
    }
  }

  /** The count reaches the length exactly when every job is alive, and is
      zero exactly when none is. */
  lemma {:induction false} CountAliveMeans(apps: seq<AppSnapshot>)
    ensures CountAlive(apps) == |apps| <==> forall i :: 0 <= i < |apps| ==> apps[i].alive
    ensures CountAlive(apps) == 0 <==> forall i :: 0 <= i < |apps| ==> !apps[i].alive
  {
    if apps != [] {
      CountAliveMeans(apps[1..]);
      assert forall i :: 1 <= i < |apps| ==> apps[i] == apps[1..][i - 1];
    }
  }

  /** `View.get_common_state`: "NOTHING FOUND" when no path exists (the
      empty list included), else "ALL ACTIVE" when every job is alive, else
      "ALL INACTIVE" when none is, else the count of live jobs out of all
      entries, missing ones counted too. */
  function GetCommonState(apps: seq<AppSnapshot>): (r: CommonState)
    ensures r == NothingFound <==> forall i :: 0 <= i < |apps| ==> !apps[i].found
    ensures r == AllActive <==> (exists i :: 0 <= i < |apps| && apps[i].found)
                                && forall i :: 0 <= i < |apps| ==> apps[i].alive
    ensures r == AllInactive <==> (exists i :: 0 <= i < |apps| && apps[i].found)
                                  && forall i :: 0 <= i < |apps| ==> !apps[i].alive
    ensures r.PartialActive? <==> (exists i :: 0 <= i < |apps| && apps[i].alive)
                                  && (exists i :: 0 <= i < |apps| && !apps[i].alive)
                                  && (exists i :: 0 <= i < |apps| && apps[i].found)
    ensures r.PartialActive? ==> r.total == |apps| && 0 < r.active < r.total
                                 && r.active == CountAlive(apps)
  {
    NoneFoundMeans(apps);
    CountAliveMeans(apps);
    var k := CountAlive(apps);
    if NoneFound(apps) then NothingFound
    else if k == |apps| then AllActive
    else if k == 0 then AllInactive
    else PartialActive(k, |apps|)
  }

  /** For a single path the common label agrees with the path's own label. */
  lemma CommonStateOfOne(app: AppSnapshot)
    ensures GetCommonState([app]) == NothingFound <==> GetState(app) == NotFound
    ensures GetCommonState([app]) == AllActive <==> GetState(app) == Active
    ensures GetCommonState([app]) == AllInactive <==> GetState(app) == NotActive
  {
    assert [app][0] == app;
  }

  /** The three per-path labels differ, so the label tells the state. */
  lemma AppStateTextInjective(a: AppState, b: AppState)
    ensures a.Text() == b.Text() <==> a == b
  {
  }

  /** The text up to the first `c`. */
  function Before(s: string, c: char): (r: string)
    ensures |r| <= |s| && r == s[..|r|] && c !in r
  {
    if s == [] || s[0] == c then [] else [s[0]] + Before(s[1..], c)
  }

  lemma {:induction false} BeforeSeparator(d: string, c: char, rest: string)
    requires c !in d
    ensures Before(d + [c] + rest, c) == d
  {
    if d != [] {
      assert (d + [c] + rest)[1..] == d[1..] + [c] + rest;
      BeforeSeparator(d[1..], c, rest);
    }
  }

  /** A number rendered in the partial label never holds `/`, so the label
      can be read back into its two numbers. */
  lemma PartialTextNumbers(k: nat, n: nat, k': nat, n': nat)
    requires PartialActive(k, n).Text() == PartialActive(k', n').Text()
    ensures k == k' && n == n'
  {
    var prefix := "PARTIAL ACTIVE (";
    var t := PartialActive(k, n).Text();
    var d1, d2 := NatToString(k), NatToString(n);
    var e1, e2 := NatToString(k'), NatToString(n');
    assert t == prefix + (d1 + "/" + d2) + ")";
    assert t == prefix + (e1 + "/" + e2) + ")";
    var middle := t[|prefix|..|t| - 1];
    assert middle == d1 + ['/'] + d2 == e1 + ['/'] + e2;
    assert '/' !in d1 && '/' !in e1;
    BeforeSeparator(d1, '/', d2);
    BeforeSeparator(e1, '/', e2);
    assert d2 == middle[|d1| + 1..] && e2 == middle[|e1| + 1..];
    NatToStringInjective(k, k');
    NatToStringInjective(n, n');
  }

  /** Each common label, the partial one with both of its numbers, tells
      the state it came from. */
  lemma CommonStateTextInjective(a: CommonState, b: CommonState)
    ensures a.Text() == b.Text() <==> a == b
  {
    if a.Text() == b.Text() {
      if a.PartialActive? && b.PartialActive? {
        PartialTextNumbers(a.active, a.total, b.active, b.total);
      }
    }
  }
}
