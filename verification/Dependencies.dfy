/** scripts/check-media-parser-dependencies.py: which packages a binary links, and the control
    that proves the traversal would notice a forbidden one. */
module Dependencies {
  import opened Wrappers
  import opened FiniteSets

  type Id = nat

  /** A dependency's kinds: normal is JSON null. */
  datatype Kind = Normal | Build | Other
  datatype Edge = Edge(pkg: Id, kinds: seq<Kind>)
  type Graph = map<Id, seq<Edge>>

  predicate Followed(e: Edge) { exists k | 0 <= k < |e.kinds| :: e.kinds[k] in {Normal, Build} }

  /** v is a normal or a build dependency of u. */
  ghost predicate Step(g: Graph, u: Id, v: Id) {
    u in g && exists k | 0 <= k < |g[u]| :: g[u][k].pkg == v && (Normal in g[u][k].kinds || Build in g[u][k].kinds)
  }

  lemma FollowedIff(e: Edge)
    ensures Followed(e) <==> Normal in e.kinds || Build in e.kinds
  {
  }

  ghost predicate IsPath(g: Graph, path: seq<Id>, from: Id, to: Id) {
    && path != [] && path[0] == from && path[|path| - 1] == to
    && forall i | 0 <= i < |path| - 1 :: Step(g, path[i], path[i + 1])
  }

  ghost predicate Reaches(g: Graph, from: Id, to: Id) { exists path :: IsPath(g, path, from, to) }

  lemma ReachesItself(g: Graph, n: Id)
    ensures Reaches(g, n, n)
  {
    assert IsPath(g, [n], n, n);
  }

  lemma ReachesStep(g: Graph, from: Id, u: Id, v: Id)
    requires Reaches(g, from, u) && Step(g, u, v)
    ensures Reaches(g, from, v)
  {
    var path :| IsPath(g, path, from, u);
    assert IsPath(g, path + [v], from, v);
  }

  lemma PathPrefix(g: Graph, path: seq<Id>, from: Id, to: Id)
    requires IsPath(g, path, from, to) && |path| > 1
    ensures IsPath(g, path[..|path| - 1], from, path[|path| - 2]) && Step(g, path[|path| - 2], to)
  {
  }

  /** What is closed under followed dependencies contains everything reachable from it. */
  lemma {:induction false} ClosedContains(g: Graph, s: set<Id>, path: seq<Id>, from: Id, to: Id)
    requires IsPath(g, path, from, to) && from in s
    requires forall u, v | u in s && Step(g, u, v) :: v in s
    ensures to in s
    decreases |path|
  {
    if |path| > 1 {
      PathPrefix(g, path, from, to);
      ClosedContains(g, s, path[..|path| - 1], from, path[|path| - 2]);
    }
  }

  /** The packages one node puts on the stack. */
  function Dependents(edges: seq<Edge>): (out: seq<Id>)
    ensures forall v :: v in out <==> exists k | 0 <= k < |edges| :: edges[k].pkg == v && Followed(edges[k])
  {
    if edges == [] then []
    else
      var front, last := edges[..|edges| - 1], edges[|edges| - 1];
      var out := Dependents(front) + if Followed(last) then [last.pkg] else [];
      assert forall k | 0 <= k < |front| :: front[k] == edges[k];
      assert forall v :: v in out ==> exists k | 0 <= k < |edges| :: edges[k].pkg == v && Followed(edges[k]) by {
        forall v | v in out ensures exists k | 0 <= k < |edges| :: edges[k].pkg == v && Followed(edges[k]) {
          if v in Dependents(front) {
            var k :| 0 <= k < |front| && front[k].pkg == v && Followed(front[k]);
            assert edges[k] == front[k];
          } else {
            assert edges[|edges| - 1].pkg == v;
          }
        }
      }
      out
  }

  /** The worklist returns exactly the packages on paths of normal and build dependencies; it
      fails, with Python's KeyError, exactly when one of them is missing from the graph. */
  method Reachable(start: Id, nodes: Graph) returns (r: Option<set<Id>>)
    ensures r.Some? <==> forall n | Reaches(nodes, start, n) :: n in nodes
    ensures r.Some? ==> forall n :: n in r.value <==> Reaches(nodes, start, n)
  {
    var seen: set<Id> := {};
    var pending := [start];
    ReachesItself(nodes, start);
    while pending != []
      invariant forall n | n in seen || n in pending :: Reaches(nodes, start, n)
      invariant seen <= nodes.Keys
      invariant start in seen || start in pending
      invariant forall u, v | u in seen && Step(nodes, u, v) :: v in seen || v in pending
      decreases nodes.Keys - seen, |pending|
    {
      hide Reaches;
      var node, rest := pending[|pending| - 1], pending[..|pending| - 1];
      assert forall n | n in pending :: n in rest || n == node;
      assert node in pending;
      pending := rest;
      if node in seen { continue; }
      if node !in nodes { return None; }
      var more := Dependents(nodes[node]);
      forall e: Edge ensures Followed(e) <==> Normal in e.kinds || Build in e.kinds { FollowedIff(e); }
      forall v | v in more ensures Reaches(nodes, start, v) {
        ReachesStep(nodes, start, node, v);
      }
      assert forall v | Step(nodes, node, v) :: v in more;
      seen := seen + {node};
      pending := rest + more;
    }
    forall n | Reaches(nodes, start, n) ensures n in seen {
      var path :| IsPath(nodes, path, start, n);
      ClosedContains(nodes, seen, path, start, n);
    }
    return Some(seen);
  }

  // ----- The injected edge -----

  function Inject(g: Graph, from: Id, to: Id): Graph
    requires from in g
  {
    g[from := g[from] + [Edge(to, [Normal])]]
  }

  lemma InjectedStep(g: Graph, from: Id, to: Id, u: Id, v: Id)
    requires from in g
    ensures Step(Inject(g, from, to), u, v) <==> Step(g, u, v) || (u == from && v == to)
  {
    var h := Inject(g, from, to);
    if u == from {
      assert h[u][|g[u]|] == Edge(to, [Normal]);
      assert Normal in h[u][|g[u]|].kinds;
      if k :| 0 <= k < |g[u]| && g[u][k].pkg == v && (Normal in g[u][k].kinds || Build in g[u][k].kinds) {
        assert h[u][k] == g[u][k];
      }
    }
  }

  lemma {:induction false} InjectedPath(g: Graph, from: Id, to: Id, path: seq<Id>, n: Id)
    requires from in g && IsPath(Inject(g, from, to), path, from, n)
    ensures Reaches(g, from, n) || Reaches(g, to, n)
    decreases |path|
  {
    if |path| == 1 {
      ReachesItself(g, from);
    } else {
      var h := Inject(g, from, to);
      PathPrefix(h, path, from, n);
      var u := path[|path| - 2];
      InjectedPath(g, from, to, path[..|path| - 1], u);
      InjectedStep(g, from, to, u, n);
      if Step(g, u, n) {
        if Reaches(g, from, u) { ReachesStep(g, from, u, n); } else { ReachesStep(g, to, u, n); }
      } else {
        ReachesItself(g, to);
      }
    }
  }

  lemma PathSurvives(g: Graph, from: Id, to: Id, path: seq<Id>, a: Id, n: Id)
    requires from in g && IsPath(g, path, a, n)
    ensures IsPath(Inject(g, from, to), path, a, n)
  {
    forall i | 0 <= i < |path| - 1 ensures Step(Inject(g, from, to), path[i], path[i + 1]) {
      InjectedStep(g, from, to, path[i], path[i + 1]);
    }
  }

  /** Adding the edge from -> to makes `from` reach exactly what either reached before. */
  lemma InjectedReach(g: Graph, from: Id, to: Id, n: Id)
    requires from in g
    ensures Reaches(Inject(g, from, to), from, n) <==> Reaches(g, from, n) || Reaches(g, to, n)
  {
    var h := Inject(g, from, to);
    if Reaches(h, from, n) {
      var path :| IsPath(h, path, from, n);
      InjectedPath(g, from, to, path, n);
    }
    if Reaches(g, from, n) {
      var path :| IsPath(g, path, from, n);
      PathSurvives(g, from, to, path, from, n);
    }
    if Reaches(g, to, n) {
      var path :| IsPath(g, path, to, n);
      PathSurvives(g, from, to, path, to, n);
      InjectedStep(g, from, to, from, to);
      var longer := [from] + path;
      assert IsPath(h, longer, from, n) by {
        assert forall i | 0 < i < |longer| - 1 :: Step(h, path[i - 1], path[i]);
      }
    }
  }

  // ----- The whole check -----

  /** The package names, the prohibited and the expected ones; the script's own are POLICY. */
  datatype Policy = Policy(runtimes: seq<string>, publicRuntime: string, guest: string,
                           parsers: set<string>, guestParsers: set<string>)

  const POLICY := Policy(
    ["board-public", "board-checkout", "board-staff", "board-verification", "board-verification-mailer",
     "board-media-admin", "board-media-http", "board-media-intake", "board-media-dispatch", "board-monitor",
     "board-resource-monitor", "board-maintenance-monitor"],
    "board-public", "board-media-guest",
    {"board-media-guest", "zune-jpeg", "zune-core", "jpeg-encoder", "gif", "weezl"}, {"zune-jpeg", "gif", "weezl"})

  lemma PolicyFits()
    ensures POLICY.publicRuntime in POLICY.runtimes && POLICY.guestParsers < POLICY.parsers && POLICY.guest in POLICY.parsers
  {
    assert POLICY.runtimes[0] == POLICY.publicRuntime;
    var a, b, c := "gif", "weezl", "zune-core";
    assert |a| != |b| && |b| != |c| && |a| != |c| && c[5] != "zune-jpeg"[5];
    assert c in POLICY.parsers && c !in POLICY.guestParsers;
  }

  datatype Verdict = Pass | KeyError | Prohibited(runtime: string) | GuestMissing | ControlMissed

  /** Every package reached from `from` is in the graph and has a name. */
  ghost predicate Known(g: Graph, packages: map<Id, string>, from: Id) {
    forall n | Reaches(g, from, n) :: n in g && n in packages
  }

  /** Some package reachable from `from` has that name. */
  ghost predicate Links(g: Graph, packages: map<Id, string>, from: Id, name: string) {
    exists n :: n in packages && packages[n] == name && Reaches(g, from, n)
  }

  function NamesOf(packages: map<Id, string>, found: set<Id>): set<string>
    requires found <= packages.Keys
  {
    set n | n in found :: packages[n]
  }

  /** The names linked by one package; None is a KeyError. */
  method Linked(g: Graph, packages: map<Id, string>, from: Id) returns (names: Option<set<string>>)
    ensures names.Some? <==> Known(g, packages, from)
    ensures names.Some? ==> forall name :: name in names.value <==> Links(g, packages, from, name)
  {
    var found := Reachable(from, g);
    hide Reaches;
    if found.None? || !(found.value <= packages.Keys) { return None; }
    return Some(NamesOf(packages, found.value));
  }

  /** What the check demands of one runtime. */
  ghost predicate Clean(p: Policy, g: Graph, packages: map<Id, string>, workspace: map<string, Id>, runtime: string) {
    runtime in workspace && Known(g, packages, workspace[runtime]) &&
    forall name | name in p.parsers :: !Links(g, packages, workspace[runtime], name)
  }

  /** The first runtime that is not clean, and not for want of a package. */
  ghost predicate FirstDirty(p: Policy, g: Graph, packages: map<Id, string>, workspace: map<string, Id>, k: nat)
    requires k < |p.runtimes|
  {
    && (forall j | 0 <= j < k :: Clean(p, g, packages, workspace, p.runtimes[j]))
    && p.runtimes[k] in workspace && Known(g, packages, workspace[p.runtimes[k]])
    && exists name | name in p.parsers :: Links(g, packages, workspace[p.runtimes[k]], name)
  }

  ghost predicate GuestHealthy(p: Policy, g: Graph, packages: map<Id, string>, workspace: map<string, Id>) {
    p.guest in workspace && Known(g, packages, workspace[p.guest]) &&
    forall name | name in p.guestParsers :: Links(g, packages, workspace[p.guest], name)
  }

  /** The check passes exactly when no runtime links a prohibited parser and the guest links all
      of its own, every lookup succeeding; the injected edge never goes unnoticed. */
  method Check(p: Policy, g: Graph, packages: map<Id, string>, workspace: map<string, Id>) returns (v: Verdict)
    requires p.publicRuntime in p.runtimes
    ensures v == Pass <==>
      && (forall k | 0 <= k < |p.runtimes| :: Clean(p, g, packages, workspace, p.runtimes[k]))
      && GuestHealthy(p, g, packages, workspace)
    ensures v.Prohibited? ==> exists k | 0 <= k < |p.runtimes| :: v.runtime == p.runtimes[k] && FirstDirty(p, g, packages, workspace, k)
    ensures (exists k | 0 <= k < |p.runtimes| :: FirstDirty(p, g, packages, workspace, k)) ==> v.Prohibited?
    ensures v == GuestMissing <==>
      && (forall k | 0 <= k < |p.runtimes| :: Clean(p, g, packages, workspace, p.runtimes[k]))
      && p.guest in workspace && Known(g, packages, workspace[p.guest]) && !GuestHealthy(p, g, packages, workspace)
    ensures v != ControlMissed
  {
    hide Links, Step, Known;
    for k := 0 to |p.runtimes|
      invariant forall j | 0 <= j < k :: Clean(p, g, packages, workspace, p.runtimes[j])
    {
      if p.runtimes[k] !in workspace { return KeyError; }
      var names := Linked(g, packages, workspace[p.runtimes[k]]);
      if names.None? { return KeyError; }
      var found := names.value * p.parsers;
      if found != {} {
        ghost var name := Member(found);
        assert !Clean(p, g, packages, workspace, p.runtimes[k]);
        return Prohibited(p.runtimes[k]);
      }
      forall name | name in p.parsers ensures !Links(g, packages, workspace[p.runtimes[k]], name) {
        assert name !in found;
      }
    }
    if p.guest !in workspace { return KeyError; }
    var guest := workspace[p.guest];
    var names := Linked(g, packages, guest);
    if names.None? { return KeyError; }
    if !(p.guestParsers <= names.value) { return GuestMissing; }
    ghost var k :| 0 <= k < |p.runtimes| && p.runtimes[k] == p.publicRuntime;
    assert Clean(p, g, packages, workspace, p.publicRuntime);
    var public := workspace[p.publicRuntime];
    KnownStart(g, packages, public);
    var control := Inject(g, public, guest);
    ControlKnown(g, packages, public, guest);
    names := Linked(control, packages, public);
    forall name | name in p.guestParsers ensures name in names.value {
      ControlLinks(g, packages, public, guest, name);
    }
    if !(p.guestParsers <= names.value) { return ControlMissed; }
    return Pass;
  }

  lemma KnownStart(g: Graph, packages: map<Id, string>, from: Id)
    requires Known(g, packages, from)
    ensures from in g
  {
    ReachesItself(g, from);
  }

  lemma ControlKnown(g: Graph, packages: map<Id, string>, from: Id, to: Id)
    requires from in g && Known(g, packages, from) && Known(g, packages, to)
    ensures Known(Inject(g, from, to), packages, from)
  {
    forall n | Reaches(Inject(g, from, to), from, n) ensures n in g && n in packages {
      InjectedReach(g, from, to, n);
    }
  }

  lemma ControlLinks(g: Graph, packages: map<Id, string>, from: Id, to: Id, name: string)
    requires from in g
    ensures Links(Inject(g, from, to), packages, from, name)
       <==> Links(g, packages, from, name) || Links(g, packages, to, name)
  {
    hide Reaches;
    forall n ensures Reaches(Inject(g, from, to), from, n) <==> Reaches(g, from, n) || Reaches(g, to, n) {
      InjectedReach(g, from, to, n);
    }
  }
}
