/**
 * The plugin's task names and the `dependsOn` edges it adds once the project
 * is evaluated (`WffValidatorPlugin.apply`, its `afterEvaluate` block).
 * An edge `DependsOn(t, p)` says task `t` runs only after task `p`.
 */
module TaskGraph {
  import opened Options

  datatype TaskName =
    | AssembleDebug | BundleDebug | ValidateWff | MemoryFootprint
    | DownloadWffValidator | DownloadMemoryFootprint | ValidateWffAndInstall

  /** The name each task is registered under. */
  function NameOf(t: TaskName): string
  {
    match t
    case AssembleDebug => "assembleDebug"
    case BundleDebug => "bundleDebug"
    case ValidateWff => "validateWff"
    case MemoryFootprint => "memoryFootprint"
    case DownloadWffValidator => "downloadWffValidator"
    case DownloadMemoryFootprint => "downloadMemoryFootprint"
    case ValidateWffAndInstall => "validateWffAndInstall"
  }

  /** The left inverse of `NameOf` over the seven names the plugin knows; it exists to prove
      the names pairwise distinct (`NamesDistinct`). */
  function TaskNamed(name: string): Option<TaskName>
  {
    if name == "assembleDebug" then Some(AssembleDebug)
    else if name == "bundleDebug" then Some(BundleDebug)
    else if name == "validateWff" then Some(ValidateWff)
    else if name == "memoryFootprint" then Some(MemoryFootprint)
    else if name == "downloadWffValidator" then Some(DownloadWffValidator)
    else if name == "downloadMemoryFootprint" then Some(DownloadMemoryFootprint)
    else if name == "validateWffAndInstall" then Some(ValidateWffAndInstall)
    else None
  }

  /** Every task is found again under its own name. */
  lemma TaskNamedNameOf(t: TaskName)
    ensures TaskNamed(NameOf(t)) == Some(t)
  {
  }

  /** The seven name constants are pairwise distinct. */
  lemma NamesDistinct(a: TaskName, b: TaskName)
    requires a != b
    ensures NameOf(a) != NameOf(b)
  {
    TaskNamedNameOf(a);
    TaskNamedNameOf(b);
  }

  datatype Edge = DependsOn(task: TaskName, prerequisite: TaskName)

  /** The four edges of the `afterEvaluate` block. */
  const PluginEdges: set<Edge> := {
    DependsOn(AssembleDebug, ValidateWff),
    DependsOn(BundleDebug, ValidateWff),
    DependsOn(ValidateWffAndInstall, AssembleDebug),
    DependsOn(MemoryFootprint, AssembleDebug)
  }

  /** The tasks the `afterEvaluate` block looks up by name. */
  const WiredTasks: set<TaskName> :=
    {ValidateWff, AssembleDebug, BundleDebug, ValidateWffAndInstall, MemoryFootprint}

  /** `p` is a chain of dependencies: each task depends on the next. */
  ghost predicate IsChain(edges: set<Edge>, p: seq<TaskName>)
  {
    forall i :: 0 <= i < |p| - 1 ==> DependsOn(p[i], p[i + 1]) in edges
  }

  /** `a` runs only after `b`, directly or through other tasks. */
  ghost predicate TransitivelyDependsOn(edges: set<Edge>, a: TaskName, b: TaskName)
  {
    exists p :: |p| >= 2 && p[0] == a && p[|p| - 1] == b && IsChain(edges, p)
  }

  /** Distance from the bottom of the graph: every edge leads to a lower layer. */
  function Layer(t: TaskName): nat
  {
    match t
    case ValidateWffAndInstall | MemoryFootprint => 2
    case AssembleDebug | BundleDebug => 1
    case _ => 0
  }

  /** Along a chain of the plugin's edges the layer strictly decreases. */
  lemma {:induction false} ChainDescends(p: seq<TaskName>)
    requires |p| >= 2 && IsChain(PluginEdges, p)
    ensures Layer(p[0]) > Layer(p[|p| - 1])
  {
    assert DependsOn(p[0], p[1]) in PluginEdges;
    if |p| > 2 {
      assert IsChain(PluginEdges, p[1..]) by {
        forall i | 0 <= i < |p[1..]| - 1 ensures DependsOn(p[1..][i], p[1..][i + 1]) in PluginEdges {
          assert DependsOn(p[i + 1], p[i + 2]) in PluginEdges;
        }
      }
      ChainDescends(p[1..]);
    }
  }

  /** The plugin's graph has no cycle: no task depends, even transitively, on itself. */
  lemma PluginGraphAcyclic(t: TaskName)
    ensures !TransitivelyDependsOn(PluginEdges, t, t)
  {
    if TransitivelyDependsOn(PluginEdges, t, t) {
      var p :| |p| >= 2 && p[0] == t && p[|p| - 1] == t && IsChain(PluginEdges, p);
      ChainDescends(p);
    }
  }

  /** Validation comes before install and before memory-footprint measurement, through assembly. */
  lemma ValidationPrecedesInstallAndMeasurement()
    ensures TransitivelyDependsOn(PluginEdges, ValidateWffAndInstall, ValidateWff)
    ensures TransitivelyDependsOn(PluginEdges, MemoryFootprint, ValidateWff)
  {
    var install := [ValidateWffAndInstall, AssembleDebug, ValidateWff];
    assert IsChain(PluginEdges, install);
    var measure := [MemoryFootprint, AssembleDebug, ValidateWff];
    assert IsChain(PluginEdges, measure);
  }

  /** A run (an execution order) honours the edges: every task's prerequisites ran before it. */
  ghost predicate Honours(edges: set<Edge>, run: seq<TaskName>)
  {
    forall i, e :: 0 <= i < |run| && e in edges && e.task == run[i] ==> e.prerequisite in run[..i]
  }

  /** In a run that honours the plugin's edges, validation ran before every packaging, install
      and measurement task: if validation fails and does not run, none of them runs. */
  lemma ValidationRunsFirst(run: seq<TaskName>, i: nat)
    requires Honours(PluginEdges, run)
    requires i < |run| && run[i] in {AssembleDebug, BundleDebug, ValidateWffAndInstall, MemoryFootprint}
    ensures ValidateWff in run[..i]
  {
    if run[i] in {AssembleDebug, BundleDebug} {
      assert DependsOn(run[i], ValidateWff) in PluginEdges;
    } else {
      assert DependsOn(run[i], AssembleDebug) in PluginEdges;
      assert AssembleDebug in run[..i];
      var j :| 0 <= j < i && run[j] == AssembleDebug;
      assert DependsOn(AssembleDebug, ValidateWff) in PluginEdges;
      assert ValidateWff in run[..j];
      assert run[..j] == run[..i][..j];
    }
  }

  /** The seven tasks can run in one order that honours every edge. */
  lemma SomeOrderHonoursTheEdges()
    ensures Honours(PluginEdges, [DownloadWffValidator, DownloadMemoryFootprint, ValidateWff,
      AssembleDebug, BundleDebug, ValidateWffAndInstall, MemoryFootprint])
  {
    var run := [DownloadWffValidator, DownloadMemoryFootprint, ValidateWff,
      AssembleDebug, BundleDebug, ValidateWffAndInstall, MemoryFootprint];
    forall i, e | 0 <= i < |run| && e in PluginEdges && e.task == run[i]
      ensures e.prerequisite in run[..i]
    {
      assert run[2] == ValidateWff && run[3] == AssembleDebug;
    }
  }

  /** The project's task container: the tasks registered so far and their `dependsOn` edges. */
  class TaskContainer {
    var registered: set<TaskName>
    var edges: set<Edge>

    /** A container holding the tasks other plugins registered, with no edges yet. */
    constructor (existing: set<TaskName>)
      ensures registered == existing && edges == {}
    {
      registered := existing;
      edges := {};
    }

    /** `tasks.register`: fails (Gradle throws) when the name is already taken. */
    method Register(t: TaskName) returns (ok: bool)
      modifies this
      ensures ok == (t !in old(registered))
      ensures registered == old(registered) + {t}
      ensures edges == old(edges)
    {
      ok := t !in registered;
      if ok {
        registered := registered + {t};
      }
    }

    /** `tasks.named(task).configure { it.dependsOn(prerequisite) }`, the prerequisite already
        looked up: fails (Gradle throws) when `task` is not registered. */
    method AddDependency(task: TaskName, prerequisite: TaskName) returns (ok: bool)
      requires prerequisite in registered
      modifies this
      ensures ok == (task in old(registered))
      ensures registered == old(registered)
      ensures edges == if ok then old(edges) + {DependsOn(task, prerequisite)} else old(edges)
    {
      ok := task in registered;
      if ok {
        edges := edges + {DependsOn(task, prerequisite)};
      }
    }

    /** The `afterEvaluate` block: looks each task up by name in the order of the source and
        stops at the first name that is not registered. */
    method WireDependencies() returns (ok: bool)
      modifies this
      ensures registered == old(registered)
      ensures ok <==> WiredTasks <= old(registered)
      ensures ok ==> edges == old(edges) + PluginEdges
      ensures old(edges) <= edges <= old(edges) + PluginEdges
      ensures ValidateWff !in old(registered) ==> edges == old(edges)
    {
      ok := ValidateWff in registered;
      if !ok { return; }
      ok := AddDependency(AssembleDebug, ValidateWff);
      if !ok { return; }
      ok := AddDependency(BundleDebug, ValidateWff);
      if !ok { return; }
      ok := AddDependency(ValidateWffAndInstall, AssembleDebug);
      if !ok { return; }
      ok := AddDependency(MemoryFootprint, AssembleDebug);
    }
  }
}
