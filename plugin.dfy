/**
 * `WffValidatorPlugin.apply`: resolve the release tag and the six locations
 * derived from it, register the two download tasks, register the validation,
 * install and memory-footprint tasks for the debug variant, then wire the
 * dependencies once the project is evaluated.
 */
module Plugin {
  import opened Options
  import opened ReleaseTag
  import opened TaskGraph

  /** The tasks registered for the debug variant. */
  const VariantTasks: set<TaskName> := {ValidateWff, ValidateWffAndInstall, MemoryFootprint}

  /** The two tool-download tasks, registered unconditionally. */
  const DownloadTasks: set<TaskName> := {DownloadWffValidator, DownloadMemoryFootprint}

  /** Every task the plugin registers itself. */
  const PluginTasks: set<TaskName> := DownloadTasks + VariantTasks

  /** `project` holds the tasks other plugins registered (the Android plugin's `assembleDebug`
      and `bundleDebug`); `hasDebugVariant` says whether the debug-variant callback runs.
      `ok` is false when Gradle would throw: a name already taken, or a task that the wiring
      looks up missing. */
  method Apply(project: TaskContainer, properties: map<string, Option<string>>, hasDebugVariant: bool)
    returns (locations: ToolLocations, ok: bool)
    modifies project
    ensures locations == Locations(ResolveTag(properties))
    ensures ok <==>
      && DownloadWffValidator !in old(project.registered)
      && DownloadMemoryFootprint !in old(project.registered)
      && (if hasDebugVariant
          then VariantTasks !! old(project.registered) && {AssembleDebug, BundleDebug} <= old(project.registered)
          else WiredTasks <= old(project.registered))
    ensures ok ==> project.registered ==
                   old(project.registered) + if hasDebugVariant then PluginTasks else DownloadTasks
    ensures old(project.registered) <= project.registered <= old(project.registered) + PluginTasks
    ensures ok ==> project.edges == old(project.edges) + PluginEdges
    ensures old(project.edges) <= project.edges <= old(project.edges) + PluginEdges
  {
    var tag := ResolveTag(properties);
    locations := Locations(tag);
    ok := project.Register(DownloadWffValidator);
    if !ok { return; }
    ok := project.Register(DownloadMemoryFootprint);
    if !ok { return; }
    if hasDebugVariant {
      ok := project.Register(ValidateWff);
      if !ok { return; }
      ok := project.Register(ValidateWffAndInstall);
      if !ok { return; }
      ok := project.Register(MemoryFootprint);
      if !ok { return; }
    }
    ok := project.WireDependencies();
  }

  /** On a project where the Android plugin registered `assembleDebug` and `bundleDebug`, the
      plugin ends up with all seven tasks and exactly the four edges. */
  method ApplyToAndroidProject(properties: map<string, Option<string>>)
    returns (registered: set<TaskName>, edges: set<Edge>)
    ensures registered == {AssembleDebug, BundleDebug, ValidateWff, MemoryFootprint,
      DownloadWffValidator, DownloadMemoryFootprint, ValidateWffAndInstall}
    ensures edges == PluginEdges
  {
    var project := new TaskContainer({AssembleDebug, BundleDebug});
    var locations, ok := Apply(project, properties, true);
    registered, edges := project.registered, project.edges;
  }
}
