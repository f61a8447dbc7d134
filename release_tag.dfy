/**
 * The release tag that selects which published build of the validator and the
 * memory-footprint tool to use, and the six strings derived from it
 * (`WffValidatorPlugin.apply`): each is a format string with one `%s`, here a
 * fixed prefix and a fixed suffix around the tag.
 */
module ReleaseTag {
  import opened Options

  const ReleaseProperty := "release"
  const DefaultReleaseTag := "release"

  /** A format string with a single `%s`: the text before it and the text after it. */
  datatype Template = Template(prefix: string, suffix: string)

  const ValidatorUrl :=
    Template("https://github.com/google/watchface/releases/download/", "/wff-validator.jar")
  const ValidatorPath := Template("validator/validator-", ".jar")
  const ValidatorOutputPath := Template("validator/validator-", ".txt")
  const MemoryFootprintUrl :=
    Template("https://github.com/google/watchface/releases/download/", "/memory-footprint.jar")
  const MemoryFootprintPath := Template("memory-footprint/memory-footprint-", ".jar")
  const MemoryFootprintOutputPath := Template("memory-footprint/memory-footprint-", ".txt")

  /** `String.format` of a one-`%s` template. */
  function Format(t: Template, tag: string): string
  {
    t.prefix + tag + t.suffix
  }

  /** The inverse of `Format`: the text between the template's prefix and suffix, if `s` has both. */
  function Unformat(t: Template, s: string): Option<string>
  {
    if |t.prefix| + |t.suffix| <= |s| && s[..|t.prefix|] == t.prefix && s[|s| - |t.suffix|..] == t.suffix
    then Some(s[|t.prefix|..|s| - |t.suffix|])
    else None
  }

  /** `project.properties["release"] ?: DEFAULT_RELEASE_TAG`: the property when present and
      non-null, otherwise "release". A property's value is given as its rendering. */
  function ResolveTag(properties: map<string, Option<string>>): (tag: string)
    ensures ReleaseProperty in properties && properties[ReleaseProperty].Some? ==>
      tag == properties[ReleaseProperty].value
    ensures ReleaseProperty !in properties || properties[ReleaseProperty].None? ==> tag == "release"
  {
    if ReleaseProperty in properties then properties[ReleaseProperty].GetOr(DefaultReleaseTag)
    else DefaultReleaseTag
  }

  /** The six strings the plugin derives from the tag. */
  datatype ToolLocations = ToolLocations(
    validatorUrl: string, validatorJar: string, validatorOutput: string,
    memoryFootprintUrl: string, memoryFootprintJar: string, memoryFootprintOutput: string)

  function Locations(tag: string): ToolLocations
  {
    ToolLocations(
      Format(ValidatorUrl, tag), Format(ValidatorPath, tag), Format(ValidatorOutputPath, tag),
      Format(MemoryFootprintUrl, tag), Format(MemoryFootprintPath, tag), Format(MemoryFootprintOutputPath, tag))
  }

  /** Stripping the prefix and the suffix reads the tag back out of a formatted string. */
  lemma UnformatFormat(t: Template, tag: string)
    ensures Unformat(t, Format(t, tag)) == Some(tag)
  {
    var s := Format(t, tag);
    assert s[..|t.prefix|] == t.prefix;
    assert s[|s| - |t.suffix|..] == t.suffix;
    assert s[|t.prefix|..|s| - |t.suffix|] == tag;
  }

  /** A string that unformats to a tag is that tag formatted. */
  lemma FormatUnformat(t: Template, s: string, tag: string)
    requires Unformat(t, s) == Some(tag)
    ensures Format(t, tag) == s
  {
    assert s == s[..|t.prefix|] + s[|t.prefix|..|s| - |t.suffix|] + s[|s| - |t.suffix|..];
  }

  /** Distinct tags give distinct strings, for every template. */
  lemma FormatInjective(t: Template, tag1: string, tag2: string)
    requires Format(t, tag1) == Format(t, tag2)
    ensures tag1 == tag2
  {
    UnformatFormat(t, tag1);
    UnformatFormat(t, tag2);
  }

  /** Every one of the six locations carries the tag, and the tag is read back from each. */
  lemma LocationsCarryTag(tag: string)
    ensures var l := Locations(tag);
      && Unformat(ValidatorUrl, l.validatorUrl) == Some(tag)
      && Unformat(ValidatorPath, l.validatorJar) == Some(tag)
      && Unformat(ValidatorOutputPath, l.validatorOutput) == Some(tag)
      && Unformat(MemoryFootprintUrl, l.memoryFootprintUrl) == Some(tag)
      && Unformat(MemoryFootprintPath, l.memoryFootprintJar) == Some(tag)
      && Unformat(MemoryFootprintOutputPath, l.memoryFootprintOutput) == Some(tag)
  {
    UnformatFormat(ValidatorUrl, tag);
    UnformatFormat(ValidatorPath, tag);
    UnformatFormat(ValidatorOutputPath, tag);
    UnformatFormat(MemoryFootprintUrl, tag);
    UnformatFormat(MemoryFootprintPath, tag);
    UnformatFormat(MemoryFootprintOutputPath, tag);
  }

  /** Distinct tags give distinct jar caches and distinct output files. */
  lemma LocationsInjective(tag1: string, tag2: string)
    requires tag1 != tag2
    ensures Locations(tag1).validatorJar != Locations(tag2).validatorJar
    ensures Locations(tag1).validatorOutput != Locations(tag2).validatorOutput
    ensures Locations(tag1).memoryFootprintJar != Locations(tag2).memoryFootprintJar
    ensures Locations(tag1).memoryFootprintOutput != Locations(tag2).memoryFootprintOutput
  {
    LocationsCarryTag(tag1);
    LocationsCarryTag(tag2);
  }

  /** Each jar path and its output path differ only in the final ".jar" versus ".txt". */
  lemma JarAndOutputDifferOnlyInExtension(tag: string)
    ensures var l := Locations(tag);
      && l.validatorJar == "validator/validator-" + tag + ".jar"
      && l.validatorOutput == "validator/validator-" + tag + ".txt"
      && l.memoryFootprintJar == "memory-footprint/memory-footprint-" + tag + ".jar"
      && l.memoryFootprintOutput == "memory-footprint/memory-footprint-" + tag + ".txt"
      && l.validatorJar[..|l.validatorJar| - 4] == l.validatorOutput[..|l.validatorOutput| - 4]
      && l.memoryFootprintJar[..|l.memoryFootprintJar| - 4] == l.memoryFootprintOutput[..|l.memoryFootprintOutput| - 4]
      && l.validatorJar != l.validatorOutput
      && l.memoryFootprintJar != l.memoryFootprintOutput
  {
    var l := Locations(tag);
    assert l.validatorJar[..|l.validatorJar| - 4] == "validator/validator-" + tag;
    assert l.validatorOutput[..|l.validatorOutput| - 4] == "validator/validator-" + tag;
    assert l.memoryFootprintJar[..|l.memoryFootprintJar| - 4] == "memory-footprint/memory-footprint-" + tag;
    assert l.memoryFootprintOutput[..|l.memoryFootprintOutput| - 4] == "memory-footprint/memory-footprint-" + tag;
    assert l.validatorJar[|l.validatorJar| - 3] == 'j' && l.validatorOutput[|l.validatorOutput| - 3] == 't';
    assert l.memoryFootprintJar[|l.memoryFootprintJar| - 3] == 'j';
    assert l.memoryFootprintOutput[|l.memoryFootprintOutput| - 3] == 't';
  }

  /** The two tools' files never share a path, whatever the tags: they live in different directories. */
  lemma ToolsNeverShareAPath(tag1: string, tag2: string)
    ensures Locations(tag1).validatorJar != Locations(tag2).memoryFootprintJar
    ensures Locations(tag1).validatorOutput != Locations(tag2).memoryFootprintOutput
  {
    assert Locations(tag1).validatorJar[0] == 'v';
    assert Locations(tag2).memoryFootprintJar[0] == 'm';
    assert Locations(tag1).validatorOutput[0] == 'v';
    assert Locations(tag2).memoryFootprintOutput[0] == 'm';
  }

  /** Setting the "release" property to "latest" points both downloads, both caches and both
      outputs at "latest"; leaving it unset, or null, uses "release". */
  lemma LatestOverride()
    ensures ResolveTag(map["release" := Some("latest")]) == "latest"
    ensures ResolveTag(map[]) == "release" && ResolveTag(map["release" := None]) == "release"
    ensures var l := Locations(ResolveTag(map["release" := Some("latest")]));
      && Unformat(ValidatorUrl, l.validatorUrl) == Some("latest")
      && Unformat(ValidatorPath, l.validatorJar) == Some("latest")
      && Unformat(MemoryFootprintUrl, l.memoryFootprintUrl) == Some("latest")
      && Unformat(MemoryFootprintPath, l.memoryFootprintJar) == Some("latest")
  {
    LocationsCarryTag("latest");
  }
}
