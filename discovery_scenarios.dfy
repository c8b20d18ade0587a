/** The fixtures of the discovery tests and the outcomes the tests expect,
    proved of the model. `empty` stands for the empty backend baseline and
    `region` for the default functions region, neither of which is known
    here, so each scenario holds for every choice of them. */
module DiscoveryScenarios {
  import opened Results
  import opened Discovery

  /** `MIN_FUNCTION`: an HTTPS function declared without project, region or runtime. */
  const MinFunctionFixture: MinFunction := MinFunction("gcfv1", "function", "entrypoint", HttpsTrigger(false))

  /** `FUNCTION`: the same function deployed to `project` with `nodejs14`. */
  function FunctionFixture(region: string): FunctionSpec
  {
    FunctionSpec("gcfv1", "function", "entrypoint", HttpsTrigger(false), "project", region, "nodejs14")
  }

  /** `YAML_OBJ`, and `YAML_TEXT` once parsed: the baseline tagged `v1alpha1`
      with the one minimal function. */
  function YamlObj(empty: BackendFields): Manifest
  {
    Manifest(Some("v1alpha1"), empty, [MinFunctionFixture])
  }

  /** `BACKEND`: the baseline with the one full function and no `specVersion`. */
  function BackendFixture(empty: BackendFields, region: string): Backend
  {
    Backend(empty, [FunctionFixture(region)])
  }

  lemma AcceptsValidV1Alpha1(empty: BackendFields, region: string)
    ensures YamlToBackend(YamlObj(empty), "project", region, "nodejs14") == Success(BackendFixture(empty, region))
  {
    var r := YamlToBackend(YamlObj(empty), "project", region, "nodejs14");
    assert r.value.cloudFunctions[0] == FunctionFixture(region);
    assert r.value.cloudFunctions == [FunctionFixture(region)];
  }

  lemma RequiresSpecVersion(empty: BackendFields, region: string)
    ensures YamlToBackend(YamlObj(empty).(specVersion := None), "project", region, "nodejs14") == Failure(MissingSpecVersion)
  {
  }

  lemma RejectsUnknownSpecVersion(empty: BackendFields, region: string)
    ensures YamlToBackend(YamlObj(empty).(specVersion := Some("32767beta2")), "project", region, "nodejs14")
      == Failure(UnsupportedSpecVersion("32767beta2"))
  {
  }

  lemma DetectFromYamlFindsManifest(empty: BackendFields, region: string)
    ensures DetectFromYaml(ReadOk(YamlObj(empty)), "project", "nodejs14", region) == Success(Some(BackendFixture(empty, region)))
  {
    AcceptsValidV1Alpha1(empty, region);
  }

  lemma DetectFromYamlMissingFile(region: string)
    ensures DetectFromYaml(ReadError("ENOENT"), "project", "nodejs14", region) == Success(None)
  {
  }

  /** Twenty refusals with `ECONNREFUSED`, then a `200` carrying the manifest. */
  lemma DetectFromPortSmokeTest(empty: BackendFields, region: string)
    ensures Probe(Refusals(20) + [Reply(YamlObj(empty))], "project", region, "nodejs14") == Success(BackendFixture(empty, region))
  {
    RetriesThroughRefusals(20, YamlObj(empty), [], "project", region, "nodejs14");
    assert Refusals(20) + [Reply(YamlObj(empty))] + [] == Refusals(20) + [Reply(YamlObj(empty))];
    AcceptsValidV1Alpha1(empty, region);
  }

  /** The same scenario through the retry loop: it makes twenty-one requests
      and returns `BACKEND`. */
  method DetectFromPortSmokeRun(empty: BackendFields, region: string)
    returns (r: Result<Backend, DiscoveryError>, attempts: nat)
    ensures r == Success(BackendFixture(empty, region)) && attempts == 21
  {
    var responses := Refusals(20) + [Reply(YamlObj(empty))];
    r, attempts := DetectFromPort(responses, "project", "nodejs14", region);
    DetectFromPortSmokeTest(empty, region);
    assert forall j :: 0 <= j < 20 ==> responses[j] == Refusals(20)[j];
  }
}
