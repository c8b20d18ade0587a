/** Discovery of a functions backend: decoding a versioned manifest into a
    backend specification, finding that manifest on disk, and asking a
    starting runtime for it over a local port. The YAML text is taken as
    already parsed; file reads and HTTP replies come in as values. */
module Discovery {
  import opened Results

  /** A function's trigger. Only the HTTPS form's `allowInsecure` flag is
      known; an event trigger's fields are carried without interpretation. */
  datatype Trigger =
    | HttpsTrigger(allowInsecure: bool)
    | EventTrigger(fields: map<string, string>)

  /** A function as the manifest declares it: no project, region or runtime. */
  datatype MinFunction = MinFunction(platform: string, id: string, entryPoint: string, trigger: Trigger)

  /** A function of the backend, with the caller's project, region and runtime. */
  datatype FunctionSpec = FunctionSpec(
    platform: string, id: string, entryPoint: string, trigger: Trigger,
    project: string, region: string, runtime: string)

  /** The backend's fields other than `cloudFunctions` (those of the empty
      backend baseline), carried as an uninterpreted record. */
  datatype BackendFields = BackendFields(entries: map<string, string>)

  /** A backend specification. It has no `specVersion` field. */
  datatype Backend = Backend(fields: BackendFields, cloudFunctions: seq<FunctionSpec>)

  /** A parsed manifest document: an optional `specVersion` tag and a
      backend-shaped payload whose functions are minimal descriptors. */
  datatype Manifest = Manifest(specVersion: Option<string>, fields: BackendFields, cloudFunctions: seq<MinFunction>)

  /** The one manifest version the decoder knows. */
  const V1Alpha1: string := "v1alpha1"

  datatype DiscoveryError =
    | MissingSpecVersion
    | UnsupportedSpecVersion(version: string)
    | ReadFailed(code: string)
    | RequestFailed(code: string)
    | ProbeGaveUp

  /** The declared part of a full function: its projection back to a descriptor. */
  function Descriptor(f: FunctionSpec): MinFunction
  {
    MinFunction(f.platform, f.id, f.entryPoint, f.trigger)
  }

  /** A descriptor with the caller's project, region and runtime merged in;
      the declared fields are copied verbatim. */
  function WithDefaults(m: MinFunction, project: string, region: string, runtime: string): (f: FunctionSpec)
    ensures Descriptor(f) == m
    ensures f.project == project && f.region == region && f.runtime == runtime
  {
    FunctionSpec(m.platform, m.id, m.entryPoint, m.trigger, project, region, runtime)
  }

  /** Every descriptor merged with the same caller values, in declared order. */
  function WithDefaultsAll(ms: seq<MinFunction>, project: string, region: string, runtime: string): (fs: seq<FunctionSpec>)
    ensures |fs| == |ms|
    ensures forall i :: 0 <= i < |ms| ==>
      Descriptor(fs[i]) == ms[i] &&
      fs[i].project == project && fs[i].region == region && fs[i].runtime == runtime
  {
    if ms == [] then []
    else [WithDefaults(ms[0], project, region, runtime)] + WithDefaultsAll(ms[1..], project, region, runtime)
  }

  /** The `v1alpha1` transformer: the payload's fields are kept, its functions
      merged with the caller's values, and the version tag dropped. */
  function BackendFromV1Alpha1(m: Manifest, project: string, region: string, runtime: string): (b: Backend)
    ensures b.fields == m.fields && |b.cloudFunctions| == |m.cloudFunctions|
    ensures forall i :: 0 <= i < |m.cloudFunctions| ==>
      b.cloudFunctions[i] == WithDefaults(m.cloudFunctions[i], project, region, runtime)
  {
    Backend(m.fields, WithDefaultsAll(m.cloudFunctions, project, region, runtime))
  }

  /** `yamlToBackend`: a missing version and any version other than
      `v1alpha1` are errors; a `v1alpha1` document decodes. */
  function YamlToBackend(m: Manifest, project: string, region: string, runtime: string): (r: Result<Backend, DiscoveryError>)
    ensures m.specVersion == None ==> r == Failure(MissingSpecVersion)
    ensures m.specVersion.Some? && m.specVersion.value != V1Alpha1 ==>
      r == Failure(UnsupportedSpecVersion(m.specVersion.value))
    ensures r.Success? <==> m.specVersion == Some(V1Alpha1)
    ensures r.Success? ==>
      r.value.fields == m.fields && |r.value.cloudFunctions| == |m.cloudFunctions| &&
      forall i :: 0 <= i < |m.cloudFunctions| ==>
        Descriptor(r.value.cloudFunctions[i]) == m.cloudFunctions[i] &&
        r.value.cloudFunctions[i].project == project &&
        r.value.cloudFunctions[i].region == region &&
        r.value.cloudFunctions[i].runtime == runtime
  {
    match m.specVersion
    case None => Failure(MissingSpecVersion)
    case Some(version) =>
      if version == V1Alpha1 then Success(BackendFromV1Alpha1(m, project, region, runtime))
      else Failure(UnsupportedSpecVersion(version))
  }

  /** The manifest a backend is written as: tagged `v1alpha1`, with each
      function reduced to its descriptor (dumping it as YAML and parsing it
      back is taken to be the identity). */
  function ToManifest(b: Backend): (m: Manifest)
    ensures m.specVersion == Some(V1Alpha1) && m.fields == b.fields
    ensures |m.cloudFunctions| == |b.cloudFunctions|
    ensures forall i :: 0 <= i < |b.cloudFunctions| ==> m.cloudFunctions[i] == Descriptor(b.cloudFunctions[i])
  {
    Manifest(Some(V1Alpha1), b.fields, DescriptorsOf(b.cloudFunctions))
  }

  function DescriptorsOf(fs: seq<FunctionSpec>): (ms: seq<MinFunction>)
    ensures |ms| == |fs|
    ensures forall i :: 0 <= i < |fs| ==> ms[i] == Descriptor(fs[i])
  {
    if fs == [] then [] else [Descriptor(fs[0])] + DescriptorsOf(fs[1..])
  }

  /** All functions of `b` carry these caller values. */
  predicate CarriesCallerValues(b: Backend, project: string, region: string, runtime: string)
  {
    forall i :: 0 <= i < |b.cloudFunctions| ==>
      b.cloudFunctions[i].project == project &&
      b.cloudFunctions[i].region == region &&
      b.cloudFunctions[i].runtime == runtime
  }

  /** Decoding inverts writing: a backend comes back from its own manifest
      exactly when its functions already carry the caller's values. */
  lemma DecodeToManifest(b: Backend, project: string, region: string, runtime: string)
    ensures YamlToBackend(ToManifest(b), project, region, runtime) == Success(b) <==>
      CarriesCallerValues(b, project, region, runtime)
  {
    var r := YamlToBackend(ToManifest(b), project, region, runtime);
    if CarriesCallerValues(b, project, region, runtime) {
      var fs := r.value.cloudFunctions;
      assert |fs| == |b.cloudFunctions|;
      forall i | 0 <= i < |fs| ensures fs[i] == b.cloudFunctions[i] {
        assert Descriptor(fs[i]) == Descriptor(b.cloudFunctions[i]);
      }
      assert fs == b.cloudFunctions;
    }
  }

  /** Reading the manifest file: its parsed contents, or the error code. */
  datatype ReadResult = ReadOk(document: Manifest) | ReadError(code: string)

  /** `detectFromYaml`: a missing file (`ENOENT`) gives no backend rather than
      an error; a file that is read decodes with the default functions region. */
  function DetectFromYaml(read: ReadResult, project: string, runtime: string, defaultRegion: string): (r: Result<Option<Backend>, DiscoveryError>)
    ensures r == Success(None) <==> read.ReadError? && read.code == "ENOENT"
    ensures read.ReadOk? ==>
      match YamlToBackend(read.document, project, defaultRegion, runtime)
      case Success(b) => r == Success(Some(b))
      case Failure(e) => r == Failure(e)
    ensures read.ReadError? && read.code != "ENOENT" ==> r == Failure(ReadFailed(read.code))
  {
    match read
    case ReadError(code) =>
      if code == "ENOENT" then Success(None) else Failure(ReadFailed(code))
    case ReadOk(document) =>
      match YamlToBackend(document, project, defaultRegion, runtime)
      case Success(b) => Success(Some(b))
      case Failure(e) => Failure(e)
  }

  /** What one request to the runtime's `/backend.yaml` endpoint yields: a
      `200` reply with its parsed body, or a request error with its code. */
  datatype Response = Reply(body: Manifest) | RequestError(code: string)

  /** The one failure that is retried: the runtime is not listening yet. */
  predicate StillBooting(resp: Response)
  {
    resp.RequestError? && resp.code == "ECONNREFUSED"
  }

  /** The outcome of one request that is not retried. */
  function Answer(resp: Response, project: string, region: string, runtime: string): Result<Backend, DiscoveryError>
  {
    match resp
    case Reply(body) => YamlToBackend(body, project, region, runtime)
    case RequestError(code) => Failure(RequestFailed(code))
  }

  /** The probe over the replies the runtime would give to successive
      requests: refusals are skipped, the first other reply decides, and a
      sequence made only of refusals means the probe gave up. */
  function Probe(responses: seq<Response>, project: string, region: string, runtime: string): (r: Result<Backend, DiscoveryError>)
    ensures r == Failure(ProbeGaveUp) <==> forall i :: 0 <= i < |responses| ==> StillBooting(responses[i])
  {
    if responses == [] then Failure(ProbeGaveUp)
    else if StillBooting(responses[0]) then Probe(responses[1..], project, region, runtime)
    else Answer(responses[0], project, region, runtime)
  }

  /** The probe is decided by the first response that is not a refusal. */
  lemma {:induction false} ProbeFirstAnswer(responses: seq<Response>, k: nat, project: string, region: string, runtime: string)
    requires k < |responses| && !StillBooting(responses[k])
    requires forall i :: 0 <= i < k ==> StillBooting(responses[i])
    ensures Probe(responses, project, region, runtime) == Answer(responses[k], project, region, runtime)
  {
    if k > 0 {
      ProbeFirstAnswer(responses[1..], k - 1, project, region, runtime);
    }
  }

  /** `n` consecutive refusals. */
  function Refusals(n: nat): (rs: seq<Response>)
    ensures |rs| == n && forall i :: 0 <= i < n ==> StillBooting(rs[i])
  {
    seq(n, _ => RequestError("ECONNREFUSED"))
  }

  /** Any number of refusals before a `200` reply is retried through, and the
      reply's body is decoded. */
  lemma RetriesThroughRefusals(n: nat, body: Manifest, later: seq<Response>, project: string, region: string, runtime: string)
    ensures Probe(Refusals(n) + [Reply(body)] + later, project, region, runtime) ==
      YamlToBackend(body, project, region, runtime)
  {
    var responses := Refusals(n) + [Reply(body)] + later;
    assert responses[n] == Reply(body);
    ProbeFirstAnswer(responses, n, project, region, runtime);
  }

  /** `detectFromPort`: request `/backend.yaml` again while the runtime refuses
      the connection, then decode the first other reply with the default
      functions region. `attempts` is the number of requests made. */
  method DetectFromPort(responses: seq<Response>, project: string, runtime: string, defaultRegion: string)
    returns (r: Result<Backend, DiscoveryError>, attempts: nat)
    ensures r == Probe(responses, project, defaultRegion, runtime)
    ensures attempts <= |responses|
    ensures forall i :: 0 <= i < attempts - 1 ==> StillBooting(responses[i])
    ensures r == Failure(ProbeGaveUp) <==>
      attempts == |responses| && forall i :: 0 <= i < |responses| ==> StillBooting(responses[i])
    ensures r != Failure(ProbeGaveUp) ==>
      0 < attempts && !StillBooting(responses[attempts - 1]) &&
      r == Answer(responses[attempts - 1], project, defaultRegion, runtime)
  {
    var i := 0;
    while i < |responses| && StillBooting(responses[i])
      invariant 0 <= i <= |responses|
      invariant forall j :: 0 <= j < i ==> StillBooting(responses[j])
      invariant Probe(responses[i..], project, defaultRegion, runtime) == Probe(responses, project, defaultRegion, runtime)
    {
      assert responses[i..][1..] == responses[i + 1..];
      i := i + 1;
    }
    if i == |responses| {
      r, attempts := Failure(ProbeGaveUp), i;
    } else {
      r, attempts := Answer(responses[i], project, defaultRegion, runtime), i + 1;
    }
  }
}
