# App distribution files and functions backend discovery

A Dafny model of two small pieces of the Firebase CLI.

- **App Distribution file validation** (`src/appdistribution/distribution.ts`).
  A `Distribution` is built from a path. Construction makes three checks in order:
  1. the path must not be empty;
  2. the text after the last `.` must be exactly `ipa`, `apk` or `aab`;
  3. the file must exist.

  From then on the value answers `distributionFileType()`, `platform()` and `getFileName()`.
  Its fields are read-only, so the model makes it a datatype value.
  `NewDistribution(path, fileExists)` is the constructor; the file-system check is the boolean `fileExists`.
  `path.split(".").pop()` is modelled as JavaScript's `split` with a one-character separator, followed by taking the last piece (module `Segments`).
  The same "last segment" serves as the POSIX `basename`.
- **Functions backend discovery**, as fixed by the tests in `src/test/deploy/functions/runtimes/discovery/index.spec.ts`.
  - `yamlToBackend` decodes a parsed manifest. It rejects a missing `specVersion` and any version other than `v1alpha1`.
  - It keeps the other fields of the empty backend baseline.
  - It copies every minimal function descriptor verbatim, in order, and merges the caller's project, region and runtime into it.
  - `detectFromYaml` turns a manifest read that fails with `ENOENT` into "no backend".
  - `detectFromPort` re-sends its request while the runtime refuses connections (`ECONNREFUSED`), then decodes the first other reply.

  The manifest is a datatype, taken as already parsed from YAML. The file read is an input `ReadResult`. The replies to successive HTTP requests are an input sequence of `Response`s. `detectFromPort` is a method with a `while` loop over that sequence, proved equal to the recursive specification `Discovery.Probe`.

Modules: `Results` (Option/Result), `Segments` (split, join, last segment), `AppDistribution`, `Discovery`, and `DiscoveryScenarios` (the test fixtures and the outcomes the tests expect, proved for every value of the unknown baseline and default region).

## Model

| member | source | states |
|---|---|---|
| `Segments.Split` | src/appdistribution/distribution.ts:24 | `split(".")` yields at least one piece, no piece contains the separator, and joining the pieces with the separator gives back the input |
| `Segments.SplitUnique` | src/appdistribution/distribution.ts:24 | any non-empty list of separator-free pieces that joins to `s` is exactly `Split(s)`, so the contract determines the split |
| `Segments.LastSegment` | src/appdistribution/distribution.ts:24 | `split(sep).pop()` is a separator-free suffix that is either the whole string or follows a separator; it is the whole string exactly when the separator does not occur |
| `Segments.LastSegmentUnique` | src/appdistribution/distribution.ts:41 | any separator-free suffix that is the whole string or follows a separator equals the last segment: the POSIX basename of a path without trailing `/` |
| `AppDistribution.ParseFileType` | src/appdistribution/distribution.ts:6-10 | yields the enum value `t` exactly when the tag equals `t`'s string value, and nothing otherwise |
| `AppDistribution.SupportedTags` | src/appdistribution/distribution.ts:25-31 | a tag is accepted if and only if it is exactly `ipa`, `apk` or `aab` |
| `AppDistribution.NewDistribution` | src/appdistribution/distribution.ts:19-42 | an empty path is refused as missing; otherwise an unsupported extension is refused as an unsupported format; otherwise a missing file is refused as not existing, naming that path; it succeeds exactly when all three checks pass, and the value keeps the path, the parsed file type and the basename |
| `AppDistribution.Message` | src/appdistribution/distribution.ts:20-37 | the three refusal messages; the missing-file message begins `File ` followed by the path |
| `AppDistribution.MessagesDistinct` | src/appdistribution/distribution.ts:20-37 | two refusals with the same message are the same refusal, so the missing-file message identifies its path |
| `AppDistribution.RefusalMessages` | src/appdistribution/distribution.ts:20-37 | the constructor's refusal for an empty path, an unsupported extension and a missing file carries the source's message word for word |
| `AppDistribution.ConstructedIffValid` | src/appdistribution/distribution.ts:19-42 | a value is the constructor's result for a path exactly when it is valid for that path and the file exists, so one path has one distribution |
| `AppDistribution.FormatCheckedBeforeExistence` | src/appdistribution/distribution.ts:24-37 | with a non-empty path and a bad extension, the result is "unsupported format" whether or not the file exists |
| `AppDistribution.FileTypeIsExtension` | src/appdistribution/distribution.ts:40-46 | `distributionFileType()` of a constructed value is the parsed extension, which is one of `ipa`, `apk`, `aab` |
| `AppDistribution.PathWithoutDot` | src/appdistribution/distribution.ts:24-31 | a path with no `.` is its own extension, so it is accepted if and only if the file exists and the path is a bare tag |
| `AppDistribution.BareTagAccepted` | src/appdistribution/distribution.ts:24-41 | the bare path `apk` of an existing file is accepted as an APK named `apk` |
| `AppDistribution.UpperCaseRejected` | src/appdistribution/distribution.ts:25-30 | `app.APK` is rejected as an unsupported format: the comparison is case-sensitive |
| `AppDistribution.FileNameShape` | src/appdistribution/distribution.ts:68-70 | the file name of a constructed value ends with its file type, and with `.` plus the file type unless the whole path is the bare tag |
| `AppDistribution.Platform` | src/appdistribution/distribution.ts:56-65 | `platform()` is `ios` exactly for IPA and `android` exactly for APK and AAB |
| `AppDistribution.PlatformOfPath` | src/appdistribution/distribution.ts:56-65 | for a constructed value the platform is `ios` if and only if the path's extension is `ipa`, and `android` if and only if it is `apk` or `aab` |
| `Discovery.WithDefaults` | src/test/deploy/functions/runtimes/discovery/index.spec.ts:20-25 | a full function is its descriptor plus the given project, region and runtime |
| `Discovery.WithDefaultsAll` | src/test/deploy/functions/runtimes/discovery/index.spec.ts:11-25 | the merged list has the descriptors' length and order; each element projects back to its descriptor and carries the given project, region and runtime |
| `Discovery.BackendFromV1Alpha1` | src/test/deploy/functions/runtimes/discovery/index.spec.ts:27-38 | the `v1alpha1` transformer keeps the baseline fields and maps each descriptor position-wise to its merged function |
| `Discovery.YamlToBackend` | src/test/deploy/functions/runtimes/discovery/index.spec.ts:40-67 | a missing version is an error; a version other than `v1alpha1` is an error naming it; decoding succeeds if and only if the version is `v1alpha1`; the result keeps the baseline fields and copies `platform`, `id`, `entryPoint` and `trigger` of every descriptor in order, with the caller's project, region and runtime |
| `Discovery.ToManifest` | src/test/deploy/functions/runtimes/discovery/index.spec.ts:27-33 | writing a backend as a manifest tags it `v1alpha1`, keeps the baseline fields and reduces each function to its descriptor |
| `Discovery.DecodeToManifest` | src/test/deploy/functions/runtimes/discovery/index.spec.ts:27-48 | decoding a backend's own manifest gives that backend back if and only if all its functions already carry the caller's project, region and runtime |
| `Discovery.DetectFromYaml` | src/test/deploy/functions/runtimes/discovery/index.spec.ts:81-95 | the result is "no backend" if and only if the read failed with `ENOENT`; a successful read gives the decoding with the default region, and its errors; any other read error is reported |
| `Discovery.ProbeFirstAnswer` | src/test/deploy/functions/runtimes/discovery/index.spec.ts:106-116 | when every earlier reply is a refusal, the probe's outcome is that of the first reply that is not a refusal |
| `Discovery.Probe` | src/test/deploy/functions/runtimes/discovery/index.spec.ts:106-116 | the probe over successive replies gives up if and only if every reply is a refusal; otherwise its outcome is that of the first non-refusal reply (`ProbeFirstAnswer`) |
| `Discovery.RetriesThroughRefusals` | src/test/deploy/functions/runtimes/discovery/index.spec.ts:106-116 | any number of refusals followed by a `200` reply decode that reply's body, whatever comes after it |
| `Discovery.DetectFromPort` | src/test/deploy/functions/runtimes/discovery/index.spec.ts:98-116 | the retry loop's result is the probe's outcome; every request before the last was refused; it gives up if and only if every reply was a refusal; otherwise the last request got the non-refusal reply and the result is that reply's decoding |
| `DiscoveryScenarios.AcceptsValidV1Alpha1` | src/test/deploy/functions/runtimes/discovery/index.spec.ts:40-49 | `YAML_OBJ` decodes to `BACKEND` for every baseline and region |
| `DiscoveryScenarios.RequiresSpecVersion` | src/test/deploy/functions/runtimes/discovery/index.spec.ts:51-57 | `YAML_OBJ` without `specVersion` is rejected as missing its version |
| `DiscoveryScenarios.RejectsUnknownSpecVersion` | src/test/deploy/functions/runtimes/discovery/index.spec.ts:59-67 | `YAML_OBJ` tagged `32767beta2` is rejected as an unsupported version |
| `DiscoveryScenarios.DetectFromYamlFindsManifest` | src/test/deploy/functions/runtimes/discovery/index.spec.ts:81-87 | reading `YAML_TEXT` yields `BACKEND` with the default region |
| `DiscoveryScenarios.DetectFromYamlMissingFile` | src/test/deploy/functions/runtimes/discovery/index.spec.ts:89-95 | an `ENOENT` read yields no backend, not an error |
| `DiscoveryScenarios.DetectFromPortSmokeTest` | src/test/deploy/functions/runtimes/discovery/index.spec.ts:106-116 | twenty `ECONNREFUSED` failures followed by a `200` with `YAML_TEXT` yield `BACKEND` |
| `DiscoveryScenarios.DetectFromPortSmokeRun` | src/test/deploy/functions/runtimes/discovery/index.spec.ts:106-116 | the retry loop itself, run on those replies, makes twenty-one requests and returns `BACKEND` |

## Left out

- `fileSize()`, `readStream()` and file existence: these are file-system I/O. Existence is the boolean `fileExists` given to `NewDistribution`.
- `releaseHash()`: it streams the file through Node's SHA-1 hash with event callbacks, which are a foreign library and asynchronous I/O.
- `getFileName()`: modelled as the POSIX last `/` segment. Windows separators and the trailing-separator handling of `path.basename` are not modelled. A constructed path ends with its tag, so it never ends in `/`.
- `platform()`'s throwing default branch has no counterpart: the file type is an enum of three values, so that branch cannot be reached.
- The implementation of the discovery module (`deploy/functions/runtimes/discovery`) and of `backend.ts` is not part of this model. Their behaviour is taken from what the tests assert. The validation inside the `v1alpha1` transformer and the exact error messages are therefore not modelled.
- The fields of `backend.empty()` and the value of `api.functionsDefaultRegion` are not known. The baseline is an uninterpreted record, `BackendFields`, and the region is a parameter.
- `backend.FunctionsPlatform` is not known here either. The function's `platform` is kept as the string the manifest gives (`gcfv1` in the tests) and is copied verbatim. An event trigger's fields are an uninterpreted record.
- Only minimal descriptors, which have no project, region or runtime, are modelled. What the decoder does with a descriptor that already names one of these is not asserted by the tests.
- A `specVersion` that is present but empty is treated as an unsupported version. The tests cover only an absent version and an unknown one.
- YAML parsing and `yaml.dump`: the manifest is already a parsed value, and dumping then parsing it is the identity.
- `detectFromYaml`'s handling of read errors other than `ENOENT` is not asserted by the tests. The model reports them as `ReadFailed(code)`.
- The directory and the `backend.yaml` file name passed to the read are not modelled. Neither is the URL `http://localhost:<port>/backend.yaml` of the port probe, so `DetectFromPort` takes no port.
- `DetectFromPort`: the retry delay, the total timeout and the number of attempts allowed are not fixed by the tests. The probe retries as long as the given replies are refusals. When the replies run out, it gives up with `ProbeGaveUp`. Non-refusal request errors are modelled as reported at once; the tests do not assert this.
- The façade that chooses between file and port discovery, sinon and nock stubbing, Promises and asynchrony: these are test plumbing and orchestration outside the contracts the tests assert.
