# Configruous in Dafny

Configruous keeps a configuration file and a tree of AWS SSM parameters in step. This project models the core of `lib/configruous.rb` and proves properties of the model.

**Loading.** `BaseLoader#load_data` flattens the parsed file (a Hash of scalars, Hashes and Arrays) into entries.
- Each entry has the file's basename, the environment (`"prod"` unless one is given), a slash-joined key path and a scalar value.
- A `nil` value is skipped.
- Hash members contribute their keys to the path and Array items contribute their positions.
- A leaf whose path fails the key check raises an error.

**Parameters.** `#to_params` turns the entries into an ordered, last-write-wins Hash of full SSM names `/<prefix>/<env>/<file>/<key>`.

**Diff and store.**
- `#ssmclient_iterator` classifies every local parameter against the parameters listed under the request path: changed, unchanged or missing. Whatever was listed but not matched is reported as ssm-only.
- `#diff` groups these events into the sections `update`, `unchanged`, `add` and `ssm_only`. A section appears only when it holds something.
- `#store!` turns the same events into `put_parameter` (with overwrite for a change) and `delete_parameter` calls. The model applies these calls to a store, which is a map from names to strings. The model's store rejects only two calls: a put without overwrite of an existing name, and a delete of a missing name.

**Restore.** `RestoreFileFromSSM` reads the parameters back.
- `#to_properties` checks each name's filename segment first and then its environment segment. It then emits `seg = value`, or raises on a key with more than one segment.
- `#to_yaml` folds each name's tail into a nested value. Index-looking segments become one-element Arrays. The per-parameter values are combined with `Helpers.deep_merge`: Hashes merge key-wise, and Arrays, Strings and Integers are joined with `+`.

The parameter store, the file system and the YAML/INI parsers are not modelled. The model takes their results as inputs: the parsed file is a `Values.Value` tree, a parameter listing is a `seq<Differ.Param>`, and the store is `Reconciler.Store`.

Three behaviours of the code are easy to miss:
- `store!` stops at the first failing SSM call; later calls are not made.
- The request path of `ssmclient_iterator` is built from the loader's filename as given, not from its basename. See Findings.
- An index segment in `to_yaml` does not position an element. Array elements accumulate in the order the parameters are fetched.

Files:
- `results.dfy`: `Option` and `Result`.
- `values.dfy`: the value tree and `to_s`.
- `text.dfy`: Ruby `split('/')`, joining, and the key and index regexes.
- `assoc.dfy`: an ordered Hash.
- `flatten.dfy`: `load_data` and `to_params`.
- `differ.dfy`: the iterator and `diff`.
- `reconciler.dfy`: `store!`.
- `restore.dfy`: `to_properties`, `to_yaml` and `deep_merge`.
- `roundtrip.dfy`: load, store, fetch and restore composed.

## Model

| member | source | states |
|---|---|---|
| Flatten.LoadData | lib/configruous.rb:200-228 | every entry produced carries the basename of the file, the environment (default `"prod"`), and a key matching the allowed-characters pattern |
| Flatten.LoadDataSpec | lib/configruous.rb:200-228 | the result is the leaves in document order (nil skipped, Hash keys and Array positions appended to the path with `/`): an error naming the first leaf whose path is invalid, or else one entry per leaf with basename and environment |
| Flatten.LoadDataFailsIffInvalidLeaf | lib/configruous.rb:216-225 | loading fails if and only if some non-nil leaf has a slash-joined path outside `[A-Za-z0-9._\-/]+` |
| Flatten.RejectsAmpersandKey | spec/configruous_spec.rb:107-110 | adding the top-level key `a-parameter_name.&&.that_is_not_allowed` to a loadable file makes loading fail with that key |
| Flatten.ToParamsSpec | lib/configruous.rb:192-198 | the parameter Hash has distinct names, and each full name maps to the value of the last entry with that name |
| Flatten.ToParamsDistinct | lib/configruous.rb:192-198 | when the full names are distinct, the Hash lists every entry in load order as `(/prefix/env/file/key, value)` |
| Differ.ClassifySpec | lib/configruous.rb:64-89 | the events are one per local parameter in order (changed, unchanged or missing, compared against the first listed record with that name by `to_s`), followed by every listed record whose name is not local, as ssm-only |
| Differ.RecordKeepsWellFormed | lib/configruous.rb:93-107 | recording one event keeps the diff well formed: sections are distinct and present exactly when non-empty; the event's section is appended when it is new and the list is otherwise unchanged, so sections stay in first-use order |
| Differ.LoaderDiffSections | lib/configruous.rb:91-110 | the diff of a file fails exactly when loading it fails, with the same error; otherwise it is well formed and holds exactly the sections of the classified events |
| Differ.DiffSections | lib/configruous.rb:91-110 | the diff of any event sequence is well formed, and a section is present exactly when some event belongs to it |
| DiffContents.DiffAdd | lib/configruous.rb:81-82 | `add` maps a name to its local value exactly when the name is local and nothing is listed under it |
| DiffContents.DiffSame | lib/configruous.rb:77-79 | `unchanged` maps a name to its local value exactly when the first listed record with that name has the same `to_s` |
| DiffContents.DiffUpdate | lib/configruous.rb:73-76 | `update` maps a name to (listed value, local value) exactly when the first listed record with that name has a different `to_s` |
| DiffContents.DiffSsmOnly | lib/configruous.rb:86-88 | `ssm_only` maps a name to the value of the last listed record with that name exactly when the name is not local |
| DiffContents.DiffCounts | lib/configruous.rb:71-85 | add, update and unchanged together hold exactly as many names as there are local parameters |
| Reconciler.OpsFor | lib/configruous.rb:114-134 | each event gives at most one SSM call, and that call names the event's key |
| Reconciler.ApplyOp | lib/configruous.rb:117-132 | a call applied to the model's store fails exactly when it is a put without overwrite of a stored name, or a delete of a name not stored |
| Reconciler.ApplyDistinct | lib/configruous.rb:112-135 | calls on distinct names, each acceptable to the store, all succeed and give their combined effect |
| Reconciler.PlanDistinct | lib/configruous.rb:112-135 | the calls planned from events with distinct keys name distinct parameters |
| Reconciler.SyncConverges | lib/configruous.rb:112-135 | against a complete listing of the request path, `store!` succeeds on the model's store; afterwards every local name holds its value's `to_s`, the stored names under the path are exactly the local ones, and names outside the path are untouched |
| Reconciler.InSync | lib/configruous.rb:64-110 | when the store already holds exactly the local values under the path, no call is planned and the diff is just an `unchanged` section (or empty when nothing is local) |
| Reconciler.ResyncIsUnchanged | lib/configruous.rb:64-135 | after a successful `store!`, a fresh listing classifies every local parameter as unchanged; a second `store!` plans nothing and leaves the store as it is |
| Reconciler.LoadedUnderRequestPath | lib/configruous.rb:192-198 | every parameter name produced by `to_params` lies under the request path built from the basename |
| Reconciler.StoreConverges | lib/configruous.rb:112-135 | loading then storing against a complete listing of the basename request path succeeds on the model's store, and leaves exactly the loaded names under that path, each holding its value's `to_s` |
| Reconciler.RequestPathAsWrittenMissesStored | lib/configruous.rb:65 | with the request path built from a filename that has a directory, the stored parameter is not listed and `store!` fails re-putting it without overwrite |
| Reconciler.RequestPathListsStored | lib/configruous.rb:65 | with the request path built from the basename, the same store is listed and `store!` leaves it unchanged |
| Text.KeyCheckWithoutNewline | lib/configruous.rb:216 | for a key with no line break, the line-anchored check accepts exactly the keys made wholly of allowed characters |
| Text.KeyCheckAcceptsNewlineKey | lib/configruous.rb:216 | the line-anchored check accepts `"a\n&&"`, which contains disallowed characters |
| Text.IndexSegmentOfNat | lib/configruous.rb:317 | the decimal text of every Array position matches the index pattern |
| Restore.Header | lib/configruous.rb:295-299 | the filename segment is checked first and its mismatch is reported first; the name is accepted exactly when the filename and environment segments at the prefix offset both match, and then the tail is what follows them |
| Restore.HeaderOfName | lib/configruous.rb:295-298 | for a name `prefix/env/file/key`, a wrong file is reported before a wrong environment; otherwise the tail is the key split on `/` |
| Restore.StagingIsNotProd | lib/configruous.rb:297-298 | a `staging` parameter read back by a `prod` restorer fails with an environment mismatch |
| Restore.SlashedEnvironmentNotRestored | lib/configruous.rb:292-296 | for a restorer whose environment contains `/`, such as `eu/prod`, a name written under that environment is read with the environment's second half as its filename segment, and is rejected as a filename mismatch unless that half is the filename |
| Restore.PropertyLine | lib/configruous.rb:299-301 | a line is produced exactly when the header is accepted and the tail has at most one segment; a longer tail is rejected with that tail |
| Restore.ToProperties | lib/configruous.rb:291-304 | a successful result has one line per parameter |
| Restore.ToPropertiesLines | lib/configruous.rb:291-304 | `to_properties` succeeds exactly when every parameter gives a line, and then line i is parameter i's line |
| Restore.ToPropertiesFirstError | lib/configruous.rb:291-304 | on failure, the error is that of the first parameter that gives no line |
| Restore.SetMember | lib/configruous.rb:13 | replacing a member's value keeps the Hash's keys and their order and changes only that key's value |
| Restore.MergeFails | lib/configruous.rb:11-17 | merging two Hashes fails exactly when a shared key holds values that `deep_merge` cannot combine |
| Restore.MergeKeys | lib/configruous.rb:13 | the merged Hash has the left keys in place, followed by the right-only keys in their order |
| Restore.MergeKeepsLeft | lib/configruous.rb:13 | a key only on the left keeps its value |
| Restore.MergeKeepsRight | lib/configruous.rb:13 | a key only on the right takes its value |
| Restore.MergeShared | lib/configruous.rb:13 | a shared key holds the `deep_merge` of its two values |
| Restore.FoldLeaves | lib/configruous.rb:314-322 | folding a tail around a value builds a single-leaf tree whose path is the tail with index segments read as position 0 |
| Restore.ListInFetchOrder | lib/configruous.rb:306-326 | parameters `k/<index>` in any index order restore to one Array under `k` holding their values in fetch order |
| Restore.OutOfOrderIndices | lib/configruous.rb:316-323 | `k/1` fetched before `k/0` restores to `[v1, v0]`: the index does not position the element |
| RoundTrip.LoadGood | lib/configruous.rb:200-228 | a file with good keys and no nil loads; its leaf paths are distinct and valid, and entry i is leaf i |
| RoundTrip.FullPathsDistinct | lib/configruous.rb:195 | the full SSM names of a good file's entries are pairwise distinct |
| RoundTrip.FetchedBack | lib/configruous.rb:295-299 | every stored parameter of a good file, read back by the matching restorer, passes the header check with its leaf path as tail, and holds its value's `to_s` |
| RoundTrip.RoundTripYaml | lib/configruous.rb:306-326 | loading a good file and restoring its parameters with `to_yaml`, fetched back as written (names and `to_s` values in `to_params` order), gives back the file with every scalar as its `to_s` |
| RoundTrip.RoundTripProperties | lib/configruous.rb:291-304 | for a flat good file the restored properties are `key = to_s(value)`, one per member in order |
| RoundTrip.PropertiesNeedFlat | lib/configruous.rb:299-300 | `to_properties` of a stored good file succeeds exactly when the file is flat, and otherwise fails on a tail of more than one segment |
| RoundTrip.ShallowIffFlat | lib/configruous.rb:299-300 | every leaf path of a good file has at most one segment exactly when all its members are scalars |
| RoundTrip.ValueRebuild | lib/configruous.rb:306-326 | merging the folded fragments of a good value's leaves rebuilds the value with every scalar replaced by its `to_s` |
| RoundTrip.MembersRebuild | lib/configruous.rb:306-326 | merging the fragments of good members into a Hash with none of their keys appends the stringified members |

## Left out

- `SSMClient` (lib/configruous.rb:21-47): the AWS client singleton and its credentials are I/O. The store is a map, and the pagination of `get_parameters_by_path` (68-70, 270-272) is reduced to a given listing. `Reconciler.Enumerates` states what a complete listing is.
- `RestoreFileFromSSM#to_params` (267-274): the fetch is a given sequence of parameters. The round-trip lemmas assume it returns the parameters in the order they were written.
- YAML and INI parsing and loader construction (`YAMLLoader`, `PropertyLoader`, `FileFactory`, 231-258): the parsed file is an input. Only Hashes with string keys are modelled at the top level. Scalars are Strings, Integers, booleans and Floats only. YAML's Date, Time and Symbol scalars are outside the model; a Symbol's `to_s` would drop its colon.
- `File.basename`, `File.extname`, `to_filetype` and `save!` (276-289): the basename is an input to the loader, and file output is I/O.
- `diff_print` and `diff_print_restore` (137-190): console output.
- `Values.ToS` of a Float: the float carries its Ruby `to_s` text, because floating point is not modelled.
- Restore.DeepMerge: every `+` involving a Float (Float with Float, Int with Float, Float with Int) is reported as a type mismatch, where Ruby sums the two. Restored values are always Strings, so this case does not arise from a fetch.
- RoundTrip.RoundTripYaml: proved only for good files, under a non-empty prefix without a trailing `/` and an environment and basename without `/`. A good file has distinct keys that are valid, slash-free and not index-like, no nil values, no empty Hash or Array, and only scalars inside Arrays. Other files can lose structure in `to_yaml`: an empty Hash or Array vanishes, and each leaf of a Hash or Array nested in an Array becomes a separate element (see `Restore.FoldLeaves`).
- RoundTrip.FetchedBack: requires a non-empty prefix with no trailing `/`, and an environment and basename with no `/`. Otherwise the source's own header check (lib/configruous.rb:292-298) reads the wrong segments and the restore fails (`Restore.SlashedEnvironmentNotRestored`), so nothing is promised there.
- RoundTrip.RoundTripYaml: requires the same prefix and environment conditions as `RoundTrip.FetchedBack`. A store written under the environment `eu/prod`, or under the prefix `/c/`, cannot be restored by `to_yaml`.
- RoundTrip.RoundTripProperties: requires the same prefix and environment conditions as `RoundTrip.FetchedBack`. `to_properties` fails on such stores for the same reason.
- RoundTrip.PropertiesNeedFlat: requires the same prefix and environment conditions as `RoundTrip.FetchedBack`. Outside them, a flat file fails too, with a header mismatch.
- Reconciler.SyncConverges: stated for a complete listing whose names all lie under the request path. Concurrent writers to SSM are not modelled. Success is relative to the model's store, which accepts every name and value; SSM itself can reject calls that store accepts (see `Reconciler.ApplyOp`).
- Reconciler.StoreConverges: success is relative to the model's store. A real `store!` can still raise on a value or name SSM refuses, such as an empty value from a key with value `""`.
- Reconciler.ApplyOp: SSM's own validation of names and values is not modelled. This covers empty values, values over the size limit, characters outside SSM's name set, and names nested too deep. The store rejects only a put without overwrite of an existing name and a delete of a missing name.
- Flatten.LoadData: applies the whole-key check (`Text.ValidKey`), the corrected form of the line-anchored regex at lib/configruous.rb:216. A key containing a line break that has one line of allowed characters (`"a\n&&"`) is rejected here, where the source records it (see Findings).
- Flatten.LoadDataSpec: uses the same whole-key check, so on keys containing a line break its split between error and entries differs from the source.
- Flatten.LoadDataFailsIffInvalidLeaf: the if-and-only-if is about the whole-key check. The source fails only when no line of the key is made of allowed characters; on keys without a line break the two agree (`Text.KeyCheckWithoutNewline`).

## Findings

| source | as written | input that shows it | evidently intended | confidence | as-written member | corrected member |
|---|---|---|---|---|---|---|
| lib/configruous.rb:216 | `^` and `$` anchor at line boundaries, so a key passes if any one of its lines is made of allowed characters | the key `"a\n&&"` is accepted | the whole key is made of allowed characters (`\A…\z`) | high (not executed) | Text.KeyCheckAcceptsNewlineKey | Text.KeyCheckWithoutNewline |
| lib/configruous.rb:65 | the request path uses `@filename`, but entries are named with `File.basename(@filename)` (line 218) | loader for `conf/app.yaml` with `/cfg/prod/app.yaml/a` already stored: the listing misses it, the parameter is reported missing, and the put without overwrite fails | list under the basename, as the entries are named | medium (not executed) | Reconciler.RequestPathAsWrittenMissesStored | Reconciler.StoreConverges |
