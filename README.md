# Lambda/ECR deployment helpers — a verified model

This project models, in Dafny, the sequential logic of three pieces of a
repository of AWS Lambda functions deployed as container images:

- `scripts/create-ecr-repositories.py` reads a mapping file of
  `folder:repository-name` lines. For each entry it makes sure an ECR
  repository exists: it looks the name up and creates the repository only
  when ECR reports "not found", with scan-on-push set from the configuration
  and AES256 encryption. It tallies successes and failures and lists the
  repository URIs sorted by name. Three pre-flight gates come first, in this
  order: AWS credentials, then the mapping file existing, then at least one
  mapping.
- `script.py` reads a `.env` file of `KEY=VALUE` lines with its own small
  parser, and prints the entries in sorted key order. A missing file exits
  with status 2.
- `lambda-function-3/services/data_processor.py` holds `DataProcessor`, a
  service object that counts its calls and reports the keys of each payload.

Modules:

| file | module | models |
|---|---|---|
| `text.dfy` | `Text` | `str.strip()` / `str.strip(c)`, `c in s`, `str.split(sep, 1)`, a text file as its lines |
| `collections.dfy` | `Collections` | `Option`/`Result`; a list built by appending in a loop (`Collect`); a dict built by assigning in a loop (`Assigned`) |
| `ordering.dfy` | `Ordering` | Python's `<` on `str`; `sorted(d.items())` |
| `ecr_mapping.dfy` | `EcrMapping` | `parse_mapping_file` |
| `ecr_reconcile.dfy` | `EcrReconcile` | the ECR registry, `create_ecr_repository`, the tally loop and the gates of `main` |
| `dotenv.dfy` | `DotEnv` | `load_dotenv_simple` and `main` of `script.py` |
| `data_processor.dfy` | `DataProcessing` | class `DataProcessor` and its use by the lambda-function-3 handler |

The ECR service is a value, `Registry`. It holds:

- the repositories that exist, as a map from name to URI;
- an oracle: the names whose look-up fails with an error other than "not
  found", and the names whose creation succeeds, with the URI ECR assigns.

Each create call is recorded as a `CreateRequest`, so "no create was issued"
can be stated and proved. `sys.exit` becomes a `Failure` result whose error
has an `ExitCode()`: 1 for the three gates of the ECR script, 2 for the
missing `.env` file. A run that passes the gates is a `Success`, which is
exit status 0 even when some entries failed.

A line of the mapping file is split at its first `:`, so a line may hold
more than one colon and the repository name keeps the later ones
(`SplitsAtFirstColon`).

## Model

| member | source | states |
|---|---|---|
| Text.Trim | scripts/create-ecr-repositories.py:28 | `line.strip()` leaves no whitespace at either end |
| Text.Strip | script.py:27 | `s.strip(c)` leaves no `c` at either end and is never longer than `s` |
| Text.StripIsInfix | script.py:27 | strip keeps a contiguous piece of its input and removes only stripped characters before and after it |
| Text.StripKeepsOthers | scripts/create-ecr-repositories.py:34-37 | any character that strip does not remove occurs in the result exactly when it occurs in the input |
| Text.TrimKeeps | scripts/create-ecr-repositories.py:34 | trimming never adds or removes a non-whitespace character such as `:` or `=`, so testing `':' in line` after the strip is the same as testing it on the raw line |
| Text.TrimmedIsFixed | scripts/create-ecr-repositories.py:36-37 | a string with no whitespace at its ends is its own trim |
| Text.TrimKeepsFirst | scripts/create-ecr-repositories.py:28-36 | trimming a string whose first character is not whitespace keeps that character in front, so the folder of a line starts where the trimmed line starts |
| Text.IndexOf | scripts/create-ecr-repositories.py:35 | the position of the first occurrence: it holds the character and no earlier position does |
| Text.SplitFirst | scripts/create-ecr-repositories.py:35 | `split(sep, 1)` gives a part without `sep`, then `sep`, then the rest, which together rebuild the input |
| Text.SplitFirstUnique | script.py:25 | the split is unique: any decomposition `a + sep + b` with no `sep` in `a` is the one returned |
| Collections.Collect | scripts/create-ecr-repositories.py:20-39 | the appended list is never longer than the input |
| Collections.CollectAppend | scripts/create-ecr-repositories.py:27-39 | appending line by line: the list for `a + b` is the list for `a` followed by the list for `b` |
| Collections.CollectMembers | scripts/create-ecr-repositories.py:38-39 | an element is in the list exactly when some input yields it |
| Collections.CollectSplit | scripts/create-ecr-repositories.py:127-132 | collecting by a test and by its negation splits the input: the two lengths add up to its length |
| Collections.AssignedKeys | script.py:28 | a key is in the dict exactly when some input assigns it |
| Collections.AssignedLastWins | script.py:28 | the value kept for a key is the one from the last input assigning that key |
| Ordering.BelowIrreflexive | scripts/create-ecr-repositories.py:153 | no string sorts before itself |
| Ordering.BelowTransitive | scripts/create-ecr-repositories.py:153 | the string order is transitive |
| Ordering.BelowTotal | scripts/create-ecr-repositories.py:153 | any two different strings are ordered one way or the other |
| Ordering.InsertByName | scripts/create-ecr-repositories.py:153 | inserting into a list sorted by name keeps it sorted and adds exactly the new item |
| Ordering.SortedItems | scripts/create-ecr-repositories.py:153 | `sorted(d.items())` holds every entry of `d` exactly once, ascending by key |
| Ordering.SortedByNameUnique | script.py:55-56 | two lists sorted by name with the same entries are equal, so the printed order is fully determined |
| EcrMapping.ParseMappingLine | scripts/create-ecr-repositories.py:28-39 | every entry a line yields is well formed: both halves non-empty and trimmed, no `:` in the folder, and a folder that does not start with `#` |
| EcrMapping.ParseMappingFile | scripts/create-ecr-repositories.py:18-41 | a missing file is the fatal `MappingFileMissing`; otherwise the loop appends exactly the entries the lines yield, in file order |
| EcrMapping.BlankOrCommentSkipped | scripts/create-ecr-repositories.py:28-31 | a line that is blank or starts with `#` after trimming yields nothing |
| EcrMapping.NoColonSkipped | scripts/create-ecr-repositories.py:34 | a line without `:` yields nothing, with no error |
| EcrMapping.SplitsAtFirstColon | scripts/create-ecr-repositories.py:35-39 | a line is split at its first colon; the repository name may hold more colons; the entry is emitted exactly when both trimmed halves are non-empty |
| EcrMapping.EntryShape | scripts/create-ecr-repositories.py:34-39 | every entry comes from the line's first colon, with both halves trimmed |
| EcrMapping.EntriesWellFormed | scripts/create-ecr-repositories.py:36-39 | every entry of a file is well formed, and there are at most as many entries as lines |
| EcrMapping.OrderAndDuplicatesKept | scripts/create-ecr-repositories.py:27-39 | file order is kept and duplicates are not removed |
| EcrMapping.FormatThenParse | scripts/create-ecr-repositories.py:33-39 | writing a well-formed entry as `folder:repo` and parsing it gives the entry back; since every parsed entry is well formed, this covers every entry the parser can produce |
| EcrReconcile.CreateEcrRepository | scripts/create-ecr-repositories.py:44-77 | an existing repository gives its URI and no create; "not found" gives exactly one create, with the scan flag and AES256, and its result; any other look-up error fails with no create; success leaves the name in the registry under the reported URI; failure changes nothing; existing repositories are never altered |
| EcrReconcile.CreateIsIdempotent | scripts/create-ecr-repositories.py:48-55 | after a success, a second call issues no create, reports the same URI and changes nothing |
| EcrReconcile.Reconciliation | scripts/create-ecr-repositories.py:123-132 | one outcome per entry, and at most one create per entry |
| EcrReconcile.StepsKeep | scripts/create-ecr-repositories.py:123-125 | between any two points of a run, every repository present at the first is still there with the same URI, and the look-up errors are unchanged |
| EcrReconcile.SuccessIsPresent | scripts/create-ecr-repositories.py:125-129 | when an entry succeeds, the registry after it holds the name, without look-up errors, under the reported URI |
| EcrReconcile.DuplicateIsNoOp | scripts/create-ecr-repositories.py:48-55 | a name listed twice is processed twice in one run; once an earlier entry for it succeeded, the later one issues no create, leaves the registry unchanged and reports the same URI |
| EcrReconcile.OutcomeNames | scripts/create-ecr-repositories.py:123-125 | the i-th outcome belongs to the i-th entry |
| EcrReconcile.Summarize | scripts/create-ecr-repositories.py:118-132 | `success_count + failed_count` is the number of entries, and `failed_count` is the length of `failed_repos` |
| EcrReconcile.CreateRepositories | scripts/create-ecr-repositories.py:118-133 | the loop's counters, failed list, URI dict and final registry are the tally of processing the entries in order |
| EcrReconcile.FailedReposInOrder | scripts/create-ecr-repositories.py:130-132 | `failed_repos` holds exactly the failed names, in processing order |
| EcrReconcile.RepoUrisKeys | scripts/create-ecr-repositories.py:127-129 | a name is a key of `repo_uris` exactly when some entry for it succeeded |
| EcrReconcile.RepoUrisLastWins | scripts/create-ecr-repositories.py:129 | a name maps to the URI of its last successful entry |
| EcrReconcile.RunKeepsExisting | scripts/create-ecr-repositories.py:59-73 | a run never removes or changes a repository that existed before it |
| EcrReconcile.ListedUrisAreLive | scripts/create-ecr-repositories.py:153-154 | every listed URI is the one the registry holds for that name at the end of the run |
| EcrReconcile.AllSucceededArePresent | scripts/create-ecr-repositories.py:123-132 | after a run in which every entry succeeded, every name exists without look-up errors and its outcome reports the URI it has |
| EcrReconcile.FoundStep | scripts/create-ecr-repositories.py:48-55 | a name that exists without look-up errors is found: no create, its URI, nothing changed |
| EcrReconcile.AllPresentIsNoOp | scripts/create-ecr-repositories.py:48-55 | when every name already exists, a run issues no create, changes nothing and reports the existing URIs |
| EcrReconcile.RerunIsNoOp | scripts/create-ecr-repositories.py:44-77 | running the script again after a fully successful run creates nothing and gives the same outcomes |
| EcrReconcile.RunScript | scripts/create-ecr-repositories.py:88-154 | the credential gate comes first, then the file gate, then the empty-mappings gate, each with the registry untouched; past them the run always succeeds and lists the URIs sorted by name, each once |
| DotEnv.CleanValue | script.py:27 | the cleaned value never starts or ends with `'` and is never longer than the raw one |
| DotEnv.ParseEnvLine | script.py:20-28 | an assigned key contains no `=` and has no whitespace at its ends |
| DotEnv.LoadDotenvSimple | script.py:15-29 | the loop builds the dict of the file's entries by assigning them in line order; no key holds `=` |
| DotEnv.BlankOrCommentSkipped | script.py:20-22 | a line that is blank or starts with `#` after trimming is skipped |
| DotEnv.NoEqualsSkipped | script.py:23-24 | a line without `=` is skipped, with no error |
| DotEnv.SplitsAtFirstEquals | script.py:25-27 | a line is split at its first `=`: the key is the trimmed text before it, and the value is the cleaned rest, which may hold more `=` |
| DotEnv.EmptyKeyKept | script.py:26 | a line whose key is blank yields the empty key; it is not filtered out |
| DotEnv.SingleQuotesNotRetrimmed | script.py:27 | `'x'` yields `x` exactly, with no second trim, so `' a '` yields ` a ` |
| DotEnv.QuotesStripped | script.py:27 | stripping `c` from `c x c`, where `x` neither starts nor ends with `c`, gives `x` |
| DotEnv.DoubleQuotesRemoved | script.py:27 | `"x"` yields `x` when `x` neither starts nor ends with a quote |
| DotEnv.EnvKeys | script.py:28 | the keys of the dict are exactly the keys some line assigns, each once |
| DotEnv.LastAssignmentWins | script.py:28 | a later line with the same key overwrites an earlier one |
| DotEnv.PrintEnv | script.py:31-56 | a missing file is exactly the exit-2 error; otherwise the count and every entry are listed once, in ascending key order |
| DataProcessing.DataKeys | lambda-function-3/services/data_processor.py:15 | the keys reported for a payload never repeat, as for any dict |
| DataProcessing.DataProcessor.constructor | lambda-function-3/services/data_processor.py:4-5 | a fresh processor has count 0 and no calls |
| DataProcessing.DataProcessor.Process | lambda-function-3/services/data_processor.py:7-18 | the counter grows by exactly 1; the reported count is the number of calls so far, this one included; `processed` is true; the keys are the dict's keys in order, or empty for a non-dict |
| DataProcessing.HandleEvent | lambda-functions/lambda-function-3/lambda_function.py:24-25 | the handler builds a fresh processor per invocation, so it always reports count 1 |

## Left out

- The boto3 STS and ECR clients are replaced by an `identity` parameter and the `Registry` value with its oracle. The shape of their responses (`response['repositories'][0]['repositoryUri']`) is not modelled.
- Other clients changing the registry during a run are not modelled. The oracle is fixed for the whole run, so a name whose creation fails keeps failing.
- File access is not modelled: `Path.exists` and reading a file become `TextFile`, a missing file or its lines. Splitting the file into lines, including Python's newline translation, happens before the model.
- Console output and message text are not modelled. The summary printed by `main` is modelled as its data (`Summary` and the sorted listing), and the per-entry progress lines are left out.
- The environment variables `AWS_REGION` and `ENABLE_SCAN_ON_PUSH` are not modelled. The scan flag is a parameter, and the region is not used by the modelled logic.
- The python-dotenv branch of `script.py` (lines 42-46) is not modelled, because it calls a library whose code is not part of this model. `PrintEnv` behaves as if that library is absent.
- The command-line choice of the `.env` path in `script.py` and the commented-out `os.environ` update are not modelled.
- The Lambda handlers are not modelled, apart from lambda-function-3 building a fresh `DataProcessor` per invocation. Input validation, logging, `json.dumps`, timestamps and the `context` object are left out, as are the request/response/settings modules and the lambda-function-5 models and services.
- Text.IsSpace: `str.strip()` without an argument removes the characters for which Python's `str.isspace()` holds. The model lists those code points explicitly; this list is an assumption about the Python runtime.
- Text.Strip: `str.strip(chars)` is modelled only for the no-argument form and for one-character arguments, the only forms the scripts use.
- Strings are sequences of Unicode scalar values, so lone surrogates, which a Python `str` may hold, are not modelled.
- DataProcessing.Payload: a dict payload is seen only through its keys, taken to be distinct strings. Its values, and keys of other types, are not modelled.
