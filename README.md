# Rosetta job wrapper, modelled in Dafny

This project models the core of the `rosetta_finder` Rosetta wrapper
(`src/rosetta_finder/rosetta.py`). The wrapper:

- passes RosettaScripts variables (`k=v` pairs) to a Rosetta binary as
  `-parser:script_vars k=v`, or substitutes them for `%%k%%` markers in a
  script;
- describes an MPI allocation (`MPI_node`): a process count on this host, or a
  map from host names to slots, possibly read from a SLURM job;
- composes the command line of a Rosetta job (`Rosetta.compose`) and expands
  it into jobs: one per decoy, one per input dictionary, or one in all. It
  runs them locally (`run_local`) or as a single MPI launch (`run_mpi`);
- ranks the decoys of a score file by one score term
  (`RosettaEnergyUnitAnalyser.top`, `best_decoy`).

Files:

- `wrappers.dfy`: `Option`, `Result` and the Python exceptions the code
  raises (`Wrappers`), and the warnings it emits (`Diagnostics`).
- `text.dfy`: the string operations of the Python standard library that the
  code relies on: `str(int)`, `f"{i:05}"`, `in`, `str.replace` and
  `os.path.join`.
- `dicts.dfy`: a Python `dict` as the sequence of its items in insertion
  order.
- `script_vars.dfy`: `RosettaScriptsVariable` and
  `RosettaScriptsVariableGroup`.
- `mpi_node.dfy`: `MPI_node`, a class whose construction overwrites `nproc`.
- `rosetta.dfy`: `Rosetta`, a class whose construction rewrites its fields.
  Also the job expansion and dispatch.
- `energy_analyser.dfy`: the ranking part of `RosettaEnergyUnitAnalyser`, as
  values and functions.

Modelling choices:

- An exception is an `Err` value carrying the exception class and its message.
- A warning or progress message is a `Warning` value, returned beside the
  result.
- Running a process is a function `returnCode` from a command to the exit code
  that process would return.
- The files `os.path.isfile` accepts form the set `existing`.
- `nstruct=None` is modelled as `0`; every branch of the code treats the two
  alike.
- `inputs` stays an `Option` in `Rosetta.Run`, because `run` warns whenever
  `inputs is not None`, even for an empty list.

The model follows the code where it differs from the documented intent:

- A failing local job does not leave its siblings' results to the caller. The
  joblib fan-out propagates the first failure as the exception of the whole
  call: `RosettaJobs.RunJobs` fails with the first failing job's error.
- `sort_values` uses pandas' default quicksort, which is not stable. No tie
  order is promised. `EnergyAnalysis.SortBy` fixes one order for ties, and no
  lemma depends on which.
- Removal of the MPI host file sits after the `yield` of `MPI_node.apply` with
  no `try`/`finally`, so it is skipped when the launch raises.
- `run` emits the MPI input warning whenever `inputs is not None`, not only for
  non-empty inputs.
- tests/test_rosetta_wrapper.py exercises a newer API. Its `RosettaCmdTask`,
  root check, absolute flag paths and warning-instead-of-error do not exist in
  `rosetta.py`. The model follows `rosetta.py`.

## Model

| member | source | states |
|---|---|---|
| Text.IntRoundTrip | src/rosetta_finder/rosetta.py:98 | `str(n)` reads back as `n` for every integer, so the `-np` and `-nstruct` counts on a command line are the counts given |
| Text.ZeroPadRoundTrip | src/rosetta_finder/rosetta.py:318 | `f"{i:05}"` is at least five digits long and reads back as `i` |
| Text.ZeroPadInjective | src/rosetta_finder/rosetta.py:318 | distinct decoy numbers get distinct padded forms |
| Text.ReplaceAbsent | src/rosetta_finder/rosetta.py:67-70 | `str.replace` leaves a text without the pattern unchanged |
| Text.ReplaceFirst | src/rosetta_finder/rosetta.py:70 | `str.replace` keeps the text before the first occurrence, puts the replacement there, and continues after the occurrence |
| Text.ReplaceBySelf | src/rosetta_finder/rosetta.py:70 | replacing a pattern by itself changes nothing |
| Text.JoinEndsWithComponent | src/rosetta_finder/rosetta.py:197 | joining a relative component `b` to a non-empty `a` ends with `/` followed by `b` |
| Text.PathJoin | src/rosetta_finder/rosetta.py:197 | `os.path.join(a, b)` ends with `b`; it starts with `a` unless `b` is absolute; it is non-empty when `a` is |
| Dicts.Lookup | src/rosetta_finder/rosetta.py:54 | a key is found exactly when it is one of the dictionary's keys |
| Dicts.PutKeys | src/rosetta_finder/rosetta.py:54 | after `d[k] = v` the keys are those of `d` plus `k`; the size grows by one exactly when `k` is new |
| Dicts.PutLookup | src/rosetta_finder/rosetta.py:54 | after `d[k] = v`, `k` looks up `v` and every other key looks up as before |
| Dicts.PutNewKey | src/rosetta_finder/rosetta.py:54 | storing a key not yet present appends it at the end, leaving the earlier items in place |
| Dicts.PutItems | src/rosetta_finder/rosetta.py:54 | every item after `d[k] = v` is `(k, v)` or an item of `d` |
| Dicts.PutDistinct | src/rosetta_finder/rosetta.py:54 | `d[k] = v` keeps the keys distinct |
| Dicts.DistinctKeysCount | src/rosetta_finder/rosetta.py:139 | a dictionary has as many items as keys |
| Dicts.SumConstant | src/rosetta_finder/rosetta.py:139-141 | a dictionary whose values all equal `c` sums to `c` times its size |
| ScriptVars.AsList | src/rosetta_finder/rosetta.py:32-37 | `aslist` is the flag and one `k=v` token, from which the key and the value read back on either side of the `=` that follows the key |
| ScriptVars.AsLongList | src/rosetta_finder/rosetta.py:48-50 | `aslonglist` has two tokens per variable |
| ScriptVars.AsLongListAt | src/rosetta_finder/rosetta.py:32-37 | token `2i` is `-parser:script_vars` and token `2i+1` is `k=v` of the `i`-th variable |
| ScriptVars.AsLongListAppend | src/rosetta_finder/rosetta.py:48-50 | the tokens of two groups of variables are the tokens of the first followed by those of the second |
| ScriptVars.AsDict | src/rosetta_finder/rosetta.py:52-54 | `asdict` has distinct keys, exactly the keys the group names |
| ScriptVars.AsDictLastWins | src/rosetta_finder/rosetta.py:52-54 | a repeated key takes the value of its last occurrence |
| ScriptVars.FromDict | src/rosetta_finder/rosetta.py:56-62 | `from_dict` raises `ValueError` exactly for the empty dictionary |
| ScriptVars.FromDictRoundTrip | src/rosetta_finder/rosetta.py:52-62 | `from_dict(d).asdict == d` for every non-empty dictionary |
| ScriptVars.FromDictExample | tests/test_rosetta_wrapper.py:69-76 | the two-variable group of the test is non-empty and gives the four expected tokens |
| ScriptVars.Substituted | src/rosetta_finder/rosetta.py:64-72 | every warning names a key of the dictionary, there are at most as many warnings as keys, and for a dictionary with distinct keys no warning is repeated |
| ScriptVars.ApplyToXmlContent | src/rosetta_finder/rosetta.py:64-72 | the loop's text and warnings are those of the item-by-item substitution over `asdict` |
| ScriptVars.SubstitutedNoMarkers | src/rosetta_finder/rosetta.py:67-69 | a script without any marker comes back unchanged, with one warning per key in dictionary order |
| ScriptVars.SubstitutedAsWritten | src/rosetta_finder/rosetta.py:66-72 | the loop as written raises `ValueError` exactly when some key is not two characters long; otherwise every warning names the first character of some key |
| ScriptVars.SubstitutedBySelf | src/rosetta_finder/rosetta.py:70 | variables whose value is their own marker leave the script unchanged |
| ScriptVars.AsWrittenRejectsTestGroup | src/rosetta_finder/rosetta.py:66 | for the group `{"cst_value": "0.4"}` the loop as written raises, while the intended substitution replaces the marker with no warning |
| MpiNodes.MpiNode.constructor | src/rosetta_finder/rosetta.py:81-94 | with a host map, `nproc` becomes the sum of its slots; otherwise it is kept |
| MpiNodes.MpiNode.Local | src/rosetta_finder/rosetta.py:96-98 | the local prefix is the launcher, `--use-hwthread-cpus`, `-np` and a literal that reads back as `nproc` |
| MpiNodes.MpiNode.HostFile | src/rosetta_finder/rosetta.py:100-102 | `host_file` is the launcher, `--hostfile` and the node-file name |
| MpiNodes.MpiNode.Apply | src/rosetta_finder/rosetta.py:104-109 | the command follows the prefix unchanged; the prefix is the host-file one exactly when the host map is non-empty, and the local one otherwise |
| MpiNodes.Max1 | src/rosetta_finder/rosetta.py:131-137 | a count below 1 becomes 1; any other count is kept |
| MpiNodes.SlotMap | src/rosetta_finder/rosetta.py:139 | the host map has distinct keys, exactly the listed hosts, each with the same slot count |
| MpiNodes.SlurmTotal | src/rosetta_finder/rosetta.py:139-142 | the total is the number of distinct hosts times tasks per node times CPUs per task, and at least one per host |
| MpiNodes.FromSlurm | src/rosetta_finder/rosetta.py:114-142 | a missing node list and a failed query raise `RuntimeError` with their messages; otherwise every host gets the clamped product as its slots, `nproc` is the total, and each clamp emits its message |
| MpiNodes.SlurmExample | tests/test_rosetta_wrapper.py:130-142 | hosts `node01` and `node02` with 2 CPUs per task and 1 task per node give 2 slots each, 4 in all |
| RosettaJobs.ExpandInputDict | src/rosetta_finder/rosetta.py:171-186 | the loop's result is the items' tokens in dictionary order |
| RosettaJobs.ExpandedPlain | src/rosetta_finder/rosetta.py:181-183 | a dictionary of strings expands to `k1, v1, k2, v2, ...` |
| RosettaJobs.FlagTokensExisting | src/rosetta_finder/rosetta.py:371-375 | there are no more `@` tokens than flags; every `@` token names an existing flag file among the flags; there are as many tokens as flags when all exist, and none when none exists |
| RosettaJobs.FlagTokensMembers | src/rosetta_finder/rosetta.py:371-375 | `@f` is among the tokens exactly when `f` is among the flags and exists |
| RosettaJobs.FlagTokensAllExist | src/rosetta_finder/rosetta.py:371-375 | when every flag file exists, the tokens are `@` followed by each flag, in the order of the flags |
| RosettaJobs.StringsBeforeGroups | src/rosetta_finder/rosetta.py:377-385 | the option tokens equal those of the options reordered with every string first, each kind in its own order |
| RosettaJobs.OutputPath | src/rosetta_finder/rosetta.py:197 | `os.path.join(output_dir, job_id, leaf)` ends with `/leaf` |
| RosettaJobs.Execute | src/rosetta_finder/rosetta.py:237-260 | `execute` raises exactly when the return code is non-zero |
| RosettaJobs.RunJobs | src/rosetta_finder/rosetta.py:330-334 | the batch succeeds with one result per job exactly when every job returns 0; otherwise it fails with the error of a failing job |
| RosettaJobs.LocalJobs | src/rosetta_finder/rosetta.py:306-326 | there are `nstruct` jobs, else one per input, else one; every job starts with the base command |
| RosettaJobs.DecoySuffixes | src/rosetta_finder/rosetta.py:316-320 | decoy job `i` carries, after the base command and every input, `-suffix` and `_` plus a number that reads back as `i+1` |
| RosettaJobs.DecoyJobsDistinct | src/rosetta_finder/rosetta.py:316-320 | no two decoy jobs share a suffix or a score file |
| RosettaJobs.DecoyNamesDiffer | src/rosetta_finder/rosetta.py:318 | different padded numbers give different suffixes and different score-file names |
| RosettaJobs.MpiCommandShape | src/rosetta_finder/rosetta.py:276-288 | the MPI command starts with the launcher and ends with `-nstruct` and a literal reading back as `nstruct` when `nstruct` is non-zero, or else with the base command and the flattened inputs |
| RosettaJobs.Rosetta.constructor | src/rosetta_finder/rosetta.py:145-169 | the dataclass fields hold the values given |
| RosettaJobs.Rosetta.New | src/rosetta_finder/rosetta.py:214-235 | an MPI node with a non-MPI binary raises `ValueError`; otherwise missing flags and options become empty, `use_mpi` is whether a node is given, and the static-build warning appears without a node |
| RosettaJobs.Rosetta.OutputPdbDir | src/rosetta_finder/rosetta.py:188-199 | raises `ValueError` exactly when no output directory is set; otherwise ends with `/all` or `/pdb` |
| RosettaJobs.Rosetta.OutputScorefileDir | src/rosetta_finder/rosetta.py:201-212 | raises `ValueError` exactly when no output directory is set; otherwise ends with `/all` or `/scorefile` |
| RosettaJobs.Rosetta.OutputDirsShared | src/rosetta_finder/rosetta.py:195-212 | structures and score files share a directory exactly when outputs are saved together |
| RosettaJobs.Rosetta.Compose | src/rosetta_finder/rosetta.py:360-390 | the command is the binary, the existing flag files, the strings, the groups' tokens and, when an output directory is set, the two output-path options |
| RosettaJobs.Rosetta.RunLocal | src/rosetta_finder/rosetta.py:290-334 | the jobs executed are the local job list, the outcome is that of running them, and the message matches the branch taken |
| RosettaJobs.Rosetta.RunMpi | src/rosetta_finder/rosetta.py:262-288 | without a node the assertion fails and nothing runs; otherwise exactly one command is launched, the MPI command |
| RosettaJobs.Rosetta.Run | src/rosetta_finder/rosetta.py:336-358 | MPI is used exactly when `use_mpi` holds and a node exists, with the input warning whenever inputs are passed; otherwise the local job list runs |
| RosettaJobs.ComposeExample | tests/test_rosetta_wrapper.py:249-263 | one existing flag file and two string options compose to the binary, `@flags.txt`, and the two options |
| EnergyAnalysis.NewAnalyser | src/rosetta_finder/rosetta.py:444-445 | for a parsed table, construction raises `ValueError` exactly when the score term is not a column; otherwise the analyser is valid |
| EnergyAnalysis.InsertPermutes | src/rosetta_finder/rosetta.py:500-502 | inserting a row into a sorted prefix adds exactly that row |
| EnergyAnalysis.InsertSorted | src/rosetta_finder/rosetta.py:500-502 | inserting a row keeps a sorted sequence sorted |
| EnergyAnalysis.SortBy | src/rosetta_finder/rosetta.py:500-502 | `sort_values` returns a permutation of the rows in non-decreasing score order |
| EnergyAnalysis.TopRowsSmallest | src/rosetta_finder/rosetta.py:500-502 | `head(rank)` gives `min(rank, rows)` rows of the table, sorted, and no row left out scores lower than one selected |
| EnergyAnalysis.Df2Dict | src/rosetta_finder/rosetta.py:447-467 | one entry per row, in row order, with that row's score and decoy name |
| EnergyAnalysis.Top | src/rosetta_finder/rosetta.py:481-504 | raises `ValueError` exactly when `rank <= 0`; otherwise returns `min(rank, rows)` entries |
| EnergyAnalysis.TopRanks | src/rosetta_finder/rosetta.py:494-504 | the requested term is used when it is a column and the default otherwise; scores are non-decreasing; each entry is its own row's score and name, the score being the row's own value in the term's column; no row left out scores lower |
| EnergyAnalysis.BestDecoy | src/rosetta_finder/rosetta.py:469-479 | nothing exactly for an empty table, otherwise the first entry of `top(1)` |
| EnergyAnalysis.BestDecoyIsMinimum | src/rosetta_finder/rosetta.py:469-479 | the best decoy is a row of the table, and no row scores lower in the default term |

## Left out

- Process execution (`subprocess.Popen`, output capture, the printed lines of `execute`) is the function `returnCode`. Only the exit code is modelled.
- The joblib worker pool and its width (`Rosetta.nproc`). `RosettaJobs.RunJobs` runs the jobs in order. It yields the first failure in job order; joblib may report whichever failing job finishes first.
- `shutil.which` and the launcher search order, including a missing launcher (`None`). The launcher is a given string.
- Binary resolution by name (`RosettaFinder().find_binary`). `RosettaFinder` is not part of this model. The binary is a given record, so `Rosetta.New` takes no `use_mpi` argument: the code always overwrites it.
- The `scontrol` query and the reading of `SLURM_*` variables. `MpiNodes.FromSlurm` takes the query's outcome and the counts already parsed as integers. A non-integer count, on which `int()` raises, is not modelled.
- Writing and removing the host file, and `os.makedirs` in the output-directory accessors. These are filesystem effects.
- The random host-file name. It is drawn once when the module is imported, and the model takes it as a given string.
- `print` lines that carry no decision: the command being launched, the composed groups, the extra inputs.
- Reading score files with pandas (`read_fwf`, the `SCORE:` column, directory concatenation, `FileNotFoundError` for a missing path), and the `float` conversion. A score table is given, with real-valued scores.
- EnergyAnalysis.NewAnalyser: the `description` column is the row's decoy name and is never a score column (`ScoreTable.WellFormed`), so the model rejects `description` as the default score term. The code accepts it at construction and fails later in `float()` unless every decoy name is numeric.
- EnergyAnalysis.Top: for `top(rank, "description")` the code sorts by decoy name, and `float()` raises `ValueError` unless the names are numeric. In the model `description` is not a score column, so the request falls back to the default term and `Top` returns entries. Float parsing of names is not modelled.
- `compose(**kwargs)` ignores its keyword arguments; the model's `Compose` takes none.
- The context-manager protocol of `MPI_node.apply` is not modelled: the prefixed command is a value.

## Findings

| source | as written | input that shows it | evidently intended | confidence | as-written member | corrected member |
|---|---|---|---|---|---|---|
| src/rosetta_finder/rosetta.py:66 | `for k, v in self.asdict` iterates the keys and unpacks each key string into two characters | the group `{"cst_value": "0.4"}` of tests/test_rosetta_wrapper.py:48-52 raises `ValueError` (too many values to unpack) | `for k, v in self.asdict.items()`: substitute each key's value for its marker | high (not executed) | ScriptVars.AsWrittenRejectsTestGroup | ScriptVars.ApplyToXmlContent |
