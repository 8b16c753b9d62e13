/**
 * The `Rosetta` job wrapper: it composes the command line of a Rosetta
 * binary from flag files, options and script-variable groups, expands it into
 * one command per job, and runs the jobs either locally or as one MPI launch.
 *
 * Running a process is abstract: `returnCode` gives the return code the
 * process launched with a command would exit with. Existence of flag files is
 * the set `existing` of paths for which `os.path.isfile` holds.
 */
module RosettaJobs {
  import opened Wrappers
  import opened Diagnostics
  import opened Dicts
  import opened Text
  import opened ScriptVars
  import opened MpiNodes

  /** `RosettaBinary`, as far as the wrapper uses it. */
  datatype RosettaBinary = RosettaBinary(fullPath: string, mode: string)

  /** An entry of `opts`, or a value of an input dictionary: a string or a variable group. */
  datatype Opt = Plain(s: string) | Group(group: VariableGroup)

  /** One task's extra options: option name to value or variable group. */
  type InputDict = Dict<Opt>

  /** The tokens one item of an input dictionary stands for. */
  function ItemTokens(item: (string, Opt)): seq<string> {
    match item.1
    case Plain(s) => [item.0, s]
    case Group(g) => AsLongList(g.variables)
  }

  /** What `expand_input_dict(d)` returns: the items' tokens in dictionary order. */
  function Expanded(d: InputDict): seq<string> {
    if d == [] then [] else Expanded(d[..|d| - 1]) + ItemTokens(d[|d| - 1])
  }

  /** `expand_input_dict`. */
  method ExpandInputDict(d: InputDict) returns (l: seq<string>)
    ensures l == Expanded(d)
  {
    l := [];
    for i := 0 to |d|
      invariant l == Expanded(d[..i])
    {
      assert d[..i + 1][..i] == d[..i];
      match d[i].1
      case Plain(s) =>
        l := l + [d[i].0, s];
      case Group(g) =>
        l := l + AsLongList(g.variables);
    }
    assert d[..|d|] == d;
  }

  /** A dictionary of plain strings expands to `[k1, v1, k2, v2, ...]`. */
  lemma {:induction false} ExpandedPlain(d: InputDict, i: nat)
    requires forall j | 0 <= j < |d| :: d[j].1.Plain?
    requires i < |d|
    ensures |Expanded(d)| == 2 * |d|
    ensures Expanded(d)[2 * i] == d[i].0 && Expanded(d)[2 * i + 1] == d[i].1.s
    decreases |d|
  {
    var init := d[..|d| - 1];
    if |d| == 1 {
      assert init == [];
    } else {
      var k := if i < |d| - 1 then i else 0;
      ExpandedPlain(init, k);
      assert init[k] == d[k];
    }
  }

  /** The per-task inputs, flattened one after the other (the `_cmd.extend` loops). */
  function Flattened(inputs: seq<InputDict>): seq<string> {
    if inputs == [] then [] else Flattened(inputs[..|inputs| - 1]) + Expanded(inputs[|inputs| - 1])
  }

  /** The `@flag` tokens: one per flag file that exists, in the flags' order. */
  function FlagTokens(flags: seq<string>, existing: set<string>): seq<string> {
    if flags == [] then []
    else
      var f := flags[|flags| - 1];
      FlagTokens(flags[..|flags| - 1], existing) + (if f in existing then ["@" + f] else [])
  }

  /**
   * Every `@` token names an existing flag file among the flags; every flag
   * file yields one when all exist, and none does when none exists.
   */
  lemma {:induction false} FlagTokensExisting(flags: seq<string>, existing: set<string>)
    ensures var r := FlagTokens(flags, existing);
      && |r| <= |flags|
      && (forall t | t in r :: |t| >= 1 && t[0] == '@' && t[1..] in existing && t[1..] in flags)
      && ((forall f | f in flags :: f in existing) ==> |r| == |flags|)
      && ((forall f | f in flags :: f !in existing) ==> r == [])
  {
    if flags != [] {
      var f := flags[|flags| - 1];
      var init := flags[..|flags| - 1];
      FlagTokensExisting(init, existing);
      assert forall g | g in init :: g in flags;
      assert ("@" + f)[1..] == f;
    }
  }

  /** A flag file yields an `@` token exactly when it is among the flags and exists. */
  lemma {:induction false} FlagTokensMembers(flags: seq<string>, existing: set<string>, f: string)
    ensures "@" + f in FlagTokens(flags, existing) <==> f in flags && f in existing
  {
    if flags != [] {
      var g := flags[|flags| - 1];
      var init := flags[..|flags| - 1];
      FlagTokensMembers(init, existing, f);
      assert flags == init + [g];
      assert ("@" + f)[1..] == f && ("@" + g)[1..] == g;
    }
  }

  /** When every flag file exists, each yields its `@` token, in the order of the flags. */
  lemma {:induction false} FlagTokensAllExist(flags: seq<string>, existing: set<string>)
    requires forall f | f in flags :: f in existing
    ensures FlagTokens(flags, existing) == seq(|flags|, i requires 0 <= i < |flags| => "@" + flags[i])
  {
    if flags != [] {
      var init := flags[..|flags| - 1];
      assert forall g | g in init :: g in flags;
      FlagTokensAllExist(init, existing);
      assert flags[|flags| - 1] in flags;
    }
  }

  /** `[opt for opt in opts if isinstance(opt, str)]`. */
  function PlainOpts(opts: seq<Opt>): seq<string> {
    if opts == [] then []
    else PlainOpts(opts[..|opts| - 1]) + (if opts[|opts| - 1].Plain? then [opts[|opts| - 1].s] else [])
  }

  /** `[opt for opt in opts if isinstance(opt, RosettaScriptsVariableGroup)]`. */
  function GroupOpts(opts: seq<Opt>): seq<VariableGroup> {
    if opts == [] then []
    else GroupOpts(opts[..|opts| - 1]) + (if opts[|opts| - 1].Group? then [opts[|opts| - 1].group] else [])
  }

  /** The `aslonglist` of every group, group after group. */
  function GroupTokens(groups: seq<VariableGroup>): seq<string> {
    if groups == [] then [] else GroupTokens(groups[..|groups| - 1]) + AsLongList(groups[|groups| - 1].variables)
  }

  lemma FlagTokensSnoc(flags: seq<string>, i: nat, existing: set<string>)
    requires i < |flags|
    ensures FlagTokens(flags[..i + 1], existing)
         == FlagTokens(flags[..i], existing) + (if flags[i] in existing then ["@" + flags[i]] else [])
  {
    assert flags[..i + 1][..i] == flags[..i];
  }

  lemma GroupTokensSnoc(groups: seq<VariableGroup>, i: nat)
    requires i < |groups|
    ensures GroupTokens(groups[..i + 1]) == GroupTokens(groups[..i]) + AsLongList(groups[i].variables)
  {
    assert groups[..i + 1][..i] == groups[..i];
  }

  lemma FlattenedSnoc(inputs: seq<InputDict>, i: nat)
    requires i < |inputs|
    ensures Flattened(inputs[..i + 1]) == Flattened(inputs[..i]) + Expanded(inputs[i])
  {
    assert inputs[..i + 1][..i] == inputs[..i];
  }

  /** Running a single job is executing it. */
  lemma RunJobsSingle(cmd: seq<string>, returnCode: seq<string> -> int)
    ensures RunJobs([cmd], returnCode) == match Execute(cmd, returnCode) case Some(e) => Err(e) case None => Ok(1)
  {
    assert [cmd][1..] == [];
  }

  /** The option tokens of a command: all strings first, then all group tokens. */
  function OptTokens(opts: seq<Opt>): seq<string> {
    PlainOpts(opts) + GroupTokens(GroupOpts(opts))
  }

  lemma {:induction false} PlainOptsAppend(a: seq<Opt>, b: seq<Opt>)
    ensures PlainOpts(a + b) == PlainOpts(a) + PlainOpts(b)
    decreases |b|
  {
    if b == [] {
      assert a + b == a;
    } else {
      assert (a + b)[..|a + b| - 1] == a + b[..|b| - 1];
      PlainOptsAppend(a, b[..|b| - 1]);
    }
  }

  lemma {:induction false} GroupOptsAppend(a: seq<Opt>, b: seq<Opt>)
    ensures GroupOpts(a + b) == GroupOpts(a) + GroupOpts(b)
    decreases |b|
  {
    if b == [] {
      assert a + b == a;
    } else {
      assert (a + b)[..|a + b| - 1] == a + b[..|b| - 1];
      GroupOptsAppend(a, b[..|b| - 1]);
    }
  }

  /** The strings of `opts` alone, as options. */
  function PlainsOf(opts: seq<Opt>): (r: seq<Opt>)
    ensures forall o | o in r :: o.Plain?
  {
    if opts == [] then []
    else PlainsOf(opts[..|opts| - 1]) + (if opts[|opts| - 1].Plain? then [opts[|opts| - 1]] else [])
  }

  /** The groups of `opts` alone, as options. */
  function GroupsOf(opts: seq<Opt>): (r: seq<Opt>)
    ensures forall o | o in r :: o.Group?
  {
    if opts == [] then []
    else GroupsOf(opts[..|opts| - 1]) + (if opts[|opts| - 1].Group? then [opts[|opts| - 1]] else [])
  }

  lemma {:induction false} PlainsOfSplit(opts: seq<Opt>)
    ensures PlainOpts(PlainsOf(opts)) == PlainOpts(opts) && GroupOpts(PlainsOf(opts)) == []
    ensures PlainOpts(GroupsOf(opts)) == [] && GroupOpts(GroupsOf(opts)) == GroupOpts(opts)
    decreases |opts|
  {
    if opts != [] {
      var init, last := opts[..|opts| - 1], opts[|opts| - 1];
      PlainsOfSplit(init);
      var p := if last.Plain? then [last] else [];
      var g := if last.Group? then [last] else [];
      PlainOptsAppend(PlainsOf(init), p);
      GroupOptsAppend(PlainsOf(init), p);
      PlainOptsAppend(GroupsOf(init), g);
      GroupOptsAppend(GroupsOf(init), g);
      assert PlainOpts(p) == (if last.Plain? then [last.s] else []) by {
        if last.Plain? { assert p[..0] == []; }
      }
      assert GroupOpts(g) == (if last.Group? then [last.group] else []) by {
        if last.Group? { assert g[..0] == []; }
      }
      assert GroupOpts(p) == [] by {
        if last.Plain? { assert p[..0] == []; }
      }
      assert PlainOpts(g) == [] by {
        if last.Group? { assert g[..0] == []; }
      }
    }
  }

  /**
   * Strings come before groups whatever their positions in `opts`: the tokens
   * are those of the options reordered with every string first, each kind
   * keeping its own order.
   */
  lemma StringsBeforeGroups(opts: seq<Opt>)
    ensures OptTokens(opts) == OptTokens(PlainsOf(opts) + GroupsOf(opts))
  {
    var plains, groups := PlainsOf(opts), GroupsOf(opts);
    PlainsOfSplit(opts);
    PlainOptsAppend(plains, groups);
    GroupOptsAppend(plains, groups);
    assert PlainOpts(plains + groups) == PlainOpts(opts) + [];
    assert GroupOpts(plains + groups) == [] + GroupOpts(opts);
    assert PlainOpts(opts) + [] == PlainOpts(opts);
    assert [] + GroupOpts(opts) == GroupOpts(opts);
  }

  /** `output_dir/job_id/leaf`, joined as `os.path.join` does. */
  function OutputPath(outputDir: string, jobId: string, leaf: string): (p: string)
    requires outputDir != [] && leaf != [] && leaf[0] != '/'
    ensures EndsWith(p, "/" + leaf)
  {
    var parent := PathJoin(outputDir, jobId);
    JoinEndsWithComponent(parent, leaf);
    PathJoin(parent, leaf)
  }

  /** The outcome of running a set of jobs: the number of jobs run (the list of `None`s). */
  type Outcome = Result<nat>

  /** `Rosetta.execute`: a non-zero return code raises `RuntimeError`. */
  function Execute(cmd: seq<string>, returnCode: seq<string> -> int): (r: Option<Error>)
    ensures r.None? <==> returnCode(cmd) == 0
  {
    var retcode := returnCode(cmd);
    if retcode != 0 then Some(RuntimeError("Command failed with return code " + IntToString(retcode))) else None
  }

  /**
   * The fan-out of `run_local`: every job is executed; the batch fails with
   * the error of the first failing job in job order, and otherwise yields one
   * result per job.
   */
  function RunJobs(jobs: seq<seq<string>>, returnCode: seq<string> -> int): (r: Outcome)
    ensures r.Ok? <==> forall j | j in jobs :: returnCode(j) == 0
    ensures r.Ok? ==> r.value == |jobs|
    ensures r.Err? ==> exists j | j in jobs :: Execute(j, returnCode) == Some(r.error)
  {
    if jobs == [] then Ok(0)
    else
      assert forall j | j in jobs[1..] :: j in jobs;
      match Execute(jobs[0], returnCode)
      case Some(e) => Err(e)
      case None =>
        match RunJobs(jobs[1..], returnCode)
        case Ok(n) => Ok(n + 1)
        case Err(e) => Err(e)
  }

  /** The options that give decoy `i` its own suffix and its own score file. */
  function DecoyOptions(i: nat, jobId: string): seq<string> {
    ["-suffix", "_" + ZeroPad(i, 5), "-no_nstruct_label", "-out:file:scorefile", jobId + ".score." + ZeroPad(i, 5) + ".sc"]
  }

  /**
   * The job list of `run_local`: `nstruct` decoy jobs (every one with all
   * inputs flattened in), else one job per input dictionary, else the base
   * command alone.
   */
  function LocalJobs(cmd: seq<string>, inputs: seq<InputDict>, nstruct: int, jobId: string): (jobs: seq<seq<string>>)
    ensures |jobs| == if nstruct > 0 then nstruct else if inputs != [] then |inputs| else 1
    ensures forall i | 0 <= i < |jobs| :: |jobs[i]| >= |cmd| && jobs[i][..|cmd|] == cmd
    ensures nstruct > 0 ==> forall i | 0 <= i < |jobs| :: |jobs[i]| == |cmd + Flattened(inputs)| + 5
  {
    if nstruct > 0 then DecoyJobList(cmd + Flattened(inputs), nstruct, jobId)
    else if inputs != [] then InputJobList(cmd, inputs)
    else [cmd]
  }

  /** One job per decoy, numbered from 1: the base command with the decoy's options. */
  function DecoyJobList(base: seq<string>, nstruct: nat, jobId: string): seq<seq<string>> {
    seq(nstruct, i requires 0 <= i < nstruct => base + DecoyOptions(i + 1, jobId))
  }

  /** One job per input dictionary: the command with that dictionary expanded. */
  function InputJobList(cmd: seq<string>, inputs: seq<InputDict>): seq<seq<string>> {
    seq(|inputs|, i requires 0 <= i < |inputs| => cmd + Expanded(inputs[i]))
  }

  /** The message `run_local` emits for its job list. */
  function LocalDiagnostics(inputs: seq<InputDict>, nstruct: int): seq<Warning> {
    if nstruct > 0 then [DecoyJobs(nstruct, nstruct)]
    else if inputs != [] then [InputJobs(|inputs|)]
    else [SingleJob]
  }

  /**
   * Decoy job `i` (from 0) carries, after the base command and all inputs,
   * `-suffix` and `_` followed by a padded number that reads back as `i + 1`.
   */
  lemma DecoySuffixes(cmd: seq<string>, inputs: seq<InputDict>, nstruct: int, jobId: string)
    requires nstruct > 0
    ensures var jobs := LocalJobs(cmd, inputs, nstruct, jobId);
      var n := |cmd + Flattened(inputs)|;
      forall i | 0 <= i < |jobs| ::
        && |jobs[i]| == n + 5 && jobs[i][n] == "-suffix" && jobs[i][n + 1][0] == '_'
        && AllDigits(jobs[i][n + 1][1..]) && DecimalValue(jobs[i][n + 1][1..]) == i + 1
  {
    var base := cmd + Flattened(inputs);
    var jobs := DecoyJobList(base, nstruct, jobId);
    assert LocalJobs(cmd, inputs, nstruct, jobId) == jobs;
    forall i | 0 <= i < |jobs|
      ensures |jobs[i]| == |base| + 5 && jobs[i][|base|] == "-suffix" && jobs[i][|base| + 1][0] == '_'
      ensures AllDigits(jobs[i][|base| + 1][1..]) && DecimalValue(jobs[i][|base| + 1][1..]) == i + 1
    {
      DecoySuffixAt(base, nstruct, jobId, i);
    }
  }

  lemma DecoySuffixAt(base: seq<string>, nstruct: nat, jobId: string, i: nat)
    requires i < nstruct
    ensures var job := DecoyJobList(base, nstruct, jobId)[i];
      && |job| == |base| + 5 && job[|base|] == "-suffix" && job[|base| + 1][0] == '_'
      && AllDigits(job[|base| + 1][1..]) && DecimalValue(job[|base| + 1][1..]) == i + 1
  {
    DecoyJobAt(base, nstruct, jobId, i);
    ZeroPadRoundTrip(i + 1, 5);
  }

  /** No two decoy jobs share a suffix or a score file. */
  lemma DecoyJobsDistinct(cmd: seq<string>, inputs: seq<InputDict>, nstruct: int, jobId: string)
    requires nstruct > 0
    ensures var jobs := LocalJobs(cmd, inputs, nstruct, jobId);
      var n := |cmd + Flattened(inputs)|;
      forall i, j | 0 <= i < j < |jobs| :: jobs[i][n + 1] != jobs[j][n + 1] && jobs[i][n + 4] != jobs[j][n + 4]
  {
    var base := cmd + Flattened(inputs);
    var jobs := DecoyJobList(base, nstruct, jobId);
    assert LocalJobs(cmd, inputs, nstruct, jobId) == jobs;
    forall i, j | 0 <= i < j < |jobs|
      ensures jobs[i][|base| + 1] != jobs[j][|base| + 1] && jobs[i][|base| + 4] != jobs[j][|base| + 4]
    {
      DecoyPairDiffers(base, nstruct, jobId, i, j);
    }
  }

  lemma DecoyPairDiffers(base: seq<string>, nstruct: nat, jobId: string, i: nat, j: nat)
    requires i < j < nstruct
    ensures var jobs := DecoyJobList(base, nstruct, jobId);
      && |jobs[i]| == |base| + 5 && |jobs[j]| == |base| + 5
      && jobs[i][|base| + 1] != jobs[j][|base| + 1] && jobs[i][|base| + 4] != jobs[j][|base| + 4]
  {
    DecoyJobAt(base, nstruct, jobId, i);
    DecoyJobAt(base, nstruct, jobId, j);
    ZeroPadInjective(i + 1, j + 1, 5);
    DecoyNamesDiffer(jobId, ZeroPad(i + 1, 5), ZeroPad(j + 1, 5));
  }

  /** The suffix and score-file tokens of decoy job `i`. */
  lemma DecoyJobAt(base: seq<string>, nstruct: nat, jobId: string, i: nat)
    requires i < nstruct
    ensures var job := DecoyJobList(base, nstruct, jobId)[i];
      && |job| == |base| + 5 && job[|base|] == "-suffix"
      && job[|base| + 1] == "_" + ZeroPad(i + 1, 5) && job[|base| + 1][1..] == ZeroPad(i + 1, 5)
      && job[|base| + 4] == jobId + ".score." + ZeroPad(i + 1, 5) + ".sc"
  {
    var p := ZeroPad(i + 1, 5);
    assert ("_" + p)[1..] == p;
  }

  /** Different decoy numbers give different suffixes and different score-file names. */
  lemma DecoyNamesDiffer(jobId: string, p: string, q: string)
    requires p != q
    ensures "_" + p != "_" + q
    ensures jobId + ".score." + p + ".sc" != jobId + ".score." + q + ".sc"
  {
    assert ("_" + p)[1..] == p && ("_" + q)[1..] == q;
    var a, b := jobId + ".score." + p + ".sc", jobId + ".score." + q + ".sc";
    var k := |jobId| + 7;
    if |p| == |q| {
      assert a[k..k + |p|] == p;
      assert b[k..k + |q|] == q;
    } else {
      assert |a| != |b|;
    }
  }

  /** The single command `run_mpi` launches: inputs flattened, then `-nstruct n` when `n` is non-zero, behind the launcher. */
  function MpiCommand(node: MpiNode, cmd: seq<string>, inputs: seq<InputDict>, nstruct: int): seq<string>
    reads node
  {
    node.Apply(cmd + Flattened(inputs) + (if nstruct != 0 then ["-nstruct", IntToString(nstruct)] else []))
  }

  /** The MPI command ends with `-nstruct` and the count exactly when the count is non-zero, and starts with the launcher. */
  lemma MpiCommandShape(node: MpiNode, cmd: seq<string>, inputs: seq<InputDict>, nstruct: int)
    ensures var c := MpiCommand(node, cmd, inputs, nstruct);
      && |c| >= 3 && c[0] == node.mpiExecutable
      && (nstruct != 0 ==> c[|c| - 2] == "-nstruct" && IsIntLiteral(c[|c| - 1]) && IntValue(c[|c| - 1]) == nstruct)
      && (nstruct == 0 ==> c[|c| - |cmd + Flattened(inputs)|..] == cmd + Flattened(inputs))
  {
    var tail := cmd + Flattened(inputs) + (if nstruct != 0 then ["-nstruct", IntToString(nstruct)] else []);
    var c := node.Apply(tail);
    IntRoundTrip(nstruct);
    assert c[|c| - |tail|..] == tail;
    if nstruct != 0 {
      assert c[|c| - 2] == tail[|tail| - 2];
      assert c[|c| - 1] == tail[|tail| - 1];
    } else {
      assert tail == cmd + Flattened(inputs);
    }
    if node.UsesHostFile() {
      assert c[..3][0] == c[0];
    } else {
      assert c[..4][0] == c[0];
    }
  }

  class Rosetta {
    var bin: RosettaBinary
    var flags: seq<string>
    var opts: seq<Opt>
    var useMpi: bool
    var mpiNode: MpiNode?
    var jobId: string
    var outputDir: string
    var saveAllTogether: bool

    /** What `__post_init__` establishes: MPI is used exactly when an MPI node is given, and only with an MPI build. */
    predicate Valid()
      reads this
    {
      && useMpi == (mpiNode != null)
      && (mpiNode != null ==> bin.mode == "mpi")
    }

    constructor (bin: RosettaBinary, flags: seq<string>, opts: seq<Opt>, useMpi: bool, mpiNode: MpiNode?,
                 jobId: string, outputDir: string, saveAllTogether: bool)
      ensures this.bin == bin && this.flags == flags && this.opts == opts && this.useMpi == useMpi
      ensures this.mpiNode == mpiNode && this.jobId == jobId && this.outputDir == outputDir
      ensures this.saveAllTogether == saveAllTogether
    {
      this.bin := bin;
      this.flags := flags;
      this.opts := opts;
      this.useMpi := useMpi;
      this.mpiNode := mpiNode;
      this.jobId := jobId;
      this.outputDir := outputDir;
      this.saveAllTogether := saveAllTogether;
    }

    /**
     * `Rosetta(...)` with `__post_init__`: missing flags and options become
     * empty lists; an MPI node with a non-MPI binary raises `ValueError`;
     * otherwise `use_mpi` is set to whether an MPI node is given, with a
     * warning when none is.
     */
    static method New(bin: RosettaBinary, flags: Option<seq<string>>, opts: Option<seq<Opt>>, mpiNode: MpiNode?,
                      jobId: string, outputDir: string, saveAllTogether: bool)
      returns (r: Result<Rosetta>, diagnostics: seq<Warning>)
      ensures r.Err? <==> mpiNode != null && bin.mode != "mpi"
      ensures r.Err? ==> r.error == ValueError("MPI nodes are given yet not supported.") && diagnostics == []
      ensures r.Ok? ==>
        && fresh(r.value) && r.value.Valid()
        && r.value.bin == bin && r.value.flags == flags.GetOr([]) && r.value.opts == opts.GetOr([])
        && r.value.useMpi == (mpiNode != null) && r.value.mpiNode == mpiNode
        && r.value.jobId == jobId && r.value.outputDir == outputDir && r.value.saveAllTogether == saveAllTogether
        && diagnostics == (if mpiNode == null then [StaticBuild] else [])
    {
      var rosetta := new Rosetta(bin, flags.GetOr([]), opts.GetOr([]), false, mpiNode, jobId, outputDir, saveAllTogether);
      if rosetta.mpiNode != null {
        if rosetta.bin.mode != "mpi" {
          r, diagnostics := Err(ValueError("MPI nodes are given yet not supported.")), [];
          return;
        }
        rosetta.useMpi := true;
        r, diagnostics := Ok(rosetta), [];
        return;
      }
      diagnostics := [StaticBuild];
      rosetta.useMpi := false;
      r := Ok(rosetta);
    }

    /** `output_pdb_dir`: `output_dir/job_id/pdb`, or `.../all` when outputs are saved together. */
    function OutputPdbDir(): (r: Result<string>)
      reads this
      ensures r.Err? <==> outputDir == ""
      ensures r.Ok? ==> EndsWith(r.value, "/" + (if saveAllTogether then "all" else "pdb"))
    {
      if outputDir == "" then Err(ValueError("Output directory not set."))
      else Ok(OutputPath(outputDir, jobId, if saveAllTogether then "all" else "pdb"))
    }

    /** `output_scorefile_dir`: `output_dir/job_id/scorefile`, or `.../all` when outputs are saved together. */
    function OutputScorefileDir(): (r: Result<string>)
      reads this
      ensures r.Err? <==> outputDir == ""
      ensures r.Ok? ==> EndsWith(r.value, "/" + (if saveAllTogether then "all" else "scorefile"))
    {
      if outputDir == "" then Err(ValueError("Output directory not set."))
      else Ok(OutputPath(outputDir, jobId, if saveAllTogether then "all" else "scorefile"))
    }

    /** Structures and score files share a directory exactly when outputs are saved together. */
    lemma OutputDirsShared()
      requires outputDir != ""
      ensures OutputPdbDir().value == OutputScorefileDir().value <==> saveAllTogether
    {
      var parent := PathJoin(outputDir, jobId);
      if !saveAllTogether {
        PathJoinRelative(parent, "pdb");
        PathJoinRelative(parent, "scorefile");
        assert |OutputScorefileDir().value| == |OutputPdbDir().value| + 6;
      }
    }

    /** The output-path options, present exactly when an output directory is set. */
    function OutputTokens(): seq<string>
      reads this
    {
      if outputDir == "" then []
      else ["-out:path:pdb", OutputPdbDir().value, "-out:path:score", OutputScorefileDir().value]
    }

    /** What `compose` returns, given the flag files that exist. */
    function Composed(existing: set<string>): (r: seq<string>)
      reads this
    {
      [bin.fullPath] + FlagTokens(flags, existing) + OptTokens(opts) + OutputTokens()
    }

    /**
     * `compose`: the binary, `@flag` for every existing flag file, the string
     * options, the variable groups' tokens, then the output paths.
     */
    method Compose(existing: set<string>) returns (cmd: seq<string>)
      ensures cmd == Composed(existing)
    {
      cmd := [bin.fullPath];
      for i := 0 to |flags|
        invariant cmd == [bin.fullPath] + FlagTokens(flags[..i], existing)
      {
        FlagTokensSnoc(flags, i, existing);
        ConcatAssoc([bin.fullPath], FlagTokens(flags[..i], existing), if flags[i] in existing then ["@" + flags[i]] else []);
        if flags[i] !in existing {
          continue;
        }
        cmd := cmd + ["@" + flags[i]];
      }
      assert flags[..|flags|] == flags;
      ghost var head := cmd;
      cmd := cmd + PlainOpts(opts);
      var anyRosettascriptVars := GroupOpts(opts);
      for i := 0 to |anyRosettascriptVars|
        invariant cmd == head + PlainOpts(opts) + GroupTokens(anyRosettascriptVars[..i])
      {
        GroupTokensSnoc(anyRosettascriptVars, i);
        ConcatAssoc(head + PlainOpts(opts), GroupTokens(anyRosettascriptVars[..i]), AsLongList(anyRosettascriptVars[i].variables));
        cmd := cmd + AsLongList(anyRosettascriptVars[i].variables);
      }
      assert anyRosettascriptVars[..|anyRosettascriptVars|] == anyRosettascriptVars;
      ConcatAssoc(head, PlainOpts(opts), GroupTokens(anyRosettascriptVars));
      if outputDir != "" {
        cmd := cmd + ["-out:path:pdb", OutputPdbDir().value, "-out:path:score", OutputScorefileDir().value];
      } else {
        assert cmd == cmd + [];
      }
    }

    /**
     * `run_local`: builds the job list and executes every job; `jobs` is the
     * list of commands handed to `execute`.
     */
    method RunLocal(cmd: seq<string>, inputs: seq<InputDict>, nstruct: int, returnCode: seq<string> -> int)
      returns (jobs: seq<seq<string>>, r: Outcome, diagnostics: seq<Warning>)
      ensures jobs == LocalJobs(cmd, inputs, nstruct, jobId)
      ensures r == RunJobs(jobs, returnCode)
      ensures diagnostics == LocalDiagnostics(inputs, nstruct)
    {
      var baseCmd := cmd;
      if nstruct > 0 {
        for i := 0 to |inputs|
          invariant baseCmd == cmd + Flattened(inputs[..i])
        {
          FlattenedSnoc(inputs, i);
          ConcatAssoc(cmd, Flattened(inputs[..i]), Expanded(inputs[i]));
          var expanded := ExpandInputDict(inputs[i]);
          baseCmd := baseCmd + expanded;
        }
        assert inputs[..|inputs|] == inputs;
        jobs := DecoyJobList(baseCmd, nstruct, jobId);
        diagnostics := [DecoyJobs(|jobs|, nstruct)];
      } else if inputs != [] {
        jobs := InputJobList(baseCmd, inputs);
        diagnostics := [InputJobs(|jobs|)];
      } else {
        jobs := [baseCmd];
        diagnostics := [SingleJob];
      }
      r := RunJobs(jobs, returnCode);
    }

    /**
     * `run_mpi`: exactly one launch, of the command with every input
     * flattened in, behind the MPI launcher; without an MPI node the
     * assertion fails and nothing is launched.
     */
    method RunMpi(cmd: seq<string>, inputs: seq<InputDict>, nstruct: int, returnCode: seq<string> -> int)
      returns (launched: seq<seq<string>>, r: Outcome)
      ensures mpiNode == null ==> launched == [] && r == Err(AssertionError("MPI node instance is not initialized."))
      ensures mpiNode != null ==>
        && launched == [MpiCommand(mpiNode, cmd, inputs, nstruct)]
        && r == RunJobs(launched, returnCode)
    {
      if mpiNode == null {
        launched, r := [], Err(AssertionError("MPI node instance is not initialized."));
        return;
      }
      var mpiCmd := cmd;
      for i := 0 to |inputs|
        invariant mpiCmd == cmd + Flattened(inputs[..i])
      {
        FlattenedSnoc(inputs, i);
        ConcatAssoc(cmd, Flattened(inputs[..i]), Expanded(inputs[i]));
        var expanded := ExpandInputDict(inputs[i]);
        mpiCmd := mpiCmd + expanded;
      }
      assert inputs[..|inputs|] == inputs;
      if nstruct != 0 {
        mpiCmd := mpiCmd + ["-nstruct", IntToString(nstruct)];
      } else {
        assert mpiCmd == mpiCmd + [];
      }
      var updatedCmd := mpiNode.Apply(mpiCmd);
      launched := [updatedCmd];
      RunJobsSingle(updatedCmd, returnCode);
      match Execute(updatedCmd, returnCode)
      case Some(e) =>
        r := Err(e);
      case None =>
        r := Ok(1);
    }

    /**
     * `run`: composes the command, then runs it as one MPI launch when MPI is
     * in use and a node is given (warning that per-task inputs are flattened
     * whenever inputs are passed at all), and locally otherwise.
     */
    method Run(inputs: Option<seq<InputDict>>, nstruct: int, existing: set<string>, returnCode: seq<string> -> int)
      returns (launched: seq<seq<string>>, r: Outcome, diagnostics: seq<Warning>)
      ensures useMpi && mpiNode != null ==>
        && launched == [MpiCommand(mpiNode, Composed(existing), inputs.GetOr([]), nstruct)]
        && r == RunJobs(launched, returnCode)
        && diagnostics == (if inputs.Some? then [MpiIncompatibleInput] else [])
      ensures !(useMpi && mpiNode != null) ==>
        && launched == LocalJobs(Composed(existing), inputs.GetOr([]), nstruct, jobId)
        && r == RunJobs(launched, returnCode)
        && diagnostics == LocalDiagnostics(inputs.GetOr([]), nstruct)
    {
      var cmd := Compose(existing);
      if useMpi && mpiNode != null {
        diagnostics := if inputs.Some? then [MpiIncompatibleInput] else [];
        launched, r := RunMpi(cmd, inputs.GetOr([]), nstruct, returnCode);
        return;
      }
      launched, r, diagnostics := RunLocal(cmd, inputs.GetOr([]), nstruct, returnCode);
    }
  }

  /**
   * The composition of tests/test_rosetta_wrapper.py:249-263: one existing
   * flag file and two string options, no output directory. The flag is
   * written as given: rosetta.py:375 does not make it absolute.
   */
  lemma ComposeExample(job: Rosetta)
    requires job.bin.fullPath == "/bin/app" && job.flags == ["flags.txt"]
    requires job.opts == [Plain("-in:file:s"), Plain("input.pdb")] && job.outputDir == ""
    ensures job.Composed({"flags.txt"}) == ["/bin/app", "@flags.txt", "-in:file:s", "input.pdb"]
  {
    var opts := job.opts;
    assert job.flags[..0] == [] && opts[..1][..0] == [] && opts[..1] == [Plain("-in:file:s")];
    assert "@" + "flags.txt" == "@flags.txt";
    assert FlagTokens(job.flags, {"flags.txt"}) == ["@flags.txt"];
    assert PlainOpts(opts[..1]) == ["-in:file:s"];
    assert PlainOpts(opts) == ["-in:file:s", "input.pdb"];
    assert GroupOpts(opts[..1]) == [];
    assert GroupOpts(opts) == [];
    assert OptTokens(opts) == ["-in:file:s", "input.pdb"];
  }
}
