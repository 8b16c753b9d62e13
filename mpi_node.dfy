/**
 * `MPI_node`: the MPI launcher, and either a process count for this host or
 * a map from host names to process slots (a cluster allocation).
 */
module MpiNodes {
  import opened Wrappers
  import opened Diagnostics
  import opened Dicts
  import opened Text

  class MpiNode {
    var nproc: int
    /** `node_matrix`: host name to slot count, or `None`. */
    var nodeMatrix: Option<Dict<int>>
    /** `mpi_excutable`: the launcher `shutil.which` found. */
    var mpiExecutable: string
    /** `node_file`: the host-file name, drawn once per process. */
    var nodeFile: string

    /**
     * The dataclass constructor followed by `__post_init__`: when a host map
     * is given, `nproc` is overwritten with the sum of its slots.
     */
    constructor (nproc: int, nodeMatrix: Option<Dict<int>>, launcher: string, nodeFile: string)
      ensures this.nodeMatrix == nodeMatrix && mpiExecutable == launcher && this.nodeFile == nodeFile
      ensures this.nproc == if nodeMatrix.Some? then Sum(nodeMatrix.value) else nproc
    {
      this.nproc := nproc;
      this.nodeMatrix := nodeMatrix;
      this.mpiExecutable := launcher;
      this.nodeFile := nodeFile;
      new;
      if nodeMatrix.Some? {
        this.nproc := Sum(nodeMatrix.value);
      }
    }

    /** `local`: start `nproc` processes on this host, one per hardware thread. */
    function Local(): (r: seq<string>)
      reads this
      ensures |r| == 4 && r[0] == mpiExecutable && r[1] == "--use-hwthread-cpus" && r[2] == "-np"
      ensures IsIntLiteral(r[3]) && IntValue(r[3]) == nproc
    {
      IntRoundTrip(nproc);
      [mpiExecutable, "--use-hwthread-cpus", "-np", IntToString(nproc)]
    }

    /** `host_file`: read the hosts and their slots from the node file. */
    function HostFile(): (r: seq<string>)
      reads this
      ensures |r| == 3 && r[0] == mpiExecutable && r[1] == "--hostfile" && r[2] == nodeFile
    {
      [mpiExecutable, "--hostfile", nodeFile]
    }

    /** `not self.node_matrix` is false: a host map with at least one host. */
    predicate UsesHostFile()
      reads this
    {
      nodeMatrix.Some? && nodeMatrix.value != []
    }

    /**
     * `apply(cmd)`: the command prefixed with the launcher; with no host map,
     * or an empty one, the local prefix, otherwise the host-file prefix. The
     * command itself follows unchanged.
     */
    function Apply(cmd: seq<string>): (r: seq<string>)
      reads this
      ensures |r| == |cmd| + (if UsesHostFile() then 3 else 4)
      ensures r[|r| - |cmd|..] == cmd
      ensures UsesHostFile() ==> r[..3] == HostFile()
      ensures !UsesHostFile() ==> r[..4] == Local()
    {
      var m := if !UsesHostFile() then Local() else HostFile();
      m + cmd
    }
  }

  /** What `scontrol show hostnames $SLURM_JOB_NODELIST` yields. */
  datatype NodeListQuery =
      /** `SLURM_JOB_NODELIST` is not in the environment. */
    | Unset
      /**
       * `scontrol` exited non-zero, with this output. The source formats the
       * output bytes as `b'...'`; the model carries the decoded text.
       */
    | Failed(output: string)
      /** The host names, one per output line. */
    | Hosts(names: seq<string>)

  /** A count below 1 is raised to 1. */
  function Max1(x: int): (r: int)
    ensures r >= 1 && r >= x
    ensures x >= 1 ==> r == x
    ensures x < 1 ==> r == 1
  {
    if x < 1 then 1 else x
  }

  function NodeSet(nodes: seq<string>): set<string> {
    set i | 0 <= i < |nodes| :: nodes[i]
  }

  /**
   * `{i: slots for i in nodes}`: every listed host gets the same slot count;
   * a host listed twice appears once.
   */
  function SlotMap(nodes: seq<string>, slots: int): (d: Dict<int>)
    ensures DistinctKeys(d) && Keys(d) == NodeSet(nodes)
    ensures forall p | p in d :: p.1 == slots
  {
    if nodes == [] then []
    else
      var init := nodes[..|nodes| - 1];
      assert NodeSet(nodes) == NodeSet(init) + {nodes[|nodes| - 1]} by {
        forall q | q in NodeSet(nodes) ensures q in NodeSet(init) + {nodes[|nodes| - 1]} {
          var i :| 0 <= i < |nodes| && nodes[i] == q;
          if i < |nodes| - 1 { assert init[i] == q; }
        }
      }
      PutKeys(SlotMap(init, slots), nodes[|nodes| - 1], slots);
      PutDistinct(SlotMap(init, slots), nodes[|nodes| - 1], slots);
      PutItems(SlotMap(init, slots), nodes[|nodes| - 1], slots);
      Put(SlotMap(init, slots), nodes[|nodes| - 1], slots)
  }

  /** The total of a SLURM allocation: distinct hosts times tasks per node times CPUs per task. */
  lemma SlurmTotal(nodes: seq<string>, ntasksPerNode: int, cpusPerTask: int)
    ensures Sum(SlotMap(nodes, Max1(ntasksPerNode) * Max1(cpusPerTask)))
         == |NodeSet(nodes)| * (Max1(ntasksPerNode) * Max1(cpusPerTask))
    ensures Sum(SlotMap(nodes, Max1(ntasksPerNode) * Max1(cpusPerTask))) >= |NodeSet(nodes)|
  {
    var slots := Max1(ntasksPerNode) * Max1(cpusPerTask);
    PositiveProduct(Max1(ntasksPerNode), Max1(cpusPerTask));
    var d := SlotMap(nodes, slots);
    DistinctKeysCount(d);
    forall i | 0 <= i < |d| ensures d[i].1 == slots {
      assert d[i] in d;
    }
    SumConstant(d, slots);
    AtLeastOncePerHost(|d|, slots);
  }

  /**
   * The allocation of tests/test_rosetta_wrapper.py:130-142: hosts `node01`
   * and `node02` with 2 CPUs per task and 1 task per node give 2 slots per
   * host, 4 in all.
   */
  lemma SlurmExample()
    ensures SlotMap(["node01", "node02"], Max1(1) * Max1(2)) == [("node01", 2), ("node02", 2)]
    ensures |NodeSet(["node01", "node02"])| * (Max1(1) * Max1(2)) == 4
  {
    var nodes := ["node01", "node02"];
    assert nodes[..1] == ["node01"] && nodes[..1][..0] == [];
    assert SlotMap(["node01"], 2) == [("node01", 2)];
    assert "node01"[5] != "node02"[5];
    assert Put([("node01", 2)], "node02", 2) == [("node01", 2)] + Put([], "node02", 2);
    DistinctKeysCount(SlotMap(nodes, 2));
  }

  lemma PositiveProduct(a: int, b: int)
    requires a >= 1 && b >= 1
    ensures a * b >= 1
  {
  }

  lemma AtLeastOncePerHost(hosts: nat, slots: int)
    requires slots >= 1
    ensures hosts * slots >= hosts
  {
  }

  /**
   * `MPI_node.from_slurm`: the host list comes from `scontrol`, and
   * `SLURM_NTASKS_PER_NODE` and `SLURM_CPUS_PER_TASK` (1 when unset) are
   * raised to 1 when below it, each with a message; every host gets their
   * product as its slot count.
   */
  method FromSlurm(query: NodeListQuery, cpusPerTask: int, ntasksPerNode: int, launcher: string, nodeFile: string)
    returns (r: Result<MpiNode>, diagnostics: seq<Warning>)
    ensures query.Unset? ==> r == Err(RuntimeError("Environment variable 'SLURM_JOB_NODELIST' not set"))
    ensures query.Failed? ==> r == Err(RuntimeError("Failed to get node list: " + query.output))
    ensures !query.Hosts? ==> diagnostics == []
    ensures query.Hosts? ==>
      && r.Ok? && fresh(r.value)
      && r.value.nodeMatrix == Some(SlotMap(query.names, Max1(ntasksPerNode) * Max1(cpusPerTask)))
      && r.value.nproc == |NodeSet(query.names)| * (Max1(ntasksPerNode) * Max1(cpusPerTask))
      && r.value.mpiExecutable == launcher && r.value.nodeFile == nodeFile
      && diagnostics == (if cpusPerTask < 1 then [FixedCpusPerTask(cpusPerTask)] else [])
                      + (if ntasksPerNode < 1 then [FixedTasksPerNode(ntasksPerNode)] else [])
  {
    diagnostics := [];
    match query
    case Unset =>
      r := Err(RuntimeError("Environment variable 'SLURM_JOB_NODELIST' not set"));
    case Failed(output) =>
      r := Err(RuntimeError("Failed to get node list: " + output));
    case Hosts(nodes) =>
      var slurmCpusPerTask := cpusPerTask;
      var slurmNtasksPerNode := ntasksPerNode;
      if slurmCpusPerTask < 1 {
        diagnostics := diagnostics + [FixedCpusPerTask(slurmCpusPerTask)];
        slurmCpusPerTask := 1;
      }
      if slurmNtasksPerNode < 1 {
        diagnostics := diagnostics + [FixedTasksPerNode(slurmNtasksPerNode)];
        slurmNtasksPerNode := 1;
      }
      var nodeDict := SlotMap(nodes, slurmNtasksPerNode * slurmCpusPerTask);
      var totalNproc := Sum(nodeDict);
      SlurmTotal(nodes, ntasksPerNode, cpusPerTask);
      var node := new MpiNode(totalNproc, Some(nodeDict), launcher, nodeFile);
      r := Ok(node);
  }
}
