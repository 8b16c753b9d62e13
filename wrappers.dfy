/**
 * Failure-carrying values shared by the model: the Python exceptions the
 * wrapper raises become `Err` values, and the warnings and progress messages
 * it emits become a list of `Warning` values returned beside the result.
 */
module Wrappers {

  datatype Option<+T> = None | Some(value: T) {
    function GetOr(default: T): T {
      match this
      case Some(v) => v
      case None => default
    }
  }

  /** The exception classes the modelled code raises, with their messages. */
  datatype Error =
    | ValueError(msg: string)
    | RuntimeError(msg: string)
    | AssertionError(msg: string)

  datatype Result<+T> = Ok(value: T) | Err(error: Error)
}

module Diagnostics {

  /**
   * Warnings (`warnings.warn`) and progress lines (`print`) that change no
   * control flow; the model returns them so that they can be stated.
   */
  datatype Warning =
      /** RosettaScriptVariableNotExistWarning: `%%key%%` is not in the script. */
    | VariableNotInScript(key: string)
      /** MPI_IncompatibleInputWarning: per-task inputs are flattened into one MPI command. */
    | MpiIncompatibleInput
      /** "Using MPI binary as static build.", emitted when no MPI node is given. */
    | StaticBuild
      /** "Processing <commands> commands on <decoys> decoys." */
    | DecoyJobs(commands: nat, decoys: int)
      /** "Processing <commands> commands" */
    | InputJobs(commands: nat)
      /** "No inputs are given. Running single job." */
    | SingleJob
      /** "Fixing $SLURM_CPUS_PER_TASK from <given> to 1." */
    | FixedCpusPerTask(given: int)
      /** "Fixing $SLURM_NTASKS_PER_NODE from <given> to 1." */
    | FixedTasksPerNode(given: int)
}
