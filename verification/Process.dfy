/** The hooked process: its memory, its other threads, and which addresses are executable. */
module ProcessState {
  import opened Bytes

  /** Instruction pointer and suspend count. */
  datatype Thread = Thread(ip: nat, suspended: nat)

  class Process {
    var mem: Mem
    var threads: map<int, Thread>
    /** IsExecutableAddress: committed, with one of the execute protections. */
    const executable: int -> bool

    constructor (mem: Mem, threads: map<int, Thread>, executable: int -> bool)
      ensures this.mem == mem && this.threads == threads && this.executable == executable
    {
      this.mem, this.threads, this.executable := mem, threads, executable;
    }
  }
}
