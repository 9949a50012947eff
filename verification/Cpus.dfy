/** Spinlocks and what CPUs are doing, as far as the scheduler is concerned. */
module Cpus {
  /** A spinlock: free, or held by a CPU. */
  datatype Lock = Free | By(cpu: nat)

  /** A CPU runs a process, or its scheduler waits for ptable.lock, or it looks at slot i holding that lock. */
  datatype Cpu = Want | Scan(i: nat) | Runs(p: nat)

  /** Process p of n runs on CPU c. */
  predicate Executes(cpus: seq<Cpu>, n: nat, c: nat, p: nat)
  {
    c < |cpus| && cpus[c] == Runs(p) && p < n
  }
}
