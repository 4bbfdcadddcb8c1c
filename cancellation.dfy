/** The two flags a sort consults while it runs: the panel's `isSorting`
    and the sorting thread's interrupt status. Another thread (the "Stop"
    button) writes them; a sort sees them only when it polls, so they are
    modelled as a value that the sort threads through its calls and that
    may have moved on at every poll. */
module Cancel {

  /** What one poll observes. */
  datatype Flags = Flags(sorting: bool, interrupted: bool)

  /** The run has been asked to stop, by either flag. */
  predicate Stopped(f: Flags)
  {
    !f.sorting || f.interrupted
  }

  /** `g` can be observed after `f`. Nothing clears a thread's interrupt
      flag. Being stopped is never undone either, on the assumption that
      at most one sorting thread is alive at a time: "Stop" clears
      `isSorting` and interrupts that thread, and only a new run sets
      `isSorting` again. When a new run starts while a stopped one is still
      unwinding, the old run's `finally` can clear `isSorting` under the new
      one and a later start set it again; `Later` excludes that overlap. */
  predicate Later(f: Flags, g: Flags)
  {
    (f.interrupted ==> g.interrupted) && (Stopped(f) ==> Stopped(g))
  }

  lemma LaterReflexive(f: Flags)
    ensures Later(f, f)
  {
  }

  lemma LaterTransitive(f: Flags, g: Flags, h: Flags)
    requires Later(f, g) && Later(g, h)
    ensures Later(f, h)
  {
  }

  /** One poll of either flag (`isSorting.get()` or
      `Thread.currentThread().isInterrupted()`): "Stop" may have been
      pressed since the last one. */
  method Poll(f: Flags) returns (g: Flags)
    ensures Later(f, g)
  {
    LaterReflexive(f);
    g :| Later(f, g);
  }
}
