/** What every walk through CTE bodies shares: its budget, and why it ends (core/scans.py). */
module CteBodies {

  const MAX_SCAN_COUNT: int := 10_000

  /** Following one more name leaves fewer to follow. */
  lemma Shrinks<T>(bodies: map<string, T>, pending: set<string>, name: string)
    requires name in bodies && name !in pending
    ensures |bodies.Keys - (pending + {name})| < |bodies.Keys - pending|
  {
    assert bodies.Keys - pending == (bodies.Keys - (pending + {name})) + {name};
  }
}
