/** The scan driver (package `walk`): the traversal's entries are filtered
    through Keep, each candidate is classified and recorded, and the paths
    never confirmed are reported deleted and expelled. The worker pool is
    modelled as one worker taking the candidates in walk order. */
module Walk {
  import opened Wrappers
  import opened Snapshot
  import opened RosterFile
  import opened Scan

  /** The number of workers started: the CPU count when the configuration
      says "no limit" (0), the configured count otherwise. At least one worker
      runs exactly when a positive count is configured, or no limit is
      configured on a machine with a CPU; with none, the first dispatched
      candidate waits forever for a receiver. */
  function Workers(thr: int, numCPU: nat): (n: int)
    ensures n >= 1 <==> thr > 0 || (thr == ThreadsNoLimit && numCPU >= 1)
    ensures thr == ThreadsNoLimit ==> n == numCPU
  {
    if thr == ThreadsNoLimit then numCPU else thr
  }

  /** One iteration of a worker: Changed, then Update, then the emission of
      the path as new or modified. */
  method Work(roster: Roster, relPath: string, made: Option<Status>, added: seq<string>, modified: seq<string>)
    returns (added': seq<string>, modified': seq<string>)
    modifies roster`mem, roster`abs
    ensures Sweep(roster.mem, roster.abs, added', modified')
      == Step(Sweep(old(roster.mem), old(roster.abs), added, modified), Candidate(relPath, made), roster.cfg.ver)
  {
    added', modified' := added, modified;
    // classify against the index, then record the fresh status
    var isNew, changed, stat, err := roster.Changed(relPath, made);
    if err {
      return;
    }
    var outcome := roster.Update(relPath, stat);
    if outcome.Fail? {
      return;
    }
    if isNew {
      added' := added + [relPath];
    } else if changed {
      modified' := modified + [relPath];
    }
  }

  /** The absentee resolution after all candidates: every path still absent
      is reported deleted and expelled from the index. */
  method ResolveAbsentees(roster: Roster) returns (deleted: seq<string>)
    modifies roster`mem
    ensures (forall p :: p in deleted <==> p in roster.abs) && Distinct(deleted)
    ensures roster.mem == old(roster.mem) - roster.abs
  {
    deleted := roster.Absentees();
    for j := 0 to |deleted|
      invariant roster.mem == old(roster.mem) - set p | p in deleted[..j]
    {
      assert deleted[..j + 1] == deleted[..j] + [deleted[j]];
      roster.Expel(deleted[j]);
    }
    assert deleted[..|deleted|] == deleted;
  }

  /** Walk: scans the entries the traversal reports under `root` against the
      roster, returning the new, the modified and the deleted paths. The pool
      of workers is modelled as one worker, which stands for it when at least
      one worker is started (`numCPU` is the machine's CPU count). */
  method Walk(root: string, roster: Roster, entries: seq<Entry>, numCPU: nat)
    returns (added: seq<string>, modified: seq<string>, deleted: seq<string>)
    requires Workers(roster.cfg.rt.thr, numCPU) >= 1
    modifies roster`mem, roster`abs
    ensures var s := Run(Sweep(old(roster.mem), old(roster.abs), [], []),
                         Candidates(entries, root, roster.path, roster.cfg.ire), roster.cfg.ver);
      && added == s.added && modified == s.modified
      && (forall p :: p in deleted <==> p in s.abs) && Distinct(deleted)
      && roster.abs == s.abs && roster.mem == Remaining(s)
    ensures forall p :: p in deleted ==> p !in roster.mem && p !in added && p !in modified
  {
    added, modified := [], [];
    ghost var s0 := Sweep(roster.mem, roster.abs, [], []);
    for i := 0 to |entries|
      invariant Sweep(roster.mem, roster.abs, added, modified)
        == Run(s0, Candidates(entries[..i], root, roster.path, roster.cfg.ire), roster.cfg.ver)
    {
      var e := entries[i];
      CandidatesNext(entries, i, root, roster.path, roster.cfg.ire);
      var relPath := RelPath(e.path, root);
      // only regular, unignored files other than the roster itself are dispatched
      var keep := roster.Keep(relPath, e.regular);
      ghost var cs := Candidates(entries[..i], root, roster.path, roster.cfg.ire);
      if keep {
        RunNext(s0, cs, Candidate(relPath, e.made), roster.cfg.ver);
        added, modified := Work(roster, relPath, e.made, added, modified);
      } else {
        assert cs + [] == cs;
      }
    }
    assert entries[..|entries|] == entries;
    ghost var cs := Candidates(entries, root, roster.path, roster.cfg.ire);
    RunIndex(s0, cs, roster.cfg.ver);
    EmittedConfirmed(s0, cs, roster.cfg.ver);
    // the paths no worker confirmed are reported and expelled
    deleted := ResolveAbsentees(roster);
  }
}
