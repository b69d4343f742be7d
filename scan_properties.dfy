/** Properties of a whole scan of a freshly parsed roster: Parse seeds the
    absentee set, the walk runs every candidate, and the absentees left over
    are deleted. */
module ScanProperties {
  import opened Snapshot
  import opened Ignore
  import opened RosterFile
  import opened Scan

  /** The sweep of a scan over `entries` of a roster just parsed with index
      `mem0`: its absentee set is the deleted set and Remaining of it the
      index afterwards. */
  function Scanned(mem0: map<string, Status>, rosterPath: string, ire: seq<Pattern>, ver: Verify,
                   root: string, entries: seq<Entry>): Sweep
  {
    Run(Sweep(mem0, Seed(mem0, ire), [], []), Candidates(entries, root, rosterPath, ire), ver)
  }

  /** A path is deleted exactly when it was indexed, is matched by no ignore
      pattern, and no candidate with that path was recorded. */
  lemma ScanDeleted(mem0: map<string, Status>, rosterPath: string, ire: seq<Pattern>, ver: Verify,
                    root: string, entries: seq<Entry>, p: string)
    ensures var s := Scanned(mem0, rosterPath, ire, ver, root, entries);
      p in s.abs <==> p in mem0 && !MatchesAny(ire, p) && !Recorded(Candidates(entries, root, rosterPath, ire), p)
  {
    var cs := Candidates(entries, root, rosterPath, ire);
    var s0 := Sweep(mem0, Seed(mem0, ire), [], []);
    RunIndex(s0, cs, ver);
    ConfirmedMembers(cs);
    assert p in Confirmed(cs) <==> Recorded(cs, p);
    assert p in Seed(mem0, ire) <==> p in mem0 && !MatchesAny(ire, p);
  }

  /** Every path reported new or modified stays indexed and is not deleted. */
  lemma ScanEmittedKept(mem0: map<string, Status>, rosterPath: string, ire: seq<Pattern>, ver: Verify,
                        root: string, entries: seq<Entry>)
    ensures var s := Scanned(mem0, rosterPath, ire, ver, root, entries);
      forall p :: p in s.added || p in s.modified ==> p !in s.abs && p in Remaining(s)
  {
    var cs := Candidates(entries, root, rosterPath, ire);
    var s0 := Sweep(mem0, Seed(mem0, ire), [], []);
    RunIndex(s0, cs, ver);
    EmittedConfirmed(s0, cs, ver);
  }

  /** With distinct candidate paths, no path is reported both new and modified. */
  lemma ScanNewModDisjoint(mem0: map<string, Status>, rosterPath: string, ire: seq<Pattern>, ver: Verify,
                           root: string, entries: seq<Entry>)
    requires DistinctPaths(Candidates(entries, root, rosterPath, ire))
    ensures var s := Scanned(mem0, rosterPath, ire, ver, root, entries);
      forall p :: p in s.added ==> p !in s.modified
  {
    var cs := Candidates(entries, root, rosterPath, ire);
    RunEmissions(Sweep(mem0, Seed(mem0, ire), [], []), cs, ver);
    NewModDisjoint(cs, mem0, ver);
  }

  /** A candidate whose status could not be computed or was refused is not
      emitted, yet if it was indexed it is reported deleted and expelled. */
  lemma FailedCandidateDeleted(mem0: map<string, Status>, rosterPath: string, ire: seq<Pattern>, ver: Verify,
                               root: string, entries: seq<Entry>, i: nat)
    requires var cs := Candidates(entries, root, rosterPath, ire);
      DistinctPaths(cs) && i < |cs| && !Succeeds(cs[i]) && cs[i].path in mem0
    ensures var cs := Candidates(entries, root, rosterPath, ire);
      var s := Scanned(mem0, rosterPath, ire, ver, root, entries);
      cs[i].path in s.abs && cs[i].path !in Remaining(s) && cs[i].path !in s.added && cs[i].path !in s.modified
  {
    var cs := Candidates(entries, root, rosterPath, ire);
    var p := cs[i].path;
    CandidatesKept(entries, root, rosterPath, ire);
    assert cs[i] in cs;
    assert !MatchesAny(ire, p);
    assert !Recorded(cs, p);
    ScanDeleted(mem0, rosterPath, ire, ver, root, entries, p);
    ScanEmittedKept(mem0, rosterPath, ire, ver, root, entries);
  }

  /** An indexed path that an ignore pattern matches is never dispatched and
      never seeded as absent: its entry survives the scan unchanged. */
  lemma IgnoredSurvives(mem0: map<string, Status>, rosterPath: string, ire: seq<Pattern>, ver: Verify,
                        root: string, entries: seq<Entry>, k: string)
    requires k in mem0 && MatchesAny(ire, k)
    ensures var s := Scanned(mem0, rosterPath, ire, ver, root, entries);
      k in Remaining(s) && Remaining(s)[k] == mem0[k]
  {
    var cs := Candidates(entries, root, rosterPath, ire);
    var s0 := Sweep(mem0, Seed(mem0, ire), [], []);
    CandidatesKept(entries, root, rosterPath, ire);
    ConfirmedMembers(cs);
    RunIndex(s0, cs, ver);
    assert k !in Confirmed(cs);
  }

  /** When every candidate's fresh status is valid and equals its valid prior
      entry under the policy, nothing is new or modified, and the deleted set
      is the seeded absentee set without the candidates. */
  lemma AllUnchanged(mem0: map<string, Status>, rosterPath: string, ire: seq<Pattern>, ver: Verify,
                     root: string, entries: seq<Entry>)
    requires var cs := Candidates(entries, root, rosterPath, ire);
      && DistinctPaths(cs)
      && forall i :: 0 <= i < |cs| ==>
           && cs[i].made.Some? && Valid(cs[i].made.value)
           && cs[i].path in mem0 && Valid(mem0[cs[i].path]) && Equals(mem0[cs[i].path], cs[i].made.value, ver)
    ensures var cs := Candidates(entries, root, rosterPath, ire);
      var s := Scanned(mem0, rosterPath, ire, ver, root, entries);
      && s.added == [] && s.modified == []
      && s.abs == Seed(mem0, ire) - set i | 0 <= i < |cs| :: cs[i].path
  {
    var cs := Candidates(entries, root, rosterPath, ire);
    var s0 := Sweep(mem0, Seed(mem0, ire), [], []);
    RunEmissions(s0, cs, ver);
    NoEmissions(cs, mem0, ver);
    RunIndex(s0, cs, ver);
    ConfirmedMembers(cs);
    assert Confirmed(cs).Keys == set i | 0 <= i < |cs| :: cs[i].path;
  }

  /** Scanning an unchanged tree a second time, with the index the first scan
      left, reports nothing new, modified or deleted and leaves the index as
      it was. */
  lemma ScanIdempotent(mem0: map<string, Status>, rosterPath: string, ire: seq<Pattern>, ver: Verify,
                       root: string, entries: seq<Entry>)
    requires DistinctPaths(Candidates(entries, root, rosterPath, ire))
    ensures var s1 := Scanned(mem0, rosterPath, ire, ver, root, entries);
      var s2 := Scanned(Remaining(s1), rosterPath, ire, ver, root, entries);
      s2.added == [] && s2.modified == [] && s2.abs == {} && Remaining(s2) == Remaining(s1)
  {
    var cs := Candidates(entries, root, rosterPath, ire);
    var conf := Confirmed(cs);
    var s1 := Scanned(mem0, rosterPath, ire, ver, root, entries);
    var mem1 := Remaining(s1);
    var s2 := Scanned(mem1, rosterPath, ire, ver, root, entries);
    RunIndex(Sweep(mem0, Seed(mem0, ire), [], []), cs, ver);
    RunIndex(Sweep(mem1, Seed(mem1, ire), [], []), cs, ver);
    // every confirmed status is in the index the first scan leaves
    assert forall p :: p in conf ==> p in mem1 && mem1[p] == conf[p];
    // an unignored path of that index was confirmed, so it is not absent again
    assert forall p :: p in Seed(mem1, ire) ==> p in conf;
    assert s2.abs == {};
    assert mem1 + conf == mem1;
    // every candidate finds its own status, valid and equal, in that index
    forall i | 0 <= i < |cs| && Succeeds(cs[i])
      ensures cs[i].path in mem1 && Valid(mem1[cs[i].path]) && Equals(mem1[cs[i].path], cs[i].made.value, ver)
    {
      ConfirmedValue(cs, i);
      EqualsReflexiveSymmetric(cs[i].made.value, cs[i].made.value, ver);
    }
    RunEmissions(Sweep(mem1, Seed(mem1, ire), [], []), cs, ver);
    NoEmissions(cs, mem1, ver);
  }

  /** An indexed, unignored path that no entry of the traversal reaches is
      deleted and expelled: a traversal that stops early (on an unreadable
      directory, say) loses every such path from the index. */
  lemma UnreachedDeleted(mem0: map<string, Status>, rosterPath: string, ire: seq<Pattern>, ver: Verify,
                         root: string, entries: seq<Entry>, p: string)
    requires p in mem0 && !MatchesAny(ire, p)
    requires forall e :: e in entries ==> RelPath(e.path, root) != p
    ensures var s := Scanned(mem0, rosterPath, ire, ver, root, entries);
      p in s.abs && p !in Remaining(s)
  {
    var cs := Candidates(entries, root, rosterPath, ire);
    CandidatesFromEntries(entries, root, rosterPath, ire);
    assert !Recorded(cs, p);
    ScanDeleted(mem0, rosterPath, ire, ver, root, entries, p);
  }
}
