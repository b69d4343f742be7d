/** The specification of one scan as a function of the roster's state: the
    candidates the traversal dispatches, one worker step per candidate, and
    what the whole sequence of steps does to the index, the absentee set and
    the emitted paths. */
module Scan {
  import opened Wrappers
  import opened Paths
  import opened Snapshot
  import opened Ignore
  import opened RosterFile

  /** One entry reported by the traversal: its path (the root joined with the
      entry's relative path), whether it is a regular file, and what
      MakeStatus computes for it (None when reading the file fails). */
  datatype Entry = Entry(path: string, regular: bool, made: Option<Status>)

  /** A candidate dispatched to the workers: relative path and fresh status. */
  datatype Candidate = Candidate(path: string, made: Option<Status>)

  /** The path relative to the scan root: the walked path without the prefix
      Clean(root) + "/", unchanged when it lacks that prefix. */
  function RelPath(path: string, root: string): (r: string)
    ensures Clean(root) + [Separator] <= path ==> Clean(root) + [Separator] + r == path
    ensures !(Clean(root) + [Separator] <= path) ==> r == path
  {
    TrimPrefix(path, Clean(root) + [Separator])
  }

  /** The candidates the traversal dispatches, in walk order. */
  function Candidates(entries: seq<Entry>, root: string, rosterPath: string, ire: seq<Pattern>): seq<Candidate> {
    if entries == [] then []
    else
      var e := entries[|entries| - 1];
      var rel := RelPath(e.path, root);
      Candidates(entries[..|entries| - 1], root, rosterPath, ire)
        + (if Kept(rosterPath, ire, rel, e.regular) then [Candidate(rel, e.made)] else [])
  }

  /** The index and absentee set part-way through a scan, with the paths
      emitted so far as new and as modified. */
  datatype Sweep = Sweep(mem: map<string, Status>, abs: set<string>, added: seq<string>, modified: seq<string>)

  /** The status Roster.Status reports for `p`. */
  function Prior(mem: map<string, Status>, p: string): Status {
    if p in mem then mem[p] else NoStatus()
  }

  /** A candidate whose status was computed and is accepted by Update. */
  predicate Succeeds(c: Candidate) {
    c.made.Some? && Valid(c.made.value)
  }

  /** One worker iteration: Changed, then Update, then the emission. A failed
      Changed or a refused Update leaves everything as it was. */
  function Step(s: Sweep, c: Candidate, ver: Verify): Sweep {
    if !Succeeds(c) then s
    else
      var stat := c.made.value;
      var v := Classify(Prior(s.mem, c.path), c.path in s.mem, stat, ver);
      var t := s.(mem := s.mem[c.path := stat], abs := s.abs - {c.path});
      if v.isNew then t.(added := s.added + [c.path])
      else if v.changed then t.(modified := s.modified + [c.path])
      else t
  }

  /** The worker iterations for all candidates, in order. */
  function Run(s: Sweep, cs: seq<Candidate>, ver: Verify): Sweep {
    if cs == [] then s
    else Step(Run(s, cs[..|cs| - 1], ver), cs[|cs| - 1], ver)
  }

  /** The index a scan leaves: the swept index without the absentees. */
  function Remaining(s: Sweep): map<string, Status> {
    s.mem - s.abs
  }

  /** Candidates of one more entry: the next entry is dispatched when Keep
      accepts it. */
  lemma CandidatesNext(entries: seq<Entry>, i: nat, root: string, rosterPath: string, ire: seq<Pattern>)
    requires i < |entries|
    ensures var rel := RelPath(entries[i].path, root);
      Candidates(entries[..i + 1], root, rosterPath, ire)
        == Candidates(entries[..i], root, rosterPath, ire)
           + (if Kept(rosterPath, ire, rel, entries[i].regular) then [Candidate(rel, entries[i].made)] else [])
  {
    assert entries[..i + 1][..i] == entries[..i];
  }

  /** Running one more candidate is one more step. */
  lemma RunNext(s: Sweep, cs: seq<Candidate>, c: Candidate, ver: Verify)
    ensures Run(s, cs + [c], ver) == Step(Run(s, cs, ver), c, ver)
  {
    assert (cs + [c])[..|cs|] == cs;
  }


  /** No two candidates share a relative path (the traversal reports each
      file once). */
  predicate DistinctPaths(cs: seq<Candidate>) {
    forall i, j :: 0 <= i < j < |cs| ==> cs[i].path != cs[j].path
  }

  /** Some successful candidate has path `p`. */
  predicate Recorded(cs: seq<Candidate>, p: string) {
    exists i :: 0 <= i < |cs| && Succeeds(cs[i]) && cs[i].path == p
  }

  /** The statuses the successful candidates record, the later one winning. */
  function Confirmed(cs: seq<Candidate>): map<string, Status> {
    if cs == [] then map[]
    else
      var c := cs[|cs| - 1];
      var m := Confirmed(cs[..|cs| - 1]);
      if Succeeds(c) then m[c.path := c.made.value] else m
  }

  /** The paths reported new, judged against the index `m` at scan start. */
  function NewPaths(cs: seq<Candidate>, m: map<string, Status>): seq<string> {
    if cs == [] then []
    else
      var c := cs[|cs| - 1];
      NewPaths(cs[..|cs| - 1], m)
        + (if Succeeds(c) && !(c.path in m && Valid(m[c.path])) then [c.path] else [])
  }

  /** The paths reported modified, judged against the index `m` at scan start. */
  function ModPaths(cs: seq<Candidate>, m: map<string, Status>, ver: Verify): seq<string> {
    if cs == [] then []
    else
      var c := cs[|cs| - 1];
      ModPaths(cs[..|cs| - 1], m, ver)
        + (if Succeeds(c) && c.path in m && Valid(m[c.path]) && !Equals(m[c.path], c.made.value, ver)
           then [c.path] else [])
  }

  /** A path is confirmed exactly when some candidate with that path succeeded. */
  lemma {:induction false} ConfirmedMembers(cs: seq<Candidate>)
    ensures forall p :: p in Confirmed(cs) <==> Recorded(cs, p)
  {
    if cs != [] {
      var init, c := cs[..|cs| - 1], cs[|cs| - 1];
      ConfirmedMembers(init);
      forall p
        ensures p in Confirmed(cs) <==> Recorded(cs, p)
      {
        if p in Confirmed(cs) && !(Succeeds(c) && p == c.path) {
          assert p in Confirmed(init);
          var i :| 0 <= i < |init| && Succeeds(init[i]) && init[i].path == p;
          assert cs[i] == init[i];
        }
        if Recorded(cs, p) {
          var i :| 0 <= i < |cs| && Succeeds(cs[i]) && cs[i].path == p;
          if i < |init| {
            assert init[i] == cs[i];
          }
        }
      }
    }
  }

  /** With distinct paths, a successful candidate's status is the one confirmed. */
  lemma {:induction false} ConfirmedValue(cs: seq<Candidate>, i: nat)
    requires DistinctPaths(cs)
    requires i < |cs| && Succeeds(cs[i])
    ensures cs[i].path in Confirmed(cs) && Confirmed(cs)[cs[i].path] == cs[i].made.value
  {
    if i < |cs| - 1 {
      var init := cs[..|cs| - 1];
      assert init[i] == cs[i];
      ConfirmedValue(init, i);
    }
  }

  /** After the steps, the index is the start index overwritten by the
      confirmed statuses, and the absentee set has lost the confirmed paths. */
  lemma {:induction false} RunIndex(s: Sweep, cs: seq<Candidate>, ver: Verify)
    ensures Run(s, cs, ver).mem == s.mem + Confirmed(cs)
    ensures Run(s, cs, ver).abs == s.abs - Confirmed(cs).Keys
  {
    if cs != [] {
      RunIndex(s, cs[..|cs| - 1], ver);
    }
  }

  /** Every emitted path was confirmed (or was emitted before the steps). */
  lemma {:induction false} EmittedConfirmed(s: Sweep, cs: seq<Candidate>, ver: Verify)
    ensures forall p :: p in Run(s, cs, ver).added ==> p in s.added || p in Confirmed(cs)
    ensures forall p :: p in Run(s, cs, ver).modified ==> p in s.modified || p in Confirmed(cs)
  {
    if cs != [] {
      EmittedConfirmed(s, cs[..|cs| - 1], ver);
    }
  }

  /** With distinct paths, every candidate is judged against the index as it
      stood at scan start: the emissions are NewPaths and ModPaths. */
  lemma {:induction false} RunEmissions(s: Sweep, cs: seq<Candidate>, ver: Verify)
    requires DistinctPaths(cs)
    ensures Run(s, cs, ver).added == s.added + NewPaths(cs, s.mem)
    ensures Run(s, cs, ver).modified == s.modified + ModPaths(cs, s.mem, ver)
  {
    if cs != [] {
      var init, c := cs[..|cs| - 1], cs[|cs| - 1];
      assert DistinctPaths(init) by {
        forall i, j | 0 <= i < j < |init| ensures init[i].path != init[j].path {
          assert init[i] == cs[i] && init[j] == cs[j];
        }
      }
      RunEmissions(s, init, ver);
      RunIndex(s, init, ver);
      ConfirmedMembers(init);
      assert c.path !in Confirmed(init);
    }
  }

  /** A path is never reported both new and modified. */
  lemma {:induction false} NewModDisjoint(cs: seq<Candidate>, m: map<string, Status>, ver: Verify)
    ensures forall p :: p in NewPaths(cs, m) ==> !(p in m && Valid(m[p]))
    ensures forall p :: p in ModPaths(cs, m, ver) ==> p in m && Valid(m[p])
    ensures forall p :: p in NewPaths(cs, m) ==> p !in ModPaths(cs, m, ver)
  {
    if cs != [] {
      NewModDisjoint(cs[..|cs| - 1], m, ver);
    }
  }

  /** Nothing is emitted when every successful candidate has a valid entry at
      scan start that its fresh status equals under the policy. */
  lemma {:induction false} NoEmissions(cs: seq<Candidate>, m: map<string, Status>, ver: Verify)
    requires forall i :: 0 <= i < |cs| && Succeeds(cs[i]) ==>
      cs[i].path in m && Valid(m[cs[i].path]) && Equals(m[cs[i].path], cs[i].made.value, ver)
    ensures NewPaths(cs, m) == [] && ModPaths(cs, m, ver) == []
  {
    if cs != [] {
      var init := cs[..|cs| - 1];
      forall i | 0 <= i < |init| && Succeeds(init[i])
        ensures init[i].path in m && Valid(m[init[i].path]) && Equals(m[init[i].path], init[i].made.value, ver)
      {
        assert init[i] == cs[i];
      }
      NoEmissions(init, m, ver);
    }
  }

  /** Every candidate passed Keep. */
  lemma {:induction false} CandidatesKept(entries: seq<Entry>, root: string, rosterPath: string, ire: seq<Pattern>)
    ensures forall c :: c in Candidates(entries, root, rosterPath, ire) ==> Kept(rosterPath, ire, c.path, true)
  {
    if entries != [] {
      CandidatesKept(entries[..|entries| - 1], root, rosterPath, ire);
    }
  }

  /** Every candidate's path is the relative path of some entry. */
  lemma {:induction false} CandidatesFromEntries(entries: seq<Entry>, root: string, rosterPath: string, ire: seq<Pattern>)
    ensures forall c :: c in Candidates(entries, root, rosterPath, ire) ==>
      exists e :: e in entries && c.path == RelPath(e.path, root)
  {
    if entries != [] {
      var init := entries[..|entries| - 1];
      CandidatesFromEntries(init, root, rosterPath, ire);
      forall c | c in Candidates(entries, root, rosterPath, ire)
        ensures exists e :: e in entries && c.path == RelPath(e.path, root)
      {
        if c in Candidates(init, root, rosterPath, ire) {
          var e :| e in init && c.path == RelPath(e.path, root);
          assert e in entries;
        } else {
          assert entries[|entries| - 1] in entries;
        }
      }
    }
  }
}
