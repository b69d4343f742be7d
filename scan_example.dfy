/** A worked scan: under root "r", "a.txt" is new, "b.txt" is indexed with
    the status it still has, and the indexed "c.txt" is gone from disk. */
module ScanExample {
  import opened Wrappers
  import opened Paths
  import opened Snapshot
  import opened RosterFile
  import opened Scan
  import opened ScanProperties

  const A: Status := Status(10, "-rw-r--r--", "t1", "aa")
  const B: Status := Status(20, "-rw-r--r--", "t2", "bb")
  const C: Status := Status(30, "-rw-r--r--", "t3", "cc")

  /** The traversal reports the root directory, then the two files. */
  const Entries: seq<Entry> :=
    [Entry("r", false, None), Entry("r/a.txt", true, Some(A)), Entry("r/b.txt", true, Some(B))]

  const RosterPath: string := "r/.roster.yml"

  lemma RootClean()
    ensures Clean("r") == "r"
  {
    assert LastElementStart("r") == 0 by { assert "r"[..0] == []; }
    assert Split("r") == ["r"];
    assert Resolve(["r"], false) == ["r"] by { assert ["r"][..0] == []; }
  }

  lemma ExampleRelPaths()
    ensures RelPath("r", "r") == "r" && RelPath("r/a.txt", "r") == "a.txt" && RelPath("r/b.txt", "r") == "b.txt"
  {
    RootClean();
    assert "r/" <= "r/a.txt" && "r/" <= "r/b.txt";
  }

  lemma ExampleKept()
    ensures Kept(RosterPath, [], "a.txt", true) && Kept(RosterPath, [], "b.txt", true)
  {
    BaseOfChild("r", ".roster.yml");
    BaseOfElement("a.txt");
    BaseOfElement("b.txt");
  }

  lemma ExampleFirstCandidates()
    ensures Candidates(Entries[..1], "r", RosterPath, []) == []
  {
    CandidatesNext(Entries, 0, "r", RosterPath, []);
    assert Entries[..0] == [];
  }

  lemma ExampleSecondCandidates()
    ensures Candidates(Entries[..2], "r", RosterPath, []) == [Candidate("a.txt", Some(A))]
  {
    ExampleFirstCandidates();
    ExampleRelPaths();
    ExampleKept();
    CandidatesNext(Entries, 1, "r", RosterPath, []);
  }

  lemma ExampleCandidates()
    ensures Candidates(Entries[..3], "r", RosterPath, []) == [Candidate("a.txt", Some(A)), Candidate("b.txt", Some(B))]
  {
    ExampleSecondCandidates();
    var e := Entries[2];
    assert e == Entry("r/b.txt", true, Some(B));
    ExampleRelPaths();
    ExampleKept();
    assert Kept(RosterPath, [], RelPath(e.path, "r"), e.regular);
    CandidatesNext(Entries, 2, "r", RosterPath, []);
  }

  /** The two worker steps: "a.txt" is new, "b.txt" unchanged. */
  lemma ExampleRun()
    ensures var mem0 := map["b.txt" := B, "c.txt" := C];
      Run(Sweep(mem0, Seed(mem0, []), [], []), [Candidate("a.txt", Some(A)), Candidate("b.txt", Some(B))], DefaultVerify())
        == Sweep(mem0["a.txt" := A], {"c.txt"}, ["a.txt"], [])
  {
    var mem0 := map["b.txt" := B, "c.txt" := C];
    var ca, cb := Candidate("a.txt", Some(A)), Candidate("b.txt", Some(B));
    var s0 := Sweep(mem0, Seed(mem0, []), [], []);
    assert Seed(mem0, []) == {"b.txt", "c.txt"};
    RunNext(s0, [], ca, DefaultVerify());
    RunNext(s0, [ca], cb, DefaultVerify());
    assert [ca] + [cb] == [ca, cb];
    var s1 := Step(s0, ca, DefaultVerify());
    assert s1 == Sweep(mem0["a.txt" := A], {"b.txt", "c.txt"}, ["a.txt"], []);
  }

  /** The scan reports "a.txt" new and "c.txt" deleted, and leaves entries for
      "a.txt" and "b.txt" only. */
  lemma ExampleScan()
    ensures var s := Scanned(map["b.txt" := B, "c.txt" := C], RosterPath, [], DefaultVerify(), "r", Entries);
      && s.added == ["a.txt"] && s.modified == [] && s.abs == {"c.txt"}
      && Remaining(s) == map["a.txt" := A, "b.txt" := B]
  {
    assert Entries[..3] == Entries;
    ExampleCandidates();
    ExampleRun();
  }
}
