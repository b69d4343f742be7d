/** The roster: the configuration and the index of a directory tree, and the
    operations a scan performs on it (package `file`). */
module RosterFile {
  import opened Wrappers
  import opened Paths
  import opened Snapshot
  import opened Ignore

  /** Runtime values with special meaning. */
  const ThreadsNoLimit: int := 0
  const DepthNoLimit: int := 0

  /** Worker count and maximum recursion depth. */
  datatype Runtime = Runtime(thr: int, dep: int)

  /** The configuration: runtime settings, the comparison policy, the ignore
      strings and their compiled patterns. */
  datatype Config = Config(rt: Runtime, ver: Verify, ign: seq<string>, ire: seq<Pattern>)

  /** The policy a new roster starts with: size and checksum only. */
  function DefaultVerify(): Verify {
    Verify(true, false, false, true)
  }

  /** Keep's criterion: a regular file, not named like the roster file itself,
      and matched by no ignore pattern. */
  predicate Kept(rosterPath: string, ire: seq<Pattern>, filePath: string, regular: bool) {
    regular && Base(filePath) != Base(rosterPath) && !MatchesAny(ire, filePath)
  }

  /** The absentee set Parse seeds: every indexed path no ignore pattern matches. */
  function Seed(mem: map<string, Status>, ire: seq<Pattern>): set<string> {
    set k | k in mem && !MatchesAny(ire, k)
  }

  /** What Changed reports about a file. */
  datatype Verdict = Verdict(isNew: bool, changed: bool)

  /** Changed's decision from the looked-up entry (`prev`, `ok`) and the fresh
      status: new without a valid prior entry, otherwise changed when the two
      differ under the policy. */
  function Classify(prev: Status, ok: bool, stat: Status, ver: Verify): (v: Verdict)
    ensures !(v.isNew && v.changed)
  {
    if ok && Valid(prev) then Verdict(false, !Equals(prev, stat, ver)) else Verdict(true, false)
  }

  class Roster {
    /** Where the roster file lives (its base name is never indexed). */
    var path: string
    var cfg: Config
    /** The index: relative path to status. */
    var mem: map<string, Status>
    /** Indexed paths not yet seen during the current scan. */
    var abs: set<string>

    /** New: an in-memory roster with default settings and an empty index. A
        roster for a file that does not exist yet gets the default ignore
        patterns; the Go code drops their compilation error, which real
        regular expressions never produce, and dereferences the result. */
    constructor New(fileExists: bool, filePath: string, regex: Regex)
      requires !fileExists ==> Compiles(IgnoreDefault, regex)
      ensures path == filePath
      ensures cfg.rt == Runtime(ThreadsNoLimit, DepthNoLimit) && cfg.ver == DefaultVerify()
      ensures cfg.ign == (if fileExists then [] else IgnoreDefault)
      ensures |cfg.ire| == |cfg.ign|
      ensures forall i :: 0 <= i < |cfg.ign| ==> CompiledFrom(cfg.ire[i], cfg.ign[i], regex)
      ensures mem == map[] && abs == {}
    {
      var ign: seq<string> := [];
      var ire: seq<Pattern> := [];
      if !fileExists {
        ign := IgnoreDefault;
        var r := Compile(ign, regex);
        ire := r.value;
      }
      path := filePath;
      cfg := Config(Runtime(ThreadsNoLimit, DepthNoLimit), DefaultVerify(), ign, ire);
      mem := map[];
      abs := {};
    }

    /** Status: the indexed status of `filePath` and true, or NoStatus() and
        false when it is not indexed. */
    method Status(filePath: string) returns (stat: Snapshot.Status, ok: bool)
      ensures ok <==> filePath in mem
      ensures ok ==> stat == mem[filePath]
      ensures !ok ==> stat == NoStatus()
    {
      if filePath in mem {
        return mem[filePath], true;
      }
      return NoStatus(), false;
    }

    /** Keep: whether a walked entry is a candidate for indexing. */
    method Keep(filePath: string, regular: bool) returns (keep: bool)
      ensures keep <==> Kept(path, cfg.ire, filePath, regular)
    {
      if !regular {
        return false;
      }
      if Base(filePath) == Base(path) {
        return false;
      }
      var hit := AnyMatch(cfg.ire, filePath);
      return !hit;
    }

    /** Changed: looks `relPath` up and compares it with the freshly computed
        status `made` (MakeStatus, None when it failed; the status is then
        NoStatus() and `err` is set). */
    method Changed(relPath: string, made: Option<Snapshot.Status>)
      returns (isNew: bool, changed: bool, stat: Snapshot.Status, err: bool)
      ensures err <==> made.None?
      ensures stat == (if made.Some? then made.value else NoStatus())
      ensures isNew <==> !(relPath in mem && Valid(mem[relPath]))
      ensures changed <==> relPath in mem && Valid(mem[relPath]) && !Equals(mem[relPath], stat, cfg.ver)
    {
      var prev, ok := Status(relPath);
      match made {
        case Some(s) => stat, err := s, false;
        case None => stat, err := NoStatus(), true;
      }
      var v := Classify(prev, ok, stat, cfg.ver);
      isNew, changed := v.isNew, v.changed;
    }

    /** Update: records a valid status for `filePath` and marks the path as
        present; an invalid status is refused and nothing changes. */
    method Update(filePath: string, stat: Snapshot.Status) returns (err: Outcome<string>)
      modifies this`mem, this`abs
      ensures err.Fail? <==> !Valid(stat)
      ensures err.Fail? ==> mem == old(mem) && abs == old(abs)
      ensures err.Pass? ==> mem == old(mem)[filePath := stat] && abs == old(abs) - {filePath}
    {
      if !Valid(stat) {
        return Fail("invalid member status");
      }
      mem := mem[filePath := stat];
      if filePath in abs {
        abs := abs - {filePath};
      }
      return Pass;
    }

    /** Expel: removes `filePath` from the index, if it is there. */
    method Expel(filePath: string)
      modifies this`mem
      ensures mem == old(mem) - {filePath}
    {
      if filePath in mem {
        mem := mem - {filePath};
      }
    }

    /** Absentees: every absent path exactly once, in the (unspecified) order
        of map iteration. */
    method Absentees() returns (r: seq<string>)
      ensures |r| == |abs|
      ensures forall s :: s in r <==> s in abs
      ensures Distinct(r)
    {
      var a := new string[|abs|];
      var rest := abs;
      var i := 0;
      while rest != {}
        invariant 0 <= i <= a.Length
        invariant rest <= abs && |rest| == a.Length - i
        invariant forall s :: s in a[..i] <==> s in abs && s !in rest
        invariant Distinct(a[..i])
        decreases |rest|
      {
        var s :| s in rest;
        a[i] := s;
        assert a[..i + 1] == a[..i] + [s];
        rest := rest - {s};
        i := i + 1;
      }
      return a[..];
    }
  }

  /** The roster file as decoded from its YAML document, after decoding over
      the defaults of New(true, ...). */
  datatype Document = Document(rt: Runtime, ver: Verify, ign: seq<string>, mem: map<string, Status>)

  /** What the file system holds at the roster's path. */
  datatype Disk =
    | NoDirectory                // the parent directory does not exist
    | DirectoryNotDir            // the parent exists but is not a directory
    | NoFile                     // the roster file does not exist
    | NotRegular                 // the roster file is not a regular file
    | Unreadable(reason: string) // reading or decoding the file failed
    | Stored(doc: Document)      // the decoded contents

  datatype ParseError =
    | DirectoryNotFound(dir: string)
    | InvalidPath(dir: string)
    | NotRegularFile(file: string)
    | ReadFailed(reason: string)
    | BadPattern(reason: string)

  /** Parse: a roster loaded from disk with its absentee set seeded, a fresh
      default roster when the file does not exist, or the error. */
  method Parse(filePath: string, disk: Disk, regex: Regex) returns (r: Result<Roster, ParseError>)
    requires disk.NoFile? ==> Compiles(IgnoreDefault, regex)
    ensures disk.NoDirectory? ==> r == Failure(DirectoryNotFound(Dir(filePath)))
    ensures disk.DirectoryNotDir? ==> r == Failure(InvalidPath(Dir(filePath)))
    ensures disk.NotRegular? ==> r == Failure(NotRegularFile(filePath))
    ensures disk.Unreadable? ==> r == Failure(ReadFailed(disk.reason))
    ensures disk.NoFile? ==>
      && r.Success? && fresh(r.value) && r.value.path == filePath
      && r.value.cfg.rt == Runtime(ThreadsNoLimit, DepthNoLimit)
      && r.value.cfg.ign == IgnoreDefault && r.value.cfg.ver == DefaultVerify()
      && |r.value.cfg.ire| == |IgnoreDefault|
      && (forall i :: 0 <= i < |IgnoreDefault| ==> CompiledFrom(r.value.cfg.ire[i], IgnoreDefault[i], regex))
      && r.value.mem == map[] && r.value.abs == {}
    ensures disk.Stored? ==> (r.Success? <==> Compiles(disk.doc.ign, regex))
    ensures disk.Stored? && r.Failure? ==> r.error.BadPattern?
    ensures disk.Stored? && r.Success? ==>
      && fresh(r.value) && r.value.path == filePath
      && r.value.cfg.rt == disk.doc.rt && r.value.cfg.ver == disk.doc.ver
      && r.value.cfg.ign == disk.doc.ign && |r.value.cfg.ire| == |disk.doc.ign|
      && (forall i :: 0 <= i < |disk.doc.ign| ==> CompiledFrom(r.value.cfg.ire[i], disk.doc.ign[i], regex))
      && r.value.mem == disk.doc.mem
      && r.value.abs == Seed(disk.doc.mem, r.value.cfg.ire)
  {
    if disk.NoDirectory? {
      return Failure(DirectoryNotFound(Dir(filePath)));
    } else if disk.DirectoryNotDir? {
      return Failure(InvalidPath(Dir(filePath)));
    } else if disk.NoFile? {
      // create a new default roster when the file does not exist
      var ros := new Roster.New(false, filePath, regex);
      return Success(ros);
    } else if disk.NotRegular? {
      return Failure(NotRegularFile(filePath));
    } else if disk.Unreadable? {
      return Failure(ReadFailed(disk.reason));
    }
    var doc := disk.doc;
    var ros := new Roster.New(true, filePath, regex);
    ros.cfg := ros.cfg.(rt := doc.rt, ver := doc.ver, ign := doc.ign);
    ros.mem := doc.mem;
    var compiled := Compile(ros.cfg.ign, regex);
    if compiled.Failure? {
      return Failure(BadPattern(compiled.error));
    }
    var ire := compiled.value;
    ros.cfg := ros.cfg.(ire := ire);
    // initialise the absentee set
    ghost var cfg := ros.cfg;
    var todo := ros.mem.Keys;
    while todo != {}
      invariant ros.path == filePath && ros.mem == doc.mem && ros.cfg == cfg
      invariant todo <= ros.mem.Keys
      invariant ros.abs == Seed(ros.mem, ire) - todo
      decreases todo
    {
      var k :| k in todo;
      var hit := AnyMatch(ros.cfg.ire, k);
      if !hit {
        ros.abs := ros.abs + {k};
      }
      todo := todo - {k};
    }
    return Success(ros);
  }
}
