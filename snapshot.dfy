/** The verifiable attributes of one indexed file (the `Status` record) and the
    policy (`Verify`) that selects which of them decide equality. */
module Snapshot {

  /** Go's int64, the type of Status.Fsize. */
  newtype int64 = x: int | -0x8000_0000_0000_0000 <= x < 0x8000_0000_0000_0000

  /** The sentinels of an attribute that was never measured. */
  const NoFsize: int64 := -1
  const NoPerms: string := "(none)"
  const NoMtime: string := "(none)"
  const NoCheck: string := ""

  /** Size in bytes, permission string, modification time string and checksum. */
  datatype Status = Status(fsize: int64, perms: string, mtime: string, check: string)

  /** Which attributes take part in a comparison. */
  datatype Verify = Verify(fsize: bool, perms: bool, mtime: bool, check: bool)

  /** The unique status of a file that has not been analysed. */
  function NoStatus(): Status {
    Status(NoFsize, NoPerms, NoMtime, NoCheck)
  }

  /** The policy that compares every attribute. */
  function AllVerify(): Verify {
    Verify(true, true, true, true)
  }

  /** Status.Equals: every attribute the policy enables matches. */
  predicate Equals(s: Status, t: Status, ver: Verify) {
    && (!ver.fsize || s.fsize == t.fsize)
    && (!ver.perms || s.perms == t.perms)
    && (!ver.mtime || s.mtime == t.mtime)
    && (!ver.check || s.check == t.check)
  }

  /** Status.Valid: the status differs from NoStatus() under AllVerify(),
      whatever policy the roster is configured with. */
  predicate Valid(s: Status) {
    !Equals(s, NoStatus(), AllVerify())
  }

  /** The four attributes, as names. */
  datatype Field = Size | Permissions | ModTime | Checksum

  /** The attributes a policy enables. */
  function Enabled(ver: Verify): set<Field> {
    (if ver.fsize then {Size} else {}) + (if ver.perms then {Permissions} else {})
    + (if ver.mtime then {ModTime} else {}) + (if ver.check then {Checksum} else {})
  }

  /** The attributes in which two statuses differ. */
  function Differing(s: Status, t: Status): set<Field> {
    (if s.fsize != t.fsize then {Size} else {}) + (if s.perms != t.perms then {Permissions} else {})
    + (if s.mtime != t.mtime then {ModTime} else {}) + (if s.check != t.check then {Checksum} else {})
  }

  /** Equality under a policy holds exactly when no enabled attribute differs:
      an attribute takes part only when its flag is set. */
  lemma EqualsIffNoEnabledDifference(s: Status, t: Status, ver: Verify)
    ensures Equals(s, t, ver) <==> Enabled(ver) * Differing(s, t) == {}
  {
    if !Equals(s, t, ver) {
      if ver.fsize && s.fsize != t.fsize {
        assert Size in Enabled(ver) * Differing(s, t);
      } else if ver.perms && s.perms != t.perms {
        assert Permissions in Enabled(ver) * Differing(s, t);
      } else if ver.mtime && s.mtime != t.mtime {
        assert ModTime in Enabled(ver) * Differing(s, t);
      } else {
        assert Checksum in Enabled(ver) * Differing(s, t);
      }
    }
  }

  /** Under every policy, Equals is reflexive and symmetric. */
  lemma EqualsReflexiveSymmetric(s: Status, t: Status, ver: Verify)
    ensures Equals(s, s, ver)
    ensures Equals(s, t, ver) == Equals(t, s, ver)
  {
  }

  /** With no attribute enabled, every two statuses are equal. */
  lemma EqualsUnderEmptyPolicy(s: Status, t: Status)
    ensures Equals(s, t, Verify(false, false, false, false))
  {
  }

  /** Narrowing the policy can only turn "changed" into "unchanged": equality
      under a policy implies equality under every policy it enables more than. */
  lemma EqualsNarrowing(s: Status, t: Status, wide: Verify, narrow: Verify)
    requires Enabled(narrow) <= Enabled(wide)
    requires Equals(s, t, wide)
    ensures Equals(s, t, narrow)
  {
    EqualsIffNoEnabledDifference(s, t, wide);
    EqualsIffNoEnabledDifference(s, t, narrow);
  }

  /** A status is valid exactly when at least one attribute was measured. */
  lemma ValidIff(s: Status)
    ensures Valid(s) <==> s.fsize != NoFsize || s.perms != NoPerms || s.mtime != NoMtime || s.check != NoCheck
    ensures Valid(s) <==> Differing(s, NoStatus()) != {}
  {
    EqualsIffNoEnabledDifference(s, NoStatus(), AllVerify());
  }

  /** NoStatus() is never valid. */
  lemma NoStatusInvalid()
    ensures !Valid(NoStatus())
  {
  }
}
