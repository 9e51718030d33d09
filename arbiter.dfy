/** `save_result` and the `password_found` flag: how the first worker to
    find the password claims the result file. The POSIX build creates the
    file only when it is absent (`O_CREAT | O_EXCL`); the Windows build
    opens it with `fopen(..., "w")`, which truncates whatever is there. */
module Arbiter {
  import opened ResultRecord

  datatype Platform = Posix | Windows

  /** The shared state: the flag and the content of the result file, if the
      file exists. */
  datatype Slot = Slot(found: bool, file: Option<string>)

  /** Before the workers start the result file is removed and the flag
      cleared. */
  const Fresh: Slot := Slot(false, None)

  /** The flag is set only after a record has been written. */
  predicate Consistent(st: Slot)
  {
    st.found ==> st.file.Some?
  }

  /** One call of `save_result(id, password)`, where `sawFound` is the value
      of the flag the caller read at its check. Between threads that read can
      be stale: it may be false although the flag has been set since. */
  function Claim(platform: Platform, st: Slot, sawFound: bool, id: int, password: string): (r: Slot)
  {
    if sawFound then st
    else match platform
      case Posix => if st.file.None? then Slot(true, Some(Format(id, password))) else st
      case Windows => Slot(true, Some(Format(id, password)))
  }

  /** A call as one thread makes it. */
  datatype Call = Call(sawFound: bool, id: int, password: string)

  /** The calls applied one after the other, in the order their writes
      happen. */
  function Run(platform: Platform, st: Slot, calls: seq<Call>): (r: Slot)
  {
    if |calls| == 0 then st
    else
      var c := calls[|calls| - 1];
      Claim(platform, Run(platform, st, calls[..|calls| - 1]), c.sawFound, c.id, c.password)
  }

  /** The calls that read the flag as clear, as far as their records go. */
  function Unseen(calls: seq<Call>): (r: seq<string>)
    ensures |r| <= |calls|
  {
    if |calls| == 0 then []
    else
      var c := calls[|calls| - 1];
      Unseen(calls[..|calls| - 1]) + if c.sawFound then [] else [Format(c.id, c.password)]
  }

  /** The shared flag and file as one object, as the threads see them. */
  class SharedState {
    var found: bool
    var file: Option<string>

    /** `remove(RESULT_FILE); password_found = 0;` */
    constructor()
      ensures found == false && file == None
    {
      found := false;
      file := None;
    }

    function Snapshot(): Slot
      reads this
    {
      Slot(found, file)
    }

    /** `save_result`: returns at once when the flag is set; otherwise
        writes the record (on POSIX only if the file is absent) and sets the
        flag after a successful write. */
    method SaveResult(platform: Platform, id: int, password: string)
      modifies this
      ensures Snapshot() == Claim(platform, old(Snapshot()), old(found), id, password)
    {
      if found {
        return;
      }
      match platform {
        case Posix =>
          if file.None? {
            file := Some(Format(id, password));
            found := true;
          }
        case Windows =>
          file := Some(Format(id, password));
          found := true;
      }
    }
  }

  // ---------------------------------------------------------------------
  // Properties
  // ---------------------------------------------------------------------

  /** Every call keeps the flag behind the write. */
  lemma ClaimConsistent(platform: Platform, st: Slot, sawFound: bool, id: int, password: string)
    requires Consistent(st)
    ensures Consistent(Claim(platform, st, sawFound, id, password))
    ensures st.found ==> Claim(platform, st, sawFound, id, password).found
  {
  }

  lemma {:induction false} RunConsistent(platform: Platform, st: Slot, calls: seq<Call>)
    requires Consistent(st)
    ensures Consistent(Run(platform, st, calls))
  {
    if |calls| > 0 {
      RunConsistent(platform, st, calls[..|calls| - 1]);
    }
  }

  /** On POSIX a written record never changes, however stale the flag the
      later callers read. */
  lemma {:induction false} PosixRecordStable(st: Slot, calls: seq<Call>)
    requires st.file.Some?
    ensures Run(Posix, st, calls).file == st.file
  {
    if |calls| > 0 {
      PosixRecordStable(st, calls[..|calls| - 1]);
    }
  }

  /** On POSIX the first call wins: it reads the flag clear (nobody can have
      set it yet) and its record is the one left in the file. */
  lemma {:induction false} PosixFirstClaimWins(calls: seq<Call>)
    requires |calls| > 0 && !calls[0].sawFound
    ensures Run(Posix, Fresh, calls).file == Some(Format(calls[0].id, calls[0].password))
    ensures Run(Posix, Fresh, calls).found
  {
    if |calls| == 1 {
      assert calls[..0] == [];
    } else {
      PosixFirstClaimWins(calls[..|calls| - 1]);
      assert calls[..|calls| - 1][0] == calls[0];
    }
  }

  /** On Windows every caller that read the flag clear writes, and the last
      of them wins; with no such caller the file is never created. */
  lemma {:induction false} WindowsLastUnseenWins(calls: seq<Call>)
    ensures Unseen(calls) == [] ==> Run(Windows, Fresh, calls) == Fresh
    ensures Unseen(calls) != [] ==>
      Run(Windows, Fresh, calls) == Slot(true, Some(Unseen(calls)[|Unseen(calls)| - 1]))
  {
    if |calls| > 0 {
      WindowsLastUnseenWins(calls[..|calls| - 1]);
    }
  }

  /** Two workers that both read the flag clear: on POSIX the first record
      stays, on Windows the second overwrites it. */
  lemma StaleFlagRace(id1: int, pw1: string, id2: int, pw2: string)
    ensures Run(Posix, Fresh, [Call(false, id1, pw1), Call(false, id2, pw2)]).file == Some(Format(id1, pw1))
    ensures Run(Windows, Fresh, [Call(false, id1, pw1), Call(false, id2, pw2)]).file == Some(Format(id2, pw2))
  {
    var calls := [Call(false, id1, pw1), Call(false, id2, pw2)];
    PosixFirstClaimWins(calls);
    WindowsLastUnseenWins(calls);
    assert calls[..1] == [Call(false, id1, pw1)];
    assert calls[..1][..0] == [];
    assert Unseen(calls) == [Format(id1, pw1), Format(id2, pw2)];
  }
}
