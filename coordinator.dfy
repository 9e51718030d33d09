/** The coordinator (`main` of both builds): validate the arguments, divide
    the keyspace among the workers, start them (child processes running
    `./worker` in one build, threads running `worker_thread` in the other),
    wait for them, and report what the result file says. */
module Coordinator {
  import opened Keyspace
  import opened ByteOrder
  import opened Partition
  import opened ResultRecord
  import opened Arbiter
  import opened Worker

  const MaxWorkers: nat := 16
  const MaxPasswordLen: nat := 10

  /** The sizes of the `target_hash` and `charset` fields of a thread's
      `WorkerData`. */
  const HashBuffer: nat := 33
  const CharsetBuffer: nat := 256

  // ---------------------------------------------------------------------
  // Arguments
  // ---------------------------------------------------------------------

  /** Command-line arguments are C strings: none holds a terminator. */
  predicate CArgs(argv: seq<string>)
  {
    forall i :: 0 <= i < |argv| ==> Nul !in argv[i]
  }

  datatype Reason =
    | WrongArgCount
    | BadPasswordLength
    | BadWorkerCount
    | EmptyCharset
    | SpaceTooLarge
    | HashTooLong
    | CharsetTooLong
    | RepeatedSymbol
    | NewlineInCharset

  datatype Config = Config(targetHash: string, passwordLen: nat, charset: string, numWorkers: nat)

  /** The verdict on the arguments; every rejection exits with status 1. */
  datatype Validation = Rejected(reason: Reason) | Accepted(config: Config)

  /** What the rest of `main` relies on: a non-empty charset, a password that
      fits the 11-byte password buffers, and a worker count that fits the
      16-entry tables. */
  predicate Sane(cfg: Config)
  {
    |cfg.charset| > 0 && 1 <= cfg.passwordLen < PasswordBuffer && 1 <= cfg.numWorkers <= MaxWorkers
  }

  /** The keyspace size fits a `long long`. */
  predicate Searchable(cfg: Config)
  {
    Sane(cfg) && Pow(|cfg.charset|, cfg.passwordLen) <= Int64Max
  }

  /** The copies into the thread's fixed buffers fit, every password has
      one index, and a password read back from the result file is whole. */
  predicate Runnable(cfg: Config)
  {
    Searchable(cfg) && |cfg.targetHash| < HashBuffer && |cfg.charset| < CharsetBuffer
    && Distinct(cfg.charset) && '\n' !in cfg.charset
  }

  /** The checks `main` makes, in its order: five arguments, a password length
      from 1 to 10, a worker count from 1 to 16, a non-empty charset. The
      numbers are read with `atoi`. */
  function Validate(argv: seq<string>): (r: Validation)
    ensures r.Accepted? ==> Sane(r.config) && Pow(|r.config.charset|, r.config.passwordLen) >= 1
    ensures r.Accepted? ==> |argv| == 5 && r.config.targetHash == argv[1] && r.config.charset == argv[3]
    ensures r.Accepted? ==> r.config.passwordLen == Atoi(argv[2]) && r.config.numWorkers == Atoi(argv[4])
    ensures r.Rejected? <==>
      |argv| != 5 || !(1 <= Atoi(argv[2]) <= MaxPasswordLen as int) || !(1 <= Atoi(argv[4]) <= MaxWorkers as int)
      || |argv[3]| == 0
  {
    if |argv| != 5 then Rejected(WrongArgCount)
    else
      var len := Atoi(argv[2]);
      var n := Atoi(argv[4]);
      if len < 1 || len > MaxPasswordLen as int then Rejected(BadPasswordLength)
      else if n < 1 || n > MaxWorkers as int then Rejected(BadWorkerCount)
      else if |argv[3]| == 0 then Rejected(EmptyCharset)
      else Accepted(Config(argv[1], len as nat, argv[3], n as nat))
  }

  /** `Validate` followed by the check the size computation needs: it accepts
      exactly the configurations `Validate` accepts whose keyspace fits a
      `long long`. */
  function ValidateSpace(argv: seq<string>): (r: Validation)
    ensures r.Accepted? ==> Searchable(r.config) && r == Validate(argv)
    ensures Validate(argv).Accepted? && Searchable(Validate(argv).config) ==> r == Validate(argv)
  {
    match Validate(argv)
    case Rejected(why) => Rejected(why)
    case Accepted(cfg) =>
      if Pow(|cfg.charset|, cfg.passwordLen) > Int64Max then Rejected(SpaceTooLarge) else Accepted(cfg)
  }

  /** `ValidateSpace` followed by the checks the thread build needs: it
      accepts exactly the configurations `Validate` accepts that are
      runnable. */
  function ValidateChecked(argv: seq<string>): (r: Validation)
    ensures r.Accepted? ==> Runnable(r.config) && r == Validate(argv)
    ensures Validate(argv).Accepted? && Runnable(Validate(argv).config) ==> r == Validate(argv)
  {
    match ValidateSpace(argv)
    case Rejected(why) => Rejected(why)
    case Accepted(cfg) =>
      if |cfg.targetHash| >= HashBuffer then Rejected(HashTooLong)
      else if |cfg.charset| >= CharsetBuffer then Rejected(CharsetTooLong)
      else if !Distinct(cfg.charset) then Rejected(RepeatedSymbol)
      else if '\n' in cfg.charset then Rejected(NewlineInCharset)
      else Accepted(cfg)
  }

  // ---------------------------------------------------------------------
  // What the original checks let through
  // ---------------------------------------------------------------------

  /** The 95 printable ASCII symbols, space to tilde. */
  const Printable: string := seq(95, i requires 0 <= i < 95 => (32 + i) as char)

  /** The hash of the usage example. */
  const ExampleHash: string := "900150983cd24fb0d6963f7d28e17f72"

  /** Ten positions over the printable symbols pass the checks, yet
      95^10 does not fit a `long long`, so `calculate_search_space`
      overflows. */
  lemma ValidateAdmitsOverflow()
    ensures Validate(["coordinator", ExampleHash, "10", Printable, "4"]).Accepted?
    ensures Pow(|Printable|, 10) > Int64Max
    ensures ValidateSpace(["coordinator", ExampleHash, "10", Printable, "4"]) == Rejected(SpaceTooLarge)
  {
    assert DigitRun("10") == 2;
    assert "10"[..2] == "10";
    assert Value("10") == 10;
    assert DigitRun("4") == 1;
    assert "4"[..1] == "4";
  }

  /** A 256-symbol charset, or a hash of 33 characters, passes the checks,
      yet `strcpy` into the 256-byte `charset` or the 33-byte `target_hash`
      field writes one byte past its end. */
  lemma ValidateAdmitsLongArguments()
    ensures Validate(["coordinator", ExampleHash, "1", Repeat('a', 256), "1"]).Accepted?
    ensures |Repeat('a', 256)| >= CharsetBuffer
    ensures ValidateChecked(["coordinator", ExampleHash, "1", Repeat('a', 256), "1"]) == Rejected(CharsetTooLong)
    ensures Validate(["coordinator", ExampleHash + "0", "1", "abc", "1"]).Accepted?
    ensures |ExampleHash + "0"| >= HashBuffer
    ensures ValidateChecked(["coordinator", ExampleHash + "0", "1", "abc", "1"]) == Rejected(HashTooLong)
  {
    assert DigitRun("1") == 1;
    assert "1"[..1] == "1";
  }

  /** The charset "aab", which repeats a symbol, passes the checks. */
  lemma ValidateAdmitsRepeatedSymbol()
    ensures Validate(["coordinator", ExampleHash, "1", "aab", "1"]).Accepted?
    ensures ValidateChecked(["coordinator", ExampleHash, "1", "aab", "1"]) == Rejected(RepeatedSymbol)
  {
    var argv := ["coordinator", ExampleHash, "1", "aab", "1"];
    var cfg := Config(ExampleHash, 1, "aab", 1);
    assert DigitRun("1") == 1;
    assert "1"[..1] == "1";
    assert Validate(argv) == Accepted(cfg);
    assert Pow(3, 1) == 3;
    assert ValidateSpace(argv) == Accepted(cfg);
    assert !Distinct("aab") by {
      assert "aab"[0] == "aab"[1];
    }
  }

  /** Over "aab", index 0 is "a", and the step from "a" bumps the first 'a'
      to the second, which is 'a' again: the password does not change, the
      step reports progress, and "a" stays below the end password "b" of
      index 2, so a worker over "aab" that does not match "a" loops
      forever. */
  lemma DuplicateSymbolStalls()
    ensures Decode("aab", 1, 0) == "a" && Decode("aab", 1, 2) == "b"
    ensures Increment("aab", "a") == "a" && Advances("aab", "a")
    ensures StrCmp("a", "b") < 0
  {
    assert Find("aab", 'a') == 0;
    SnocBump("aab", [], 'a');
    assert [] + ['a'] == "a" && "aab"[1] == 'a';
    assert StrCmp("a", "b") == CompareSymbol('a', 'b');
  }

  // ---------------------------------------------------------------------
  // Division of the keyspace
  // ---------------------------------------------------------------------

  /** The range arithmetic of the spawn loop in `long long`: start index,
      number of passwords and end index of worker `i`, none of which
      overflows. */
  method WorkerRange(ghost total: nat, n: nat, perWorker: int64, remaining: int64, i: nat)
    returns (startIndex: int64, count: int64, endIndex: int64)
    requires 0 < n <= MaxWorkers && i < n && total <= Int64Max
    requires perWorker as int == total / n && remaining as int == total % n
    ensures startIndex as int == Start(total, n, i)
    ensures count as int == Size(total, n, i)
    ensures endIndex as int == End(total, n, i)
  {
    Bounds(total, n);
    Contiguous(total, n, i);
    StartMonotone(total, n, i + 1, n);
    ghost var q := total / n;
    MulMonotone(0, i, q);
    assert i * q == i * perWorker as int;
    assert 0 <= i * q <= Start(total, n, i);
    startIndex := i as int64 * perWorker;
    if (i as int64) < remaining {
      startIndex := startIndex + i as int64;
    } else {
      startIndex := startIndex + remaining;
    }
    count := perWorker;
    if (i as int64) < remaining {
      count := count + 1;
    }
    endIndex := startIndex + count - 1;
  }

  /** The data worker `i` is handed: the target, the passwords of its first
      and last index, the charset, the length and its number. */
  function Planned(cfg: Config, i: nat): WorkerData
    requires Sane(cfg) && i < cfg.numWorkers
  {
    var total := Pow(|cfg.charset|, cfg.passwordLen);
    EndNonNegative(total, cfg.numWorkers, i);
    WorkerData(
      cfg.targetHash,
      Decode(cfg.charset, cfg.passwordLen, Start(total, cfg.numWorkers, i)),
      Decode(cfg.charset, cfg.passwordLen, End(total, cfg.numWorkers, i)),
      cfg.charset,
      cfg.passwordLen,
      i)
  }

  /** One turn of the loop of the thread build that fills `workers_data`:
      the range of worker `i`, the copies of the target and the charset into
      their fields, and the two calls of `index_to_password`. */
  method FillWorker(cfg: Config, total: int64, perWorker: int64, remaining: int64, i: nat) returns (wd: WorkerData)
    requires Sane(cfg) && |cfg.targetHash| < HashBuffer && |cfg.charset| < CharsetBuffer && i < cfg.numWorkers
    requires total as int == Pow(|cfg.charset|, cfg.passwordLen)
    requires perWorker as int == total as int / cfg.numWorkers && remaining as int == total as int % cfg.numWorkers
    ensures wd == Planned(cfg, i)
  {
    var cs, len := cfg.charset, cfg.passwordLen;
    var startIndex, count, endIndex := WorkerRange(total as int, cfg.numWorkers, perWorker, remaining, i);
    EndNonNegative(total as int, cfg.numWorkers, i);
    var hash := new char[HashBuffer];
    StrCpy(hash, cfg.targetHash);
    var charset := new char[CharsetBuffer];
    StrCpy(charset, cs);
    var startPassword := new char[PasswordBuffer];
    IndexToPassword(startIndex as int, cs, len, startPassword);
    var endPassword := new char[PasswordBuffer];
    IndexToPassword(endIndex as int, cs, len, endPassword);
    wd := WorkerData(hash[..|cfg.targetHash|], startPassword[..len], endPassword[..len], charset[..|cs|], len, i);
  }

  /** The loop of the thread build that fills `workers_data`, one entry per
      worker, in `long long` arithmetic. */
  method PlanWorkers(cfg: Config, total: int64) returns (workers: array<WorkerData>)
    requires Sane(cfg) && |cfg.targetHash| < HashBuffer && |cfg.charset| < CharsetBuffer
    requires total as int == Pow(|cfg.charset|, cfg.passwordLen)
    ensures fresh(workers) && workers.Length == MaxWorkers
    ensures forall i :: 0 <= i < cfg.numWorkers ==> workers[i] == Planned(cfg, i)
  {
    var n := cfg.numWorkers;
    workers := new WorkerData[MaxWorkers](_ => WorkerData("", "", "", "", 0, 0));
    var perWorker := total / n as int64;
    var remaining := total % n as int64;
    var i := 0;
    while i < n
      invariant 0 <= i <= n
      invariant forall j :: 0 <= j < i ==> workers[j] == Planned(cfg, j)
    {
      var wd := FillWorker(cfg, total, perWorker, remaining, i);
      workers[i] := wd;
      i := i + 1;
    }
  }

  // ---------------------------------------------------------------------
  // The report
  // ---------------------------------------------------------------------

  /** What `main` prints at the end: the password was not found (no result
      file), the file holds no readable record, or a record with the hash of
      its password checked against the target. */
  datatype Outcome = NotFound | Unreported | Found(workerId: int, password: string, verified: bool)

  /** The reading of the result file: `fgets` of one line, the colon, `atoi`
      of the id, the password up to the newline, and its hash compared with
      the target. */
  function Report(file: Option<string>, target: string, digest: string -> string): (r: Outcome)
    ensures file.None? <==> r == NotFound
    ensures r.Found? ==> r.verified == (digest(r.password) == target)
    ensures file.Some? ==>
      (r == Unreported <==> FirstLine(file.value).None? || Parse(FirstLine(file.value).value).None?)
  {
    match file
    case None => NotFound
    case Some(content) =>
      match FirstLine(content)
      case None => Unreported
      case Some(line) =>
        match Parse(line)
        case None => Unreported
        case Some(rec) => Found(rec.workerId, rec.password, digest(rec.password) == target)
  }

  /** A first line without a colon reports neither a password nor its
      absence. */
  lemma ReportNoColon(content: string, target: string, digest: string -> string)
    requires FirstLine(content).Some? && ':' !in FirstLine(content).value
    ensures Report(Some(content), target, digest) == Unreported
  {
    var line := FirstLine(content).value;
    var z := Find(line, Nul);
    assert Terminated(line) == if z >= 0 then line[..z] else line;
    assert forall i :: 0 <= i < |Terminated(line)| ==> Terminated(line)[i] == line[i];
    FindFirst(Terminated(line), ':');
  }

  /** A worker number has at most two digits. */
  lemma ShortId(id: nat)
    requires id < MaxWorkers
    ensures |FormatInt(id)| <= 2
  {
    if id >= 10 {
      assert Digits(id) == Digits(id / 10) + [DigitChar(id % 10)];
    }
  }

  /** The record a worker writes is read back whole: its worker number, its
      password, and whether that password hashes to the target. */
  lemma ReportRecord(id: nat, password: string, target: string, digest: string -> string)
    requires id < MaxWorkers && |password| <= MaxPasswordLen
    requires '\n' !in password && Nul !in password
    ensures Report(Some(Format(id, password)), target, digest) == Found(id, password, digest(password) == target)
  {
    ShortId(id);
    FirstLineFormat(id, password);
    ParseFormat(id, password);
  }

  // ---------------------------------------------------------------------
  // The thread build, end to end
  // ---------------------------------------------------------------------

  /** The first index of the keyspace whose password hashes to the target. */
  function FirstInKeyspace(cfg: Config, digest: string -> string): Option<nat>
    requires Sane(cfg)
  {
    FirstMatch(cfg.charset, cfg.passwordLen, 0, Pow(|cfg.charset|, cfg.passwordLen) - 1, cfg.targetHash, digest)
  }

  /** What the search is meant to report: the first password of the keyspace
      that hashes to the target, found by the worker whose range holds it
      and verified; or that there is none. */
  function Search(cfg: Config, digest: string -> string): Outcome
    requires Sane(cfg)
  {
    match FirstInKeyspace(cfg, digest)
    case None => NotFound
    case Some(k) =>
      Found(Covered(Pow(|cfg.charset|, cfg.passwordLen), cfg.numWorkers, k), Decode(cfg.charset, cfg.passwordLen, k), true)
  }

  /** The search reports a password exactly when some password of the
      keyspace hashes to the target; the one it reports does, and its worker
      is one of the workers. */
  lemma SearchComplete(cfg: Config, digest: string -> string)
    requires Sane(cfg)
    ensures Search(cfg, digest).Found? <==>
      exists k :: 0 <= k < Pow(|cfg.charset|, cfg.passwordLen)
        && digest(Decode(cfg.charset, cfg.passwordLen, k)) == cfg.targetHash
    ensures Search(cfg, digest).Found? ==>
      digest(Search(cfg, digest).password) == cfg.targetHash && 0 <= Search(cfg, digest).workerId < cfg.numWorkers
  {
    var cs, len := cfg.charset, cfg.passwordLen;
    var t := Pow(|cs|, len);
    var m := FirstInKeyspace(cfg, digest);
    if m.None? {
      forall k | 0 <= k < t
        ensures digest(Decode(cs, len, k)) != cfg.targetHash
      {
        FirstMatchIsFirst(cs, len, 0, t - 1, cfg.targetHash, digest, k);
      }
    } else {
      assert 0 <= m.value < t && digest(Decode(cs, len, m.value)) == cfg.targetHash;
    }
  }

  /** Over distinct symbols the reported password comes first in index order
      among those that hash to the target. */
  lemma SearchFirst(cfg: Config, digest: string -> string, j: nat)
    requires Sane(cfg) && Distinct(cfg.charset) && j < Pow(|cfg.charset|, cfg.passwordLen)
    requires digest(Decode(cfg.charset, cfg.passwordLen, j)) == cfg.targetHash
    ensures Search(cfg, digest).Found?
    ensures IndexOf(cfg.charset, Search(cfg, digest).password) <= j
  {
    var cs, len := cfg.charset, cfg.passwordLen;
    var t := Pow(|cs|, len);
    var m := FirstInKeyspace(cfg, digest);
    if m.None? || j < m.value {
      FirstMatchIsFirst(cs, len, 0, t - 1, cfg.targetHash, digest, j);
    }
    IndexOfDecode(cs, len, m.value);
  }

  /** The shared flag and file once the workers whose ranges lie below index
      `bound` have run: the first match's record if it lies below `bound`,
      the fresh state otherwise. */
  function Progress(cfg: Config, digest: string -> string, bound: nat): Slot
    requires Sane(cfg)
  {
    match FirstInKeyspace(cfg, digest)
    case Some(k) =>
      if k < bound then
        Slot(true, Some(Format(Covered(Pow(|cfg.charset|, cfg.passwordLen), cfg.numWorkers, k), Decode(cfg.charset, cfg.passwordLen, k))))
      else Fresh
    case None => Fresh
  }

  /** The range worker `i` searches: its own, or the whole keyspace when its
      own is empty, since it is then handed the first and the last password
      (index `total` wraps around to index 0). */
  lemma WorkerBounds(cfg: Config, i: nat) returns (s: nat, e: nat)
    requires Sane(cfg) && i < cfg.numWorkers
    ensures s <= e < Pow(|cfg.charset|, cfg.passwordLen)
    ensures Planned(cfg, i).startPassword == Decode(cfg.charset, cfg.passwordLen, s)
    ensures Planned(cfg, i).endPassword == Decode(cfg.charset, cfg.passwordLen, e)
    ensures var t, n := Pow(|cfg.charset|, cfg.passwordLen), cfg.numWorkers;
      if Size(t, n, i) == 0 then s == 0 && e == t - 1 else s == Start(t, n, i) && e == End(t, n, i)
  {
    var cs, len, n := cfg.charset, cfg.passwordLen, cfg.numWorkers;
    var t := Pow(|cs|, len);
    EndNonNegative(t, n, i);
    s, e := Start(t, n, i), End(t, n, i);
    if Size(t, n, i) == 0 {
      EmptyRange(t, n, i);
      DecodeWraps(cs, len);
      s, e := 0, t - 1;
    }
  }

  /** Once the first match lies below the start of worker `i`, it lies below
      the start of worker `i + 1` too. */
  lemma StepFound(cfg: Config, digest: string -> string, i: nat)
    requires Sane(cfg) && i < cfg.numWorkers
    requires var t := Pow(|cfg.charset|, cfg.passwordLen);
      Progress(cfg, digest, Start(t, cfg.numWorkers, i)).found
    ensures var t := Pow(|cfg.charset|, cfg.passwordLen);
      Progress(cfg, digest, Start(t, cfg.numWorkers, i + 1)) == Progress(cfg, digest, Start(t, cfg.numWorkers, i))
  {
    Contiguous(Pow(|cfg.charset|, cfg.passwordLen), cfg.numWorkers, i);
  }

  /** A worker with an empty range that starts with the flag clear searches
      the whole keyspace and finds nothing: no password of it matches. */
  lemma StepEmpty(cfg: Config, digest: string -> string, i: nat)
    requires Sane(cfg) && i < cfg.numWorkers
    requires var t := Pow(|cfg.charset|, cfg.passwordLen);
      Size(t, cfg.numWorkers, i) == 0 && !Progress(cfg, digest, Start(t, cfg.numWorkers, i)).found
    ensures FirstInKeyspace(cfg, digest).None?
    ensures var t := Pow(|cfg.charset|, cfg.passwordLen);
      Progress(cfg, digest, Start(t, cfg.numWorkers, i + 1)) == Fresh
  {
    var t := Pow(|cfg.charset|, cfg.passwordLen);
    Contiguous(t, cfg.numWorkers, i);
    EmptyRange(t, cfg.numWorkers, i);
  }

  /** A worker with a non-empty range that starts with the flag clear finds
      the first match of the keyspace if it lies in its range, and nothing
      otherwise; its record is the progress after it. */
  lemma StepRange(cfg: Config, digest: string -> string, platform: Platform, i: nat)
    requires Sane(cfg) && i < cfg.numWorkers
    requires var t := Pow(|cfg.charset|, cfg.passwordLen);
      Size(t, cfg.numWorkers, i) > 0 && !Progress(cfg, digest, Start(t, cfg.numWorkers, i)).found
    ensures var t, n := Pow(|cfg.charset|, cfg.passwordLen), cfg.numWorkers;
      var after := Progress(cfg, digest, Start(t, n, i + 1));
      match FirstMatch(cfg.charset, cfg.passwordLen, Start(t, n, i), End(t, n, i), cfg.targetHash, digest)
      case Some(k) => after == Claim(platform, Fresh, false, i, Decode(cfg.charset, cfg.passwordLen, k))
      case None => after == Fresh
  {
    var cs, len, n := cfg.charset, cfg.passwordLen, cfg.numWorkers;
    var t := Pow(|cs|, len);
    var m := FirstInKeyspace(cfg, digest);
    Contiguous(t, n, i);
    EndNonNegative(t, n, i);
    FirstMatchWindow(cs, len, Start(t, n, i), End(t, n, i), t - 1, cfg.targetHash, digest);
    if m.Some? && m.value <= End(t, n, i) {
      Disjoint(t, n, i, Covered(t, n, m.value), m.value);
    }
  }

  /** What the run of worker `i` over the range it searches does to the
      shared state: nothing once the first match lies below its start;
      otherwise its first match, if any, is the first match of the keyspace,
      and its record takes the state to the progress after worker `i`. */
  lemma WorkerStep(cfg: Config, digest: string -> string, platform: Platform, i: nat, s: nat, e: nat)
    requires Sane(cfg) && i < cfg.numWorkers
    requires var t, n := Pow(|cfg.charset|, cfg.passwordLen), cfg.numWorkers;
      if Size(t, n, i) == 0 then s == 0 && e == t - 1 else s == Start(t, n, i) && e == End(t, n, i)
    ensures var t, n := Pow(|cfg.charset|, cfg.passwordLen), cfg.numWorkers;
      var before := Progress(cfg, digest, Start(t, n, i));
      var after := Progress(cfg, digest, Start(t, n, i + 1));
      if before.found then after == before
      else match FirstMatch(cfg.charset, cfg.passwordLen, s, e, cfg.targetHash, digest)
        case Some(k) => after == Claim(platform, before, false, i, Decode(cfg.charset, cfg.passwordLen, k))
        case None => after == before
  {
    var t, n := Pow(|cfg.charset|, cfg.passwordLen), cfg.numWorkers;
    var before := Progress(cfg, digest, Start(t, n, i));
    if before.found {
      StepFound(cfg, digest, i);
    } else {
      assert before == Fresh;
      if Size(t, n, i) == 0 {
        StepEmpty(cfg, digest, i);
      } else {
        StepRange(cfg, digest, platform, i);
      }
    }
  }

  /** One thread of the thread build, from its start to its join, while no
      other thread runs: `worker_thread` on the planned data of worker `i`,
      as written (`fixed` false, over a charset in ascending byte order) or
      with the end test by equality (`fixed` true, over distinct
      symbols). */
  method RunWorker(cfg: Config, platform: Platform, digest: string -> string, shared: SharedState,
                   wd: WorkerData, i: nat, fixed: bool)
    requires Sane(cfg) && Nul !in cfg.charset && i < cfg.numWorkers && wd == Planned(cfg, i)
    requires if fixed then Distinct(cfg.charset) else Ascending(cfg.charset)
    requires shared.Snapshot() == Progress(cfg, digest, Start(Pow(|cfg.charset|, cfg.passwordLen), cfg.numWorkers, i))
    modifies shared
    ensures shared.Snapshot() == Progress(cfg, digest, Start(Pow(|cfg.charset|, cfg.passwordLen), cfg.numWorkers, i + 1))
  {
    ghost var s, e := WorkerBounds(cfg, i);
    WorkerStep(cfg, digest, platform, i, s, e);
    var checked;
    if fixed {
      checked := WorkerThreadFixed(wd, platform, digest, shared, s, e);
    } else {
      checked := WorkerThread(wd, platform, digest, shared, s, e);
    }
  }

  /** The thread build after its checks: size the keyspace, fill the worker
      table, clear the flag and the file, run the threads one after another
      in worker order, and read the result file. It reports the first
      password of the keyspace that hashes to the target, with the worker
      whose range holds it, or that there is none. */
  method SearchThreads(cfg: Config, platform: Platform, digest: string -> string, fixed: bool) returns (outcome: Outcome)
    requires Searchable(cfg) && |cfg.targetHash| < HashBuffer && |cfg.charset| < CharsetBuffer
    requires Nul !in cfg.charset && '\n' !in cfg.charset
    requires if fixed then Distinct(cfg.charset) else Ascending(cfg.charset)
    ensures outcome == Search(cfg, digest)
  {
    var n := cfg.numWorkers;
    var total := CalculateSearchSpace(|cfg.charset|, cfg.passwordLen);
    var shared := new SharedState();
    var workers := PlanWorkers(cfg, total);
    Bounds(total as int, n);
    var i := 0;
    while i < n
      invariant 0 <= i <= n
      invariant forall j :: 0 <= j < n ==> workers[j] == Planned(cfg, j)
      invariant shared.Snapshot() == Progress(cfg, digest, Start(total as int, n, i))
    {
      RunWorker(cfg, platform, digest, shared, workers[i], i, fixed);
      i := i + 1;
    }
    var m := FirstInKeyspace(cfg, digest);
    if m.Some? {
      var pw := Decode(cfg.charset, cfg.passwordLen, m.value);
      OverExcludes(cfg.charset, pw, '\n');
      OverExcludes(cfg.charset, pw, Nul);
      ReportRecord(Covered(total as int, n, m.value), pw, cfg.targetHash, digest);
    }
    outcome := Report(shared.file, cfg.targetHash, digest);
  }

  /** The configurations on which the thread build as written is defined and
      its end test agrees with index order: the keyspace size fits a
      `long long`, the `strcpy` copies fit their fields, the charset is in
      ascending byte order, and a password read back from the result file is
      whole. */
  predicate AsWritten(cfg: Config)
  {
    Searchable(cfg) && |cfg.targetHash| < HashBuffer && |cfg.charset| < CharsetBuffer
    && Ascending(cfg.charset) && '\n' !in cfg.charset
  }

  /** `main` of the thread build as written, its threads run one after
      another in worker order: it exits with 1 on bad arguments, and
      otherwise reports the first password of the keyspace that hashes to the
      target, with the worker that found it, or that there is none. */
  method RunThreads(argv: seq<string>, platform: Platform, digest: string -> string) returns (exitCode: int, outcome: Option<Outcome>)
    requires CArgs(argv)
    requires Validate(argv).Accepted? ==> AsWritten(Validate(argv).config)
    ensures Validate(argv).Rejected? ==> exitCode == 1 && outcome == None
    ensures Validate(argv).Accepted? ==> exitCode == 0 && outcome == Some(Search(Validate(argv).config, digest))
  {
    var v := Validate(argv);
    if v.Rejected? {
      return 1, None;
    }
    var found := SearchThreads(v.config, platform, digest, false);
    return 0, Some(found);
  }

  /** `main` of the thread build with the corrected checks and the end test
      by equality: it also rejects the arguments the original checks let
      through, and otherwise reports as `RunThreads` does, for any charset
      of distinct symbols. */
  method RunThreadsChecked(argv: seq<string>, platform: Platform, digest: string -> string) returns (exitCode: int, outcome: Option<Outcome>)
    requires CArgs(argv)
    ensures ValidateChecked(argv).Rejected? ==> exitCode == 1 && outcome == None
    ensures ValidateChecked(argv).Accepted? ==> exitCode == 0 && outcome == Some(Search(ValidateChecked(argv).config, digest))
  {
    var v := ValidateChecked(argv);
    if v.Rejected? {
      return 1, None;
    }
    var found := SearchThreads(v.config, platform, digest, true);
    return 0, Some(found);
  }

  // ---------------------------------------------------------------------
  // The process build: spawn, wait, identify
  // ---------------------------------------------------------------------

  /** The command line child `i` runs, `execl("./worker", "worker", ...)`:
      the target, the first and the last password of its range, the charset,
      and the length and its number written with `%d`. */
  function WorkerArgv(cfg: Config, i: nat): seq<string>
    requires Sane(cfg) && i < cfg.numWorkers
  {
    var wd := Planned(cfg, i);
    ["worker", cfg.targetHash, wd.startPassword, wd.endPassword, cfg.charset, FormatInt(cfg.passwordLen), FormatInt(i)]
  }

  /** One turn of the spawn loop before the `fork`: the range of worker `i`,
      its two passwords from `index_to_password`, and the command line its
      child will run. */
  method LaunchArgv(cfg: Config, total: int64, perWorker: int64, remaining: int64, i: nat) returns (args: seq<string>)
    requires Searchable(cfg) && i < cfg.numWorkers
    requires total as int == Pow(|cfg.charset|, cfg.passwordLen)
    requires perWorker as int == total as int / cfg.numWorkers && remaining as int == total as int % cfg.numWorkers
    ensures args == WorkerArgv(cfg, i)
  {
    var cs, len := cfg.charset, cfg.passwordLen;
    var startIndex, count, endIndex := WorkerRange(total as int, cfg.numWorkers, perWorker, remaining, i);
    EndNonNegative(total as int, cfg.numWorkers, i);
    var startPassword := new char[PasswordBuffer];
    IndexToPassword(startIndex as int, cs, len, startPassword);
    var endPassword := new char[PasswordBuffer];
    IndexToPassword(endIndex as int, cs, len, endPassword);
    args := ["worker", cfg.targetHash, startPassword[..len], endPassword[..len], cs, FormatInt(len), FormatInt(i)];
  }

  /** The spawn loop of the process build. `fork(i)` is what the `i`-th
      `fork` returns to the parent: a child's PID, or -1 on failure, where
      `main` exits with 1. The children started before that run the command
      lines of their workers, and their PIDs are stored in order. */
  method SpawnWorkers(cfg: Config, total: int64, fork: nat -> int) returns (workers: array<int>, children: seq<seq<string>>)
    requires Searchable(cfg) && total as int == Pow(|cfg.charset|, cfg.passwordLen)
    ensures fresh(workers) && workers.Length == MaxWorkers
    ensures |children| <= cfg.numWorkers
    ensures forall i :: 0 <= i < |children| ==> fork(i) != -1 && workers[i] == fork(i) && children[i] == WorkerArgv(cfg, i)
    ensures |children| < cfg.numWorkers ==> fork(|children|) == -1
  {
    var n := cfg.numWorkers;
    workers := new int[MaxWorkers];
    var perWorker := total / n as int64;
    var remaining := total % n as int64;
    children := [];
    var i := 0;
    while i < n
      invariant 0 <= i <= n && |children| == i
      invariant forall j :: 0 <= j < i ==> fork(j) != -1 && workers[j] == fork(j) && children[j] == WorkerArgv(cfg, j)
    {
      var args := LaunchArgv(cfg, total, perWorker, remaining, i);
      var pid := fork(i);
      if pid == -1 {
        return;
      }
      children := children + [args];
      workers[i] := pid;
      i := i + 1;
    }
  }

  /** The first position of `pid` among `pids`, or -1. */
  function PidIndex(pids: seq<int>, pid: int): (r: int)
    ensures -1 <= r < |pids|
  {
    if |pids| == 0 then -1
    else if pids[0] == pid then 0
    else
      var t := PidIndex(pids[1..], pid);
      if t < 0 then -1 else t + 1
  }

  /** `PidIndex` is -1 exactly for an unknown PID, and otherwise the first
      position holding it. */
  lemma {:induction false} PidIndexFirst(pids: seq<int>, pid: int)
    ensures PidIndex(pids, pid) == -1 <==> pid !in pids
    ensures PidIndex(pids, pid) >= 0 ==> pids[PidIndex(pids, pid)] == pid && pid !in pids[..PidIndex(pids, pid)]
  {
    if |pids| > 0 && pids[0] != pid {
      var t := PidIndex(pids[1..], pid);
      PidIndexFirst(pids[1..], pid);
      assert pids == [pids[0]] + pids[1..];
      if t >= 0 {
        assert pids[..t + 1] == [pids[0]] + pids[1..][..t];
      }
    }
  }

  /** The lookup in the wait loop: the number of the worker whose stored PID
      is `pid`, or -1. */
  method FindWorker(workers: array<int>, n: nat, pid: int) returns (id: int)
    requires n <= workers.Length
    ensures id == PidIndex(workers[..n], pid)
  {
    var j := 0;
    while j < n
      invariant 0 <= j <= n && pid !in workers[..j]
    {
      if workers[j] == pid {
        var pids := workers[..n];
        PidIndexFirst(pids, pid);
        var p := PidIndex(pids, pid);
        assert pids[j] == pid;
        assert forall q :: 0 <= q < j ==> pids[q] == workers[..j][q];
        assert forall q :: 0 <= q < p ==> pids[q] == pids[..p][q];
        return j;
      }
      assert workers[..j + 1] == workers[..j] + [workers[j]];
      j := j + 1;
    }
    assert workers[..j] == workers[..n];
    PidIndexFirst(workers[..n], pid);
    return -1;
  }

  /** The worker numbers the wait loop reports, one per successful wait, in
      order; a failed wait (-1) reports nothing. */
  function Identified(pids: seq<int>, waits: seq<int>): (ids: seq<int>)
    ensures |ids| == |waits| - multiset(waits)[-1]
  {
    if |waits| == 0 then []
    else
      var w := waits[|waits| - 1];
      assert waits == waits[..|waits| - 1] + [w];
      Identified(pids, waits[..|waits| - 1]) + if w == -1 then [] else [PidIndex(pids, w)]
  }

  /** Without failed waits every wait is counted, and a wait that returns a
      stored PID is reported with a worker number. */
  lemma {:induction false} IdentifiedAll(pids: seq<int>, waits: seq<int>)
    ensures -1 !in waits ==> |Identified(pids, waits)| == |waits|
    ensures (forall t :: 0 <= t < |waits| ==> waits[t] == -1 || waits[t] in pids) ==>
      forall t :: 0 <= t < |Identified(pids, waits)| ==> 0 <= Identified(pids, waits)[t] < |pids|
  {
    if |waits| > 0 {
      var init := waits[..|waits| - 1];
      var w := waits[|waits| - 1];
      IdentifiedAll(pids, init);
      assert -1 !in waits ==> -1 !in init;
      assert forall t :: 0 <= t < |init| ==> init[t] == waits[t];
      PidIndexFirst(pids, w);
    }
  }

  /** The wait loop of the process build: one `wait` per worker, where
      `waits` holds what the waits return. It counts the successful waits and
      identifies the worker of each. */
  method WaitAll(workers: array<int>, n: nat, waits: seq<int>) returns (finished: nat, ids: seq<int>)
    requires n <= workers.Length && |waits| == n
    ensures ids == Identified(workers[..n], waits) && finished == |ids|
  {
    finished := 0;
    ids := [];
    var i := 0;
    while i < n
      invariant 0 <= i <= n
      invariant ids == Identified(workers[..n], waits[..i]) && finished == |ids|
    {
      var finishedPid := waits[i];
      assert waits[..i + 1][..i] == waits[..i];
      if finishedPid != -1 {
        var id := FindWorker(workers, n, finishedPid);
        ids := ids + [id];
        finished := finished + 1;
      }
      i := i + 1;
    }
    assert waits[..n] == waits;
  }

  /** `main` of the process build with the size check added. `fork(i)` and
      `wait(i)` are what the `i`-th `fork` and `wait` return to the parent,
      and `resultFile` what the result file holds once the children are
      done. It exits with 1 on bad arguments or a failed `fork`; otherwise it
      starts one child per worker with its command line, counts and
      identifies the children as they end, and reports the result file. */
  method RunProcesses(argv: seq<string>, fork: nat -> int, wait: nat -> int, resultFile: Option<string>, digest: string -> string)
    returns (exitCode: int, children: seq<seq<string>>, ids: seq<int>, outcome: Option<Outcome>)
    ensures ValidateSpace(argv).Rejected? ==> exitCode == 1 && children == [] && outcome == None
    ensures ValidateSpace(argv).Accepted? ==>
      var cfg := ValidateSpace(argv).config;
      |children| <= cfg.numWorkers
      && (forall i :: 0 <= i < |children| ==> children[i] == WorkerArgv(cfg, i))
      && (|children| < cfg.numWorkers ==> fork(|children|) == -1 && exitCode == 1 && outcome == None)
      && (|children| == cfg.numWorkers ==>
            exitCode == 0
            && ids == Identified(seq(cfg.numWorkers, i requires 0 <= i => fork(i)), seq(cfg.numWorkers, i requires 0 <= i => wait(i)))
            && outcome == Some(Report(resultFile, cfg.targetHash, digest)))
  {
    ids := [];
    var v := ValidateSpace(argv);
    if v.Rejected? {
      return 1, [], [], None;
    }
    var cfg := v.config;
    var n := cfg.numWorkers;
    var total := CalculateSearchSpace(|cfg.charset|, cfg.passwordLen);
    var workers;
    workers, children := SpawnWorkers(cfg, total, fork);
    if |children| < n {
      return 1, children, [], None;
    }
    assert workers[..n] == seq(n, i requires 0 <= i => fork(i));
    var finished;
    finished, ids := WaitAll(workers, n, seq(n, i requires 0 <= i => wait(i)));
    outcome := Some(Report(resultFile, cfg.targetHash, digest));
    exitCode := 0;
  }
}
