/** The search loop of one worker thread (`worker_thread`): hash the current
    password, compare with the target, test for the end of the range, step
    to the next password. */
module Worker {
  import opened Keyspace
  import opened ByteOrder
  import opened ResultRecord
  import opened Arbiter

  /** The fixed size of the password buffers: ten symbols and the
      terminator. */
  const PasswordBuffer: nat := 11

  /** How many successful steps pass between two polls of the flag. */
  const PollInterval: nat := 10000

  /** What a worker thread is handed (`WorkerData`). */
  datatype WorkerData = WorkerData(
    targetHash: string,
    startPassword: string,
    endPassword: string,
    charset: string,
    passwordLen: nat,
    workerId: int)

  /** The first index from `k` to `e` whose password hashes to `target`. */
  function FirstMatch(cs: seq<char>, len: nat, k: nat, e: nat, target: string, digest: string -> string): (r: Option<nat>)
    requires |cs| > 0
    ensures r.Some? ==> k <= r.value <= e && digest(Decode(cs, len, r.value)) == target
    decreases e + 1 - k
  {
    if k > e then None
    else if digest(Decode(cs, len, k)) == target then Some(k)
    else FirstMatch(cs, len, k + 1, e, target, digest)
  }

  /** No index from `k` up to the reported one, or up to `e` when none is
      reported, matches. */
  lemma {:induction false} FirstMatchIsFirst(cs: seq<char>, len: nat, k: nat, e: nat, target: string, digest: string -> string, j: nat)
    requires |cs| > 0 && k <= j <= e
    requires FirstMatch(cs, len, k, e, target, digest).None? || j < FirstMatch(cs, len, k, e, target, digest).value
    ensures digest(Decode(cs, len, j)) != target
    decreases e + 1 - k
  {
    if j > k {
      FirstMatchIsFirst(cs, len, k + 1, e, target, digest, j);
    }
  }

  /** A match at `k` is the first match from `k`. */
  lemma FirstMatchHere(cs: seq<char>, len: nat, k: nat, e: nat, target: string, digest: string -> string)
    requires |cs| > 0 && k <= e && digest(Decode(cs, len, k)) == target
    ensures FirstMatch(cs, len, k, e, target, digest) == Some(k)
  {
  }

  /** Without a match at `k` the search from `k` is the search from `k + 1`. */
  lemma FirstMatchNext(cs: seq<char>, len: nat, k: nat, e: nat, target: string, digest: string -> string)
    requires |cs| > 0 && k <= e && digest(Decode(cs, len, k)) != target
    ensures FirstMatch(cs, len, k, e, target, digest) == FirstMatch(cs, len, k + 1, e, target, digest)
  {
  }

  /** The search from `s` reports `r` when no index from `s` up to `r`
      matches and `r` either matches or lies past `e`. */
  lemma {:induction false} FirstMatchSkip(cs: seq<char>, len: nat, s: nat, e: nat, target: string, digest: string -> string, r: nat)
    requires |cs| > 0 && s <= r <= e + 1
    requires forall j :: s <= j < r ==> digest(Decode(cs, len, j)) != target
    requires r <= e ==> digest(Decode(cs, len, r)) == target
    ensures FirstMatch(cs, len, s, e, target, digest) == if r <= e then Some(r) else None
    decreases r - s
  {
    if s < r {
      FirstMatchSkip(cs, len, s + 1, e, target, digest, r);
    }
  }

  /** A search over `[s, e]` inside `[0, E]`, when nothing before `s`
      matches, finds the first match of `[0, E]` if it lies in `[s, e]`, and
      nothing otherwise. */
  lemma FirstMatchWindow(cs: seq<char>, len: nat, s: nat, e: nat, bound: nat, target: string, digest: string -> string)
    requires |cs| > 0 && s <= e <= bound
    requires FirstMatch(cs, len, 0, bound, target, digest).None? || FirstMatch(cs, len, 0, bound, target, digest).value >= s
    ensures FirstMatch(cs, len, s, e, target, digest) ==
      var m := FirstMatch(cs, len, 0, bound, target, digest);
      if m.Some? && m.value <= e then m else None
  {
    var m := FirstMatch(cs, len, 0, bound, target, digest);
    var r := if m.Some? && m.value <= e then m.value else e + 1;
    forall j | s <= j < r
      ensures digest(Decode(cs, len, j)) != target
    {
      FirstMatchIsFirst(cs, len, 0, bound, target, digest, j);
    }
    FirstMatchSkip(cs, len, s, e, target, digest, r);
  }

  /** `strcpy(dst, src)` for a source that fits: the symbols and the
      terminator. */
  method StrCpy(dst: array<char>, src: string)
    requires |src| < dst.Length
    modifies dst
    ensures dst[..|src|] == src && dst[|src|] == Nul
    ensures dst[|src| + 1..] == old(dst[|src| + 1..])
  {
    var i := 0;
    while i < |src|
      invariant 0 <= i <= |src| && dst[..i] == src[..i]
      invariant dst[i..] == old(dst[i..])
    {
      dst[i] := src[i];
      i := i + 1;
    }
    dst[i] := Nul;
  }

  /** `increment_password` on a password of the keyspace that is not the
      last: it advances to the next index. */
  method NextPassword(current: array<char>, cs: seq<char>, len: nat, ghost k: nat) returns (advanced: bool)
    requires |cs| > 0 && Distinct(cs) && len <= current.Length
    requires k + 1 < Pow(|cs|, len) && current[..len] == Decode(cs, len, k)
    modifies current
    ensures advanced && current[..len] == Decode(cs, len, k + 1)
    ensures current[len..] == old(current[len..])
  {
    IncrementDecode(cs, len, k);
    advanced := IncrementPassword(current, cs, len);
  }

  /** The C string the password buffer holds, as `md5_string` and `%s`
      read it: up to the terminator after the `len` symbols. */
  method CString(current: array<char>, cs: seq<char>, len: nat) returns (password: string)
    requires Nul !in cs && len < current.Length && current[len] == Nul && Over(cs, current[..len])
    ensures password == current[..len]
  {
    OverExcludes(cs, current[..len], Nul);
    TerminatedAt(current[..], len);
    password := Terminated(current[..]);
  }

  /** The end of one turn of the loop as written: stop once `strcmp(current,
      end) >= 0`, otherwise step to the next password; stop too if the step
      reports no progress. Over an ascending charset it stops exactly at the
      end index. */
  method EndOrStep(current: array<char>, wd: WorkerData, ghost k: nat, ghost e: nat) returns (stop: bool)
    requires |wd.charset| > 0 && Ascending(wd.charset) && Nul !in wd.charset
    requires wd.passwordLen < PasswordBuffer && wd.passwordLen < current.Length
    requires k <= e < Pow(|wd.charset|, wd.passwordLen)
    requires wd.endPassword == Decode(wd.charset, wd.passwordLen, e)
    requires current[..wd.passwordLen] == Decode(wd.charset, wd.passwordLen, k) && current[wd.passwordLen] == Nul
    modifies current
    ensures stop <==> k == e
    ensures stop ==> current[..] == old(current[..])
    ensures !stop ==> current[..wd.passwordLen] == Decode(wd.charset, wd.passwordLen, k + 1)
    ensures current[wd.passwordLen..] == old(current[wd.passwordLen..])
  {
    OverExcludes(wd.charset, current[..wd.passwordLen], Nul);
    TerminatedAt(current[..], wd.passwordLen);
    EndTestAscending(wd.charset, wd.passwordLen, k, e);
    if StrCmp(Terminated(current[..]), wd.endPassword) >= 0 {
      return true;
    }
    var advanced := NextPassword(current, wd.charset, wd.passwordLen, k);
    return !advanced;
  }

  /** The end of one turn of the loop with the end test by equality,
      `strcmp(current, end) == 0`: over distinct symbols it stops exactly at
      the end index. */
  method EndOrStepFixed(current: array<char>, wd: WorkerData, ghost k: nat, ghost e: nat) returns (stop: bool)
    requires |wd.charset| > 0 && Distinct(wd.charset) && Nul !in wd.charset
    requires wd.passwordLen < PasswordBuffer && wd.passwordLen < current.Length
    requires k <= e < Pow(|wd.charset|, wd.passwordLen)
    requires wd.endPassword == Decode(wd.charset, wd.passwordLen, e)
    requires current[..wd.passwordLen] == Decode(wd.charset, wd.passwordLen, k) && current[wd.passwordLen] == Nul
    modifies current
    ensures stop <==> k == e
    ensures stop ==> current[..] == old(current[..])
    ensures !stop ==> current[..wd.passwordLen] == Decode(wd.charset, wd.passwordLen, k + 1)
    ensures current[wd.passwordLen..] == old(current[wd.passwordLen..])
  {
    OverExcludes(wd.charset, current[..wd.passwordLen], Nul);
    TerminatedAt(current[..], wd.passwordLen);
    DecodeInjective(wd.charset, wd.passwordLen, k, e);
    if StrCmp(Terminated(current[..]), wd.endPassword) == 0 {
      return true;
    }
    var advanced := NextPassword(current, wd.charset, wd.passwordLen, k);
    return !advanced;
  }

  /** `worker_thread` as written: the range ends once `strcmp(current, end)
      >= 0`. Over a charset in ascending byte order it hashes the passwords
      of indices `s` to `e` in order and stops at the first match, which it
      saves; it counts the successful steps. If the flag is already set it
      does nothing. Other threads run before or after it, not during it. */
  method WorkerThread(wd: WorkerData, platform: Platform, digest: string -> string, shared: SharedState,
                      ghost s: nat, ghost e: nat) returns (checked: int)
    requires |wd.charset| > 0 && Ascending(wd.charset) && Nul !in wd.charset && wd.passwordLen < PasswordBuffer
    requires s <= e < Pow(|wd.charset|, wd.passwordLen)
    requires wd.startPassword == Decode(wd.charset, wd.passwordLen, s)
    requires wd.endPassword == Decode(wd.charset, wd.passwordLen, e)
    modifies shared
    ensures old(shared.found) ==> checked == 0 && shared.Snapshot() == old(shared.Snapshot())
    ensures !old(shared.found) ==>
      match FirstMatch(wd.charset, wd.passwordLen, s, e, wd.targetHash, digest)
      case Some(k) => checked == k - s && shared.Snapshot() ==
        Claim(platform, old(shared.Snapshot()), false, wd.workerId, Decode(wd.charset, wd.passwordLen, k))
      case None => checked == e - s && shared.Snapshot() == old(shared.Snapshot())
  {
    var cs, len := wd.charset, wd.passwordLen;
    var current := new char[PasswordBuffer];
    StrCpy(current, wd.startPassword);
    checked := 0;
    ghost var k := s;
    while !shared.found
      invariant s <= k <= e && checked == k - s
      invariant current[..len] == Decode(cs, len, k) && current[len] == Nul
      invariant FirstMatch(cs, len, k, e, wd.targetHash, digest) == FirstMatch(cs, len, s, e, wd.targetHash, digest)
      invariant shared.Snapshot() == old(shared.Snapshot())
      invariant old(shared.found) ==> k == s
      decreases e - k
    {
      var password := CString(current, cs, len);
      var hash := digest(password);
      if hash == wd.targetHash {
        FirstMatchHere(cs, len, k, e, wd.targetHash, digest);
        shared.SaveResult(platform, wd.workerId, password);
        break;
      }
      FirstMatchNext(cs, len, k, e, wd.targetHash, digest);
      var stop := EndOrStep(current, wd, k, e);
      if stop {
        break;
      }
      checked := checked + 1;
      k := k + 1;
      if checked % PollInterval == 0 && shared.found {
        break;
      }
    }
  }

  /** `worker_thread` with the end test by equality, `strcmp(current, end)
      == 0`: for any charset of distinct symbols it hashes the passwords of
      indices `s` to `e` in order and stops at the first match, which it
      saves. */
  method WorkerThreadFixed(wd: WorkerData, platform: Platform, digest: string -> string, shared: SharedState,
                           ghost s: nat, ghost e: nat) returns (checked: int)
    requires |wd.charset| > 0 && Distinct(wd.charset) && Nul !in wd.charset && wd.passwordLen < PasswordBuffer
    requires s <= e < Pow(|wd.charset|, wd.passwordLen)
    requires wd.startPassword == Decode(wd.charset, wd.passwordLen, s)
    requires wd.endPassword == Decode(wd.charset, wd.passwordLen, e)
    modifies shared
    ensures old(shared.found) ==> checked == 0 && shared.Snapshot() == old(shared.Snapshot())
    ensures !old(shared.found) ==>
      match FirstMatch(wd.charset, wd.passwordLen, s, e, wd.targetHash, digest)
      case Some(k) => checked == k - s && shared.Snapshot() ==
        Claim(platform, old(shared.Snapshot()), false, wd.workerId, Decode(wd.charset, wd.passwordLen, k))
      case None => checked == e - s && shared.Snapshot() == old(shared.Snapshot())
  {
    var cs, len := wd.charset, wd.passwordLen;
    var current := new char[PasswordBuffer];
    StrCpy(current, wd.startPassword);
    checked := 0;
    ghost var k := s;
    while !shared.found
      invariant s <= k <= e && checked == k - s
      invariant current[..len] == Decode(cs, len, k) && current[len] == Nul
      invariant FirstMatch(cs, len, k, e, wd.targetHash, digest) == FirstMatch(cs, len, s, e, wd.targetHash, digest)
      invariant shared.Snapshot() == old(shared.Snapshot())
      invariant old(shared.found) ==> k == s
      decreases e - k
    {
      var password := CString(current, cs, len);
      var hash := digest(password);
      if hash == wd.targetHash {
        FirstMatchHere(cs, len, k, e, wd.targetHash, digest);
        shared.SaveResult(platform, wd.workerId, password);
        break;
      }
      FirstMatchNext(cs, len, k, e, wd.targetHash, digest);
      var stop := EndOrStepFixed(current, wd, k, e);
      if stop {
        break;
      }
      checked := checked + 1;
      k := k + 1;
      if checked % PollInterval == 0 && shared.found {
        break;
      }
    }
  }
}
