/** The result record: the line `"<worker id>:<password>\n"` the finding
    worker writes, and how the coordinator reads it back (`fgets` into a
    256-byte buffer, `strchr` for the colon, `atoi` for the id, `strchr` for
    the newline). */
module ResultRecord {
  import opened Keyspace

  /** What the coordinator recovers from the record. */
  datatype Record = Record(workerId: int, password: string)

  datatype Option<T> = None | Some(value: T)

  /** The size of the coordinator's line buffer; `fgets` stores at most one
      less than this many characters. */
  const LineBuffer: nat := 256

  predicate IsDigit(c: char)
  {
    '0' <= c <= '9'
  }

  /** The characters `isspace` accepts in the C locale: space, and tab
      through carriage return. */
  predicate IsSpace(c: char)
  {
    c == ' ' || '\t' <= c <= '\r'
  }

  predicate AllDigits(s: string)
  {
    forall i :: 0 <= i < |s| ==> IsDigit(s[i])
  }

  function DigitChar(d: nat): (c: char)
    requires d < 10
    ensures IsDigit(c)
  {
    ('0' as int + d) as char
  }

  /** The value of a string of decimal digits. */
  function Value(s: string): (v: nat)
    requires AllDigits(s)
  {
    if |s| == 0 then 0 else Value(s[..|s| - 1]) * 10 + (s[|s| - 1] as int - '0' as int)
  }

  /** The decimal digits of `n`, without leading zeros. */
  function Digits(n: nat): (s: string)
    ensures |s| >= 1 && AllDigits(s)
  {
    if n < 10 then [DigitChar(n)] else Digits(n / 10) + [DigitChar(n % 10)]
  }

  /** `printf("%d")`: an optional minus sign and the digits. */
  function FormatInt(n: int): (s: string)
  {
    if n < 0 then "-" + Digits(-n) else Digits(n)
  }

  /** The number of leading decimal digits of `s`. */
  function DigitRun(s: string): (k: nat)
    ensures k <= |s| && AllDigits(s[..k])
  {
    if |s| > 0 && IsDigit(s[0]) then
      var k := 1 + DigitRun(s[1..]);
      assert s[..k] == [s[0]] + s[1..][..k - 1];
      k
    else 0
  }

  /** `atoi`: skips white space, reads an optional sign and then the longest
      run of digits; a string without digits reads as 0. */
  function Atoi(s: string): int
  {
    if |s| > 0 && IsSpace(s[0]) then Atoi(s[1..])
    else if |s| > 0 && (s[0] == '-' || s[0] == '+') then
      var t := s[1..];
      var v: int := Value(t[..DigitRun(t)]);
      if s[0] == '-' then -v else v
    else Value(s[..DigitRun(s)])
  }

  /** The C string a buffer holds: everything before its first terminator. */
  function Terminated(s: string): (r: string)
    ensures |r| <= |s|
  {
    var z := Find(s, Nul);
    if z >= 0 then s[..z] else s
  }

  /** The record `save_result` writes: `"%d:%s\n"`. */
  function Format(id: int, password: string): string
  {
    FormatInt(id) + ":" + password + "\n"
  }

  /** `fgets(line, 256, f)` on a file holding `content`: nothing at end of
      file, otherwise everything up to and including the first newline, at
      most 255 characters. */
  function FirstLine(content: string): (r: Option<string>)
    ensures r.Some? ==> |r.value| <= LineBuffer - 1
  {
    if |content| == 0 then None
    else
      var nl := Find(content, '\n');
      var cut := if nl >= 0 then nl + 1 else |content|;
      Some(content[..if cut <= LineBuffer - 1 then cut else LineBuffer - 1])
  }

  /** The coordinator's parse of a line: nothing without a colon; otherwise
      `atoi` of what precedes the first colon, and what follows it up to the
      first newline. */
  function Parse(buffer: string): Option<Record>
  {
    var line := Terminated(buffer);
    var colon := Find(line, ':');
    if colon < 0 then None
    else
      var rest := line[colon + 1..];
      var nl := Find(rest, '\n');
      Some(Record(Atoi(line[..colon]), if nl >= 0 then rest[..nl] else rest))
  }

  // ---------------------------------------------------------------------
  // Properties
  // ---------------------------------------------------------------------

  /** The digit run of a string of digits is all of it. */
  lemma {:induction false} DigitRunAll(s: string)
    requires AllDigits(s)
    ensures DigitRun(s) == |s|
  {
    if |s| > 0 {
      assert AllDigits(s[1..]);
      DigitRunAll(s[1..]);
    }
  }

  /** Reading the digits of `n` gives `n` back. */
  lemma {:induction false} ValueDigits(n: nat)
    ensures Value(Digits(n)) == n
  {
    if n >= 10 {
      var s := Digits(n);
      assert s[..|s| - 1] == Digits(n / 10);
      ValueDigits(n / 10);
    }
  }

  /** `atoi` reads back what `%d` wrote. */
  lemma AtoiFormatInt(n: int)
    ensures Atoi(FormatInt(n)) == n
  {
    if n < 0 {
      var d := Digits(-n);
      assert FormatInt(n)[1..] == d;
      DigitRunAll(d);
      assert d[..|d|] == d;
      ValueDigits(-n);
    } else {
      var d := Digits(n);
      DigitRunAll(d);
      assert d[..|d|] == d;
      ValueDigits(n);
    }
  }

  /** The text `%d` writes holds no colon, no newline and no terminator. */
  lemma FormatIntPlain(n: int)
    ensures ':' !in FormatInt(n) && '\n' !in FormatInt(n) && Nul !in FormatInt(n)
  {
    var s := FormatInt(n);
    assert forall i :: 0 <= i < |s| ==> s[i] == '-' || IsDigit(s[i]);
  }

  /** The first `x` in `a + [x] + b` is the one after `a` when `a` holds
      none. */
  lemma FindAfter(a: string, x: char, b: string)
    requires x !in a
    ensures Find(a + [x] + b, x) == |a|
  {
    var s := a + [x] + b;
    assert s[..|a|] == a && s[|a|] == x;
    FindUnique(s, x, |a|);
  }

  /** A buffer without a terminator is a C string as it is. */
  lemma NoTerminator(s: string)
    requires Nul !in s
    ensures Terminated(s) == s
  {
    FindFirst(s, Nul);
  }

  /** A buffer whose first terminator is at `len` holds the C string of its
      first `len` symbols. */
  lemma TerminatedAt(buf: string, len: nat)
    requires len < |buf| && buf[len] == Nul && Nul !in buf[..len]
    ensures Terminated(buf) == buf[..len]
  {
    assert buf == buf[..len] + [Nul] + buf[len + 1..];
    FindAfter(buf[..len], Nul, buf[len + 1..]);
  }

  /** The record is one line: `fgets` reads all of it when it fits. */
  lemma FirstLineFormat(id: int, password: string)
    requires '\n' !in password
    requires |Format(id, password)| <= LineBuffer - 1
    ensures FirstLine(Format(id, password)) == Some(Format(id, password))
  {
    var a := FormatInt(id) + ":" + password;
    FormatIntPlain(id);
    assert '\n' !in a;
    FindAfter(a, '\n', []);
    assert Format(id, password) == a + ['\n'] + [];
  }

  /** The coordinator reads back the worker id and the password the worker
      wrote, even when the password contains colons, provided the password
      holds no newline and no terminator. */
  lemma ParseFormat(id: int, password: string)
    requires '\n' !in password && Nul !in password
    ensures Parse(Format(id, password)) == Some(Record(id, password))
  {
    var d := FormatInt(id);
    var rest := password + "\n";
    var r := Format(id, password);
    FormatIntPlain(id);
    assert r == d + [':'] + rest;
    assert Nul !in r;
    NoTerminator(r);
    FindAfter(d, ':', rest);
    assert r[|d| + 1..] == rest && r[..|d|] == d;
    FindAfter(password, '\n', []);
    assert rest == password + ['\n'] + [];
    assert rest[..|password|] == password;
    AtoiFormatInt(id);
  }

  /** A newline inside the password ends it: the coordinator reads only what
      precedes the newline. */
  lemma NewlineCutsPassword(id: int, a: string, b: string)
    requires '\n' !in a && Nul !in a && Nul !in b
    ensures Parse(Format(id, a + "\n" + b)) == Some(Record(id, a))
  {
    var d := FormatInt(id);
    var rest := a + "\n" + b + "\n";
    var r := Format(id, a + "\n" + b);
    FormatIntPlain(id);
    assert r == d + [':'] + rest;
    assert Nul !in r;
    NoTerminator(r);
    FindAfter(d, ':', rest);
    assert r[|d| + 1..] == rest && r[..|d|] == d;
    FindAfter(a, '\n', b + "\n");
    assert rest == a + ['\n'] + (b + "\n");
    assert rest[..|a|] == a;
    AtoiFormatInt(id);
  }
}
