// The blocklist check of handle_connection: the file "blocklist" read with
// fgets into a 256-byte line buffer, each line cut at its first '\n', and
// compared with strcmp against the hostname and the resolved IP.

module Blocklist {
  import opened Wrappers
  import opened CStrings

  /** fgets(line, 256, f) stores at most 255 bytes of the file per call. */
  const LineMax: nat := 255

  /**
   * How many bytes one fgets call takes from s: up to and including the
   * first '\n', but no more than `budget` bytes and no more than s holds.
   */
  function LineLength(s: string, budget: nat): (n: nat)
    ensures n <= |s| && n <= budget
    ensures s != [] && budget > 0 ==> n > 0
    ensures forall i :: 0 <= i < n - 1 ==> s[i] != '\n'
    ensures n == |s| || n == budget || s[n - 1] == '\n'
    decreases |s|
  {
    if s == [] || budget == 0 then 0
    else if s[0] == '\n' then 1
    else 1 + LineLength(s[1..], budget - 1)
  }

  /** The successive buffers fgets returns for a file, up to end of file. */
  function Chunks(file: string): (r: seq<string>)
    ensures forall i :: 0 <= i < |r| ==> 0 < |r[i]| <= LineMax
    decreases |file|
  {
    if file == [] then []
    else
      var n := LineLength(file, LineMax);
      [file[..n]] + Chunks(file[n..])
  }

  /**
   * The line strcmp sees after line[strcspn(line, "\n")] = '\0': the buffer
   * up to its first '\n' or its first NUL.
   */
  function Trim(chunk: string): (r: string)
    ensures |r| <= |chunk| && r == chunk[..|r|]
    ensures '\n' !in r && NUL !in r
    ensures |r| < |chunk| ==> chunk[|r|] == '\n' || chunk[|r|] == NUL
    decreases |chunk|
  {
    if chunk == [] || chunk[0] == '\n' || chunk[0] == NUL then []
    else [chunk[0]] + Trim(chunk[1..])
  }

  /** The line blocks the request: strcmp(line, hostname) == 0 || strcmp(line, server_address) == 0. */
  predicate Matches(chunk: string, hostname: string, ip: string) {
    Trim(chunk) == hostname || Trim(chunk) == ip
  }

  /** The index of the first fgets line that blocks the request, if any. */
  function FirstMatch(lines: seq<string>, hostname: string, ip: string): (r: Option<nat>)
    ensures r.Some? ==> r.value < |lines| && Matches(lines[r.value], hostname, ip)
    ensures r.Some? ==> forall k :: 0 <= k < r.value ==> !Matches(lines[k], hostname, ip)
    ensures r.None? ==> forall k :: 0 <= k < |lines| ==> !Matches(lines[k], hostname, ip)
    decreases |lines|
  {
    if lines == [] then None
    else if Matches(lines[0], hostname, ip) then Some(0)
    else match FirstMatch(lines[1..], hostname, ip)
      case Some(k) => Some(k + 1)
      case None => None
  }

  /** The request is blocked by the file's contents: some line fgets returns matches it. */
  predicate Blocked(file: string, hostname: string, ip: string): (b: bool)
    ensures b <==> exists i :: 0 <= i < |Chunks(file)| && Matches(Chunks(file)[i], hostname, ip)
  {
    FirstMatchFound(Chunks(file), hostname, ip);
    assert FirstMatch(Chunks(file), hostname, ip).Some? <==> exists i :: 0 <= i < |Chunks(file)| && Matches(Chunks(file)[i], hostname, ip);
    FirstMatch(Chunks(file), hostname, ip).Some?
  }

  /** There is a first matching line exactly when some line matches. */
  lemma FirstMatchFound(lines: seq<string>, hostname: string, ip: string)
    ensures FirstMatch(lines, hostname, ip).Some? <==> exists i :: 0 <= i < |lines| && Matches(lines[i], hostname, ip)
  {
    var m := FirstMatch(lines, hostname, ip);
    if m.Some? {
      assert Matches(lines[m.value], hostname, ip);
    }
  }

  /** A match index counted from `offset` lines further on. */
  function Shift(m: Option<nat>, offset: nat): Option<nat> {
    match m
    case Some(j) => Some(offset + j)
    case None => None
  }

  /**
   * The while (fgets(...)) loop: reads the file a line at a time and stops
   * at the first line that blocks the request, returning its index.
   */
  method ScanBlocklist(file: string, hostname: string, ip: string) returns (hit: Option<nat>)
    ensures hit == FirstMatch(Chunks(file), hostname, ip)
  {
    var rest := file;
    var i := 0;
    while rest != []
      invariant FirstMatch(Chunks(file), hostname, ip) == Shift(FirstMatch(Chunks(rest), hostname, ip), i)
      decreases |rest|
    {
      var n := LineLength(rest, LineMax);
      var line := rest[..n];
      ScanStep(rest, hostname, ip);
      if Matches(line, hostname, ip) {
        return Some(i);
      }
      ShiftTwice(FirstMatch(Chunks(rest[n..]), hostname, ip), 1, i);
      rest := rest[n..];
      i := i + 1;
    }
    assert Chunks(rest) == [];
    return None;
  }

  lemma ShiftTwice(m: Option<nat>, a: nat, b: nat)
    ensures Shift(Shift(m, a), b) == Shift(m, a + b)
  {
  }

  /**
   * One fgets call on what is left of the file: the line read either is
   * the first match, or the first match is the one after it.
   */
  lemma ScanStep(rest: string, hostname: string, ip: string)
    requires rest != []
    ensures var n := LineLength(rest, LineMax);
      FirstMatch(Chunks(rest), hostname, ip)
      == if Matches(rest[..n], hostname, ip) then Some(0) else Shift(FirstMatch(Chunks(rest[n..]), hostname, ip), 1)
  {
    var n := LineLength(rest, LineMax);
    FirstMatchCons(rest[..n], Chunks(rest[n..]), hostname, ip);
  }

  /** The first match in a line followed by more lines: that line, or the first match after it. */
  lemma FirstMatchCons(line: string, rest: seq<string>, hostname: string, ip: string)
    ensures FirstMatch([line] + rest, hostname, ip)
         == if Matches(line, hostname, ip) then Some(0) else Shift(FirstMatch(rest, hostname, ip), 1)
  {
    assert ([line] + rest)[1..] == rest;
  }

  /** Lines that do not block the request only shift the first match. */
  lemma {:induction false} FirstMatchAfter(done: seq<string>, rest: seq<string>, hostname: string, ip: string)
    requires forall k :: 0 <= k < |done| ==> !Matches(done[k], hostname, ip)
    ensures FirstMatch(done + rest, hostname, ip) == Shift(FirstMatch(rest, hostname, ip), |done|)
    decreases |done|
  {
    if done != [] {
      assert (done + rest)[1..] == done[1..] + rest;
      FirstMatchAfter(done[1..], rest, hostname, ip);
    } else {
      assert done + rest == rest;
    }
  }

  // ---- a blocklist file of whole lines ----

  /** A blocklist entry that fgets reads in one call, newline included. */
  predicate IsEntry(e: string) {
    |e| < LineMax && '\n' !in e && NUL !in e
  }

  /** The file holding the entries, one per line. */
  function FileOf(entries: seq<string>): string
    decreases |entries|
  {
    if entries == [] then [] else entries[0] + "\n" + FileOf(entries[1..])
  }

  lemma {:induction false} LineLengthOf(e: string, rest: string, budget: nat)
    requires '\n' !in e && |e| < budget
    ensures LineLength(e + "\n" + rest, budget) == |e| + 1
    decreases |e|
  {
    if e != [] {
      assert (e + "\n" + rest)[1..] == e[1..] + "\n" + rest;
      LineLengthOf(e[1..], rest, budget - 1);
    }
  }

  lemma {:induction false} TrimEntry(e: string)
    requires '\n' !in e && NUL !in e
    ensures Trim(e + "\n") == e
    decreases |e|
  {
    if e != [] {
      assert (e + "\n")[1..] == e[1..] + "\n";
      TrimEntry(e[1..]);
    }
  }

  /** A last line with no newline is read whole by one fgets call. */
  lemma {:induction false} LineLengthAll(e: string, budget: nat)
    requires '\n' !in e && |e| <= budget
    ensures LineLength(e, budget) == |e|
    decreases |e|
  {
    if e != [] {
      LineLengthAll(e[1..], budget - 1);
    }
  }

  /** The entries of a file of whole lines followed by a last line with no newline. */
  function Listed(entries: seq<string>, last: string): seq<string> {
    if last == [] then entries else entries + [last]
  }

  /**
   * fgets returns the entries back, one per call, each with its newline,
   * and then reads what follows them as it would on its own.
   */
  lemma {:induction false} ChunksOfFile(entries: seq<string>, rest: string)
    requires forall i :: 0 <= i < |entries| ==> IsEntry(entries[i])
    ensures var lines := Chunks(FileOf(entries) + rest);
      && |lines| == |entries| + |Chunks(rest)|
      && (forall i :: 0 <= i < |entries| ==> lines[i] == entries[i] + "\n")
      && lines[|entries|..] == Chunks(rest)
    decreases |entries|
  {
    if entries == [] {
      assert FileOf(entries) + rest == rest;
    } else {
      var e := entries[0];
      var r := FileOf(entries[1..]) + rest;
      var file := FileOf(entries) + rest;
      assert file == e + "\n" + r;
      LineLengthOf(e, r, LineMax);
      assert file[..|e| + 1] == e + "\n";
      assert file[|e| + 1..] == r;
      ChunksOfFile(entries[1..], rest);
      var lines := Chunks(file);
      assert lines == [e + "\n"] + Chunks(r);
      assert lines[|entries|..] == Chunks(r)[|entries| - 1..];
    }
  }

  /** A non-empty last line with no newline is one fgets line, compared as it stands. */
  lemma LastLine(last: string)
    requires IsEntry(last) && last != []
    ensures Chunks(last) == [last] && Trim(last) == last
  {
    LineLengthAll(last, LineMax);
    assert last[..|last|] == last;
    assert Chunks(last[|last|..]) == [];
  }

  /**
   * For a file of entries (each shorter than 255 bytes), one per line, the
   * last one with or without its newline, the request is blocked exactly
   * when the hostname or the IP is one of the entries, compared exactly and
   * case-sensitively.
   */
  lemma BlockedIffListed(entries: seq<string>, last: string, hostname: string, ip: string)
    requires forall i :: 0 <= i < |entries| ==> IsEntry(entries[i])
    requires IsEntry(last)
    ensures var listed := Listed(entries, last);
      Blocked(FileOf(entries) + last, hostname, ip) <==> hostname in listed || ip in listed
  {
    LinesOfFile(entries, last);
    MatchesListed(Chunks(FileOf(entries) + last), Listed(entries, last), hostname, ip);
  }

  /** Cut at their newlines, the lines fgets returns are the entries. */
  lemma LinesOfFile(entries: seq<string>, last: string)
    requires forall i :: 0 <= i < |entries| ==> IsEntry(entries[i])
    requires IsEntry(last)
    ensures var lines := Chunks(FileOf(entries) + last);
      var listed := Listed(entries, last);
      |lines| == |listed| && forall i :: 0 <= i < |listed| ==> Trim(lines[i]) == listed[i]
  {
    var listed := Listed(entries, last);
    var lines := Chunks(FileOf(entries) + last);
    ChunksOfFile(entries, last);
    if last != [] {
      LastLine(last);
      assert lines[|entries|] == last;
    } else {
      assert Chunks(last) == [];
    }
    forall i | 0 <= i < |listed| ensures Trim(lines[i]) == listed[i] {
      if i < |entries| {
        TrimEntry(entries[i]);
      }
    }
  }

  /** Some line matches exactly when the hostname or the IP is one of the trimmed lines. */
  lemma MatchesListed(lines: seq<string>, listed: seq<string>, hostname: string, ip: string)
    requires |lines| == |listed| && forall i :: 0 <= i < |listed| ==> Trim(lines[i]) == listed[i]
    ensures (exists i :: 0 <= i < |lines| && Matches(lines[i], hostname, ip)) <==> hostname in listed || ip in listed
  {
    if hostname in listed || ip in listed {
      var i :| 0 <= i < |listed| && (listed[i] == hostname || listed[i] == ip);
      assert Matches(lines[i], hostname, ip);
    }
  }

  /**
   * A line of 255 bytes or more is not read whole: its first 255 bytes are
   * one fgets line, and reading goes on from the byte after them, so the
   * rest of the line is cut into further lines of its own.
   */
  lemma LongLineSplits(head: string, tail: string)
    requires |head| == LineMax && '\n' !in head
    ensures Chunks(head + tail) == [head] + Chunks(tail)
  {
    var s := head + tail;
    assert s[..LineMax] == head;
    assert s[LineMax..] == tail;
  }
}
