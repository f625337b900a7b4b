/** The successor scan and the sweep over a snapshot of the process table. */
module Scan {
  import opened Wrappers

  /** One directory of the process table: its name as a number if it is one, the raw
      command line if it can be read, and the target of the exe link. */
  datatype Entry = Entry(pid: Option<nat>, cmdline: Option<string>, exe: Option<string>)

  const NUL: char := '\0'
  const VALIDATE_FLAG := "--test-config"
  const VALIDATE_SHORT_FLAG := "-t"
  const DELETED := " (deleted)"

  function TrimSuffix(s: string, suffix: string): string {
    if |suffix| <= |s| && s[|s| - |suffix|..] == suffix then s[..|s| - |suffix|] else s
  }

  function Split(s: string): (parts: seq<string>)
    ensures parts != []
  {
    if s == [] then [""]
    else
      var rest := Split(s[1..]);
      if s[0] == NUL then [""] + rest else [[s[0]] + rest[0]] + rest[1..]
  }

  function ReadCmdline(e: Entry): Option<seq<string>> {
    if e.cmdline.None? || e.cmdline.value == "" then None
    else Some(Split(TrimSuffix(e.cmdline.value, [NUL])))
  }

  predicate RunsBinary(e: Entry, binary: string) {
    var argv := ReadCmdline(e);
    && argv.Some?
    && VALIDATE_FLAG !in argv.value && VALIDATE_SHORT_FLAG !in argv.value
    && ((e.exe.Some? && TrimSuffix(e.exe.value, DELETED) == binary)
        || binary in argv.value[..if 2 < |argv.value| then 2 else |argv.value|])
  }

  /** The kernel's rendering of an argument vector: every argument ends in a NUL. */
  function KernelCmdline(argv: seq<string>): string {
    if argv == [] then "" else argv[0] + [NUL] + KernelCmdline(argv[1..])
  }

  lemma {:induction false} SplitWord(word: string, rest: string)
    requires NUL !in word
    ensures Split(word) == [word]
    ensures Split(word + [NUL] + rest) == [word] + Split(rest)
  {
    if word == "" {
      assert word + [NUL] + rest == [NUL] + rest;
    } else {
      SplitWord(word[1..], rest);
      assert (word + [NUL] + rest)[1..] == word[1..] + [NUL] + rest;
      assert [word[0]] + word[1..] == word;
      assert [word] + [word[1..]][1..] == [word];
    }
  }

  lemma {:induction false} SplitKernelCmdline(argv: seq<string>)
    requires argv != [] && forall arg | arg in argv :: NUL !in arg
    ensures var text := KernelCmdline(argv); text != "" && text[|text| - 1] == NUL && Split(text[..|text| - 1]) == argv
  {
    var text := KernelCmdline(argv);
    if |argv| == 1 {
      assert text[..|text| - 1] == argv[0];
      SplitWord(argv[0], "");
    } else {
      SplitKernelCmdline(argv[1..]);
      var rest := KernelCmdline(argv[1..]);
      assert text[..|text| - 1] == argv[0] + [NUL] + rest[..|rest| - 1];
      SplitWord(argv[0], rest[..|rest| - 1]);
    }
  }

  lemma CmdlineReadsBack(e: Entry, argv: seq<string>)
    requires argv != [] && forall arg | arg in argv :: NUL !in arg
    requires e.cmdline == Some(KernelCmdline(argv))
    ensures ReadCmdline(e) == Some(argv)
  {
    SplitKernelCmdline(argv);
    var text := KernelCmdline(argv);
    assert text[|text| - 1..] == [NUL];
  }

  /** The entry shows this argument vector: its command line can be read, is not empty, and is
      the kernel's rendering of the vector, whose last NUL a process may have overwritten. */
  ghost predicate Shows(e: Entry, argv: seq<string>) {
    && e.cmdline.Some? && e.cmdline.value != ""
    && argv != [] && (forall arg | arg in argv :: NUL !in arg)
    && KernelCmdline(argv) == if e.cmdline.value[|e.cmdline.value| - 1] == NUL then e.cmdline.value else e.cmdline.value + [NUL]
  }

  lemma {:induction false} SplitReadsBack(s: string)
    ensures forall part | part in Split(s) :: NUL !in part
    ensures KernelCmdline(Split(s)) == s + [NUL]
  {
    if s != "" {
      SplitReadsBack(s[1..]);
      var rest := Split(s[1..]);
      if s[0] == NUL {
        assert ([""] + rest)[1..] == rest;
      } else {
        assert ([[s[0]] + rest[0]] + rest[1..])[1..] == rest[1..];
        assert KernelCmdline(rest) == rest[0] + [NUL] + KernelCmdline(rest[1..]);
        assert s + [NUL] == [s[0]] + (s[1..] + [NUL]);
      }
    }
  }

  /** Reading the command line gives the vector the entry shows, and nothing else. */
  lemma CmdlineReadsExactly(e: Entry, argv: seq<string>)
    ensures ReadCmdline(e) == Some(argv) <==> Shows(e, argv)
  {
    if e.cmdline.Some? && e.cmdline.value != "" {
      var text := e.cmdline.value;
      var trimmed := TrimSuffix(text, [NUL]);
      assert text[|text| - 1..] == [text[|text| - 1]];
      SplitReadsBack(trimmed);
      if Shows(e, argv) {
        SplitKernelCmdline(argv);
        assert KernelCmdline(argv)[..|KernelCmdline(argv)| - 1] == trimmed;
      }
    }
  }

  /** The vector belongs to a pooler and not to a validation run: it carries neither validation
      flag, and the binary is the one on the exe link, as it is or marked as replaced on disk,
      or one of the first two arguments. */
  ghost predicate PoolerCommand(exe: Option<string>, argv: seq<string>, binary: string)
    requires argv != []
  {
    && "--test-config" !in argv && "-t" !in argv
    && (|| exe == Some(binary + " (deleted)")
        || (exe == Some(binary) && TrimSuffix(binary, " (deleted)") == binary)
        || argv[0] == binary
        || (1 < |argv| && argv[1] == binary))
  }

  /** The process behind the entry runs the binary as a pooler. */
  ghost predicate RunsPooler(e: Entry, binary: string) {
    exists argv :: Shows(e, argv) && PoolerCommand(e.exe, argv, binary)
  }

  lemma TrimmedExactly(s: string, suffix: string, rest: string)
    requires suffix != ""
    ensures TrimSuffix(s, suffix) == rest <==> s == rest + suffix || (s == rest && TrimSuffix(rest, suffix) == rest)
  {
    assert (rest + suffix)[|rest|..] == suffix && (rest + suffix)[..|rest|] == rest;
    if TrimSuffix(s, suffix) != s {
      assert s == s[..|s| - |suffix|] + suffix;
    }
  }

  /** Main result: the scan takes an entry for a pooler exactly when it runs the binary as one.
      A shell, a validation run or a process whose command line cannot be read never counts. */
  lemma RunsBinaryExactly(e: Entry, binary: string)
    ensures RunsBinary(e, binary) <==> RunsPooler(e, binary)
  {
    if ReadCmdline(e).Some? {
      var argv := ReadCmdline(e).value;
      CmdlineReadsExactly(e, argv);
      CommandTold(e, argv, binary);
    }
    forall argv | Shows(e, argv) ensures ReadCmdline(e) == Some(argv) {
      CmdlineReadsExactly(e, argv);
    }
  }

  lemma CommandTold(e: Entry, argv: seq<string>, binary: string)
    requires ReadCmdline(e) == Some(argv) && argv != []
    ensures RunsBinary(e, binary) <==> PoolerCommand(e.exe, argv, binary)
  {
    if e.exe.Some? {
      TrimmedExactly(e.exe.value, DELETED, binary);
    }
    var firsts := argv[..if 2 < |argv| then 2 else |argv|];
    assert binary in firsts <==> argv[0] == binary || (1 < |argv| && argv[1] == binary) by {
      assert firsts[0] == argv[0];
      assert 1 < |argv| ==> firsts[1] == argv[1];
    }
  }

  /** For a process started with this vector: whether it counts depends on the vector and the
      exe link alone. */
  lemma PoolersAndValidatorsToldApart(e: Entry, argv: seq<string>, binary: string)
    requires argv != [] && forall arg | arg in argv :: NUL !in arg
    requires e.cmdline == Some(KernelCmdline(argv))
    ensures ReadCmdline(e) == Some(argv)
    ensures RunsBinary(e, binary) <==> PoolerCommand(e.exe, argv, binary)
  {
    CmdlineReadsBack(e, argv);
    CommandTold(e, argv, binary);
  }

  /** A process the scan may return or the sweep may kill: neither excluded nor the wrapper
      itself, and running the binary as a pooler. */
  ghost predicate Stray(e: Entry, pid: nat, binary: string, exclude: nat, self: nat) {
    e.pid == Some(pid) && pid != exclude && pid != self && RunsPooler(e, binary)
  }

  /** The entry of a running pooler as the kernel shows it. */
  ghost predicate ShowsPooler(e: Entry, pid: nat, binary: string) {
    e.pid == Some(pid) &&
    exists argv: seq<string> :: argv != [] && (forall arg | arg in argv :: NUL !in arg)
      && e.cmdline == Some(KernelCmdline(argv)) && argv[0] == binary
      && VALIDATE_FLAG !in argv && VALIDATE_SHORT_FLAG !in argv
  }

  /** A snapshot that shows every live pooler makes each of them a stray, except the
      excluded process and the wrapper itself: a sweep of it leaves no pooler behind. */
  lemma SnapshotReachesEveryPooler(entries: seq<Entry>, live: set<nat>, binary: string, exclude: nat, self: nat)
    requires forall pid | pid in live :: exists e :: e in entries && ShowsPooler(e, pid, binary)
    ensures forall pid | pid in live && pid != exclude && pid != self ::
      exists e :: e in entries && Stray(e, pid, binary, exclude, self)
  {
    forall pid | pid in live && pid != exclude && pid != self
      ensures exists e :: e in entries && Stray(e, pid, binary, exclude, self)
    {
      var e :| e in entries && ShowsPooler(e, pid, binary);
      var argv: seq<string> :| argv != [] && (forall arg | arg in argv :: NUL !in arg)
        && e.cmdline == Some(KernelCmdline(argv)) && argv[0] == binary
        && VALIDATE_FLAG !in argv && VALIDATE_SHORT_FLAG !in argv;
      PoolersAndValidatorsToldApart(e, argv, binary);
      CmdlineReadsExactly(e, argv);
      assert PoolerCommand(e.exe, argv, binary);
    }
  }

  /** Returns the first pooler in directory order that is neither excluded nor the wrapper. */
  method FindSuccessorPid(entries: Option<seq<Entry>>, binary: string, exclude: nat, self: nat)
    returns (pid: nat, ok: bool)
    ensures ok <==> entries.Some? && exists e, p :: e in entries.value && Stray(e, p, binary, exclude, self)
    ensures ok ==> exists i | 0 <= i < |entries.value| ::
      (&& Stray(entries.value[i], pid, binary, exclude, self)
       && forall j, p | 0 <= j < i :: !Stray(entries.value[j], p, binary, exclude, self))
  {
    if entries.None? {
      return 0, false;
    }
    for i := 0 to |entries.value|
      invariant forall j, p | 0 <= j < i :: !Stray(entries.value[j], p, binary, exclude, self)
    {
      var e := entries.value[i];
      RunsBinaryExactly(e, binary);
      if e.pid.None? || e.pid.value == exclude || e.pid.value == self {
        continue;
      }
      if RunsBinary(e, binary) {
        assert e in entries.value && Stray(e, e.pid.value, binary, exclude, self);
        return e.pid.value, true;
      }
    }
    return 0, false;
  }

  /** SIGKILLs every such pooler; `killable` are the processes the signal reaches. */
  method KillStrays(entries: Option<seq<Entry>>, binary: string, exclude: nat, self: nat, killable: set<nat>)
    returns (killed: seq<nat>)
    ensures forall pid :: pid in killed <==>
      pid in killable && entries.Some? && exists e :: e in entries.value && Stray(e, pid, binary, exclude, self)
  {
    killed := [];
    if entries.None? {
      return;
    }
    for i := 0 to |entries.value|
      invariant forall pid :: pid in killed <==>
        pid in killable && exists e :: e in entries.value[..i] && Stray(e, pid, binary, exclude, self)
    {
      var e := entries.value[i];
      assert entries.value[..i + 1] == entries.value[..i] + [e];
      assert e in entries.value[..i + 1];
      RunsBinaryExactly(e, binary);
      if e.pid.None? || e.pid.value == exclude || e.pid.value == self {
        continue;
      }
      if !RunsBinary(e, binary) {
        continue;
      }
      if e.pid.value in killable {
        killed := killed + [e.pid.value];
      }
    }
    assert entries.value[..|entries.value|] == entries.value;
  }
}
