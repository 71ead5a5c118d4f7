/** From the keyboard to a program's arguments: the shell's command line, `parse_command` and
    `syscall_getargs`. */
module Command {
  import opened Common
  import opened RingBuffer
  import opened LineDiscipline
  import opened Directory

  const FIELD_SIZE := 128  // MAX_PROGRAM_NAME_LENGTH and MAX_ARGS_LENGTH

  /** Up to the first space. */
  function ProgramName(command: seq<Byte>): seq<Byte> {
    var i := FirstIndexOf(command, SPACE);
    if i < 0 then command else command[..i]
  }

  /** After the first space. */
  function Arguments(command: seq<Byte>): seq<Byte> {
    var i := FirstIndexOf(command, SPACE);
    if i < 0 then [] else command[i + 1..]
  }

  /** Name, space and arguments give back the command if and only if it has a space; without one
      the name is the command and there are no arguments. */
  lemma PartsRebuildCommandIff(command: seq<Byte>)
    ensures ProgramName(command) + [SPACE] + Arguments(command) == command <==> SPACE in command
    ensures SPACE !in command ==> ProgramName(command) == command && Arguments(command) == []
    ensures SPACE !in ProgramName(command)
  {
    var i := FirstIndexOf(command, SPACE);
    if i >= 0 {
      assert command == command[..i] + [command[i]] + command[i + 1..];
    } else {
      assert |ProgramName(command) + [SPACE] + Arguments(command)| == |command| + 1;
    }
  }

  /** `parse_command`, into the two PCB fields; `command` is the string without its NUL.  A fault is
      a store past the end of a field; the call is not followed past it. */
  method ParseCommand(command: seq<Byte>, bufName: array<Byte>, bufArgs: array<Byte>) returns (lenArgs: nat, fault: bool)
    requires 0 !in command && bufName != bufArgs
    modifies bufName, bufArgs
    ensures fault <==> |ProgramName(command)| >= bufName.Length || |Arguments(command)| >= bufArgs.Length
    ensures !fault ==> CString(bufName[..], bufName.Length) == ProgramName(command)
    ensures !fault ==> CString(bufArgs[..], bufArgs.Length) == Arguments(command)
    ensures !fault ==> lenArgs == |Arguments(command)|
  {
    var memory := command + [0];
    var index := NameLength(memory, command);
    assert command[..index] <= memory;
    lenArgs := 0;
    fault := StoreString(bufName, memory, command[..index]);
    if fault {
      return;
    }
    if memory[index] == SPACE {
      index := index + 1;
      lenArgs := |memory| - 1 - index;  // strlen of what is left
      assert memory[index..] == command[index..] + [0];
      fault := StoreString(bufArgs, memory[index..], command[index..]);
    } else {
      fault := StoreString(bufArgs, [], []);
    }
  }

  /** The loop that looks for a space or the end of the string. */
  method NameLength(memory: seq<Byte>, ghost command: seq<Byte>) returns (index: nat)
    requires 0 !in command && memory == command + [0]
    ensures index <= |command| && ProgramName(command) == command[..index]
    ensures memory[index] == SPACE ==> index < |command| && Arguments(command) == command[index + 1..]
    ensures memory[index] != SPACE ==> Arguments(command) == []
  {
    index := 0;
    while memory[index] != SPACE && memory[index] != 0
      invariant 0 <= index <= |command|
      invariant SPACE !in command[..index]
      decreases |command| - index
    {
      index := index + 1;
    }
    assert index < |command| ==> command[index] in command;
    if index < |command| {
      FirstIndexOfIs(command, SPACE, index);
    } else {
      assert command[..index] == command;
    }
  }

  /** `strncpy` of exactly the characters of `s`, followed by a NUL; a fault if they do not fit. */
  method StoreString(dest: array<Byte>, src: seq<Byte>, s: seq<Byte>) returns (fault: bool)
    requires s <= src && 0 !in s
    modifies dest
    ensures fault <==> |s| >= dest.Length
    ensures !fault ==> CString(dest[..], dest.Length) == s
  {
    if |s| >= dest.Length {
      return true;
    }
    fault := false;
    Strncpy(dest, src, |s|);
    CStringIs(src, |s|, s);
    dest[|s|] := 0;
    assert dest[..][..|s|] == s;
    CStringIs(dest[..], dest.Length, s);
  }

  /** `syscall_getargs`: the caller's buffer size is compared as an unsigned number. */
  method GetArgs(args: array<Byte>, buf: array<Byte>, nbytes: int) returns (res: int)
    requires 0 in args[..] && args != buf
    requires Unsigned32(nbytes) > |CString(args[..], args.Length)| ==> |CString(args[..], args.Length)| < buf.Length
    modifies buf
    ensures res == if Unsigned32(nbytes) > |CString(args[..], args.Length)| then 0 else -1
    ensures res == 0 ==> CString(buf[..], buf.Length) == CString(args[..], args.Length)
  {
    ghost var s := CString(args[..], args.Length);
    var i := 0;
    while args[i] != 0
      invariant 0 <= i <= |s|
      decreases |s| - i
    {
      assert i < |s|;
      i := i + 1;
    }
    assert i == |s|;
    if Unsigned32(nbytes) < i + 1 {
      return -1;
    }
    for k := 0 to i
      invariant forall j :: 0 <= j < k ==> buf[j] == s[j]
    {
      buf[k] := args[k];
    }
    buf[i] := 0;
    assert buf[..][..i] == s;
    CStringIs(buf[..], buf.Length, s);
    res := 0;
  }

  /** What the shell makes of a line it has read: the newline goes, a NUL is put in its place. */
  function CommandOf(line: seq<Byte>): seq<Byte> {
    Stripped(line)
  }

  /** Every command line that comes through the line discipline, under any interleaving of typing,
      resets and reads of any size, is at most 127 bytes, holds no NUL and no newline, and so its
      name and arguments each fit a 128-byte PCB field. */
  lemma TypedCommandsFit(events: seq<Event>, i: nat)
    requires i < |Run(START, events).delivered|
    ensures var line := Run(START, events).delivered[i]; var command := CommandOf(line);
            && (if EndsLine(line) then line == command + [NEWLINE] else line == command)
            && |command| < FIELD_SIZE && 0 !in command && NEWLINE !in command
            && |ProgramName(command)| < FIELD_SIZE && |Arguments(command)| < FIELD_SIZE
  {
    RunKeepsInv(START, events);
    CommandFits(Run(START, events).delivered, i);
  }

  lemma CommandFits(delivered: seq<seq<Byte>>, i: nat)
    requires i < |delivered| && ChunksFit(delivered)
    ensures var line := delivered[i]; var command := CommandOf(line);
            && (if EndsLine(line) then line == command + [NEWLINE] else line == command)
            && |command| < FIELD_SIZE && 0 !in command && NEWLINE !in command
            && |ProgramName(command)| < FIELD_SIZE && |Arguments(command)| < FIELD_SIZE
  {
    var line := delivered[i];
    if EndsLine(line) {
      InitAndLast(line);
    }
    assert 0 !in Stripped(line);
  }

  /** A typed command, parsed into the PCB and asked for again, comes back unchanged. */
  method TypedArgumentsReturn(ghost events: seq<Event>, ghost i: nat, line: seq<Byte>, buf: array<Byte>, nbytes: nat)
    returns (res: int)
    requires i < |Run(START, events).delivered| && line == Run(START, events).delivered[i]
    requires nbytes <= buf.Length && nbytes < 0x8000_0000
    modifies buf
    ensures res == 0 <==> nbytes > |Arguments(CommandOf(line))|
    ensures res == 0 ==> CString(buf[..], buf.Length) == Arguments(CommandOf(line))
  {
    TypedCommandsFit(events, i);
    var name, args := new Byte[FIELD_SIZE], new Byte[FIELD_SIZE];
    var _, _ := ParseCommand(CommandOf(line), name, args);
    assert |CString(args[..], FIELD_SIZE)| < FIELD_SIZE;
    res := GetArgs(args, buf, nbytes);
  }
}
