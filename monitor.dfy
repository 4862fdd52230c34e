/** The command dispatcher `process_cli` (src/start.c:119-125): it compares the
    first word of the command line with the known command names and runs the
    matching command. */
module Monitor {
  import opened MachineTypes
  import opened CStrings
  import opened MemoryDump

  /** The command names as the C string literals they are, with their terminators. */
  const HelpCommand: seq<char> := "help\0"
  const DumpCommand: seq<char> := "dump\0"

  /** The line `help` prints, before the line terminator. */
  const HelpReply: seq<char> := "You need somebody"

  lemma CommandNames()
    ensures Terminated(HelpCommand, 0) && CStr(HelpCommand, 0) == "help"
    ensures Terminated(DumpCommand, 0) && CStr(DumpCommand, 0) == "dump"
  {
    assert HelpCommand[4] == '\0' && DumpCommand[4] == '\0';
    assert StrLen(HelpCommand, 3) == 1;
    assert StrLen(DumpCommand, 3) == 1;
  }

  /** process_cli (src/start.c:119-125): `help` appends its reply and the line
      terminator `lineEnd`, `dump` appends the listing, any other command appends
      nothing. Only `dump` reads the argument pointers. */
  method ProcessCli(mem: Memory, buf: seq<char>, offsets: seq<nat>, lineEnd: seq<char>, out: seq<char>)
    returns (res: seq<char>)
    requires Terminated(buf, 0)
    requires CStr(buf, 0) == "dump" ==> ArgsOk(buf, offsets)
    ensures CStr(buf, 0) == "help" ==> res == out + HelpReply + lineEnd
    ensures CStr(buf, 0) == "dump" ==> res == out + DumpText(mem, DumpStart(buf, offsets), DumpLengthArg(buf, offsets))
    ensures CStr(buf, 0) != "help" && CStr(buf, 0) != "dump" ==> res == out
  {
    CommandNames();
    var isHelp := StrEq(buf, HelpCommand);
    if isHelp == 1 {
      res := out + HelpReply + lineEnd;
    } else {
      var isDump := StrEq(buf, DumpCommand);
      if isDump == 1 {
        res := Dump(mem, buf, offsets, out);
      } else {
        res := out;
      }
    }
  }
}
