/** src/managers/interrupt/exception_handler.c: the text a CPU exception
    prints and where control goes next. Each vga_print call is one
    element of the printed sequence; the screen effect is Vga.PutAll of
    their concatenation. CS, EIP and CR2 are read with inline assembly in
    the source and are parameters here. */
module Exceptions {
  import opened Options
  import Hex

  /** "0x" and eight upper-case hexadecimal digits. */
  function HexWord(val: nat): (r: string)
    requires val < 0x1_0000_0000
    ensures |r| == 10 && r[..2] == "0x"
    ensures Hex.ParseHex(r[2..]) == Some(val)
  {
    Hex.Hex8RoundTrip(val, true);
    var digits := Hex.HexDigits(val, 8, true);
    assert ("0x" + digits)[2..] == digits;
    "0x" + digits
  }

  /** print_hex's buffer: "0x", then position 9 - i holds nibble i
      (`(val >> (i * 4)) & 0xF`) for i from 7 down to 0, then NUL. */
  method PrintHexBuffer(val: nat) returns (buf: string)
    requires val < 0x1_0000_0000
    ensures buf == HexWord(val) + ['\0']
  {
    var body := "00000000";
    var i := 7;
    while i >= 0
      invariant -1 <= i <= 7 && |body| == 8
      invariant forall j :: 0 <= j < 7 - i ==> body[j] == Hex.HexDigits(val, 8, true)[j]
    {
      Hex.HexDigitsIndex(val, 8, true, 7 - i);
      body := body[7 - i := Hex.HexChar(Hex.Nibble(val, i), true)];
      i := i - 1;
    }
    assert body == Hex.HexDigits(val, 8, true);
    buf := "0x" + body + ['\0'];
  }

  const DivideByZero: string := "Divide by Zero"
  const InvalidOpcode: string := "Invalid Opcode"
  const GeneralProtection: string := "General Protection Fault"
  const PageFault: string := "Page Fault"
  const Unknown: string := "Unknown Exception"

  /** get_exception_name: four vectors have a name. */
  function ExceptionName(num: nat): (r: string)
    ensures (r == Unknown) <==> num !in {0, 6, 13, 14}
    ensures num == 14 <==> r == PageFault
  {
    if num == 0 then DivideByZero
    else if num == 6 then InvalidOpcode
    else if num == 13 then GeneralProtection
    else if num == 14 then PageFault
    else Unknown
  }

  /** What happens after the messages: user faults restart the system
      manager at its entry point, kernel faults halt. */
  datatype Next = RestartSysman(entryPoint: nat) | Halt

  datatype Report = Report(printed: seq<string>, next: Next)

  const FaultAddress: string := "Fault Address: "

  /** handle_user_exception */
  function UserReport(num: nat, errorCode: nat, sysmanEntry: nat): (r: Report)
    requires num < 0x1_0000_0000 && errorCode < 0x1_0000_0000
    ensures r.next == RestartSysman(sysmanEntry)
    ensures FaultAddress !in r.printed
  {
    Report(["\n[RING3 EXCEPTION #", HexWord(num), "] ", ExceptionName(num), " - Error Code: ",
            HexWord(errorCode), "\n[RING3 EXCEPTION] Restarting sysman...\n"],
           RestartSysman(sysmanEntry))
  }

  /** The lines handle_kernel_exception prints before the optional CR2
      line: none of them is the fault-address label. */
  function PanicHead(num: nat, errorCode: nat, eip: nat): (r: seq<string>)
    requires num < 0x1_0000_0000 && errorCode < 0x1_0000_0000 && eip < 0x1_0000_0000
    ensures |r| == 14 && FaultAddress !in r
  {
    var name := ExceptionName(num);
    var n, e, i := HexWord(num), HexWord(errorCode), HexWord(eip);
    assert n[0] == e[0] == i[0] == '0' by { assert n[..2] == e[..2] == i[..2] == "0x"; }
    assert name != FaultAddress;
    ["\n\n======================================\n", "  KERNEL PANIC - FATAL ERROR\n",
     "======================================\n\n", "Exception: ", name, " (#",
     n, ")\n", "Error Code: ", e, "\n", "EIP: ", i, "\n\n"]
  }

  /** handle_kernel_exception: the panic banner, name, number, error code
      and EIP; the CR2 line only for a page fault; then the halt. */
  function KernelReport(num: nat, errorCode: nat, eip: nat, cr2: nat): (r: Report)
    requires num < 0x1_0000_0000 && errorCode < 0x1_0000_0000
    requires eip < 0x1_0000_0000 && cr2 < 0x1_0000_0000
    ensures r.next == Halt
    ensures |r.printed| == if num == 14 then 18 else 15
    ensures (FaultAddress in r.printed) <==> num == 14
    ensures num == 14 ==> r.printed[|r.printed| - 4] == FaultAddress
                          && r.printed[|r.printed| - 3] == HexWord(cr2)
  {
    var head := PanicHead(num, errorCode, eip);
    var fault := if num == 14 then [FaultAddress, HexWord(cr2), "\n"] else [];
    var tail := ["\nSystem Halted.\n"];
    assert tail[0] != FaultAddress;
    Report(head + (fault + tail), Halt)
  }

  /** exception_handler: the privilege level in the low two bits of the
      saved CS picks the path. */
  function Handle(num: nat, errorCode: nat, cs: nat, eip: nat, cr2: nat, sysmanEntry: nat): (r: Report)
    requires num < 0x1_0000_0000 && errorCode < 0x1_0000_0000
    requires eip < 0x1_0000_0000 && cr2 < 0x1_0000_0000
    ensures r.next.RestartSysman? <==> cs % 4 != 0
    ensures r.next.RestartSysman? ==> r.next.entryPoint == sysmanEntry
    ensures (FaultAddress in r.printed) <==> (cs % 4 == 0 && num == 14)
  {
    if cs % 4 != 0 then UserReport(num, errorCode, sysmanEntry)
    else KernelReport(num, errorCode, eip, cr2)
  }
}
