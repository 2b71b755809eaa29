/** Concrete runs of the driver on the 256 x 64 panel the demo program drives. */
module Scenarios {
  import opened Ifce
  import opened Dev

  /** Two horizontally adjacent pixels share a byte, the left one in the high nibble:
      setting (0, 0) to 0xF0 and then (1, 0) to 0x10 leaves 0xF1 in the first byte. */
  method PackTwoPixels() returns (first: bv8)
    ensures first == 0xF1
  {
    var iface := new Interface(map[]);
    var dev := new Device.WithInterface(iface, 256, 64);
    dev.SetPixel(0, 0, 0xF0);
    dev.SetPixel(1, 0, 0x10);
    first := dev.buf[0];
  }

  /** A bus that fails on its fifth call: `init_display` stops right there, after display
      off, row 0, column 0 (two commands) and start line 0, and returns that call's error. */
  method InitFailsOnFifthCall() returns (r: Outcome, trace: seq<Event>)
    ensures r == Fail(TransportError(5))
    ensures trace ==
      [Cmd(SET_DISP | 0x00, []), Cmd(SET_ROW_ADR, [0]), Cmd(SET_COL_ADR_LSB | 0x00, []),
       Cmd(SET_COL_ADR_MSB | 0x00, []), Cmd(SET_DISP_START_LINE | 0x00, [])]
  {
    var iface := new Interface(map[4 := TransportError(5)]);
    var dev := new Device.WithInterface(iface, 256, 64);
    InitFifthCallFails(64, dev.buf[..], iface.faults, 0);
    r := dev.InitDisplay();
    trace := iface.trace;
  }
}
