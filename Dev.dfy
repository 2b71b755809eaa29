/** The SH1122 display driver (sh1122/src/dev.rs): a framebuffer packed at four bits per
    pixel, the command sequences that configure the controller, and the transfers that
    copy the whole buffer, or a window of it, to the controller's display memory. */
module Dev {
  import opened Ifce

  const PIXEL_BITS: nat := 4
  const PIXEL_SHIFT: nat := 8 - PIXEL_BITS
  const PIXEL_MASK: bv8 := 0xf

  /* Controller opcodes. Their values come from the controller's command table, which is
     not part of this model: each is some fixed byte, and the driver only ORs small
     arguments into them. */
  const SET_DISP: bv8
  const SET_COL_ADR_LSB: bv8
  const SET_COL_ADR_MSB: bv8
  const SET_ROW_ADR: bv8
  const SET_DISP_START_LINE: bv8
  const SET_SEG_REMAP: bv8
  const SET_MUX_RATIO: bv8
  const SET_COM_OUT_DIR: bv8
  const SET_DISP_OFFSET: bv8
  const SET_CONTRAST: bv8
  const SET_ENTIRE_ON: bv8
  const SET_NORM_INV: bv8

  function Min(a: nat, b: nat): nat { if a < b then a else b }

  /** The byte (a Rust `as u8` cast) of a column or row number. */
  function AsByte(n: nat): bv8 { (n % 256) as bv8 }

  // ---------------------------------------------------------------------------------
  // Packed-pixel addressing

  /** Distinct pixels of a row-major image `width` pixels wide have distinct linear indices. */
  lemma IndexInjective(width: nat, x1: nat, y1: nat, x2: nat, y2: nat)
    requires x1 < width && x2 < width
    requires x1 + y1 * width == x2 + y2 * width
    ensures x1 == x2 && y1 == y2
  {
    if y1 < y2 {
      RowsApart(width, y1, y2);
    } else if y2 < y1 {
      RowsApart(width, y2, y1);
    }
  }

  lemma RowsApart(width: nat, lo: nat, hi: nat)
    requires lo < hi
    ensures lo * width + width <= hi * width
  {
    var d := hi - lo;
    assert hi * width == lo * width + d * width;
    assert d * width >= width by {
      assert d * width == (d - 1) * width + width;
    }
  }

  /** Every pixel of a `width` x `height` image has a linear index below `width * height`. */
  lemma IndexBelow(width: nat, height: nat, x: nat, y: nat)
    requires x < width && y < height
    ensures x + y * width < width * height
  {
    assert (y + 1) * width <= height * width;
  }

  /** With an even width, the byte holding any pixel of a `width` x `height` image lies
      within a buffer of `width * height * 4 / 8` bytes. */
  lemma ByteInBuffer(width: nat, height: nat, x: nat, y: nat)
    requires width % 2 == 0 && x < width && y < height
    ensures (x + y * width) / 2 < width * height * PIXEL_BITS / 8
  {
    IndexBelow(width, height, x, y);
    assert width * height == 2 * ((width / 2) * height);
  }

  /** With an even width, every byte of the buffer holds exactly two pixels of one row:
      an even column `x` in its high nibble and column `x + 1` in its low nibble. */
  lemma BytePixels(width: nat, height: nat, i: nat)
    requires width % 2 == 0 && i < width * height * PIXEL_BITS / 8
    ensures var x, y := (2 * i) % width, (2 * i) / width;
      x + 1 < width && y < height && x % 2 == 0 &&
      (x + y * width) / 2 == i && (x + 1 + y * width) / 2 == i
  {
    var half := width / 2;
    var x, y := (2 * i) % width, (2 * i) / width;
    DivMod(2 * i, width);
    RowBytes(width, y);
    RowBytes(width, height);
    assert x % 2 == 0;
    if y >= height {
      MulMono(height, y, width);
    }
  }

  /** Division by a positive divisor splits a natural number into quotient and remainder. */
  lemma DivMod(a: nat, b: nat)
    requires b > 0
    ensures 0 <= a / b && 0 <= a % b < b && a % b + (a / b) * b == a
  {
  }

  /** With an even width, a pixel's index has the parity of its column. */
  lemma IndexParity(width: nat, x: nat, y: nat)
    requires width % 2 == 0
    ensures (x + y * width) % 2 == x % 2
  {
    assert y * width == 2 * (y * (width / 2));
  }

  // ---------------------------------------------------------------------------------
  // Nibble access within one byte

  /** The pixel stored in the nibble of `b` at `shift`, back in the 8-bit value space. */
  function ReadNibble(b: bv8, shift: nat): bv8
    requires shift <= 8 - PIXEL_BITS
  {
    ((b & (PIXEL_MASK << shift)) >> shift) << PIXEL_SHIFT
  }

  /** `b` with the nibble at `shift` replaced by the top four bits of `pixel`. */
  function WriteNibble(b: bv8, shift: nat, pixel: bv8): bv8
    requires shift <= 8 - PIXEL_BITS
  {
    (b & !(PIXEL_MASK << shift)) | ((pixel >> PIXEL_SHIFT) << shift)
  }

  /** At shift 4 a pixel is the high nibble of its byte, at shift 0 the low one. */
  lemma ReadNibbleAt(b: bv8, shift: nat)
    requires shift == 0 || shift == 4
    ensures ReadNibble(b, shift) == if shift == 4 then b & 0xf0 else (b & 0x0f) << 4
  {
    if shift == 4 {} else {}
  }

  /** Writing at shift 4 replaces the high nibble, at shift 0 the low one. */
  lemma WriteNibbleAt(b: bv8, shift: nat, pixel: bv8)
    requires shift == 0 || shift == 4
    ensures WriteNibble(b, shift, pixel) ==
      if shift == 4 then (b & 0x0f) | (pixel & 0xf0) else (b & 0xf0) | (pixel >> 4)
  {
    if shift == 4 {} else {}
  }

  /** A read after a write gives back the quantized pixel; the other nibble is kept. */
  lemma NibbleWriteRead(b: bv8, shift: nat, pixel: bv8, other: nat)
    requires shift == 0 || shift == 4
    requires other == 0 || other == 4
    ensures ReadNibble(WriteNibble(b, shift, pixel), shift) == pixel & 0xf0
    ensures other != shift ==> ReadNibble(WriteNibble(b, shift, pixel), other) == ReadNibble(b, other)
  {
    var nb := WriteNibble(b, shift, pixel);
    WriteNibbleAt(b, shift, pixel);
    ReadNibbleAt(nb, shift);
    ReadNibbleAt(nb, other);
    ReadNibbleAt(b, other);
  }

  // ---------------------------------------------------------------------------------
  // The partial-flush window and its jobs

  /** A rectangle of pixels: left column, top row, width and height. */
  datatype Rect = Rect(x: nat, y: nat, w: nat, h: nat)

  /** One transfer of a partial flush: set the controller's cursor to column `x`, row `y`,
      then send `bytes` bytes of the buffer from the byte that holds pixel (x, y). */
  datatype Job = Job(x: nat, y: nat, bytes: nat)

  /** The buffer offset a job's transfer starts at. */
  function Start(job: Job, width: nat): nat { (job.x + job.y * width) / 2 }

  /** The window a partial flush of (x, y, w, h) actually sends, for a request that starts
      on the display: the left edge moved down to a byte boundary, the right and bottom
      edges kept but clamped to the display. It starts on the display, on an even column
      at most one pixel left of `x`, and ends within the display. */
  function Window(width: nat, height: nat, x: nat, y: nat, w: nat, h: nat): (r: Rect)
    requires x < width && y < height
    ensures r.x % 2 == 0 && r.x <= x <= r.x + 1 && r.y == y
    ensures r.x + r.w <= width && r.y + r.h <= height
  {
    var left := x - x % 2;
    Rect(left, y, Min(x + w, width) - left, Min(y + h, height) - y)
  }

  /** A row transfer of `w` pixels from an even column `x` of row `row` stays in that row. */
  lemma RowJobFits(width: nat, x: nat, w: nat, row: nat)
    requires width % 2 == 0 && x % 2 == 0 && x + w <= width
    ensures row * width / 2 <= (x + row * width) / 2
    ensures (x + row * width) / 2 + (w * PIXEL_BITS + PIXEL_BITS) / 8 <= (row + 1) * width / 2
  {
    var half := width / 2;
    RowBytes(width, row);
    RowBytes(width, row + 1);
    Distributes(row, 1, half);
  }

  /** With an even width, `n` rows take `n * (width / 2)` bytes, however the product is
      grouped. */
  lemma RowBytes(width: nat, n: nat)
    requires width % 2 == 0
    ensures n * width == 2 * (n * (width / 2))
    ensures n * width / 2 == n * (width / 2)
    ensures width * n * PIXEL_BITS / 8 == n * (width / 2)
  {
    var half := width / 2;
    assert n * width == 2 * (n * half);
    assert width * n * PIXEL_BITS == 8 * (n * half);
  }

  /** The rows `y` .. `y + rows - 1` of the buffer lie below row `limit`. */
  lemma RowsBelow(width: nat, y: nat, rows: nat, limit: nat)
    requires width % 2 == 0 && y + rows <= limit
    ensures y * width / 2 + width * rows * PIXEL_BITS / 8 == (y + rows) * width / 2
    ensures (y + rows) * width / 2 <= limit * width / 2
    ensures limit * width / 2 == width * limit * PIXEL_BITS / 8
  {
    var half := width / 2;
    RowBytes(width, y);
    RowBytes(width, rows);
    RowBytes(width, y + rows);
    RowBytes(width, limit);
    Distributes(y, rows, half);
    Distributes(y + rows, limit - (y + rows), half);
  }

  lemma Distributes(a: nat, b: nat, c: nat)
    ensures (a + b) * c == a * c + b * c
  {
  }

  /** A transfer that starts on the display, on an even column, and reads only bytes of a
      `width` x `height` buffer. */
  ghost predicate Fits(job: Job, width: nat, height: nat) {
    job.x < width && job.y < height && job.x % 2 == 0 &&
    Start(job, width) + job.bytes <= width * height * PIXEL_BITS / 8
  }

  /** The one transfer of whole rows `y` .. `y + rows - 1` fits the buffer. */
  lemma WholeRowsFit(width: nat, height: nat, y: nat, rows: nat)
    requires width % 2 == 0 && 0 < width && y < height && y + rows <= height
    ensures Fits(Job(0, y, width * rows * PIXEL_BITS / 8), width, height)
  {
    RowsBelow(width, y, rows, height);
  }

  /** The row transfers of `cols` pixels from an even column `left` fit the buffer. */
  lemma RowJobsFit(width: nat, height: nat, left: nat, cols: nat, bytes: nat, y: nat, rows: nat)
    requires width % 2 == 0 && left % 2 == 0 && left < width && left + cols <= width && y + rows <= height
    requires bytes == (cols * PIXEL_BITS + PIXEL_BITS) / 8
    ensures forall row :: y <= row < y + rows ==> Fits(Job(left, row, bytes), width, height)
  {
    forall row | y <= row < y + rows
      ensures Fits(Job(left, row, bytes), width, height)
    {
      RowJobFits(width, left, cols, row);
      RowsBelow(width, row, 1, height);
    }
  }

  /** The transfers `partial_flush(x, y, w, h)` makes: none when (x, y) is off the display;
      one transfer of whole rows when the window spans the display's width; otherwise one
      transfer per row of the window. Every transfer fits the buffer and starts at or left
      of `x`. */
  function Jobs(width: nat, height: nat, x: nat, y: nat, w: nat, h: nat): (jobs: seq<Job>)
    requires width % 2 == 0
    ensures x >= width || y >= height ==> jobs == []
    ensures forall k :: 0 <= k < |jobs| ==> Fits(jobs[k], width, height) && jobs[k].x <= x
  {
    if x >= width || y >= height then []
    else
      var r := Window(width, height, x, y, w, h);
      if r.w == width then
        WholeRowsFit(width, height, y, r.h);
        [Job(r.x, y, r.w * r.h * PIXEL_BITS / 8)]
      else
        RowJobsFit(width, height, r.x, r.w, (r.w * PIXEL_BITS + PIXEL_BITS) / 8, y, r.h);
        seq(r.h, j requires 0 <= j < r.h => Job(r.x, y + j, (r.w * PIXEL_BITS + PIXEL_BITS) / 8))
  }

  lemma MulMono(a: nat, b: nat, c: nat)
    requires a <= b
    ensures a * c <= b * c
  {
    Distributes(a, b - a, c);
  }

  /** Every requested pixel that is on the display lies in the window that is sent. */
  lemma WindowCovers(width: nat, height: nat, x: nat, y: nat, w: nat, h: nat, px: nat, py: nat)
    requires x <= px < x + w && y <= py < y + h && px < width && py < height
    ensures var r := Window(width, height, x, y, w, h);
      r.x <= px < r.x + r.w && r.y <= py < r.y + r.h
  {
  }

  /** When the window is as wide as the display it starts at column 0, so the request
      started at column 0 or 1, and the one transfer sends whole rows: `width / 2` bytes
      per row from the first byte of row `y`. */
  lemma FullWidthJob(width: nat, height: nat, x: nat, y: nat, w: nat, h: nat)
    requires width % 2 == 0 && x < width && y < height
    requires Window(width, height, x, y, w, h).w == width
    ensures var rows := Min(y + h, height) - y;
      x <= 1 && Jobs(width, height, x, y, w, h) == [Job(0, y, rows * (width / 2))] &&
      Start(Job(0, y, rows * (width / 2)), width) == y * (width / 2)
  {
    var r := Window(width, height, x, y, w, h);
    RowBytes(width, r.h);
    RowBytes(width, y);
  }

  /** The byte of pixel (px, py) of an even-width image is half its column plus
      `width / 2` bytes per row above it. */
  lemma ByteOf(width: nat, px: nat, py: nat)
    requires width % 2 == 0
    ensures (px + py * width) / 2 == px / 2 + py * (width / 2)
  {
    RowBytes(width, py);
  }

  /** Every requested pixel that is on the display has its byte sent by some transfer. */
  lemma JobsCover(width: nat, height: nat, x: nat, y: nat, w: nat, h: nat, px: nat, py: nat)
    requires width % 2 == 0
    requires x <= px < x + w && y <= py < y + h && px < width && py < height
    ensures var jobs := Jobs(width, height, x, y, w, h);
      exists k :: 0 <= k < |jobs| &&
        Start(jobs[k], width) <= (px + py * width) / 2 < Start(jobs[k], width) + jobs[k].bytes
  {
    var jobs := Jobs(width, height, x, y, w, h);
    var r := Window(width, height, x, y, w, h);
    var half := width / 2;
    WindowCovers(width, height, x, y, w, h, px, py);
    ByteOf(width, px, py);
    if r.w == width {
      FullWidthJob(width, height, x, y, w, h);
      MulMono(y, py, half);
      MulMono(py + 1, y + r.h, half);
      Distributes(py, 1, half);
      Distributes(y, r.h, half);
      assert Start(jobs[0], width) <= (px + py * width) / 2 < Start(jobs[0], width) + jobs[0].bytes;
    } else {
      var k := py - y;
      assert jobs[k] == Job(r.x, py, (r.w * PIXEL_BITS + PIXEL_BITS) / 8);
      ByteOf(width, r.x, py);
      assert Start(jobs[k], width) <= (px + py * width) / 2 < Start(jobs[k], width) + jobs[k].bytes;
    }
  }

  /** Every transfer reads only bytes of the rows of the window. */
  lemma JobsWithinRows(width: nat, height: nat, x: nat, y: nat, w: nat, h: nat, k: nat)
    requires width % 2 == 0 && x < width && y < height
    requires k < |Jobs(width, height, x, y, w, h)|
    ensures var job := Jobs(width, height, x, y, w, h)[k];
      var rows := Window(width, height, x, y, w, h).h;
      y * width / 2 <= Start(job, width) && Start(job, width) + job.bytes <= (y + rows) * width / 2
  {
    var r := Window(width, height, x, y, w, h);
    var job := Jobs(width, height, x, y, w, h)[k];
    if r.w == width {
      FullWidthJob(width, height, x, y, w, h);
      assert job == Job(0, y, r.h * (width / 2));
      RowBytes(width, y + r.h);
      Distributes(y, r.h, width / 2);
    } else {
      assert job == Job(r.x, y + k, (r.w * PIXEL_BITS + PIXEL_BITS) / 8);
      RowWithinRows(width, r.x, r.w, y, k, r.h);
    }
  }

  /** A row transfer of row `y + k` lies within rows `y` .. `y + rows - 1`. */
  lemma RowWithinRows(width: nat, left: nat, cols: nat, y: nat, k: nat, rows: nat)
    requires width % 2 == 0 && left % 2 == 0 && left + cols <= width && k < rows
    ensures var job := Job(left, y + k, (cols * PIXEL_BITS + PIXEL_BITS) / 8);
      y * width / 2 <= Start(job, width) && Start(job, width) + job.bytes <= (y + rows) * width / 2
  {
    var half := width / 2;
    RowJobFits(width, left, cols, y + k);
    RowBytes(width, y);
    RowBytes(width, y + k);
    RowBytes(width, y + k + 1);
    RowBytes(width, y + rows);
    MulMono(y, y + k, half);
    MulMono(y + k + 1, y + rows, half);
  }

  // ---------------------------------------------------------------------------------
  // Command scripts: the transport calls each helper of the driver makes

  function DisplayOnScript(): seq<Event> { [Cmd(SET_DISP | 0x01, [])] }
  function DisplayOffScript(): seq<Event> { [Cmd(SET_DISP | 0x00, [])] }

  /** The column address goes out as two commands, low nibble first. */
  function ColAdrScript(col: bv8): seq<Event> {
    [Cmd(SET_COL_ADR_LSB | (col & 0x0f), []), Cmd(SET_COL_ADR_MSB | ((col >> 4) & 0x0f), [])]
  }

  function RowAdrScript(row: bv8): seq<Event> { [Cmd(SET_ROW_ADR, [row])] }
  function StartLineScript(line: bv8): seq<Event> { [Cmd(SET_DISP_START_LINE | (line & 0x3f), [])] }
  function SegRemapOffScript(): seq<Event> { [Cmd(SET_SEG_REMAP | 0x00, [])] }
  function SegRemapOnScript(): seq<Event> { [Cmd(SET_SEG_REMAP | 0x01, [])] }
  function MuxRatioScript(ratio: bv8): seq<Event> { [Cmd(SET_MUX_RATIO, [ratio])] }
  function ComOutputScanDirScript(dir: bv8): seq<Event> { [Cmd(SET_COM_OUT_DIR | (dir & 0x01), [])] }
  function DisplayOffsetScript(offset: bv8): seq<Event> { [Cmd(SET_DISP_OFFSET, [offset])] }
  function ContrastScript(contrast: bv8): seq<Event> { [Cmd(SET_CONTRAST, [contrast])] }
  function EntireOnScript(): seq<Event> { [Cmd(SET_ENTIRE_ON, [])] }
  function InvertedScript(inverted: bool): seq<Event> {
    var flag: bv8 := if inverted then 1 else 0;
    [Cmd(SET_NORM_INV | flag, [])]
  }

  /** `flush`: cursor to column 0, row 0, then the whole buffer in one data write. */
  function FlushScript(buf: seq<bv8>): seq<Event> {
    ColAdrScript(0) + (RowAdrScript(0) + [Data(buf)])
  }

  /** The number of steps of `init_display`. */
  const INIT_STEPS: nat := 14

  /** Step `k` of `init_display`: the configuration commands in the controller's bring-up
      order, then a full flush. */
  function InitStep(height: nat, buf: seq<bv8>, k: nat): seq<Event>
    requires height >= 1
  {
    match k
    case 0 => DisplayOffScript()
    case 1 => RowAdrScript(0)
    case 2 => ColAdrScript(0)
    case 3 => StartLineScript(0)
    case 4 => SegRemapOnScript()
    case 5 => SegRemapOffScript()
    case 6 => MuxRatioScript(AsByte(height - 1))
    case 7 => ComOutputScanDirScript(0)
    case 8 => DisplayOffsetScript(0)
    case 9 => ContrastScript(0x80)
    case 10 => EntireOnScript()
    case 11 => InvertedScript(false)
    case 12 => DisplayOnScript()
    case 13 => FlushScript(buf)
    case _ => []
  }

  /** The calls of `init_display` from step `k` on. */
  function InitFrom(height: nat, buf: seq<bv8>, k: nat): seq<Event>
    requires height >= 1
    decreases INIT_STEPS - k
  {
    if k >= INIT_STEPS then [] else InitStep(height, buf, k) + InitFrom(height, buf, k + 1)
  }

  /** All calls of `init_display`. */
  function InitScript(height: nat, buf: seq<bv8>): seq<Event>
    requires height >= 1
  {
    InitFrom(height, buf, 0)
  }

  /** `init_display` makes eighteen transport calls when none fails: thirteen
      configuration commands (the column address takes two) and the flush's four. */
  lemma InitCallCount(height: nat, buf: seq<bv8>)
    requires height >= 1
    ensures |InitScript(height, buf)| == 18
  {
    assert |InitFrom(height, buf, 13)| == 4;
    assert |InitFrom(height, buf, 12)| == 5;
    assert |InitFrom(height, buf, 11)| == 6;
    assert |InitFrom(height, buf, 10)| == 7;
    assert |InitFrom(height, buf, 9)| == 8;
    assert |InitFrom(height, buf, 8)| == 9;
    assert |InitFrom(height, buf, 7)| == 10;
    assert |InitFrom(height, buf, 6)| == 11;
    assert |InitFrom(height, buf, 5)| == 12;
    assert |InitFrom(height, buf, 4)| == 13;
    assert |InitFrom(height, buf, 3)| == 14;
    assert |InitFrom(height, buf, 2)| == 16;
    assert |InitFrom(height, buf, 1)| == 17;
    assert |InitFrom(height, buf, 0)| == 18;
  }

  /** `init_display` returns Ok exactly when none of its eighteen calls fails, and then
      every call of its script has been made. */
  lemma InitWithoutFaults(height: nat, buf: seq<bv8>, faults: map<nat, TransportError>, start: nat)
    requires height >= 1
    ensures Verdict(InitScript(height, buf), faults, start) == Pass <==> FaultFree(faults, start, 18)
    ensures FaultFree(faults, start, 18) ==> Attempted(InitScript(height, buf), faults, start) == InitScript(height, buf)
  {
    InitCallCount(height, buf);
    RunsToEnd(InitScript(height, buf), faults, start);
  }

  /** When the fifth call of `init_display` is the first to fail, the transport has seen
      display off, row 0, column 0 (two commands) and start line 0, and that call's error
      is returned. */
  lemma InitFifthCallFails(height: nat, buf: seq<bv8>, faults: map<nat, TransportError>, start: nat)
    requires height >= 1 && start + 4 in faults && FaultFree(faults, start, 4)
    ensures Attempted(InitScript(height, buf), faults, start) ==
      [Cmd(SET_DISP | 0x00, []), Cmd(SET_ROW_ADR, [0]), Cmd(SET_COL_ADR_LSB | 0x00, []),
       Cmd(SET_COL_ADR_MSB | 0x00, []), Cmd(SET_DISP_START_LINE | 0x00, [])]
    ensures Verdict(InitScript(height, buf), faults, start) == Fail(faults[start + 4])
  {
    var script := InitScript(height, buf);
    assert script == InitStep(height, buf, 0) + InitFrom(height, buf, 1);
    assert InitFrom(height, buf, 1) == InitStep(height, buf, 1) + InitFrom(height, buf, 2);
    assert InitFrom(height, buf, 2) == InitStep(height, buf, 2) + InitFrom(height, buf, 3);
    assert InitFrom(height, buf, 3) == InitStep(height, buf, 3) + InitFrom(height, buf, 4);
    assert InitFrom(height, buf, 4) != [];
    StopsAtFirstFault(script, faults, start, 4);
  }

  /** The bytes a job sends. */
  function JobBytes(job: Job, buf: seq<bv8>, width: nat): seq<bv8>
    requires Start(job, width) + job.bytes <= |buf|
  {
    buf[Start(job, width)..Start(job, width) + job.bytes]
  }

  /** The calls of the transfers of `jobs`: for each, the column (as a byte), the row (as a
      byte), then the job's bytes. */
  function JobsScript(jobs: seq<Job>, buf: seq<bv8>, width: nat): seq<Event>
    requires forall k :: 0 <= k < |jobs| ==> Start(jobs[k], width) + jobs[k].bytes <= |buf|
  {
    if jobs == [] then []
    else
      ColAdrScript(AsByte(jobs[0].x)) +
        (RowAdrScript(AsByte(jobs[0].y)) +
          ([Data(JobBytes(jobs[0], buf, width))] + JobsScript(jobs[1..], buf, width)))
  }

  /** The four calls of one transfer, written out: the column's low nibble, its high
      nibble, the row, then the bytes. */
  function JobEvents(job: Job, buf: seq<bv8>, width: nat): seq<Event>
    requires Start(job, width) + job.bytes <= |buf|
  {
    [Cmd(SET_COL_ADR_LSB | (AsByte(job.x) & 0x0f), []),
     Cmd(SET_COL_ADR_MSB | ((AsByte(job.x) >> 4) & 0x0f), []),
     Cmd(SET_ROW_ADR, [AsByte(job.y)]),
     Data(JobBytes(job, buf, width))]
  }

  /** The calls of a nonempty list of transfers: the first transfer's four, then the rest's. */
  lemma JobsScriptCons(jobs: seq<Job>, buf: seq<bv8>, width: nat)
    requires jobs != []
    requires forall k :: 0 <= k < |jobs| ==> Start(jobs[k], width) + jobs[k].bytes <= |buf|
    ensures JobsScript(jobs, buf, width) == JobEvents(jobs[0], buf, width) + JobsScript(jobs[1..], buf, width)
  {
  }

  /** The transfers go out in order, four calls each: call `m` of transfer `k` is call
      `4 * k + m` of the script. */
  lemma {:induction false} JobsScriptShape(jobs: seq<Job>, buf: seq<bv8>, width: nat)
    requires forall k :: 0 <= k < |jobs| ==> Start(jobs[k], width) + jobs[k].bytes <= |buf|
    ensures |JobsScript(jobs, buf, width)| == 4 * |jobs|
    ensures forall k, m :: 0 <= k < |jobs| && 0 <= m < 4 ==>
      JobsScript(jobs, buf, width)[4 * k + m] == JobEvents(jobs[k], buf, width)[m]
    decreases |jobs|
  {
    if jobs != [] {
      var script := JobsScript(jobs, buf, width);
      var tail := JobsScript(jobs[1..], buf, width);
      JobsScriptCons(jobs, buf, width);
      JobsScriptShape(jobs[1..], buf, width);
      forall k, m | 0 <= k < |jobs| && 0 <= m < 4
        ensures script[4 * k + m] == JobEvents(jobs[k], buf, width)[m]
      {
        if k > 0 {
          assert jobs[k] == jobs[1..][k - 1];
          assert script[4 * k + m] == tail[4 * (k - 1) + m] == JobEvents(jobs[1..][k - 1], buf, width)[m];
        }
      }
    }
  }

  /** Transfer `k` of a list is calls `4 * k` .. `4 * k + 3` of its script: the column
      low and high nibbles, the row, then the bytes from the transfer's start. */
  lemma TransferAt(jobs: seq<Job>, buf: seq<bv8>, width: nat, k: nat)
    requires forall i :: 0 <= i < |jobs| ==> Start(jobs[i], width) + jobs[i].bytes <= |buf|
    requires k < |jobs|
    ensures var job, script := jobs[k], JobsScript(jobs, buf, width);
      |script| == 4 * |jobs| &&
      script[4 * k] == Cmd(SET_COL_ADR_LSB | (AsByte(job.x) & 0x0f), []) &&
      script[4 * k + 1] == Cmd(SET_COL_ADR_MSB | ((AsByte(job.x) >> 4) & 0x0f), []) &&
      script[4 * k + 2] == Cmd(SET_ROW_ADR, [AsByte(job.y)]) &&
      script[4 * k + 3] == Data(buf[Start(job, width)..Start(job, width) + job.bytes])
  {
    JobsScriptShape(jobs, buf, width);
    var script, events := JobsScript(jobs, buf, width), JobEvents(jobs[k], buf, width);
    assert script[4 * k] == events[0];
    assert script[4 * k + 1] == events[1];
    assert script[4 * k + 2] == events[2];
    assert script[4 * k + 3] == events[3];
  }

  /** A partial flush of a window narrower than the display sends one transfer per row:
      transfer `j` sets the column to the aligned start column and the row to `y + j`
      (both as bytes), then sends `(cols * 4 + 4) / 8` bytes from the byte holding the
      window's first pixel in that row. */
  lemma RowTransfers(width: nat, height: nat, x: nat, y: nat, w: nat, h: nat, buf: seq<bv8>, j: nat)
    requires width % 2 == 0 && x < width && y < height && |buf| == width * height * PIXEL_BITS / 8
    requires Window(width, height, x, y, w, h).w < width && j < Min(y + h, height) - y
    ensures var left := x - x % 2;
      var row := Job(left, y + j, (Window(width, height, x, y, w, h).w * PIXEL_BITS + PIXEL_BITS) / 8);
      var script := JobsScript(Jobs(width, height, x, y, w, h), buf, width);
      |script| == 4 * (Min(y + h, height) - y) && Start(row, width) + row.bytes <= |buf| &&
      script[4 * j] == Cmd(SET_COL_ADR_LSB | (AsByte(row.x) & 0x0f), []) &&
      script[4 * j + 1] == Cmd(SET_COL_ADR_MSB | ((AsByte(row.x) >> 4) & 0x0f), []) &&
      script[4 * j + 2] == Cmd(SET_ROW_ADR, [AsByte(row.y)]) &&
      script[4 * j + 3] == Data(buf[Start(row, width)..Start(row, width) + row.bytes])
  {
    var jobs := Jobs(width, height, x, y, w, h);
    var job := Job(x - x % 2, y + j, (Window(width, height, x, y, w, h).w * PIXEL_BITS + PIXEL_BITS) / 8);
    assert jobs[j] == job;
    TransferAt(jobs, buf, width, j);
  }

  /** A partial flush of a window as wide as the display sends one transfer: column 0,
      row `y`, then the bytes of rows `y` .. `y + rows - 1`. */
  lemma WholeRowsTransfer(width: nat, height: nat, x: nat, y: nat, w: nat, h: nat, buf: seq<bv8>)
    requires width % 2 == 0 && x < width && y < height && |buf| == width * height * PIXEL_BITS / 8
    requires Window(width, height, x, y, w, h).w == width
    ensures var rows := Min(y + h, height) - y;
      y * (width / 2) + rows * (width / 2) <= |buf| &&
      JobsScript(Jobs(width, height, x, y, w, h), buf, width) ==
        [Cmd(SET_COL_ADR_LSB | 0, []), Cmd(SET_COL_ADR_MSB | 0, []), Cmd(SET_ROW_ADR, [AsByte(y)]),
         Data(buf[y * (width / 2)..y * (width / 2) + rows * (width / 2)])]
  {
    var jobs := Jobs(width, height, x, y, w, h);
    FullWidthJob(width, height, x, y, w, h);
    JobsScriptCons(jobs, buf, width);
  }

  // ---------------------------------------------------------------------------------
  // The device

  /** `Sh1122Device`: owns its transport and a `width` x `height` framebuffer packed two
      pixels per byte, row by row, the left pixel of each pair in the high nibble. */
  class Device {
    const iface: Interface
    const width: nat
    const height: nat
    const buf: array<bv8>

    /** The buffer holds `width * height` four-bit pixels; the width is even, so every row
        starts on a byte boundary. */
    predicate Valid() {
      buf.Length == width * height * PIXEL_BITS / 8 && width % 2 == 0
    }

    /** `with_interface`: a zero-filled buffer of `width * height * 4 / 8` bytes. */
    constructor WithInterface(interface: Interface, width: nat, height: nat)
      requires width % 2 == 0
      ensures Valid() && iface == interface && this.width == width && this.height == height
      ensures fresh(buf) && buf[..] == seq(width * height * PIXEL_BITS / 8, _ => 0)
    {
      iface := interface;
      this.width := width;
      this.height := height;
      buf := new bv8[width * height * PIXEL_BITS / 8](_ => 0);
    }

    function GetWidth(): nat { width }
    function GetHeight(): nat { height }

    /** `get_idx`: the byte that holds pixel (x, y) and the shift of its nibble there. Pixel
        number `x + y * width` sits in byte number `(x + y * width) / 2`: the high nibble
        (shift 4) for an even pixel number, the low nibble (shift 0) for an odd one. */
    function GetIdx(x: nat, y: nat): (r: (nat, nat))
      requires x < width && y < height
      ensures r.0 == (x + y * width) / 2
      ensures r.1 == if (x + y * width) % 2 == 0 then 4 else 0
      ensures r.1 == 0 || r.1 == 4
    {
      var idx := x + y * width;
      var byteIdx := idx * PIXEL_BITS / 8;
      var bitIdx := 8 - PIXEL_BITS - PIXEL_BITS * (idx - byteIdx * 8 / PIXEL_BITS);
      (byteIdx, bitIdx)
    }

    /** `get_pixel`: the stored nibble of pixel (x, y), shifted back into the top of a byte;
        the low four bits always read as zero. */
    function GetPixel(x: nat, y: nat): (p: bv8)
      reads buf
      requires Valid() && x < width && y < height
      ensures (x + y * width) / 2 < buf.Length
      ensures (x + y * width) % 2 == 0 ==> p == buf[(x + y * width) / 2] & 0xf0
      ensures (x + y * width) % 2 == 1 ==> p == (buf[(x + y * width) / 2] & 0x0f) << 4
    {
      var (byteIdx, bitIdx) := GetIdx(x, y);
      ByteInBuffer(width, height, x, y);
      ReadNibbleAt(buf[byteIdx], bitIdx);
      ReadNibble(buf[byteIdx], bitIdx)
    }

    /** `set_pixel`: a read-modify-write of the one byte holding pixel (x, y). Afterwards
        the pixel reads back as the top four bits of `pixel`, every other pixel (the one
        sharing its byte included) reads as before, and no other byte changes. */
    method SetPixel(x: nat, y: nat, pixel: bv8)
      requires Valid() && x < width && y < height
      modifies buf
      ensures GetPixel(x, y) == pixel & 0xf0
      ensures forall px: nat, py: nat :: px < width && py < height && (px != x || py != y) ==>
        GetPixel(px, py) == old(GetPixel(px, py))
      ensures forall i :: 0 <= i < buf.Length && i != (x + y * width) / 2 ==> buf[i] == old(buf[i])
    {
      var (byteIdx, bitIdx) := GetIdx(x, y);
      ByteInBuffer(width, height, x, y);
      buf[byteIdx] := WriteNibble(buf[byteIdx], bitIdx, pixel);
      NibbleWriteRead(old(buf[byteIdx]), bitIdx, pixel, bitIdx);
      forall px: nat, py: nat | px < width && py < height && (px != x || py != y)
        ensures GetPixel(px, py) == old(GetPixel(px, py))
      {
        var (b, s) := GetIdx(px, py);
        if b == byteIdx {
          if s == bitIdx {
            IndexInjective(width, px, py, x, y);
          }
          NibbleWriteRead(old(buf[byteIdx]), bitIdx, pixel, s);
        }
      }
    }

    /** `fill`: every byte gets the top four bits of `pixel` in both nibbles, so every pixel
        reads back as `pixel & 0xf0`. */
    method Fill(pixel: bv8)
      requires Valid()
      modifies buf
      ensures forall i :: 0 <= i < buf.Length ==>
        buf[i] >> 4 == pixel >> PIXEL_SHIFT && buf[i] & 0x0f == pixel >> PIXEL_SHIFT
      ensures forall px: nat, py: nat :: px < width && py < height ==> GetPixel(px, py) == pixel & 0xf0
    {
      var p := pixel >> PIXEL_SHIFT;
      var dat: bv8 := 0;
      for i := 0 to 8 / PIXEL_BITS
        invariant dat & 0x0f == (if i > 0 then p else 0)
        invariant dat >> 4 == (if i > 1 then p else 0)
      {
        dat := dat | (p << (i * PIXEL_BITS));
      }
      forall i | 0 <= i < buf.Length {
        buf[i] := dat;
      }
      forall px: nat, py: nat | px < width && py < height
        ensures GetPixel(px, py) == pixel & 0xf0
      {
        ByteInBuffer(width, height, px, py);
      }
    }

    /** `partial_fill`: `set_pixel` over the rectangle. Afterwards the pixels inside it read
        `pixel & 0xf0` and every pixel outside it reads as before. */
    method PartialFill(x: nat, y: nat, w: nat, h: nat, pixel: bv8)
      requires Valid()
      requires w > 0 && h > 0 ==> x + w <= width && y + h <= height
      modifies buf
      ensures forall px: nat, py: nat :: px < width && py < height ==>
        GetPixel(px, py) == if x <= px < x + w && y <= py < y + h then pixel & 0xf0 else old(GetPixel(px, py))
    {
      for j := 0 to h
        invariant forall px: nat, py: nat :: px < width && py < height ==>
          GetPixel(px, py) == if x <= px < x + w && y <= py < y + j then pixel & 0xf0 else old(GetPixel(px, py))
      {
        for i := 0 to w
          invariant forall px: nat, py: nat :: px < width && py < height ==>
            GetPixel(px, py) ==
              if x <= px < x + w && (y <= py < y + j || (py == y + j && px < x + i)) then pixel & 0xf0
              else old(GetPixel(px, py))
        {
          label before:
          SetPixel(x + i, y + j, pixel);
          forall px: nat, py: nat | px < width && py < height
            ensures GetPixel(px, py) ==
              if x <= px < x + w && (y <= py < y + j || (py == y + j && px < x + i + 1)) then pixel & 0xf0
              else old(GetPixel(px, py))
          {
            if px != x + i || py != y + j {
              assert GetPixel(px, py) == old@before(GetPixel(px, py));
              assert (x <= px < x + w && (y <= py < y + j || (py == y + j && px < x + i + 1))) ==
                (x <= px < x + w && (y <= py < y + j || (py == y + j && px < x + i)));
            }
          }
        }
      }
    }

    // The command helpers. Each makes the calls of its script in order; a helper of one
    // call that ends in `?` and `Ok(())` returns exactly that call's result.

    method DisplayOn() returns (r: Outcome)
      modifies iface
      ensures iface.Performed(old(iface.trace), DisplayOnScript(), r)
    {
      r := iface.WriteCmd(SET_DISP | 0x01, []);
    }

    method DisplayOff() returns (r: Outcome)
      modifies iface
      ensures iface.Performed(old(iface.trace), DisplayOffScript(), r)
    {
      r := iface.WriteCmd(SET_DISP | 0x00, []);
    }

    method SetColAdr(col: bv8) returns (r: Outcome)
      modifies iface
      ensures iface.Performed(old(iface.trace), ColAdrScript(col), r)
    {
      ghost var script := ColAdrScript(col);
      ghost var t0 := iface.trace;
      assert script[1..] == [script[1]];
      :- iface.WriteCmd(SET_COL_ADR_LSB | (col & 0x0f), []);
      assert iface.trace == t0 + [script[0]];
      :- iface.WriteCmd(SET_COL_ADR_MSB | ((col >> 4) & 0x0f), []);
      assert iface.trace == t0 + [script[0], script[1]];
      r := Pass;
    }

    method SetRowAdr(row: bv8) returns (r: Outcome)
      modifies iface
      ensures iface.Performed(old(iface.trace), RowAdrScript(row), r)
    {
      r := iface.WriteCmd(SET_ROW_ADR, [row]);
    }

    method SetStartLine(line: bv8) returns (r: Outcome)
      modifies iface
      ensures iface.Performed(old(iface.trace), StartLineScript(line), r)
    {
      r := iface.WriteCmd(SET_DISP_START_LINE | (line & 0x3f), []);
    }

    method SetSegRemapOff() returns (r: Outcome)
      modifies iface
      ensures iface.Performed(old(iface.trace), SegRemapOffScript(), r)
    {
      r := iface.WriteCmd(SET_SEG_REMAP | 0x00, []);
    }

    method SetSegRemapOn() returns (r: Outcome)
      modifies iface
      ensures iface.Performed(old(iface.trace), SegRemapOnScript(), r)
    {
      r := iface.WriteCmd(SET_SEG_REMAP | 0x01, []);
    }

    method SetMuxRatio(ratio: bv8) returns (r: Outcome)
      modifies iface
      ensures iface.Performed(old(iface.trace), MuxRatioScript(ratio), r)
    {
      r := iface.WriteCmd(SET_MUX_RATIO, [ratio]);
    }

    method SetComOutputScanDir(dir: bv8) returns (r: Outcome)
      modifies iface
      ensures iface.Performed(old(iface.trace), ComOutputScanDirScript(dir), r)
    {
      r := iface.WriteCmd(SET_COM_OUT_DIR | (dir & 0x01), []);
    }

    method SetDisplayOffset(offset: bv8) returns (r: Outcome)
      modifies iface
      ensures iface.Performed(old(iface.trace), DisplayOffsetScript(offset), r)
    {
      r := iface.WriteCmd(SET_DISP_OFFSET, [offset]);
    }

    method SetContrast(contrast: bv8) returns (r: Outcome)
      modifies iface
      ensures iface.Performed(old(iface.trace), ContrastScript(contrast), r)
    {
      r := iface.WriteCmd(SET_CONTRAST, [contrast]);
    }

    method SetEntireOn() returns (r: Outcome)
      modifies iface
      ensures iface.Performed(old(iface.trace), EntireOnScript(), r)
    {
      r := iface.WriteCmd(SET_ENTIRE_ON, []);
    }

    method SetInverted(inverted: bool) returns (r: Outcome)
      modifies iface
      ensures iface.Performed(old(iface.trace), InvertedScript(inverted), r)
    {
      var flag: bv8 := if inverted then 1 else 0;
      :- iface.WriteCmd(SET_NORM_INV | flag, []);
      r := Pass;
    }

    /** `flush`: the calls of `FlushScript` up to the first failing one, and its error. */
    method Flush() returns (r: Outcome)
      requires Valid()
      modifies iface
      ensures iface.Performed(old(iface.trace), FlushScript(old(buf[..])), r)
    {
      ghost var t0 := iface.trace;
      ghost var bytes := buf[..];
      ghost var full := FlushScript(bytes);
      ghost var done: seq<Event> := [];
      Begins(t0, full, iface.faults);
      label L0:
      r := SetColAdr(0);
      if r.Fail? {
        Stops(t0, full, done, full, ColAdrScript(0), RowAdrScript(0) + [Data(bytes)], iface, old@L0(iface.trace), r);
        return;
      }
      Continues(t0, full, done, full, ColAdrScript(0), RowAdrScript(0) + [Data(bytes)], iface, old@L0(iface.trace), r);
      done := done + ColAdrScript(0);
      label L1:
      r := SetRowAdr(0);
      if r.Fail? {
        Stops(t0, full, done, RowAdrScript(0) + [Data(bytes)], RowAdrScript(0), [Data(bytes)], iface, old@L1(iface.trace), r);
        return;
      }
      Continues(t0, full, done, RowAdrScript(0) + [Data(bytes)], RowAdrScript(0), [Data(bytes)], iface, old@L1(iface.trace), r);
      done := done + RowAdrScript(0);
      label L2:
      r := iface.WriteData(buf[..]);
      if r.Fail? {
        Stops(t0, full, done, [Data(bytes)], [Data(bytes)], [], iface, old@L2(iface.trace), r);
        return;
      }
      Continues(t0, full, done, [Data(bytes)], [Data(bytes)], [], iface, old@L2(iface.trace), r);
      done := done + [Data(bytes)];
      Completes(t0, full, done, iface.trace, iface.faults);
    }

    /** Step `k` of `init_display`: the helper call on line `k` of its body. */
    method InitDisplayStep(k: nat) returns (r: Outcome)
      requires Valid() && height >= 1 && k < INIT_STEPS
      modifies iface
      ensures iface.Performed(old(iface.trace), InitStep(height, old(buf[..]), k), r)
    {
      match k
      case 0 => r := DisplayOff();
      case 1 => r := SetRowAdr(0);
      case 2 => r := SetColAdr(0);
      case 3 => r := SetStartLine(0);
      case 4 => r := SetSegRemapOn();
      case 5 => r := SetSegRemapOff();
      case 6 => r := SetMuxRatio(AsByte(height - 1));
      case 7 => r := SetComOutputScanDir(0);
      case 8 => r := SetDisplayOffset(0);
      case 9 => r := SetContrast(0x80);
      case 10 => r := SetEntireOn();
      case 11 => r := SetInverted(false);
      case 12 => r := DisplayOn();
      case 13 => r := Flush();
    }

    /** `init_display`: the calls of `InitScript` up to the first failing one, and its error. */
    method InitDisplay() returns (r: Outcome)
      requires Valid() && height >= 1
      modifies iface
      ensures iface.Performed(old(iface.trace), InitScript(height, old(buf[..])), r)
    {
      ghost var t0 := iface.trace;
      ghost var bytes := buf[..];
      ghost var full := InitScript(height, bytes);
      ghost var done: seq<Event> := [];
      Begins(t0, full, iface.faults);
      for k := 0 to INIT_STEPS
        invariant Progress(t0, full, done, InitFrom(height, bytes, k), iface.trace, iface.faults)
      {
        label step:
        r := InitDisplayStep(k);
        if r.Fail? {
          Stops(t0, full, done, InitFrom(height, bytes, k), InitStep(height, bytes, k), InitFrom(height, bytes, k + 1),
                iface, old@step(iface.trace), r);
          return;
        }
        Continues(t0, full, done, InitFrom(height, bytes, k), InitStep(height, bytes, k), InitFrom(height, bytes, k + 1),
                  iface, old@step(iface.trace), r);
        done := done + InitStep(height, bytes, k);
      }
      Completes(t0, full, done, iface.trace, iface.faults);
      r := Pass;
    }

    /** The first half of `partial_flush`, for a start on the display: move a start in a
        low nibble one pixel left, clamp the window to the display, and list its transfers,
        one of whole rows when the window is as wide as the display and one per row
        otherwise. */
    method PlanJobs(x: nat, y: nat, w: nat, h: nat) returns (jobs: seq<Job>)
      requires Valid() && x < width && y < height
      ensures jobs == Jobs(width, height, x, y, w, h)
    {
      var left, cols, rows := x, w, h;
      var (_, bitIdx) := GetIdx(x, y);
      IndexParity(width, x, y);
      if bitIdx != 8 - PIXEL_BITS {
        var adjust := (8 - PIXEL_BITS - bitIdx) / PIXEL_BITS;
        left := left - adjust;
        cols := cols + adjust;
      }
      cols := Min(cols, width - left);
      rows := Min(rows, height - y);
      assert Window(width, height, x, y, w, h) == Rect(left, y, cols, rows);
      jobs := [];
      if cols == width {
        jobs := jobs + [Job(left, y, cols * rows * PIXEL_BITS / 8)];
      } else {
        for j := 0 to rows
          invariant jobs == seq(j, k requires 0 <= k < j => Job(left, y + k, (cols * PIXEL_BITS + PIXEL_BITS) / 8))
        {
          jobs := jobs + [Job(left, y + j, (cols * PIXEL_BITS + PIXEL_BITS) / 8)];
        }
      }
    }

    /** `partial_flush(x, y, w, h)`: the transfers of `Jobs`, each one the column and row
        address (as bytes) and then the job's slice of the buffer, up to the first failing
        call, and its error. Off the display it returns Ok without a call. */
    method PartialFlush(x: nat, y: nat, w: nat, h: nat) returns (r: Outcome)
      requires Valid()
      modifies iface
      ensures iface.Performed(old(iface.trace), JobsScript(Jobs(width, height, x, y, w, h), old(buf[..]), width), r)
      ensures x >= width || y >= height ==> r == Pass && iface.trace == old(iface.trace)
    {
      if x >= width || y >= height {
        assert iface.trace == old(iface.trace) + [];
        return Pass;
      }
      var jobs := PlanJobs(x, y, w, h);
      r := SendJobs(jobs);
    }

    /** The second half of `partial_flush`: for each job in order, the column and row
        address (as bytes) and then the job's slice of the buffer, stopping at the first
        failing call. */
    method SendJobs(jobs: seq<Job>) returns (r: Outcome)
      requires Valid()
      requires forall k :: 0 <= k < |jobs| ==>
        jobs[k].x < width && jobs[k].y < height && Start(jobs[k], width) + jobs[k].bytes <= buf.Length
      modifies iface
      ensures iface.Performed(old(iface.trace), JobsScript(jobs, old(buf[..]), width), r)
    {
      ghost var t0 := iface.trace;
      ghost var bytes := buf[..];
      ghost var full := JobsScript(jobs, bytes, width);
      ghost var done: seq<Event> := [];
      Begins(t0, full, iface.faults);
      for i := 0 to |jobs|
        invariant Progress(t0, full, done, JobsScript(jobs[i..], bytes, width), iface.trace, iface.faults)
      {
        var job := jobs[i];
        var (byteIdx, _) := GetIdx(job.x, job.y);
        ghost var rest := JobsScript(jobs[i..], bytes, width);
        ghost var data := [Data(JobBytes(job, bytes, width))];
        ghost var next := JobsScript(jobs[i + 1..], bytes, width);
        assert jobs[i..][1..] == jobs[i + 1..];
        assert rest == ColAdrScript(AsByte(job.x)) + (RowAdrScript(AsByte(job.y)) + (data + next));
        assert buf[byteIdx..byteIdx + job.bytes] == JobBytes(job, bytes, width);
        label col:
        r := SetColAdr(AsByte(job.x));
        if r.Fail? {
          Stops(t0, full, done, rest, ColAdrScript(AsByte(job.x)), RowAdrScript(AsByte(job.y)) + (data + next),
                iface, old@col(iface.trace), r);
          return;
        }
        Continues(t0, full, done, rest, ColAdrScript(AsByte(job.x)), RowAdrScript(AsByte(job.y)) + (data + next),
                  iface, old@col(iface.trace), r);
        done := done + ColAdrScript(AsByte(job.x));
        label row:
        r := SetRowAdr(AsByte(job.y));
        if r.Fail? {
          Stops(t0, full, done, RowAdrScript(AsByte(job.y)) + (data + next), RowAdrScript(AsByte(job.y)), data + next,
                iface, old@row(iface.trace), r);
          return;
        }
        Continues(t0, full, done, RowAdrScript(AsByte(job.y)) + (data + next), RowAdrScript(AsByte(job.y)), data + next,
                  iface, old@row(iface.trace), r);
        done := done + RowAdrScript(AsByte(job.y));
        label write:
        r := iface.WriteData(buf[byteIdx..byteIdx + job.bytes]);
        if r.Fail? {
          Stops(t0, full, done, data + next, data, next, iface, old@write(iface.trace), r);
          return;
        }
        Continues(t0, full, done, data + next, data, next, iface, old@write(iface.trace), r);
        done := done + data;
      }
      Completes(t0, full, done, iface.trace, iface.faults);
      r := Pass;
    }
  }
}
