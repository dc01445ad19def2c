/**
 The SSD1683 e-paper driver (400 x 300 panel), reduced to what it puts on
 the SPI bus. Every `_cmd` is a command event (D/C low) and every `_dat`
 or bulk write a run of data events (D/C high); the controller reads a
 command together with the data that follows it as one transfer. The
 framebuffer is MONO_HLSB: one bit per pixel, rows of `width / 8` bytes,
 so the driver addresses it in byte columns of eight pixels.
 */
module Ssd1683 {
  import opened Bytes
  import opened Maybe

  // Controller commands used by the partial-update and clear paths.
  const DataEntryMode: byte := 0x11
  const MasterActivation: byte := 0x20
  const UpdateControl1: byte := 0x21
  const UpdateControl2: byte := 0x22
  const WriteRamBw: byte := 0x24
  const WriteRamRed: byte := 0x26
  const BorderWaveform: byte := 0x3C
  const RamXWindow: byte := 0x44
  const RamYWindow: byte := 0x45
  const RamXCounter: byte := 0x4E
  const RamYCounter: byte := 0x4F

  // Update sequences selected through UpdateControl2.
  const FullUpdate: byte := 0xF7
  const PartialUpdate: byte := 0xFF

  /** The font of `FrameBuffer.text` is eight pixels high and wide. */
  const GlyphSize: nat := 8

  datatype Event = Cmd(code: byte) | Dat(value: byte)

  datatype Transfer = Transfer(command: byte, payload: seq<byte>)

  /** The driver object: panel size, framebuffer, and every event sent so far. */
  datatype Display = Display(width: int, height: int, buf: seq<byte>, trace: seq<Event>)

  /** Both are `ValueError` in the driver, with different messages. */
  datatype Error = Misaligned | OutOfBounds

  type Result<+T> = Outcome<T, Error>

  /** The framebuffer layout the geometry lemmas assume: whole byte columns. */
  predicate Geometry(d: Display)
  {
    d.width > 0 && d.width % 8 == 0 && d.height >= 0 && |d.buf| == (d.width / 8) * d.height
  }

  /** The events `d` sent after the state `before`. */
  function Sent(before: Display, d: Display): seq<Event>
    requires |before.trace| <= |d.trace|
  {
    d.trace[|before.trace|..]
  }

  /*
   * The bus and how the controller reads it.
   */

  /** Data events carrying `bytes` in order: `_dat` per byte or one `_data_bulk`. */
  function Data(bytes: seq<byte>): (r: seq<Event>)
    ensures |r| == |bytes|
    ensures forall i :: 0 <= i < |bytes| ==> r[i] == Dat(bytes[i])
  {
    seq(|bytes|, i requires 0 <= i < |bytes| => Dat(bytes[i]))
  }

  /** The events of a list of transfers: each command, then its data. */
  function Emit(ts: seq<Transfer>): (r: seq<Event>)
    ensures ts == [] <==> r == []
    ensures ts != [] ==> r[0] == Cmd(ts[0].command)
  {
    if ts == [] then [] else [Cmd(ts[0].command)] + Data(ts[0].payload) + Emit(ts[1..])
  }

  /** The data bytes at the head of `events`, up to the first command. */
  function Payload(events: seq<Event>): (r: seq<byte>)
    ensures |r| <= |events|
    ensures forall i :: 0 <= i < |r| ==> events[i] == Dat(r[i])
    ensures |r| < |events| ==> events[|r|].Cmd?
  {
    if events == [] || events[0].Cmd? then [] else [events[0].value] + Payload(events[1..])
  }

  /**
   The transfers the controller sees on the bus: each command with the
   data that follows it. Data before the first command belongs to no
   transfer and is dropped.
   */
  function Parse(events: seq<Event>): seq<Transfer>
    decreases |events|
  {
    if events == [] then []
    else if events[0].Dat? then Parse(events[1..])
    else
      var p := Payload(events[1..]);
      [Transfer(events[0].code, p)] + Parse(events[1 + |p|..])
  }

  /** What sits at position `i` of a data run followed by `rest`. */
  lemma DataAt(p: seq<byte>, rest: seq<Event>, i: nat)
    ensures i < |p| ==> (Data(p) + rest)[i] == Dat(p[i])
    ensures i == |p| < |p| + |rest| ==> (Data(p) + rest)[i] == rest[0]
  {
  }

  /** A run of data ended by a command (or by the end) is read back whole. */
  lemma PayloadOfData(p: seq<byte>, rest: seq<Event>)
    requires rest == [] || rest[0].Cmd?
    ensures Payload(Data(p) + rest) == p
  {
    var e := Data(p) + rest;
    var r := Payload(e);
    DataAt(p, rest, |r|);
    DataAt(p, rest, |p|);
    assert |r| == |p|;
    forall i | 0 <= i < |p|
      ensures r[i] == p[i]
    {
      DataAt(p, rest, i);
    }
  }

  /** A command with its data run, read off the bus ahead of whatever follows. */
  lemma ParseCommand(c: byte, p: seq<byte>, rest: seq<Event>)
    requires rest == [] || rest[0].Cmd?
    ensures Parse([Cmd(c)] + Data(p) + rest) == [Transfer(c, p)] + Parse(rest)
  {
    var e := [Cmd(c)] + Data(p) + rest;
    assert e[1..] == Data(p) + rest;
    PayloadOfData(p, rest);
    assert e[1 + |p|..] == rest;
  }

  /** Reading the bus back yields exactly the transfers that were sent. */
  lemma {:induction false} ParseEmit(ts: seq<Transfer>)
    ensures Parse(Emit(ts)) == ts
  {
    if ts != [] {
      var rest := Emit(ts[1..]);
      assert Emit(ts) == [Cmd(ts[0].command)] + Data(ts[0].payload) + rest;
      ParseCommand(ts[0].command, ts[0].payload, rest);
      ParseEmit(ts[1..]);
      assert [ts[0]] + ts[1..] == ts;
    }
  }

  /*
   * RAM addressing: `_pos` and `_cur`.
   */

  /** `(v >> 3) & 0xFF`: the byte column holding pixel column `v`. */
  function XAddress(v: int): (r: byte)
    ensures 0 <= v < 2048 ==> 8 * (r as int) <= v < 8 * (r as int) + 8
  {
    (v / 8) % 256
  }

  /** `v & 0xFF, (v >> 8) & 0xFF`: a row number as two bytes, low first. */
  function Le16(v: int): (r: seq<byte>)
    ensures |r| == 2 && U16LE(r, 0) == v % 0x1_0000
  {
    [v % 256, (v / 256) % 256]
  }

  /** `_pos`: the RAM window from (x1, y1) to (x2, y2), both corners included. */
  function Window(x1: int, y1: int, x2: int, y2: int): (r: seq<Transfer>)
    ensures |r| == 2 && r[0].command == RamXWindow && r[1].command == RamYWindow
    ensures |r[0].payload| == 2 && |r[1].payload| == 4
    ensures 0 <= x1 < 2048 ==> 8 * (r[0].payload[0] as int) <= x1 < 8 * (r[0].payload[0] as int) + 8
    ensures 0 <= x2 < 2048 ==> 8 * (r[0].payload[1] as int) <= x2 < 8 * (r[0].payload[1] as int) + 8
    ensures U16LE(r[1].payload, 0) == y1 % 0x1_0000 && U16LE(r[1].payload, 2) == y2 % 0x1_0000
  {
    var ys := Le16(y1) + Le16(y2);
    assert U16LE(ys, 2) == U16LE(Le16(y2), 0);
    [Transfer(RamXWindow, [XAddress(x1), XAddress(x2)]), Transfer(RamYWindow, ys)]
  }

  /** `_cur`: the RAM address counter at pixel (x, y). */
  function Cursor(x: int, y: int): (r: seq<Transfer>)
    ensures |r| == 2 && r[0].command == RamXCounter && r[1].command == RamYCounter
    ensures |r[0].payload| == 1 && |r[1].payload| == 2
    ensures 0 <= x < 2048 ==> 8 * (r[0].payload[0] as int) <= x < 8 * (r[0].payload[0] as int) + 8
    ensures U16LE(r[1].payload, 0) == y % 0x1_0000
  {
    [Transfer(RamXCounter, [XAddress(x)]), Transfer(RamYCounter, Le16(y))]
  }

  /** `_update_full`, `_update_part`: select an update sequence and run it. */
  function Refresh(mode: byte): seq<Transfer>
  {
    [Transfer(UpdateControl2, [mode]), Transfer(MasterActivation, [])]
  }

  /** Border off, clock and analog as for partial updates, X+ Y+ data entry. */
  function PartialSetup(): seq<Transfer>
  {
    [ Transfer(BorderWaveform, [0x80]), Transfer(UpdateControl1, [0x00, 0x00]),
      Transfer(BorderWaveform, [0x80]), Transfer(DataEntryMode, [0x03]) ]
  }

  /*
   * Which framebuffer bytes a window covers.
   */

  /**
   Whether framebuffer byte `k` (row `k / stride`, byte column
   `k % stride`) lies in the window of `cols` byte columns from `col` and
   `rows` rows from `top`.
   */
  predicate InWindow(k: nat, stride: nat, col: int, cols: int, top: int, rows: int)
    requires stride > 0
  {
    top <= k / stride < top + rows && col <= k % stride < col + cols
  }

  /** The framebuffer bytes from index `from` on that lie in the window, in buffer order. */
  function Select(buf: seq<byte>, stride: nat, col: int, cols: int, top: int, rows: int, from: nat): (r: seq<byte>)
    ensures forall i :: 0 <= i < |r| ==> r[i] in buf
    decreases |buf| - from
  {
    if from >= |buf| || stride == 0 then []
    else
      (if InWindow(from, stride, col, cols, top, rows) then [buf[from]] else [])
      + Select(buf, stride, col, cols, top, rows, from + 1)
  }

  /** The loop of `show_partial`: for each row in [row, end), `buf[start:start + count]`. */
  function Rows(buf: seq<byte>, stride: int, col: int, count: int, row: int, end: int): seq<byte>
    decreases end - row
  {
    if row >= end then []
    else PySlice(buf, row * stride + col, row * stride + col + count) + Rows(buf, stride, col, count, row + 1, end)
  }

  /** One step of `Select`: byte `k`, if it is in the window, then the rest. */
  lemma SelectStep(buf: seq<byte>, s: nat, col: int, cols: int, top: int, rows: int, k: nat)
    requires s > 0 && k < |buf|
    ensures Select(buf, s, col, cols, top, rows, k)
      == (if InWindow(k, s, col, cols, top, rows) then [buf[k]] else []) + Select(buf, s, col, cols, top, rows, k + 1)
  {
  }

  /** Byte `c` of row `r` starts at `base = s * r`. */
  lemma Cell(s: nat, r: nat, base: nat, c: nat)
    requires c < s && base == s * r
    ensures (base + c) / s == r && (base + c) % s == c
  {
    DivMulAdd(c, r, s);
  }

  /** Past the window's last column nothing more of the row is selected. */
  lemma {:induction false} SelectRowEnd(buf: seq<byte>, s: nat, col: int, cols: int, top: int, rows: int, r: nat, base: nat, c: nat)
    requires base == s * r && col + cols <= c <= s && base + s <= |buf|
    ensures Select(buf, s, col, cols, top, rows, base + c) == Select(buf, s, col, cols, top, rows, base + s)
    decreases s - c
  {
    if c < s {
      Cell(s, r, base, c);
      SelectStep(buf, s, col, cols, top, rows, base + c);
      SelectRowEnd(buf, s, col, cols, top, rows, r, base, c + 1);
    }
  }

  /** Inside the window's columns, the rest of the row's window is selected. */
  lemma {:induction false} SelectRowWindow(buf: seq<byte>, s: nat, col: int, cols: int, top: int, rows: int, r: nat, base: nat, c: nat)
    requires base == s * r && col <= c <= col + cols <= s && base + s <= |buf|
    ensures Select(buf, s, col, cols, top, rows, base + c)
      == (if top <= r < top + rows then buf[base + c..base + col + cols] else [])
      + Select(buf, s, col, cols, top, rows, base + s)
    decreases col + cols - c
  {
    if c == col + cols {
      SelectRowEnd(buf, s, col, cols, top, rows, r, base, c);
    } else {
      Cell(s, r, base, c);
      SelectStep(buf, s, col, cols, top, rows, base + c);
      SelectRowWindow(buf, s, col, cols, top, rows, r, base, c + 1);
      if top <= r < top + rows {
        var e := base + col + cols;
        assert buf[base + c..e] == [buf[base + c]] + buf[base + c + 1..e];
      }
    }
  }

  /** Before the window's first column nothing of the row is selected. */
  lemma {:induction false} SelectRowStart(buf: seq<byte>, s: nat, col: int, cols: int, top: int, rows: int, r: nat, base: nat, c: nat)
    requires base == s * r && 0 <= c <= col <= s && base + s <= |buf|
    ensures Select(buf, s, col, cols, top, rows, base + c) == Select(buf, s, col, cols, top, rows, base + col)
    decreases col - c
  {
    if c < col {
      Cell(s, r, base, c);
      SelectStep(buf, s, col, cols, top, rows, base + c);
      SelectRowStart(buf, s, col, cols, top, rows, r, base, c + 1);
    }
  }

  /** One whole row: its window bytes, then the rows below. */
  lemma SelectRow(buf: seq<byte>, s: nat, col: nat, cols: nat, top: int, rows: int, r: nat, base: nat)
    requires s > 0 && col + cols <= s && base == s * r && base + s <= |buf|
    ensures Select(buf, s, col, cols, top, rows, base)
      == (if top <= r < top + rows then buf[base + col..base + col + cols] else [])
      + Select(buf, s, col, cols, top, rows, base + s)
  {
    SelectRowStart(buf, s, col, cols, top, rows, r, base, 0);
    SelectRowWindow(buf, s, col, cols, top, rows, r, base, col);
  }

  /**
   From row `r` down, the bytes the row loop streams are the framebuffer
   bytes inside the window.
   */
  lemma {:induction false} RowsSelect(buf: seq<byte>, s: nat, col: nat, cols: nat, top: nat, rows: int, height: nat, r: nat, base: nat)
    requires s > 0 && col + cols <= s && |buf| == s * height
    requires top + rows <= height && r <= height && base == s * r
    ensures Select(buf, s, col, cols, top, rows, base)
      == Rows(buf, s, col, cols, if r < top then top else r, top + rows)
    decreases height - r
  {
    if r == height {
      assert Select(buf, s, col, cols, top, rows, base) == [];
    } else {
      RowBelow(s, r, base, height);
      RowsSelect(buf, s, col, cols, top, rows, height, r + 1, base + s);
      RowsSelectStep(buf, s, col, cols, top, rows, r, base);
    }
  }

  /** Row r + 1 starts one stride after row r and, above the last row, ends inside the buffer. */
  lemma RowBelow(s: nat, r: nat, base: nat, height: nat)
    requires base == s * r && r < height
    ensures base + s == s * (r + 1) && base + s <= s * height
  {
    MulMonotone(s, r + 1, height);
  }

  /** The step of `RowsSelect`: from row r + 1 to row r. */
  lemma RowsSelectStep(buf: seq<byte>, s: nat, col: nat, cols: nat, top: nat, rows: int, r: nat, base: nat)
    requires s > 0 && col + cols <= s && base == s * r && base + s <= |buf|
    requires Select(buf, s, col, cols, top, rows, base + s)
      == Rows(buf, s, col, cols, if r + 1 < top then top else r + 1, top + rows)
    ensures Select(buf, s, col, cols, top, rows, base)
      == Rows(buf, s, col, cols, if r < top then top else r, top + rows)
  {
    SelectRow(buf, s, col, cols, top, rows, r, base);
    if top <= r < top + rows {
      RowsInside(buf, s, col, cols, r, base, top + rows);
    }
  }

  /** A row of the window: its slice, then the rows below. */
  lemma RowsInside(buf: seq<byte>, s: nat, col: nat, cols: nat, r: nat, base: nat, end: int)
    requires col + cols <= s && base == s * r && base + s <= |buf| && r < end
    ensures Rows(buf, s, col, cols, r, end) == buf[base + col..base + col + cols] + Rows(buf, s, col, cols, r + 1, end)
  {
    RowSlice(buf, s, col, cols, r, base);
  }

  /** A row's slice lies inside the framebuffer, so Python's slice is the plain one. */
  lemma RowSlice(buf: seq<byte>, s: nat, col: nat, cols: nat, r: nat, base: nat)
    requires col + cols <= s && base == s * r && base + s <= |buf|
    ensures PySlice(buf, r * s + col, r * s + col + cols) == buf[base + col..base + col + cols]
  {
  }

  /** The row loop streams `rows` rows of `cols` bytes each. */
  lemma {:induction false} RowsLength(buf: seq<byte>, s: nat, col: nat, cols: nat, row: nat, end: nat, height: nat)
    requires col + cols <= s && |buf| == s * height && row <= end <= height
    ensures |Rows(buf, s, col, cols, row, end)| == (end - row) * cols
    decreases end - row
  {
    if row < end {
      var base := s * row;
      MulMonotone(s, row + 1, height);
      assert s * (row + 1) == base + s;
      RowSlice(buf, s, col, cols, row, base);
      RowsLength(buf, s, col, cols, row + 1, end, height);
      var n := end - (row + 1);
      assert (n + 1) * cols == n * cols + cols;
    }
  }

  /*
   * show_partial and show_partial_advanced.
   */

  /** The driver's bounds check on a window. */
  predicate InBounds(d: Display, x: int, y: int, w: int, h: int)
  {
    x >= 0 && y >= 0 && x + w <= d.width && y + h <= d.height
  }

  /** The windows `show_partial` accepts: byte-aligned, of non-negative size, on the panel. */
  predicate PartialAccepted(d: Display, x: int, y: int, w: int, h: int)
  {
    x % 8 == 0 && w % 8 == 0 && InBounds(d, x, y, w, h) && w >= 0 && h >= 0
  }

  /**
   Everything a partial update sends once the window is accepted, with the
   window already widened to whole byte columns: set-up, RAM window and
   counter, the window's framebuffer bytes to the black/white RAM, then the
   partial refresh.
   */
  function StreamWindow(d: Display, x: int, y: int, w: int, h: int): seq<Transfer>
  {
    PartialSetup() + Window(x, y, x + w - 1, y + h - 1) + Cursor(x, y)
    + [Transfer(WriteRamBw, Rows(d.buf, d.width / 8, x / 8, w / 8, y, y + h))]
    + Refresh(PartialUpdate)
  }

  function Streamed(d: Display, x: int, y: int, w: int, h: int): Display
  {
    d.(trace := d.trace + Emit(StreamWindow(d, x, y, w, h)))
  }

  /**
   `show_partial`, with `checkExtent` choosing whether a negative width or
   height is refused (the driver does not refuse it).
   */
  function ShowPartialWith(d: Display, x: int, y: int, w: int, h: int, checkExtent: bool): Result<Display>
  {
    if x % 8 != 0 || w % 8 != 0 then Fail(Misaligned)
    else if !InBounds(d, x, y, w, h) || (checkExtent && (w < 0 || h < 0)) then Fail(OutOfBounds)
    else Ok(Streamed(d, x, y, w, h))
  }

  /** `show_partial` as the driver has it. */
  function ShowPartialAsWritten(d: Display, x: int, y: int, w: int, h: int): (r: Result<Display>)
    ensures r.Fail? <==> !(x % 8 == 0 && w % 8 == 0 && InBounds(d, x, y, w, h))
    ensures r.Fail? ==> (r.error == Misaligned <==> !(x % 8 == 0 && w % 8 == 0))
    ensures r.Ok? ==> r.value.buf == d.buf && |d.trace| <= |r.value.trace| && r.value.trace[..|d.trace|] == d.trace
  {
    ShowPartialWith(d, x, y, w, h, false)
  }

  /** `show_partial`, also refusing a window of negative width or height. */
  function ShowPartial(d: Display, x: int, y: int, w: int, h: int): (r: Result<Display>)
    ensures r.Fail? <==> !PartialAccepted(d, x, y, w, h)
    ensures r.Fail? ==> (r.error == Misaligned <==> !(x % 8 == 0 && w % 8 == 0))
    ensures r.Ok? ==> r.value.buf == d.buf && |d.trace| <= |r.value.trace| && r.value.trace[..|d.trace|] == d.trace
  {
    ShowPartialWith(d, x, y, w, h, true)
  }

  /** The extra check changes nothing for a window of non-negative size. */
  lemma ShowPartialAgrees(d: Display, x: int, y: int, w: int, h: int)
    requires w >= 0 && h >= 0
    ensures ShowPartial(d, x, y, w, h) == ShowPartialAsWritten(d, x, y, w, h)
  {
  }

  /** The transfers of an accepted partial update, read off the bus. */
  lemma StreamedParts(d: Display, x: int, y: int, w: int, h: int)
    ensures |d.trace| <= |Streamed(d, x, y, w, h).trace|
    ensures var ts := Parse(Sent(d, Streamed(d, x, y, w, h)));
      && |ts| == 11 && ts[..4] == PartialSetup()
      && ts[4..6] == Window(x, y, x + w - 1, y + h - 1) && ts[6..8] == Cursor(x, y)
      && ts[8] == Transfer(WriteRamBw, Rows(d.buf, d.width / 8, x / 8, w / 8, y, y + h))
      && ts[9..] == Refresh(PartialUpdate)
  {
    var sw := StreamWindow(d, x, y, w, h);
    assert Sent(d, Streamed(d, x, y, w, h)) == Emit(sw);
    ParseEmit(sw);
    StreamWindowParts(d, x, y, w, h);
  }

  lemma StreamWindowParts(d: Display, x: int, y: int, w: int, h: int)
    ensures var sw := StreamWindow(d, x, y, w, h);
      && |sw| == 11 && sw[..4] == PartialSetup()
      && sw[4..6] == Window(x, y, x + w - 1, y + h - 1) && sw[6..8] == Cursor(x, y)
      && sw[8] == Transfer(WriteRamBw, Rows(d.buf, d.width / 8, x / 8, w / 8, y, y + h))
      && sw[9..] == Refresh(PartialUpdate)
  {
    var a := PartialSetup();
    var b := Window(x, y, x + w - 1, y + h - 1);
    var c := Cursor(x, y);
    var t := Transfer(WriteRamBw, Rows(d.buf, d.width / 8, x / 8, w / 8, y, y + h));
    var e := Refresh(PartialUpdate);
    var sw := a + b + c + [t] + e;
    assert StreamWindow(d, x, y, w, h) == sw;
    assert |a| == 4 && |e| == 2;
    assert sw[..4] == a;
    assert sw[4..6] == b;
    assert sw[6..8] == c;
    assert sw[9..] == e;
  }

  /**
   The window's bytes, in the framebuffer's terms: the bytes inside the
   window, row by row, `rows * cols` of them.
   */
  lemma WindowBytes(d: Display, col: nat, cols: nat, y: nat, h: nat)
    requires Geometry(d) && col + cols <= d.width / 8 && y + h <= d.height
    ensures Rows(d.buf, d.width / 8, col, cols, y, y + h) == Select(d.buf, d.width / 8, col, cols, y, h, 0)
    ensures |Rows(d.buf, d.width / 8, col, cols, y, y + h)| == h * cols
  {
    var s := d.width / 8;
    RowsSelect(d.buf, s, col, cols, y, h, d.height, 0, 0);
    RowsLength(d.buf, s, col, cols, y, y + h, d.height);
    assert (y + h - y) * cols == h * cols;
  }

  /**
   The bytes written to the black/white RAM are exactly the framebuffer
   bytes inside the window, row by row, `h * w / 8` of them, between the
   partial-update set-up and the partial refresh.
   */
  lemma ShowPartialStream(d: Display, x: int, y: int, w: int, h: int)
    requires Geometry(d) && PartialAccepted(d, x, y, w, h)
    ensures ShowPartial(d, x, y, w, h).Ok?
    ensures var ts := Parse(Sent(d, ShowPartial(d, x, y, w, h).value));
      && |ts| == 11
      && ts[..4] == PartialSetup() && ts[9..] == Refresh(PartialUpdate)
      && ts[8] == Transfer(WriteRamBw, Select(d.buf, d.width / 8, x / 8, w / 8, y, h, 0))
      && |ts[8].payload| == h * (w / 8)
  {
    assert ShowPartial(d, x, y, w, h).value == Streamed(d, x, y, w, h);
    StreamedParts(d, x, y, w, h);
    WindowBytes(d, x / 8, w / 8, y, h);
  }

  /**
   For a non-empty window on a panel within the controller's address
   range, the RAM window runs from byte column x / 8 through the column
   ending at x + w, and from row y through row y + h - 1; the address
   counter starts at its top-left corner.
   */
  lemma ShowPartialAddresses(d: Display, x: int, y: int, w: int, h: int)
    requires d.width <= 2048 && d.height <= 0x1_0000
    requires PartialAccepted(d, x, y, w, h) && w > 0 && h > 0
    ensures ShowPartial(d, x, y, w, h).Ok?
    ensures var ts := Parse(Sent(d, ShowPartial(d, x, y, w, h).value));
      && |ts| == 11
      && ts[4].command == RamXWindow && |ts[4].payload| == 2
      && 8 * (ts[4].payload[0] as int) == x && 8 * (ts[4].payload[1] as int + 1) == x + w
      && ts[5].command == RamYWindow && |ts[5].payload| == 4
      && U16LE(ts[5].payload, 0) == y && U16LE(ts[5].payload, 2) == y + h - 1
      && ts[6].command == RamXCounter && |ts[6].payload| == 1 && 8 * (ts[6].payload[0] as int) == x
      && ts[7].command == RamYCounter && |ts[7].payload| == 2 && U16LE(ts[7].payload, 0) == y
  {
    assert ShowPartial(d, x, y, w, h).value == Streamed(d, x, y, w, h);
    StreamedParts(d, x, y, w, h);
    var ts := Parse(Sent(d, Streamed(d, x, y, w, h)));
    var b := Window(x, y, x + w - 1, y + h - 1);
    var c := Cursor(x, y);
    assert ts[4] == b[0] && ts[5] == b[1] && ts[6] == c[0] && ts[7] == c[1] by {
      assert ts[4..6] == b && ts[6..8] == c;
    }
    CornerAddresses(x, y, w, h);
  }

  /** On the controller's address range, `_pos` and `_cur` encode the window's corners exactly. */
  lemma CornerAddresses(x: int, y: int, w: int, h: int)
    requires 0 <= x && x % 8 == 0 && w % 8 == 0 && 0 < w && x + w <= 2048
    requires 0 <= y && 0 < h && y + h <= 0x1_0000
    ensures var b := Window(x, y, x + w - 1, y + h - 1);
      && 8 * (b[0].payload[0] as int) == x && 8 * (b[0].payload[1] as int + 1) == x + w
      && U16LE(b[1].payload, 0) == y && U16LE(b[1].payload, 2) == y + h - 1
    ensures var c := Cursor(x, y);
      8 * (c[0].payload[0] as int) == x && U16LE(c[1].payload, 0) == y
  {
  }

  /**
   The window `show_partial_advanced` widens (x, w) to: the byte column
   holding x up to the first column boundary at or after x + w.
   */
  function AlignedWindow(x: int, w: int): (r: (int, int))
    ensures r.0 % 8 == 0 && r.0 <= x < r.0 + 8
    ensures (r.0 + r.1) % 8 == 0 && x + w <= r.0 + r.1 < x + w + 8
  {
    var left := (x / 8) * 8;
    (left, ((x + w + 7) / 8) * 8 - left)
  }

  function ShowPartialAdvancedWith(d: Display, x: int, y: int, w: int, h: int, checkExtent: bool): Result<Display>
  {
    if !InBounds(d, x, y, w, h) || (checkExtent && (w < 0 || h < 0)) then Fail(OutOfBounds)
    else
      var (left, width) := AlignedWindow(x, w);
      Ok(Streamed(d, left, y, width, h))
  }

  /** `show_partial_advanced` as the driver has it. */
  function ShowPartialAdvancedAsWritten(d: Display, x: int, y: int, w: int, h: int): (r: Result<Display>)
    ensures r.Fail? <==> !InBounds(d, x, y, w, h)
    ensures r.Fail? ==> r.error == OutOfBounds
    ensures r.Ok? ==> r.value.buf == d.buf && |d.trace| <= |r.value.trace| && r.value.trace[..|d.trace|] == d.trace
  {
    ShowPartialAdvancedWith(d, x, y, w, h, false)
  }

  /** `show_partial_advanced`, also refusing a window of negative width or height. */
  function ShowPartialAdvanced(d: Display, x: int, y: int, w: int, h: int): (r: Result<Display>)
    ensures r.Fail? <==> !(InBounds(d, x, y, w, h) && w >= 0 && h >= 0)
    ensures r.Fail? ==> r.error == OutOfBounds
    ensures r.Ok? ==> r.value.buf == d.buf && |d.trace| <= |r.value.trace| && r.value.trace[..|d.trace|] == d.trace
  {
    ShowPartialAdvancedWith(d, x, y, w, h, true)
  }

  /** On a byte-aligned window the advanced update sends what `show_partial` sends. */
  lemma AdvancedAgreesWhenAligned(d: Display, x: int, y: int, w: int, h: int)
    requires x % 8 == 0 && w % 8 == 0
    ensures ShowPartialAdvanced(d, x, y, w, h) == ShowPartial(d, x, y, w, h)
    ensures ShowPartialAdvancedAsWritten(d, x, y, w, h) == ShowPartialAsWritten(d, x, y, w, h)
  {
    var (left, width) := AlignedWindow(x, w);
    assert left == x && width == w;
  }

  /** A multiple of 8 less than 8 past another multiple of 8 is at most it. */
  lemma RoundedUpWithin(v: int, limit: int)
    requires v % 8 == 0 && limit % 8 == 0 && v < limit + 8
    ensures v <= limit
  {
    assert v == 8 * (v / 8) && limit == 8 * (limit / 8);
  }

  /**
   The advanced update streams the framebuffer bytes of the widened
   window, which covers every requested pixel column and stays on the
   panel.
   */
  lemma ShowPartialAdvancedStream(d: Display, x: int, y: int, w: int, h: int)
    requires Geometry(d) && InBounds(d, x, y, w, h) && w >= 0 && h >= 0
    ensures ShowPartialAdvanced(d, x, y, w, h).Ok?
    ensures var a := AlignedWindow(x, w);
      && 0 <= a.0 <= x && x + w <= a.0 + a.1 <= d.width
      && var ts := Parse(Sent(d, ShowPartialAdvanced(d, x, y, w, h).value));
      && |ts| == 11
      && ts[8] == Transfer(WriteRamBw, Select(d.buf, d.width / 8, a.0 / 8, a.1 / 8, y, h, 0))
      && |ts[8].payload| == h * (a.1 / 8)
  {
    var a := AlignedWindow(x, w);
    var left, width := a.0, a.1;
    RoundedUpWithin(left + width, d.width);
    assert ShowPartialAdvanced(d, x, y, w, h).value == Streamed(d, left, y, width, h);
    StreamedParts(d, left, y, width, h);
    WindowBytes(d, left / 8, width / 8, y, h);
  }

  /*
   * The negative-width window.
   */

  /**
   The driver accepts x = 0, w = -8: the row slice `buf[0:-1]` then
   reaches back from the end of the framebuffer, so a window with no
   columns streams all of it but the last byte.
   */
  lemma NegativeWidthStreamsBuffer(d: Display, x: int, y: int, w: int, h: int)
    requires Geometry(d) && d.height >= 1
    requires x == 0 && y == 0 && w == -8 && h == 1
    ensures ShowPartial(d, x, y, w, h).Fail?
    ensures ShowPartialAsWritten(d, x, y, w, h).Ok?
    ensures var ts := Parse(Sent(d, ShowPartialAsWritten(d, x, y, w, h).value));
      && |ts| == 11 && ts[8] == Transfer(WriteRamBw, d.buf[..|d.buf| - 1])
  {
    MulMonotone(d.width / 8, 1, d.height);
    StreamedParts(d, x, y, w, h);
    assert Rows(d.buf, d.width / 8, 0, -1, 1, 1) == [];
  }

  /*
   * clear and text_partial.
   */

  /** `0xFF if color else 0x00`: white or black. */
  function Fill(color: bool): byte
  {
    if color then 0xFF else 0x00
  }

  /** `clear`: fill the framebuffer and both controller RAMs, then refresh fully. */
  function Clear(d: Display, color: bool): (r: Display)
    ensures r.width == d.width && r.height == d.height
    ensures |r.buf| == |d.buf| && forall i :: 0 <= i < |r.buf| ==> r.buf[i] == Fill(color)
    ensures |d.trace| <= |r.trace| && r.trace[..|d.trace|] == d.trace
  {
    var cleared := seq(|d.buf|, _ => Fill(color));
    var ts := [Transfer(WriteRamBw, cleared), Transfer(WriteRamRed, cleared)] + Refresh(FullUpdate);
    d.(buf := cleared, trace := d.trace + Emit(ts))
  }

  /** After `clear` both RAMs hold the new framebuffer, followed by a full refresh. */
  lemma ClearSyncsRams(d: Display, color: bool)
    ensures var r := Clear(d, color);
      var ts := Parse(Sent(d, r));
      && |ts| == 4
      && ts[0] == Transfer(WriteRamBw, r.buf)
      && ts[1] == Transfer(WriteRamRed, r.buf)
      && ts[2..] == Refresh(FullUpdate)
  {
    var r := Clear(d, color);
    var ts := [Transfer(WriteRamBw, r.buf), Transfer(WriteRamRed, r.buf)] + Refresh(FullUpdate);
    assert Sent(d, r) == Emit(ts);
    ParseEmit(ts);
  }

  /** After `clear`, any partial update streams only the clear colour. */
  lemma ClearThenPartial(d: Display, color: bool, x: int, y: int, w: int, h: int)
    requires Geometry(d) && PartialAccepted(d, x, y, w, h)
    ensures ShowPartial(Clear(d, color), x, y, w, h).Ok?
    ensures var c := Clear(d, color);
      var ts := Parse(Sent(c, ShowPartial(c, x, y, w, h).value));
      && |ts| == 11
      && forall i :: 0 <= i < |ts[8].payload| ==> ts[8].payload[i] == Fill(color)
  {
    var c := Clear(d, color);
    ShowPartialStream(c, x, y, w, h);
  }

  /** `((len(text) * 8 + 7) // 8) * 8`: eight pixels per character. */
  function TextWidth(text: string): (r: int)
    ensures r == GlyphSize * |text|
  {
    ((|text| * 8 + 7) / 8) * 8
  }

  /**
   `text_partial`: `drawn` is the framebuffer after `FrameBuffer.text`
   has drawn the string; with `update` the text's cell box is refreshed.
   */
  function TextPartial(d: Display, drawn: seq<byte>, text: string, x: int, y: int, update: bool): (r: Result<Display>)
    ensures !update ==> r == Ok(d.(buf := drawn))
    ensures update ==> (r.Ok? <==> x % 8 == 0 && InBounds(d, x, y, GlyphSize * |text|, GlyphSize))
    ensures r.Ok? ==> r.value.buf == drawn
  {
    var drawnDisplay := d.(buf := drawn);
    if update then ShowPartial(drawnDisplay, x, y, TextWidth(text), GlyphSize) else Ok(drawnDisplay)
  }

  /** The text's refresh is the partial update of its 8-pixel-high cell box. */
  lemma TextPartialWindow(d: Display, drawn: seq<byte>, text: string, x: int, y: int)
    ensures TextPartial(d, drawn, text, x, y, true) == ShowPartial(d.(buf := drawn), x, y, GlyphSize * |text|, GlyphSize)
  {
  }
}
