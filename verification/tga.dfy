/** The TGA writer: an 18-byte header for a run-length-encoded true-colour
    image (image type 10 of the Truevision TGA 2.0 format), then every row
    encoded on its own as RLE and RAW packets of 1 to 128 pixels. Writing to
    the file is modelled as producing the byte sequence that would be written. */
module Tga {
  import opened Options

  newtype Byte = b: int | 0 <= b < 256

  /** One pixel: three bytes as stored, compared as one 24-bit value. */
  datatype Pixel = Pixel(b0: Byte, b1: Byte, b2: Byte)

  const MaxPacketPixels := 128
  const ImageTypeRleTrueColour: Byte := 10
  const PixelDepth: Byte := 24

  function PixelBytes(p: Pixel): seq<Byte> {
    [p.b0, p.b1, p.b2]
  }

  function Flatten(ps: seq<Pixel>): (r: seq<Byte>)
    ensures |r| == 3 * |ps|
  {
    if |ps| == 0 then [] else PixelBytes(ps[0]) + Flatten(ps[1..])
  }

  /** Groups bytes three by three into pixels. */
  function Pixels(bytes: seq<Byte>): (ps: seq<Pixel>)
    requires |bytes| % 3 == 0
    ensures 3 * |ps| == |bytes|
    decreases |bytes|
  {
    if |bytes| == 0 then [] else [Pixel(bytes[0], bytes[1], bytes[2])] + Pixels(bytes[3..])
  }

  lemma {:induction false} FlattenPixels(bytes: seq<Byte>)
    requires |bytes| % 3 == 0
    ensures Flatten(Pixels(bytes)) == bytes
    decreases |bytes|
  {
    if |bytes| > 0 {
      FlattenPixels(bytes[3..]);
      assert Pixels(bytes)[1..] == Pixels(bytes[3..]);
      assert bytes == bytes[..3] + bytes[3..];
    }
  }

  lemma {:induction false} PixelsFlatten(ps: seq<Pixel>)
    ensures Pixels(Flatten(ps)) == ps
  {
    if |ps| > 0 {
      PixelsFlatten(ps[1..]);
      assert Flatten(ps)[3..] == Flatten(ps[1..]);
      assert [ps[0]] + ps[1..] == ps;
    }
  }

  // ---- Packets ----

  datatype Packet = Rle(count: int, pixel: Pixel) | Raw(pixels: seq<Pixel>) {
    function Count(): int {
      match this
      case Rle(count, _) => count
      case Raw(pixels) => |pixels|
    }

    predicate WellSized() {
      1 <= Count() <= MaxPacketPixels
    }

    /** The pixels a packet stands for. */
    function Expand(): (ps: seq<Pixel>)
      requires WellSized()
      ensures |ps| == Count()
    {
      match this
      case Rle(count, pixel) => seq(count, _ => pixel)
      case Raw(pixels) => pixels
    }
  }

  /** A packet on the file: header byte (count-1) with the high bit set for
      RLE, then one pixel (RLE) or all of them (RAW). */
  function PacketBytes(p: Packet): (r: seq<Byte>)
    requires p.WellSized()
    ensures p.Rle? ==> |r| == 4 && r[0] as int == (p.count - 1) + 128 && r[0] >= 128 && r[1..] == PixelBytes(p.pixel)
    ensures p.Raw? ==> |r| == 1 + 3 * |p.pixels| && r[0] as int == |p.pixels| - 1 && r[0] < 128 && r[1..] == Flatten(p.pixels)
  {
    match p
    case Rle(count, pixel) => [(count - 1 + 128) as Byte] + PixelBytes(pixel)
    case Raw(pixels) => [(|pixels| - 1) as Byte] + Flatten(pixels)
  }

  /** The RLE scan: extends the run while pixels equal the first one. */
  function RunEnd(row: seq<Pixel>, start: nat, i: nat, finish: nat): (e: nat)
    requires start < i <= finish <= |row|
    ensures i <= e <= finish
    decreases finish - i
  {
    if i < finish && row[i] == row[start] then RunEnd(row, start, i + 1, finish) else i
  }

  /** Where the RLE scan stops: every pixel of the run equals the first one,
      and the scan stops early only at a pixel that differs from it. */
  lemma {:induction false} RunEndStops(row: seq<Pixel>, start: nat, i: nat, finish: nat)
    requires start < i <= finish <= |row|
    requires forall k :: start <= k < i ==> row[k] == row[start]
    ensures forall k :: start <= k < RunEnd(row, start, i, finish) ==> row[k] == row[start]
    ensures RunEnd(row, start, i, finish) < finish ==> row[RunEnd(row, start, i, finish)] != row[start]
    decreases finish - i
  {
    if i < finish && row[i] == row[start] {
      RunEndStops(row, start, i + 1, finish);
    }
  }

  /** Pixel k of `s` differs from the one before it. */
  predicate DiffersFromPrevious(s: seq<Pixel>, k: int) {
    0 < k < |s| && s[k] != s[k - 1]
  }

  lemma DiffersInSlice(row: seq<Pixel>, lo: nat, hi: nat)
    requires lo <= hi <= |row|
    requires forall k :: lo < k < hi ==> DiffersFromPrevious(row, k)
    ensures forall k :: 0 < k < hi - lo ==> DiffersFromPrevious(row[lo..hi], k)
  {
    forall k | 0 < k < hi - lo
      ensures DiffersFromPrevious(row[lo..hi], k)
    {
      assert DiffersFromPrevious(row, lo + k);
    }
  }

  /** The RAW scan: extends the packet while each pixel differs from the one before. */
  function RawEnd(row: seq<Pixel>, start: nat, i: nat, finish: nat): (e: nat)
    requires start < i <= finish <= |row|
    ensures i <= e <= finish
    decreases finish - i
  {
    if i < finish && row[i] != row[i - 1] then RawEnd(row, start, i + 1, finish) else i
  }

  /** Where the RAW scan stops: inside the packet each pixel differs from the
      one before, and the scan stops early only at a pixel equal to its predecessor. */
  lemma {:induction false} RawEndStops(row: seq<Pixel>, start: nat, i: nat, finish: nat)
    requires start < i <= finish <= |row|
    requires forall k :: start < k < i ==> DiffersFromPrevious(row, k)
    ensures forall k :: start < k < RawEnd(row, start, i, finish) ==> DiffersFromPrevious(row, k)
    ensures RawEnd(row, start, i, finish) < finish
      ==> row[RawEnd(row, start, i, finish)] == row[RawEnd(row, start, i, finish) - 1]
    decreases finish - i
  {
    if i < finish && row[i] != row[i - 1] {
      assert DiffersFromPrevious(row, i);
      RawEndStops(row, start, i + 1, finish);
    }
  }

  /** The window a packet starting at `start` may cover: at most 128 pixels,
      and no further than the row end. */
  function Window(row: seq<Pixel>, start: nat): (finish: nat)
    requires start < |row|
    ensures start < finish <= |row| && finish - start <= MaxPacketPixels
    ensures finish == |row| || finish - start == MaxPacketPixels
  {
    if start + MaxPacketPixels < |row| then start + MaxPacketPixels else |row|
  }

  /** The packet starting at pixel `start` of a row: 1 to 128 pixels, inside the row. */
  function NextPacket(row: seq<Pixel>, start: nat): (p: Packet)
    requires start < |row|
    ensures p.WellSized() && start + p.Count() <= |row|
  {
    var runEnd := RunEnd(row, start, start + 1, Window(row, start));
    if runEnd - start > 1 then
      Rle(runEnd - start, row[start])
    else
      Raw(row[start..RawEnd(row, start, start + 1, Window(row, start))])
  }

  /** What a packet stands for: exactly the pixels it covers; it is RLE
      exactly when the next two pixels are equal; inside a RAW packet
      consecutive pixels differ. */
  lemma NextPacketShape(row: seq<Pixel>, start: nat)
    requires start < |row|
    ensures NextPacket(row, start).Expand() == row[start..start + NextPacket(row, start).Count()]
    ensures NextPacket(row, start).Rle? <==> start + 1 < |row| && row[start] == row[start + 1]
    ensures NextPacket(row, start).Raw? ==>
      forall k :: 0 < k < |NextPacket(row, start).pixels| ==> DiffersFromPrevious(NextPacket(row, start).pixels, k)
  {
    var finish := Window(row, start);
    var runEnd := RunEnd(row, start, start + 1, finish);
    RunEndStops(row, start, start + 1, finish);
    if runEnd - start <= 1 {
      var rawEnd := RawEnd(row, start, start + 1, finish);
      RawEndStops(row, start, start + 1, finish);
      DiffersInSlice(row, start, rawEnd);
    }
  }

  /** Where a packet ends: an RLE packet covers the whole run, stopping only
      at the row end, at 128 pixels or before the first pixel that differs from
      its own; a RAW packet stops only at the row end, at 128 pixels or just
      before the second pixel of an equal pair. */
  lemma NextPacketEnds(row: seq<Pixel>, start: nat)
    requires start < |row|
    ensures var p := NextPacket(row, start);
      && (p.Rle? ==>
            start + p.Count() == |row| || p.Count() == MaxPacketPixels || row[start + p.Count()] != row[start])
      && (p.Raw? ==>
            start + p.Count() == |row| || p.Count() == MaxPacketPixels
            || row[start + p.Count()] == row[start + p.Count() - 1])
  {
    var finish := Window(row, start);
    RunEndStops(row, start, start + 1, finish);
    var runEnd := RunEnd(row, start, start + 1, finish);
    if runEnd - start <= 1 {
      RawEndStops(row, start, start + 1, finish);
    }
  }

  predicate AllWellSized(ps: seq<Packet>) {
    forall k :: 0 <= k < |ps| ==> ps[k].WellSized()
  }

  /** The packets of a row from pixel `start` on; each step covers at least one pixel. */
  function RowPackets(row: seq<Pixel>, start: nat): (ps: seq<Packet>)
    requires start <= |row|
    ensures AllWellSized(ps)
    decreases |row| - start
  {
    if start == |row| then []
    else
      var p := NextPacket(row, start);
      [p] + RowPackets(row, start + p.Count())
  }

  /** How many pixels the first k packets of a list stand for. */
  function Covered(ps: seq<Packet>, k: nat): int
    requires k <= |ps|
  {
    if k == 0 then 0 else Covered(ps, k - 1) + ps[k - 1].Count()
  }

  /** One step of the row encoder: the packet chosen at `start`, then the rest of the row. */
  lemma RowPacketsStep(row: seq<Pixel>, start: nat)
    requires start < |row|
    ensures start + NextPacket(row, start).Count() <= |row|
    ensures RowPackets(row, start)
      == [NextPacket(row, start)] + RowPackets(row, start + NextPacket(row, start).Count())
  {
  }

  /** In `[p] + tail`, the first k > 0 packets are p and the first k - 1 packets of the tail. */
  lemma {:induction false} CoveredCons(p: Packet, tail: seq<Packet>, k: nat)
    requires 0 < k <= |tail| + 1
    ensures Covered([p] + tail, k) == p.Count() + Covered(tail, k - 1)
  {
    if k > 1 {
      CoveredCons(p, tail, k - 1);
      assert ([p] + tail)[k - 1] == tail[k - 2];
    }
  }

  /** The first packet of a non-empty row remainder is the one chosen at `start`. */
  lemma RowPacketsHead(row: seq<Pixel>, start: nat)
    requires start < |row|
    ensures 0 < |RowPackets(row, start)| && RowPackets(row, start)[0] == NextPacket(row, start)
  {
    RowPacketsStep(row, start);
  }

  /** Packet k > 0 from `start` is packet k - 1 from where the first packet
      ends, and the first k packets cover the first packet's pixels plus
      those of the k - 1 packets after it. */
  lemma RowPacketsShift(row: seq<Pixel>, start: nat, k: nat)
    requires start < |row| && 0 < k < |RowPackets(row, start)|
    ensures start + NextPacket(row, start).Count() <= |row|
    ensures k - 1 < |RowPackets(row, start + NextPacket(row, start).Count())|
    ensures RowPackets(row, start)[k] == RowPackets(row, start + NextPacket(row, start).Count())[k - 1]
    ensures Covered(RowPackets(row, start), k)
      == NextPacket(row, start).Count() + Covered(RowPackets(row, start + NextPacket(row, start).Count()), k - 1)
  {
    RowPacketsStep(row, start);
    CoveredCons(NextPacket(row, start), RowPackets(row, start + NextPacket(row, start).Count()), k);
  }

  /** RowPacketsChoice for the first packet. */
  lemma ChoiceFirst(row: seq<Pixel>, start: nat, k: nat)
    requires start < |row| && k == 0
    ensures k < |RowPackets(row, start)|
    ensures 0 <= start + Covered(RowPackets(row, start), k) < |row|
    ensures RowPackets(row, start)[k] == NextPacket(row, start + Covered(RowPackets(row, start), k))
  {
    RowPacketsHead(row, start);
    assert start + Covered(RowPackets(row, start), k) == start;
  }

  /** RowPacketsChoice for packet k > 0, given it for packet k - 1 of the
      packets from `next`, where the first packet ends. */
  lemma ChoiceNext(row: seq<Pixel>, start: nat, next: nat, k: nat)
    requires start < |row| && next == start + NextPacket(row, start).Count()
    requires 0 < k < |RowPackets(row, start)|
    requires next <= |row| && k - 1 < |RowPackets(row, next)|
    requires 0 <= next + Covered(RowPackets(row, next), k - 1) < |row|
    requires RowPackets(row, next)[k - 1] == NextPacket(row, next + Covered(RowPackets(row, next), k - 1))
    ensures 0 <= start + Covered(RowPackets(row, start), k) < |row|
    ensures RowPackets(row, start)[k] == NextPacket(row, start + Covered(RowPackets(row, start), k))
  {
    RowPacketsShift(row, start, k);
    assert start + Covered(RowPackets(row, start), k) == next + Covered(RowPackets(row, next), k - 1);
  }

  /** The packets written for a row are the encoder's successive choices:
      packet k is the one `NextPacket` picks where the packets before it end. */
  lemma {:induction false} RowPacketsChoice(row: seq<Pixel>, start: nat, k: nat)
    requires start <= |row|
    requires k < |RowPackets(row, start)|
    ensures 0 <= start + Covered(RowPackets(row, start), k) < |row|
    ensures RowPackets(row, start)[k] == NextPacket(row, start + Covered(RowPackets(row, start), k))
    decreases |row| - start
  {
    assert start < |row|;
    if k == 0 {
      ChoiceFirst(row, start, k);
    } else {
      var next := start + NextPacket(row, start).Count();
      RowPacketsShift(row, start, k);
      RowPacketsChoice(row, next, k - 1);
      ChoiceNext(row, start, next, k);
    }
  }

  function ExpandAll(ps: seq<Packet>): seq<Pixel>
    requires AllWellSized(ps)
  {
    if |ps| == 0 then [] else ps[0].Expand() + ExpandAll(ps[1..])
  }

  /** If the pixels before `hi`, then `rest`, make up the row, so do the
      pixels before `lo`, then those from `lo` to `hi`, then `rest`. */
  lemma PrefixJoin(row: seq<Pixel>, lo: nat, hi: nat, rest: seq<Pixel>)
    requires lo <= hi <= |row|
    requires row[..hi] + rest == row
    ensures row[..lo] + (row[lo..hi] + rest) == row
  {
    assert row[..lo] + row[lo..hi] == row[..hi];
  }

  /** The packets from `start` expand to the pixels the first packet covers,
      up to `next`, where it ends, then to what the packets from `next` expand to. */
  lemma ExpandFirst(row: seq<Pixel>, start: nat) returns (next: nat)
    requires start < |row|
    ensures next == start + NextPacket(row, start).Count() && start < next <= |row|
    ensures ExpandAll(RowPackets(row, start)) == row[start..next] + ExpandAll(RowPackets(row, next))
  {
    var p := NextPacket(row, start);
    next := start + p.Count();
    assert RowPackets(row, start)[0] == p && RowPackets(row, start)[1..] == RowPackets(row, next) by {
      RowPacketsStep(row, start);
    }
    PacketsBytesCons(RowPackets(row, start), []);
    assert p.Expand() == row[start..next] by {
      NextPacketShape(row, start);
    }
  }

  /** The step of LosslessPrefix inside the row: `next` is where the packet at
      `start` ends, and if the pixels before `next`, then the packets from
      `next`, make up the row, so do the pixels before `start` and the
      packets from `start`. */
  lemma PrefixAdvance(row: seq<Pixel>, start: nat) returns (next: nat)
    requires start < |row|
    ensures start < next <= |row|
    ensures row[..next] + ExpandAll(RowPackets(row, next)) == row
      ==> row[..start] + ExpandAll(RowPackets(row, start)) == row
  {
    next := ExpandFirst(row, start);
    var rest := ExpandAll(RowPackets(row, next));
    if row[..next] + rest == row {
      PrefixJoin(row, start, next, rest);
    }
  }

  /** The step of LosslessPrefix anywhere: at the end of the row there is nothing left to check. */
  lemma PrefixStep(row: seq<Pixel>, start: nat) returns (next: nat)
    requires start <= |row|
    ensures start < |row| ==> start < next <= |row|
    ensures (start < |row| ==> row[..next] + ExpandAll(RowPackets(row, next)) == row)
      ==> row[..start] + ExpandAll(RowPackets(row, start)) == row
  {
    if start == |row| {
      next := start;
      assert RowPackets(row, start) == [] && row[..start] == row;
    } else {
      next := PrefixAdvance(row, start);
    }
  }

  /** The pixels before `start`, then what the packets from `start` stand for, make up the row. */
  lemma {:induction false} LosslessPrefix(row: seq<Pixel>, start: nat)
    requires start <= |row|
    ensures row[..start] + ExpandAll(RowPackets(row, start)) == row
    decreases |row| - start
  {
    var next := PrefixStep(row, start);
    if start < |row| {
      LosslessPrefix(row, next);
    }
  }

  /** Lossless: the packets of a row expand back to exactly that row. */
  lemma RowPacketsLossless(row: seq<Pixel>, start: nat)
    requires start <= |row|
    ensures ExpandAll(RowPackets(row, start)) == row[start..]
  {
    LosslessPrefix(row, start);
    var e := ExpandAll(RowPackets(row, start));
    assert row == row[..start] + row[start..];
    assert e == (row[..start] + e)[start..];
  }

  function PacketsBytes(ps: seq<Packet>): seq<Byte>
    requires AllWellSized(ps)
  {
    if |ps| == 0 then [] else PacketBytes(ps[0]) + PacketsBytes(ps[1..])
  }

  /** Each packet costs at most four bytes per pixel it stands for (an RLE
      packet of one pixel, or a RAW packet's header byte), and a packet is
      never empty on the file. */
  lemma {:induction false} PacketsBytesLength(ps: seq<Packet>)
    requires AllWellSized(ps)
    ensures |PacketsBytes(ps)| <= 4 * |ExpandAll(ps)|
    ensures |ps| > 0 <==> |PacketsBytes(ps)| > 0
  {
    if |ps| > 0 {
      PacketsBytesLength(ps[1..]);
    }
  }

  /** One row of the image as RLE/RAW packets: at most four bytes per pixel,
      and bytes exactly when the row has pixels. */
  function EncodeRow(row: seq<Pixel>): (r: seq<Byte>)
    ensures |r| <= 4 * |row|
    ensures |row| > 0 <==> |r| > 0
  {
    RowPacketsLossless(row, 0);
    PacketsBytesLength(RowPackets(row, 0));
    PacketsBytes(RowPackets(row, 0))
  }

  // ---- The file ----

  /** The 18 header bytes: no image id, no colour map, image type 10, an
      empty colour-map specification, origin (0, 0), width and height as
      low/high bytes of their low 16 bits, 24 bits per pixel, descriptor 0. */
  function Header(width: int, height: int): (h: seq<Byte>)
    ensures |h| == 18
    ensures h[..12] == [0, 0, 10, 0, 0, 0, 0, 0, 0, 0, 0, 0]
    ensures h[12] as int + 256 * h[13] as int == width % 65536
    ensures h[14] as int + 256 * h[15] as int == height % 65536
    ensures h[16] == 24 && h[17] == 0
  {
    [0, 0, ImageTypeRleTrueColour, 0, 0, 0, 0, 0, 0, 0, 0, 0,
     (width % 256) as Byte, ((width % 65536) / 256) as Byte,
     (height % 256) as Byte, ((height % 65536) / 256) as Byte,
     PixelDepth, 0]
  }

  /** Bytes per row: three per pixel, none when the width is not positive. */
  function RowLength(width: int): (n: nat)
    ensures n % 3 == 0
  {
    if width <= 0 then 0 else 3 * width
  }

  /** The pixel buffer holds at least `height` rows. */
  predicate Covers(width: int, height: int, data: seq<Byte>) {
    height <= 0 || |data| >= RowLength(width) * height
  }

  /** Where row y starts, by repeated addition of the row length. */
  function Offset(length: nat, y: nat): nat {
    if y == 0 then 0 else Offset(length, y - 1) + length
  }

  lemma {:induction false} OffsetIsProduct(length: nat, y: nat)
    ensures Offset(length, y) == length * y
  {
    if y > 0 {
      OffsetIsProduct(length, y - 1);
      assert length * y == length * (y - 1) + length;
    }
  }

  lemma {:induction false} OffsetMonotone(length: nat, y: nat, z: nat)
    requires y <= z
    ensures Offset(length, y) <= Offset(length, z)
    decreases z
  {
    if y < z {
      OffsetMonotone(length, y, z - 1);
    }
  }

  /** The bytes of row y: `width` pixels starting Offset(3 * width, y) bytes in. */
  function RowBytes(width: int, height: int, data: seq<Byte>, y: int): (r: seq<Byte>)
    requires Covers(width, height, data) && 0 <= y < height
    ensures |r| == RowLength(width)
  {
    var length := RowLength(width);
    OffsetIsProduct(length, height);
    OffsetMonotone(length, y + 1, height);
    data[Offset(length, y)..Offset(length, y) + length]
  }

  /** Row y starts at byte width*3*y, as the writer computes its line pointer. */
  lemma RowBytesAt(width: int, height: int, data: seq<Byte>, y: int)
    requires Covers(width, height, data) && 0 <= y < height
    ensures RowLength(width) * (y + 1) <= |data|
    ensures RowBytes(width, height, data, y) == data[RowLength(width) * y..RowLength(width) * (y + 1)]
  {
    var length := RowLength(width);
    OffsetIsProduct(length, y);
    OffsetIsProduct(length, y + 1);
    OffsetIsProduct(length, height);
    OffsetMonotone(length, y + 1, height);
  }

  /** The first `count` rows of `length` items each: the writer's row loop. */
  function Chunks<T>(data: seq<T>, length: nat, count: int): (rows: seq<seq<T>>)
    ensures forall k :: 0 <= k < |rows| ==> |rows[k]| == length
    decreases if count <= 0 then 0 else count
  {
    if count <= 0 || |data| < length then []
    else [data[..length]] + Chunks(data[length..], length, count - 1)
  }

  /** The image's rows of pixels, `length` bytes per row. */
  function ImageRows(data: seq<Byte>, length: nat, count: int): (rows: seq<seq<Pixel>>)
    requires length % 3 == 0
  {
    var chunks := Chunks(data, length, count);
    seq(|chunks|, k requires 0 <= k < |chunks| => Pixels(chunks[k]))
  }

  lemma {:induction false} ChunksLength<T>(data: seq<T>, length: nat, count: nat)
    requires |data| >= Offset(length, count)
    ensures |Chunks(data, length, count)| == count
  {
    if count > 0 {
      ChunksLength(data[length..], length, count - 1);
    }
  }

  lemma SliceOfSuffix<T>(s: seq<T>, skip: nat, from: nat, length: nat)
    requires skip + from + length <= |s|
    ensures s[skip..][from..from + length] == s[skip + from..skip + from + length]
  {
  }

  /** Row y is the `length` items at Offset(length, y). */
  lemma {:induction false} ChunkAt<T>(data: seq<T>, length: nat, count: nat, y: nat)
    requires y < count && |data| >= Offset(length, count)
    ensures Offset(length, y) + length <= |data|
    ensures y < |Chunks(data, length, count)|
    ensures Chunks(data, length, count)[y] == data[Offset(length, y)..Offset(length, y) + length]
    decreases y
  {
    OffsetMonotone(length, y + 1, count);
    var rest := data[length..];
    var rows := Chunks(data, length, count);
    assert rows == [data[..length]] + Chunks(rest, length, count - 1);
    if y > 0 {
      ChunkAt(rest, length, count - 1, y - 1);
      var from := Offset(length, y - 1);
      assert Offset(length, y) == length + from;
      SliceOfSuffix(data, length, from, length);
      assert rows[y] == Chunks(rest, length, count - 1)[y - 1];
    }
  }

  /** Each row encoded on its own, the rows one after another. */
  function EncodeRows(rows: seq<seq<Pixel>>): seq<Byte> {
    if |rows| == 0 then [] else EncodeRow(rows[0]) + EncodeRows(rows[1..])
  }

  datatype Written = Written(ok: bool, bytes: seq<Byte>)

  /** WriteTGA: fails writing nothing when the file cannot be opened; otherwise
      the header followed by every row's packets. */
  function WriteTga(fileOpened: bool, width: int, height: int, data: seq<Byte>): (w: Written)
    requires Covers(width, height, data)
    ensures !fileOpened ==> w == Written(false, [])
    ensures fileOpened ==> w.ok && |w.bytes| >= 18 && w.bytes[..18] == Header(width, height)
  {
    if !fileOpened then Written(false, [])
    else
      var h := Header(width, height);
      var out := h + EncodeRows(ImageRows(data, RowLength(width), height));
      assert out[..18] == h;
      Written(true, out)
  }

  // ---- Reading back ----

  function DecodePacket(bytes: seq<Byte>): (r: Option<Read<Packet, Byte>>)
    ensures r.Some? ==> r.value.value.WellSized()
  {
    if |bytes| == 0 then None
    else if bytes[0] >= 128 then
      if |bytes| < 4 then None
      else Some(Read(Rle(bytes[0] as int - 127, Pixel(bytes[1], bytes[2], bytes[3])), bytes[4..]))
    else
      var n := bytes[0] as int + 1;
      if |bytes| < 1 + 3 * n then None
      else Some(Read(Raw(Pixels(bytes[1..1 + 3 * n])), bytes[1 + 3 * n..]))
  }

  /** Reads packets until n pixels are read; a packet running past the row fails. */
  function DecodeRow(bytes: seq<Byte>, n: nat): Option<Read<seq<Pixel>, Byte>>
    decreases n
  {
    if n == 0 then Some(Read([], bytes))
    else
      var p :- DecodePacket(bytes);
      var c := p.value.Count();
      if c > n then None
      else
        var tail :- DecodeRow(p.rest, n - c);
        Some(Read(p.value.Expand() + tail.value, tail.rest))
  }

  lemma DecodeRowStep(bytes: seq<Byte>, n: nat, p: Packet, after: seq<Byte>, tail: seq<Pixel>, rest: seq<Byte>)
    requires n > 0 && p.WellSized() && p.Count() <= n
    requires DecodePacket(bytes) == Some(Read(p, after))
    requires DecodeRow(after, n - p.Count()) == Some(Read(tail, rest))
    ensures DecodeRow(bytes, n) == Some(Read(p.Expand() + tail, rest))
  {
  }

  lemma DecodeEncodedPacket(p: Packet, rest: seq<Byte>)
    requires p.WellSized()
    ensures DecodePacket(PacketBytes(p) + rest) == Some(Read(p, rest))
  {
    var bytes := PacketBytes(p) + rest;
    match p
    case Rle(count, pixel) =>
      assert bytes[4..] == rest;
    case Raw(pixels) =>
      var n := |pixels|;
      assert bytes[1..1 + 3 * n] == Flatten(pixels);
      assert bytes[1 + 3 * n..] == rest;
      PixelsFlatten(pixels);
  }

  /** Reading a packet's bytes and then a decodable remainder. */
  lemma DecodePacketThen(p: Packet, n: nat, after: seq<Byte>, tail: seq<Pixel>, rest: seq<Byte>)
    requires p.WellSized() && p.Count() <= n
    requires DecodeRow(after, n - p.Count()) == Some(Read(tail, rest))
    ensures DecodeRow(PacketBytes(p) + after, n) == Some(Read(p.Expand() + tail, rest))
  {
    DecodeEncodedPacket(p, after);
    DecodeRowStep(PacketBytes(p) + after, n, p, after, tail, rest);
  }

  lemma PacketsBytesCons(ps: seq<Packet>, rest: seq<Byte>)
    requires |ps| > 0 && AllWellSized(ps)
    ensures AllWellSized(ps[1..])
    ensures PacketsBytes(ps) + rest == PacketBytes(ps[0]) + (PacketsBytes(ps[1..]) + rest)
    ensures ExpandAll(ps) == ps[0].Expand() + ExpandAll(ps[1..])
  {
  }

  /** Any list of well-sized packets reads back as the pixels it stands for. */
  lemma {:induction false} DecodeEncodedPackets(ps: seq<Packet>, rest: seq<Byte>)
    requires AllWellSized(ps)
    ensures DecodeRow(PacketsBytes(ps) + rest, |ExpandAll(ps)|) == Some(Read(ExpandAll(ps), rest))
  {
    if |ps| > 0 {
      var tail := ps[1..];
      PacketsBytesCons(ps, rest);
      DecodeEncodedPackets(tail, rest);
      DecodePacketThen(ps[0], |ExpandAll(ps)|, PacketsBytes(tail) + rest, ExpandAll(tail), rest);
    } else {
      assert PacketsBytes(ps) + rest == rest;
    }
  }

  /** Each row decodes back from its own packets, and nothing past them is read. */
  lemma RowRoundTrip(row: seq<Pixel>, rest: seq<Byte>)
    ensures DecodeRow(EncodeRow(row) + rest, |row|) == Some(Read(row, rest))
  {
    RowPacketsLossless(row, 0);
    assert row[0..] == row;
    DecodeEncodedPackets(RowPackets(row, 0), rest);
  }

  datatype Image = Image(width: int, height: int, rows: seq<seq<Pixel>>)

  function DecodeRows(bytes: seq<Byte>, width: nat, count: nat): Option<Read<seq<seq<Pixel>>, Byte>>
    decreases count
  {
    if count == 0 then Some(Read([], bytes))
    else
      var row :- DecodeRow(bytes, width);
      var tail :- DecodeRows(row.rest, width, count - 1);
      Some(Read([row.value] + tail.value, tail.rest))
  }

  /** A reader for what WriteTga produces: checks the image type and depth,
      takes the size from the header and reads each row. */
  function DecodeTga(bytes: seq<Byte>): Option<Image> {
    if |bytes| < 18 || bytes[2] != ImageTypeRleTrueColour || bytes[16] != PixelDepth then None
    else
      var width := bytes[12] as int + 256 * bytes[13] as int;
      var height := bytes[14] as int + 256 * bytes[15] as int;
      var rows :- DecodeRows(bytes[18..], width, height);
      if rows.rest != [] then None else Some(Image(width, height, rows.value))
  }

  lemma DecodeRowsStep(bytes: seq<Byte>, width: nat, count: nat, row: seq<Pixel>, after: seq<Byte>,
                       rows: seq<seq<Pixel>>, rest: seq<Byte>)
    requires count > 0
    requires DecodeRow(bytes, width) == Some(Read(row, after))
    requires DecodeRows(after, width, count - 1) == Some(Read(rows, rest))
    ensures DecodeRows(bytes, width, count) == Some(Read([row] + rows, rest))
  {
  }

  lemma DecodeRowThenRows(row: seq<Pixel>, after: seq<Byte>, count: nat, rows: seq<seq<Pixel>>)
    requires count > 0
    requires DecodeRows(after, |row|, count - 1) == Some(Read(rows, []))
    ensures DecodeRows(EncodeRow(row) + after, |row|, count) == Some(Read([row] + rows, []))
  {
    RowRoundTrip(row, after);
    DecodeRowsStep(EncodeRow(row) + after, |row|, count, row, after, rows, []);
  }

  /** The step of RowsRoundTrip: if the rows after the first read back from
      their bytes, so do all of the rows. */
  lemma RowsStep(rows: seq<seq<Pixel>>, width: nat)
    requires |rows| > 0 && |rows[0]| == width
    requires DecodeRows(EncodeRows(rows[1..]), width, |rows| - 1) == Some(Read(rows[1..], []))
    ensures DecodeRows(EncodeRows(rows), width, |rows|) == Some(Read(rows, []))
  {
    var tail := rows[1..];
    assert EncodeRows(rows) == EncodeRow(rows[0]) + EncodeRows(tail);
    DecodeRowThenRows(rows[0], EncodeRows(tail), |rows|, tail);
    assert [rows[0]] + tail == rows;
  }

  /** Rows of the same width read back one after another, and nothing past them is read. */
  lemma {:induction false} RowsRoundTrip(rows: seq<seq<Pixel>>, width: nat)
    requires forall k :: 0 <= k < |rows| ==> |rows[k]| == width
    ensures DecodeRows(EncodeRows(rows), width, |rows|) == Some(Read(rows, []))
  {
    if |rows| > 0 {
      RowsRoundTrip(rows[1..], width);
      RowsStep(rows, width);
    }
  }

  /** What a reader finds in a file that starts with the header. */
  lemma HeaderRead(width: int, height: int, body: seq<Byte>)
    requires 0 <= width < 65536 && 0 <= height < 65536
    ensures var bytes := Header(width, height) + body;
      && |bytes| >= 18 && bytes[2] == ImageTypeRleTrueColour && bytes[16] == PixelDepth
      && bytes[12] as int + 256 * bytes[13] as int == width
      && bytes[14] as int + 256 * bytes[15] as int == height
      && bytes[18..] == body
  {
    var h := Header(width, height);
    var bytes := h + body;
    assert bytes[2] == h[..12][2];
    assert bytes[12] == h[12] && bytes[13] == h[13] && bytes[14] == h[14] && bytes[15] == h[15];
  }

  lemma DecodeHeader(width: int, height: int, body: seq<Byte>, rows: seq<seq<Pixel>>)
    requires 0 <= width < 65536 && 0 <= height < 65536
    requires DecodeRows(body, width, height) == Some(Read(rows, []))
    ensures DecodeTga(Header(width, height) + body) == Some(Image(width, height, rows))
  {
    HeaderRead(width, height, body);
  }

  lemma ImageRowBytes(width: int, height: int, data: seq<Byte>, y: int)
    requires Covers(width, height, data) && 0 <= y < height
    ensures |ImageRows(data, RowLength(width), height)| == height
    ensures Flatten(ImageRows(data, RowLength(width), height)[y]) == RowBytes(width, height, data, y)
  {
    var length := RowLength(width);
    OffsetIsProduct(length, height);
    ChunksLength(data, length, height);
    ChunkAt(data, length, height, y);
    FlattenPixels(RowBytes(width, height, data, y));
  }

  /** Lossless end to end: for sizes TGA can record, reading the file back
      gives the recorded size and, row by row, exactly the pixel bytes of the input. */
  lemma TgaRoundTrip(width: int, height: int, data: seq<Byte>)
    requires 0 <= width < 65536 && 0 <= height < 65536
    requires Covers(width, height, data)
    ensures var image := DecodeTga(WriteTga(true, width, height, data).bytes);
      && image == Some(Image(width, height, ImageRows(data, RowLength(width), height)))
      && |image.value.rows| == height
      && forall y :: 0 <= y < height ==> Flatten(image.value.rows[y]) == RowBytes(width, height, data, y)
  {
    var rows := ImageRows(data, RowLength(width), height);
    var body := EncodeRows(rows);
    assert WriteTga(true, width, height, data).bytes == Header(width, height) + body;
    OffsetIsProduct(RowLength(width), height);
    ChunksLength(data, RowLength(width), height);
    RowsRoundTrip(rows, width);
    DecodeHeader(width, height, body, rows);
    forall y | 0 <= y < height
      ensures Flatten(rows[y]) == RowBytes(width, height, data, y)
    {
      ImageRowBytes(width, height, data, y);
    }
  }
}
