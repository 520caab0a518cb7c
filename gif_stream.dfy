/** The block walker of `DECODE_GIF` (mod-gif.c:283-367) and the frame-count
    decision after it (383-387).  After the signature and the logical screen
    descriptor the walker reads one block tag at a time: ';' ends the stream,
    '!' introduces an extension (a Graphic Control Extension is parsed, any
    other is skipped as data sub-blocks), and ',' introduces an image, which
    `Decode_LZW` decodes into a fresh w*h*4 RGBA buffer.  Every other byte
    is passed over.  Each unchecked read of the C code past the end of the
    buffer is `Err(TruncatedStream)` here. */
module GifStream {
  import opened GifBytes
  import opened GifHeader
  import opened LzwDecoder

  /** Block tags and extension labels (GIF89a sections 20, 23 and 27). */
  const Trailer: byte := 0x3B
  const ExtensionIntroducer: byte := 0x21
  const ImageSeparator: byte := 0x2C
  const GraphicControlLabel: byte := 0xF9

  /** Offset of the packed byte of the logical screen descriptor, and of
      the global colour table that may follow it (GIF89a section 18). */
  const ScreenPacked: nat := 10
  const ScreenEnd: nat := 13

  /** Bytes of an image descriptor after its ',' tag (GIF89a section 20). */
  const DescriptorSize: nat := 9

  /** One decoded image: its size and its RGBA bytes. */
  datatype Frame = Frame(width: nat, height: nat, pixels: seq<byte>)

  // ---------------------------------------------------------------------------
  // Data sub-blocks

  /** Where a run of data sub-blocks starting at `cp` ends: one past its zero
      length byte (mod-gif.c:318-320).  `None` when the run crosses the end
      of the buffer. */
  function SubBlocksEnd(input: seq<byte>, cp: nat): (r: Option<nat>)
    ensures r.Some? ==> cp < r.value <= |input| && input[r.value - 1] == 0
    decreases if cp <= |input| then |input| - cp else 0
  {
    if cp >= |input| then None
    else if input[cp] == 0 then Some(cp + 1)
    else SubBlocksEnd(input, cp + input[cp] + 1)
  }

  /** mod-gif.c:318-320: hop from length byte to length byte until a zero
      one, then step past it. */
  method SkipSubBlocks(input: seq<byte>, cp0: nat) returns (r: Option<nat>)
    ensures r == SubBlocksEnd(input, cp0)
  {
    var cp := cp0;
    while cp < |input| && input[cp] != 0
      invariant SubBlocksEnd(input, cp) == SubBlocksEnd(input, cp0)
      decreases if cp <= |input| then |input| - cp else 0
    {
      cp := cp + input[cp] + 1;
    }
    if cp >= |input| {
      return None;
    }
    r := Some(cp + 1);
  }

  /** Chunks that can each be one data sub-block: 1 to 255 bytes. */
  predicate ChunksOk(chunks: seq<seq<byte>>)
  {
    forall i :: 0 <= i < |chunks| ==> 0 < |chunks[i]| < 256
  }

  /** The data sub-blocks of GIF89a section 15: each chunk behind its length
      byte, then the zero-length block terminator. */
  function EncodeSubBlocks(chunks: seq<seq<byte>>): (s: seq<byte>)
    requires ChunksOk(chunks)
    ensures |s| > 0 && s[|s| - 1] == 0
  {
    if chunks == [] then [0]
    else
      var n: byte := |chunks[0]|;
      [n] + chunks[0] + EncodeSubBlocks(chunks[1..])
  }

  /** Skipping well-formed sub-blocks lands exactly behind their terminator,
      whatever precedes or follows them. */
  lemma {:induction false} SubBlocksRoundTrip(chunks: seq<seq<byte>>, pre: seq<byte>, post: seq<byte>)
    requires ChunksOk(chunks)
    ensures SubBlocksEnd(pre + EncodeSubBlocks(chunks) + post, |pre|) == Some(|pre| + |EncodeSubBlocks(chunks)|)
    decreases |chunks|
  {
    var input := pre + EncodeSubBlocks(chunks) + post;
    if chunks == [] {
      assert input[|pre|] == 0;
    } else {
      var c := chunks[0];
      var n: byte := |c|;
      var pre' := pre + [n] + c;
      assert input == pre' + EncodeSubBlocks(chunks[1..]) + post;
      assert input[|pre|] == n;
      assert ChunksOk(chunks[1..]) by {
        forall i | 0 <= i < |chunks[1..]| ensures 0 < |chunks[1..][i]| < 256 {
          assert chunks[1..][i] == chunks[i + 1];
        }
      }
      SubBlocksRoundTrip(chunks[1..], pre', post);
    }
  }

  // ---------------------------------------------------------------------------
  // Graphic Control Extension

  /** The scan of mod-gif.c:310-311, which moves five bytes at a time while
      neither the byte at the cursor nor the one five further on is zero:
      where the walker settles before reading the block's fields. */
  function GceStart(input: seq<byte>, cp: nat): (r: Option<nat>)
    ensures r.Some? ==> cp <= r.value < |input|
    ensures r.Some? ==> input[r.value] == 0 || (r.value + 5 < |input| && input[r.value + 5] == 0)
    ensures r.Some? ==> (r.value - cp) % 5 == 0
    decreases if cp <= |input| then |input| - cp else 0
  {
    if cp >= |input| then None
    else if input[cp] == 0 then Some(cp)
    else if cp + 5 >= |input| then None
    else if input[cp + 5] == 0 then Some(cp)
    else GceStart(input, cp + 5)
  }

  /** What the walker takes from a Graphic Control Extension: the
      transparent colour index when the flag is set, and the cursor after the
      block. */
  datatype Gce = Gce(transparent: Option<byte>, next: nat)

  /** mod-gif.c:310-314: bit 0 of `cp[1]` flags a transparent index `cp[4]`;
      the cursor then moves over the block size byte, the block and its
      terminator (`cp += cp[0] + 1 + 1`). */
  function ParseGce(input: seq<byte>, cp: nat): (g: Option<Gce>)
    ensures g.Some? ==> cp < g.value.next
  {
    match GceStart(input, cp)
    case None => None
    case Some(b) =>
      if b + 1 >= |input| then None
      else if input[b + 1] % 2 == 1 then
        if b + 4 >= |input| then None else Some(Gce(Some(input[b + 4]), b + input[b] + 2))
      else Some(Gce(None, b + input[b] + 2))
  }

  method ReadGce(input: seq<byte>, cp0: nat) returns (g: Option<Gce>)
    ensures g == ParseGce(input, cp0)
  {
    var cp := cp0;
    while true
      invariant GceStart(input, cp) == GceStart(input, cp0)
      decreases if cp <= |input| then |input| - cp else 0
    {
      if cp >= |input| {
        return None;
      }
      if input[cp] == 0 {
        break;
      }
      if cp + 5 >= |input| {
        return None;
      }
      if input[cp + 5] == 0 {
        break;
      }
      cp := cp + 5;
    }
    if cp + 1 >= |input| {
      return None;
    }
    var transparent: Option<byte> := None;
    if input[cp + 1] % 2 == 1 {
      if cp + 4 >= |input| {
        return None;
      }
      transparent := Some(input[cp + 4]);
    }
    g := Some(Gce(transparent, cp + input[cp] + 2));
  }

  /** A Graphic Control Extension as GIF89a section 23 lays it out after its
      label: block size 4, packed fields, delay time, transparent colour
      index, terminator. */
  function GceBlock(packed: byte, delay: nat, index: byte): seq<byte>
    requires delay < 0x1_0000
  {
    [4, packed, delay % 256, delay / 256, index, 0]
  }

  /** On a standard block the walker reads the transparency flag and index
      and lands right after the terminator. */
  lemma GceRoundTrip(packed: byte, delay: nat, index: byte, pre: seq<byte>, post: seq<byte>)
    requires delay < 0x1_0000
    ensures ParseGce(pre + GceBlock(packed, delay, index) + post, |pre|)
         == Some(Gce(if packed % 2 == 1 then Some(index) else None, |pre| + 6))
  {
    var input := pre + GceBlock(packed, delay, index) + post;
    assert input[|pre|..|pre| + 6] == GceBlock(packed, delay, index);
    assert input[|pre|] == 4 && input[|pre| + 5] == 0;
    assert GceStart(input, |pre|) == Some(|pre|);
  }

  // ---------------------------------------------------------------------------
  // Colour tables and image descriptors

  /** `1 << ((packed & 0x07) + 1)`: the entries of a colour table (GIF89a
      sections 18 and 20). */
  function TableEntries(packed: byte): (n: nat)
    ensures 2 <= n <= 256
  {
    Pow2Monotone(1, packed % 8 + 1);
    Pow2Monotone(packed % 8 + 1, 8);
    Pow2(packed % 8 + 1)
  }

  /** The RGB triples of a colour table of `entries` entries at `at`, cut
      at the end of the buffer (the C code reads on past it). */
  function TableAt(input: seq<byte>, at: nat, entries: nat): (t: seq<byte>)
    ensures |t| <= 3 * entries
    ensures at + 3 * entries <= |input| ==> t == input[at..at + 3 * entries]
  {
    if at >= |input| then []
    else if at + 3 * entries <= |input| then input[at..at + 3 * entries]
    else input[at..]
  }

  /** mod-gif.c:288-294: the global colour table, when bit 7 of the screen
      packed byte flags one; otherwise none (`NULL` in the C code). */
  function GlobalTable(input: seq<byte>): (t: seq<byte>)
    ensures |t| <= 3 * 256
    ensures |input| <= ScreenPacked || input[ScreenPacked] < 0x80 ==> t == []
    ensures |input| > ScreenPacked && input[ScreenPacked] >= 0x80 &&
            ScreenEnd + 3 * TableEntries(input[ScreenPacked]) <= |input| ==>
              t == input[ScreenEnd..ScreenEnd + 3 * TableEntries(input[ScreenPacked])]
  {
    if |input| > ScreenPacked && input[ScreenPacked] >= 0x80
    then TableAt(input, ScreenEnd, TableEntries(input[ScreenPacked]))
    else []
  }

  /** The fields of an image descriptor the walker uses. */
  datatype Descriptor = Descriptor(width: nat, height: nat, interlaced: bool, localColors: Option<nat>)

  /** mod-gif.c:327-339: width and height little-endian from bytes 4-7, the
      interlace flag from bit 6 and the local table flag from bit 7 of byte
      8, the local table size from its low three bits. */
  function ParseDescriptor(input: seq<byte>, cp: nat): (r: Option<Descriptor>)
    ensures r.Some? <==> cp + DescriptorSize <= |input|
    ensures r.Some? ==> r.value.width < 0x1_0000 && r.value.height < 0x1_0000
    ensures r.Some? ==> (r.value.localColors.Some? <==> input[cp + 8] >= 0x80)
    ensures r.Some? && r.value.localColors.Some? ==> 2 <= r.value.localColors.value <= 256
  {
    if cp + DescriptorSize > |input| then None
    else
      var packed := input[cp + 8];
      Some(Descriptor(Le16(input[cp + 4], input[cp + 5]), Le16(input[cp + 6], input[cp + 7]),
                      packed / 0x40 % 2 == 1,
                      if packed >= 0x80 then Some(TableEntries(packed)) else None))
  }

  /** An image descriptor as GIF89a section 20 lays it out after its ','
      tag: left, top, width and height little-endian, then the packed byte
      with the local table flag, the interlace flag and the table size. */
  function EncodeDescriptor(left: nat, top: nat, width: nat, height: nat, interlaced: bool,
                            localBits: Option<nat>): (s: seq<byte>)
    requires left < 0x1_0000 && top < 0x1_0000 && width < 0x1_0000 && height < 0x1_0000
    requires localBits.Some? ==> localBits.value < 8
    ensures |s| == DescriptorSize
  {
    var packed: byte := (if localBits.Some? then 0x80 + localBits.value else 0) + (if interlaced then 0x40 else 0);
    [left % 256, left / 256, top % 256, top / 256, width % 256, width / 256, height % 256, height / 256, packed]
  }

  lemma DescriptorRoundTrip(left: nat, top: nat, width: nat, height: nat, interlaced: bool,
                            localBits: Option<nat>, pre: seq<byte>, post: seq<byte>)
    requires left < 0x1_0000 && top < 0x1_0000 && width < 0x1_0000 && height < 0x1_0000
    requires localBits.Some? ==> localBits.value < 8
    ensures ParseDescriptor(pre + EncodeDescriptor(left, top, width, height, interlaced, localBits) + post, |pre|)
         == Some(Descriptor(width, height, interlaced,
                            if localBits.Some? then Some(Pow2(localBits.value + 1)) else None))
  {
    var e := EncodeDescriptor(left, top, width, height, interlaced, localBits);
    var input := pre + e + post;
    assert input[|pre|..|pre| + DescriptorSize] == e;
    assert input[|pre| + 4] == width % 256 && input[|pre| + 5] == width / 256;
    assert input[|pre| + 6] == height % 256 && input[|pre| + 7] == height / 256;
    var packed := e[8];
    assert input[|pre| + 8] == packed;
    assert packed >= 0x80 <==> localBits.Some?;
    assert packed / 0x40 % 2 == 1 <==> interlaced;
    assert localBits.Some? ==> packed % 8 == localBits.value;
  }

  // ---------------------------------------------------------------------------
  // Finding the next image

  /** Where the walker starts after the signature and the logical screen
      descriptor: behind the global colour table when there is one
      (mod-gif.c:288-294). */
  function FirstCursor(input: seq<byte>): (cp: nat)
    requires |input| > ScreenPacked
    ensures cp >= ScreenEnd
    ensures input[ScreenPacked] < 0x80 ==> cp == ScreenEnd
    ensures cp <= |input| ==> cp == ScreenEnd + |GlobalTable(input)|
  {
    ScreenEnd + (if input[ScreenPacked] >= 0x80 then 3 * TableEntries(input[ScreenPacked]) else 0)
  }

  /** An image the walker reaches: the cursor at its descriptor (just past
      the ',') and the transparent index in force there. */
  datatype Site = Site(at: nat, transparency: int)

  /** Reference definition of one stretch of the `for (;;)` loop of
      mod-gif.c:297-323: from cursor `cp`, with `transparency` in force,
      the next image to decode, `None` when the buffer or a ';' ends the
      stream first, or `Err(TruncatedStream)` when an extension runs past
      the end.  A Graphic Control Extension may update the transparent
      index; any other extension is skipped, and when its label is itself
      ',' an image follows at once; every other byte is passed over. */
  function NextSite(input: seq<byte>, cp: nat, transparency: int): (r: Result<Option<Site>>)
    ensures r.Err? ==> r.error == TruncatedStream
    ensures r.Ok? && r.value.Some? ==> cp < |input| && cp < r.value.value.at
    decreases if cp <= |input| then |input| - cp else 0
  {
    if cp >= |input| then Ok(None)
    else if input[cp] == Trailer then Ok(None)
    else if input[cp] == ExtensionIntroducer then
      if cp + 1 >= |input| then Err(TruncatedStream)
      else if input[cp + 1] == GraphicControlLabel then
        match ParseGce(input, cp + 2)
        case None => Err(TruncatedStream)
        case Some(g) =>
          NextSite(input, g.next, if g.transparent.Some? then g.transparent.value as int else transparency)
      else
        match SubBlocksEnd(input, cp + 2)
        case None => Err(TruncatedStream)
        case Some(e) =>
          if input[cp + 1] == ImageSeparator then Ok(Some(Site(e, transparency)))
          else NextSite(input, e, transparency)
    else if input[cp] == ImageSeparator then Ok(Some(Site(cp + 1, transparency)))
    else NextSite(input, cp + 1, transparency)
  }

  /** The walker loop of mod-gif.c:297-323 up to the next ',' that is not
      consumed by an extension. */
  method FindImage(input: seq<byte>, cp0: nat, transparency0: int) returns (r: Result<Option<Site>>)
    ensures r == NextSite(input, cp0, transparency0)
  {
    var cp, transparency := cp0, transparency0;
    while true
      invariant NextSite(input, cp, transparency) == NextSite(input, cp0, transparency0)
      decreases if cp <= |input| then |input| - cp else 0
    {
      if cp >= |input| {
        return Ok(None);
      }
      var c := input[cp];
      cp := cp + 1;
      if c == Trailer {
        return Ok(None);
      }
      if c == ExtensionIntroducer {
        if cp >= |input| {
          return Err(TruncatedStream);
        }
        c := input[cp];
        cp := cp + 1;
        if c == GraphicControlLabel {
          var g := ReadGce(input, cp);
          if g.None? {
            return Err(TruncatedStream);
          }
          if g.value.transparent.Some? {
            transparency := g.value.transparent.value as int;
          }
          cp := g.value.next;
        } else {
          var e := SkipSubBlocks(input, cp);
          if e.None? {
            return Err(TruncatedStream);
          }
          cp := e.value;
        }
      }
      if c == ImageSeparator {
        return Ok(Some(Site(cp, transparency)));
      }
    }
  }

  /** A Graphic Control Extension followed by an image separator: the walker
      stops right after the ',' with the block's transparent index in force
      when its flag is set, and the old one otherwise. */
  lemma SiteAfterGce(packed: byte, delay: nat, index: byte, transparency: int, pre: seq<byte>, post: seq<byte>)
    requires delay < 0x1_0000
    ensures NextSite(pre + [ExtensionIntroducer, GraphicControlLabel] + GceBlock(packed, delay, index) + [ImageSeparator] + post, |pre|, transparency)
         == Ok(Some(Site(|pre| + 9, if packed % 2 == 1 then index as int else transparency)))
  {
    var input := pre + [ExtensionIntroducer, GraphicControlLabel] + GceBlock(packed, delay, index) + [ImageSeparator] + post;
    GceRoundTrip(packed, delay, index, pre + [ExtensionIntroducer, GraphicControlLabel], [ImageSeparator] + post);
    assert input == (pre + [ExtensionIntroducer, GraphicControlLabel]) + GceBlock(packed, delay, index) + ([ImageSeparator] + post);
    assert input[|pre|] == ExtensionIntroducer && input[|pre| + 1] == GraphicControlLabel;
    assert input[|pre| + 8] == ImageSeparator;
  }

  /** Any other extension is skipped as data sub-blocks, so an image
      separator behind it is found; an extension labelled ',' is itself
      followed by an image. */
  lemma SiteAfterExtension(kind: byte, chunks: seq<seq<byte>>, transparency: int, pre: seq<byte>, post: seq<byte>)
    requires ChunksOk(chunks) && kind != GraphicControlLabel
    ensures var input := pre + [ExtensionIntroducer, kind] + EncodeSubBlocks(chunks) + [ImageSeparator] + post;
            var after := |pre| + 2 + |EncodeSubBlocks(chunks)|;
            NextSite(input, |pre|, transparency) == Ok(Some(Site(if kind == ImageSeparator then after else after + 1, transparency)))
  {
    var input := pre + [ExtensionIntroducer, kind] + EncodeSubBlocks(chunks) + [ImageSeparator] + post;
    var after := |pre| + 2 + |EncodeSubBlocks(chunks)|;
    SubBlocksRoundTrip(chunks, pre + [ExtensionIntroducer, kind], [ImageSeparator] + post);
    assert input == (pre + [ExtensionIntroducer, kind]) + EncodeSubBlocks(chunks) + ([ImageSeparator] + post);
    assert input[|pre|] == ExtensionIntroducer && input[|pre| + 1] == kind;
    assert input[after] == ImageSeparator;
  }

  /** A ';' ends the stream: no image behind it is decoded. */
  lemma TrailerEndsWalk(transparency: int, pre: seq<byte>, post: seq<byte>)
    ensures NextSite(pre + [Trailer] + post, |pre|, transparency) == Ok(None)
  {
    assert (pre + [Trailer] + post)[|pre|] == Trailer;
  }

  // ---------------------------------------------------------------------------
  // Decoding an image

  /** Where the LZW data of an image starts: behind its descriptor and its
      local colour table (mod-gif.c:335-345). */
  function DataStart(at: nat, d: Descriptor): (start: nat)
    ensures at + DescriptorSize <= start
  {
    at + DescriptorSize + (if d.localColors.Some? then 3 * d.localColors.value else 0)
  }

  /** Where an image came from: the cursor at its descriptor, the
      descriptor, the colour table it was decoded with, the transparent
      index in force (parsed, never applied), the buffer as allocated, the
      run of `Decode_LZW` that filled it, and the cursor after it. */
  datatype Image = Image(at: nat, desc: Descriptor, table: seq<byte>, transparency: int,
                         orig: seq<byte>, lzw: LzwTrace, next: nat)

  /** A frame is the image its trace entry describes: the descriptor found
      at `at`, the local table when it has one and the global table
      otherwise, and pixels painted from the rows `Decode_LZW` expanded from
      the code stream of the image data; `next` is where that decoding left
      the cursor. */
  ghost predicate FrameOf(input: seq<byte>, f: Frame, im: Image)
  {
    ParseDescriptor(input, im.at) == Some(im.desc) &&
    im.table == (if im.desc.localColors.Some?
                 then TableAt(input, im.at + DescriptorSize, im.desc.localColors.value)
                 else GlobalTable(input)) &&
    f.width == im.desc.width && f.height == im.desc.height &&
    |im.orig| == ImageBytes(f.width, f.height) &&
    LzwDecoded(input, DataStart(im.at, im.desc), im.table, f.width, f.height, im.desc.interlaced,
               im.orig, f.pixels, im.lzw) &&
    im.next == im.lzw.reader.cp + im.lzw.reader.count + 1
  }

  lemma FrameOfIntro(input: seq<byte>, f: Frame, im: Image, start: nat)
    requires ParseDescriptor(input, im.at) == Some(im.desc) && start == DataStart(im.at, im.desc)
    requires im.table == (if im.desc.localColors.Some?
                          then TableAt(input, im.at + DescriptorSize, im.desc.localColors.value)
                          else GlobalTable(input))
    requires f.width == im.desc.width && f.height == im.desc.height
    requires |im.orig| == ImageBytes(f.width, f.height)
    requires LzwDecoded(input, start, im.table, f.width, f.height, im.desc.interlaced, im.orig, f.pixels, im.lzw)
    requires im.next == im.lzw.reader.cp + im.lzw.reader.count + 1
    ensures FrameOf(input, f, im)
  {
  }

  /** Each frame holds its rows in the layout its descriptor asks for:
      row-major, or in the interlaced order of GIF89a Appendix E; and the
      cursor moves forward past the image data. */
  lemma FrameLayout(input: seq<byte>, f: Frame, im: Image)
    requires FrameOf(input, f, im)
    ensures |f.pixels| == ImageBytes(f.width, f.height)
    ensures Written(f.pixels, im.orig, im.table, f.width, f.height, im.desc.interlaced, im.lzw.rows)
    ensures im.at + DescriptorSize < im.next
  {
    PaintWritten(im.orig, im.table, f.width, f.height, im.desc.interlaced, im.lzw.rows);
  }

  /** What the reference decoder makes of one image: where its descriptor
      lies, the descriptor, the colour table, the transparent index in
      force, and the rows `Decode_LZW` decodes with the cursor after them. */
  datatype Picture = Picture(at: nat, desc: Descriptor, table: seq<byte>, transparency: int, lzw: LzwImage)

  /** Reference definition of mod-gif.c:325-364 for the image whose
      descriptor starts at `at`: a descriptor cut by the end of the input is
      `TruncatedStream`, and any error of `Decode_LZW` is the image's. */
  ghost function ImageAt(input: seq<byte>, at: nat, global: seq<byte>, transparency: int): (r: Result<Picture>)
    ensures r.Ok? ==> r.value.at == at < r.value.lzw.next
  {
    match ParseDescriptor(input, at)
    case None => Err(TruncatedStream)
    case Some(d) =>
      var table := if d.localColors.Some? then TableAt(input, at + DescriptorSize, d.localColors.value) else global;
      match LzwFrom(input, DataStart(at, d), table, d.width, d.height)
      case Err(e) => Err(e)
      case Ok(img) => Ok(Picture(at, d, table, transparency, img))
  }

  /** A decoded image is the reference picture: the same place, descriptor,
      table, transparency, rows and resume cursor. */
  ghost predicate Matches(im: Image, p: Picture)
  {
    im.at == p.at && im.desc == p.desc && im.table == p.table && im.transparency == p.transparency &&
    im.lzw.rows == p.lzw.rows && im.next == p.lzw.next
  }

  /** mod-gif.c:347-349: allocate a fresh `w*h*4` buffer and let
      `Decode_LZW` fill it from the image data at `start`. */
  method DecodePixels(input: seq<byte>, start: nat, table: seq<byte>, d: Descriptor)
    returns (res: Result<nat>, pixels: seq<byte>, ghost orig: seq<byte>, ghost t: LzwTrace)
    ensures res.Err? ==> ImageFailure(res.error)
    ensures res.Ok? ==>
      |orig| == ImageBytes(d.width, d.height) &&
      LzwDecoded(input, start, table, d.width, d.height, d.interlaced, orig, pixels, t) &&
      res.value == t.reader.cp + t.reader.count + 1
    ensures var spec := LzwFrom(input, start, table, d.width, d.height);
      (res.Err? <==> spec.Err?) && (res.Err? ==> res.error == spec.error) &&
      (res.Ok? ==> res.value == spec.value.next && t.rows == spec.value.rows &&
                   pixels == Paint(orig, table, d.width, d.height, d.interlaced, spec.value.rows))
  {
    var out := new byte[ImageBytes(d.width, d.height)];
    orig := out[..];
    res, t := DecodeLzw(input, start, table, d.width, d.height, d.interlaced, out);
    pixels := out[..];
  }

  /** mod-gif.c:325-364: decode the image whose descriptor starts at `cp`,
      with its local table or the global one. */
  method DecodeImage(input: seq<byte>, cp: nat, global: seq<byte>, transparency: int)
    returns (r: Result<Frame>, next: nat, ghost im: Image)
    requires global == GlobalTable(input)
    ensures r.Ok? ==> FrameOf(input, r.value, im) && im.at == cp < next == im.next && im.transparency == transparency
    ensures r.Err? ==> ImageFailure(r.error)
    ensures ParseDescriptor(input, cp).None? ==> r == Err(TruncatedStream)
    ensures var spec := ImageAt(input, cp, global, transparency);
      (r.Err? <==> spec.Err?) && (r.Err? ==> r.error == spec.error) && (r.Ok? ==> Matches(im, spec.value))
  {
    im := Image(cp, Descriptor(0, 0, false, None), global, transparency, [], NoTrace, cp);
    next := cp;
    var desc := ParseDescriptor(input, cp);
    if desc.None? {
      return Err(TruncatedStream), next, im;
    }
    var d := desc.value;
    var table := global;
    var start := cp;
    if d.localColors.Some? {
      table := TableAt(input, cp + DescriptorSize, d.localColors.value);
      start := start + 3 * d.localColors.value;
    }
    start := start + DescriptorSize;
    assert start == DataStart(cp, d);
    ghost var spec := LzwFrom(input, start, table, d.width, d.height);
    assert ImageAt(input, cp, global, transparency) ==
      if spec.Err? then Err(spec.error) else Ok(Picture(cp, d, table, transparency, spec.value));
    var res, pixels, orig, t := DecodePixels(input, start, table, d);
    if res.Err? {
      return Err(res.error), next, im;
    }
    im := Image(cp, d, table, transparency, orig, t, res.value);
    FrameOfIntro(input, Frame(d.width, d.height, pixels), im, start);
    next := res.value;
    r := Ok(Frame(d.width, d.height, pixels));
  }

  // ---------------------------------------------------------------------------
  // The walker

  /** The cursor and transparent index the walker resumes from after the
      first `i` images of `trace`. */
  function Cursor(input: seq<byte>, trace: seq<Image>, i: nat): nat
    requires |input| > ScreenPacked && i <= |trace|
  {
    if i == 0 then FirstCursor(input) else trace[i - 1].next
  }

  function TransparencyAfter(trace: seq<Image>, i: nat): int
    requires i <= |trace|
  {
    if i == 0 then -1 else trace[i - 1].transparency
  }

  /** Each image of `trace` is the site the reference walker finds from
      where the previous image's data ended. */
  ghost predicate Chained(input: seq<byte>, trace: seq<Image>)
  {
    |input| > ScreenPacked &&
    forall i :: 0 <= i < |trace| ==>
      NextSite(input, Cursor(input, trace, i), TransparencyAfter(trace, i))
        == Ok(Some(Site(trace[i].at, trace[i].transparency)))
  }

  /** The walk is complete: after the last image no further site exists. */
  ghost predicate Walked(input: seq<byte>, trace: seq<Image>)
  {
    Chained(input, trace) &&
    NextSite(input, Cursor(input, trace, |trace|), TransparencyAfter(trace, |trace|)) == Ok(None)
  }

  /** Appending an image leaves the earlier resume points alone. */
  lemma SameCursor(input: seq<byte>, trace: seq<Image>, im: Image, i: nat)
    requires |input| > ScreenPacked && i <= |trace|
    ensures Cursor(input, trace + [im], i) == Cursor(input, trace, i)
    ensures TransparencyAfter(trace + [im], i) == TransparencyAfter(trace, i)
    ensures i < |trace| ==> (trace + [im])[i] == trace[i]
  {
  }

  lemma ChainedGrow(input: seq<byte>, trace: seq<Image>, im: Image)
    requires Chained(input, trace)
    requires NextSite(input, Cursor(input, trace, |trace|), TransparencyAfter(trace, |trace|))
          == Ok(Some(Site(im.at, im.transparency)))
    ensures Chained(input, trace + [im])
    ensures Cursor(input, trace + [im], |trace| + 1) == im.next
    ensures TransparencyAfter(trace + [im], |trace| + 1) == im.transparency
  {
    var t := trace + [im];
    forall i | 0 <= i < |t|
      ensures NextSite(input, Cursor(input, t, i), TransparencyAfter(t, i)) == Ok(Some(Site(t[i].at, t[i].transparency)))
    {
      if i < |trace| {
        SameCursor(input, trace, im, i);
      }
    }
  }

  /** Frame `i` is the image at `trace[i]`, for every `i`. */
  ghost predicate FramesOf(input: seq<byte>, frames: seq<Frame>, trace: seq<Image>)
  {
    |frames| == |trace| && forall i :: 0 <= i < |trace| ==> FrameOf(input, frames[i], trace[i])
  }

  lemma FramesGrow(input: seq<byte>, frames: seq<Frame>, trace: seq<Image>, f: Frame, im: Image)
    requires FramesOf(input, frames, trace) && FrameOf(input, f, im)
    ensures FramesOf(input, frames + [f], trace + [im])
  {
    forall i | 0 <= i < |trace| + 1
      ensures FrameOf(input, (frames + [f])[i], (trace + [im])[i])
    {
      if i < |trace| {
        assert (frames + [f])[i] == frames[i] && (trace + [im])[i] == trace[i];
      }
    }
  }

  /** What the walker has established after the images of `trace`: their
      frames, the chain of sites, where it resumes, and that the images lie
      in increasing order before the cursor. */
  ghost predicate WalkState(input: seq<byte>, frames: seq<Frame>, trace: seq<Image>, cp: nat, transparency: int)
  {
    FramesOf(input, frames, trace) && Chained(input, trace) &&
    cp == Cursor(input, trace, |trace|) && transparency == TransparencyAfter(trace, |trace|) &&
    Ordered(trace, cp)
  }

  /** The images lie at increasing positions, all before `cp`. */
  ghost predicate Ordered(trace: seq<Image>, cp: nat)
  {
    (forall i :: 0 <= i < |trace| ==> trace[i].at < cp) &&
    (forall i, j :: 0 <= i < j < |trace| ==> trace[i].at < trace[j].at)
  }

  lemma OrderedGrow(trace: seq<Image>, cp: nat, im: Image)
    requires Ordered(trace, cp) && cp < im.at < im.next
    ensures Ordered(trace + [im], im.next)
  {
  }

  /** Decoding the image at the next site extends the walk. */
  lemma WalkGrow(input: seq<byte>, frames: seq<Frame>, trace: seq<Image>, cp: nat, transparency: int,
                 f: Frame, im: Image)
    requires WalkState(input, frames, trace, cp, transparency)
    requires NextSite(input, cp, transparency) == Ok(Some(Site(im.at, im.transparency)))
    requires FrameOf(input, f, im) && im.at < im.next
    ensures WalkState(input, frames + [f], trace + [im], im.next, im.transparency)
  {
    ChainedGrow(input, trace, im);
    FramesGrow(input, frames, trace, f, im);
    OrderedGrow(trace, cp, im);
  }

  /** A walk that has found an image did not find the stream empty. */
  lemma ChainedStart(input: seq<byte>, trace: seq<Image>)
    requires Chained(input, trace) && trace != []
    ensures NextSite(input, FirstCursor(input), -1) != Ok(None)
  {
    assert Cursor(input, trace, 0) == FirstCursor(input);
  }

  /** Reference definition of the walker loop of mod-gif.c:297-367: from
      cursor `cp` with `transparency` in force, find the next image with
      `NextSite`, decode it with `ImageAt`, and go on from where its data
      ended; the first error ends the walk. */
  ghost function WalkFrom(input: seq<byte>, global: seq<byte>, cp: nat, transparency: int,
                          done: seq<Picture>): (r: Result<seq<Picture>>)
    ensures r.Ok? ==> done <= r.value
    decreases if cp <= |input| then |input| - cp else 0
  {
    match NextSite(input, cp, transparency)
    case Err(e) => Err(e)
    case Ok(None) => Ok(done)
    case Ok(Some(site)) =>
      match ImageAt(input, site.at, global, site.transparency)
      case Err(e) => Err(e)
      case Ok(p) => WalkFrom(input, global, p.lzw.next, site.transparency, done + [p])
  }

  /** Reference definition of `DECODE_GIF` (mod-gif.c:274-388): the images
      of the stream in order, or the error that stops it; a stream without
      an image is `EmptyResult`. */
  ghost function GifFrom(input: seq<byte>): (r: Result<seq<Picture>>)
    ensures r.Ok? ==> r.value != []
  {
    if !HasValidGifHeader(input) then Err(InvalidHeader)
    else if |input| <= ScreenPacked then Err(TruncatedStream)
    else
      match WalkFrom(input, GlobalTable(input), FirstCursor(input), -1, [])
      case Err(e) => Err(e)
      case Ok(pictures) => if pictures == [] then Err(EmptyResult) else Ok(pictures)
  }

  /** Every image of the trace is the reference picture at the same place. */
  ghost predicate AllMatch(trace: seq<Image>, pictures: seq<Picture>)
  {
    |trace| == |pictures| && forall i :: 0 <= i < |trace| ==> Matches(trace[i], pictures[i])
  }

  lemma AllMatchGrow(trace: seq<Image>, pictures: seq<Picture>, im: Image, p: Picture)
    requires AllMatch(trace, pictures) && Matches(im, p)
    ensures AllMatch(trace + [im], pictures + [p])
  {
    assert forall i :: 0 <= i < |trace| ==> (trace + [im])[i] == trace[i] && (pictures + [p])[i] == pictures[i];
  }

  /** `DECODE_GIF` (mod-gif.c:274-388) without its host-language glue: the
      frames of the stream in the order their images appear, or an error.
      `trace` records where each frame came from: exactly the sites the
      reference walker `NextSite` finds, one after the other. */
  method DecodeGif(input: seq<byte>) returns (r: Result<seq<Frame>>, ghost trace: seq<Image>)
    ensures !HasValidGifHeader(input) ==> r == Err(InvalidHeader)
    ensures r == Err(InvalidHeader) ==> !HasValidGifHeader(input)
    ensures r.Ok? ==> 0 < |r.value| == |trace|
    ensures r.Ok? ==> forall i :: 0 <= i < |trace| ==> FrameOf(input, r.value[i], trace[i])
    ensures r.Ok? ==> forall i, j :: 0 <= i < j < |trace| ==> trace[i].at < trace[j].at
    ensures r.Ok? || r == Err(EmptyResult) ==> Walked(input, trace)
    ensures r == Err(EmptyResult) ==> trace == []
    ensures r == Err(EmptyResult) <==>
      HasValidGifHeader(input) && |input| > ScreenPacked && NextSite(input, FirstCursor(input), -1) == Ok(None)
    ensures var spec := GifFrom(input);
      (r.Err? <==> spec.Err?) && (r.Err? ==> r.error == spec.error) && (r.Ok? ==> AllMatch(trace, spec.value))
  {
    trace := [];
    if !HasValidGifHeader(input) {
      return Err(InvalidHeader), trace;
    }
    if |input| <= ScreenPacked {
      return Err(TruncatedStream), trace;
    }
    var global := GlobalTable(input);
    var cp: nat := FirstCursor(input);
    var transparency: int := -1;
    var frames: seq<Frame> := [];
    ghost var pictures: seq<Picture> := [];
    ghost var spec := WalkFrom(input, global, cp, transparency, []);
    assert WalkState(input, frames, trace, cp, transparency);
    while true
      invariant WalkState(input, frames, trace, cp, transparency)
      invariant AllMatch(trace, pictures) && WalkFrom(input, global, cp, transparency, pictures) == spec
      decreases if cp <= |input| then |input| - cp else 0
    {
      var site := FindImage(input, cp, transparency);
      if trace != [] {
        ChainedStart(input, trace);
      }
      if site.Err? {
        return Err(site.error), trace;
      }
      if site.value.None? {
        break;
      }
      var s := site.value.value;
      var frame, next, im := DecodeImage(input, s.at, global, s.transparency);
      if frame.Err? {
        return Err(frame.error), trace;
      }
      WalkGrow(input, frames, trace, cp, transparency, frame.value, im);
      ghost var p := ImageAt(input, s.at, global, s.transparency).value;
      AllMatchGrow(trace, pictures, im, p);
      frames := frames + [frame.value];
      trace := trace + [im];
      pictures := pictures + [p];
      cp, transparency := next, s.transparency;
    }
    if frames == [] {
      return Err(EmptyResult), trace;
    }
    r := Ok(frames);
  }
}
