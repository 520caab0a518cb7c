/** `Decode_LZW` (mod-gif.c:86-208) as an imperative method: the `prefix`,
    `suffix` and `pixel_stack` tables are 4096-slot arrays, the bit reader
    and code-width state are local variables, and the RGBA pixels go into the
    caller's `w*h*4` output array, row by row, linearly or in the interlaced
    order.  The codes are proved to be the variable-width fields of the
    image data (`LzwBits.CodeStream`), each code read is proved to do what
    `LzwDict.DecodeCode` says, and every row that ends short is justified by
    the end of a sub-block, an end code or a full table, so the pixels
    written are the LZW expansion of the image data. */
module LzwDecoder {
  import opened GifBytes
  import opened LzwDict
  import opened GifInterlace
  import opened LzwBits

  // ---------------------------------------------------------------------------
  // Pixels and layout

  /** The errors that can end the decoding of one image. */
  predicate ImageFailure(e: Error)
  {
    e == TruncatedStream || e == BadCodeSize || e == BadColorIndex
  }

  /** Bytes of a w by h RGBA buffer, `(w * h) * 4` (mod-gif.c:347). */
  function ImageBytes(w: nat, h: nat): nat
  {
    w * h * 4
  }

  /** A value as a C `int32_t` holds it: wrapped into [-2^31, 2^31). */
  function Int32(x: int): (r: int)
    ensures -0x8000_0000 <= r < 0x8000_0000
    ensures -0x8000_0000 <= x < 0x8000_0000 ==> r == x
    ensures (r - x) % 0x1_0000_0000 == 0
  {
    (x + 0x8000_0000) % 0x1_0000_0000 - 0x8000_0000
  }

  /** `(w * h) * 4` as the C code computes it, on `int32_t` operands
      (mod-gif.c:347 and 357). */
  function ImageBytesAsWritten(w: nat, h: nat): int
  {
    Int32(Int32(w * h) * 4)
  }

  /** `(row * w) * 4` as the C code computes it (mod-gif.c:202). */
  function RowOffsetAsWritten(row: nat, w: nat): int
  {
    Int32(Int32(row * w) * 4)
  }

  /** Below 2^31 the C arithmetic gives the buffer size. */
  lemma ImageBytesAgree(w: nat, h: nat)
    requires ImageBytes(w, h) < 0x8000_0000
    ensures ImageBytesAsWritten(w, h) == ImageBytes(w, h)
  {
    assert w * h * 4 == (w * h) * 4;
  }

  /** A 32768 by 32768 image, which the 16-bit size fields allow, needs 2^32
      bytes, but the C code asks for 0; and the byte offset of its row 16384
      comes out negative. */
  lemma ImageBytesWraps()
    ensures ImageBytes(32768, 32768) == 0x1_0000_0000 && ImageBytesAsWritten(32768, 32768) == 0
    ensures 4 * RowStart(16384, 32768) == 0x8000_0000 && RowOffsetAsWritten(16384, 32768) < 0
  {
    assert 32768 * 32768 == 0x4000_0000;
    assert Int32(0x4000_0000) == 0x4000_0000;
    assert 16384 * 32768 == 0x2000_0000;
  }

  /** A colour index that addresses a whole RGB triple of the table. */
  predicate IndexOk(table: seq<byte>, index: byte)
  {
    3 * index + 2 < |table|
  }

  /** The four bytes written for one pixel (mod-gif.c:190-194). */
  function Rgba(table: seq<byte>, index: byte): (px: seq<byte>)
    requires IndexOk(table, index)
    ensures |px| == 4 && px[3] == 0xFF
  {
    [table[3 * index], table[3 * index + 1], table[3 * index + 2], 0xFF]
  }

  function PixelAt(s: seq<byte>, p: nat): seq<byte>
    requires 4 * p + 4 <= |s|
  {
    s[4 * p .. 4 * p + 4]
  }

  function WritePixel(s: seq<byte>, p: nat, px: seq<byte>): (t: seq<byte>)
    requires 4 * p + 4 <= |s| && |px| == 4
    ensures |t| == |s|
  {
    s[..4 * p] + px + s[4 * p + 4..]
  }

  /** Writing one pixel leaves every other pixel as it was. */
  lemma WritePixelOther(s: seq<byte>, p: nat, px: seq<byte>, q: nat)
    requires 4 * p + 4 <= |s| && |px| == 4 && 4 * q + 4 <= |s| && q != p
    ensures PixelAt(WritePixel(s, p, px), q) == PixelAt(s, q)
  {
    var t := WritePixel(s, p, px);
    forall i | 4 * q <= i < 4 * q + 4
      ensures t[i] == s[i]
    {
      if q < p {
        assert i < 4 * p;
      } else {
        assert 4 * p + 4 <= i;
      }
    }
  }

  /** Rows of colour indices, one after another. */
  function Flatten(rows: seq<seq<byte>>): seq<byte>
  {
    if rows == [] then [] else Flatten(rows[..|rows| - 1]) + rows[|rows| - 1]
  }

  /** Pixel slot of column x in the y-th row written of an interlaced image. */
  function Slot(h: nat, w: nat, y: nat, x: nat): nat
    requires y < |Schedule(h)|
  {
    Schedule(h)[y] * w + x
  }

  /** Index of the first pixel of an image row. */
  function RowStart(row: nat, w: nat): nat
  {
    row * w
  }

  /** Non-interlaced output: the pixels so far fill the buffer from its start,
      and the rest of the buffer is untouched. */
  ghost predicate LinearWritten(out: seq<byte>, orig: seq<byte>, table: seq<byte>, pixels: seq<byte>)
  {
    |out| == |orig| && 4 * |pixels| <= |out| &&
    (forall k :: 0 <= k < |pixels| ==> IndexOk(table, pixels[k]) && PixelAt(out, k) == Rgba(table, pixels[k])) &&
    out[4 * |pixels|..] == orig[4 * |pixels|..]
  }

  /** Interlaced output: the y-th row written lands on row `Schedule(h)[y]`;
      every pixel no row has reached is untouched. */
  ghost predicate InterlacedWritten(out: seq<byte>, orig: seq<byte>, table: seq<byte>, w: nat, h: nat, rows: seq<seq<byte>>)
  {
    |out| == |orig| == w * h * 4 && |rows| <= h && |Schedule(h)| == h &&
    (forall y :: 0 <= y < h ==> Schedule(h)[y] < h) &&
    (forall y :: 0 <= y < |rows| ==> |rows[y]| <= w) &&
    forall y, x {:trigger Slot(h, w, y, x)} :: 0 <= y < h && 0 <= x < w ==>
      4 * Slot(h, w, y, x) + 4 <= |out| &&
      if y < |rows| && x < |rows[y]| then
        IndexOk(table, rows[y][x]) && PixelAt(out, Slot(h, w, y, x)) == Rgba(table, rows[y][x])
      else PixelAt(out, Slot(h, w, y, x)) == PixelAt(orig, Slot(h, w, y, x))
  }

  // ---------------------------------------------------------------------------
  // Arithmetic on pixel slots

  lemma SlotBound(a: nat, x: nat, w: nat, h: nat)
    requires a < h && x < w
    ensures a * w + x < w * h
    ensures 4 * (a * w + x) + 4 <= w * h * 4
  {
    MulAtLeast(w, h - a);
    MulSub(w, h, a);
    assert w * (h - a) == w * h - w * a;
  }

  lemma SlotInjective(a: nat, x: nat, b: nat, x': nat, w: nat)
    requires x < w && x' < w
    ensures a * w + x == b * w + x' ==> a == b && x == x'
  {
    DivModUnique(a * w + x, w, a, x);
    DivModUnique(b * w + x', w, b, x');
  }

  lemma FlattenAppend(rows: seq<seq<byte>>, row: seq<byte>)
    ensures Flatten(rows + [row]) == Flatten(rows) + row
  {
    assert (rows + [row])[..|rows|] == rows;
  }

  lemma {:induction false} FlattenBound(rows: seq<seq<byte>>, w: nat)
    requires forall i :: 0 <= i < |rows| ==> |rows[i]| <= w
    ensures |Flatten(rows)| <= |rows| * w
    decreases |rows|
  {
    if rows != [] {
      FlattenBound(rows[..|rows| - 1], w);
    }
  }

  lemma ReverseLast(s: seq<byte>)
    requires s != []
    ensures Reverse(s) == [s[|s| - 1]] + Reverse(s[..|s| - 1])
  {
    ReverseAppend(s[..|s| - 1], [s[|s| - 1]]);
    assert s[..|s| - 1] + [s[|s| - 1]] == s;
    assert Reverse([s[|s| - 1]]) == [s[|s| - 1]];
  }

  lemma RunAppend(d0: Dict, codes: seq<nat>, code: nat)
    requires DictValid(d0)
    ensures var prev := Run(d0, codes);
      Run(d0, codes + [code]) ==
        (After(prev.0, DecodeCode(prev.0, code)), prev.1 + Decoded(DecodeCode(prev.0, code)))
  {
    assert (codes + [code])[..|codes|] == codes;
  }

  /** What a step outputs is what it pushes, popped in reverse. */
  lemma DecodedIsPopped(s: Step, pushed: seq<byte>)
    requires pushed == (if s.Emit? || s.Full? then s.pushed else [])
    ensures Decoded(s) == Reverse(pushed)
  {
  }

  /** Decoding one more code appends what it pushes, popped in reverse. */
  lemma CodeStep(d0: Dict, codes: seq<nat>, code: nat, done: seq<byte>, pushed: seq<byte>)
    requires DictValid(d0) && done == Run(d0, codes).1
    requires var s := DecodeCode(Run(d0, codes).0, code);
      pushed == (if s.Emit? || s.Full? then s.pushed else [])
    ensures done + Reverse(pushed) == Run(d0, codes + [code]).1
    ensures Run(d0, codes + [code]).0 == After(Run(d0, codes).0, DecodeCode(Run(d0, codes).0, code))
  {
    RunAppend(d0, codes, code);
    DecodedIsPopped(DecodeCode(Run(d0, codes).0, code), pushed);
  }

  /** Popping the top of the stack moves it to the output. */
  lemma PopStep(done: seq<byte>, s: seq<byte>, all: seq<byte>)
    requires s != [] && done + Reverse(s) == all
    ensures done + [s[|s| - 1]] + Reverse(s[..|s| - 1]) == all
  {
    ReverseLast(s);
    ConcatAssoc(done, [s[|s| - 1]], Reverse(s[..|s| - 1]), all);
  }

  lemma ConcatAssoc(a: seq<byte>, b: seq<byte>, c: seq<byte>, all: seq<byte>)
    requires a + (b + c) == all
    ensures a + b + c == all
  {
    assert a + b + c == a + (b + c);
  }

  // ---------------------------------------------------------------------------
  // Layout steps

  lemma LinearStep(out: seq<byte>, orig: seq<byte>, table: seq<byte>, pixels: seq<byte>, index: byte)
    requires LinearWritten(out, orig, table, pixels)
    requires IndexOk(table, index) && 4 * |pixels| + 4 <= |out|
    ensures LinearWritten(WritePixel(out, |pixels|, Rgba(table, index)), orig, table, pixels + [index])
  {
    var out' := WritePixel(out, |pixels|, Rgba(table, index));
    var n := |pixels|;
    forall k | 0 <= k < n + 1
      ensures IndexOk(table, (pixels + [index])[k])
      ensures PixelAt(out', k) == Rgba(table, (pixels + [index])[k])
    {
      if k < n {
        WritePixelOther(out, n, Rgba(table, index), k);
      }
    }
    assert out'[4 * (n + 1)..] == out[4 * (n + 1)..];
    assert out[4 * (n + 1)..] == out[4 * n..][4..];
  }

  lemma InterlacedStep(out: seq<byte>, orig: seq<byte>, table: seq<byte>, w: nat, h: nat,
                       rows: seq<seq<byte>>, cur: seq<byte>, index: byte)
    requires InterlacedWritten(out, orig, table, w, h, rows + [cur])
    requires IndexOk(table, index) && |cur| < w && |rows| < h
    ensures 4 * Slot(h, w, |rows|, |cur|) + 4 <= |out|
    ensures InterlacedWritten(WritePixel(out, Slot(h, w, |rows|, |cur|), Rgba(table, index)),
                              orig, table, w, h, rows + [cur + [index]])
  {
    var Y, X := |rows|, |cur|;
    var p := Slot(h, w, Y, X);
    assert 4 * p + 4 <= |out|;
    var out' := WritePixel(out, p, Rgba(table, index));
    var done, done' := rows + [cur], rows + [cur + [index]];
    assert forall y :: 0 <= y < |done'| ==> |done'[y]| <= w by {
      forall y | 0 <= y < |done'| ensures |done'[y]| <= w {
        if y < |rows| { assert done'[y] == done[y]; }
      }
    }
    forall y, x | 0 <= y < h && 0 <= x < w
      ensures 4 * Slot(h, w, y, x) + 4 <= |out'|
      ensures if y < |done'| && x < |done'[y]| then
          IndexOk(table, done'[y][x]) && PixelAt(out', Slot(h, w, y, x)) == Rgba(table, done'[y][x])
        else PixelAt(out', Slot(h, w, y, x)) == PixelAt(orig, Slot(h, w, y, x))
    {
      var q := Slot(h, w, y, x);
      assert 4 * q + 4 <= |out|;
      if y == Y && x == X {
        assert PixelAt(out', q) == Rgba(table, index);
      } else {
        SlotInjective(Schedule(h)[y], x, Schedule(h)[Y], X, w);
        ScheduleIsPermutation(h);
        assert q != p;
        WritePixelOther(out, p, Rgba(table, index), q);
        if y < |done| && y != Y {
          assert done'[y] == done[y];
        }
      }
    }
  }

  /** A finished row followed by a fresh, empty one changes nothing on screen. */
  lemma InterlacedNewRow(out: seq<byte>, orig: seq<byte>, table: seq<byte>, w: nat, h: nat, rows: seq<seq<byte>>)
    requires InterlacedWritten(out, orig, table, w, h, rows) && |rows| < h
    ensures InterlacedWritten(out, orig, table, w, h, rows + [[]])
  {
    var done := rows + [[]];
    forall y, x | 0 <= y < h && 0 <= x < w
      ensures 4 * Slot(h, w, y, x) + 4 <= |out|
      ensures if y < |done| && x < |done[y]| then
          IndexOk(table, done[y][x]) && PixelAt(out, Slot(h, w, y, x)) == Rgba(table, done[y][x])
        else PixelAt(out, Slot(h, w, y, x)) == PixelAt(orig, Slot(h, w, y, x))
    {
      assert Slot(h, w, y, x) == Slot(h, w, y, x);
      if y < |rows| {
        assert done[y] == rows[y];
      }
    }
  }

  lemma InterlacedStart(out: seq<byte>, w: nat, h: nat, table: seq<byte>)
    requires |out| == w * h * 4
    ensures InterlacedWritten(out, out, table, w, h, [])
  {
    ScheduleIsPermutation(h);
    forall y, x | 0 <= y < h && 0 <= x < w
      ensures 4 * Slot(h, w, y, x) + 4 <= |out|
    {
      SlotBound(Schedule(h)[y], x, w, h);
    }
  }

  // ---------------------------------------------------------------------------
  // One code

  /** The chain loop of mod-gif.c:171-174 on the arrays. */
  method PushChain(prefix: array<int>, suffix: array<byte>, stack: array<byte>, clear: nat,
                   top0: nat, ghost d: Dict, c0: int)
    returns (top: nat, root: nat)
    requires ChainsOk(d) && IsString(d, c0) && clear == ClearCode(d)
    requires prefix[..] == d.prefix && suffix[..] == d.suffix && suffix != stack
    requires top0 + |Walk(d, c0).pushed| <= stack.Length
    modifies stack
    ensures top == top0 + |Walk(d, c0).pushed| && root == Walk(d, c0).root
    ensures stack[..top] == old(stack[..top0]) + Walk(d, c0).pushed
  {
    var code := c0;
    top := top0;
    while code > clear
      invariant IsString(d, code)
      invariant top + |Walk(d, code).pushed| == top0 + |Walk(d, c0).pushed|
      invariant stack[..top] + Walk(d, code).pushed == old(stack[..top0]) + Walk(d, c0).pushed
      invariant Walk(d, code).root == Walk(d, c0).root
      decreases code
    {
      assert stack[..top] + [suffix[code]] + Walk(d, prefix[code]).pushed
          == stack[..top] + Walk(d, code).pushed;
      stack[top] := suffix[code];
      top := top + 1;
      code := prefix[code];
    }
    root := code;
  }

  /** The code-width locals of `Decode_LZW`: `available`, `code_size`,
      `code_mask`, `old_code` and `first`. */
  datatype Coder = Coder(available: nat, codeSize: nat, codeMask: nat, oldCode: int, first: byte)

  /** The locals together with the two tables are exactly the dictionary d. */
  ghost predicate Holds(d: Dict, prefix: array<int>, suffix: array<byte>, dataSize: nat, cs: Coder)
    reads prefix, suffix
  {
    d == Dict(dataSize, prefix[..], suffix[..], cs.available, cs.codeSize, cs.codeMask, cs.oldCode, cs.first)
  }

  /** mod-gif.c:180-185: store `oldCode` + `first` in the next free slot and
      widen the codes when `available` reaches the next power of two. */
  method StoreEntry(prefix: array<int>, suffix: array<byte>, dataSize: nat, cs: Coder,
                    ghost d: Dict, newFirst: byte, inCode: nat)
    returns (cs': Coder)
    requires Holds(d, prefix, suffix, dataSize, cs)
    requires cs.available < MaxStackSize && prefix.Length == MaxStackSize && suffix.Length == MaxStackSize
    modifies prefix, suffix
    ensures Holds(AddEntry(d, newFirst, inCode), prefix, suffix, dataSize, cs')
  {
    prefix[cs.available] := cs.oldCode;
    suffix[cs.available] := newFirst;
    var available := cs.available + 1;
    cs' := Coder(available, cs.codeSize, cs.codeMask, inCode, newFirst);
    if BitAnd(available, cs.codeMask) == 0 && available < MaxStackSize {
      cs' := cs'.(codeSize := cs.codeSize + 1, codeMask := cs.codeMask + available);
    }
  }

  /** A code naming a string when a previous code exists
      (mod-gif.c:163-186): push the string, then either stop because the
      table is full or add the new entry and widen the codes if needed. */
  method ExtendString(prefix: array<int>, suffix: array<byte>, stack: array<byte>, dataSize: nat, cs: Coder,
                      ghost d: Dict, code: nat)
    returns (endRow: bool, cs': Coder, top: nat)
    requires suffix != stack && stack.Length == MaxStackSize
    requires DictValid(d) && Holds(d, prefix, suffix, dataSize, cs)
    requires cs.oldCode != NullCode && code <= cs.available
    requires code != ClearCode(d) && code != ClearCode(d) + 1
    modifies prefix, suffix, stack
    ensures var r := DecodeCode(d, code);
      (r.Emit? || r.Full?) && endRow == r.Full? && top <= stack.Length &&
      Holds(After(d, r), prefix, suffix, dataSize, cs') &&
      stack[..top] == r.pushed
  {
    PushedFitsStack(d, code);
    ghost var r := DecodeCode(d, code);
    ghost var c0 := if code == cs.available then cs.oldCode else code;
    ghost var lead: seq<byte> := if code == cs.available then [cs.first] else [];
    var clear := Pow2(dataSize);
    endRow, cs' := false, cs;
    var c := code;
    top := 0;
    if code == cs.available {
      stack[0] := cs.first;
      top := 1;
      c := cs.oldCode;
    }
    assert c == c0 && stack[..top] == lead;
    var root;
    top, root := PushChain(prefix, suffix, stack, clear, top, d, c);
    var first := suffix[root];
    assert first == d.suffix[Walk(d, c0).root];
    if cs.available >= MaxStackSize {
      assert r == Full(d.(first := first), lead + Walk(d, c0).pushed);
      endRow, cs' := true, cs.(first := first);
      return;
    }
    assert r == Emit(AddEntry(d, first, code), lead + Walk(d, c0).pushed + [first]);
    stack[top] := first;
    top := top + 1;
    cs' := StoreEntry(prefix, suffix, dataSize, cs, d, first, code);
  }

  /** One code read with the stack empty (mod-gif.c:149-187).  `endRow`
      reports the `break`s at lines 150 and 179; the locals are updated and
      the tables changed in place, as `DecodeCode` says. */
  method ApplyCode(prefix: array<int>, suffix: array<byte>, stack: array<byte>, dataSize: nat, cs: Coder,
                   ghost d: Dict, code: nat)
    returns (endRow: bool, cs': Coder, top: nat)
    requires suffix != stack && stack.Length == MaxStackSize
    requires DictValid(d) && Holds(d, prefix, suffix, dataSize, cs)
    modifies prefix, suffix, stack
    ensures var r := DecodeCode(d, code);
      endRow == (r.Stop? || r.Full?) && top <= stack.Length &&
      Holds(After(d, r), prefix, suffix, dataSize, cs') &&
      stack[..top] == (if r.Emit? || r.Full? then r.pushed else [])
  {
    var clear := Pow2(dataSize);
    endRow, cs', top := false, cs, 0;
    if code > cs.available || code == clear + 1 {
      endRow := true;
    } else if code == clear {
      cs' := cs.(codeSize := dataSize + 1, codeMask := Pow2(dataSize + 1) - 1,
                 available := clear + 2, oldCode := NullCode);
    } else if cs.oldCode == NullCode {
      if code == cs.available {
        endRow := true;
      } else {
        stack[0] := suffix[code];
        top := 1;
        cs' := cs.(oldCode := code, first := code % 256);
      }
    } else {
      endRow, cs', top := ExtendString(prefix, suffix, stack, dataSize, cs, d, code);
    }
  }

  /** Re-initialising an initial dictionary changes nothing: a dictionary
      equal to `InitDict(ds, d.prefix, d.suffix)` is one `Decode_LZW` can
      start from, whatever the unset slots of its tables hold. */
  lemma InitDictFixpoint(dataSize: nat, prefix0: seq<int>, suffix0: seq<byte>)
    requires dataSize <= MaxDataSize && |prefix0| == MaxStackSize && |suffix0| == MaxStackSize
    ensures var d := InitDict(dataSize, prefix0, suffix0);
      d == InitDict(dataSize, d.prefix, d.suffix)
  {
    var d := InitDict(dataSize, prefix0, suffix0);
    var e := InitDict(dataSize, d.prefix, d.suffix);
    assert e.prefix == d.prefix;
    assert e.suffix == d.suffix;
  }

  // ---------------------------------------------------------------------------
  // How rows end

  /** The step the code at index k of `codes` took. */
  ghost function StepAt(d0: Dict, codes: seq<nat>, k: nat): Step
    requires DictValid(d0) && k < |codes|
  {
    DecodeCode(Run(d0, codes[..k]).0, codes[k])
  }

  /** Between reader positions `from` and `cp` the reader met a zero
      sub-block length (the `break` of mod-gif.c:135). */
  ghost predicate SubBlockEnded(input: seq<byte>, start: nat, from: nat, cp: nat)
  {
    from < cp <= |input| && input[cp - 1] == 0 && OnPath(input, start, 0, cp - 1, 0)
  }

  /** The last of the codes read after the first `from` was an end code or a
      code the table cannot take (the `break`s of mod-gif.c:150 and 179). */
  ghost predicate CodeEnded(d0: Dict, codes: seq<nat>, from: nat, n: nat)
    requires DictValid(d0)
  {
    from < n <= |codes| && (StepAt(d0, codes, n - 1).Stop? || StepAt(d0, codes, n - 1).Full?)
  }

  /** Where the reader stood when a row was finished: codes read so far and
      the input position. */
  datatype RowEnd = RowEnd(codes: nat, cp: nat)

  /** A row that ends at `e`, the previous one having ended after `prevCodes`
      codes at `prevCp`: a row shorter than the image is wide was cut short
      by one of the `break`s. */
  ghost predicate RowEndOk(input: seq<byte>, start: nat, d0: Dict, codes: seq<nat>, w: nat,
                           row: seq<byte>, prevCodes: nat, prevCp: nat, e: RowEnd)
    requires DictValid(d0)
  {
    prevCodes <= e.codes <= |codes| && prevCp <= e.cp &&
    (|row| < w ==> SubBlockEnded(input, start, prevCp, e.cp) || CodeEnded(d0, codes, prevCodes, e.codes))
  }

  /** Codes read before row y. */
  function EndCodes(ends: seq<RowEnd>, y: nat): nat
    requires y <= |ends|
  {
    if y == 0 then 0 else ends[y - 1].codes
  }

  /** Reader position before row y. */
  function EndCp(ends: seq<RowEnd>, y: nat, start: nat): nat
    requires y <= |ends|
  {
    if y == 0 then start else ends[y - 1].cp
  }

  ghost predicate RowsEndOk(input: seq<byte>, start: nat, d0: Dict, codes: seq<nat>, w: nat,
                            rows: seq<seq<byte>>, ends: seq<RowEnd>)
    requires DictValid(d0)
  {
    |ends| == |rows| &&
    forall y :: 0 <= y < |rows| ==>
      RowEndOk(input, start, d0, codes, w, rows[y], EndCodes(ends, y), EndCp(ends, y, start), ends[y])
  }

  /** Reading more codes does not change the steps already taken. */
  lemma StepAtStable(d0: Dict, codes: seq<nat>, codes': seq<nat>, k: nat)
    requires DictValid(d0) && codes <= codes' && k < |codes|
    ensures StepAt(d0, codes, k) == StepAt(d0, codes', k)
  {
    assert codes'[..k] == codes[..k];
  }

  lemma RowsEndGrow(input: seq<byte>, start: nat, d0: Dict, codes: seq<nat>, codes': seq<nat>, w: nat,
                    rows: seq<seq<byte>>, ends: seq<RowEnd>, row: seq<byte>, e: RowEnd)
    requires DictValid(d0) && codes <= codes' && RowsEndOk(input, start, d0, codes, w, rows, ends)
    requires RowEndOk(input, start, d0, codes', w, row, EndCodes(ends, |ends|), EndCp(ends, |ends|, start), e)
    ensures RowsEndOk(input, start, d0, codes', w, rows + [row], ends + [e])
  {
    var rows', ends' := rows + [row], ends + [e];
    forall y | 0 <= y < |rows'|
      ensures RowEndOk(input, start, d0, codes', w, rows'[y], EndCodes(ends', y), EndCp(ends', y, start), ends'[y])
    {
      if y < |rows| {
        assert rows'[y] == rows[y] && ends'[y] == ends[y];
        assert EndCodes(ends', y) == EndCodes(ends, y) && EndCp(ends', y, start) == EndCp(ends, y, start);
        RowEndStable(input, start, d0, codes, codes', w, rows[y], EndCodes(ends, y), EndCp(ends, y, start), ends[y]);
      }
    }
  }

  /** A row's justification survives reading more codes. */
  lemma RowEndStable(input: seq<byte>, start: nat, d0: Dict, codes: seq<nat>, codes': seq<nat>, w: nat,
                     row: seq<byte>, prevCodes: nat, prevCp: nat, e: RowEnd)
    requires DictValid(d0) && codes <= codes'
    requires RowEndOk(input, start, d0, codes, w, row, prevCodes, prevCp, e)
    ensures RowEndOk(input, start, d0, codes', w, row, prevCodes, prevCp, e)
  {
    if CodeEnded(d0, codes, prevCodes, e.codes) {
      StepAtStable(d0, codes, codes', e.codes - 1);
    }
  }

  // ---------------------------------------------------------------------------
  // Reference decoder
  //
  // `Decode_LZW` as functions on values, one per loop of the C code: which
  // codes are read, where each row ends, which error stops the decoding
  // and where the reader is left.  The methods below are proved to compute
  // exactly these values.

  /** What a step leaves on the pixel stack, bottom first. */
  function Pushed(s: Step): seq<byte>
  {
    if s.Emit? || s.Full? then s.pushed else []
  }

  /** Where reading codes with the stack empty stopped: how filling the bit
      buffer ended, whether a code ended the row, the dictionary, the reader
      and the pixel stack (bottom first). */
  datatype Refilled = Refilled(fill: Fill, endRow: bool, d: Dict, rd: Reader, stack: seq<byte>)

  /** One code read with the stack empty (mod-gif.c:127-187): fill the
      buffer, take the code, and apply it; no code is read when the buffer
      cannot be filled. */
  ghost function ReadOne(input: seq<byte>, d: Dict, rd: Reader): (r: Refilled)
    requires DictValid(d) && rd.cp <= |input|
    ensures DictValid(r.d) && rd.cp <= r.rd.cp <= |input|
    ensures r.fill == Ready ==> Fuel(input, r.rd) < Fuel(input, rd)
    ensures r.fill != Ready ==> !r.endRow && r.stack == [] && r.d == d
  {
    var f := ReadField(input, rd, d.codeSize, d.codeMask);
    if f.0 != Ready then Refilled(f.0, false, d, f.2, [])
    else
      var s := DecodeCode(d, f.1);
      DecodeCodeKeepsValid(d, f.1);
      Refilled(Ready, s.Stop? || s.Full?, After(d, s), f.2, Pushed(s))
  }

  /** `ReadOne` once the field is known. */
  lemma ReadOneField(input: seq<byte>, d: Dict, rd: Reader, f: (Fill, nat, Reader))
    requires DictValid(d) && rd.cp <= |input| && f == ReadField(input, rd, d.codeSize, d.codeMask)
    ensures f.0 != Ready ==> ReadOne(input, d, rd) == Refilled(f.0, false, d, f.2, [])
    ensures f.0 == Ready ==> var s := DecodeCode(d, f.1);
      ReadOne(input, d, rd) == Refilled(Ready, s.Stop? || s.Full?, After(d, s), f.2, Pushed(s))
  {
  }

  /** The `continue`s of mod-gif.c:141, 157 and 164 with the stack empty:
      codes are read one after another until one leaves an index on the
      stack, one ends the row, or the buffer cannot be filled. */
  ghost function RefillFrom(input: seq<byte>, d: Dict, rd: Reader): (r: Refilled)
    requires DictValid(d) && rd.cp <= |input|
    ensures DictValid(r.d) && rd.cp <= r.rd.cp <= |input|
    ensures r.fill == Ready && !r.endRow ==> r.stack != []
    decreases Fuel(input, rd)
  {
    var o := ReadOne(input, d, rd);
    if o.fill != Ready || o.endRow || o.stack != [] then o
    else RefillFrom(input, o.d, o.rd)
  }

  /** One code of `RefillFrom`, unfolded. */
  lemma RefillFromStep(input: seq<byte>, d: Dict, rd: Reader)
    requires DictValid(d) && rd.cp <= |input|
    ensures var o := ReadOne(input, d, rd);
      RefillFrom(input, d, rd) == if o.fill != Ready || o.endRow || o.stack != [] then o else RefillFrom(input, o.d, o.rd)
  {
  }

  /** Where one turn of the `x` loop leaves the decoder. */
  datatype Turn = Turn(outcome: Outcome, d: Dict, rd: Reader, stack: seq<byte>, cur: seq<byte>)

  /** mod-gif.c:189-195: pop the top index and append it to the row; an
      index the colour table has no entry for is an error. */
  function PopTurn(table: seq<byte>, d: Dict, rd: Reader, stack: seq<byte>, cur: seq<byte>): (t: Turn)
    requires stack != []
  {
    var index := stack[|stack| - 1];
    if IndexOk(table, index) then Turn(Pixel, d, rd, stack[..|stack| - 1], cur + [index])
    else Turn(Failed(BadColorIndex), d, rd, stack[..|stack| - 1], cur)
  }

  /** One turn of the `x` loop (mod-gif.c:125-195): codes are read only
      when the stack is empty; a zero sub-block length (`BlockEnd`) and a
      code that ends the row give `RowDone` at once, without a pixel;
      otherwise the top of the stack becomes the next pixel. */
  ghost function TurnFrom(input: seq<byte>, table: seq<byte>, d: Dict, rd: Reader, stack: seq<byte>,
                          cur: seq<byte>): (t: Turn)
    requires DictValid(d) && rd.cp <= |input|
    ensures DictValid(t.d) && rd.cp <= t.rd.cp <= |input|
    ensures t.outcome == Pixel ==> |t.cur| == |cur| + 1
    ensures t.outcome != Pixel ==> t.cur == cur
  {
    if stack != [] then PopTurn(table, d, rd, stack, cur)
    else
      var o := RefillFrom(input, d, rd);
      if o.fill == Truncated then Turn(Failed(TruncatedStream), o.d, o.rd, o.stack, cur)
      else if o.fill == BlockEnd || o.endRow then Turn(RowDone, o.d, o.rd, o.stack, cur)
      else PopTurn(table, o.d, o.rd, o.stack, cur)
  }

  /** One turn, unfolded. */
  lemma TurnFromStep(input: seq<byte>, table: seq<byte>, d: Dict, rd: Reader, stack: seq<byte>, cur: seq<byte>)
    requires DictValid(d) && rd.cp <= |input|
    ensures stack != [] ==> TurnFrom(input, table, d, rd, stack, cur) == PopTurn(table, d, rd, stack, cur)
    ensures stack == [] ==> var o := RefillFrom(input, d, rd);
      TurnFrom(input, table, d, rd, stack, cur) ==
        if o.fill == Truncated then Turn(Failed(TruncatedStream), o.d, o.rd, o.stack, cur)
        else if o.fill == BlockEnd || o.endRow then Turn(RowDone, o.d, o.rd, o.stack, cur)
        else PopTurn(table, o.d, o.rd, o.stack, cur)
  {
  }

  /** Where one row leaves the decoder, or the error that stopped it. */
  datatype RowOut = RowOut(failure: Option<Error>, d: Dict, rd: Reader, stack: seq<byte>, cur: seq<byte>)

  /** The `x` loop (mod-gif.c:124-196): turns until the row holds w pixels
      or a turn ends the row or fails. */
  ghost function RowFrom(input: seq<byte>, table: seq<byte>, w: nat, d: Dict, rd: Reader, stack: seq<byte>,
                         cur: seq<byte>): (r: RowOut)
    requires DictValid(d) && rd.cp <= |input|
    ensures DictValid(r.d) && rd.cp <= r.rd.cp <= |input|
    ensures |cur| <= |r.cur| && (|cur| <= w ==> |r.cur| <= w)
    decreases w - |cur|
  {
    if |cur| >= w then RowOut(None, d, rd, stack, cur)
    else
      var t := TurnFrom(input, table, d, rd, stack, cur);
      if t.outcome.Failed? then RowOut(Some(t.outcome.error), t.d, t.rd, t.stack, t.cur)
      else if t.outcome == RowDone then RowOut(None, t.d, t.rd, t.stack, t.cur)
      else RowFrom(input, table, w, t.d, t.rd, t.stack, t.cur)
  }

  /** One turn of the `x` loop, unfolded. */
  lemma RowFromStep(input: seq<byte>, table: seq<byte>, w: nat, d: Dict, rd: Reader, stack: seq<byte>,
                    cur: seq<byte>)
    requires DictValid(d) && rd.cp <= |input| && |cur| < w
    ensures var t := TurnFrom(input, table, d, rd, stack, cur);
      RowFrom(input, table, w, d, rd, stack, cur) ==
        if t.outcome.Failed? then RowOut(Some(t.outcome.error), t.d, t.rd, t.stack, t.cur)
        else if t.outcome == RowDone then RowOut(None, t.d, t.rd, t.stack, t.cur)
        else RowFrom(input, table, w, t.d, t.rd, t.stack, t.cur)
  {
  }

  /** The rows of an image and the reader after them, or the error that
      stopped the decoding. */
  datatype RowsOut = RowsFailed(error: Error) | RowsDone(rows: seq<seq<byte>>, rd: Reader)

  /** The `y` loop (mod-gif.c:123-204): one row after another until h rows
      are done; the stack and the dictionary carry over from row to row. */
  ghost function RowsFrom(input: seq<byte>, table: seq<byte>, w: nat, h: nat, d: Dict, rd: Reader,
                          stack: seq<byte>, rows: seq<seq<byte>>): (r: RowsOut)
    requires DictValid(d) && rd.cp <= |input|
    ensures r.RowsDone? ==> rd.cp <= r.rd.cp <= |input| && rows <= r.rows
    ensures r.RowsDone? && |rows| <= h ==> |r.rows| == h
    decreases h - |rows|
  {
    if |rows| >= h then RowsDone(rows, rd)
    else
      var r := RowFrom(input, table, w, d, rd, stack, []);
      if r.failure.Some? then RowsFailed(r.failure.value)
      else RowsFrom(input, table, w, h, r.d, r.rd, r.stack, rows + [r.cur])
  }

  /** One turn of the `y` loop, unfolded. */
  lemma RowsFromStep(input: seq<byte>, table: seq<byte>, w: nat, h: nat, d: Dict, rd: Reader,
                     stack: seq<byte>, rows: seq<seq<byte>>)
    requires DictValid(d) && rd.cp <= |input| && |rows| < h
    ensures var r := RowFrom(input, table, w, d, rd, stack, []);
      RowsFrom(input, table, w, h, d, rd, stack, rows) ==
        if r.failure.Some? then RowsFailed(r.failure.value)
        else RowsFrom(input, table, w, h, r.d, r.rd, r.stack, rows + [r.cur])
  {
  }

  /** What `Decode_LZW` produces: the rows of colour indices and the cursor
      it hands back through `*cpp`. */
  datatype LzwImage = LzwImage(rows: seq<seq<byte>>, next: nat)

  /** Reference definition of `Decode_LZW` on the image data at `cp0`, for
      tables whose slots above the literals hold `prefix0` and `suffix0`
      when allocated. */
  ghost function LzwWith(input: seq<byte>, cp0: nat, table: seq<byte>, w: nat, h: nat,
                         prefix0: seq<int>, suffix0: seq<byte>): (r: Result<LzwImage>)
    requires |prefix0| == MaxStackSize && |suffix0| == MaxStackSize
    ensures r.Ok? ==> cp0 < r.value.next && |r.value.rows| == h
  {
    if cp0 >= |input| then Err(TruncatedStream)
    else if input[cp0] > MaxDataSize then Err(BadCodeSize)
    else
      match RowsFrom(input, table, w, h, InitDict(input[cp0], prefix0, suffix0), Reader(cp0 + 1, 0, 0, 0), [], [])
      case RowsFailed(e) => Err(e)
      case RowsDone(rows, rd) => Ok(LzwImage(rows, rd.cp + rd.count + 1))
  }

  /** Reference definition of `Decode_LZW` (mod-gif.c:86-208).  The slots
      that the allocator leaves unset are never read (`LzwTablesUnread`),
      so zeroed tables stand for whatever they hold. */
  ghost function LzwFrom(input: seq<byte>, cp0: nat, table: seq<byte>, w: nat, h: nat): (r: Result<LzwImage>)
    ensures r.Ok? ==> cp0 < r.value.next && |r.value.rows| == h
  {
    LzwWith(input, cp0, table, w, h, ZeroPrefix(), ZeroSuffix())
  }

  function ZeroPrefix(): (s: seq<int>)
    ensures |s| == MaxStackSize
  {
    seq(MaxStackSize, _ => 0)
  }

  function ZeroSuffix(): (s: seq<byte>)
    ensures |s| == MaxStackSize
  {
    seq(MaxStackSize, _ => 0)
  }

  /** States that agree on the reachable slots read the same codes, leave
      the same pixels and reader, and still agree. */
  lemma ReadOneSameStrings(input: seq<byte>, d: Dict, e: Dict, rd: Reader)
    requires SameStrings(d, e) && rd.cp <= |input|
    ensures var a, b := ReadOne(input, d, rd), ReadOne(input, e, rd);
      a.fill == b.fill && a.endRow == b.endRow && a.rd == b.rd && a.stack == b.stack && SameStrings(a.d, b.d)
  {
    var f := ReadField(input, rd, d.codeSize, d.codeMask);
    if f.0 == Ready {
      DecodeCodeSameStrings(d, e, f.1);
    }
  }

  lemma {:induction false} RefillSameStrings(input: seq<byte>, d: Dict, e: Dict, rd: Reader)
    requires SameStrings(d, e) && rd.cp <= |input|
    ensures var a, b := RefillFrom(input, d, rd), RefillFrom(input, e, rd);
      a.fill == b.fill && a.endRow == b.endRow && a.rd == b.rd && a.stack == b.stack && SameStrings(a.d, b.d)
    decreases Fuel(input, rd)
  {
    ReadOneSameStrings(input, d, e, rd);
    var a, b := ReadOne(input, d, rd), ReadOne(input, e, rd);
    if a.fill == Ready && !a.endRow && a.stack == [] {
      RefillSameStrings(input, a.d, b.d, a.rd);
    }
  }

  lemma TurnSameStrings(input: seq<byte>, table: seq<byte>, d: Dict, e: Dict, rd: Reader, stack: seq<byte>,
                        cur: seq<byte>)
    requires SameStrings(d, e) && rd.cp <= |input|
    ensures var a, b := TurnFrom(input, table, d, rd, stack, cur), TurnFrom(input, table, e, rd, stack, cur);
      a.outcome == b.outcome && a.rd == b.rd && a.stack == b.stack && a.cur == b.cur && SameStrings(a.d, b.d)
  {
    if stack == [] {
      RefillSameStrings(input, d, e, rd);
      var a, b := RefillFrom(input, d, rd), RefillFrom(input, e, rd);
      if a.fill == Ready && !a.endRow {
        PopTurnSameStrings(table, a.d, b.d, a.rd, a.stack, cur);
      }
    } else {
      PopTurnSameStrings(table, d, e, rd, stack, cur);
    }
  }

  lemma PopTurnSameStrings(table: seq<byte>, d: Dict, e: Dict, rd: Reader, stack: seq<byte>, cur: seq<byte>)
    requires SameStrings(d, e) && stack != []
    ensures var a, b := PopTurn(table, d, rd, stack, cur), PopTurn(table, e, rd, stack, cur);
      a.outcome == b.outcome && a.rd == b.rd && a.stack == b.stack && a.cur == b.cur && SameStrings(a.d, b.d)
  {
  }

  lemma {:induction false} RowSameStrings(input: seq<byte>, table: seq<byte>, w: nat, d: Dict, e: Dict, rd: Reader,
                                          stack: seq<byte>, cur: seq<byte>)
    requires SameStrings(d, e) && rd.cp <= |input|
    ensures var a, b := RowFrom(input, table, w, d, rd, stack, cur), RowFrom(input, table, w, e, rd, stack, cur);
      a.failure == b.failure && a.rd == b.rd && a.stack == b.stack && a.cur == b.cur && SameStrings(a.d, b.d)
    decreases w - |cur|
  {
    if |cur| < w {
      TurnSameStrings(input, table, d, e, rd, stack, cur);
      var a, b := TurnFrom(input, table, d, rd, stack, cur), TurnFrom(input, table, e, rd, stack, cur);
      if a.outcome == Pixel {
        RowSameStrings(input, table, w, a.d, b.d, a.rd, a.stack, a.cur);
      }
    }
  }

  lemma {:induction false} RowsSameStrings(input: seq<byte>, table: seq<byte>, w: nat, h: nat, d: Dict, e: Dict,
                                           rd: Reader, stack: seq<byte>, rows: seq<seq<byte>>)
    requires SameStrings(d, e) && rd.cp <= |input|
    ensures RowsFrom(input, table, w, h, d, rd, stack, rows) == RowsFrom(input, table, w, h, e, rd, stack, rows)
    decreases h - |rows|
  {
    if |rows| < h {
      RowSameStrings(input, table, w, d, e, rd, stack, []);
      var a, b := RowFrom(input, table, w, d, rd, stack, []), RowFrom(input, table, w, e, rd, stack, []);
      if a.failure.None? {
        RowsSameStrings(input, table, w, h, a.d, b.d, a.rd, a.stack, rows + [a.cur]);
      }
    }
  }

  /** mod-gif.c:103-114 leave the table slots above the literals as the
      allocator returned them; the decoding comes out the same whatever
      they hold. */
  lemma LzwTablesUnread(input: seq<byte>, cp0: nat, table: seq<byte>, w: nat, h: nat,
                        prefix0: seq<int>, suffix0: seq<byte>)
    requires |prefix0| == MaxStackSize && |suffix0| == MaxStackSize
    ensures LzwWith(input, cp0, table, w, h, prefix0, suffix0) == LzwFrom(input, cp0, table, w, h)
  {
    if cp0 < |input| && input[cp0] <= MaxDataSize {
      var d := InitDict(input[cp0], prefix0, suffix0);
      var e := InitDict(input[cp0], ZeroPrefix(), ZeroSuffix());
      InitDictSameStrings(input[cp0], prefix0, suffix0, ZeroPrefix(), ZeroSuffix());
      var rd := Reader(cp0 + 1, 0, 0, 0);
      RowsSameStrings(input, table, w, h, d, e, rd, [], []);
      assert RowsFrom(input, table, w, h, d, rd, [], []) == RowsFrom(input, table, w, h, e, rd, [], []);
    }
  }

  // ---------------------------------------------------------------------------
  // Writing pixels

  /** Where the next pixel goes: after the pixels so far, or in the current
      interlaced row. */
  function PixelIndex(w: nat, h: nat, interlaced: bool, rows: seq<seq<byte>>, cur: seq<byte>): nat
  {
    RowBase(w, h, interlaced, rows) + |cur|
  }

  /** The first pixel of the row after `rows`: the image row the schedule
      names, or the end of the pixels so far. */
  function RowBase(w: nat, h: nat, interlaced: bool, rows: seq<seq<byte>>): nat
  {
    if !interlaced then |Flatten(rows)|
    else if |rows| < |Schedule(h)| then RowStart(Schedule(h)[|rows|], w)
    else 0
  }

  lemma PixelIndexBound(w: nat, h: nat, interlaced: bool, rows: seq<seq<byte>>, cur: seq<byte>)
    requires |rows| < h && |cur| < w && |Flatten(rows)| <= |rows| * w
    ensures 4 * PixelIndex(w, h, interlaced, rows, cur) + 4 <= w * h * 4
  {
    ScheduleIsPermutation(h);
    if interlaced {
      SlotBound(Schedule(h)[|rows|], |cur|, w, h);
    } else {
      SlotBound(|rows|, |cur|, w, h);
    }
  }

  /** A row of colour indices that fits the image width and the table. */
  predicate RowOk(table: seq<byte>, w: nat, row: seq<byte>)
  {
    |row| <= w && forall k :: 0 <= k < |row| ==> IndexOk(table, row[k])
  }

  ghost predicate RowsOk(table: seq<byte>, w: nat, rows: seq<seq<byte>>)
  {
    forall y :: 0 <= y < |rows| ==> RowOk(table, w, rows[y])
  }

  /** The image `img` after the pixels of `row` are written from pixel
      `base` on; a pixel off the table or the buffer is skipped. */
  function PaintRow(img: seq<byte>, table: seq<byte>, base: nat, row: seq<byte>): (r: seq<byte>)
    ensures |r| == |img|
    decreases |row|
  {
    if row == [] then img
    else
      var prev := PaintRow(img, table, base, row[..|row| - 1]);
      var p := base + |row| - 1;
      if IndexOk(table, row[|row| - 1]) && 4 * p + 4 <= |prev|
      then WritePixel(prev, p, Rgba(table, row[|row| - 1]))
      else prev
  }

  /** The output buffer, first `orig`, after the rows written so far. */
  function Paint(orig: seq<byte>, table: seq<byte>, w: nat, h: nat, interlaced: bool,
                 rows: seq<seq<byte>>): (r: seq<byte>)
    ensures |r| == |orig|
    decreases |rows|
  {
    if rows == [] then orig
    else
      var before := rows[..|rows| - 1];
      PaintRow(Paint(orig, table, w, h, interlaced, before), table,
               RowBase(w, h, interlaced, before), rows[|rows| - 1])
  }

  /** Writing one more pixel of the current row is one `WritePixel`. */
  lemma PaintStep(orig: seq<byte>, table: seq<byte>, w: nat, h: nat, interlaced: bool,
                  rows: seq<seq<byte>>, cur: seq<byte>, index: byte)
    requires IndexOk(table, index) && 4 * PixelIndex(w, h, interlaced, rows, cur) + 4 <= |orig|
    ensures Paint(orig, table, w, h, interlaced, rows + [cur + [index]])
         == WritePixel(Paint(orig, table, w, h, interlaced, rows + [cur]),
                       PixelIndex(w, h, interlaced, rows, cur), Rgba(table, index))
  {
    assert (rows + [cur + [index]])[..|rows|] == rows;
    assert (rows + [cur])[..|rows|] == rows;
    assert (cur + [index])[..|cur|] == cur;
  }

  /** Starting a row writes nothing. */
  lemma PaintNewRow(orig: seq<byte>, table: seq<byte>, w: nat, h: nat, interlaced: bool, rows: seq<seq<byte>>)
    ensures Paint(orig, table, w, h, interlaced, rows + [[]]) == Paint(orig, table, w, h, interlaced, rows)
  {
    assert (rows + [[]])[..|rows|] == rows;
  }

  /** The output buffer after the rows so far, in either layout. */
  ghost predicate Written(out: seq<byte>, orig: seq<byte>, table: seq<byte>, w: nat, h: nat, interlaced: bool,
                          rows: seq<seq<byte>>)
  {
    if interlaced then InterlacedWritten(out, orig, table, w, h, rows)
    else |out| == w * h * 4 && LinearWritten(out, orig, table, Flatten(rows))
  }

  lemma RowsOkPrefix(table: seq<byte>, w: nat, rows: seq<seq<byte>>)
    requires RowsOk(table, w, rows) && rows != []
    ensures RowsOk(table, w, rows[..|rows| - 1]) && RowOk(table, w, rows[|rows| - 1])
  {
  }

  /** Non-interlaced: painting one more row, pixel by pixel, extends the
      pixels laid out from the start of the buffer. */
  lemma {:induction false} PaintLinearRow(orig: seq<byte>, table: seq<byte>, w: nat, h: nat,
                                          rows: seq<seq<byte>>, cur: seq<byte>)
    requires |orig| == w * h * 4 && |rows| < h && |Flatten(rows)| <= |rows| * w && RowOk(table, w, cur)
    requires LinearWritten(Paint(orig, table, w, h, false, rows), orig, table, Flatten(rows))
    ensures LinearWritten(Paint(orig, table, w, h, false, rows + [cur]), orig, table, Flatten(rows) + cur)
    decreases |cur|
  {
    if cur == [] {
      PaintNewRow(orig, table, w, h, false, rows);
      assert Flatten(rows) + cur == Flatten(rows);
    } else {
      var c, i := cur[..|cur| - 1], cur[|cur| - 1];
      assert RowOk(table, w, c);
      PaintLinearRow(orig, table, w, h, rows, c);
      PixelIndexBound(w, h, false, rows, c);
      PaintStep(orig, table, w, h, false, rows, c, i);
      LinearStep(Paint(orig, table, w, h, false, rows + [c]), orig, table, Flatten(rows) + c, i);
      assert c + [i] == cur;
      assert Flatten(rows) + c + [i] == Flatten(rows) + cur;
    }
  }

  lemma {:induction false} PaintLinear(orig: seq<byte>, table: seq<byte>, w: nat, h: nat, rows: seq<seq<byte>>)
    requires |orig| == w * h * 4 && |rows| <= h && RowsOk(table, w, rows)
    ensures LinearWritten(Paint(orig, table, w, h, false, rows), orig, table, Flatten(rows))
    decreases |rows|
  {
    if rows != [] {
      var before, last := rows[..|rows| - 1], rows[|rows| - 1];
      RowsOkPrefix(table, w, rows);
      PaintLinear(orig, table, w, h, before);
      FlattenBound(before, w);
      PaintLinearRow(orig, table, w, h, before, last);
      FlattenAppend(before, last);
      assert before + [last] == rows;
    }
  }

  /** Interlaced: painting one more row, pixel by pixel, fills the image
      row the schedule names for it. */
  lemma {:induction false} PaintInterlacedRow(orig: seq<byte>, table: seq<byte>, w: nat, h: nat,
                                              rows: seq<seq<byte>>, cur: seq<byte>)
    requires |orig| == w * h * 4 && |rows| < h && RowOk(table, w, cur)
    requires InterlacedWritten(Paint(orig, table, w, h, true, rows), orig, table, w, h, rows)
    ensures InterlacedWritten(Paint(orig, table, w, h, true, rows + [cur]), orig, table, w, h, rows + [cur])
    decreases |cur|
  {
    if cur == [] {
      PaintNewRow(orig, table, w, h, true, rows);
      InterlacedNewRow(Paint(orig, table, w, h, true, rows), orig, table, w, h, rows);
    } else {
      var c, i := cur[..|cur| - 1], cur[|cur| - 1];
      assert RowOk(table, w, c);
      PaintInterlacedRow(orig, table, w, h, rows, c);
      ScheduleLength(h);
      assert PixelIndex(w, h, true, rows, c) == Slot(h, w, |rows|, |c|);
      InterlacedStep(Paint(orig, table, w, h, true, rows + [c]), orig, table, w, h, rows, c, i);
      PaintStep(orig, table, w, h, true, rows, c, i);
      assert c + [i] == cur;
    }
  }

  lemma {:induction false} PaintInterlaced(orig: seq<byte>, table: seq<byte>, w: nat, h: nat, rows: seq<seq<byte>>)
    requires |orig| == w * h * 4 && |rows| <= h && RowsOk(table, w, rows)
    ensures InterlacedWritten(Paint(orig, table, w, h, true, rows), orig, table, w, h, rows)
    decreases |rows|
  {
    if rows == [] {
      InterlacedStart(orig, w, h, table);
    } else {
      var before, last := rows[..|rows| - 1], rows[|rows| - 1];
      RowsOkPrefix(table, w, rows);
      PaintInterlaced(orig, table, w, h, before);
      PaintInterlacedRow(orig, table, w, h, before, last);
      assert before + [last] == rows;
    }
  }

  /** Whatever rows are decoded, `Paint` puts their pixels where the
      layout says and leaves the rest of the buffer as it was. */
  lemma PaintWritten(orig: seq<byte>, table: seq<byte>, w: nat, h: nat, interlaced: bool, rows: seq<seq<byte>>)
    requires |orig| == w * h * 4 && |rows| <= h && RowsOk(table, w, rows)
    ensures Written(Paint(orig, table, w, h, interlaced, rows), orig, table, w, h, interlaced, rows)
  {
    if interlaced {
      PaintInterlaced(orig, table, w, h, rows);
    } else {
      PaintLinear(orig, table, w, h, rows);
    }
  }

  /** mod-gif.c:190-194: write one RGBA pixel at byte offset dp. */
  method PutPixel(out: array<byte>, dp: nat, colortab: seq<byte>, index: byte)
    requires dp + 4 <= out.Length && IndexOk(colortab, index)
    modifies out
    ensures out[..] == old(out[..])[..dp] + Rgba(colortab, index) + old(out[..])[dp + 4..]
  {
    out[dp] := colortab[3 * index];
    out[dp + 1] := colortab[3 * index + 1];
    out[dp + 2] := colortab[3 * index + 2];
    out[dp + 3] := 0xFF;
  }

  // ---------------------------------------------------------------------------
  // Decoding

  /** The stack-empty half of the `x` loop body (mod-gif.c:127-187): fill
      the bit buffer, take the next code off it and apply it.  `done` is the
      output so far; afterwards `done` followed by the stack, popped, is
      still what the codes read decode to. */
  method ReadCode(input: seq<byte>, prefix: array<int>, suffix: array<byte>, stack: array<byte>, dataSize: nat,
                  cs: Coder, rd: Reader, ghost start: nat, ghost d0: Dict, ghost codes: seq<nat>, ghost done: seq<byte>)
    returns (fill: Fill, endRow: bool, cs': Coder, rd': Reader, top: nat, ghost codes': seq<nat>)
    requires suffix != stack && stack.Length == MaxStackSize
    requires ReaderOk(input, start, d0, codes, rd)
    requires Holds(Run(d0, codes).0, prefix, suffix, dataSize, cs) && done == Run(d0, codes).1
    modifies prefix, suffix, stack
    ensures ReaderOk(input, start, d0, codes', rd') && rd.cp <= rd'.cp && codes <= codes'
    ensures top <= stack.Length && Holds(Run(d0, codes').0, prefix, suffix, dataSize, cs')
    ensures done + Reverse(stack[..top]) == Run(d0, codes').1
    ensures fill == Ready ==> |codes'| == |codes| + 1 && Fuel(input, rd') < Fuel(input, rd)
    ensures fill != Ready ==> codes' == codes && !endRow
    ensures fill == BlockEnd ==> SubBlockEnded(input, start, rd.cp, rd'.cp)
    ensures fill == Ready ==> (endRow <==> CodeEnded(d0, codes', |codes|, |codes'|))
    ensures ReadOne(input, Run(d0, codes).0, rd) == Refilled(fill, endRow, Run(d0, codes').0, rd', stack[..top])
  {
    endRow, cs', top, codes' := false, cs, 0, codes;
    var code;
    fill, code, rd' := NextCode(input, rd, cs.codeSize, cs.codeMask, start, d0, codes);
    ghost var d := Run(d0, codes).0;
    ReadOneField(input, d, rd, (fill, code, rd'));
    if fill != Ready {
      return;
    }
    endRow, cs', top := ApplyCode(prefix, suffix, stack, dataSize, cs, d, code);
    ReadStep(input, d0, codes, rd, code, rd', stack[..top]);
    codes' := codes + [code];
    assert codes'[..|codes|] == codes;
  }

  /** The value half of reading one code with the stack empty: the state,
      the output and the row end after the code, and `ReadOne` agreeing. */
  lemma ReadStep(input: seq<byte>, d0: Dict, codes: seq<nat>, rd: Reader, code: nat, rd': Reader, pushed: seq<byte>)
    requires DictValid(d0) && rd.cp <= |input|
    requires var d := Run(d0, codes).0;
      ReadField(input, rd, d.codeSize, d.codeMask) == (Ready, code, rd')
    requires pushed == Pushed(DecodeCode(Run(d0, codes).0, code))
    ensures var d := Run(d0, codes).0; var s := DecodeCode(d, code);
      Run(d0, codes + [code]).0 == After(d, s) &&
      Run(d0, codes).1 + Reverse(pushed) == Run(d0, codes + [code]).1 &&
      ((s.Stop? || s.Full?) <==> CodeEnded(d0, codes + [code], |codes|, |codes| + 1)) &&
      ReadOne(input, d, rd) == Refilled(Ready, s.Stop? || s.Full?, Run(d0, codes + [code]).0, rd', pushed)
  {
    var d := Run(d0, codes).0;
    CodeStep(d0, codes, code, Run(d0, codes).1, pushed);
    assert (codes + [code])[..|codes|] == codes;
    assert StepAt(d0, codes + [code], |codes|) == DecodeCode(d, code);
    ReadOneField(input, d, rd, (Ready, code, rd'));
  }

  /** mod-gif.c:189: pop the next colour index.  The output so far
      followed by the stack, popped, is unchanged by moving one index
      across. */
  method Pop(stack: array<byte>, top: nat, ghost done: seq<byte>, ghost all: seq<byte>)
    returns (top': nat, index: byte)
    requires 0 < top <= stack.Length && done + Reverse(stack[..top]) == all
    ensures top' == top - 1 && index == stack[top']
    ensures done + [index] + Reverse(stack[..top']) == all
  {
    PopStep(done, stack[..top], all);
    top' := top - 1;
    index := stack[top'];
    assert stack[..top][..top'] == stack[..top'];
  }

  /** The pixel half of the `x` loop body (mod-gif.c:189-195) after the
      colour index has been popped and checked. */
  method EmitPixel(out: array<byte>, dp: nat, colortab: seq<byte>, index: byte,
                   ghost orig: seq<byte>, ghost w: nat, ghost h: nat, ghost interlaced: bool,
                   ghost rows: seq<seq<byte>>, ghost cur: seq<byte>)
    requires out.Length == w * h * 4 && out[..] == Paint(orig, colortab, w, h, interlaced, rows + [cur])
    requires |rows| < h && |cur| < w && |Flatten(rows)| <= |rows| * w && IndexOk(colortab, index)
    requires dp == 4 * PixelIndex(w, h, interlaced, rows, cur)
    modifies out
    ensures out[..] == Paint(orig, colortab, w, h, interlaced, rows + [cur + [index]])
    ensures dp + 4 == 4 * PixelIndex(w, h, interlaced, rows, cur + [index])
  {
    ghost var image := out[..];
    ghost var p := PixelIndex(w, h, interlaced, rows, cur);
    PixelIndexBound(w, h, interlaced, rows, cur);
    PaintStep(orig, colortab, w, h, interlaced, rows, cur, index);
    PutPixel(out, dp, colortab, index);
    assert out[..] == WritePixel(image, p, Rgba(colortab, index));
  }

  /** The stack-not-empty half of the `x` loop body (mod-gif.c:189-195):
      pop a colour index and write its pixel; `ok` is false, and nothing is
      written, when the index lies outside the colour table. */
  method PopPixel(out: array<byte>, stack: array<byte>, top: nat, dp: nat, colortab: seq<byte>,
                  ghost orig: seq<byte>, ghost w: nat, ghost h: nat, ghost interlaced: bool,
                  ghost rows: seq<seq<byte>>, ghost cur: seq<byte>, ghost all: seq<byte>)
    returns (ok: bool, top': nat, index: byte)
    requires out != stack && 0 < top <= stack.Length
    requires Flatten(rows) + cur + Reverse(stack[..top]) == all
    requires out.Length == w * h * 4 && out[..] == Paint(orig, colortab, w, h, interlaced, rows + [cur])
    requires |rows| < h && |cur| < w && |Flatten(rows)| <= |rows| * w
    requires dp == 4 * PixelIndex(w, h, interlaced, rows, cur)
    modifies out
    ensures top' == top - 1 && index == stack[top'] && ok == IndexOk(colortab, index)
    ensures !ok ==> out[..] == old(out[..])
    ensures ok ==>
      Flatten(rows) + (cur + [index]) + Reverse(stack[..top']) == all &&
      out[..] == Paint(orig, colortab, w, h, interlaced, rows + [cur + [index]]) &&
      dp + 4 == 4 * PixelIndex(w, h, interlaced, rows, cur + [index])
  {
    top', index := Pop(stack, top, Flatten(rows) + cur, all);
    ok := IndexOk(colortab, index);
    if ok {
      EmitPixel(out, dp, colortab, index, orig, w, h, interlaced, rows, cur);
      assert Flatten(rows) + cur + [index] == Flatten(rows) + (cur + [index]);
    }
  }

  /** The `continue` of mod-gif.c:142 and 157-162 re-enters the stack-empty
      branch with `x` unchanged: read codes until the stack holds an index,
      the image data ends, or a code ends the row. */
  method Refill(input: seq<byte>, prefix: array<int>, suffix: array<byte>, stack: array<byte>, dataSize: nat,
                cs: Coder, rd: Reader, ghost start: nat, ghost d0: Dict, ghost codes: seq<nat>, ghost done: seq<byte>)
    returns (fill: Fill, endRow: bool, cs': Coder, rd': Reader, top: nat, ghost codes': seq<nat>)
    requires suffix != stack && stack.Length == MaxStackSize
    requires ReaderOk(input, start, d0, codes, rd)
    requires Holds(Run(d0, codes).0, prefix, suffix, dataSize, cs) && done == Run(d0, codes).1
    modifies prefix, suffix, stack
    ensures ReaderOk(input, start, d0, codes', rd') && rd.cp <= rd'.cp && codes <= codes'
    ensures top <= stack.Length && Holds(Run(d0, codes').0, prefix, suffix, dataSize, cs')
    ensures done + Reverse(stack[..top]) == Run(d0, codes').1
    ensures fill == Ready && !endRow ==> top > 0
    ensures endRow ==> CodeEnded(d0, codes', |codes|, |codes'|)
    ensures fill == BlockEnd ==> SubBlockEnded(input, start, rd.cp, rd'.cp)
    ensures RefillFrom(input, Run(d0, codes).0, rd) == Refilled(fill, endRow, Run(d0, codes').0, rd', stack[..top])
  {
    cs', rd', codes' := cs, rd, codes;
    ghost var spec := RefillFrom(input, Run(d0, codes).0, rd);
    while true
      invariant ReaderOk(input, start, d0, codes', rd') && rd.cp <= rd'.cp && codes <= codes'
      invariant Holds(Run(d0, codes').0, prefix, suffix, dataSize, cs') && done == Run(d0, codes').1
      invariant RefillFrom(input, Run(d0, codes').0, rd') == spec
      decreases Fuel(input, rd')
    {
      ghost var fuel := Fuel(input, rd');
      ghost var before, cp := codes', rd'.cp;
      RefillFromStep(input, Run(d0, codes').0, rd');
      fill, endRow, cs', rd', top, codes' :=
        ReadCode(input, prefix, suffix, stack, dataSize, cs', rd', start, d0, codes', done);
      PrefixTrans(codes, before, codes');
      if fill != Ready || endRow || top > 0 {
        assert |codes| <= |before| && rd.cp <= cp;
        return;
      }
      assert Reverse(stack[..top]) == [];
      assert Fuel(input, rd') < fuel;
    }
  }

  lemma PrefixTrans(a: seq<nat>, b: seq<nat>, c: seq<nat>)
    requires a <= b && b <= c
    ensures a <= c
  {
    assert c[..|a|] == b[..|a|];
  }

  /** How one turn of the `x` loop ended: a pixel written, the row ended
      early (`break`), or an error. */
  datatype Outcome = Pixel | RowDone | Failed(error: Error)

  /** One turn of the `x` loop of `Decode_LZW` (mod-gif.c:125-195): refill
      the stack if it is empty, then pop one index and write its pixel.
      Before and after, the pixels of the row so far (`cur`), followed by
      the stack popped, are what the codes read decode to. */
  method RowStep(input: seq<byte>, colortab: seq<byte>, w: nat, h: nat, interlaced: bool, out: array<byte>,
                 prefix: array<int>, suffix: array<byte>, stack: array<byte>, dataSize: nat,
                 cs: Coder, rd: Reader, top: nat, dp: nat, ghost start: nat,
                 ghost d0: Dict, ghost codes: seq<nat>, ghost rows: seq<seq<byte>>, ghost cur: seq<byte>,
                 ghost orig: seq<byte>)
    returns (outcome: Outcome, cs': Coder, rd': Reader, top': nat, dp': nat,
             ghost codes': seq<nat>, ghost cur': seq<byte>)
    requires out.Length == w * h * 4 && stack.Length == MaxStackSize
    requires out != suffix && out != stack && suffix != stack
    requires |rows| < h && |Flatten(rows)| <= |rows| * w && |cur| < w && RowOk(colortab, w, cur)
    requires ReaderOk(input, start, d0, codes, rd) && Holds(Run(d0, codes).0, prefix, suffix, dataSize, cs)
    requires top <= stack.Length && Flatten(rows) + cur + Reverse(stack[..top]) == Run(d0, codes).1
    requires out[..] == Paint(orig, colortab, w, h, interlaced, rows + [cur])
    requires dp == 4 * PixelIndex(w, h, interlaced, rows, cur)
    modifies out, prefix, suffix, stack
    ensures ReaderOk(input, start, d0, codes', rd') && rd.cp <= rd'.cp && codes <= codes'
    ensures outcome == Pixel ==> |cur'| == |cur| + 1
    ensures outcome == RowDone ==>
      cur' == cur && (SubBlockEnded(input, start, rd.cp, rd'.cp) || CodeEnded(d0, codes', |codes|, |codes'|))
    ensures outcome == Failed(TruncatedStream) || outcome == Failed(BadColorIndex) || !outcome.Failed?
    ensures !outcome.Failed? ==>
      RowOk(colortab, w, cur') && top' <= stack.Length &&
      Holds(Run(d0, codes').0, prefix, suffix, dataSize, cs') &&
      Flatten(rows) + cur' + Reverse(stack[..top']) == Run(d0, codes').1 &&
      out[..] == Paint(orig, colortab, w, h, interlaced, rows + [cur']) &&
      dp' == 4 * PixelIndex(w, h, interlaced, rows, cur')
    ensures var t := TurnFrom(input, colortab, Run(d0, codes).0, rd, old(stack[..top]), cur);
      outcome == t.outcome &&
      (!outcome.Failed? ==> t == Turn(outcome, Run(d0, codes').0, rd', stack[..top'], cur'))
  {
    outcome, cs', rd', top', dp', codes', cur' := Pixel, cs, rd, top, dp, codes, cur;
    ghost var t := TurnFrom(input, colortab, Run(d0, codes).0, rd, stack[..top], cur);
    TurnFromStep(input, colortab, Run(d0, codes).0, rd, stack[..top], cur);
    if top == 0 {
      ghost var image := out[..];
      var fill, endRow;
      fill, endRow, cs', rd', top', codes' :=
        Refill(input, prefix, suffix, stack, dataSize, cs, rd, start, d0, codes, Flatten(rows) + cur);
      assert out[..] == image;
      if fill == Truncated {
        return Failed(TruncatedStream), cs', rd', top', dp', codes', cur';
      }
      if fill == BlockEnd || endRow {
        assert t == Turn(RowDone, Run(d0, codes').0, rd', stack[..top'], cur);
        return RowDone, cs', rd', top', dp', codes', cur';
      }
    }
    assert t == PopTurn(colortab, Run(d0, codes').0, rd', stack[..top'], cur);
    outcome, top', dp', cur' :=
      TakePixel(out, stack, top', dp, colortab, orig, w, h, interlaced, rows, cur, Run(d0, codes').1,
                Run(d0, codes').0, rd');
  }

  /** The stack-not-empty half of a turn (mod-gif.c:189-195), as `PopTurn`
      describes it: pop an index; write its pixel, or fail when the colour
      table has no entry for it. */
  method TakePixel(out: array<byte>, stack: array<byte>, top: nat, dp: nat, colortab: seq<byte>,
                   ghost orig: seq<byte>, ghost w: nat, ghost h: nat, ghost interlaced: bool,
                   ghost rows: seq<seq<byte>>, ghost cur: seq<byte>, ghost all: seq<byte>,
                   ghost d: Dict, ghost rd: Reader)
    returns (outcome: Outcome, top': nat, dp': nat, ghost cur': seq<byte>)
    requires out != stack && 0 < top <= stack.Length
    requires Flatten(rows) + cur + Reverse(stack[..top]) == all
    requires out.Length == w * h * 4 && out[..] == Paint(orig, colortab, w, h, interlaced, rows + [cur])
    requires |rows| < h && |cur| < w && |Flatten(rows)| <= |rows| * w && RowOk(colortab, w, cur)
    requires dp == 4 * PixelIndex(w, h, interlaced, rows, cur)
    modifies out
    ensures top' < top && PopTurn(colortab, d, rd, old(stack[..top]), cur) == Turn(outcome, d, rd, stack[..top'], cur')
    ensures outcome == Pixel ==>
      RowOk(colortab, w, cur') && Flatten(rows) + cur' + Reverse(stack[..top']) == all &&
      out[..] == Paint(orig, colortab, w, h, interlaced, rows + [cur']) &&
      dp' == 4 * PixelIndex(w, h, interlaced, rows, cur')
  {
    var ok, index;
    ok, top', index := PopPixel(out, stack, top, dp, colortab, orig, w, h, interlaced, rows, cur, all);
    assert stack[..top][..top'] == stack[..top'];
    if ok {
      outcome, dp', cur' := Pixel, dp + 4, cur + [index];
    } else {
      outcome, dp', cur' := Failed(BadColorIndex), dp, cur;
    }
  }

  /** One pass of the `x` loop of `Decode_LZW` (mod-gif.c:124-196): pop
      pixels from the stack, refilling it from the next codes whenever it is
      empty, until the row is full, the data sub-blocks end, or a code ends
      the row (`break`).  `cur` is the row written. */
  method DecodeRow(input: seq<byte>, colortab: seq<byte>, w: nat, h: nat, interlaced: bool, out: array<byte>,
                   prefix: array<int>, suffix: array<byte>, stack: array<byte>, dataSize: nat,
                   cs0: Coder, rd0: Reader, top0: nat, dp0: nat, ghost start: nat,
                   ghost d0: Dict, ghost codes0: seq<nat>, ghost rows: seq<seq<byte>>, ghost orig: seq<byte>)
    returns (failure: Option<Error>, cs: Coder, rd: Reader, top: nat, dp: nat,
             ghost codes: seq<nat>, ghost cur: seq<byte>)
    requires out.Length == w * h * 4 && stack.Length == MaxStackSize
    requires out != suffix && out != stack && suffix != stack
    requires |rows| < h && |Flatten(rows)| <= |rows| * w
    requires ReaderOk(input, start, d0, codes0, rd0) && Holds(Run(d0, codes0).0, prefix, suffix, dataSize, cs0)
    requires top0 <= stack.Length && Flatten(rows) + Reverse(stack[..top0]) == Run(d0, codes0).1
    requires out[..] == Paint(orig, colortab, w, h, interlaced, rows)
    requires dp0 == 4 * PixelIndex(w, h, interlaced, rows, [])
    modifies out, prefix, suffix, stack
    ensures ReaderOk(input, start, d0, codes, rd) && rd0.cp <= rd.cp && codes0 <= codes
    ensures failure == Some(TruncatedStream) || failure == Some(BadColorIndex) || failure == None
    ensures failure.None? ==>
      (|cur| < w ==> SubBlockEnded(input, start, rd0.cp, rd.cp) || CodeEnded(d0, codes, |codes0|, |codes|))
    ensures failure.None? ==>
      RowOk(colortab, w, cur) && top <= stack.Length &&
      Holds(Run(d0, codes).0, prefix, suffix, dataSize, cs) &&
      Flatten(rows) + cur + Reverse(stack[..top]) == Run(d0, codes).1 &&
      out[..] == Paint(orig, colortab, w, h, interlaced, rows + [cur]) &&
      dp == 4 * PixelIndex(w, h, interlaced, rows, cur)
    ensures var r := RowFrom(input, colortab, w, Run(d0, codes0).0, rd0, old(stack[..top0]), []);
      failure == r.failure && (failure.None? ==> r == RowOut(None, Run(d0, codes).0, rd, stack[..top], cur))
  {
    failure, cs, rd, top, dp, codes, cur := None, cs0, rd0, top0, dp0, codes0, [];
    ghost var spec := RowFrom(input, colortab, w, Run(d0, codes0).0, rd0, stack[..top0], []);
    PaintNewRow(orig, colortab, w, h, interlaced, rows);
    assert Flatten(rows) + cur == Flatten(rows);
    var x: nat := 0;
    while x < w
      invariant x == |cur| && RowOk(colortab, w, cur)
      invariant ReaderOk(input, start, d0, codes, rd) && rd0.cp <= rd.cp && codes0 <= codes
      invariant Holds(Run(d0, codes).0, prefix, suffix, dataSize, cs)
      invariant top <= stack.Length
      invariant Flatten(rows) + cur + Reverse(stack[..top]) == Run(d0, codes).1
      invariant out[..] == Paint(orig, colortab, w, h, interlaced, rows + [cur])
      invariant dp == 4 * PixelIndex(w, h, interlaced, rows, cur)
      invariant RowFrom(input, colortab, w, Run(d0, codes).0, rd, stack[..top], cur) == spec
      decreases w - x
    {
      var outcome;
      ghost var before := codes;
      RowFromStep(input, colortab, w, Run(d0, codes).0, rd, stack[..top], cur);
      outcome, cs, rd, top, dp, codes, cur :=
        RowStep(input, colortab, w, h, interlaced, out, prefix, suffix, stack, dataSize,
                cs, rd, top, dp, start, d0, codes, rows, cur, orig);
      PrefixTrans(codes0, before, codes);
      if outcome.Failed? {
        failure := Some(outcome.error);
        return;
      }
      if outcome == RowDone {
        break;
      }
      x := x + 1;
    }
  }

  /** mod-gif.c:111-114: each literal code below `clear` is the string of
      its own index. */
  method InitLiterals(prefix: array<int>, suffix: array<byte>, clear: nat)
    requires clear <= prefix.Length == suffix.Length
    modifies prefix, suffix
    ensures forall c :: 0 <= c < clear ==> prefix[c] == 0 && suffix[c] == c % 256
    ensures forall c :: clear <= c < prefix.Length ==> prefix[c] == old(prefix[c]) && suffix[c] == old(suffix[c])
  {
    var code := 0;
    while code < clear
      invariant 0 <= code <= clear
      invariant forall c :: 0 <= c < code ==> prefix[c] == 0 && suffix[c] == c % 256
      invariant forall c :: code <= c < prefix.Length ==> prefix[c] == old(prefix[c]) && suffix[c] == old(suffix[c])
    {
      prefix[code] := 0;
      suffix[code] := code % 256;
      code := code + 1;
    }
  }

  /** mod-gif.c:97-113: allocate the three 4096-slot tables and give the
      `clear` literal codes their one-index strings.  The slots above are
      left as allocated, unspecified. */
  method NewTables(dataSize: nat)
    returns (prefix: array<int>, suffix: array<byte>, stack: array<byte>, cs: Coder, ghost d0: Dict)
    requires dataSize <= MaxDataSize
    ensures fresh(prefix) && fresh(suffix) && fresh(stack) && suffix != stack
    ensures stack.Length == MaxStackSize
    ensures |d0.prefix| == MaxStackSize && |d0.suffix| == MaxStackSize
    ensures d0 == InitDict(dataSize, d0.prefix, d0.suffix)
    ensures Holds(d0, prefix, suffix, dataSize, cs)
  {
    prefix := new int[MaxStackSize];
    suffix := new byte[MaxStackSize];
    stack := new byte[MaxStackSize];
    ghost var prefix0, suffix0 := prefix[..], suffix[..];
    Pow2Monotone(dataSize, MaxDataSize);
    var clear := Pow2(dataSize);
    InitLiterals(prefix, suffix, clear);
    cs := Coder(clear + 2, dataSize + 1, Pow2(dataSize + 1) - 1, NullCode, 0);
    d0 := InitDict(dataSize, prefix0, suffix0);
    assert prefix[..] == d0.prefix;
    assert suffix[..] == d0.suffix;
    InitDictFixpoint(dataSize, prefix0, suffix0);
  }

  /** mod-gif.c:197-203 with the pass switch corrected: after row y, move
      the interlace cursor to the row written next and point dp at it. */
  method NextRowStart(row: nat, pass: nat, w: nat, h: nat, ghost rows: seq<seq<byte>>)
    returns (row': nat, pass': nat, dp: nat)
    requires 0 < |rows| <= h && Cursor(row, pass) == CursorAfter(h, |rows| - 1)
    ensures Cursor(row', pass') == CursorAfter(h, |rows|)
    ensures |rows| < h ==> dp == 4 * PixelIndex(w, h, true, rows, [])
  {
    ghost var y := |rows| - 1;
    CursorRow(h, y);
    var next := NextRow(Cursor(row, pass), h);
    row', pass' := next.row, next.pass;
    dp := 4 * RowStart(row', w);
    if y + 1 < h {
      CursorRow(h, y + 1);
      ScheduleLength(h);
    }
  }

  lemma RowAppended(table: seq<byte>, w: nat, rows: seq<seq<byte>>, row: seq<byte>)
    requires RowsOk(table, w, rows) && RowOk(table, w, row)
    ensures RowsOk(table, w, rows + [row])
    ensures Flatten(rows + [row]) == Flatten(rows) + row
  {
    assert forall y :: 0 <= y < |rows| ==> (rows + [row])[y] == rows[y];
    FlattenAppend(rows, row);
  }

  lemma PrefixOfSum(a: seq<byte>, b: seq<byte>, c: seq<byte>)
    requires a + b == c
    ensures a <= c
  {
    assert c[..|a|] == a;
  }

  /** The reader and the row ends after `rows`: the reader is where the
      last row left it, and every row so far ended as `RowEndOk` says. */
  ghost predicate Progress(input: seq<byte>, start: nat, d0: Dict, codes: seq<nat>, w: nat,
                           rows: seq<seq<byte>>, ends: seq<RowEnd>, rd: Reader)
  {
    ReaderOk(input, start, d0, codes, rd) && start <= rd.cp &&
    RowsEndOk(input, start, d0, codes, w, rows, ends) &&
    EndCodes(ends, |ends|) == |codes| && EndCp(ends, |ends|, start) == rd.cp
  }

  /** One turn of the `y` loop of `Decode_LZW` (mod-gif.c:122-204): decode
      the next row, then move to the row written after it. */
  method ImageRow(input: seq<byte>, colortab: seq<byte>, w: nat, h: nat, interlaced: bool, out: array<byte>,
                  prefix: array<int>, suffix: array<byte>, stack: array<byte>, dataSize: nat,
                  cs: Coder, rd: Reader, top: nat, dp: nat, row: nat, pass: nat, ghost start: nat,
                  ghost d0: Dict, ghost codes: seq<nat>, ghost rows: seq<seq<byte>>, ghost ends: seq<RowEnd>,
                  ghost orig: seq<byte>)
    returns (failure: Option<Error>, cs': Coder, rd': Reader, top': nat, dp': nat, row': nat, pass': nat,
             ghost codes': seq<nat>, ghost rows': seq<seq<byte>>, ghost ends': seq<RowEnd>)
    requires out.Length == w * h * 4 && stack.Length == MaxStackSize
    requires out != suffix && out != stack && suffix != stack
    requires |rows| < h
    requires Progress(input, start, d0, codes, w, rows, ends, rd) && Holds(Run(d0, codes).0, prefix, suffix, dataSize, cs)
    requires top <= stack.Length && Flatten(rows) + Reverse(stack[..top]) == Run(d0, codes).1
    requires RowsOk(colortab, w, rows) && out[..] == Paint(orig, colortab, w, h, interlaced, rows)
    requires dp == 4 * PixelIndex(w, h, interlaced, rows, [])
    requires interlaced ==> Cursor(row, pass) == CursorAfter(h, |rows|)
    modifies out, prefix, suffix, stack
    ensures failure == Some(TruncatedStream) || failure == Some(BadColorIndex) || failure == None
    ensures failure.None? ==>
      |rows'| == |rows| + 1 && Progress(input, start, d0, codes', w, rows', ends', rd') &&
      Holds(Run(d0, codes').0, prefix, suffix, dataSize, cs') &&
      top' <= stack.Length && Flatten(rows') + Reverse(stack[..top']) == Run(d0, codes').1 &&
      RowsOk(colortab, w, rows') && out[..] == Paint(orig, colortab, w, h, interlaced, rows') &&
      (|rows'| < h ==> dp' == 4 * PixelIndex(w, h, interlaced, rows', [])) &&
      (interlaced && |rows'| < h ==> Cursor(row', pass') == CursorAfter(h, |rows'|))
    ensures var s := RowsFrom(input, colortab, w, h, Run(d0, codes).0, rd, old(stack[..top]), rows);
      (failure.Some? ==> s == RowsFailed(failure.value)) &&
      (failure.None? ==> s == RowsFrom(input, colortab, w, h, Run(d0, codes').0, rd', stack[..top'], rows'))
  {
    FlattenBound(rows, w);
    ghost var cur;
    row', pass' := row, pass;
    failure, cs', rd', top', dp', codes', cur :=
      DecodeRow(input, colortab, w, h, interlaced, out, prefix, suffix, stack, dataSize,
                cs, rd, top, dp, start, d0, codes, rows, orig);
    rows', ends' := rows + [cur], ends + [RowEnd(|codes'|, rd'.cp)];
    if failure.Some? {
      return;
    }
    RowsEndGrow(input, start, d0, codes, codes', w, rows, ends, cur, RowEnd(|codes'|, rd'.cp));
    RowAppended(colortab, w, rows, cur);
    if interlaced {
      row', pass', dp' := NextRowStart(row, pass, w, h, rows');
    }
  }

  /** Before the first row: nothing painted, the first pixel at 0, the
      interlace cursor at row 0 of pass 0. */
  lemma RowsEntry(orig: seq<byte>, table: seq<byte>, w: nat, h: nat, interlaced: bool)
    ensures Paint(orig, table, w, h, interlaced, []) == orig && RowsOk(table, w, [])
    ensures 0 < h ==> PixelIndex(w, h, interlaced, [], []) == 0
    ensures CursorAfter(h, 0) == Cursor(0, 0)
  {
    if 0 < h && interlaced {
      CursorRow(h, 0);
      ScheduleLength(h);
    }
  }

  /** The `y` loop of `Decode_LZW` (mod-gif.c:122-204). */
  method DecodeRows(input: seq<byte>, colortab: seq<byte>, w: nat, h: nat, interlaced: bool, out: array<byte>,
                    prefix: array<int>, suffix: array<byte>, stack: array<byte>, dataSize: nat,
                    cs0: Coder, start: nat, ghost d0: Dict, ghost orig: seq<byte>)
    returns (failure: Option<Error>, rd: Reader, ghost codes: seq<nat>, ghost rows: seq<seq<byte>>,
             ghost ends: seq<RowEnd>)
    requires out.Length == w * h * 4 && stack.Length == MaxStackSize
    requires out != suffix && out != stack && suffix != stack
    requires start <= |input| && DictValid(d0) && Holds(d0, prefix, suffix, dataSize, cs0)
    requires out[..] == orig
    modifies out, prefix, suffix, stack
    ensures failure == Some(TruncatedStream) || failure == Some(BadColorIndex) || failure == None
    ensures failure.None? ==>
      ReaderOk(input, start, d0, codes, rd) && start <= rd.cp &&
      |rows| == h && RowsOk(colortab, w, rows) && Flatten(rows) <= Run(d0, codes).1 &&
      RowsEndOk(input, start, d0, codes, w, rows, ends) &&
      EndCodes(ends, |ends|) == |codes| && EndCp(ends, |ends|, start) == rd.cp &&
      out[..] == Paint(orig, colortab, w, h, interlaced, rows)
    ensures RowsFrom(input, colortab, w, h, d0, Reader(start, 0, 0, 0), [], []) ==
      (if failure.Some? then RowsFailed(failure.value) else RowsDone(rows, rd))
  {
    failure, rd, codes, rows, ends := None, Reader(start, 0, 0, 0), [], [], [];
    ReaderStart(input, start, d0);
    assert Progress(input, start, d0, codes, w, rows, ends, rd);
    var cs := cs0;
    var top: nat, row: nat, pass: nat, dp: nat := 0, 0, 0, 0;
    assert Reverse(stack[..top]) == [] == stack[..top];
    ghost var spec := RowsFrom(input, colortab, w, h, d0, rd, [], []);
    assert Run(d0, codes).0 == d0;
    RowsEntry(orig, colortab, w, h, interlaced);
    var y := 0;
    while y < h
      invariant y <= h && |rows| == y && failure == None
      invariant Progress(input, start, d0, codes, w, rows, ends, rd)
      invariant Holds(Run(d0, codes).0, prefix, suffix, dataSize, cs)
      invariant top <= stack.Length
      invariant Flatten(rows) + Reverse(stack[..top]) == Run(d0, codes).1
      invariant RowsOk(colortab, w, rows)
      invariant out[..] == Paint(orig, colortab, w, h, interlaced, rows)
      invariant y < h ==> dp == 4 * PixelIndex(w, h, interlaced, rows, [])
      invariant interlaced && y < h ==> Cursor(row, pass) == CursorAfter(h, y)
      invariant RowsFrom(input, colortab, w, h, Run(d0, codes).0, rd, stack[..top], rows) == spec
    {
      failure, cs, rd, top, dp, row, pass, codes, rows, ends :=
        ImageRow(input, colortab, w, h, interlaced, out, prefix, suffix, stack, dataSize,
                 cs, rd, top, dp, row, pass, start, d0, codes, rows, ends, orig);
      if failure.Some? {
        return;
      }
      y := y + 1;
    }
    PrefixOfSum(Flatten(rows), Reverse(stack[..top]), Run(d0, codes).1);
  }

  /** What one call of `Decode_LZW` did: the initial dictionary, the codes
      read, the colour indices written row by row, where each row ended, and
      the bit reader at the end. */
  datatype LzwTrace = LzwTrace(d0: Dict, codes: seq<nat>, rows: seq<seq<byte>>, ends: seq<RowEnd>, reader: Reader)

  /** The trace of a decoding that failed before reading any code. */
  const NoTrace := LzwTrace(Dict(0, [], [], 0, 0, 0, NullCode, 0), [], [], [], Reader(0, 0, 0, 0))

  /** `Decode_LZW` on the image data at `cp0` turned `orig` into `out`:
      the codes are the fields of the sub-block data, read with the code
      width of the dictionary they meet, starting from the initial
      dictionary for the minimum code size at `cp0`; the rows, h of them,
      are a prefix of what those codes decode to, and a row is short only
      when a `break` ended it; the last row ends where the reading stopped;
      the rows land in the layout `Paint` gives. */
  ghost predicate LzwDecoded(input: seq<byte>, cp0: nat, colortab: seq<byte>, w: nat, h: nat, interlaced: bool,
                             orig: seq<byte>, out: seq<byte>, t: LzwTrace)
  {
    cp0 < |input| && input[cp0] <= MaxDataSize &&
    |t.d0.prefix| == MaxStackSize && |t.d0.suffix| == MaxStackSize &&
    t.d0 == InitDict(input[cp0], t.d0.prefix, t.d0.suffix) &&
    ReaderOk(input, cp0 + 1, t.d0, t.codes, t.reader) && cp0 < t.reader.cp &&
    (2 <= input[cp0] ==> CodeStream(Stream(input, cp0 + 1), t.d0, t.codes)) &&
    |t.rows| == h && RowsOk(colortab, w, t.rows) && Flatten(t.rows) <= Run(t.d0, t.codes).1 &&
    RowsEndOk(input, cp0 + 1, t.d0, t.codes, w, t.rows, t.ends) &&
    EndCodes(t.ends, |t.ends|) == |t.codes| && EndCp(t.ends, |t.ends|, cp0 + 1) == t.reader.cp &&
    out == Paint(orig, colortab, w, h, interlaced, t.rows)
  }

  /** `Decode_LZW(data, &cp, colortab, w, h, interlaced)` (mod-gif.c:86-208).
      The image data starts at `cp0` with the minimum code size byte; the
      result is the new cursor: the reader's position plus the unread bytes
      of the current sub-block, plus one.  Reading past the end of the
      input, a code size too large for the 4096-slot tables and a colour
      index outside the table are errors here; the C code checks none of
      them. */
  method DecodeLzw(input: seq<byte>, cp0: nat, colortab: seq<byte>, w: nat, h: nat, interlaced: bool,
                   out: array<byte>)
    returns (r: Result<nat>, ghost t: LzwTrace)
    requires out.Length == w * h * 4
    modifies out
    ensures r.Err? ==> ImageFailure(r.error)
    ensures cp0 >= |input| ==> r == Err(TruncatedStream)
    ensures cp0 < |input| && input[cp0] > MaxDataSize ==> r == Err(BadCodeSize)
    ensures r == Err(BadCodeSize) ==> cp0 < |input| && input[cp0] > MaxDataSize
    ensures r.Ok? ==>
      LzwDecoded(input, cp0, colortab, w, h, interlaced, old(out[..]), out[..], t) &&
      r.value == t.reader.cp + t.reader.count + 1
    ensures r.Ok? ==> Written(out[..], old(out[..]), colortab, w, h, interlaced, t.rows)
    ensures var spec := LzwFrom(input, cp0, colortab, w, h);
      (r.Err? <==> spec.Err?) && (r.Err? ==> r.error == spec.error) &&
      (r.Ok? ==> r.value == spec.value.next && t.rows == spec.value.rows)
  {
    ghost var orig := out[..];
    t := NoTrace;
    if cp0 >= |input| {
      return Err(TruncatedStream), t;
    }
    var dataSize := input[cp0];
    if dataSize > MaxDataSize {
      return Err(BadCodeSize), t;
    }
    var prefix, suffix, stack, cs;
    ghost var d0;
    prefix, suffix, stack, cs, d0 := NewTables(dataSize);
    assert out[..] == orig;
    var failure, rd;
    ghost var codes, rows, ends;
    failure, rd, codes, rows, ends :=
      DecodeRows(input, colortab, w, h, interlaced, out, prefix, suffix, stack, dataSize,
                 cs, cp0 + 1, d0, orig);
    LzwTablesUnread(input, cp0, colortab, w, h, d0.prefix, d0.suffix);
    if failure.Some? {
      return Err(failure.value), t;
    }
    t := LzwTrace(d0, codes, rows, ends, rd);
    if 2 <= dataSize {
      InitMaskValid(dataSize, d0.prefix, d0.suffix);
    }
    PaintWritten(orig, colortab, w, h, interlaced, rows);
    r := Ok(rd.cp + rd.count + 1);
  }
}
