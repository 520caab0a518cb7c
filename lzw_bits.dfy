/** The bit reader of `Decode_LZW` (mod-gif.c:116-150): the bytes of the
    image's data sub-blocks are shifted into the bit buffer `datum` above its
    `bits` valid bits, and each code is taken off the buffer's low end.  The
    data bytes still to come are `Data`; read as one little-endian number
    they are `Stream`, and `CodeStream` says which codes that number holds
    when each is as wide as the code width in force when it is read. */
module LzwBits {
  import opened GifBytes
  import opened LzwDict

  /** The bit reader of `Decode_LZW`: the input cursor, the bit buffer
      `datum`, how many of its bits are valid, and how many bytes are left
      in the current data sub-block. */
  datatype Reader = Reader(cp: nat, datum: nat, bits: nat, count: nat)

  /** How filling the bit buffer ended. */
  datatype Fill = Ready | BlockEnd | Truncated

  /** Work left to the reader: every byte still unread is worth nine, every
      buffered bit one. */
  function Fuel(input: seq<byte>, rd: Reader): nat
    requires rd.cp <= |input|
  {
    9 * (|input| - rd.cp) + rd.bits
  }

  // ---------------------------------------------------------------------------
  // The data bytes

  /** The data bytes a reader standing at `cp`, with `count` bytes of the
      current sub-block left, goes on to read: the rest of the sub-block,
      then the bytes of each sub-block after it.  A zero length byte ends a
      row of the decoder but not the reading: the byte after it is taken as
      the next length. */
  function Data(input: seq<byte>, cp: nat, count: nat): seq<byte>
    decreases if cp <= |input| then |input| - cp else 0
  {
    if cp >= |input| then []
    else if count > 0 then [input[cp]] + Data(input, cp + 1, count - 1)
    else Data(input, cp + 1, input[cp])
  }

  /** Bytes read as one little-endian number, the first byte lowest. */
  function Value(s: seq<byte>): nat
  {
    if s == [] then 0 else s[0] + 256 * Value(s[1..])
  }

  /** The data of an image, as one number, from the first sub-block length. */
  function Stream(input: seq<byte>, start: nat): nat
  {
    Value(Data(input, start, 0))
  }

  /** Everything the reader has still to deliver, as one number: the
      buffered bits below the data bytes to come. */
  function Remaining(input: seq<byte>, rd: Reader): nat
  {
    rd.datum + Pow2(rd.bits) * Value(Data(input, rd.cp, rd.count))
  }

  /** How many bits the reader has still to deliver. */
  function BitsLeft(input: seq<byte>, rd: Reader): nat
  {
    rd.bits + 8 * |Data(input, rd.cp, rd.count)|
  }

  /** A reader started at (`cp`, `count`) passes through (`cp'`, `count'`):
      each step reads one byte, a data byte when the sub-block has bytes
      left and a length byte otherwise. */
  predicate OnPath(input: seq<byte>, cp: nat, count: nat, cp': nat, count': nat)
    decreases if cp <= |input| then |input| - cp else 0
  {
    (cp == cp' && count == count') ||
    (cp < |input| && OnPath(input, cp + 1, if count > 0 then count - 1 else input[cp], cp', count'))
  }

  lemma {:induction false} OnPathTrans(input: seq<byte>, cp: nat, count: nat, cp1: nat, count1: nat,
                                       cp2: nat, count2: nat)
    requires OnPath(input, cp, count, cp1, count1) && OnPath(input, cp1, count1, cp2, count2)
    ensures OnPath(input, cp, count, cp2, count2)
    decreases if cp <= |input| then |input| - cp else 0
  {
    if cp != cp1 || count != count1 {
      OnPathTrans(input, cp + 1, if count > 0 then count - 1 else input[cp], cp1, count1, cp2, count2);
    }
  }

  /** A path extends by the byte read next. */
  lemma OnPathStep(input: seq<byte>, cp: nat, count: nat, cp1: nat, count1: nat)
    requires OnPath(input, cp, count, cp1, count1) && cp1 < |input|
    ensures OnPath(input, cp, count, cp1 + 1, if count1 > 0 then count1 - 1 else input[cp1])
  {
    var next := if count1 > 0 then count1 - 1 else input[cp1];
    assert OnPath(input, cp1 + 1, next, cp1 + 1, next);
    assert OnPath(input, cp1, count1, cp1 + 1, next);
    OnPathTrans(input, cp, count, cp1, count1, cp1 + 1, next);
  }

  // ---------------------------------------------------------------------------
  // Arithmetic of the bit buffer

  /** `datum += byte << bits`: the byte moves from the data to come into the
      buffer, which stays below `2^(bits + 8)`. */
  lemma FeedByte(datum: nat, bits: nat, b: byte, v: nat)
    requires datum < Pow2(bits)
    ensures datum + b * Pow2(bits) < Pow2(bits + 8)
    ensures datum + b * Pow2(bits) + Pow2(bits + 8) * v == datum + Pow2(bits) * (b + 256 * v)
  {
    var p := Pow2(bits);
    Pow2Add(bits, 8);
    assert Pow2(8) == 256;
    assert Pow2(bits + 8) == p * 256;
    assert (b + 1) * p <= 256 * p;
    assert p * (b + 256 * v) == p * b + (p * 256) * v;
  }

  /** Taking n low bits off a buffer of `bits` valid bits: the code is the low
      n bits of everything to come, and the rest shifts down by n. */
  lemma TakeBits(datum: nat, bits: nat, n: nat, v: nat)
    requires datum < Pow2(bits) && n <= bits
    ensures datum / Pow2(n) < Pow2(bits - n)
    ensures (datum + Pow2(bits) * v) / Pow2(n) == datum / Pow2(n) + Pow2(bits - n) * v
    ensures (datum + Pow2(bits) * v) % Pow2(n) == datum % Pow2(n)
  {
    var p, m := Pow2(n), Pow2(bits - n);
    Pow2Add(n, bits - n);
    assert Pow2(bits) == p * m;
    SplitLow(datum, p, m, v);
  }

  /** The same with `2^bits` written as the product `p * m`. */
  lemma SplitLow(datum: nat, p: nat, m: nat, v: nat)
    requires p >= 1 && datum < p * m
    ensures datum / p < m
    ensures (datum + (p * m) * v) / p == datum / p + m * v
    ensures (datum + (p * m) * v) % p == datum % p
  {
    var q, r := datum / p, datum % p;
    assert datum == p * q + r;
    assert (p * m) * v == p * (m * v);
    assert datum + (p * m) * v == p * (q + m * v) + r;
    DivModUnique(datum + (p * m) * v, p, q + m * v, r);
    assert p * q <= datum;
    MulBelow(p, q, m);
  }

  lemma MulBelow(p: nat, q: nat, m: nat)
    requires p * q < p * m
    ensures q < m
  {
  }

  // ---------------------------------------------------------------------------
  // Filling the buffer

  /** `datum += byte << bits; bits += 8; count--` (mod-gif.c:138-140),
      with the cursor moved past the byte. */
  function Feed(rd: Reader, b: byte): Reader
    requires rd.count > 0
  {
    Reader(rd.cp + 1, rd.datum + Shl(b, rd.bits), rd.bits + 8, rd.count - 1)
  }

  /** Reference definition of mod-gif.c:128-142, repeated while the buffer
      holds fewer than `codeSize` bits: when the sub-block is used up, the
      next byte is its successor's length, and a zero length ends the row;
      otherwise one data byte goes into the buffer above its valid bits.
      Running off the input is `Truncated`. */
  function Filled(input: seq<byte>, rd: Reader, codeSize: nat): (r: (Fill, Reader))
    requires rd.cp <= |input|
    ensures rd.cp <= r.1.cp <= |input| && Fuel(input, r.1) <= Fuel(input, rd)
    ensures r.0 == Ready <==> codeSize <= r.1.bits
    ensures r.0 == Truncated ==> r.1.cp == |input|
    ensures r.0 == BlockEnd ==> rd.cp < r.1.cp && r.1.count == 0 && input[r.1.cp - 1] == 0
    decreases |input| - rd.cp
  {
    if codeSize <= rd.bits then (Ready, rd)
    else if rd.count == 0 && rd.cp >= |input| then (Truncated, rd)
    else
      var rd1 := if rd.count == 0 then rd.(cp := rd.cp + 1, count := input[rd.cp]) else rd;
      if rd1.count == 0 then (BlockEnd, rd1)
      else if rd1.cp >= |input| then (Truncated, rd1)
      else Filled(input, Feed(rd1, input[rd1.cp]),
                  codeSize)
  }

  /** mod-gif.c:129-143, repeated while the stack stays empty: read
      sub-block lengths and data bytes until the buffer holds a whole code.
      Only bytes move, from the data into the buffer; a zero length byte
      ends the row (`BlockEnd`) and running off the input is `Truncated`. */
  method FillBits(input: seq<byte>, rd: Reader, codeSize: nat) returns (fill: Fill, rd': Reader)
    requires rd.cp <= |input| && rd.count <= 255 && rd.datum < Pow2(rd.bits)
    ensures (fill, rd') == Filled(input, rd, codeSize)
    ensures rd.cp <= rd'.cp <= |input| && rd'.count <= 255 && rd'.datum < Pow2(rd'.bits)
    ensures Fuel(input, rd') <= Fuel(input, rd)
    ensures Remaining(input, rd') == Remaining(input, rd) && BitsLeft(input, rd') == BitsLeft(input, rd)
    ensures OnPath(input, rd.cp, rd.count, rd'.cp, rd'.count)
    ensures fill == Ready <==> codeSize <= rd'.bits
    ensures fill == BlockEnd ==>
      rd.cp < rd'.cp && rd'.count == 0 && input[rd'.cp - 1] == 0 &&
      OnPath(input, rd.cp, rd.count, rd'.cp - 1, 0)
    ensures fill == Truncated ==> rd'.cp == |input| && BitsLeft(input, rd) < codeSize
  {
    rd' := rd;
    assert OnPath(input, rd.cp, rd.count, rd.cp, rd.count);
    while rd'.bits < codeSize
      invariant Filling(input, rd, rd')
      invariant Filled(input, rd', codeSize) == Filled(input, rd, codeSize)
      decreases |input| - rd'.cp
    {
      ghost var turn := rd';
      FilledStep(input, turn, codeSize);
      if rd'.count == 0 {
        if rd'.cp >= |input| {
          AtEnd(input, rd, rd');
          return Truncated, rd';
        }
        rd' := rd'.(cp := rd'.cp + 1, count := input[rd'.cp]);
        LengthStep(input, rd, turn);
        if rd'.count == 0 {
          return BlockEnd, rd';
        }
      }
      if rd'.cp >= |input| {
        AtEnd(input, rd, rd');
        return Truncated, rd';
      }
      ghost var before := rd';
      rd' := Feed(rd', input[rd'.cp]);
      ByteStep(input, rd, before);
    }
    fill := Ready;
  }

  /** One turn of the loop of `FillBits`, as `Filled` unfolds it. */
  lemma FilledStep(input: seq<byte>, rd: Reader, codeSize: nat)
    requires rd.cp <= |input| && rd.bits < codeSize
    ensures var rd1 := if rd.count == 0 && rd.cp < |input| then rd.(cp := rd.cp + 1, count := input[rd.cp]) else rd;
      Filled(input, rd, codeSize) ==
        if rd.count == 0 && rd.cp >= |input| then (Truncated, rd)
        else if rd1.count == 0 then (BlockEnd, rd1)
        else if rd1.cp >= |input| then (Truncated, rd1)
        else Filled(input, Feed(rd1, input[rd1.cp]),
                    codeSize)
  {
  }

  /** The loop invariant of `FillBits`: bytes have moved from the data into
      the buffer along the reader's path, and nothing was lost. */
  ghost predicate Filling(input: seq<byte>, rd0: Reader, rd: Reader)
  {
    rd0.cp <= rd.cp <= |input| && rd.count <= 255 && rd.datum < Pow2(rd.bits) &&
    Fuel(input, rd) <= Fuel(input, rd0) &&
    Remaining(input, rd) == Remaining(input, rd0) && BitsLeft(input, rd) == BitsLeft(input, rd0) &&
    OnPath(input, rd0.cp, rd0.count, rd.cp, rd.count)
  }

  /** Reading a sub-block length byte keeps the invariant. */
  lemma LengthStep(input: seq<byte>, rd0: Reader, rd: Reader)
    requires Filling(input, rd0, rd) && rd.count == 0 && rd.cp < |input|
    ensures Filling(input, rd0, rd.(cp := rd.cp + 1, count := input[rd.cp]))
  {
    OnPathStep(input, rd0.cp, rd0.count, rd.cp, rd.count);
  }

  /** Moving one data byte into the buffer keeps the invariant. */
  lemma ByteStep(input: seq<byte>, rd0: Reader, rd: Reader)
    requires Filling(input, rd0, rd) && rd.count > 0 && rd.cp < |input|
    ensures Filling(input, rd0, Feed(rd, input[rd.cp]))
  {
    ByteMoves(input, rd);
    OnPathStep(input, rd0.cp, rd0.count, rd.cp, rd.count);
    FillingIntro(input, rd0, Feed(rd, input[rd.cp]));
  }

  /** `datum += byte << bits; bits += 8`: what is left to deliver, and how
      many bits, do not change. */
  lemma ByteMoves(input: seq<byte>, rd: Reader)
    requires rd.count > 0 && rd.cp < |input| && rd.datum < Pow2(rd.bits)
    ensures var rd' := Feed(rd, input[rd.cp]);
      rd'.datum < Pow2(rd'.bits) &&
      Remaining(input, rd') == Remaining(input, rd) && BitsLeft(input, rd') == BitsLeft(input, rd)
  {
    var b := input[rd.cp];
    var rest := Data(input, rd.cp + 1, rd.count - 1);
    assert Data(input, rd.cp, rd.count) == [b] + rest;
    assert ([b] + rest)[1..] == rest;
    ShlIsMul(b, rd.bits);
    FeedByte(rd.datum, rd.bits, b, Value(rest));
  }

  lemma FillingIntro(input: seq<byte>, rd0: Reader, rd: Reader)
    requires rd0.cp <= rd.cp <= |input| && rd.count <= 255 && rd.datum < Pow2(rd.bits)
    requires Fuel(input, rd) <= Fuel(input, rd0)
    requires Remaining(input, rd) == Remaining(input, rd0) && BitsLeft(input, rd) == BitsLeft(input, rd0)
    requires OnPath(input, rd0.cp, rd0.count, rd.cp, rd.count)
    ensures Filling(input, rd0, rd)
  {
  }

  /** At the end of the input only the buffered bits are left. */
  lemma AtEnd(input: seq<byte>, rd0: Reader, rd: Reader)
    requires Filling(input, rd0, rd) && rd.cp >= |input|
    ensures rd.cp == |input| && BitsLeft(input, rd0) == rd.bits
  {
  }

  // ---------------------------------------------------------------------------
  // The code stream

  /** What is left of the stream value v once `codes` have been read, each
      as wide as the code width of the dictionary it was read in. */
  function Consume(v: nat, d0: Dict, codes: seq<nat>): nat
    requires DictValid(d0)
    decreases |codes|
  {
    if codes == [] then v
    else
      var before := codes[..|codes| - 1];
      Shr(Consume(v, d0, before), Run(d0, before).0.codeSize)
  }

  /** How many bits reading `codes` takes. */
  function Width(d0: Dict, codes: seq<nat>): nat
    requires DictValid(d0)
    decreases |codes|
  {
    if codes == [] then 0
    else
      var before := codes[..|codes| - 1];
      Width(d0, before) + Run(d0, before).0.codeSize
  }

  /** `codes` are the successive fields of the stream value v, least
      significant first, each as wide as the code width in force when it is
      read (GIF89a Appendix F: variable-length codes packed from the low
      bit of each byte up). */
  ghost predicate CodeStream(v: nat, d0: Dict, codes: seq<nat>)
    requires DictValid(d0)
    decreases |codes|
  {
    codes == [] ||
    (var before := codes[..|codes| - 1];
     CodeStream(v, d0, before) && codes[|codes| - 1] == Consume(v, d0, before) % Pow2(Run(d0, before).0.codeSize))
  }

  /** The codes are fixed by the data: two code sequences of one length read
      from the same stream are equal. */
  lemma {:induction false} CodeStreamUnique(v: nat, d0: Dict, a: seq<nat>, b: seq<nat>)
    requires DictValid(d0) && CodeStream(v, d0, a) && CodeStream(v, d0, b) && |a| == |b|
    ensures a == b
    decreases |a|
  {
    if a != [] {
      var n := |a| - 1;
      LastField(v, d0, a);
      LastField(v, d0, b);
      CodeStreamUnique(v, d0, a[..n], b[..n]);
      SeqFromLast(a, b);
    }
  }

  /** The last code of a stream is the field after the others. */
  lemma LastField(v: nat, d0: Dict, a: seq<nat>)
    requires DictValid(d0) && CodeStream(v, d0, a) && a != []
    ensures var before := a[..|a| - 1];
      CodeStream(v, d0, before) &&
      a[|a| - 1] == Consume(v, d0, before) % Pow2(Run(d0, before).0.codeSize)
  {
  }

  /** Two sequences that agree before their last elements and on them are equal. */
  lemma SeqFromLast(a: seq<nat>, b: seq<nat>)
    requires |a| == |b| > 0 && a[..|a| - 1] == b[..|b| - 1] && a[|a| - 1] == b[|b| - 1]
    ensures a == b
  {
    var n := |a| - 1;
    assert a == a[..n] + [a[n]];
    assert b == b[..n] + [b[n]];
  }

  /** The reader after `codes` have been read from the image data whose first
      sub-block length is at `start`: the buffer holds exactly `bits` bits,
      what is left to deliver is the stream after those codes, no bit is
      lost or invented, and the reader has followed the sub-block chain.
      When the mask matches the code width (a minimum code size of 2 or
      more) the codes are the stream's fields. */
  ghost predicate ReaderOk(input: seq<byte>, start: nat, d0: Dict, codes: seq<nat>, rd: Reader)
  {
    DictValid(d0) &&
    rd.cp <= |input| && rd.count <= 255 && rd.datum < Pow2(rd.bits) &&
    Remaining(input, rd) == Consume(Stream(input, start), d0, codes) &&
    BitsLeft(input, rd) + Width(d0, codes) == 8 * |Data(input, start, 0)| &&
    OnPath(input, start, 0, rd.cp, rd.count) &&
    (MaskValid(d0) ==> CodeStream(Stream(input, start), d0, codes))
  }

  /** mod-gif.c:116-117: the reader starts with an empty buffer at the first
      sub-block length. */
  lemma ReaderStart(input: seq<byte>, start: nat, d0: Dict)
    requires DictValid(d0) && start <= |input|
    ensures ReaderOk(input, start, d0, [], Reader(start, 0, 0, 0))
  {
  }

  /** Reference definition of reading one code (mod-gif.c:128-146): fill
      the buffer, then take `datum & code_mask` as the code and shift
      `code_size` bits out.  When the buffer cannot be filled no code is
      read (the code is then 0). */
  function ReadField(input: seq<byte>, rd: Reader, codeSize: nat, codeMask: nat): (r: (Fill, nat, Reader))
    requires rd.cp <= |input|
    ensures rd.cp <= r.2.cp <= |input| && Fuel(input, r.2) <= Fuel(input, rd)
    ensures r.0 == Ready && codeSize >= 1 ==> Fuel(input, r.2) < Fuel(input, rd)
    ensures r.0 == Truncated ==> r.2.cp == |input|
  {
    var f := Filled(input, rd, codeSize);
    if f.0 != Ready then (f.0, 0, f.1)
    else (Ready, BitAnd(f.1.datum, codeMask), f.1.(datum := Shr(f.1.datum, codeSize), bits := f.1.bits - codeSize))
  }

  lemma ReadFieldFilled(input: seq<byte>, rd: Reader, codeSize: nat, codeMask: nat, f: (Fill, Reader))
    requires rd.cp <= |input| && f == Filled(input, rd, codeSize)
    ensures ReadField(input, rd, codeSize, codeMask) ==
      if f.0 != Ready then (f.0, 0, f.1)
      else (Ready, BitAnd(f.1.datum, codeMask), f.1.(datum := Shr(f.1.datum, codeSize), bits := f.1.bits - codeSize))
  {
  }

  /** mod-gif.c:129-150 up to the code: fill the buffer, then take
      `datum & code_mask` as the next code and shift it out
      (`datum >>= code_size; bits -= code_size`).  On a reader that keeps
      the reader invariant, the code read is the next field of the stream. */
  method NextCode(input: seq<byte>, rd: Reader, codeSize: nat, codeMask: nat,
                  ghost start: nat, ghost d0: Dict, ghost codes: seq<nat>)
    returns (fill: Fill, code: nat, rd': Reader)
    requires ReaderOk(input, start, d0, codes, rd)
    requires codeSize == Run(d0, codes).0.codeSize && codeMask == Run(d0, codes).0.codeMask
    ensures (fill, code, rd') == ReadField(input, rd, codeSize, codeMask)
    ensures rd.cp <= rd'.cp <= |input|
    ensures fill == BlockEnd ==>
      rd.cp < rd'.cp && rd'.count == 0 && input[rd'.cp - 1] == 0 && OnPath(input, start, 0, rd'.cp - 1, 0)
    ensures fill == Truncated ==> BitsLeft(input, rd) < codeSize
    ensures fill == Ready ==>
      ReaderOk(input, start, d0, codes + [code], rd') && code <= codeMask && Fuel(input, rd') < Fuel(input, rd)
    ensures fill != Ready ==> ReaderOk(input, start, d0, codes, rd') && Fuel(input, rd') <= Fuel(input, rd)
  {
    ghost var filled;
    fill, code, rd', filled := FetchCode(input, rd, codeSize, codeMask);
    if fill == Ready {
      FilledOk(input, start, d0, codes, rd, filled);
      TakeCode(input, start, d0, codes, filled, codeSize, codeMask, code, rd');
    } else {
      FilledOk(input, start, d0, codes, rd, rd');
      if fill == BlockEnd {
        OnPathTrans(input, start, 0, rd.cp, rd.count, rd'.cp - 1, 0);
      }
    }
  }

  /** The same reading on any reader with a well-formed buffer.  `filled`
      is the reader after the fill, before the code is taken. */
  method FetchCode(input: seq<byte>, rd: Reader, codeSize: nat, codeMask: nat)
    returns (fill: Fill, code: nat, rd': Reader, ghost filled: Reader)
    requires rd.cp <= |input| && rd.count <= 255 && rd.datum < Pow2(rd.bits)
    ensures (fill, code, rd') == ReadField(input, rd, codeSize, codeMask)
    ensures (fill, filled) == Filled(input, rd, codeSize)
    ensures rd.cp <= filled.cp <= |input| && filled.count <= 255 && filled.datum < Pow2(filled.bits)
    ensures Fuel(input, filled) <= Fuel(input, rd)
    ensures Remaining(input, filled) == Remaining(input, rd) && BitsLeft(input, filled) == BitsLeft(input, rd)
    ensures OnPath(input, rd.cp, rd.count, filled.cp, filled.count)
    ensures fill == BlockEnd ==>
      rd.cp < filled.cp && filled.count == 0 && input[filled.cp - 1] == 0 &&
      OnPath(input, rd.cp, rd.count, filled.cp - 1, 0)
    ensures fill == Truncated ==> BitsLeft(input, rd) < codeSize
    ensures fill != Ready ==> code == 0 && rd' == filled
    ensures fill == Ready ==>
      codeSize <= filled.bits && code == BitAnd(filled.datum, codeMask) &&
      rd' == filled.(datum := Shr(filled.datum, codeSize), bits := filled.bits - codeSize)
  {
    code := 0;
    fill, rd' := FillBits(input, rd, codeSize);
    filled := rd';
    ReadFieldFilled(input, rd, codeSize, codeMask, (fill, rd'));
    if fill != Ready {
      return;
    }
    code := BitAnd(rd'.datum, codeMask);
    rd' := rd'.(datum := Shr(rd'.datum, codeSize), bits := rd'.bits - codeSize);
  }


  /** Taking a code off a buffer that holds enough bits reads the next field
      of the stream. */
  lemma TakeCode(input: seq<byte>, start: nat, d0: Dict, codes: seq<nat>, rd: Reader, codeSize: nat, codeMask: nat,
                 code: nat, rd': Reader)
    requires ReaderOk(input, start, d0, codes, rd)
    requires codeSize == Run(d0, codes).0.codeSize && codeMask == Run(d0, codes).0.codeMask
    requires codeSize <= rd.bits && code == BitAnd(rd.datum, codeMask)
    requires rd' == rd.(datum := Shr(rd.datum, codeSize), bits := rd.bits - codeSize)
    ensures ReaderOk(input, start, d0, codes + [code], rd') && Fuel(input, rd') < Fuel(input, rd)
  {
    var d := Run(d0, codes).0;
    TakeRemaining(input, start, d0, codes, rd);
    WidthAppended(d0, codes, BitAnd(rd.datum, d.codeMask));
    if MaskValid(d0) {
      RunMaskValid(d0, codes);
      TakeField(Stream(input, start), d0, codes, rd.datum, Consume(Stream(input, start), d0, codes));
    }
    ReaderOkIntro(input, start, d0, codes + [code], rd');
  }

  lemma ReaderOkIntro(input: seq<byte>, start: nat, d0: Dict, codes: seq<nat>, rd: Reader)
    requires DictValid(d0) && rd.cp <= |input| && rd.count <= 255 && rd.datum < Pow2(rd.bits)
    requires Remaining(input, rd) == Consume(Stream(input, start), d0, codes)
    requires BitsLeft(input, rd) + Width(d0, codes) == 8 * |Data(input, start, 0)|
    requires OnPath(input, start, 0, rd.cp, rd.count)
    requires MaskValid(d0) ==> CodeStream(Stream(input, start), d0, codes)
    ensures ReaderOk(input, start, d0, codes, rd)
  {
  }

  /** Filling the buffer keeps the reader invariant. */
  lemma FilledOk(input: seq<byte>, start: nat, d0: Dict, codes: seq<nat>, rd: Reader, rd': Reader)
    requires ReaderOk(input, start, d0, codes, rd)
    requires rd'.cp <= |input| && rd'.count <= 255 && rd'.datum < Pow2(rd'.bits)
    requires Remaining(input, rd') == Remaining(input, rd) && BitsLeft(input, rd') == BitsLeft(input, rd)
    requires OnPath(input, rd.cp, rd.count, rd'.cp, rd'.count)
    ensures ReaderOk(input, start, d0, codes, rd')
  {
    OnPathTrans(input, start, 0, rd.cp, rd.count, rd'.cp, rd'.count);
    ReaderOkIntro(input, start, d0, codes, rd');
  }

  /** The bits left after taking a code are the stream after it, and the
      code agrees with the stream on the code's width. */
  lemma TakeRemaining(input: seq<byte>, start: nat, d0: Dict, codes: seq<nat>, rd: Reader)
    requires ReaderOk(input, start, d0, codes, rd)
    requires Run(d0, codes).0.codeSize <= rd.bits
    ensures var n := Run(d0, codes).0.codeSize;
      var all := Consume(Stream(input, start), d0, codes);
      Shr(rd.datum, n) < Pow2(rd.bits - n) &&
      Remaining(input, rd.(datum := Shr(rd.datum, n), bits := rd.bits - n))
        == Consume(Stream(input, start), d0, codes + [BitAnd(rd.datum, Run(d0, codes).0.codeMask)]) &&
      all % Pow2(n) == rd.datum % Pow2(n)
  {
    var d := Run(d0, codes).0;
    var all := Consume(Stream(input, start), d0, codes);
    var v := Value(Data(input, rd.cp, rd.count));
    assert all == rd.datum + Pow2(rd.bits) * v;
    ShiftOut(rd.datum, rd.bits, d.codeSize, v, all);
    ConsumeAppended(Stream(input, start), d0, codes, BitAnd(rd.datum, d.codeMask));
  }

  /** With a mask that matches the code width, the code taken off the
      buffer is the next field of the stream. */
  lemma TakeField(v: nat, d0: Dict, codes: seq<nat>, datum: nat, all: nat)
    requires DictValid(d0) && CodeStream(v, d0, codes) && all == Consume(v, d0, codes)
    requires var d := Run(d0, codes).0;
      d.codeMask == Pow2(d.codeSize) - 1 && all % Pow2(d.codeSize) == datum % Pow2(d.codeSize)
    ensures CodeStream(v, d0, codes + [BitAnd(datum, Run(d0, codes).0.codeMask)])
  {
    var d := Run(d0, codes).0;
    BitAndLowMask(datum, d.codeSize);
    StreamAppended(v, d0, codes, BitAnd(datum, d.codeMask));
  }

  /** `TakeBits` with the buffer read as shifts. */
  lemma ShiftOut(datum: nat, bits: nat, n: nat, v: nat, all: nat)
    requires datum < Pow2(bits) && n <= bits && all == datum + Pow2(bits) * v
    ensures Shr(datum, n) < Pow2(bits - n)
    ensures Shr(all, n) == Shr(datum, n) + Pow2(bits - n) * v
    ensures all % Pow2(n) == datum % Pow2(n)
  {
    TakeBits(datum, bits, n, v);
    ShrIsDiv(datum, n);
    ShrIsDiv(all, n);
  }

  /** Reading one more code shifts what is left by its width. */
  lemma ConsumeAppended(v: nat, d0: Dict, codes: seq<nat>, code: nat)
    requires DictValid(d0)
    ensures Consume(v, d0, codes + [code]) == Shr(Consume(v, d0, codes), Run(d0, codes).0.codeSize)
  {
    assert (codes + [code])[..|codes|] == codes;
  }

  lemma WidthAppended(d0: Dict, codes: seq<nat>, code: nat)
    requires DictValid(d0)
    ensures Width(d0, codes + [code]) == Width(d0, codes) + Run(d0, codes).0.codeSize
  {
    assert (codes + [code])[..|codes|] == codes;
  }

  /** The next field of the stream is the low bits of what is left. */
  lemma StreamAppended(v: nat, d0: Dict, codes: seq<nat>, code: nat)
    requires DictValid(d0) && CodeStream(v, d0, codes)
    requires code == Consume(v, d0, codes) % Pow2(Run(d0, codes).0.codeSize)
    ensures CodeStream(v, d0, codes + [code])
  {
    assert (codes + [code])[..|codes|] == codes;
  }
}
