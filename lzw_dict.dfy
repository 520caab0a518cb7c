/** The LZW dictionary of `Decode_LZW` (GIF89a Appendix F), as values: one
    code read from the stream changes the dictionary and pushes a string of
    colour indices on the pixel stack.  The imperative decoder in LzwDecoder
    keeps the same state in arrays and is proved to follow `DecodeCode`. */
module LzwDict {
  import opened GifBytes

  /** `MAX_STACK_SIZE`: slots in `prefix`, `suffix` and `pixel_stack`. */
  const MaxStackSize: nat := 4096
  /** `NULL_CODE`: no previous code (at the start and after a clear code). */
  const NullCode: int := -1
  /** Largest minimum code size whose clear code, end code and first free slot
      fit in the 4096-slot tables. */
  const MaxDataSize: nat := 11

  /** Everything `Decode_LZW` keeps between two codes, except the bit reader
      and the pixel stack. */
  datatype Dict = Dict(
    dataSize: nat,       // data_size, the minimum code size
    prefix: seq<int>,    // prefix[c]: the code of the string c extends
    suffix: seq<byte>,   // suffix[c]: the last colour index of string c
    available: nat,      // next free slot
    codeSize: nat,       // current code width in bits
    codeMask: nat,       // code_mask
    oldCode: int,        // previous code, or NullCode
    first: byte)         // first colour index of the previous string

  function ClearCode(d: Dict): nat
  {
    Pow2(d.dataSize)
  }

  /** A code that stands for a string: a literal colour or a built entry. */
  predicate IsString(d: Dict, c: int)
  {
    (0 <= c < ClearCode(d)) || (ClearCode(d) + 2 <= c < d.available)
  }

  /** The tables have their 4096 slots, and every built entry extends a
      string with a smaller code, so following `prefix` always ends. */
  ghost predicate ChainsOk(d: Dict)
  {
    |d.prefix| == MaxStackSize && |d.suffix| == MaxStackSize &&
    d.dataSize <= MaxDataSize && ClearCode(d) + 2 <= d.available <= MaxStackSize &&
    forall c :: ClearCode(d) + 2 <= c < d.available ==>
      (0 <= d.prefix[c] < ClearCode(d)) || (ClearCode(d) + 2 <= d.prefix[c] < c)
  }

  /** The string of colour indices a code stands for: the reference meaning
      of the dictionary. */
  function Expand(d: Dict, c: int): (s: seq<byte>)
    requires ChainsOk(d) && IsString(d, c)
    ensures |s| >= 1
    decreases c
  {
    if c < ClearCode(d) then [d.suffix[c]]
    else Expand(d, d.prefix[c]) + [d.suffix[c]]
  }

  /** Whole-state invariant kept between codes. */
  ghost predicate DictValid(d: Dict)
  {
    ChainsOk(d) &&
    (forall c :: 0 <= c < ClearCode(d) ==> d.suffix[c] == c % 256) &&
    d.codeSize >= 1 &&
    (d.oldCode == NullCode ==> d.available == ClearCode(d) + 2) &&
    (d.oldCode != NullCode ==> IsString(d, d.oldCode)) &&
    (d.oldCode != NullCode && d.available < MaxStackSize ==> d.first == Expand(d, d.oldCode)[0])
  }

  /** The code width agrees with the mask, stays within 12 bits, and the next
      free slot lies below the current code space (or the table is full). */
  ghost predicate MaskValid(d: Dict)
  {
    2 <= d.dataSize &&
    d.dataSize + 1 <= d.codeSize <= 12 &&
    d.codeMask == Pow2(d.codeSize) - 1 &&
    (d.available < Pow2(d.codeSize) || d.available == MaxStackSize)
  }

  /** The initial state (mod-gif.c:103-114): `prefix` and `suffix` come fresh
      from the allocator with unspecified contents, which the loop at
      111-114 overwrites for the literal codes. */
  function InitDict(dataSize: nat, prefix0: seq<int>, suffix0: seq<byte>): (d: Dict)
    requires dataSize <= MaxDataSize
    requires |prefix0| == MaxStackSize && |suffix0| == MaxStackSize
    ensures DictValid(d)
    ensures ClearCode(d) == Pow2(dataSize) && d.available == ClearCode(d) + 2
    ensures d.codeSize == dataSize + 1 && d.codeMask == Pow2(d.codeSize) - 1
    ensures d.oldCode == NullCode
    ensures forall c :: 0 <= c < ClearCode(d) ==> d.prefix[c] == 0 && d.suffix[c] == c % 256
    ensures forall c :: ClearCode(d) <= c < MaxStackSize ==> d.prefix[c] == prefix0[c] && d.suffix[c] == suffix0[c]
  {
    Pow2Monotone(dataSize, MaxDataSize);
    var clear := Pow2(dataSize);
    Dict(dataSize,
         seq(MaxStackSize, c requires 0 <= c < MaxStackSize => if c < clear then 0 else prefix0[c]),
         seq(MaxStackSize, c requires 0 <= c < MaxStackSize => if c < clear then c % 256 else suffix0[c]),
         clear + 2, dataSize + 1, Pow2(dataSize + 1) - 1, NullCode, 0)
  }

  /** The state after a clear code (mod-gif.c:152-158): only the code width,
      the mask, the next free slot and the previous code are reset. */
  function Cleared(d: Dict): (e: Dict)
    ensures e.dataSize == d.dataSize && e.prefix == d.prefix && e.suffix == d.suffix && e.first == d.first
    ensures e.available == ClearCode(e) + 2 && e.oldCode == NullCode
    ensures e.codeSize == d.dataSize + 1 && e.codeMask == Pow2(e.codeSize) - 1
    ensures DictValid(d) ==> DictValid(e)
  {
    d.(codeSize := d.dataSize + 1, codeMask := Pow2(d.dataSize + 1) - 1,
       available := ClearCode(d) + 2, oldCode := NullCode)
  }

  /** Result of following `prefix` from a code: the `suffix` bytes pushed by
      the loop at mod-gif.c:171-174, and the code it stops at. */
  datatype Chain = Chain(pushed: seq<byte>, root: nat)

  /** The chain walk of mod-gif.c:171-174: while the code lies above the
      clear code, push its suffix byte and move on to its prefix. */
  function Walk(d: Dict, c: int): (w: Chain)
    requires ChainsOk(d) && IsString(d, c)
    ensures w.root < ClearCode(d)
    ensures |w.pushed| <= (if c < ClearCode(d) then 0 else c - ClearCode(d) - 1)
    decreases c
  {
    if c > ClearCode(d) then
      var rest := Walk(d, d.prefix[c]);
      Chain([d.suffix[c]] + rest.pushed, rest.root)
    else Chain([], c)
  }

  /** Adding the string `oldCode` + `first` in the next free slot
      (mod-gif.c:180-187), growing the code width when the new slot count
      fills the current code space. */
  function AddEntry(d: Dict, first: byte, inCode: int): (e: Dict)
    requires d.available < MaxStackSize && |d.prefix| == MaxStackSize && |d.suffix| == MaxStackSize
    ensures |e.prefix| == MaxStackSize && |e.suffix| == MaxStackSize
    ensures e.prefix[d.available] == d.oldCode && e.suffix[d.available] == first
    ensures e.dataSize == d.dataSize && e.available == d.available + 1
    ensures e.oldCode == inCode && e.first == first
    ensures e.codeSize == d.codeSize || (e.codeSize == d.codeSize + 1 && e.available < MaxStackSize)
  {
    var avail := d.available + 1;
    var grow := BitAnd(avail, d.codeMask) == 0 && avail < MaxStackSize;
    d.(prefix := d.prefix[d.available := d.oldCode],
       suffix := d.suffix[d.available := first],
       available := avail,
       codeSize := if grow then d.codeSize + 1 else d.codeSize,
       codeMask := if grow then d.codeMask + avail else d.codeMask,
       oldCode := inCode,
       first := first)
  }

  /** What one code does. */
  datatype Step =
    | Stop                                 // bad code or end code: the row ends, nothing else changes
    | Reset(next: Dict)                    // clear code
    | Emit(next: Dict, pushed: seq<byte>)  // a string pushed on the pixel stack (bottom first)
    | Full(next: Dict, pushed: seq<byte>)  // table full: part of a string pushed, the row ends

  function After(d: Dict, s: Step): Dict
  {
    match s
    case Stop => d
    case Reset(next) => next
    case Emit(next, _) => next
    case Full(next, _) => next
  }

  /** Colour indices a step adds to the output, in output order (the stack
      pops them in reverse). */
  function Decoded(s: Step): seq<byte>
  {
    match s
    case Stop => []
    case Reset(_) => []
    case Emit(_, pushed) => Reverse(pushed)
    case Full(_, pushed) => Reverse(pushed)
  }

  function Reverse(s: seq<byte>): (r: seq<byte>)
    ensures |r| == |s|
  {
    if s == [] then [] else Reverse(s[1..]) + [s[0]]
  }

  /** One code read with the stack empty (mod-gif.c:149-187).  A first code
      equal to `available` stops the row instead of reading the slot that has
      not been filled (see `FirstCodeAsWritten` for the source's behaviour). */
  function DecodeCode(d: Dict, code: nat): (r: Step)
    requires DictValid(d)
    ensures r.Stop? || r.Full? ==> After(d, r).prefix == d.prefix && After(d, r).suffix == d.suffix
    ensures r.Stop? || r.Full? ==> After(d, r).available == d.available && After(d, r).oldCode == d.oldCode
  {
    var clear := ClearCode(d);
    if code > d.available || code == clear + 1 then Stop
    else if code == clear then Reset(Cleared(d))
    else if d.oldCode == NullCode then
      if code == d.available then Stop
      else Emit(d.(oldCode := code, first := code % 256), [d.suffix[code]])
    else
      var c := if code == d.available then d.oldCode else code;
      var lead: seq<byte> := if code == d.available then [d.first] else [];
      var w := Walk(d, c);
      var first := d.suffix[w.root];
      if d.available >= MaxStackSize then Full(d.(first := first), lead + w.pushed)
      else Emit(AddEntry(d, first, code), lead + w.pushed + [first])
  }

  /** The string a code read in state d denotes: its own expansion, or for a
      code equal to `available` (the entry being defined) the previous
      string followed by that string's first index. */
  function CodeString(d: Dict, code: nat): seq<byte>
    requires DictValid(d) && code <= d.available && d.oldCode != NullCode
    requires code != ClearCode(d) && code != ClearCode(d) + 1
  {
    if code < d.available then Expand(d, code)
    else Expand(d, d.oldCode) + [Expand(d, d.oldCode)[0]]
  }

  /** Decoding a sequence of codes from a state: the final state and every
      colour index produced, in order. */
  function Run(d0: Dict, codes: seq<nat>): (r: (Dict, seq<byte>))
    requires DictValid(d0)
    ensures DictValid(r.0)
    decreases |codes|
  {
    if codes == [] then (d0, [])
    else
      var prev := Run(d0, codes[..|codes| - 1]);
      var code := codes[|codes| - 1];
      DecodeCodeKeepsValid(prev.0, code);
      var s := DecodeCode(prev.0, code);
      (After(prev.0, s), prev.1 + Decoded(s))
  }

  // ---------------------------------------------------------------------------
  // Sequences

  lemma ReverseAppend(a: seq<byte>, b: seq<byte>)
    ensures Reverse(a + b) == Reverse(b) + Reverse(a)
    decreases |a|
  {
    if a == [] {
      assert a + b == b;
    } else {
      assert (a + b)[1..] == a[1..] + b;
      ReverseAppend(a[1..], b);
    }
  }

  // ---------------------------------------------------------------------------
  // The chain walk pushes the expansion backwards

  /** Following `prefix` from c pushes the expansion of c, last index first;
      the index at the root is the first of the expansion. */
  lemma {:induction false} WalkReversesExpand(d: Dict, c: int)
    requires ChainsOk(d) && IsString(d, c)
    ensures Walk(d, c).pushed + [d.suffix[Walk(d, c).root]] == Reverse(Expand(d, c))
    ensures d.suffix[Walk(d, c).root] == Expand(d, c)[0]
    decreases c
  {
    if c > ClearCode(d) {
      var p := d.prefix[c];
      WalkReversesExpand(d, p);
      ReverseAppend(Expand(d, p), [d.suffix[c]]);
      assert Reverse([d.suffix[c]]) == [d.suffix[c]];
    }
  }

  /** Writing the slot `available` leaves every string below it unchanged. */
  lemma {:induction false} ExpandStable(d: Dict, e: Dict, c: int)
    requires ChainsOk(d) && ChainsOk(e) && IsString(d, c)
    requires d.dataSize == e.dataSize && d.available <= e.available
    requires forall i :: 0 <= i < d.available ==> e.prefix[i] == d.prefix[i] && e.suffix[i] == d.suffix[i]
    ensures IsString(e, c) && Expand(e, c) == Expand(d, c)
    decreases c
  {
    if c >= ClearCode(d) {
      ExpandStable(d, e, d.prefix[c]);
    }
  }

  // ---------------------------------------------------------------------------
  // The invariant is kept

  lemma AddEntryKeepsChains(d: Dict, first: byte, code: nat)
    requires DictValid(d) && d.oldCode != NullCode && d.available < MaxStackSize
    requires code <= d.available && code != ClearCode(d) && code != ClearCode(d) + 1
    ensures ChainsOk(AddEntry(d, first, code))
    ensures forall i :: 0 <= i < d.available ==>
      AddEntry(d, first, code).prefix[i] == d.prefix[i] && AddEntry(d, first, code).suffix[i] == d.suffix[i]
  {
  }

  /** Every step leads from a valid state to a valid state: the tables keep
      their 4096 slots, `available` never exceeds 4096, chains still end. */
  lemma DecodeCodeKeepsValid(d: Dict, code: nat)
    requires DictValid(d)
    ensures DictValid(After(d, DecodeCode(d, code)))
  {
    var clear := ClearCode(d);
    var r := DecodeCode(d, code);
    if r.Emit? && d.oldCode != NullCode {
      var c := if code == d.available then d.oldCode else code;
      var w := Walk(d, c);
      var first := d.suffix[w.root];
      var e := AddEntry(d, first, code);
      AddEntryKeepsChains(d, first, code);
      WalkReversesExpand(d, c);
      if code < d.available {
        ExpandStable(d, e, code);
      } else {
        ExpandStable(d, e, d.oldCode);
        assert Expand(e, code) == Expand(e, d.oldCode) + [first];
      }
    }
  }

  // ---------------------------------------------------------------------------
  // What a step means

  /** A code read after the first one outputs its string; the entry it
      creates is the previous string extended by that string's first index;
      every older string keeps its meaning.  This is the LZW invariant. */
  lemma DecodeCodeMeaning(d: Dict, code: nat)
    requires DictValid(d) && d.oldCode != NullCode
    requires DecodeCode(d, code).Emit?
    ensures code <= d.available && code != ClearCode(d) && code != ClearCode(d) + 1
    ensures Decoded(DecodeCode(d, code)) == CodeString(d, code)
    ensures var e := After(d, DecodeCode(d, code));
      e.available == d.available + 1 && IsString(e, d.available) &&
      Expand(e, d.available) == Expand(d, d.oldCode) + [CodeString(d, code)[0]]
    ensures var e := After(d, DecodeCode(d, code));
      forall c :: IsString(d, c) ==> IsString(e, c) && Expand(e, c) == Expand(d, c)
  {
    EmitOutput(d, code);
    EmitEntry(d, code);
  }

  /** The output half of `DecodeCodeMeaning`: the pushed indices are the
      code's string reversed. */
  lemma {:induction false} EmitOutput(d: Dict, code: nat)
    requires DictValid(d) && d.oldCode != NullCode
    requires DecodeCode(d, code).Emit?
    ensures code <= d.available && code != ClearCode(d) && code != ClearCode(d) + 1
    ensures Decoded(DecodeCode(d, code)) == CodeString(d, code)
  {
    var c := if code == d.available then d.oldCode else code;
    var w := Walk(d, c);
    var first := d.suffix[w.root];
    WalkReversesExpand(d, c);
    var s := CodeString(d, code);
    if code < d.available {
      assert DecodeCode(d, code).pushed == w.pushed + [first] == Reverse(s);
    } else {
      var o := Expand(d, d.oldCode);
      ReverseAppend(o, [o[0]]);
      assert DecodeCode(d, code).pushed == [d.first] + w.pushed + [first] == Reverse(s);
    }
    ReverseIsInvolution(Reverse(s));
    ReverseIsInvolution(s);
  }

  /** The dictionary half of `DecodeCodeMeaning`: the new entry is the
      previous string extended by the first index of the code's string, and
      older strings keep their meaning. */
  lemma {:induction false} EmitEntry(d: Dict, code: nat)
    requires DictValid(d) && d.oldCode != NullCode
    requires DecodeCode(d, code).Emit?
    ensures code <= d.available && code != ClearCode(d) && code != ClearCode(d) + 1
    ensures var e := After(d, DecodeCode(d, code));
      e.available == d.available + 1 && IsString(e, d.available) &&
      Expand(e, d.available) == Expand(d, d.oldCode) + [CodeString(d, code)[0]]
    ensures var e := After(d, DecodeCode(d, code));
      forall c :: IsString(d, c) ==> IsString(e, c) && Expand(e, c) == Expand(d, c)
  {
    var c := if code == d.available then d.oldCode else code;
    var w := Walk(d, c);
    var first := d.suffix[w.root];
    var e := AddEntry(d, first, code);
    AddEntryKeepsChains(d, first, code);
    WalkReversesExpand(d, c);
    ExpandStable(d, e, d.oldCode);
    assert Expand(e, d.available) == Expand(e, d.oldCode) + [first];
    forall c' | IsString(d, c')
      ensures IsString(e, c') && Expand(e, c') == Expand(d, c')
    {
      ExpandStable(d, e, c');
    }
  }

  lemma {:induction false} ReverseIsInvolution(s: seq<byte>)
    ensures Reverse(Reverse(s)) == s
    decreases |s|
  {
    if s != [] {
      ReverseIsInvolution(s[1..]);
      ReverseAppend(Reverse(s[1..]), [s[0]]);
      assert Reverse([s[0]]) == [s[0]];
      assert [s[0]] + s[1..] == s;
    }
  }

  /** The first code after the start or a clear is a literal and outputs its
      own colour index; no entry is added. */
  lemma FirstCodeOutputsLiteral(d: Dict, code: nat)
    requires DictValid(d) && d.oldCode == NullCode
    requires DecodeCode(d, code).Emit?
    ensures code < ClearCode(d)
    ensures Decoded(DecodeCode(d, code)) == Expand(d, code) == [code % 256]
    ensures After(d, DecodeCode(d, code)).available == d.available
  {
  }

  /** A string pushed by one code never exceeds the 4096-slot pixel stack. */
  lemma PushedFitsStack(d: Dict, code: nat)
    requires DictValid(d)
    ensures var r := DecodeCode(d, code);
      (r.Emit? ==> 1 <= |r.pushed|) &&
      ((r.Emit? || r.Full?) ==> |r.pushed| <= d.available - ClearCode(d) < MaxStackSize)
  {
    var r := DecodeCode(d, code);
    if (r.Emit? || r.Full?) && d.oldCode != NullCode {
      var c := if code == d.available then d.oldCode else code;
      var w := Walk(d, c);
      if code == d.available && r.Full? {
        assert |r.pushed| == 1 + |w.pushed|;
      }
    }
  }

  /** The clear code puts code width, mask, next free slot and previous code
      back where initialisation put them. */
  lemma ClearRestoresInitial(d: Dict, prefix0: seq<int>, suffix0: seq<byte>)
    requires DictValid(d)
    requires |prefix0| == MaxStackSize && |suffix0| == MaxStackSize
    ensures DecodeCode(d, ClearCode(d)).Reset?
    ensures var e := After(d, DecodeCode(d, ClearCode(d)));
      var i := InitDict(d.dataSize, prefix0, suffix0);
      e.codeSize == i.codeSize && e.codeMask == i.codeMask &&
      e.available == i.available && e.oldCode == i.oldCode == NullCode &&
      e.prefix == d.prefix && e.suffix == d.suffix
  {
  }

  // ---------------------------------------------------------------------------
  // Code width

  lemma InitMaskValid(dataSize: nat, prefix0: seq<int>, suffix0: seq<byte>)
    requires 2 <= dataSize <= MaxDataSize
    requires |prefix0| == MaxStackSize && |suffix0| == MaxStackSize
    ensures MaskValid(InitDict(dataSize, prefix0, suffix0))
  {
    Pow2Monotone(dataSize, MaxDataSize);
    Pow2Monotone(2, dataSize);
  }

  /** For a minimum code size of at least 2 the code width grows by exactly
      one bit precisely when the next free slot reaches `2^codeSize` below
      4096, so `codeMask == 2^codeSize - 1` and `codeSize <= 12` always hold. */
  lemma CodeWidthGrowth(d: Dict, code: nat)
    requires DictValid(d) && MaskValid(d)
    ensures MaskValid(After(d, DecodeCode(d, code)))
    ensures var e := After(d, DecodeCode(d, code));
      DecodeCode(d, code).Emit? && d.oldCode != NullCode ==>
        (e.codeSize == d.codeSize + 1 <==> e.available == Pow2(d.codeSize) < MaxStackSize) &&
        (e.codeSize == d.codeSize || e.codeSize == d.codeSize + 1)
  {
    var r := DecodeCode(d, code);
    if r.Reset? {
      Pow2Monotone(2, d.dataSize);
    } else if r.Emit? && d.oldCode != NullCode {
      var c := if code == d.available then d.oldCode else code;
      AddEntryGrowth(d, d.suffix[Walk(d, c).root], code);
    }
  }

  /** The mask keeps matching the code width whatever codes are read. */
  lemma {:induction false} RunMaskValid(d0: Dict, codes: seq<nat>)
    requires DictValid(d0) && MaskValid(d0)
    ensures MaskValid(Run(d0, codes).0)
    decreases |codes|
  {
    if codes != [] {
      var before := codes[..|codes| - 1];
      RunMaskValid(d0, before);
      CodeWidthGrowth(Run(d0, before).0, codes[|codes| - 1]);
    }
  }

  lemma AddEntryGrowth(d: Dict, first: byte, code: nat)
    requires MaskValid(d) && d.available < MaxStackSize
    requires |d.prefix| == MaxStackSize && |d.suffix| == MaxStackSize
    ensures var e := AddEntry(d, first, code);
      MaskValid(e) &&
      (e.codeSize == d.codeSize + 1 <==> e.available == Pow2(d.codeSize) < MaxStackSize) &&
      (e.codeSize == d.codeSize || e.codeSize == d.codeSize + 1)
  {
    var avail := d.available + 1;
    var m := Pow2(d.codeSize);
    var e := AddEntry(d, first, code);
    BitAndLowMask(avail, d.codeSize);
    assert Pow2(d.codeSize + 1) == 2 * m;
    if avail % m == 0 {
      MultipleWithin(avail, m);
      if avail < MaxStackSize {
        assert e.codeSize == d.codeSize + 1 && e.codeMask == 2 * m - 1;
      } else {
        assert e.codeSize == d.codeSize;
      }
    } else {
      if avail == m {
        DivModUnique(m, m, 1, 0);
      }
      assert avail < m || avail == MaxStackSize;
      assert e.codeSize == d.codeSize;
    }
  }

  /** The only positive multiple of m up to m is m itself. */
  lemma MultipleWithin(a: nat, m: nat)
    requires 0 < a <= m && a % m == 0
    ensures a == m
  {
    if a < m {
      DivModUnique(a, m, 0, a);
    }
  }

  // ---------------------------------------------------------------------------
  // Slots no code reaches

  /** Two states that agree on everything a code can reach: the scalars and
      the slots of the literal codes and of the built entries.  The clear
      and end slots and those from `available` up may differ. */
  ghost predicate SameStrings(d: Dict, e: Dict)
  {
    DictValid(d) && DictValid(e) &&
    d.dataSize == e.dataSize && d.available == e.available && d.codeSize == e.codeSize &&
    d.codeMask == e.codeMask && d.oldCode == e.oldCode && d.first == e.first &&
    forall c :: IsString(d, c) ==> d.prefix[c] == e.prefix[c] && d.suffix[c] == e.suffix[c]
  }

  /** Whatever the allocator left in the tables, the initial states agree. */
  lemma InitDictSameStrings(dataSize: nat, p: seq<int>, s: seq<byte>, p': seq<int>, s': seq<byte>)
    requires dataSize <= MaxDataSize
    requires |p| == |s| == |p'| == |s'| == MaxStackSize
    ensures SameStrings(InitDict(dataSize, p, s), InitDict(dataSize, p', s'))
  {
  }

  /** The chain walk only follows slots of built entries. */
  lemma {:induction false} WalkSameStrings(d: Dict, e: Dict, c: int)
    requires SameStrings(d, e) && IsString(d, c)
    ensures IsString(e, c) && Walk(d, c) == Walk(e, c)
    decreases c
  {
    if c > ClearCode(d) {
      WalkSameStrings(d, e, d.prefix[c]);
    }
  }

  /** A code does the same in two states that agree on the reachable
      slots, and leaves them agreeing. */
  lemma DecodeCodeSameStrings(d: Dict, e: Dict, code: nat)
    requires SameStrings(d, e)
    ensures var a, b := DecodeCode(d, code), DecodeCode(e, code);
      a.Stop? == b.Stop? && a.Reset? == b.Reset? && a.Emit? == b.Emit? && a.Full? == b.Full? &&
      ((a.Emit? || a.Full?) ==> a.pushed == b.pushed) &&
      SameStrings(After(d, a), After(e, b))
  {
    DecodeCodeKeepsValid(d, code);
    DecodeCodeKeepsValid(e, code);
    var clear := ClearCode(d);
    if code > d.available || code == clear + 1 || code == clear {
    } else if d.oldCode == NullCode {
    } else {
      var c := if code == d.available then d.oldCode else code;
      WalkSameStrings(d, e, c);
      var root := Walk(d, c).root;
      assert d.suffix[root] == e.suffix[root];
      if d.available < MaxStackSize {
        AddEntrySameStrings(d, e, d.suffix[root], code);
      }
    }
  }

  lemma AddEntrySameStrings(d: Dict, e: Dict, first: byte, code: nat)
    requires SameStrings(d, e) && d.available < MaxStackSize
    requires DictValid(AddEntry(d, first, code)) && DictValid(AddEntry(e, first, code))
    ensures SameStrings(AddEntry(d, first, code), AddEntry(e, first, code))
  {
    var a, b := AddEntry(d, first, code), AddEntry(e, first, code);
    forall c | IsString(a, c)
      ensures a.prefix[c] == b.prefix[c] && a.suffix[c] == b.suffix[c]
    {
      if c != d.available {
        assert IsString(d, c);
      }
    }
  }

  // ---------------------------------------------------------------------------
  // Code sizes beyond the tables

  /** Slots of `prefix` and `suffix` that the initialisation loop at
      mod-gif.c:111-114 writes for a given minimum code size, as written:
      one per literal code, whatever the size. */
  function InitSlotsAsWritten(dataSize: nat): nat
  {
    Pow2(dataSize)
  }

  /** A minimum code size byte of 13 (any byte is accepted) makes the loop
      write 8192 slots of the 4096-slot tables; a size of 12 leaves the first
      free slot at 4098, outside them.  Sizes up to 11 fit. */
  lemma InitOverrunsTables()
    ensures InitSlotsAsWritten(13) > MaxStackSize
    ensures Pow2(12) + 2 > MaxStackSize
    ensures forall ds :: 0 <= ds <= MaxDataSize ==> Pow2(ds) + 2 <= MaxStackSize
  {
    forall ds | 0 <= ds <= MaxDataSize
      ensures Pow2(ds) + 2 <= MaxStackSize
    {
      Pow2Monotone(ds, MaxDataSize);
    }
  }

  // ---------------------------------------------------------------------------
  // The first code, as written

  /** The first-code branch exactly as mod-gif.c:160-164 writes it: it
      accepts a code equal to `available` and stacks `suffix[available]`, a
      slot the current table has not filled. */
  function FirstCodeAsWritten(d: Dict, code: nat): Step
    requires |d.suffix| == MaxStackSize && code < MaxStackSize
  {
    Emit(d.(oldCode := code, first := code % 256), [d.suffix[code]])
  }

  /** Iterations of the chain loop at mod-gif.c:171-174 that run within
      `fuel` steps, on tables that need not be well formed. */
  function WalkStepsAsWritten(prefix: seq<int>, clear: nat, c: int, fuel: nat): nat
    requires |prefix| == MaxStackSize
    decreases fuel
  {
    if fuel == 0 || c <= clear || c >= MaxStackSize then 0
    else 1 + WalkStepsAsWritten(prefix, clear, prefix[c], fuel - 1)
  }

  /** Where the chain loop of mod-gif.c:171-174 stops on raw tables, run for
      at most `fuel` iterations: the first code at or below `clear` (or
      outside the tables), or the code it is still at when the fuel runs out. */
  function ChainEndAsWritten(prefix: seq<int>, clear: nat, c: int, fuel: nat): int
    requires |prefix| == MaxStackSize
    decreases fuel
  {
    if fuel == 0 || c <= clear || c >= MaxStackSize then c
    else ChainEndAsWritten(prefix, clear, prefix[c], fuel - 1)
  }

  /** The table update for a code after the first, exactly as
      mod-gif.c:166-187 writes it on raw tables: a code equal to `available`
      walks from `oldCode`, the walk follows `prefix` with no check that the
      chain is well formed, the slot it ends on gives `first`, and slot
      `available` receives `oldCode` + `first`.  None when the walk does not
      end within the table size or the table is full. */
  function LaterCodeAsWritten(d: Dict, code: nat): Option<Dict>
    requires |d.prefix| == MaxStackSize && |d.suffix| == MaxStackSize
  {
    var c := if code == d.available then d.oldCode else code;
    var end := ChainEndAsWritten(d.prefix, ClearCode(d), c, MaxStackSize);
    if end < 0 || end > ClearCode(d) || end >= MaxStackSize || d.available >= MaxStackSize then None
    else Some(AddEntry(d, d.suffix[end], code))
  }

  /** Counterexample for the source's first-code branch.  With minimum code
      size 2 (clear = 4, available = 6) and zeroed tables, the first code 6
      is accepted; the second code 6, handled as written, stores
      `prefix[6] = 6`; a third code 6 then loops forever in the chain walk,
      pushing far past the 4096-slot stack.  The tables are allocated
      afresh on every call with unspecified contents; zero stands for
      them here, and any allocation with `prefix[6] <= 4` behaves the
      same, since the second code then stores `prefix[6] = 6` whatever
      the slot held. */
  lemma {:induction false} FirstCodeSelfLoop(prefix0: seq<int>, suffix0: seq<byte>)
    requires |prefix0| == MaxStackSize && |suffix0| == MaxStackSize
    requires forall i :: 0 <= i < MaxStackSize ==> prefix0[i] == 0 && suffix0[i] == 0
    ensures var d0 := InitDict(2, prefix0, suffix0);
      var d1 := After(d0, FirstCodeAsWritten(d0, 6));
      d1.oldCode == d1.available == 6 &&
      var second := LaterCodeAsWritten(d1, 6);
      second.Some? && second.value.prefix[6] == 6 &&
      WalkStepsAsWritten(second.value.prefix, 4, 6, MaxStackSize + 1) == MaxStackSize + 1
  {
    var d0 := InitDict(2, prefix0, suffix0);
    var d1 := After(d0, FirstCodeAsWritten(d0, 6));
    assert d1.prefix[6] == 0;
    assert ChainEndAsWritten(d1.prefix, 4, 6, MaxStackSize) == 0;
    var d2 := LaterCodeAsWritten(d1, 6).value;
    assert d2.prefix[6] == 6;
    SelfLoopNeverEnds(d2.prefix, 4, 6, MaxStackSize + 1);
  }

  lemma {:induction false} SelfLoopNeverEnds(prefix: seq<int>, clear: nat, c: int, fuel: nat)
    requires |prefix| == MaxStackSize && clear < c < MaxStackSize && prefix[c] == c
    ensures WalkStepsAsWritten(prefix, clear, c, fuel) == fuel
  {
    if fuel > 0 {
      SelfLoopNeverEnds(prefix, clear, c, fuel - 1);
    }
  }
}
