/** The interlaced row order of GIF89a Appendix E, as `Decode_LZW` walks it
    with its `interlace_start = {0,4,2,1}` and `interlace_rate = {8,8,4,2}`
    tables: four passes, each visiting every `rate`-th row from `start`. */
module GifInterlace {
  import opened GifBytes

  const Passes: nat := 4

  /** `interlace_start[pass]` */
  function Start(pass: nat): nat
    requires pass < Passes
  {
    if pass == 0 then 0 else if pass == 1 then 4 else if pass == 2 then 2 else 1
  }

  /** `interlace_rate[pass]` */
  function Rate(pass: nat): nat
    requires pass < Passes
  {
    if pass == 0 then 8 else if pass == 1 then 8 else if pass == 2 then 4 else 2
  }

  /** The k-th row that a pass visits. */
  function Row(pass: nat, k: nat): nat
    requires pass < Passes
  {
    if pass == 0 then 8 * k else if pass == 1 then 4 + 8 * k
    else if pass == 2 then 2 + 4 * k else 1 + 2 * k
  }

  /** How many rows of an image of height h a pass visits. */
  function Count(pass: nat, h: nat): nat
    requires pass < Passes
  {
    if h <= Start(pass) then 0
    else if pass == 0 then (h - 1) / 8 + 1
    else if pass == 1 then (h - 5) / 8 + 1
    else if pass == 2 then (h - 3) / 4 + 1
    else (h - 2) / 2 + 1
  }

  /** Rows visited before pass p begins. */
  function Offset(pass: nat, h: nat): nat
    requires pass <= Passes
  {
    if pass == 0 then 0 else Offset(pass - 1, h) + Count(pass - 1, h)
  }

  function PassRows(pass: nat, h: nat): seq<nat>
    requires pass < Passes
  {
    seq(Count(pass, h), k requires 0 <= k => Row(pass, k))
  }

  /** Reference order: the four passes one after the other. */
  function Schedule(h: nat): seq<nat>
  {
    PassRows(0, h) + PassRows(1, h) + PassRows(2, h) + PassRows(3, h)
  }

  /** The decoder's position: the current output row and pass (`row`, `i`). */
  datatype Cursor = Cursor(row: nat, pass: nat)

  /** The first non-empty pass from `pass` on; past the last pass the cursor
      rests at `Cursor(h, Passes)`. */
  function FirstRowFrom(pass: nat, h: nat): (c: Cursor)
    requires pass <= Passes
    ensures pass <= c.pass <= Passes
    ensures c.pass < Passes ==> c.row == Start(c.pass) < h
    ensures forall p :: pass <= p < c.pass ==> h <= Start(p)
    decreases Passes - pass
  {
    if pass == Passes then Cursor(h, Passes)
    else if Start(pass) < h then Cursor(Start(pass), pass)
    else FirstRowFrom(pass + 1, h)
  }

  /** Advance to the next row after finishing one (mod-gif.c:197-203), with
      the pass switch repeated until the new row lies inside the image. */
  function NextRow(c: Cursor, h: nat): (r: Cursor)
    requires c.pass < Passes
    ensures c.pass <= r.pass <= Passes
    ensures r.pass < Passes ==> r.row < h
    ensures r.pass == c.pass ==> r.row == c.row + Rate(c.pass)
    ensures c.pass < r.pass < Passes ==> r.row == Start(r.pass)
    ensures forall p :: c.pass < p < r.pass ==> h <= Start(p)
  {
    var row := c.row + Rate(c.pass);
    if row < h then Cursor(row, c.pass) else FirstRowFrom(c.pass + 1, h)
  }

  /** The cursor after y rows have been finished. */
  function CursorAfter(h: nat, y: nat): Cursor
  {
    if y == 0 then Cursor(0, 0)
    else
      var c := CursorAfter(h, y - 1);
      if c.pass < Passes then NextRow(c, h) else c
  }

  /** The pass switch exactly as lines 198-201 write it: a single switch, with
      the new start row not compared against h; after the last pass the C code
      reads `interlace_start[4]`, past its table, shown here as `None`. */
  function NextRowAsWritten(c: Cursor, h: nat): (r: Option<Cursor>)
    requires c.pass < Passes
    ensures r.None? <==> h <= c.row + Rate(c.pass) && c.pass == Passes - 1
    ensures r.Some? && r.value.pass == c.pass ==> r.value.row == c.row + Rate(c.pass) < h
    ensures r.Some? && r.value.pass != c.pass ==> c.pass + 1 < Passes && r.value == Cursor(Start(c.pass + 1), c.pass + 1)
  {
    var row := c.row + Rate(c.pass);
    if row < h then Some(Cursor(row, c.pass))
    else if c.pass + 1 < Passes then Some(Cursor(Start(c.pass + 1), c.pass + 1))
    else None
  }

  // ---------------------------------------------------------------------------
  // Facts about passes

  lemma CountBound(pass: nat, h: nat, k: nat)
    requires pass < Passes
    ensures k < Count(pass, h) <==> Row(pass, k) < h
  {
  }

  /** The pass sizes for h = 8q + s. */
  lemma CountValues(h: nat)
    ensures var q, s := h / 8, h % 8;
      Count(0, h) == q + (if s > 0 then 1 else 0) &&
      Count(1, h) == q + (if s > 4 then 1 else 0) &&
      Count(2, h) == 2 * q + (if s > 2 then 1 else 0) + (if s > 6 then 1 else 0) &&
      Count(3, h) == 4 * q + s / 2
  {
    var q, s := h / 8, h % 8;
    if h > 0 {
      if s > 0 {
        DivModUnique(h - 1, 8, q, s - 1);
      } else {
        DivModUnique(h - 1, 8, q - 1, 7);
      }
    }
    if h > 4 {
      if s > 4 {
        DivModUnique(h - 5, 8, q, s - 5);
      } else {
        DivModUnique(h - 5, 8, q - 1, s + 3);
      }
    }
    if h > 2 {
      if s > 6 {
        DivModUnique(h - 3, 4, 2 * q + 1, s - 7);
      } else if s > 2 {
        DivModUnique(h - 3, 4, 2 * q, s - 3);
      } else {
        DivModUnique(h - 3, 4, 2 * q - 1, s + 1);
      }
    }
    if h > 1 {
      if s > 0 {
        if s > 1 {
          DivModUnique(h - 2, 2, 4 * q + (s - 2) / 2, s % 2);
        } else {
          DivModUnique(h - 2, 2, 4 * q - 1, 1);
        }
      } else {
        DivModUnique(h - 2, 2, 4 * q - 1, 0);
      }
    }
  }

  lemma ScheduleSize(h: nat)
    ensures |Schedule(h)| == Offset(Passes, h)
    ensures Offset(1, h) == Count(0, h)
    ensures Offset(2, h) == Offset(1, h) + Count(1, h)
    ensures Offset(3, h) == Offset(2, h) + Count(2, h)
    ensures Offset(Passes, h) == Offset(3, h) + Count(3, h)
  {
  }

  lemma ScheduleLength(h: nat)
    ensures |Schedule(h)| == h == Offset(Passes, h)
  {
    ScheduleSize(h);
    CountValues(h);
  }

  lemma PassRowsAt(pass: nat, h: nat, k: nat)
    requires pass < Passes && k < Count(pass, h)
    ensures |PassRows(pass, h)| == Count(pass, h) && PassRows(pass, h)[k] == Row(pass, k)
  {
  }

  lemma ScheduleAt(h: nat, pass: nat, k: nat)
    requires pass < Passes && k < Count(pass, h)
    ensures Offset(pass, h) + k < |Schedule(h)|
    ensures Schedule(h)[Offset(pass, h) + k] == Row(pass, k)
  {
    ScheduleSize(h);
    PassRowsAt(pass, h, k);
    assert |PassRows(0, h)| == Count(0, h) && |PassRows(1, h)| == Count(1, h);
    assert |PassRows(2, h)| == Count(2, h) && |PassRows(3, h)| == Count(3, h);
    var a, b, c, d := PassRows(0, h), PassRows(1, h), PassRows(2, h), PassRows(3, h);
    if pass == 0 {
      Concat4At(a, b, c, d, k);
    } else if pass == 1 {
      Concat4At(a, b, c, d, |a| + k);
    } else if pass == 2 {
      Concat4At(a, b, c, d, |a| + |b| + k);
    } else {
      Concat4At(a, b, c, d, |a| + |b| + |c| + k);
    }
  }

  lemma Concat4At(a: seq<nat>, b: seq<nat>, c: seq<nat>, d: seq<nat>, i: nat)
    requires i < |a| + |b| + |c| + |d|
    ensures |a + b + c + d| == |a| + |b| + |c| + |d|
    ensures (a + b + c + d)[i] ==
      if i < |a| then a[i]
      else if i < |a| + |b| then b[i - |a|]
      else if i < |a| + |b| + |c| then c[i - |a| - |b|]
      else d[i - |a| - |b| - |c|]
  {
  }

  /** Every index of the schedule belongs to exactly one pass position. */
  lemma ScheduleInverse(h: nat, i: nat) returns (pass: nat, k: nat)
    requires i < |Schedule(h)|
    ensures pass < Passes && k < Count(pass, h) && i == Offset(pass, h) + k
    ensures Schedule(h)[i] == Row(pass, k)
  {
    ScheduleSize(h);
    if i < Offset(1, h) {
      pass, k := 0, i;
    } else if i < Offset(2, h) {
      pass, k := 1, i - Offset(1, h);
    } else if i < Offset(3, h) {
      pass, k := 2, i - Offset(2, h);
    } else {
      pass, k := 3, i - Offset(3, h);
    }
    ScheduleAt(h, pass, k);
  }

  /** A row number determines its pass and its place in the pass. */
  lemma RowInjective(p1: nat, k1: nat, p2: nat, k2: nat)
    requires p1 < Passes && p2 < Passes
    requires Row(p1, k1) == Row(p2, k2)
    ensures p1 == p2 && k1 == k2
  {
  }

  lemma ScheduleEntryBelow(h: nat, i: nat)
    requires i < |Schedule(h)|
    ensures Schedule(h)[i] < h
  {
    var p, k := ScheduleInverse(h, i);
    CountBound(p, h, k);
  }

  lemma ScheduleEntriesDiffer(h: nat, i: nat, j: nat)
    requires i < j < |Schedule(h)|
    ensures Schedule(h)[i] != Schedule(h)[j]
  {
    var p1, k1 := ScheduleInverse(h, i);
    var p2, k2 := ScheduleInverse(h, j);
    if Schedule(h)[i] == Schedule(h)[j] {
      RowInjective(p1, k1, p2, k2);
    }
  }

  lemma ScheduleHasRow(h: nat, r: nat)
    requires r < h
    ensures r in Schedule(h)
  {
    var q, m := r / 8, r % 8;
    assert r == 8 * q + m;
    var p, k;
    if m == 0 {
      p, k := 0, q;
    } else if m == 4 {
      p, k := 1, q;
    } else if m == 2 || m == 6 {
      p, k := 2, 2 * q + m / 4;
    } else {
      p, k := 3, 4 * q + m / 2;
    }
    assert Row(p, k) == r;
    CountBound(p, h, k);
    ScheduleAt(h, p, k);
  }

  /** The interlace schedule is a permutation of the rows 0 .. h-1: it has h
      entries, each below h, no two equal, and every row occurs. */
  lemma ScheduleIsPermutation(h: nat)
    ensures |Schedule(h)| == h
    ensures forall i :: 0 <= i < h ==> Schedule(h)[i] < h
    ensures forall i, j :: 0 <= i < j < h ==> Schedule(h)[i] != Schedule(h)[j]
    ensures forall r :: 0 <= r < h ==> r in Schedule(h)
  {
    ScheduleLength(h);
    forall i | 0 <= i < h
      ensures Schedule(h)[i] < h
    {
      ScheduleEntryBelow(h, i);
    }
    forall i, j | 0 <= i < j < h
      ensures Schedule(h)[i] != Schedule(h)[j]
    {
      ScheduleEntriesDiffer(h, i, j);
    }
    forall r | 0 <= r < h
      ensures r in Schedule(h)
    {
      ScheduleHasRow(h, r);
    }
  }

  /** For an image of height 8 the rows come out as 0,4,2,6,1,3,5,7. */
  lemma EightRowOrder()
    ensures Schedule(8) == [0, 4, 2, 6, 1, 3, 5, 7]
  {
    assert PassRows(0, 8) == [0];
    assert PassRows(1, 8) == [4];
    assert PassRows(2, 8) == [2, 6];
    assert PassRows(3, 8) == [1, 3, 5, 7];
  }

  // ---------------------------------------------------------------------------
  // The step function follows the schedule

  lemma {:induction false} FirstRowFromShape(pass: nat, h: nat)
    requires pass <= Passes
    ensures var c := FirstRowFrom(pass, h);
      Offset(c.pass, h) == Offset(pass, h) &&
      (c.pass < Passes ==> c.row == Row(c.pass, 0) && 0 < Count(c.pass, h))
    decreases Passes - pass
  {
    if pass < Passes && h <= Start(pass) {
      FirstRowFromShape(pass + 1, h);
    }
  }

  /** After y finished rows of an image of height h > y, the cursor stands on
      the y-th entry of the schedule. */
  lemma {:induction false} CursorFollowsSchedule(h: nat, y: nat) returns (k: nat)
    requires y < h
    ensures var c := CursorAfter(h, y);
      c.pass < Passes && k < Count(c.pass, h) && c.row == Row(c.pass, k) &&
      y == Offset(c.pass, h) + k
  {
    if y == 0 {
      k := 0;
    } else {
      var k0 := CursorFollowsSchedule(h, y - 1);
      var c := CursorAfter(h, y - 1);
      assert CursorAfter(h, y) == NextRow(c, h);
      k := CursorStep(h, c, k0, y);
    }
  }

  /** One row more: the cursor moves to the next position of the schedule. */
  lemma CursorStep(h: nat, c: Cursor, k0: nat, y: nat) returns (k: nat)
    requires c.pass < Passes && k0 < Count(c.pass, h) && c.row == Row(c.pass, k0)
    requires y == Offset(c.pass, h) + k0 + 1 && y < h
    ensures var n := NextRow(c, h);
      n.pass < Passes && k < Count(n.pass, h) && n.row == Row(n.pass, k) && y == Offset(n.pass, h) + k
  {
    if c.row + Rate(c.pass) < h {
      SamePassStep(h, c.pass, k0);
      k := k0 + 1;
    } else {
      PassSwitchStep(h, c.pass, k0, y);
      k := 0;
    }
  }

  /** Staying in the pass moves to its next row. */
  lemma SamePassStep(h: nat, pass: nat, k: nat)
    requires pass < Passes && Row(pass, k) + Rate(pass) < h
    ensures k + 1 < Count(pass, h) && Row(pass, k + 1) == Row(pass, k) + Rate(pass)
  {
    CountBound(pass, h, k + 1);
  }

  /** Leaving a pass after its last row lands on the first row of the next
      non-empty pass, which is the next entry of the schedule. */
  lemma PassSwitchStep(h: nat, pass: nat, k: nat, y: nat)
    requires pass < Passes && k < Count(pass, h) && Row(pass, k) + Rate(pass) >= h
    requires y == Offset(pass, h) + k + 1 && y < h
    ensures var c := FirstRowFrom(pass + 1, h);
      c.pass < Passes && 0 < Count(c.pass, h) && c.row == Row(c.pass, 0) && y == Offset(c.pass, h)
  {
    CountBound(pass, h, k + 1);
    assert Offset(pass + 1, h) == y;
    FirstRowFromShape(pass + 1, h);
    ScheduleLength(h);
  }

  /** The row the decoder writes after y finished rows is `Schedule(h)[y]`. */
  lemma CursorRow(h: nat, y: nat)
    requires y < h
    ensures |Schedule(h)| == h
    ensures CursorAfter(h, y).pass < Passes
    ensures CursorAfter(h, y).row == Schedule(h)[y] < h
  {
    ScheduleLength(h);
    var k := CursorFollowsSchedule(h, y);
    var c := CursorAfter(h, y);
    ScheduleAt(h, c.pass, k);
    CountBound(c.pass, h, k);
  }

  // ---------------------------------------------------------------------------
  // The source's pass switch

  /** On images of height 5 or more the single, unchecked pass switch of the
      source agrees with the checked one for every switch before the last pass. */
  lemma AsWrittenAgreesOnTallImages(c: Cursor, h: nat)
    requires c.pass < Passes - 1 && h >= 5
    ensures NextRowAsWritten(c, h) == Some(NextRow(c, h))
  {
  }

  /** On an interlaced image of height 2, 3 or 4 the source moves from row 0
      straight to row 4, which lies outside the w*h*4 buffer. */
  lemma AsWrittenLeavesShortImage(h: nat)
    requires 2 <= h <= 4
    ensures NextRowAsWritten(Cursor(0, 0), h) == Some(Cursor(4, 1))
    ensures NextRow(Cursor(0, 0), h).row < h
  {
  }
}
