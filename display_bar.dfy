/** The bar builder `createDisplayBar`: a row of `length` coloured block cells
    written into a caller-supplied character buffer. */
module DisplayBar {
  import opened CMath
  import opened Process

  /** The colour escape a cell is drawn with: the three zone colours, and the
      dark colour of a cell that is not filled. */
  datatype Colour = Cyan | Yellow | Red | Off

  /** A byte that can stand inside a C string (anything but the terminating NUL). */
  type Byte = b: int | 1 <= b < 256 witness 1

  /** One piece of the NUL-terminated text held in the buffer: a byte that was
      there before the builder ran, or one cell the builder wrote. */
  datatype Glyph = Raw(b: Byte) | Block(colour: Colour)

  /** The bytes of one cell: a 7-byte colour escape such as ESC "[0;36m", the
      block U+2588 (3 bytes in UTF-8) and the 4-byte reset escape ESC "[0m". */
  const CellBytes: nat := 14

  /** The size of the bar buffer `main` passes in. */
  const BarBufferBytes: nat := 2048

  function GlyphSize(g: Glyph): nat {
    match g
    case Raw(_) => 1
    case Block(_) => CellBytes
  }

  /** The number of bytes a text occupies, not counting its terminating NUL. */
  function Size(s: seq<Glyph>): nat {
    if s == [] then 0 else Size(s[..|s| - 1]) + GlyphSize(s[|s| - 1])
  }

  lemma {:induction false} SizeAppend(a: seq<Glyph>, b: seq<Glyph>)
    ensures Size(a + b) == Size(a) + Size(b)
    decreases |b|
  {
    if b == [] {
      assert a + b == a;
    } else {
      assert (a + b)[..|a + b| - 1] == a + b[..|b| - 1];
      assert (a + b)[|a + b| - 1] == b[|b| - 1];
      SizeAppend(a, b[..|b| - 1]);
    }
  }

  /** The three cut-offs the builder computes before its loop, and whether each
      threshold switches its zone on. */
  datatype Cutoffs = Cutoffs(filled: int, cyan: int, yellow: int, cyanOn: bool, yellowOn: bool)

  /** `filledLength` is `length * current / total` rounded half away from zero;
      the zone cut-offs are `length` times the thresholds, truncated toward zero. */
  function ComputeCutoffs(length: int, current: real, total: real,
                          cyanThreshold: real, yellowThreshold: real): Cutoffs
    requires total != 0.0
  {
    Cutoffs(Round(length as real * current / total),
            Trunc(length as real * cyanThreshold),
            Trunc(length as real * yellowThreshold),
            cyanThreshold > 0.0, yellowThreshold > 0.0)
  }

  /** The colour of cell `i`. */
  function CellColour(i: int, k: Cutoffs): Colour {
    if i < k.filled then
      if i < k.cyan && k.cyanOn then Cyan
      else if i < k.yellow && k.yellowOn then Yellow
      else Red
    else Off
  }

  /** The cells for indices 0 .. n-1, appended one per index in index order. */
  function Cells(n: int, k: Cutoffs): (cells: seq<Glyph>)
    ensures |cells| == if n <= 0 then 0 else n
    decreases n
  {
    if n <= 0 then [] else Cells(n - 1, k) + [Block(CellColour(n - 1, k))]
  }

  /** What the buffer holds after the builder has run its loop for `length`
      cells, given the text `prior` it held before: cell 0 is written with
      `strcpy`, which discards `prior`, only when it is filled; every other
      cell is written with `strcat`. */
  function Bar(prior: seq<Glyph>, length: int, k: Cutoffs): seq<Glyph> {
    if length <= 0 then prior
    else if 0 < k.filled then Cells(length, k)
    else prior + Cells(length, k)
  }

  /** A character buffer `char dest[capacity]` holding a NUL-terminated text. */
  class CharBuffer {
    const capacity: nat
    var text: seq<Glyph>

    /** The text and its terminating NUL fit in the buffer. */
    ghost predicate Valid()
      reads this
    {
      Size(text) < capacity
    }

    constructor (capacity: nat, text: seq<Glyph>)
      requires Size(text) < capacity
      ensures Valid() && this.capacity == capacity && this.text == text
    {
      this.capacity := capacity;
      this.text := text;
    }

    /** `strcpy(dest, cell)`: the buffer holds the cell alone. */
    method Copy(g: Glyph)
      requires GlyphSize(g) < capacity
      modifies this
      ensures Valid() && text == [g]
    {
      text := [g];
    }

    /** `strcat(dest, cell)`: the cell is appended after the current text. */
    method Concat(g: Glyph)
      requires Size(text) + GlyphSize(g) < capacity
      modifies this
      ensures Valid() && text == old(text) + [g]
    {
      SizeAppend(text, [g]);
      text := text + [g];
    }
  }

  /** One turn of the loop: cell `i` is appended, after `strcpy` has emptied the
      buffer if it is the first cell and filled. */
  lemma BarStep(prior: seq<Glyph>, i: nat, k: Cutoffs)
    ensures Bar(prior, i + 1, k)
         == (if i == 0 && 0 < k.filled then [] else Bar(prior, i, k)) + [Block(CellColour(i, k))]
  {
    if 0 < i && k.filled <= 0 {
      assert prior + Cells(i, k) + [Block(CellColour(i, k))] == prior + Cells(i + 1, k);
    }
  }

  lemma CellsSize(n: nat, k: Cutoffs)
    ensures Size(Cells(n, k)) == CellBytes * n
  {
    forall i | 0 <= i < n
      ensures Cells(n, k)[i].Block?
    {
      CellsAt(n, k, i);
    }
    BlocksSize(Cells(n, k));
  }

  /** A text of cells only takes 14 bytes per cell. */
  lemma {:induction false} BlocksSize(s: seq<Glyph>)
    requires forall i :: 0 <= i < |s| ==> s[i].Block?
    ensures Size(s) == 14 * |s|
  {
    if s != [] {
      BlocksSize(s[..|s| - 1]);
    }
  }

  /** Bars for more cells are never shorter, once at least one cell is written. */
  lemma BarSizeGrows(prior: seq<Glyph>, i: int, j: int, k: Cutoffs)
    requires 1 <= i <= j
    ensures Size(Bar(prior, i, k)) <= Size(Bar(prior, j, k))
  {
    CellsSize(i, k);
    CellsSize(j, k);
    if k.filled <= 0 {
      SizeAppend(prior, Cells(i, k));
      SizeAppend(prior, Cells(j, k));
    }
  }

  /** One turn of the loop, with the room it needs: a filled first cell replaces
      the text, any other cell is appended, and either fits in a buffer that
      has room for the whole bar. */
  lemma WriteStep(prior: seq<Glyph>, i: nat, length: int, k: Cutoffs, capacity: nat)
    requires i < length && Size(Bar(prior, length, k)) < capacity
    ensures i == 0 && 0 < k.filled ==>
      Bar(prior, 1, k) == [Block(CellColour(0, k))] && CellBytes < capacity
    ensures 0 < i || k.filled <= 0 ==>
      Bar(prior, i + 1, k) == Bar(prior, i, k) + [Block(CellColour(i, k))] &&
      Size(Bar(prior, i, k)) + CellBytes < capacity
  {
    BarSizeGrows(prior, i + 1, length, k);
    BarStep(prior, i, k);
    SizeAppend(if i == 0 && 0 < k.filled then [] else Bar(prior, i, k), [Block(CellColour(i, k))]);
  }

  /** The body of the loop of `createDisplayBar` for index `i`: cell `i` is
      chosen by the cut-offs `k` and written, with `strcpy` when it is the
      first cell and filled, otherwise with `strcat`. */
  method WriteCell(dest: CharBuffer, i: nat, length: int, k: Cutoffs, ghost prior: seq<Glyph>)
    requires i < length && dest.text == Bar(prior, i, k)
    requires Size(Bar(prior, length, k)) < dest.capacity
    modifies dest
    ensures dest.Valid() && dest.text == Bar(prior, i + 1, k)
  {
    WriteStep(prior, i, length, k, dest.capacity);
    if i < k.filled {
      var colour :=
        if i < k.cyan && k.cyanOn then Cyan
        else if i < k.yellow && k.yellowOn then Yellow
        else Red;
      assert Block(colour) == Block(CellColour(i, k));
      if i == 0 {
        dest.Copy(Block(colour));
      } else {
        dest.Concat(Block(colour));
      }
    } else {
      assert Block(Off) == Block(CellColour(i, k));
      dest.Concat(Block(Off));
    }
  }

  /** The loop of `createDisplayBar`: one cell for each index `i` from 0 to
      `length - 1`, in index order. */
  method WriteCells(dest: CharBuffer, length: int, k: Cutoffs)
    requires dest.Valid() && Size(Bar(dest.text, length, k)) < dest.capacity
    modifies dest
    ensures dest.Valid() && dest.text == Bar(old(dest.text), length, k)
  {
    ghost var prior := dest.text;
    var i := 0;
    while i <= length - 1
      invariant 0 <= i <= (if length < 0 then 0 else length)
      invariant dest.Valid() && dest.text == Bar(prior, i, k)
    {
      WriteCell(dest, i, length, k, prior);
      i := i + 1;
    }
  }

  /** `createDisplayBar`. With the thresholds out of order it prints a message
      and exits before writing anything; otherwise it computes the cut-offs and
      leaves in `dest` the text `Bar` describes. The caller must make room for
      that text. */
  method CreateDisplayBar(dest: CharBuffer, current: real, total: real, length: int,
                          cyanThreshold: real, yellowThreshold: real)
    returns (status: Outcome<()>)
    requires dest.Valid() && total != 0.0
    requires cyanThreshold < yellowThreshold ==>
      Size(Bar(dest.text, length,
               ComputeCutoffs(length, current, total, cyanThreshold, yellowThreshold)))
      < dest.capacity
    modifies dest
    ensures dest.Valid()
    ensures cyanThreshold >= yellowThreshold ==>
      status == Exit(ExitFailure, ThresholdMessage) && dest.text == old(dest.text)
    ensures cyanThreshold < yellowThreshold ==>
      status == Ok(()) &&
      dest.text == Bar(old(dest.text), length,
                       ComputeCutoffs(length, current, total, cyanThreshold, yellowThreshold))
  {
    if cyanThreshold >= yellowThreshold {
      return Exit(ExitFailure, ThresholdMessage);
    }
    var filledLength := Round(length as real * current / total);
    var cyanLength := Trunc(length as real * cyanThreshold);
    var yellowLength := Trunc(length as real * yellowThreshold);
    WriteCells(dest, length, Cutoffs(filledLength, cyanLength, yellowLength,
                                     cyanThreshold > 0.0, yellowThreshold > 0.0));
    status := Ok(());
  }

  // Properties of the bar

  /** The loop appends exactly one cell per index, in index order. */
  lemma {:induction false} CellsAt(n: int, k: Cutoffs, i: int)
    requires 0 <= i < n
    ensures |Cells(n, k)| == n && Cells(n, k)[i] == Block(CellColour(i, k))
    decreases n
  {
    if i < n - 1 {
      CellsAt(n - 1, k, i);
    }
  }

  /** With no cell to write `dest` is left untouched; otherwise it ends up
      holding exactly the cells if and only if cell 0 is filled (so `strcpy`
      ran) or it was empty to begin with, and else the cells follow its old text. */
  lemma DestOverwrite(prior: seq<Glyph>, length: int, k: Cutoffs)
    ensures length <= 0 ==> Bar(prior, length, k) == prior
    ensures 1 <= length ==>
      (Bar(prior, length, k) == Cells(length, k) <==> 0 < k.filled || prior == [])
    ensures 1 <= length && k.filled <= 0 ==> Bar(prior, length, k) == prior + Cells(length, k)
  {
    if 1 <= length && k.filled <= 0 && Bar(prior, length, k) == Cells(length, k) {
      assert |prior + Cells(length, k)| == |Cells(length, k)|;
    }
  }

  /** Cell `i` is filled (not `Off`) exactly when `i < filledLength`, so the
      filled cells form a prefix of the bar. */
  lemma FilledPrefix(n: int, k: Cutoffs, i: int, j: int)
    requires 0 <= i <= j < n
    ensures Cells(n, k)[j] != Block(Off) <==> j < k.filled
    ensures Cells(n, k)[j] != Block(Off) ==> Cells(n, k)[i] != Block(Off)
  {
    CellsAt(n, k, i);
    CellsAt(n, k, j);
  }

  /** A non-positive fill gives an all-off bar; a fill of at least `n` gives
      no off cell. */
  lemma FillExtremes(n: int, k: Cutoffs)
    ensures k.filled <= 0 ==> forall i :: 0 <= i < |Cells(n, k)| ==> Cells(n, k)[i] == Block(Off)
    ensures n <= k.filled ==> forall i :: 0 <= i < |Cells(n, k)| ==> Cells(n, k)[i] != Block(Off)
  {
    forall i | 0 <= i < |Cells(n, k)|
      ensures Cells(n, k)[i] == Block(CellColour(i, k))
    {
      CellsAt(n, k, i);
    }
  }

  /** The colour of a filled cell: cyan below the cyan cut-off when the cyan
      zone is on; otherwise yellow below the yellow cut-off when that zone is
      on; otherwise red. */
  lemma FilledColour(n: int, k: Cutoffs, i: int)
    requires 0 <= i < n && i < k.filled
    ensures Cells(n, k)[i] == Block(Cyan) <==> i < k.cyan && k.cyanOn
    ensures Cells(n, k)[i] == Block(Yellow) <==>
      !(i < k.cyan && k.cyanOn) && i < k.yellow && k.yellowOn
    ensures Cells(n, k)[i] == Block(Red) <==>
      !(i < k.cyan && k.cyanOn) && !(i < k.yellow && k.yellowOn)
  {
    CellsAt(n, k, i);
  }

  /** The position of a colour along the bar. */
  function Rank(g: Glyph): nat {
    match g
    case Raw(_) => 0
    case Block(Cyan) => 0
    case Block(Yellow) => 1
    case Block(Red) => 2
    case Block(Off) => 3
  }

  /** Along the bar the cells run cyan, then yellow, then red, then off: no
      cell is followed by one of an earlier colour. */
  lemma ZonesInOrder(n: int, k: Cutoffs, i: int, j: int)
    requires 0 <= i <= j < n
    ensures Rank(Cells(n, k)[i]) <= Rank(Cells(n, k)[j])
  {
    CellsAt(n, k, i);
    CellsAt(n, k, j);
  }

  /** A threshold of zero or less turns its zone off: no cell takes that
      colour, and the `threshold > 0` test is what guarantees it. */
  lemma NonPositiveThreshold(length: int, current: real, total: real,
                             cyanThreshold: real, yellowThreshold: real)
    requires total != 0.0
    ensures cyanThreshold <= 0.0 ==>
      var cells := Cells(length, ComputeCutoffs(length, current, total, cyanThreshold, yellowThreshold));
      forall i :: 0 <= i < |cells| ==> cells[i] != Block(Cyan)
    ensures yellowThreshold <= 0.0 ==>
      var cells := Cells(length, ComputeCutoffs(length, current, total, cyanThreshold, yellowThreshold));
      forall i :: 0 <= i < |cells| ==> cells[i] != Block(Yellow)
  {
    var k := ComputeCutoffs(length, current, total, cyanThreshold, yellowThreshold);
    forall i | 0 <= i < |Cells(length, k)|
      ensures Cells(length, k)[i] == Block(CellColour(i, k))
    {
      CellsAt(length, k, i);
    }
  }

  /** The zone cut-offs follow the order of the thresholds. */
  lemma CutoffsOrdered(length: nat, current: real, total: real,
                       cyanThreshold: real, yellowThreshold: real)
    requires total != 0.0 && cyanThreshold < yellowThreshold
    ensures var k := ComputeCutoffs(length, current, total, cyanThreshold, yellowThreshold);
      k.cyan <= k.yellow
  {
    assert length as real * cyanThreshold <= length as real * yellowThreshold;
    TruncMonotone(length as real * cyanThreshold, length as real * yellowThreshold);
  }

  /** Where `l * current / total` lies, from where `current` lies in `[0, total]`. */
  lemma ScaledFill(l: real, current: real, total: real)
    requires 0.0 <= l && 0.0 < total
    ensures l * current / total < 0.5 <==> 2.0 * l * current < total
    ensures total <= current ==> l <= l * current / total
    ensures 0.0 <= current <= total ==> 0.0 <= l * current / total <= l
  {
    var p := l * current;
    assert 2.0 * l * current == 2.0 * p;
    DivLess(p, 0.5, total);
    if total <= current {
      MulLe(total, current, l);
      LeDiv(l, p, total);
    }
    if 0.0 <= current <= total {
      MulLe(0.0, current, l);
      LeDiv(0.0, p, total);
      MulLe(current, total, l);
      DivLe(p, l, total);
    }
  }

  lemma MulLe(a: real, b: real, c: real)
    requires a <= b && 0.0 <= c
    ensures c * a <= c * b
  {
    assert c * b - c * a == c * (b - a);
  }

  lemma MulLt(a: real, b: real, c: real)
    requires a < b && 0.0 < c
    ensures c * a < c * b
  {
    assert c * b - c * a == c * (b - a);
  }

  /** A quotient is under a bound exactly when the dividend is under the bound
      times the positive divisor. */
  lemma DivLess(a: real, b: real, t: real)
    requires 0.0 < t
    ensures a / t < b <==> a < t * b
  {
    var q := a / t;
    assert t * q == a;
    if q < b {
      MulLt(q, b, t);
    } else {
      MulLe(b, q, t);
    }
  }

  lemma DivLe(a: real, b: real, t: real)
    requires 0.0 < t && a <= t * b
    ensures a / t <= b
  {
    DivLess(a, b, t);
    var q := a / t;
    assert t * q == a;
    if b < q {
      MulLt(b, q, t);
    }
  }

  lemma LeDiv(b: real, a: real, t: real)
    requires 0.0 < t && t * b <= a
    ensures b <= a / t
  {
    var q := a / t;
    assert t * q == a;
    if q < b {
      MulLt(q, b, t);
    }
  }

  /** How many cells are filled: none when the reading sits less than half a
      cell above the bottom of the range, all when it is at or over the top,
      and between none and all for a reading inside the range. */
  lemma FilledLengthRange(length: nat, current: real, total: real,
                          cyanThreshold: real, yellowThreshold: real)
    requires 0.0 < total
    ensures var filled := ComputeCutoffs(length, current, total, cyanThreshold, yellowThreshold).filled;
      (filled <= 0 <==> 2.0 * length as real * current < total) &&
      (total <= current ==> length <= filled) &&
      (0.0 <= current <= total ==> 0 <= filled <= length)
  {
    RoundedFill(length, current, total);
  }

  lemma RoundedFill(length: nat, current: real, total: real)
    requires 0.0 < total
    ensures var filled := Round(length as real * current / total);
      (filled <= 0 <==> 2.0 * length as real * current < total) &&
      (total <= current ==> length <= filled) &&
      (0.0 <= current <= total ==> 0 <= filled <= length)
  {
    ScaledFill(length as real, current, total);
    RoundBounds(length as real * current / total, length);
  }

  /** The cut-offs depend on `current` and `total` only through their ratio. */
  lemma CutoffsByRatio(length: int, current: real, total: real, current': real, total': real,
                       cyanThreshold: real, yellowThreshold: real)
    requires total != 0.0 && total' != 0.0 && current / total == current' / total'
    ensures ComputeCutoffs(length, current, total, cyanThreshold, yellowThreshold)
         == ComputeCutoffs(length, current', total', cyanThreshold, yellowThreshold)
  {
    ScaledRatio(length as real, current, total, current', total');
    CutoffsByScaledFill(length, current, total, current', total', cyanThreshold, yellowThreshold);
  }

  lemma CutoffsByScaledFill(length: int, current: real, total: real, current': real, total': real,
                            cyanThreshold: real, yellowThreshold: real)
    requires total != 0.0 && total' != 0.0
    requires length as real * current / total == length as real * current' / total'
    ensures ComputeCutoffs(length, current, total, cyanThreshold, yellowThreshold)
         == ComputeCutoffs(length, current', total', cyanThreshold, yellowThreshold)
  {
  }

  /** The bytes the bar occupies: the cells only, or the cells after the old
      text when cell 0 is off. */
  lemma BarBytes(prior: seq<Glyph>, length: int, k: Cutoffs)
    requires 1 <= length
    ensures Size(Bar(prior, length, k))
         == (if 0 < k.filled then 0 else Size(prior)) + CellBytes * length
  {
    CellsSize(length, k);
    SizeAppend(prior, Cells(length, k));
  }

  /** In the 2048-byte buffer of `main`, a bar that starts afresh fits, with
      its terminating NUL, exactly when it has at most 146 cells. */
  lemma FitsBarBuffer(prior: seq<Glyph>, length: int, k: Cutoffs)
    requires 1 <= length && (0 < k.filled || prior == [])
    ensures Size(Bar(prior, length, k)) < BarBufferBytes <==> length <= 146
  {
    BarBytes(prior, length, k);
  }
}
