/**
  The I2C bus scan: every 7-bit address is visited in ascending order;
  those outside the reserved blocks 0000xxx and 1111xxx (section 3.1.12 of
  NXP UM10204, the I2C-bus specification) are probed with a zero-length
  write, and the results are laid out as a grid of eight rows of sixteen
  three-character cells.

  The bus is the function `probe`, the return code of the zero-length write
  at each address: 0 when a device acknowledged.
 */
module Scanner {
  import opened Bus
  import opened Decimal

  const FirstProbed: nat := 0x08
  const LastProbed: nat := 0x77
  const AddressCount: nat := 128

  /** The nominal pause after each address, in milliseconds. */
  const ProbeDelay: nat := 1

  /** The number of addresses the scan probes. */
  const ProbedCount: nat := LastProbed - FirstProbed + 1

  const Banner: string := "Starting I2C bus scan...\nScanning addresses 0x08 to 0x77\n"
  const ColumnHeader: string := "     0  1  2  3  4  5  6  7  8  9  a  b  c  d  e  f\n"

  predicate Probed(addr: nat) {
    FirstProbed <= addr <= LastProbed
  }

  /** The grid cell of one address: blank when reserved, its hexadecimal
      address when a device acknowledged, dashes otherwise. */
  function Cell(addr: nat, ret: int): (c: string)
    ensures |c| == 3
  {
    if !Probed(addr) then "   " else if ret == 0 then Hex2(addr) + " " else "-- "
  }

  /** The cells of a whole scan, by address. */
  function Cells(probe: nat -> int): nat -> string {
    (addr: nat) => Cell(addr, probe(addr))
  }

  /** The text the loop body prints for one address with cell text `cell`:
      a row header before the first address of a row, the cell, and a
      newline after the last address of a row. */
  function Piece(addr: nat, cell: string): string
    requires addr < AddressCount
  {
    (if Column(addr) == 0 then Hex2(addr) + ": " else "")
    + cell
    + (if Column(addr) == 15 then "\n" else "")
  }

  /** The grid column of an address: its remainder modulo 16, which
      `ColumnIsRemainder` proves. It is written as repeated subtraction
      of 16 so that the grid's position lemmas reason by unfolding rather
      than with `%`, which costs the solver far more. */
  function Column(addr: nat): (c: nat)
    ensures c < 16
  {
    if addr < 16 then addr else Column(addr - 16)
  }

  lemma {:induction false} ColumnOfRow(r: nat, c: nat)
    requires c < 16
    ensures Column(16 * r + c) == c
  {
    if r > 0 {
      ColumnOfRow(r - 1, c);
    }
  }

  /** The grid laid out for the addresses below `n`, whatever the cells
      hold. */
  function Layout(cells: nat -> string, n: nat): string
    requires n <= AddressCount
  {
    if n == 0 then "" else Layout(cells, n - 1) + Piece(n - 1, cells(n - 1))
  }

  /** The grid text printed for the addresses below `n`. */
  function GridUpTo(probe: nat -> int, n: nat): string
    requires n <= AddressCount
  {
    Layout(Cells(probe), n)
  }

  /** The number of probed addresses below `n` that acknowledged. */
  function AckCount(probe: nat -> int, n: nat): (k: nat)
    ensures k <= n
  {
    if n == 0 then 0 else AckCount(probe, n - 1) + (if Probed(n - 1) && probe(n - 1) == 0 then 1 else 0)
  }

  lemma AckStep(probe: nat -> int, n: nat)
    ensures AckCount(probe, n + 1) == AckCount(probe, n) + (if Probed(n) && probe(n) == 0 then 1 else 0)
  {
  }

  /** The number of probed addresses below `n`. */
  function ProbedBelow(n: nat): nat {
    if n <= FirstProbed then 0 else if n <= LastProbed + 1 then n - FirstProbed else ProbedCount
  }

  /** At most one device per probed address is counted: at most 112. */
  lemma {:induction false} AckCountBound(probe: nat -> int, n: nat)
    ensures AckCount(probe, n) <= ProbedBelow(n)
  {
    if n > 0 {
      AckCountBound(probe, n - 1);
    }
  }

  /** The zero-length writes to the first `n` probed addresses, in
      ascending order. */
  function ProbeList(n: nat): (t: seq<Event>)
    ensures |t| == n
  {
    if n == 0 then [] else ProbeList(n - 1) + [Write(FirstProbed + n - 1, [])]
  }

  /** Entry `j` of the probe list is the write to address 8 + j. */
  lemma {:induction false} ProbeListContents(n: nat, j: nat)
    requires j < n
    ensures ProbeList(n)[j] == Write(FirstProbed + j, [])
  {
    if j < n - 1 {
      ProbeListContents(n - 1, j);
    }
  }

  /** The write transfers of a trace, in order. */
  function Writes(t: seq<Event>): seq<Event>
  {
    if |t| == 0 then [] else (if t[0].Write? then [t[0]] else []) + Writes(t[1..])
  }

  lemma {:induction false} WritesAppend(a: seq<Event>, b: seq<Event>)
    ensures Writes(a + b) == Writes(a) + Writes(b)
    decreases |a|
  {
    if |a| == 0 {
      assert a + b == b;
    } else {
      var head := if a[0].Write? then [a[0]] else [];
      assert (a + b)[0] == a[0] && (a + b)[1..] == a[1..] + b;
      assert Writes(a + b) == head + Writes(a[1..] + b);
      WritesAppend(a[1..], b);
      Associate(head, Writes(a[1..]), Writes(b));
    }
  }

  /** What the loop body does on the bus at one address: the probe, if the
      address is probed, then the pause. */
  function Step(addr: nat): seq<Event> {
    if Probed(addr) then [Write(addr, []), Sleep(ProbeDelay)] else [Sleep(ProbeDelay)]
  }

  /** The bus operations of the first `n` iterations, in order. */
  function Steps(n: nat): seq<Event> {
    if n == 0 then [] else Steps(n - 1) + Step(n - 1)
  }

  lemma AddressOps(ops: seq<Event>, addr: nat)
    requires addr < AddressCount
    requires Writes(ops) == ProbeList(ProbedBelow(addr))
    requires CountSleeps(ops, ProbeDelay) == addr
    requires |ops| == ProbedBelow(addr) + addr && Transfers(ops) == ProbedBelow(addr)
    ensures Writes(ops + Step(addr)) == ProbeList(ProbedBelow(addr + 1))
    ensures CountSleeps(ops + Step(addr), ProbeDelay) == addr + 1
    ensures |ops + Step(addr)| == ProbedBelow(addr + 1) + addr + 1
    ensures Transfers(ops + Step(addr)) == ProbedBelow(addr + 1)
  {
    var step := Step(addr);
    WritesAppend(ops, step);
    CountsAppend(ops, step, ProbeDelay);
    if Probed(addr) {
      assert step[1..][1..] == [];
      assert Writes(step[1..]) == [];
      assert Writes(step) == [Write(addr, [])];
      assert ProbedBelow(addr + 1) == ProbedBelow(addr) + 1;
      assert FirstProbed + ProbedBelow(addr) == addr;
      assert ProbeList(ProbedBelow(addr) + 1) == ProbeList(ProbedBelow(addr)) + [Write(addr, [])];
      assert CountSleeps(step[1..], ProbeDelay) == 1;
      assert Transfers(step[1..]) == 0;
    } else {
      assert step[1..] == [];
      assert Writes(step) == [];
    }
  }

  /** The first `n` iterations probe exactly the non-reserved addresses
      below `n`, in ascending order, pause once per address, and issue no
      other transfer. */
  lemma {:induction false} StepsCounts(n: nat)
    requires n <= AddressCount
    ensures Writes(Steps(n)) == ProbeList(ProbedBelow(n))
    ensures CountSleeps(Steps(n), ProbeDelay) == n
    ensures |Steps(n)| == ProbedBelow(n) + n && Transfers(Steps(n)) == ProbedBelow(n)
  {
    if n > 0 {
      StepsCounts(n - 1);
      AddressOps(Steps(n - 1), n - 1);
    }
  }

  const SummaryHead: string := "\nScan complete. Found "
  const SummaryTail: string := " device(s).\n\n"

  /** The summary line after the grid. */
  function Summary(found: int): string {
    SummaryHead + IntText(found) + SummaryTail
  }

  /** The summary of a scan carries its count in decimal between the fixed
      text around it, and the count reads back from the line. */
  lemma SummaryCount(found: nat)
    ensures var s := Summary(found);
      && |SummaryHead| + |SummaryTail| < |s|
      && s[..|SummaryHead|] == SummaryHead
      && s[|s| - |SummaryTail|..] == SummaryTail
      && AllDigits(s[|SummaryHead| .. |s| - |SummaryTail|])
      && ValueOf(s[|SummaryHead| .. |s| - |SummaryTail|]) == found
  {
    var s, d := Summary(found), NatText(found);
    assert s == SummaryHead + d + SummaryTail;
    assert s[|SummaryHead| .. |s| - |SummaryTail|] == d;
    NatTextRoundTrip(found);
  }

  // ---------------------------------------------------------------------
  // Where everything sits in the grid

  lemma ColumnIsRemainder(addr: nat)
    ensures Column(addr) == addr % 16
    ensures Column(addr) == 15 <==> (addr + 1) % 16 == 0
  {
    var r, c := addr / 16, addr % 16;
    assert addr == 16 * r + c;
    ColumnOfRow(r, c);
  }

  /** Every cell is three characters wide. */
  ghost predicate ThreeWide(cells: nat -> string) {
    forall addr :: |cells(addr)| == 3
  }

  lemma CellsThreeWide(probe: nat -> int)
    ensures ThreeWide(Cells(probe))
  {
    forall addr: nat
      ensures |Cells(probe)(addr)| == 3
    {
      assert Cells(probe)(addr) == Cell(addr, probe(addr));
    }
  }

  /** Inside row `r`, the loop body prints the header before column 0 and
      the newline after column 15. */
  lemma PieceInRow(cells: nat -> string, addr: nat, r: nat, c: nat)
    requires r < 8 && c < 16 && addr == 16 * r + c
    ensures Piece(addr, cells(addr))
      == (if c == 0 then Hex2(16 * r) + ": " else "")
         + cells(addr)
         + (if c == 15 then "\n" else "")
  {
    ColumnOfRow(r, c);
  }

  /** The width of the grid text: 53 characters per completed row (a
      four-character header, sixteen cells and a newline), then the header
      and the cells of the current row. */
  function Width(r: nat, c: nat): nat {
    53 * r + (if c == 0 then 0 else 4 + 3 * c)
  }

  lemma {:induction false} LayoutLength(cells: nat -> string, r: nat, c: nat)
    requires ThreeWide(cells)
    requires 16 * r + c <= AddressCount && c < 16
    ensures |Layout(cells, 16 * r + c)| == Width(r, c)
    decreases 16 * r + c
  {
    if c > 0 {
      LayoutLength(cells, r, c - 1);
      LengthStep(cells, r, c - 1);
      assert 16 * r + (c - 1) + 1 == 16 * r + c;
    } else if r > 0 {
      LayoutLength(cells, r - 1, 15);
      LengthStep(cells, r - 1, 15);
      assert 16 * (r - 1) + 15 + 1 == 16 * r + c;
    }
  }

  /** Each address adds its cell, plus the header at the start of a row
      and the newline at its end. */
  lemma LengthStep(cells: nat -> string, r: nat, c: nat)
    requires ThreeWide(cells) && r < 8 && c < 16
    ensures |Layout(cells, 16 * r + c + 1)|
      == |Layout(cells, 16 * r + c)| + (if c == 0 then 4 else 0) + 3 + (if c == 15 then 1 else 0)
  {
    PieceInRow(cells, 16 * r + c, r, c);
    LayoutStep(cells, 16 * r + c);
  }

  /** The grid printed so far is a prefix of the grid printed later. */
  lemma {:induction false} LayoutPrefix(cells: nat -> string, m: nat, n: nat)
    requires m <= n <= AddressCount
    ensures Layout(cells, m) <= Layout(cells, n)
    decreases n
  {
    if m < n {
      LayoutPrefix(cells, m, n - 1);
      LayoutStep(cells, n - 1);
      PrefixExtended(Layout(cells, m), Layout(cells, n - 1), Piece(n - 1, cells(n - 1)));
    }
  }

  /** The text printed up to and including address 16r + c: the text before
      it, then its piece laid out by column. */
  lemma LayoutStepInRow(cells: nat -> string, r: nat, c: nat)
    requires ThreeWide(cells) && r < 8 && c < 16
    ensures Layout(cells, 16 * r + c + 1)
      == Layout(cells, 16 * r + c)
         + ((if c == 0 then Hex2(16 * r) + ": " else "")
            + cells(16 * r + c)
            + (if c == 15 then "\n" else ""))
    ensures |Layout(cells, 16 * r + c)| == Width(r, c)
  {
    PieceInRow(cells, 16 * r + c, r, c);
    LayoutStep(cells, 16 * r + c);
    LayoutLength(cells, r, c);
  }

  lemma LayoutStep(cells: nat -> string, n: nat)
    requires n < AddressCount
    ensures Layout(cells, n + 1) == Layout(cells, n) + Piece(n, cells(n))
  {
  }

  /** A slice of the grid printed so far is the same slice of the whole
      grid. */
  lemma WindowOfPrefix(cells: nat -> string, m: nat, n: nat, i: nat, j: nat, w: string)
    requires m <= n <= AddressCount && i <= j <= |Layout(cells, m)|
    requires Layout(cells, m)[i .. j] == w
    ensures j <= |Layout(cells, n)|
    ensures Layout(cells, n)[i .. j] == w
  {
    LayoutPrefix(cells, m, n);
    SliceOfPrefix(Layout(cells, m), Layout(cells, n), i, j, w);
  }

  /** The header of row `r` within the text printed up to its first
      address. */
  lemma HeaderInStep(cells: nat -> string, r: nat)
    requires ThreeWide(cells) && r < 8
    ensures 53 * r + 4 <= |Layout(cells, 16 * r + 0 + 1)|
    ensures Layout(cells, 16 * r + 0 + 1)[53 * r .. 53 * r + 4] == Hex2(16 * r) + ": "
  {
    LayoutStepInRow(cells, r, 0);
    WindowHead(Layout(cells, 16 * r + 0 + 1), Layout(cells, 16 * r + 0), Hex2(16 * r) + ": ", cells(16 * r + 0), "", 53 * r, 53 * r + 4);
  }

  /** Row `r` of any grid opens with its first address and ": ". */
  lemma LayoutHeader(cells: nat -> string, r: nat, n: nat)
    requires ThreeWide(cells) && r < 8 && 16 * r < n <= AddressCount
    ensures 53 * r + 4 <= |Layout(cells, n)|
    ensures Layout(cells, n)[53 * r .. 53 * r + 4] == Hex2(16 * r) + ": "
  {
    HeaderInStep(cells, r);
    WindowOfPrefix(cells, 16 * r + 0 + 1, n, 53 * r, 53 * r + 4, Hex2(16 * r) + ": ");
  }

  /** Cell 16r + c of any grid sits in row `r` after the header, three
      characters per column. */
  lemma LayoutCell(cells: nat -> string, r: nat, c: nat, n: nat)
    requires ThreeWide(cells) && r < 8 && c < 16 && 16 * r + c < n <= AddressCount
    ensures 53 * r + 7 + 3 * c <= |Layout(cells, n)|
    ensures Layout(cells, n)[53 * r + 4 + 3 * c .. 53 * r + 7 + 3 * c] == cells(16 * r + c)
  {
    CellInStep(cells, r, c);
    WindowOfPrefix(cells, 16 * r + c + 1, n, 53 * r + 4 + 3 * c, 53 * r + 7 + 3 * c, cells(16 * r + c));
  }

  /** The cell of address 16r + c within the text printed up to it. */
  lemma CellInStep(cells: nat -> string, r: nat, c: nat)
    requires ThreeWide(cells) && r < 8 && c < 16
    ensures 53 * r + 7 + 3 * c <= |Layout(cells, 16 * r + c + 1)|
    ensures Layout(cells, 16 * r + c + 1)[53 * r + 4 + 3 * c .. 53 * r + 7 + 3 * c] == cells(16 * r + c)
  {
    LayoutStepInRow(cells, r, c);
    Window(Layout(cells, 16 * r + c + 1), Layout(cells, 16 * r + c), if c == 0 then Hex2(16 * r) + ": " else "",
      cells(16 * r + c), if c == 15 then "\n" else "",
      53 * r + 4 + 3 * c, 53 * r + 7 + 3 * c);
  }

  /** The newline closing row `r` within the text printed up to its last
      address. */
  lemma NewlineInStep(cells: nat -> string, r: nat)
    requires ThreeWide(cells) && r < 8
    ensures 53 * r + 53 <= |Layout(cells, 16 * r + 15 + 1)|
    ensures Layout(cells, 16 * r + 15 + 1)[53 * r + 52 .. 53 * r + 53] == "\n"
  {
    LayoutStepInRow(cells, r, 15);
    WindowTail(Layout(cells, 16 * r + 15 + 1), Layout(cells, 16 * r + 15), "", cells(16 * r + 15), "\n", 53 * r + 52, 53 * r + 53);
  }

  /** Row `r` of any grid closes with a newline after its sixteenth cell. */
  lemma LayoutNewline(cells: nat -> string, r: nat, n: nat)
    requires ThreeWide(cells) && r < 8 && 16 * r + 15 < n <= AddressCount
    ensures 53 * r + 53 <= |Layout(cells, n)|
    ensures Layout(cells, n)[53 * r + 52 .. 53 * r + 53] == "\n"
  {
    NewlineInStep(cells, r);
    WindowOfPrefix(cells, 16 * r + 15 + 1, n, 53 * r + 52, 53 * r + 53, "\n");
  }

  /** The whole grid: eight rows of 53 characters. */
  lemma GridSize(probe: nat -> int)
    ensures |GridUpTo(probe, AddressCount)| == 424
  {
    CellsThreeWide(probe);
    LayoutLength(Cells(probe), 8, 0);
  }

  /** Row `r` opens with its first address in hexadecimal and ": ", in
      the text printed once that address is visited and in every later
      text, the finished grid among them. */
  lemma HeaderAt(probe: nat -> int, r: nat, n: nat)
    requires r < 8 && 16 * r < n <= AddressCount
    ensures 53 * r + 4 <= |GridUpTo(probe, n)|
    ensures GridUpTo(probe, n)[53 * r .. 53 * r + 4] == Hex2(16 * r) + ": "
  {
    CellsThreeWide(probe);
    LayoutHeader(Cells(probe), r, n);
  }

  /** The cell of address 16r + c sits in row `r` after the header, three
      characters per column, in every text printed once that address is
      visited: the grid shows each address's own probe result and nothing
      else. */
  lemma CellAt(probe: nat -> int, r: nat, c: nat, n: nat)
    requires r < 8 && c < 16 && 16 * r + c < n <= AddressCount
    ensures 53 * r + 7 + 3 * c <= |GridUpTo(probe, n)|
    ensures GridUpTo(probe, n)[53 * r + 4 + 3 * c .. 53 * r + 7 + 3 * c] == Cell(16 * r + c, probe(16 * r + c))
  {
    CellsThreeWide(probe);
    LayoutCell(Cells(probe), r, c, n);
  }

  /** Row `r` closes with a newline after its sixteenth cell, once the
      row is complete. */
  lemma NewlineAt(probe: nat -> int, r: nat, n: nat)
    requires r < 8 && 16 * r + 15 < n <= AddressCount
    ensures 53 * r + 53 <= |GridUpTo(probe, n)|
    ensures GridUpTo(probe, n)[53 * r + 52 .. 53 * r + 53] == "\n"
  {
    CellsThreeWide(probe);
    LayoutNewline(Cells(probe), r, n);
  }

  /** `w` sits at `i` .. `j`, right after `x`, in `x + (w + q1 + q2)`. */
  lemma WindowHead<T>(s: seq<T>, x: seq<T>, w: seq<T>, q1: seq<T>, q2: seq<T>, i: nat, j: nat)
    requires s == x + (w + q1 + q2)
    requires i == |x| && j == i + |w|
    ensures j <= |s| && s[i .. j] == w
  {
    assert s == x + w + (q1 + q2);
  }

  /** `w` sits at `i` .. `j`, at the end of `x + (p1 + p2 + w)`. */
  lemma WindowTail<T>(s: seq<T>, x: seq<T>, p1: seq<T>, p2: seq<T>, w: seq<T>, i: nat, j: nat)
    requires s == x + (p1 + p2 + w)
    requires i == |x| + |p1| + |p2| && j == i + |w|
    ensures j <= |s| && s[i .. j] == w
  {
    assert s == x + (p1 + p2) + w;
  }

  /** `w` sits at `i` .. `j`, right after `x` and `p`, in `x + (p + w + q)`. */
  lemma Window<T>(s: seq<T>, x: seq<T>, p: seq<T>, w: seq<T>, q: seq<T>, i: nat, j: nat)
    requires s == x + (p + w + q)
    requires i == |x| + |p| && j == i + |w|
    ensures j <= |s| && s[i .. j] == w
  {
    assert x + (p + w + q) == x + p + w + q;
  }

  lemma Prefix<T>(a: seq<T>, b: seq<T>, i: nat, j: nat)
    requires a <= b && i <= j <= |a|
    ensures b[i .. j] == a[i .. j]
  {
    assert forall k | i <= k < j :: b[k] == a[k];
  }

  lemma SliceOfPrefix<T>(a: seq<T>, b: seq<T>, i: nat, j: nat, w: seq<T>)
    requires a <= b && i <= j <= |a| && a[i .. j] == w
    ensures j <= |b| && b[i .. j] == w
  {
    Prefix(a, b, i, j);
  }

  lemma PrefixExtended<T>(a: seq<T>, b: seq<T>, c: seq<T>)
    requires a <= b
    ensures a <= b + c
  {
    assert forall k | 0 <= k < |a| :: (b + c)[k] == b[k];
  }

  lemma Associate<T>(a: seq<T>, b: seq<T>, c: seq<T>)
    ensures a + (b + c) == a + b + c
  {
  }

  /** One iteration of the scan: the bus operations at `addr`, the text
      printed for it, and whether a device answered there. */
  method VisitAddress(probe: nat -> int, addr: nat) returns (step: seq<Event>, piece: string, hit: nat)
    requires addr < AddressCount
    ensures step == Step(addr)
    ensures piece == Piece(addr, Cell(addr, probe(addr)))
    ensures hit == if Probed(addr) && probe(addr) == 0 then 1 else 0
  {
    ColumnIsRemainder(addr);
    var header, cell, newline := "", "", "";
    if addr % 16 == 0 {
      header := Hex2(addr) + ": ";
    }
    hit := 0;
    if addr < FirstProbed || addr > LastProbed {
      cell := "   ";
      step := [Sleep(ProbeDelay)];
    } else {
      var ret := probe(addr);
      step := [Write(addr, []), Sleep(ProbeDelay)];
      if ret == 0 {
        cell := Hex2(addr) + " ";
        hit := 1;
      } else {
        cell := "-- ";
      }
    }
    if (addr + 1) % 16 == 0 {
      newline := "\n";
    }
    piece := header + cell + newline;
  }

  /** What the scan has done once the addresses below `addr` are visited. */
  predicate Scanned(probe: nat -> int, addr: nat, ops: seq<Event>, found: nat, text: string)
    requires addr <= AddressCount
  {
    && found == AckCount(probe, addr)
    && text == Banner + ColumnHeader + GridUpTo(probe, addr)
    && ops == Steps(addr)
  }

  /** One iteration keeps the scan's account of what it has done. */
  lemma ScanStep(probe: nat -> int, addr: nat, ops: seq<Event>, found: nat, text: string)
    requires addr < AddressCount && Scanned(probe, addr, ops, found, text)
    ensures Scanned(probe, addr + 1, ops + Step(addr), found + (if Probed(addr) && probe(addr) == 0 then 1 else 0),
      text + Piece(addr, Cell(addr, probe(addr))))
  {
    LayoutStep(Cells(probe), addr);
    AckStep(probe, addr);
    Associate(Banner + ColumnHeader, GridUpTo(probe, addr), Piece(addr, Cell(addr, probe(addr))));
  }

  /** The loop over the first `n` addresses, in ascending order: probe the
      non-reserved ones with a zero-length write, count the
      acknowledgements, and print the grid after the banner. */
  method ScanAddresses(probe: nat -> int, n: nat) returns (ops: seq<Event>, found: nat, text: string)
    requires n <= AddressCount
    ensures ops == Steps(n)
    ensures found == AckCount(probe, n)
    ensures text == Banner + ColumnHeader + GridUpTo(probe, n)
  {
    ops, found := [], 0;
    text := Banner + ColumnHeader;
    var addr: nat := 0;
    while addr < n
      invariant addr <= n
      invariant Scanned(probe, addr, ops, found, text)
    {
      var step, piece, hit := VisitAddress(probe, addr);
      ScanStep(probe, addr, ops, found, text);
      ops, text, found := ops + step, text + piece, found + hit;
      addr := addr + 1;
    }
  }

  /** The whole scan: every address, then the summary with the count. */
  method ScanBus(probe: nat -> int) returns (ops: seq<Event>, found: nat, text: string)
    ensures ops == Steps(AddressCount)
    ensures Writes(ops) == ProbeList(ProbedCount)
    ensures CountSleeps(ops, ProbeDelay) == AddressCount
    ensures |ops| == ProbedCount + AddressCount && Transfers(ops) == ProbedCount
    ensures found == AckCount(probe, AddressCount) && found <= ProbedCount
    ensures text == Banner + ColumnHeader + GridUpTo(probe, AddressCount) + Summary(found)
  {
    ops, found, text := ScanAddresses(probe, AddressCount);
    StepsCounts(AddressCount);
    AckCountBound(probe, AddressCount);
    text := text + Summary(found);
  }
}
