/** The grid of cells a layer is compiled in (GriddedMapLayerCompiler.cpp): cell sizes and extents, cell ids, and the
    lists of cell keys. */
module GridProfile {
  import opened CropLine
  import opened Basics
  import opened Geometry

  // ----- one axis

  /** The cells along one axis: where they start, how many, the size of all but the last, and that of the last. */
  datatype Axis = Axis(low: real, count: nat, step: real, last: real) {
    function Size(k: nat): real {
      if k + 1 < count then step else last
    }

    function From(k: nat): real { low + step * k as real }

    function To(k: nat): real { From(k) + Size(k) }

    /** The cells tile the stretch from low to high. */
    ghost predicate Tiles(high: real) {
      && count >= 1 && step > 0.0 && 0.0 < last <= step
      && low + step * (count - 1) as real + last == high
    }
  }

  function Ceil(x: real): int { -((-x).Floor) }

  /** fmod: the quotient is cut towards zero. */
  function Fmod(a: real, b: real): real
    requires b != 0.0
  {
    var q := a / b;
    a - b * (if q >= 0.0 then q.Floor else Ceil(q)) as real
  }

  /** What a whole number is as a signed and then as an unsigned int; where it is no signed int the result is other. */
  function ToCount(n: int, other: nat): nat {
    if Fits(n) then n % 0x1_0000_0000 else other
  }

  predicate Fits(n: int) { -0x8000_0000 <= n < 0x8000_0000 }

  function Step(low: real, high: real, size: real): real {
    if size <= 0.0 then high - low else size
  }

  /** What is undefined is taken from nan: the count where it is no signed int, and the count and the rest where zero is
      divided by zero. */
  function BySize(low: real, high: real, size: real, nan: Axis): Axis {
    var (length, step) := (high - low, Step(low, high, size));
    if step == 0.0 then Axis(low, nan.count, step, nan.last)
    else
      var left := Fmod(length, step);
      Axis(low, ToCount(Ceil(length / step), nan.count), step, if left == 0.0 then step else left)
  }

  function ByCount(low: real, high: real, count: nat): Axis {
    var n := if count < 1 then 1 else count;
    Axis(low, n, (high - low) / n as real, (high - low) / n as real)
  }

  lemma QuotientIsPositive(length: real, step: real)
    requires length >= 0.0 && step > 0.0
    ensures length / step >= 0.0 && Ceil(length / step) >= 0
    ensures length > 0.0 <==> Ceil(length / step) >= 1
    ensures (length / step) * step == length
  {
    var q := length / step;
    assert q * step == length;
    Signs(q, step, length);
  }

  /** The number of cells survives its conversion, or what is undefined happens to be it. */
  predicate CountHolds(low: real, high: real, size: real, nan: Axis)
    requires low < high
  {
    var n := Ceil((high - low) / Step(low, high, size));
    Fits(n) || nan.count == n
  }

  /** Cells by size tile a stretch exactly when it has length and their number survives. */
  lemma BySizeTiles(low: real, high: real, size: real, nan: Axis)
    ensures BySize(low, high, size, nan).Tiles(high) <==> low < high && CountHolds(low, high, size, nan)
    ensures low == high && size > 0.0 ==> BySize(low, high, size, nan).count == 0
  {
    hide Fmod, Ceil;
    if low < high {
      var (a, step) := (BySize(low, high, size, nan), Step(low, high, size));
      var n := Ceil((high - low) / step);
      CutTiles(low, high, size, n);
      OneCount(a, high, n);
    } else {
      NoLength(low, high, size, nan);
    }
  }

  /** The cells have the size asked for, but for a smaller last one; with no positive size there is one cell. */
  lemma SizeAsAsked(low: real, high: real, size: real, nan: Axis)
    requires low < high && CountHolds(low, high, size, nan)
    ensures var a := BySize(low, high, size, nan);
            && a.count >= 1
            && (size > 0.0 ==> a.Size(a.count - 1) <= size && forall k: nat :: k + 1 < a.count ==> a.Size(k) == size)
            && (size <= 0.0 ==> a.count == 1 && a.Size(0) == high - low)
  {
    hide Fmod;
    BySizeTiles(low, high, size, nan);
    if size <= 0.0 {
      WholeStretch(high - low);
    }
  }

  lemma WholeStretch(length: real)
    requires length > 0.0
    ensures Ceil(length / length) == 1 && Fmod(length, length) == 0.0
  {
    var q := length / length;
    assert q == 1.0;
    assert q.Floor == 1 && (-q).Floor == -1;
  }

  lemma NoLength(low: real, high: real, size: real, nan: Axis)
    requires low >= high
    ensures !BySize(low, high, size, nan).Tiles(high)
    ensures low == high && size > 0.0 ==> BySize(low, high, size, nan).count == 0
  {
    hide Fmod, Ceil;
    var a := BySize(low, high, size, nan);
    if size > 0.0 {
      if low == high {
        QuotientIsPositive(high - low, size);
      }
      GoesUp(a, high);
    }
  }

  lemma GoesUp(a: Axis, high: real)
    requires a.step > 0.0 && a.low >= high
    ensures !a.Tiles(high)
  {
    var (n, whole) := ((a.count - 1) as real, a.step * (a.count - 1) as real);
    Signs(a.step, n, whole);
  }

  lemma OneCount(a: Axis, high: real, n: nat)
    requires n >= 1 && 0.0 < a.last <= a.step && a.low + a.step * (n - 1) as real + a.last == high
    ensures a.Tiles(high) <==> a.count == n
  {
    SameCount(a.step, a.count, n);
  }

  lemma SameCount(step: real, m: int, n: int)
    requires step > 0.0
    ensures step * (m - 1) as real == step * (n - 1) as real <==> m == n
  {
    var d := (m - n) as real;
    assert step * d == step * (m - 1) as real - step * (n - 1) as real;
    Signs(step, d, step * d);
  }

  lemma CutTiles(low: real, high: real, size: real, n: int)
    requires low < high && n == Ceil((high - low) / Step(low, high, size))
    ensures var (step, left) := (Step(low, high, size), Fmod(high - low, Step(low, high, size)));
            var last := if left == 0.0 then step else left;
            step > 0.0 && n >= 1 && 0.0 < last <= step && low + step * (n - 1) as real + last == high
  {
    hide Ceil;
    var (length, step) := (high - low, Step(low, high, size));
    QuotientIsPositive(length, step);
    var q := length / step;
    var f := q.Floor;
    var whole := step * f as real;
    Product(q, f as real, step, length, whole);
    FloorAndCeil(q);
    if q == f as real {
      assert whole == length;
      Less(step, n);
    } else {
      assert n == f + 1 && step * (n - 1) as real == whole;
    }
  }

  lemma Less(step: real, n: int)
    ensures step * (n - 1) as real + step == step * n as real
  {
  }

  lemma FloorAndCeil(q: real)
    ensures Ceil(q) == if q == q.Floor as real then q.Floor else q.Floor + 1
  {
    var f := q.Floor;
    if q == f as real {
      assert (-q).Floor == -f;
    } else {
      assert -(f as real) - 1.0 < -q < -(f as real);
      assert (-q).Floor == -f - 1;
    }
  }

  lemma Product(q: real, f: real, step: real, length: real, whole: real)
    requires f <= q < f + 1.0 && step > 0.0 && q * step == length && whole == step * f
    ensures whole <= length < whole + step
    ensures whole == length ==> q == f
  {
    Fraction(q - f, step, length - whole);
  }

  lemma Fraction(e: real, step: real, m: real)
    requires 0.0 <= e < 1.0 && step > 0.0 && m == e * step
    ensures 0.0 <= m < step && (m == 0.0 ==> e == 0.0)
  {
    var g := 1.0 - e;
    var w := g * step;
    assert w == step - m;
    Signs(e, step, m);
    Signs(g, step, w);
  }

  lemma ByCountTiles(low: real, high: real, count: nat)
    ensures ByCount(low, high, count).Tiles(high) <==> low < high
  {
    var a := ByCount(low, high, count);
    var n := a.count as real;
    assert a.step * n == high - low;
    Signs(a.step, n, high - low);
    Less(a.step, a.count);
  }

  // ----- tiling

  lemma NextStart(a: Axis, k: nat)
    requires k + 1 < a.count
    ensures a.To(k) == a.From(k + 1)
  {
    assert a.step * (k + 1) as real == a.step * k as real + a.step;
  }

  lemma StartsInOrder(a: Axis, j: nat, k: nat)
    requires j <= k && a.step >= 0.0
    ensures a.From(j) <= a.From(k)
  {
    assert a.step * (k - j) as real >= 0.0;
    assert a.step * (k - j) as real == a.step * k as real - a.step * j as real;
  }

  lemma AxisEnds(a: Axis, high: real)
    requires a.Tiles(high)
    ensures a.From(0) == a.low && a.To(a.count - 1) == high
  {
  }

  /** Neighbours meet, and no two cells share inner points. */
  lemma CellsAreDisjoint(a: Axis, high: real, j: nat, k: nat)
    requires a.Tiles(high) && j < k < a.count
    ensures a.To(j) <= a.From(k) && (k == j + 1 ==> a.To(j) == a.From(k))
  {
    NextStart(a, j);
    StartsInOrder(a, j + 1, k);
  }

  /** Every point of the stretch is in a cell. */
  lemma {:induction false} CellsCover(a: Axis, high: real, x: real, n: nat) returns (k: nat)
    requires a.Tiles(high) && 1 <= n <= a.count && a.low <= x <= a.To(n - 1)
    ensures k < n && a.From(k) <= x <= a.To(k)
  {
    k := n - 1;
    if x < a.From(k) {
      AxisEnds(a, high);
      NextStart(a, n - 2);
      k := CellsCover(a, high, x, n - 1);
    }
  }

  lemma CellsStayInside(a: Axis, high: real, k: nat)
    requires a.Tiles(high) && k < a.count
    ensures a.low <= a.From(k) < a.To(k) <= high
  {
    AxisEnds(a, high);
    StartsInOrder(a, 0, k);
    if k + 1 < a.count {
      CellsAreDisjoint(a, high, k, a.count - 1);
      assert a.From(a.count - 1) <= a.To(a.count - 1);
    }
  }

  function SizesUpTo(a: Axis, n: nat): real {
    if n == 0 then 0.0 else SizesUpTo(a, n - 1) + a.Size(n - 1)
  }

  lemma {:induction false} SizesAddUp(a: Axis, n: nat)
    requires n <= a.count
    ensures SizesUpTo(a, n) == if n == 0 then 0.0 else a.To(n - 1) - a.low
  {
    if n > 0 {
      SizesAddUp(a, n - 1);
      if n > 1 {
        NextStart(a, n - 2);
      } else {
        assert a.step * 0.0 == 0.0;
      }
    }
  }

  // ----- the grid

  class Profile {
    const bounds: Extent
    var columns: Axis
    var rows: Axis

    ghost predicate Valid()
      reads this
    {
      && bounds.HasArea() && columns.low == bounds.xmin && rows.low == bounds.ymin
      && columns.Tiles(bounds.xmax) && rows.Tiles(bounds.ymax)
    }

    constructor (bounds: Extent)
      ensures this.bounds == bounds
    {
      this.bounds := bounds;
      columns, rows := Axis(0.0, 0, 0.0, 0.0), Axis(0.0, 0, 0.0, 0.0);
    }

    method InitByCellSize(colSize: real, rowSize: real, nan: Axis)
      modifies this
      ensures Valid() <==> && bounds.HasArea() && CountHolds(bounds.xmin, bounds.xmax, colSize, nan)
                           && CountHolds(bounds.ymin, bounds.ymax, rowSize, nan)
      ensures columns == BySize(bounds.xmin, bounds.xmax, colSize, nan)
      ensures rows == BySize(bounds.ymin, bounds.ymax, rowSize, nan)
    {
      rows := BySize(bounds.ymin, bounds.ymax, rowSize, nan);
      columns := BySize(bounds.xmin, bounds.xmax, colSize, nan);
      BySizeTiles(bounds.ymin, bounds.ymax, rowSize, nan);
      BySizeTiles(bounds.xmin, bounds.xmax, colSize, nan);
    }

    method InitByCellCount(numCols: nat, numRows: nat)
      modifies this
      ensures Valid() <==> bounds.HasArea()
      ensures columns == ByCount(bounds.xmin, bounds.xmax, numCols)
      ensures rows == ByCount(bounds.ymin, bounds.ymax, numRows)
      ensures columns.count == (if numCols < 1 then 1 else numCols) && columns.last == columns.step
      ensures rows.count == (if numRows < 1 then 1 else numRows) && rows.last == rows.step
    {
      rows := ByCount(bounds.ymin, bounds.ymax, numRows);
      columns := ByCount(bounds.xmin, bounds.xmax, numCols);
      ByCountTiles(bounds.ymin, bounds.ymax, numRows);
      ByCountTiles(bounds.xmin, bounds.xmax, numCols);
    }

    function CellExtent(col: nat, row: nat): Extent
      reads this
    {
      Extent(columns.From(col), rows.From(row), columns.To(col), rows.To(row))
    }

    /** The cells of a column up to a row have this area. */
    function ColumnArea(col: nat, n: nat): real
      reads this
    {
      if n == 0 then 0.0 else ColumnArea(col, n - 1) + Area(CellExtent(col, n - 1))
    }

    function GridArea(n: nat): real
      reads this
    {
      if n == 0 then 0.0 else GridArea(n - 1) + ColumnArea(n - 1, rows.count)
    }

    lemma {:induction false} ColumnAreaIs(col: nat, n: nat)
      requires n <= rows.count
      ensures ColumnArea(col, n) == columns.Size(col) * SizesUpTo(rows, n)
    {
      if n > 0 {
        ColumnAreaIs(col, n - 1);
        Spread(columns.Size(col), SizesUpTo(rows, n - 1), rows.Size(n - 1));
      }
    }

    lemma {:induction false} GridAreaIs(n: nat)
      requires n <= columns.count
      ensures GridArea(n) == SizesUpTo(columns, n) * SizesUpTo(rows, rows.count)
    {
      if n > 0 {
        GridAreaIs(n - 1);
        ColumnAreaIs(n - 1, rows.count);
        Spread(SizesUpTo(rows, rows.count), SizesUpTo(columns, n - 1), columns.Size(n - 1));
      }
    }

    /** The areas of the cells add up to that of the bounds. */
    lemma AreasAddUp()
      requires Valid()
      ensures GridArea(columns.count) == Area(bounds)
    {
      GridAreaIs(columns.count);
      SizesAddUp(columns, columns.count);
      SizesAddUp(rows, rows.count);
      AxisEnds(columns, bounds.xmax);
      AxisEnds(rows, bounds.ymax);
    }

    /** The cells cover exactly the bounds. */
    lemma CellsCoverBounds(p: Vec)
      requires Valid()
      ensures bounds.Holds(p) <==>
              exists col: nat, row: nat :: col < columns.count && row < rows.count && CellExtent(col, row).Holds(p)
    {
      if bounds.Holds(p) {
        AxisEnds(columns, bounds.xmax);
        AxisEnds(rows, bounds.ymax);
        var col := CellsCover(columns, bounds.xmax, p.x, columns.count);
        var row := CellsCover(rows, bounds.ymax, p.y, rows.count);
        assert CellExtent(col, row).Holds(p);
      }
      if col: nat, row: nat :| col < columns.count && row < rows.count && CellExtent(col, row).Holds(p) {
        CellsStayInside(columns, bounds.xmax, col);
        CellsStayInside(rows, bounds.ymax, row);
      }
    }

    /** No point is strictly inside two cells. */
    lemma CellsDoNotOverlap(p: Vec, col: nat, row: nat, col': nat, row': nat)
      requires Valid() && col < columns.count && row < rows.count && col' < columns.count && row' < rows.count
      requires CellExtent(col, row).HoldsInside(p) && CellExtent(col', row').HoldsInside(p)
      ensures col == col' && row == row'
    {
      if col < col' {
        CellsAreDisjoint(columns, bounds.xmax, col, col');
      } else if col' < col {
        CellsAreDisjoint(columns, bounds.xmax, col', col);
      }
      if row < row' {
        CellsAreDisjoint(rows, bounds.ymax, row, row');
      } else if row' < row {
        CellsAreDisjoint(rows, bounds.ymax, row', row);
      }
    }
  }

  function Area(e: Extent): real { (e.xmax - e.xmin) * (e.ymax - e.ymin) }

  lemma Spread(k: real, a: real, b: real)
    ensures k * (a + b) == k * a + k * b
  {
  }

  // ----- cell ids

  function Digit(d: nat): char
    requires d < 10
  {
    '0' + d as char
  }

  /** A number as a stream writes it. */
  function Decimal(n: nat): (s: string)
    ensures s != [] && forall i :: 0 <= i < |s| ==> '0' <= s[i] <= '9'
  {
    (if n < 10 then "" else Decimal(n / 10)) + [Digit(n % 10)]
  }

  lemma {:induction false} DecimalIsInjective(m: nat, n: nat)
    requires Decimal(m) == Decimal(n)
    ensures m == n
  {
    var (a, b) := (Decimal(m), Decimal(n));
    assert a[|a| - 1] == Digit(m % 10) && b[|b| - 1] == Digit(n % 10);
    assert a[..|a| - 1] == (if m < 10 then "" else Decimal(m / 10));
    assert b[..|b| - 1] == (if n < 10 then "" else Decimal(n / 10));
    if m >= 10 && n >= 10 {
      DecimalIsInjective(m / 10, n / 10);
    }
  }

  function CellId(col: nat, row: nat, depth: nat): string {
    "L" + Decimal(depth) + "_X" + Decimal(col) + "_Y" + Decimal(row)
  }

  predicate Digits(s: string) {
    forall i :: 0 <= i < |s| ==> '0' <= s[i] <= '9'
  }

  function DigitsAhead(s: string): nat {
    if s != [] && '0' <= s[0] <= '9' then 1 + DigitsAhead(s[1..]) else 0
  }

  lemma {:induction false} DigitsAheadOf(a: string, x: string)
    requires Digits(a)
    ensures DigitsAhead(a + "_" + x) == |a|
  {
    if a == [] {
      assert a + "_" + x == "_" + x;
    } else {
      DigitsAheadOf(a[1..], x);
      assert (a + "_" + x)[1..] == a[1..] + "_" + x;
    }
  }

  /** A run of digits ended by something else can be read back. */
  lemma DigitsEnd(a: string, b: string, x: string, y: string)
    requires Digits(a) && Digits(b) && a + "_" + x == b + "_" + y
    ensures a == b && x == y
  {
    DigitsAheadOf(a, x);
    DigitsAheadOf(b, y);
    assert (a + "_" + x)[..|a|] == a && (b + "_" + y)[..|b|] == b;
    assert (a + "_" + x)[|a| + 1..] == x && (b + "_" + y)[|b| + 1..] == y;
  }

  /** No two cells have the same id. */
  lemma CellIdIsInjective(col: nat, row: nat, depth: nat, col': nat, row': nat, depth': nat)
    requires CellId(col, row, depth) == CellId(col', row', depth')
    ensures col == col' && row == row' && depth == depth'
  {
    hide Decimal;
    SameParts(Decimal(depth), Decimal(col), Decimal(row), Decimal(depth'), Decimal(col'), Decimal(row'));
    DecimalIsInjective(depth, depth');
    DecimalIsInjective(col, col');
    DecimalIsInjective(row, row');
  }

  /** The number written in decimal. */
  function Number(s: string): nat
    requires Digits(s)
  {
    if s == [] then 0 else 10 * Number(s[..|s| - 1]) + (s[|s| - 1] as int - '0' as int)
  }

  lemma {:induction false} DecimalReads(n: nat)
    ensures Number(Decimal(n)) == n
  {
    var s := Decimal(n);
    if n >= 10 {
      DecimalReads(n / 10);
      assert s[..|s| - 1] == Decimal(n / 10);
    } else {
      assert s[..|s| - 1] == "";
    }
  }

  /** What a reader finds after the first occurrence of a letter in an id. */
  function FieldAfter(id: string, mark: char): nat {
    if id == [] then 0
    else if id[0] == mark then
      DigitsAreAhead(id[1..]);
      Number(id[1..][..DigitsAhead(id[1..])])
    else FieldAfter(id[1..], mark)
  }

  lemma {:induction false} DigitsAreAhead(s: string)
    ensures DigitsAhead(s) <= |s| && Digits(s[..DigitsAhead(s)])
  {
    if s != [] && '0' <= s[0] <= '9' {
      DigitsAreAhead(s[1..]);
      assert s[..DigitsAhead(s)] == [s[0]] + s[1..][..DigitsAhead(s[1..])];
    }
  }

  lemma {:induction false} FieldBehind(a: string, rest: string, mark: char)
    requires mark !in a
    ensures FieldAfter(a + rest, mark) == FieldAfter(rest, mark)
  {
    if a == [] {
      assert a + rest == rest;
    } else {
      FieldBehind(a[1..], rest, mark);
      assert (a + rest)[1..] == a[1..] + rest;
    }
  }

  lemma FieldHere(mark: char, n: nat, rest: string)
    requires rest == [] || rest[0] == '_'
    ensures FieldAfter([mark] + Decimal(n) + rest, mark) == n
  {
    hide Decimal, Number;
    var (id, d) := ([mark] + Decimal(n) + rest, Decimal(n));
    assert id[1..] == d + rest;
    DecimalReads(n);
    if rest == [] {
      AllDigits(d);
      assert id[1..] == d;
    } else {
      DigitsAheadOf(d, rest[1..]);
      assert d + rest == d + "_" + rest[1..];
    }
  }

  lemma {:induction false} AllDigits(d: string)
    requires Digits(d)
    ensures DigitsAhead(d) == |d|
  {
    if d != [] {
      AllDigits(d[1..]);
    }
  }

  /** In a cell id the depth stands after L, the column after X and the row after Y. */
  lemma CellIdReads(col: nat, row: nat, depth: nat)
    ensures var id := CellId(col, row, depth);
            FieldAfter(id, 'L') == depth && FieldAfter(id, 'X') == col && FieldAfter(id, 'Y') == row
  {
    hide Decimal, FieldAfter;
    var (l, x, y) := (Decimal(depth), Decimal(col), Decimal(row));
    var id := CellId(col, row, depth);
    assert Digits(l) && Digits(x);
    assert id == ['L'] + l + ("_X" + x + "_Y" + y);
    FieldHere('L', depth, "_X" + x + "_Y" + y);
    assert id == ("L" + l + "_") + (['X'] + x + ("_Y" + y));
    FieldBehind("L" + l + "_", ['X'] + x + ("_Y" + y), 'X');
    FieldHere('X', col, "_Y" + y);
    assert id == ("L" + l + "_X" + x + "_") + (['Y'] + y + "");
    FieldBehind("L" + l + "_X" + x + "_", ['Y'] + y + "", 'Y');
    FieldHere('Y', row, "");
  }

  lemma SameParts(l: string, x: string, y: string, l': string, x': string, y': string)
    requires Digits(l) && Digits(x) && Digits(l') && Digits(x')
    requires "L" + l + "_X" + x + "_Y" + y == "L" + l' + "_X" + x' + "_Y" + y'
    ensures l == l' && x == x' && y == y'
  {
    hide Digits;
    IdTail(l, x, y);
    IdTail(l', x', y');
    DigitsEnd(l, l', "X" + x + "_Y" + y, "X" + x' + "_Y" + y');
    XTail(x, y);
    XTail(x', y');
    DigitsEnd(x, x', "Y" + y, "Y" + y');
    assert ("Y" + y)[1..] == y && ("Y" + y')[1..] == y';
  }

  lemma IdTail(l: string, x: string, y: string)
    ensures ("L" + l + "_X" + x + "_Y" + y)[1..] == l + "_" + ("X" + x + "_Y" + y)
  {
  }

  lemma XTail(x: string, y: string)
    ensures ("X" + x + "_Y" + y)[1..] == x + "_" + ("Y" + y)
  {
  }

  // ----- cell keys

  datatype Key = Key(col: nat, row: nat, level: nat)

  function KeysOfCell(col: nat, row: nat, levels: seq<nat>): seq<Key> {
    if levels == [] then [] else KeysOfCell(col, row, levels[..|levels| - 1]) + [Key(col, row, levels[|levels| - 1])]
  }

  function KeysOfColumn(col: nat, rows: nat, levels: seq<nat>): seq<Key> {
    if rows == 0 then [] else KeysOfColumn(col, rows - 1, levels) + KeysOfCell(col, rows - 1, levels)
  }

  /** Column by column, row by row, all levels of each cell. */
  function DepthFirst(cols: nat, rows: nat, levels: seq<nat>): seq<Key> {
    if cols == 0 then [] else DepthFirst(cols - 1, rows, levels) + KeysOfColumn(cols - 1, rows, levels)
  }

  function LevelOfColumn(col: nat, rows: nat, level: nat): seq<Key> {
    if rows == 0 then [] else LevelOfColumn(col, rows - 1, level) + [Key(col, rows - 1, level)]
  }

  function KeysOfLevel(cols: nat, rows: nat, level: nat): seq<Key> {
    if cols == 0 then [] else KeysOfLevel(cols - 1, rows, level) + LevelOfColumn(cols - 1, rows, level)
  }

  /** Level by level, all cells of each. */
  function BreadthFirst(cols: nat, rows: nat, levels: seq<nat>): seq<Key> {
    if levels == [] then []
    else BreadthFirst(cols, rows, levels[..|levels| - 1]) + KeysOfLevel(cols, rows, levels[|levels| - 1])
  }

  method CollectGeometryKeys(cols: nat, rows: nat, levels: seq<nat>, depthFirst: bool) returns (keys: seq<Key>)
    ensures keys == if depthFirst then DepthFirst(cols, rows, levels) else BreadthFirst(cols, rows, levels)
  {
    if depthFirst {
      keys := CollectDepthFirst(cols, rows, levels);
    } else {
      keys := CollectBreadthFirst(cols, rows, levels);
    }
  }

  method CollectDepthFirst(cols: nat, rows: nat, levels: seq<nat>) returns (keys: seq<Key>)
    ensures keys == DepthFirst(cols, rows, levels)
  {
    keys := [];
    assert levels[..|levels|] == levels;
    for col := 0 to cols
      invariant keys == DepthFirst(col, rows, levels)
    {
      ghost var before := keys;
      for row := 0 to rows
        invariant keys == before + KeysOfColumn(col, row, levels)
      {
        ghost var above := keys;
        for i := 0 to |levels|
          invariant keys == above + KeysOfCell(col, row, levels[..i])
        {
          assert levels[..i + 1][..i] == levels[..i];
          keys := keys + [Key(col, row, levels[i])];
        }
      }
    }
  }

  method CollectBreadthFirst(cols: nat, rows: nat, levels: seq<nat>) returns (keys: seq<Key>)
    ensures keys == BreadthFirst(cols, rows, levels)
  {
    keys := [];
    assert levels[..|levels|] == levels;
    for i := 0 to |levels|
      invariant keys == BreadthFirst(cols, rows, levels[..i])
    {
      assert levels[..i + 1][..i] == levels[..i];
      ghost var before := keys;
      for col := 0 to cols
        invariant keys == before + KeysOfLevel(col, rows, levels[i])
      {
        ghost var left := keys;
        for row := 0 to rows
          invariant keys == left + LevelOfColumn(col, row, levels[i])
        {
          keys := keys + [Key(col, row, levels[i])];
        }
      }
    }
  }

  // ----- where each key stands

  lemma {:induction false} CellKeyAt(col: nat, row: nat, levels: seq<nat>, i: nat)
    requires i < |levels|
    ensures |KeysOfCell(col, row, levels)| == |levels| && KeysOfCell(col, row, levels)[i] == Key(col, row, levels[i])
  {
    var n := |levels| - 1;
    if i < n {
      CellKeyAt(col, row, levels[..n], i);
    } else if n > 0 {
      CellKeyAt(col, row, levels[..n], 0);
    }
  }

  lemma {:induction false} ColumnKeyAt(col: nat, rows: nat, levels: seq<nat>, row: nat, i: nat)
    requires row < rows && i < |levels|
    ensures var at := row * |levels| + i;
            && |KeysOfColumn(col, rows, levels)| == rows * |levels| && 0 <= at < rows * |levels|
            && KeysOfColumn(col, rows, levels)[at] == Key(col, row, levels[i])
  {
    hide KeysOfCell;
    CellKeyAt(col, rows - 1, levels, i);
    ColumnCount(col, rows - 1, levels, Key(0, 0, 0));
    ColumnCount(col, rows, levels, Key(0, 0, 0));
    PlaceInside(row, rows, |levels|, i);
    if row < rows - 1 {
      ColumnKeyAt(col, rows - 1, levels, row, i);
    }
  }

  lemma PlaceInside(a: int, b: int, n: int, i: int)
    requires 0 <= a < b && 0 <= i < n
    ensures 0 <= a * n + i < b * n && b * n == (b - 1) * n + n && (a < b - 1 ==> a * n + i < (b - 1) * n)
  {
    assert (b - 1 - a) * n >= 0;
    assert (b - 1 - a) * n == b * n - n - a * n;
    if a < b - 1 {
      assert (b - 2 - a) * n >= 0;
      assert (b - 2 - a) * n == (b - 1) * n - n - a * n;
    }
  }

  /** Depth first the keys go column by column, row by row and then level by level. */
  lemma {:induction false} DepthFirstAt(cols: nat, rows: nat, levels: seq<nat>, col: nat, row: nat, i: nat)
    requires col < cols && row < rows && i < |levels|
    ensures var at := col * (rows * |levels|) + (row * |levels| + i);
            0 <= at < |DepthFirst(cols, rows, levels)| && DepthFirst(cols, rows, levels)[at] == Key(col, row, levels[i])
  {
    hide KeysOfColumn;
    ColumnKeyAt(cols - 1, rows, levels, row, i);
    DepthFirstCount(cols - 1, rows, levels, Key(0, 0, 0));
    DepthFirstCount(cols, rows, levels, Key(0, 0, 0));
    PlaceInside(col, cols, rows * |levels|, row * |levels| + i);
    if col < cols - 1 {
      DepthFirstAt(cols - 1, rows, levels, col, row, i);
    }
  }

  lemma {:induction false} LevelColumnAt(col: nat, rows: nat, level: nat, row: nat)
    requires row < rows
    ensures |LevelOfColumn(col, rows, level)| == rows && LevelOfColumn(col, rows, level)[row] == Key(col, row, level)
  {
    LevelColumnSize(col, rows, level);
    LevelColumnSize(col, rows - 1, level);
    if row < rows - 1 {
      LevelColumnAt(col, rows - 1, level, row);
    }
  }

  lemma {:induction false} LevelColumnSize(col: nat, rows: nat, level: nat)
    ensures |LevelOfColumn(col, rows, level)| == rows
  {
    if rows > 0 {
      LevelColumnSize(col, rows - 1, level);
    }
  }

  lemma {:induction false} LevelSize(cols: nat, rows: nat, level: nat)
    ensures |KeysOfLevel(cols, rows, level)| == cols * rows
  {
    hide LevelOfColumn;
    if cols > 0 {
      LevelSize(cols - 1, rows, level);
      LevelColumnSize(cols - 1, rows, level);
      OneMore(cols - 1, rows);
    }
  }

  lemma {:induction false} BreadthSize(cols: nat, rows: nat, levels: seq<nat>, m: nat)
    requires m == cols * rows
    ensures |BreadthFirst(cols, rows, levels)| == |levels| * m
  {
    hide KeysOfLevel;
    if levels != [] {
      BreadthSize(cols, rows, levels[..|levels| - 1], m);
      LevelSize(cols, rows, levels[|levels| - 1]);
      OneMore(|levels| - 1, m);
    }
  }

  lemma {:induction false} LevelKeyAt(cols: nat, rows: nat, level: nat, col: nat, row: nat)
    requires col < cols && row < rows
    ensures var at := col * rows + row;
            && |KeysOfLevel(cols, rows, level)| == cols * rows && 0 <= at < cols * rows
            && KeysOfLevel(cols, rows, level)[at] == Key(col, row, level)
  {
    hide LevelOfColumn;
    LevelColumnAt(cols - 1, rows, level, row);
    LevelSize(cols - 1, rows, level);
    LevelSize(cols, rows, level);
    PlaceInside(col, cols, rows, row);
    if col < cols - 1 {
      LevelKeyAt(cols - 1, rows, level, col, row);
    }
  }

  /** Breadth first they go level by level, and then column by column and row by row. */
  lemma BreadthFirstAt(cols: nat, rows: nat, levels: seq<nat>, col: nat, row: nat, i: nat)
    requires col < cols && row < rows && i < |levels|
    ensures var at := i * (cols * rows) + (col * rows + row);
            && 0 <= at < |BreadthFirst(cols, rows, levels)|
            && BreadthFirst(cols, rows, levels)[at] == Key(col, row, levels[i])
  {
    hide BreadthFirst;
    LevelKeyAt(cols, rows, levels[i], col, row);
    LevelInOrder(cols, rows, levels, i, cols * rows, col * rows + row);
  }

  lemma {:induction false} LevelInOrder(cols: nat, rows: nat, levels: seq<nat>, i: nat, m: nat, k: nat)
    requires i < |levels| && k < m && m == cols * rows
    ensures |KeysOfLevel(cols, rows, levels[i])| == m && 0 <= i * m + k < |BreadthFirst(cols, rows, levels)|
    ensures BreadthFirst(cols, rows, levels)[i * m + k] == KeysOfLevel(cols, rows, levels[i])[k]
  {
    hide KeysOfLevel;
    var n := |levels| - 1;
    LevelSize(cols, rows, levels[i]);
    LevelSize(cols, rows, levels[n]);
    BreadthSize(cols, rows, levels[..n], m);
    BreadthSize(cols, rows, levels, m);
    PlaceInside(i, |levels|, m, k);
    if i < n {
      LevelInOrder(cols, rows, levels[..n], i, m, k);
    }
  }

  function Times(levels: seq<nat>, level: nat): nat {
    multiset(levels)[level]
  }

  lemma TimesNext(levels: seq<nat>, level: nat)
    requires levels != []
    ensures Times(levels, level) ==
            Times(levels[..|levels| - 1], level) + if levels[|levels| - 1] == level then 1 else 0
  {
    assert levels == levels[..|levels| - 1] + [levels[|levels| - 1]];
  }

  lemma CountOne(x: Key, k: Key)
    ensures Count([x], k) == if x == k then 1 else 0
  {
  }

  lemma {:induction false} CellCount(col: nat, row: nat, levels: seq<nat>, k: Key)
    ensures Count(KeysOfCell(col, row, levels), k) == if k.col == col && k.row == row then Times(levels, k.level) else 0
    ensures |KeysOfCell(col, row, levels)| == |levels|
  {
    hide Count, Times;
    CountNone(k);
    if levels != [] {
      var n := |levels| - 1;
      CellCount(col, row, levels[..n], k);
      CountConcat(KeysOfCell(col, row, levels[..n]), [Key(col, row, levels[n])], k);
      CountOne(Key(col, row, levels[n]), k);
      TimesNext(levels, k.level);
    } else {
      TimesNone(k.level);
    }
  }

  lemma TimesNone(level: nat)
    ensures Times([], level) == 0
  {
  }

  lemma {:induction false} ColumnCount(col: nat, rows: nat, levels: seq<nat>, k: Key)
    ensures Count(KeysOfColumn(col, rows, levels), k) ==
            if k.col == col && k.row < rows then Times(levels, k.level) else 0
    ensures |KeysOfColumn(col, rows, levels)| == rows * |levels|
  {
    hide Count, Times;
    CountNone(k);
    if rows > 0 {
      ColumnCount(col, rows - 1, levels, k);
      CellCount(col, rows - 1, levels, k);
      CountConcat(KeysOfColumn(col, rows - 1, levels), KeysOfCell(col, rows - 1, levels), k);
      assert (rows - 1) * |levels| + |levels| == rows * |levels|;
    }
  }

  lemma {:induction false} DepthFirstCount(cols: nat, rows: nat, levels: seq<nat>, k: Key)
    ensures Count(DepthFirst(cols, rows, levels), k) ==
            if k.col < cols && k.row < rows then Times(levels, k.level) else 0
    ensures |DepthFirst(cols, rows, levels)| == cols * (rows * |levels|)
  {
    hide Count, Times;
    CountNone(k);
    if cols > 0 {
      DepthFirstCount(cols - 1, rows, levels, k);
      ColumnCount(cols - 1, rows, levels, k);
      CountConcat(DepthFirst(cols - 1, rows, levels), KeysOfColumn(cols - 1, rows, levels), k);
      OneMore(cols - 1, rows * |levels|);
    }
  }

  lemma OneMore(a: int, b: int)
    ensures (a + 1) * b == a * b + b
  {
  }

  lemma {:induction false} LevelColumnCount(col: nat, rows: nat, level: nat, k: Key)
    ensures Count(LevelOfColumn(col, rows, level), k) ==
            if k.col == col && k.row < rows && k.level == level then 1 else 0
  {
    hide Count;
    CountNone(k);
    if rows > 0 {
      LevelColumnCount(col, rows - 1, level, k);
      CountConcat(LevelOfColumn(col, rows - 1, level), [Key(col, rows - 1, level)], k);
      CountOne(Key(col, rows - 1, level), k);
    }
  }

  lemma {:induction false} LevelCount(cols: nat, rows: nat, level: nat, k: Key)
    ensures Count(KeysOfLevel(cols, rows, level), k) ==
            if k.col < cols && k.row < rows && k.level == level then 1 else 0
  {
    hide Count;
    CountNone(k);
    if cols > 0 {
      LevelCount(cols - 1, rows, level, k);
      LevelColumnCount(cols - 1, rows, level, k);
      CountConcat(KeysOfLevel(cols - 1, rows, level), LevelOfColumn(cols - 1, rows, level), k);
    }
  }

  lemma {:induction false} BreadthFirstCount(cols: nat, rows: nat, levels: seq<nat>, k: Key)
    ensures Count(BreadthFirst(cols, rows, levels), k) ==
            if k.col < cols && k.row < rows then Times(levels, k.level) else 0
  {
    hide Count, Times;
    CountNone(k);
    TimesNone(k.level);
    if levels != [] {
      var n := |levels| - 1;
      BreadthFirstCount(cols, rows, levels[..n], k);
      LevelCount(cols, rows, levels[n], k);
      CountConcat(BreadthFirst(cols, rows, levels[..n]), KeysOfLevel(cols, rows, levels[n]), k);
      TimesNext(levels, k.level);
    }
  }

  /** Both orders list the same keys: each cell of the grid at each level, as often as the level is listed. */
  lemma OrdersArePermutations(cols: nat, rows: nat, levels: seq<nat>)
    ensures multiset(DepthFirst(cols, rows, levels)) == multiset(BreadthFirst(cols, rows, levels))
    ensures |BreadthFirst(cols, rows, levels)| == |DepthFirst(cols, rows, levels)| == cols * (rows * |levels|)
    ensures forall k :: k in DepthFirst(cols, rows, levels) <==> k.col < cols && k.row < rows && k.level in levels
  {
    var (a, b) := (DepthFirst(cols, rows, levels), BreadthFirst(cols, rows, levels));
    forall k
      ensures multiset(a)[k] == multiset(b)[k] && (k in a <==> k.col < cols && k.row < rows && k.level in levels)
    {
      DepthFirstCount(cols, rows, levels, k);
      BreadthFirstCount(cols, rows, levels, k);
      assert k in a <==> Count(a, k) > 0;
      assert k.level in levels <==> Times(levels, k.level) > 0;
    }
    assert multiset(a) == multiset(b);
    assert |multiset(a)| == |a| && |multiset(b)| == |b|;
    DepthFirstCount(cols, rows, levels, Key(0, 0, 0));
  }
}
