/** Index arithmetic of the Sudoku to exact-cover reduction.

    A board has cell size k (the side of a box), line size N = k*k and
    N*N cells.  A possibility row id stands for placing digit d+1 in
    board row r, board column c and is r*N*N + c*N + d.  The 4*N*N
    constraint columns come in four families of N*N columns each:
    cell (r, c), row-digit (r, d), column-digit (c, d) and box-digit (b, d). */
module Layout {

  /** Values of C's `unsigned int` are taken modulo this. */
  const Uint32Modulus: nat := 0x1_0000_0000

  /** The dimensions the board reader derives: line_size = cell_size²,
      with a cell size of at least one (the reader counts the separators
      of the first box and adds one), so 1 <= k <= N.  Every row id, up
      to N³, is taken to fit an `unsigned int`, so that no index
      arithmetic of the program wraps. */
  predicate Dims(k: nat, n: nat) {
    1 <= k <= n && n == k * k && Cube(n) < Uint32Modulus
  }

  function Cube(n: nat): nat { n * n * n }

  /** Board row of a possibility row: row / grid_size. */
  function RowIndex(row: nat, n: nat): nat
    requires n > 0
  {
    row / (n * n)
  }

  /** Board column of a possibility row: (row / line_size) % line_size. */
  function ColIndex(row: nat, n: nat): nat
    requires n > 0
  {
    (row / n) % n
  }

  /** Digit offset of a possibility row (the digit placed is offset + 1). */
  function Offset(row: nat, n: nat): nat
    requires n > 0
  {
    row % n
  }

  /** The row id that places digit d+1 in board row r, column c. */
  function Encode(r: nat, c: nat, d: nat, n: nat): nat {
    r * (n * n) + c * n + d
  }

  /** Box number of board cell (r, c). */
  function Box(r: nat, c: nat, k: nat): nat
    requires k > 0
  {
    k * (r / k) + c / k
  }

  /** Index into the constraint array of the f-th constraint (0 cell,
      1 row-digit, 2 column-digit, 3 box-digit) met by possibility row
      `row`, written as the reduction writes it. */
  function Constraint(row: nat, f: nat, k: nat, n: nat): nat
    requires k > 0 && n > 0 && f < 4
  {
    var r, c, d := RowIndex(row, n), ColIndex(row, n), Offset(row, n);
    if f == 0 then 0 * (n * n) + row / n
    else if f == 1 then 1 * (n * n) + r * n + d
    else if f == 2 then 2 * (n * n) + c * n + d
    else 3 * (n * n) + Box(r, c, k) * n + d
  }

  // ---------------------------------------------------------------------
  // Arithmetic helpers

  /** Euclidean division is determined by quotient and remainder. */
  lemma DivModUnique(a: int, n: int, q: int, r: int)
    requires n > 0 && 0 <= r < n && a == q * n + r
    ensures a / n == q && a % n == r
  {
    var q', r' := a / n, a % n;
    assert a == q' * n + r';
    assert (q - q') * n == r' - r;
    if q > q' {
      assert (q - q') * n >= n by { MulGe(q - q', n); }
    } else if q < q' {
      assert (q' - q) * n >= n by { MulGe(q' - q, n); }
    }
  }

  lemma MulGe(a: int, n: int)
    requires a >= 1 && n > 0
    ensures a * n >= n
  {
    assert a * n == (a - 1) * n + n;
    assert (a - 1) * n >= 0;
  }

  lemma MulMono(a: int, b: int, n: int)
    requires 0 <= a <= b && n >= 0
    ensures a * n <= b * n
  {
    assert b * n == a * n + (b - a) * n;
    assert (b - a) * n >= 0;
  }

  /** q*n + r with r < n and q < m lies below m*n. */
  lemma MixedBelow(q: nat, r: nat, n: nat, m: nat)
    requires r < n && q < m
    ensures q * n + r < m * n
  {
    MulMono(q + 1, m, n);
    assert (q + 1) * n == q * n + n;
  }

  /** Equal mixed-radix numerals have equal digits. */
  lemma MixedInjective(q1: nat, r1: nat, q2: nat, r2: nat, n: nat)
    requires r1 < n && r2 < n && q1 * n + r1 == q2 * n + r2
    ensures q1 == q2 && r1 == r2
  {
    DivModUnique(q1 * n + r1, n, q1, r1);
    DivModUnique(q2 * n + r2, n, q2, r2);
  }

  // ---------------------------------------------------------------------
  // Decoding and encoding possibility rows

  /** Decoding a row id and encoding the parts again gives back the id,
      and row / line_size is the cell number r*N + c. */
  lemma EncodeDecode(row: nat, n: nat)
    requires n > 0
    ensures row / n == RowIndex(row, n) * n + ColIndex(row, n)
    ensures Encode(RowIndex(row, n), ColIndex(row, n), Offset(row, n), n) == row
  {
    var q, d := row / n, row % n;
    var r, c := q / n, q % n;
    assert row == q * n + d;
    assert q == r * n + c;
    Expand(r, c, d, n);
    MixedBelow(c, d, n, n);
    DivModUnique(row, n * n, r, c * n + d);
  }

  lemma Expand(r: int, c: int, d: int, n: int)
    ensures (r * n + c) * n + d == r * (n * n) + c * n + d
  {
  }

  /** A quotient of a number below m*k by k is below m. */
  lemma DivBelow(a: nat, k: nat, m: nat)
    requires k > 0 && a < m * k
    ensures 0 <= a / k < m
  {
    assert a == (a / k) * k + a % k;
    MulStrictInv(a / k, m, k);
  }

  lemma MulStrictInv(x: int, m: int, k: int)
    requires k > 0 && x * k < m * k
    ensures x < m
  {
    assert (m - x) * k > 0;
  }

  /** Every part of a row id below N³ is below N. */
  lemma DecodeRanges(row: nat, n: nat)
    requires n > 0 && row < Cube(n)
    ensures RowIndex(row, n) < n && ColIndex(row, n) < n && Offset(row, n) < n
  {
    assert Cube(n) == n * (n * n);
    DivBelow(row, n * n, n);
  }

  /** Decoding the id of (r, c, d) gives back r, c and d, and the id is a
      row id below N³. */
  lemma DecodeEncode(r: nat, c: nat, d: nat, n: nat)
    requires r < n && c < n && d < n
    ensures Encode(r, c, d, n) < Cube(n)
    ensures RowIndex(Encode(r, c, d, n), n) == r
    ensures ColIndex(Encode(r, c, d, n), n) == c
    ensures Offset(Encode(r, c, d, n), n) == d
  {
    var row := Encode(r, c, d, n);
    var q, low := r * n + c, c * n + d;
    assert row == q * n + d by { Expand(r, c, d, n); }
    DivModUnique(row, n, q, d);
    DivModUnique(q, n, r, c);
    assert low < n * n by { MixedBelow(c, d, n, n); }
    assert row == r * (n * n) + low;
    DivModUnique(row, n * n, r, low);
    assert row < Cube(n) by { MixedBelow(r, low, n * n, n); }
  }

  /** The box number of a cell of the board is below N. */
  lemma BoxRange(r: nat, c: nat, k: nat, n: nat)
    requires Dims(k, n) && r < n && c < n
    ensures Box(r, c, k) < n
  {
    DivBelow(r, k, k);
    DivBelow(c, k, k);
    BoxBelow(r / k, c / k, k);
  }

  lemma BoxBelow(a: nat, b: nat, k: nat)
    requires a < k && b < k
    ensures k * a + b < k * k
  {
    MixedBelow(a, b, k, k);
  }

  /** Each of the four constraints of a row id below N³ falls in its own
      family's block of N*N indices, so all of them are below 4*N*N. */
  lemma ConstraintRange(row: nat, f: nat, k: nat, n: nat)
    requires Dims(k, n) && row < Cube(n) && f < 4
    ensures f * (n * n) <= Constraint(row, f, k, n) < (f + 1) * (n * n)
  {
    DecodeRanges(row, n);
    var r, c, d := RowIndex(row, n), ColIndex(row, n), Offset(row, n);
    if f == 0 {
      EncodeDecode(row, n);
      BlockRange(0, r, c, n);
    } else if f == 1 {
      BlockRange(1, r, d, n);
    } else if f == 2 {
      BlockRange(2, c, d, n);
    } else {
      BoxRange(r, c, k, n);
      BlockRange(3, Box(r, c, k), d, n);
    }
  }

  /** Offset a*N + b within the f-th block of N*N indices. */
  lemma BlockRange(f: nat, a: nat, b: nat, n: nat)
    requires a < n && b < n
    ensures f * (n * n) <= f * (n * n) + a * n + b < (f + 1) * (n * n)
  {
    MixedBelow(a, b, n, n);
    assert (f + 1) * (n * n) == f * (n * n) + n * n;
  }
}
