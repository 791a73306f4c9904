/** Serialising the sorted table (gen_val_half_gt.py, lines 52-63). */
module GtOutput {
  import opened GtRows

  /** One comma-separated field of an output line: an integer, or the
      confidence, which the file shows with five decimal places. */
  datatype Token = Int(n: int) | Fixed5(conf: real)

  type Line = seq<Token>

  /** Python's `int(val)` on a float: truncation toward zero. */
  function Truncate(v: real): (n: int)
    ensures 0.0 <= v ==> 0 <= n && n as real <= v < n as real + 1.0
    ensures v < 0.0 ==> n <= 0 && n as real - 1.0 < v <= n as real
  {
    if v >= 0.0 then v.Floor else -((-v).Floor)
  }

  /** The nine fields of a row as they are written. */
  function Rendered(row: Row): Line
  {
    seq(9, k requires 0 <= k < 9 => if k == 8 then Fixed5(row.conf) else Int(Truncate(Column(row, k))))
  }

  /** Lines 55-61: one token per column, columns 0-7 truncated to integers
      and column 8 kept as the confidence. */
  method FormatRow(row: Row) returns (line: Line)
    ensures |line| == 9
    ensures forall k :: 0 <= k < 8 ==> line[k] == Int(Truncate(Column(row, k)))
    ensures line[8] == Fixed5(row.conf)
    ensures line == Rendered(row)
  {
    line := [];
    for i := 0 to 9
      invariant |line| == i
      invariant forall k :: 0 <= k < i ==> line[k] == Rendered(row)[k]
    {
      var val := Column(row, i);
      if i == 8 {
        line := line + [Fixed5(val)];
      } else {
        line := line + [Int(Truncate(val))];
      }
    }
  }

  /** Lines 53-63: every row becomes one formatted line, written twice in a
      row, so line `j` of the output is the rendering of row `j / 2`. */
  method WriteLines(rows: seq<Row>) returns (lines: seq<Line>)
    ensures |lines| == 2 * |rows|
    ensures forall j :: 0 <= j < |lines| ==> lines[j] == Rendered(rows[j / 2])
  {
    lines := [];
    for i := 0 to |rows|
      invariant |lines| == 2 * i
      invariant forall j :: 0 <= j < |lines| ==> lines[j] == Rendered(rows[j / 2])
    {
      var line := FormatRow(rows[i]);
      lines := lines + [line, line];
    }
  }
}
