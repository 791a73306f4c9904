/** The record model of a MOT ground-truth file: one row per annotated
    object in a frame, nine numeric fields read as floating-point numbers. */
module GtRows {

  /** One annotation line: frame, track id, bounding box (x, y, w, h),
      validity flag, class id and confidence, in file order. */
  datatype Row = Row(frame: real, track: real, x: real, y: real, w: real, h: real,
                     flag: real, cls: real, conf: real)

  /** Field `i` of a row, counting from 0 as the columns of the numeric table do. */
  function Column(r: Row, i: nat): real
    requires i < 9
  {
    match i
    case 0 => r.frame
    case 1 => r.track
    case 2 => r.x
    case 3 => r.y
    case 4 => r.w
    case 5 => r.h
    case 6 => r.flag
    case 7 => r.cls
    case _ => r.conf
  }

  /** Column 0 of the table (`data[:, 0]`). */
  function FrameColumn(rows: seq<Row>): (col: seq<real>)
    ensures |col| == |rows|
    ensures forall i :: 0 <= i < |rows| ==> col[i] == rows[i].frame
  {
    seq(|rows|, i requires 0 <= i < |rows| => rows[i].frame)
  }

  /** Column 1 of the table (`data[:, 1]`). */
  function TrackColumn(rows: seq<Row>): (col: seq<real>)
    ensures |col| == |rows|
    ensures forall i :: 0 <= i < |rows| ==> col[i] == rows[i].track
  {
    seq(|rows|, i requires 0 <= i < |rows| => rows[i].track)
  }

  /** The distinct frame numbers of a table. */
  function FrameSet(rows: seq<Row>): set<real>
  {
    set i | 0 <= i < |rows| :: rows[i].frame
  }

  /** The key of the frame remap: (original frame, track id). */
  function KeyOf(r: Row): (real, real)
  {
    (r.frame, r.track)
  }

  /** The rows of `s` whose track is `t` and whose frame is `f`, in order. */
  function WithKey(s: seq<Row>, t: real, f: real): seq<Row>
  {
    if s == [] then []
    else (if s[0].track == t && s[0].frame == f then [s[0]] else []) + WithKey(s[1..], t, f)
  }
}
