/**
 * Choosing the scaling bounds of an image: the camera position is read from
 * the underscore-separated fields of the file's basename, and a fixed table
 * keyed on that position and the image's row count gives (bottom, top).
 */
module Scaling {
  import opened Wrappers
  import opened Text
  import opened Paths

  /** The camera that captured a frame: port, center or starboard. */
  datatype CameraPosition = P | C | S

  /** The intensity that maps to 0 and the one that maps to the top level. */
  datatype Bounds = Bounds(bottom: int, top: int)

  /** The camera position a filename field names, if it names one. */
  function PositionOf(field: string): (pos: Option<CameraPosition>)
    ensures pos.Some? <==> field == "P" || field == "C" || field == "S"
    ensures pos == Some(P) <==> field == "P"
    ensures pos == Some(C) <==> field == "C"
  {
    if field == "P" then Some(P)
    else if field == "C" then Some(C)
    else if field == "S" then Some(S)
    else None
  }

  /** The underscore-separated fields of the basename of `filename`. */
  function Tokens(filename: string): (fields: seq<string>)
    ensures JoinWith(fields, '_') == Basename(filename)
  {
    JoinSplit(Basename(filename), '_');
    Split(Basename(filename), '_')
  }

  /** The position named by the first field that names one. */
  function FirstPosition(tokens: seq<string>): Option<CameraPosition>
    decreases |tokens|
  {
    if tokens == [] then None
    else if PositionOf(tokens[0]).Some? then PositionOf(tokens[0])
    else FirstPosition(tokens[1..])
  }

  /**
   * FirstPosition is the position of the earliest field equal to "P", "C"
   * or "S", and there is none exactly when no field is one of those.
   */
  lemma {:induction false} FirstPositionIsFirstMatch(tokens: seq<string>)
    ensures FirstPosition(tokens).None? <==>
      forall i :: 0 <= i < |tokens| ==> PositionOf(tokens[i]).None?
    ensures FirstPosition(tokens).Some? ==>
      exists i :: 0 <= i < |tokens| && PositionOf(tokens[i]) == FirstPosition(tokens) &&
        forall j :: 0 <= j < i ==> PositionOf(tokens[j]).None?
    decreases |tokens|
  {
    if tokens != [] && PositionOf(tokens[0]).None? {
      var rest := tokens[1..];
      FirstPositionIsFirstMatch(rest);
      if FirstPosition(rest).Some? {
        var i :| 0 <= i < |rest| && PositionOf(rest[i]) == FirstPosition(rest) &&
          forall j :: 0 <= j < i ==> PositionOf(rest[j]).None?;
        assert PositionOf(tokens[i + 1]) == FirstPosition(tokens);
        assert forall j :: 1 <= j < i + 1 ==> tokens[j] == rest[j - 1];
      } else {
        assert forall i :: 1 <= i < |tokens| ==> tokens[i] == rest[i - 1];
      }
    }
  }

  /** Directories on the path never contribute camera fields. */
  lemma TokensIgnoreDirectory(dir: string, name: string)
    requires '/' !in name
    ensures Tokens(JoinPath(dir, name)) == Split(name, '_')
  {
    BasenameOfJoin(dir, name);
  }

  /**
   * The camera position of a file: the first field of its basename equal to
   * "P", "C" or "S". When no field matches, the source warns and then fails
   * on its return of an unbound variable; that failure is None here.
   */
  method ParseFilename(filename: string) returns (pos: Option<CameraPosition>)
    ensures pos == FirstPosition(Tokens(filename))
  {
    var tokens := Split(Basename(filename), '_');
    pos := None;
    for i := 0 to |tokens|
      invariant pos.None?
      invariant FirstPosition(tokens[i..]) == FirstPosition(tokens)
    {
      var token := tokens[i];
      if token == "P" || token == "C" || token == "S" {
        pos := PositionOf(token);
        break;
      }
      assert tokens[i..][1..] == tokens[i + 1..];
    }
  }

  /**
   * The bounds for a camera position and row count: 51000..57500 by default
   * and for S, overridden for P at 512 rows (53500..56500), P at 480 rows
   * and C at any size (50500..58500). Every row of the table is a valid,
   * non-degenerate range of 16-bit intensities.
   */
  function ScalingFor(pos: CameraPosition, numRows: int): (b: Bounds)
    ensures 0 <= b.bottom < b.top <= 65535
  {
    var fallback := Bounds(51000, 57500);
    match pos
    case P =>
      if numRows == 512 then Bounds(53500, 56500)
      else if numRows == 480 then Bounds(50500, 58500)
      else fallback
    case C => Bounds(50500, 58500)
    case S => fallback
  }

  /** The table row by row, and which rows fall back to the default. */
  lemma ScalingTable(numRows: int)
    ensures ScalingFor(P, 512) == Bounds(53500, 56500)
    ensures ScalingFor(P, 480) == Bounds(50500, 58500)
    ensures ScalingFor(C, numRows) == Bounds(50500, 58500)
    ensures ScalingFor(S, numRows) == Bounds(51000, 57500)
    ensures numRows != 512 && numRows != 480 ==> ScalingFor(P, numRows) == ScalingFor(S, numRows)
    ensures ScalingFor(C, numRows) == ScalingFor(P, 480)
  {
  }

  /**
   * The bounds for a file with `numRows` rows, or None when its name has no
   * camera field (the failure of ParseFilename propagates).
   */
  method GetScalingValues(filename: string, numRows: int) returns (bounds: Option<Bounds>)
    ensures bounds.None? <==> forall i :: 0 <= i < |Tokens(filename)| ==> PositionOf(Tokens(filename)[i]).None?
    ensures bounds.Some? ==>
      && FirstPosition(Tokens(filename)).Some?
      && bounds.value == ScalingFor(FirstPosition(Tokens(filename)).value, numRows)
  {
    FirstPositionIsFirstMatch(Tokens(filename));
    var pos := ParseFilename(filename);
    if pos.None? {
      return None;
    }
    bounds := Some(ScalingFor(pos.value, numRows));
  }
}
