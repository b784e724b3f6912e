/**
 * The part of processing one file that is not image I/O: resolving the
 * scaling bounds from the file name and row count, normalizing the decoded
 * samples, and turning a failure into an unsuccessful result instead of
 * letting it stop the batch. Decoding and encoding images is not part of
 * this model: the decoded samples and the row count are parameters.
 */
module Pipeline {
  import opened Wrappers
  import opened Text
  import opened Paths
  import opened Scaling
  import opened LinearNormalization

  /**
   * One file's conversion. It succeeds exactly when the file name has a
   * camera field; the normalized samples then use the table's bounds for
   * that camera and row count, and each fits the output depth. The output
   * is a new array, never the decoded image; a failed file has no output.
   */
  method ProcessFile(inFile: string, image: array<int>, numRows: int, bit8: bool)
    returns (output: Option<array<int>>)
    ensures output.Some? <==> FirstPosition(Tokens(inFile)).Some?
    ensures output.Some? ==> fresh(output.value)
    ensures output.Some? ==>
      var b := ScalingFor(FirstPosition(Tokens(inFile)).value, numRows);
      && output.value.Length == image.Length
      && forall k :: 0 <= k < image.Length ==>
           && output.value[k] == NormalizeSample(image[k], b.bottom, b.top, bit8)
           && 0 <= output.value[k] <= MaxLevel(bit8)
  {
    var bounds := GetScalingValues(inFile, numRows);
    FirstPositionIsFirstMatch(Tokens(inFile));
    if bounds.None? {
      // the exception is caught, reported, and the file counts as failed
      return None;
    }
    var b := bounds.value;
    var normalized := LinNormalizeImage(image, bit8, Some(b.bottom), Some(b.top));
    output := Some(normalized);
  }

  /** The fields of a file name given without a directory. */
  lemma TokensOfPlainName(fields: seq<string>, name: string)
    requires |fields| >= 1 && forall i :: 0 <= i < |fields| ==> '_' !in fields[i] && '/' !in fields[i]
    requires name == JoinWith(fields, '_') && '/' !in name
    ensures Tokens(name) == fields
  {
    BasenameAfterSeparator([], name);
    assert [] + name == name;
    SplitJoin(fields, '_');
  }

  /**
   * A file named "<x>_P_<y>_16BIT.PNG" (x not itself a camera field) comes
   * from a P camera; with 512 rows, in 8-bit mode, its bottom bound 53500
   * maps to 0 and its top bound 56500 to 255.
   */
  lemma PortCameraExample(x: string, y: string)
    requires '_' !in x && '/' !in x && PositionOf(x).None?
    requires '_' !in y && '/' !in y
    ensures FirstPosition(Tokens(x + "_P_" + y + "_16BIT.PNG")) == Some(P)
    ensures ScalingFor(P, 512) == Bounds(53500, 56500)
    ensures NormalizeSample(53500, 53500, 56500, true) == 0
    ensures NormalizeSample(56500, 53500, 56500, true) == 255
  {
    var fields: seq<string> := [x, "P", y, "16BIT.PNG"];
    var name := x + "_P_" + y + "_16BIT.PNG";
    assert fields[1..] == ["P", y, "16BIT.PNG"] && fields[2..] == [y, "16BIT.PNG"] && fields[3..] == ["16BIT.PNG"];
    calc {
      JoinWith(fields, '_');
      x + "_" + JoinWith(fields[1..], '_');
      x + "_" + ("P" + "_" + JoinWith(fields[2..], '_'));
      x + "_" + ("P" + "_" + (y + "_" + "16BIT.PNG"));
      name;
    }
    TokensOfPlainName(fields, name);
    NormalizeSampleClips(53500, 53500, 56500, true);
    NormalizeSampleClips(56500, 53500, 56500, true);
  }

  /**
   * A file from a C camera: the midpoint 54500 of its bounds 50500..58500
   * maps to 127 in 8-bit mode and to 32767 in 16-bit mode (the floor of
   * the exact halves 127.5 and 32767.5).
   */
  lemma CenterCameraMidpointExample(numRows: int)
    ensures ScalingFor(C, numRows) == Bounds(50500, 58500)
    ensures NormalizeSample(54500, 50500, 58500, true) == 127
    ensures NormalizeSample(54500, 50500, 58500, false) == 32767
  {
  }

  /**
   * A file named "<x>_<y>_16BIT.PNG" where neither x nor y is "P", "C" or
   * "S" has no camera position, so ProcessFile reports it as failed rather
   * than falling back to the default bounds.
   */
  lemma UnknownCameraExample(x: string, y: string)
    requires '_' !in x && '/' !in x && PositionOf(x).None?
    requires '_' !in y && '/' !in y && PositionOf(y).None?
    ensures FirstPosition(Tokens(x + "_" + y + "_16BIT.PNG")).None?
  {
    var fields: seq<string> := [x, y, "16BIT.PNG"];
    var name := x + "_" + y + "_16BIT.PNG";
    assert fields[1..] == [y, "16BIT.PNG"] && fields[2..] == ["16BIT.PNG"];
    calc {
      JoinWith(fields, '_');
      x + "_" + JoinWith(fields[1..], '_');
      x + "_" + (y + "_" + "16BIT.PNG");
      name;
    }
    TokensOfPlainName(fields, name);
    assert PositionOf("16BIT.PNG").None?;
    calc {
      FirstPosition(fields);
      FirstPosition(fields[1..]);
      FirstPosition(fields[2..]);
      { assert fields[2..][1..] == []; }
      FirstPosition([]);
    }
  }
}
