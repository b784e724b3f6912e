/**
 * Building the lists of input and output files from a directory listing:
 * the names containing "16BIT.PNG" are kept in listing order, each gets an
 * output name by a fixed renaming, and both are joined to their directory.
 * The listing itself is a parameter.
 */
module Curation {
  import opened Text
  import opened Paths

  /** Every input image name contains this marker. */
  const InputMarker: string := "16BIT.PNG"

  predicate IsInputName(name: string)
  {
    Find(name, InputMarker) != -1
  }

  /** The names that contain the input marker, in listing order. */
  function SelectInputs(names: seq<string>): (inputs: seq<string>)
    ensures |inputs| <= |names|
    ensures forall x :: x in inputs <==> x in names && IsInputName(x)
    decreases |names|
  {
    if names == [] then []
    else
      assert forall x :: x in names <==> x == names[0] || x in names[1..];
      (if IsInputName(names[0]) then [names[0]] else []) + SelectInputs(names[1..])
  }

  /**
   * Selection keeps the listing order: selecting from two listings one after
   * the other gives the two selections one after the other.
   */
  lemma {:induction false} SelectInputsAppend(a: seq<string>, b: seq<string>)
    ensures SelectInputs(a + b) == SelectInputs(a) + SelectInputs(b)
    decreases |a|
  {
    if a != [] {
      assert (a + b)[0] == a[0];
      assert (a + b)[1..] == a[1..] + b;
      SelectInputsAppend(a[1..], b);
    } else {
      assert a + b == b;
    }
  }

  /** The output name: "16BIT" becomes "8BIT-N" in 8-bit mode, "16BIT." becomes "16BIT-N." otherwise. */
  function OutputName(name: string, bit8: bool): string
  {
    if bit8 then ReplaceAll(name, "16BIT", "8BIT-N")
    else ReplaceAll(name, "16BIT.", "16BIT-N.")
  }

  /**
   * An input name always contains the renamed pattern, and the replacement
   * is longer than the pattern, so its output name is strictly longer; a
   * name without a separator gets an output name without one.
   */
  lemma OutputNameLonger(name: string, bit8: bool)
    requires IsInputName(name)
    ensures |OutputName(name, bit8)| > |name|
    ensures '/' !in name ==> '/' !in OutputName(name, bit8)
  {
    var pat: string := if bit8 then "16BIT" else "16BIT.";
    var rep: string := if bit8 then "8BIT-N" else "16BIT-N.";
    FindIsFirstOccurrence(name, InputMarker);
    var k := Find(name, InputMarker);
    OccursAtPrefix(name, InputMarker, k, |pat|);
    assert InputMarker[..|pat|] == pat;
    FindIsFirstOccurrence(name, pat);
    ReplaceAllGrows(name, pat, rep);
    if '/' !in name {
      ReplaceAllAvoids(name, pat, rep, '/');
    }
  }

  /**
   * The input paths and output paths, index-aligned: the i-th output belongs
   * to the i-th input.
   */
  function CurateFiles(inDir: string, outDir: string, names: seq<string>, bit8: bool)
    : (files: (seq<string>, seq<string>))
    ensures |files.0| == |files.1| == |SelectInputs(names)|
    ensures forall i :: 0 <= i < |files.0| ==>
      files.0[i] == JoinPath(inDir, SelectInputs(names)[i]) &&
      files.1[i] == JoinPath(outDir, OutputName(SelectInputs(names)[i], bit8))
  {
    var inputs := SelectInputs(names);
    var outputs := seq(|inputs|, i requires 0 <= i < |inputs| => OutputName(inputs[i], bit8));
    (seq(|inputs|, i requires 0 <= i < |inputs| => JoinPath(inDir, inputs[i])),
     seq(|outputs|, i requires 0 <= i < |outputs| => JoinPath(outDir, outputs[i])))
  }

  /**
   * For the entries of a directory listing (names without '/'): every input
   * path names a listed file with the marker, every such file has an input
   * path, and the i-th output path's file name is the renamed i-th input's.
   */
  lemma CuratedFilesMatchListing(inDir: string, outDir: string, names: seq<string>, bit8: bool)
    requires forall x :: x in names ==> '/' !in x
    ensures var files := CurateFiles(inDir, outDir, names, bit8);
      && (forall i :: 0 <= i < |files.0| ==>
            && Basename(files.0[i]) in names
            && IsInputName(Basename(files.0[i]))
            && Basename(files.1[i]) == OutputName(Basename(files.0[i]), bit8))
      && (forall x :: x in names && IsInputName(x) ==> JoinPath(inDir, x) in files.0)
  {
    var files := CurateFiles(inDir, outDir, names, bit8);
    var inputs := SelectInputs(names);
    forall i | 0 <= i < |files.0|
      ensures && Basename(files.0[i]) in names
              && IsInputName(Basename(files.0[i]))
              && Basename(files.1[i]) == OutputName(Basename(files.0[i]), bit8)
    {
      assert inputs[i] in inputs;
      BasenameOfJoin(inDir, inputs[i]);
      OutputNameLonger(inputs[i], bit8);
      BasenameOfJoin(outDir, OutputName(inputs[i], bit8));
    }
    forall x | x in names && IsInputName(x) ensures JoinPath(inDir, x) in files.0 {
      var i :| 0 <= i < |inputs| && inputs[i] == x;
      assert files.0[i] == JoinPath(inDir, x);
    }
  }

  /**
   * When the output directory is the input directory, no output path is the
   * path of the input it was made from: the renaming never overwrites its
   * source image.
   */
  lemma OutputNeverOverwritesInput(dir: string, names: seq<string>, bit8: bool)
    requires forall x :: x in names ==> '/' !in x
    ensures var files := CurateFiles(dir, dir, names, bit8);
      forall i :: 0 <= i < |files.0| ==> files.1[i] != files.0[i]
  {
    var files := CurateFiles(dir, dir, names, bit8);
    var inputs := SelectInputs(names);
    forall i | 0 <= i < |files.0| ensures files.1[i] != files.0[i] {
      assert inputs[i] in inputs;
      OutputNameLonger(inputs[i], bit8);
      JoinPathLength(dir, inputs[i]);
      JoinPathLength(dir, OutputName(inputs[i], bit8));
    }
  }

  /**
   * In a name that ends in the input marker, "16BIT" starts nowhere before
   * the marker when the stem does not contain it: an occurrence inside the
   * stem is excluded by the stem, and one straddling the boundary would put
   * the marker's leading '1' at a later place of "16BIT", where there is none.
   */
  lemma NoPatternBeforeMarker(stem: string, k: nat)
    requires Find(stem, "16BIT") == -1 && k < |stem|
    ensures !OccursAt(stem + InputMarker, "16BIT", k)
  {
    if k + 5 <= |stem| {
      NoOccurrenceInPrefix(stem, InputMarker, "16BIT", k);
    } else {
      NoPatternAcrossBoundary(stem, k);
    }
  }

  /** An occurrence across the boundary would need a second '1' in "16BIT". */
  lemma NoPatternAcrossBoundary(stem: string, k: nat)
    requires k < |stem| < k + 5
    ensures !OccursAt(stem + InputMarker, "16BIT", k)
  {
    var s, pat := stem + InputMarker, "16BIT";
    var j := |stem| - k;
    assert s[k..k + 5][j] == s[|stem|] == '1';
    assert pat[j] != '1';
  }

  /**
   * The renaming of a name that ends in the input marker and has no "16BIT"
   * before it: "<stem>16BIT.PNG" becomes "<stem>8BIT-N.PNG" in 8-bit mode
   * and "<stem>16BIT-N.PNG" otherwise.
   */
  lemma OutputNameOfMarkedStem(stem: string)
    requires Find(stem, "16BIT") == -1
    ensures OutputName(stem + InputMarker, true) == stem + "8BIT-N.PNG"
    ensures OutputName(stem + InputMarker, false) == stem + "16BIT-N.PNG"
  {
    MarkedStem8(stem);
    MarkedStem16(stem);
  }

  /** The 8-bit half of OutputNameOfMarkedStem. */
  lemma MarkedStem8(stem: string)
    requires Find(stem, "16BIT") == -1
    ensures ReplaceAll(stem + InputMarker, "16BIT", "8BIT-N") == stem + "8BIT-N.PNG"
  {
    var s, pat, rep: string := stem + InputMarker, "16BIT", "8BIT-N";
    var n := |stem|;
    assert s[n..n + |pat|] == pat;
    forall k: nat | k < n ensures !OccursAt(s, pat, k) {
      NoPatternBeforeMarker(stem, k);
    }
    FindAt(s, pat, n);
    ReplaceAllByFind(s, pat, rep, n);
    assert s[..n] == stem && s[n + |pat|..] == ".PNG";
    ReplaceAllShort(".PNG", pat, rep);
    assert stem + rep + ".PNG" == stem + "8BIT-N.PNG";
  }

  /** The 16-bit half of OutputNameOfMarkedStem. */
  lemma MarkedStem16(stem: string)
    requires Find(stem, "16BIT") == -1
    ensures ReplaceAll(stem + InputMarker, "16BIT.", "16BIT-N.") == stem + "16BIT-N.PNG"
  {
    var s, pat, rep: string := stem + InputMarker, "16BIT.", "16BIT-N.";
    var n := |stem|;
    assert s[n..n + |pat|] == pat;
    assert pat[..5] == "16BIT";
    forall k: nat | k < n ensures !OccursAt(s, pat, k) {
      NoPatternBeforeMarker(stem, k);
      if OccursAt(s, pat, k) {
        OccursAtPrefix(s, pat, k, 5);
      }
    }
    FindAt(s, pat, n);
    ReplaceAllByFind(s, pat, rep, n);
    assert s[..n] == stem && s[n + |pat|..] == "PNG";
    ReplaceAllShort("PNG", pat, rep);
    assert stem + rep + "PNG" == stem + "16BIT-N.PNG";
  }
}
