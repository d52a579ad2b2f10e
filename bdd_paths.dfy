/**
  Derivation of a frame's sibling paths from its drivable-area mask path:
  the detection label (.json), the camera image (.jpg) and the lane mask.
  Each is a textual substitution on the mask path with Python's
  `str.replace`, which rewrites every occurrence and not only the first.
 */
module BddPaths {
  import opened PyStr

  /** The dataset's root directories, as strings. */
  datatype Roots = Roots(maskRoot: string, labelRoot: string, imgRoot: string, laneRoot: string)

  /** The detection-label path: mask root to label root, then ".png" to ".json". */
  function LabelPath(mask: string, roots: Roots): (r: string)
    ensures roots.maskRoot != [] && !Contains(mask, roots.maskRoot) && !Contains(mask, ".png") ==> r == mask
  {
    ReplaceWhenAbsent(mask, roots.maskRoot, roots.labelRoot);
    ReplaceWhenAbsent(mask, ".png", ".json");
    Replace(Replace(mask, roots.maskRoot, roots.labelRoot), ".png", ".json")
  }

  /** The image path: mask root to image root, then ".png" to ".jpg". */
  function ImagePath(mask: string, roots: Roots): (r: string)
    ensures roots.maskRoot != [] && !Contains(mask, roots.maskRoot) && !Contains(mask, ".png") ==> r == mask
  {
    ReplaceWhenAbsent(mask, roots.maskRoot, roots.imgRoot);
    ReplaceWhenAbsent(mask, ".png", ".jpg");
    Replace(Replace(mask, roots.maskRoot, roots.imgRoot), ".png", ".jpg")
  }

  /** The lane-mask path: mask root to lane root; the extension is kept. */
  function LanePath(mask: string, roots: Roots): (r: string)
    ensures roots.laneRoot == roots.maskRoot ==> r == mask
    ensures roots.maskRoot != [] && !Contains(mask, roots.maskRoot) ==> r == mask
  {
    ReplaceWithItself(mask, roots.maskRoot);
    ReplaceWhenAbsent(mask, roots.maskRoot, roots.laneRoot);
    Replace(mask, roots.maskRoot, roots.laneRoot)
  }

  lemma PngUnbordered()
    ensures Unbordered(".png")
  {
    forall t | 0 < t < |".png"|
      ensures ".png"[t..] != ".png"[..|".png"| - t]
    {
      assert ".png"[..|".png"| - t][0] == '.';
      assert ".png"[t..][0] != '.';
    }
  }

  /** A mask path that starts with the mask root, and holds it nowhere else,
      has that leading root swapped for `newRoot`. */
  lemma SwapLeadingRoot(root: string, rest: string, newRoot: string)
    requires root != [] && !Contains(rest, root)
    ensures Replace(root + rest, root, newRoot) == newRoot + rest
  {
    var s := root + rest;
    assert s[..|root|] == root && s[|root|..] == rest;
    assert OccursAt(s, root, 0);
    ReplaceWhenAbsent(rest, root, newRoot);
  }

  /** The derived paths split the mask path at every occurrence of each
      pattern, not just the first. */
  lemma DerivedPathsReplaceEveryOccurrence(mask: string, roots: Roots)
    requires roots.maskRoot != []
    ensures LabelPath(mask, roots)
         == Join(Split(Join(Split(mask, roots.maskRoot), roots.labelRoot), ".png"), ".json")
    ensures ImagePath(mask, roots)
         == Join(Split(Join(Split(mask, roots.maskRoot), roots.imgRoot), ".png"), ".jpg")
    ensures LanePath(mask, roots) == Join(Split(mask, roots.maskRoot), roots.laneRoot)
  {
    ReplaceIsJoinOfSplit(mask, roots.maskRoot, roots.labelRoot);
    ReplaceIsJoinOfSplit(Replace(mask, roots.maskRoot, roots.labelRoot), ".png", ".json");
    ReplaceIsJoinOfSplit(mask, roots.maskRoot, roots.imgRoot);
    ReplaceIsJoinOfSplit(Replace(mask, roots.maskRoot, roots.imgRoot), ".png", ".jpg");
    ReplaceIsJoinOfSplit(mask, roots.maskRoot, roots.laneRoot);
  }

  /** The usual layout `<mask root><stem>.png`, with neither pattern anywhere
      else, maps to `<label root><stem>.json`, `<image root><stem>.jpg` and
      `<lane root><stem>.png`. */
  lemma PathsOfRegularMask(roots: Roots, stem: string)
    requires roots.maskRoot != [] && !Contains(stem + ".png", roots.maskRoot)
    requires !Contains(roots.labelRoot + stem, ".png")
    requires !Contains(roots.imgRoot + stem, ".png")
    ensures LabelPath(roots.maskRoot + stem + ".png", roots) == roots.labelRoot + stem + ".json"
    ensures ImagePath(roots.maskRoot + stem + ".png", roots) == roots.imgRoot + stem + ".jpg"
    ensures LanePath(roots.maskRoot + stem + ".png", roots) == roots.laneRoot + stem + ".png"
  {
    var mask := roots.maskRoot + stem + ".png";
    assert mask == roots.maskRoot + (stem + ".png");
    PngUnbordered();
    SwapLeadingRoot(roots.maskRoot, stem + ".png", roots.labelRoot);
    assert roots.labelRoot + (stem + ".png") == (roots.labelRoot + stem) + ".png";
    ReplaceAtEnd(roots.labelRoot + stem, ".png", ".json");
    SwapLeadingRoot(roots.maskRoot, stem + ".png", roots.imgRoot);
    assert roots.imgRoot + (stem + ".png") == (roots.imgRoot + stem) + ".png";
    ReplaceAtEnd(roots.imgRoot + stem, ".png", ".jpg");
    SwapLeadingRoot(roots.maskRoot, stem + ".png", roots.laneRoot);
  }
}
