/** The per-face decision inside the video loop: the nearest registry entry
    (first index of the smallest distance, as `np.argmin` picks it) is
    accepted when the library's match flag for it is set and its distance is
    below 0.50; otherwise the face is "Unknown".  Distances and flags are the
    recognition library's outputs, taken as inputs.  Also the mapping of a
    face box found on the quarter-size frame back to the full frame. */
module Matching {
  import opened Text

  /** The acceptance threshold on the face distance. */
  const Threshold: real := 0.50

  /** The default tolerance of the library's `compare_faces`. */
  const LibraryTolerance: real := 0.6

  /** `k` holds the smallest value of `s`, and no earlier index does. */
  predicate IsFirstMin(s: seq<real>, k: int) {
    0 <= k < |s|
    && (forall j :: 0 <= j < |s| ==> s[k] <= s[j])
    && (forall j :: 0 <= j < k ==> s[k] < s[j])
  }

  /** `np.argmin`: scan for the smallest value, keeping the earlier index on ties. */
  function ArgMin(s: seq<real>): (k: nat)
    requires |s| > 0
    ensures k < |s|
    ensures forall j :: 0 <= j < |s| ==> s[k] <= s[j]
  {
    if |s| == 1 then 0
    else
      var k := ArgMin(s[..|s| - 1]);
      if s[|s| - 1] < s[k] then |s| - 1 else k
  }

  /** `np.argmin` returns the first index of the minimum. */
  lemma {:induction false} ArgMinIsFirstMin(s: seq<real>)
    requires |s| > 0
    ensures IsFirstMin(s, ArgMin(s))
  {
    if |s| > 1 {
      var init := s[..|s| - 1];
      ArgMinIsFirstMin(init);
      var k := ArgMin(init);
      assert forall j :: 0 <= j < |init| ==> s[j] == init[j];
    }
  }

  datatype MatchResult =
    | NoRegistry                            // `np.argmin` of an empty sequence raises
    | Unknown
    | Identified(index: nat, name: string)  // `classNames[matchIndex].upper()`

  /** The body of the `for encodeFace, faceLoc` loop in `gen_frames`, for one
      face: an error exactly on an empty registry, and an identification
      only of an entry with the smallest distance, its flag set and its
      distance below the threshold. */
  function Decide(faceDis: seq<real>, matches: seq<bool>, classNames: seq<string>): (r: MatchResult)
    requires |matches| == |faceDis| <= |classNames|
    ensures r.NoRegistry? <==> faceDis == []
    ensures r.Identified? ==>
      r.index < |faceDis| && matches[r.index] && faceDis[r.index] < Threshold
      && r.name == Upper(classNames[r.index])
  {
    if faceDis == [] then NoRegistry
    else
      var matchIndex := ArgMin(faceDis);
      if matches[matchIndex] && faceDis[matchIndex] < Threshold then
        Identified(matchIndex, Upper(classNames[matchIndex]))
      else Unknown
  }

  /** The decision in terms of the nearest entry: an error exactly on an
      empty registry; otherwise the entry holding the first smallest
      distance is identified, under its uppercased label, exactly when its
      match flag is set and its distance is below 0.50, and the face is
      Unknown in every other case. */
  lemma DecideCorrect(faceDis: seq<real>, matches: seq<bool>, classNames: seq<string>)
    requires |matches| == |faceDis| <= |classNames|
    ensures var r := Decide(faceDis, matches, classNames);
      && (r.NoRegistry? <==> faceDis == [])
      && (r.Identified? ==>
            IsFirstMin(faceDis, r.index) && matches[r.index] && faceDis[r.index] < Threshold
            && r.name == Upper(classNames[r.index]))
      && (r.Unknown? <==>
            faceDis != [] && forall k :: IsFirstMin(faceDis, k) ==> !(matches[k] && faceDis[k] < Threshold))
  {
    if faceDis != [] {
      var m := ArgMin(faceDis);
      ArgMinIsFirstMin(faceDis);
      forall k | IsFirstMin(faceDis, k) ensures k == m {
      }
    }
  }

  /** The text drawn under a face box. */
  function DisplayName(r: MatchResult): string {
    if r.Identified? then r.name else "Unknown"
  }

  /** When the flags are the library's own `distance <= 0.6` test on the same
      distances, the flag never changes the decision: a face is identified
      exactly when its smallest distance is below 0.50. */
  lemma MatchFlagImplied(faceDis: seq<real>, matches: seq<bool>, classNames: seq<string>)
    requires |matches| == |faceDis| <= |classNames| && faceDis != []
    requires forall i :: 0 <= i < |faceDis| ==> matches[i] == (faceDis[i] <= LibraryTolerance)
    ensures Decide(faceDis, matches, classNames).Identified? <==> faceDis[ArgMin(faceDis)] < Threshold
  {
    var k := ArgMin(faceDis);
    assert faceDis[k] < Threshold ==> matches[k];
  }

  /** Ties go to the earlier registry entry. */
  lemma TieGoesToFirst(faceDis: seq<real>, i: nat, j: nat)
    requires i < j < |faceDis| && faceDis[i] == faceDis[j]
    ensures ArgMin(faceDis) != j
  {
    ArgMinIsFirstMin(faceDis);
  }

  /** A face box as `face_locations` reports it: (top, right, bottom, left). */
  datatype Box = Box(top: int, right: int, bottom: int, left: int)

  /** The detector ran on a frame resized by 0.25 in each direction. */
  const Downsample: int := 4

  /** Undo the downsampling: every coordinate times four, so the box keeps
      its corner in proportion and grows four times in height and width. */
  function ScaleBox(b: Box): (r: Box)
    ensures r.bottom - r.top == Downsample * (b.bottom - b.top)
    ensures r.right - r.left == Downsample * (b.right - b.left)
    ensures r.top == Downsample * b.top && r.left == Downsample * b.left
  {
    Box(b.top * Downsample, b.right * Downsample, b.bottom * Downsample, b.left * Downsample)
  }

  predicate Contains(b: Box, y: int, x: int) {
    b.top <= y <= b.bottom && b.left <= x <= b.right
  }

  /** A pixel lies in a box of the small frame exactly when its full-size
      image lies in the rescaled box. */
  lemma ScaleBoxContains(b: Box, y: int, x: int)
    ensures Contains(ScaleBox(b), Downsample * y, Downsample * x) <==> Contains(b, y, x)
  {
  }

  /** Rescaling keeps the orientation of a box and loses nothing: different
      boxes stay different. */
  lemma ScaleBoxFaithful(b: Box, c: Box)
    ensures (b.top <= b.bottom && b.left <= b.right) <==>
            (ScaleBox(b).top <= ScaleBox(b).bottom && ScaleBox(b).left <= ScaleBox(b).right)
    ensures ScaleBox(b) == ScaleBox(c) ==> b == c
  {
  }
}
