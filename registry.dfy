/** The reference registry built at the start of a video stream: one label
    per entry of the class folder (its name without extension), and one
    encoding per image in which the detector finds a face (its first face);
    images without a face are skipped.  An entry `cv2.imread` cannot decode
    makes the colour conversion raise, which nothing catches: the registry
    is never built.  The image reader and the detector are oracles: what
    they yield for each entry is an input. */
module Registry {
  import opened Text
  import opened Enrolment

  /** A face encoding, as produced by the recognition library. */
  type Embedding = seq<real>

  /** A folder entry as `cv2.imread` reads it: not decodable (`None`), or a
      picture together with the detector's first face encoding, if any. */
  datatype Image = Unreadable | Picture(face: Option<Embedding>)

  predicate AllReadable(images: seq<Image>) {
    forall i :: 0 <= i < |images| ==> images[i].Picture?
  }

  /** The detector's answer for each image of a fully readable folder. */
  function Detections(images: seq<Image>): (detections: seq<Option<Embedding>>)
    requires AllReadable(images)
    ensures |detections| == |images|
    ensures forall i :: 0 <= i < |images| ==> detections[i] == images[i].face
  {
    seq(|images|, i requires 0 <= i < |images| => images[i].face)
  }

  /** The encodings `find_encodings` keeps, in image order. */
  function Encoded(detections: seq<Option<Embedding>>): (encodings: seq<Embedding>)
    ensures |encodings| <= |detections|
  {
    if detections == [] then []
    else
      var kept := Encoded(detections[..|detections| - 1]);
      match detections[|detections| - 1]
      case None => kept
      case Some(e) => kept + [e]
  }

  /** The index of the image the `i`-th kept encoding was taken from. */
  function SourceIndex(detections: seq<Option<Embedding>>, i: nat): (s: nat)
    requires i < |Encoded(detections)|
    ensures i <= s < |detections| && detections[s].Some?
    ensures Encoded(detections)[i] == detections[s].value
    ensures |Encoded(detections[..s])| == i
  {
    var n := |detections| - 1;
    var init := detections[..n];
    if detections[n].Some? && i == |Encoded(init)| then
      assert detections[..n] == init;
      n
    else
      var s := SourceIndex(init, i);
      assert init[..s] == detections[..s];
      s
  }

  /** Every image kept exactly when no image was skipped. */
  lemma {:induction false} EncodedAll(detections: seq<Option<Embedding>>)
    ensures |Encoded(detections)| == |detections| <==> forall j :: 0 <= j < |detections| ==> detections[j].Some?
  {
    if detections != [] {
      var n := |detections| - 1;
      EncodedAll(detections[..n]);
      if detections[n].None? {
        assert |Encoded(detections)| < |detections|;
      } else if |Encoded(detections)| == |detections| {
        forall j | 0 <= j < |detections| ensures detections[j].Some? {
          if j < n { assert detections[..n][j] == detections[j]; }
        }
      }
    }
  }

  /** Kept encodings only accumulate along a longer prefix of the images:
      what a prefix keeps is a prefix of what a longer one keeps. */
  lemma {:induction false} EncodedGrows(detections: seq<Option<Embedding>>, a: nat, b: nat)
    requires a <= b <= |detections|
    ensures Encoded(detections[..a]) <= Encoded(detections[..b])
    ensures |Encoded(detections[..a])| <= |Encoded(detections[..b])|
    decreases b - a
  {
    if a < b {
      EncodedGrows(detections, a, b - 1);
      assert detections[..b][..b - 1] == detections[..b - 1];
    }
  }

  /** Every image in which the detector found a face contributes its
      encoding, right after those of the images before it. */
  lemma EncodedKeeps(detections: seq<Option<Embedding>>, j: nat)
    requires j < |detections| && detections[j].Some?
    ensures |Encoded(detections[..j])| < |Encoded(detections)|
    ensures Encoded(detections)[|Encoded(detections[..j])|] == detections[j].value
  {
    EncodedGrows(detections, j + 1, |detections|);
    assert detections[..j + 1][..j] == detections[..j];
    assert Encoded(detections[..j + 1]) == Encoded(detections[..j]) + [detections[j].value];
    assert detections[..|detections|] == detections;
  }

  /** The label list pairs encoding `i` with the label of entry `i`; that entry
      is the image the encoding came from exactly when no image up to and
      including `i` was skipped.  Otherwise the encoding came from a later image. */
  lemma LabelAligned(detections: seq<Option<Embedding>>, i: nat)
    requires i < |Encoded(detections)|
    ensures SourceIndex(detections, i) == i <==> forall j :: 0 <= j <= i ==> detections[j].Some?
    ensures SourceIndex(detections, i) != i ==> SourceIndex(detections, i) > i
  {
    var s := SourceIndex(detections, i);
    if s == i {
      EncodedAll(detections[..i]);
      forall j | 0 <= j <= i ensures detections[j].Some? {
        if j < i { assert detections[..i][j] == detections[j]; }
      }
    } else if forall j :: 0 <= j <= i ==> detections[j].Some? {
      var prefix := detections[..i + 1];
      assert forall j :: 0 <= j < |prefix| ==> prefix[j].Some?;
      EncodedAll(prefix);
      EncodedGrows(detections, i + 1, s);
      assert false;
    }
  }

  /** `find_encodings`: append the first face's encoding of each image that
      has one; an unreadable image raises and no list is returned. */
  method FindEncodings(images: seq<Image>) returns (encodeList: Option<seq<Embedding>>)
    ensures encodeList.Some? <==> AllReadable(images)
    ensures encodeList.Some? ==> encodeList.value == Encoded(Detections(images))
    ensures encodeList.Some? ==> forall i :: 0 <= i < |encodeList.value| ==>
      encodeList.value[i] == images[SourceIndex(Detections(images), i)].face.value
  {
    var kept: seq<Embedding> := [];
    var k := 0;
    while k < |images|
      invariant 0 <= k <= |images|
      invariant AllReadable(images[..k])
      invariant kept == Encoded(Detections(images[..k]))
    {
      if images[k].Unreadable? {
        assert !AllReadable(images) by {
          assert !images[k].Picture?;
        }
        return None;
      }
      var prefix := images[..k + 1];
      assert prefix[..k] == images[..k];
      assert AllReadable(prefix);
      assert Detections(prefix)[..k] == Detections(images[..k]);
      if images[k].face.Some? {
        kept := kept + [images[k].face.value];
      }
      k := k + 1;
    }
    assert images[..k] == images;
    return Some(kept);
  }

  /** The label of every folder entry: its name without the extension. */
  function Labels(listing: seq<string>): (labels: seq<string>)
    ensures |labels| == |listing|
    ensures forall i :: 0 <= i < |listing| ==> labels[i] + SplitExt(listing[i]).1 == listing[i]
  {
    seq(|listing|, i requires 0 <= i < |listing| => SplitExt(listing[i]).0)
  }

  /** The listing loop of `gen_frames`: one label per folder entry, the entry's
      name without its extension. */
  method ListLabels(listing: seq<string>) returns (classNames: seq<string>)
    ensures |classNames| == |listing|
    ensures forall i :: 0 <= i < |listing| ==> classNames[i] + SplitExt(listing[i]).1 == listing[i]
    ensures classNames == Labels(listing)
  {
    classNames := [];
    for k := 0 to |listing|
      invariant |classNames| == k
      invariant forall i :: 0 <= i < k ==> classNames[i] == SplitExt(listing[i]).0
    {
      classNames := classNames + [SplitExt(listing[k]).0];
    }
  }

  /** The registry of a class folder: labels for every entry, encodings for
      the images with a face.  `images[i]` is what is read from `listing[i]`.
      There are never more encodings than labels, so the label looked up for
      any encoding index exists.  An unreadable entry leaves no registry. */
  method LoadClass(listing: seq<string>, images: seq<Image>)
    returns (classNames: seq<string>, encodeListKnown: Option<seq<Embedding>>)
    requires |images| == |listing|
    ensures classNames == Labels(listing)
    ensures encodeListKnown.Some? <==> AllReadable(images)
    ensures encodeListKnown.Some? ==>
      && encodeListKnown.value == Encoded(Detections(images))
      && |encodeListKnown.value| <= |classNames|
      && (|encodeListKnown.value| == |classNames| <==> forall j :: 0 <= j < |images| ==> images[j].face.Some?)
  {
    classNames := ListLabels(listing);
    encodeListKnown := FindEncodings(images);
    if encodeListKnown.Some? {
      EncodedAll(Detections(images));
    }
  }
}
