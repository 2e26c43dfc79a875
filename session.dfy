/** `gen_frames`: build the registry of a class folder, then for every frame
    the camera delivers, decide each detected face, record identified ones
    in the class's attendance file and annotate the frame.  The camera is
    the finite sequence of frames it delivers before a read fails; for each
    face the recognition library's distances and match flags against the
    registry are given, together with the clock reading `datetime.now()`
    would return if the face is recorded. */
module Session {
  import opened Text
  import opened Ledger
  import opened Registry
  import opened Matching

  /** A face found in the quarter-size frame, with the library's outputs for it. */
  datatype Face = Face(location: Box, faceDis: seq<real>, matches: seq<bool>)

  /** One frame read from the camera; `clock[i]` is the time face `i` would be stamped with. */
  datatype Frame = Frame(faces: seq<Face>, clock: seq<DateTime>)

  /** A rectangle and the text drawn on the full-size frame. */
  datatype Annotation = Annotation(box: Box, text: string)

  /** Every face was compared with all `known` registry encodings. */
  predicate FacesFit(faces: seq<Face>, known: nat) {
    forall i :: 0 <= i < |faces| ==> |faces[i].faceDis| == known && |faces[i].matches| == known
  }

  predicate FramesFit(frames: seq<Frame>, known: nat) {
    forall k :: 0 <= k < |frames| ==> FacesFit(frames[k].faces, known) && |frames[k].clock| == |frames[k].faces|
  }

  function Annotate(face: Face, classNames: seq<string>): Annotation
    requires |face.matches| == |face.faceDis| <= |classNames|
  {
    Annotation(ScaleBox(face.location), DisplayName(Decide(face.faceDis, face.matches, classNames)))
  }

  /** One annotation per face, in detection order. */
  predicate Annotated(annotations: seq<Annotation>, faces: seq<Face>, classNames: seq<string>) {
    && |annotations| == |faces|
    && forall i :: 0 <= i < |faces| ==>
         |faces[i].matches| == |faces[i].faceDis| <= |classNames| && annotations[i] == Annotate(faces[i], classNames)
  }

  /** The box and text drawn for each face of a frame, in detection order. */
  function AnnotateAll(faces: seq<Face>, classNames: seq<string>): seq<Annotation>
    requires forall i :: 0 <= i < |faces| ==> |faces[i].matches| == |faces[i].faceDis| <= |classNames|
  {
    if faces == [] then []
    else AnnotateAll(faces[..|faces| - 1], classNames) + [Annotate(faces[|faces| - 1], classNames)]
  }

  /** `AnnotateAll` draws, for each face, its rescaled box and its decided name. */
  lemma {:induction false} AnnotateAllAnnotated(faces: seq<Face>, classNames: seq<string>)
    requires forall i :: 0 <= i < |faces| ==> |faces[i].matches| == |faces[i].faceDis| <= |classNames|
    ensures Annotated(AnnotateAll(faces, classNames), faces, classNames)
  {
    if faces != [] {
      var n := |faces| - 1;
      var init := faces[..n];
      AnnotateAllAnnotated(init, classNames);
      var all := AnnotateAll(faces, classNames);
      assert all == AnnotateAll(init, classNames) + [Annotate(faces[n], classNames)];
      forall i | 0 <= i < |faces| ensures all[i] == Annotate(faces[i], classNames) {
        if i < n {
          assert faces[i] == init[i];
        }
      }
    }
  }

  /** What one face adds to the attendance file: its identification, if
      any, stamped `at`. */
  function Sighted(face: Face, classNames: seq<string>, at: DateTime): seq<Sighting>
    requires |face.matches| == |face.faceDis| <= |classNames|
  {
    var r := Decide(face.faceDis, face.matches, classNames);
    if r.Identified? then [Sighting(r.name, at)] else []
  }

  /** The identifications among the first `n` faces of a frame, in order,
      each with its clock reading. */
  function Sightings(frame: Frame, classNames: seq<string>, known: nat, n: nat): seq<Sighting>
    requires known <= |classNames| && FacesFit(frame.faces, known) && |frame.clock| == |frame.faces|
    requires n <= |frame.faces|
  {
    if n == 0 then []
    else Sightings(frame, classNames, known, n - 1) + Sighted(frame.faces[n - 1], classNames, frame.clock[n - 1])
  }

  /** The identifications of the first `n` frames of a stream, frame after frame. */
  function StreamSightings(frames: seq<Frame>, classNames: seq<string>, known: nat, n: nat): seq<Sighting>
    requires known <= |classNames| && FramesFit(frames, known) && n <= |frames|
  {
    if n == 0 then []
    else
      StreamSightings(frames, classNames, known, n - 1)
        + Sightings(frames[n - 1], classNames, known, |frames[n - 1].faces|)
  }

  lemma UpperCommaFree(s: string)
    requires ',' !in s
    ensures ',' !in Upper(s)
  {
    forall i | 0 <= i < |s| ensures Upper(s)[i] != ',' {
      assert s[i] != ',';
    }
  }

  /** Labels without commas give identifications without commas. */
  lemma {:induction false} SightingsCommaFree(frame: Frame, classNames: seq<string>, known: nat, n: nat)
    requires known <= |classNames| && FacesFit(frame.faces, known) && |frame.clock| == |frame.faces|
    requires n <= |frame.faces|
    requires forall j :: 0 <= j < |classNames| ==> ',' !in classNames[j]
    ensures CommaFreeNames(Sightings(frame, classNames, known, n))
  {
    if n > 0 {
      SightingsCommaFree(frame, classNames, known, n - 1);
      var face := frame.faces[n - 1];
      var r := Decide(face.faceDis, face.matches, classNames);
      if r.Identified? {
        UpperCommaFree(classNames[r.index]);
      }
    }
  }

  lemma {:induction false} StreamSightingsCommaFree(frames: seq<Frame>, classNames: seq<string>, known: nat, n: nat)
    requires known <= |classNames| && FramesFit(frames, known) && n <= |frames|
    requires forall j :: 0 <= j < |classNames| ==> ',' !in classNames[j]
    ensures CommaFreeNames(StreamSightings(frames, classNames, known, n))
  {
    if n > 0 {
      StreamSightingsCommaFree(frames, classNames, known, n - 1);
      SightingsCommaFree(frames[n - 1], classNames, known, |frames[n - 1].faces|);
    }
  }

  /** With comma-free labels and a well-formed file, a whole stream leaves one
      line per person: everyone identified is on record, no first field
      repeats, and a person new to the file is stamped with the time of
      their first identification. */
  lemma StreamRecordsOnce(lines: seq<string>, frames: seq<Frame>, classNames: seq<string>, known: nat, k: nat)
    requires known <= |classNames| && FramesFit(frames, known)
    requires forall j :: 0 <= j < |classNames| ==> ',' !in classNames[j]
    requires DistinctKeys(lines)
    requires k < |StreamSightings(frames, classNames, known, |frames|)|
    ensures var s := StreamSightings(frames, classNames, known, |frames|);
      && DistinctKeys(MarkAll(lines, s))
      && s[k].name in NameList(MarkAll(lines, s))
      && (s[k].name !in NameList(lines) && (forall j :: 0 <= j < k ==> s[j].name != s[k].name)
          ==> RecordLine(s[k].name, Timestamp(s[k].at)) in MarkAll(lines, s))
  {
    var s := StreamSightings(frames, classNames, known, |frames|);
    StreamSightingsCommaFree(frames, classNames, known, |frames|);
    MarkAllRecordsOnce(lines, s);
    if s[k].name !in NameList(lines) && (forall j :: 0 <= j < k ==> s[j].name != s[k].name) {
      MarkAllFirstWins(lines, s, k);
    }
  }

  /** One pass of the face loop against a registry that is not empty:
      decide the face, record an identification in the file, and produce
      the box and text drawn for it. */
  method ProcessFace(ledger: AttendanceLedger, classNames: seq<string>, face: Face, at: DateTime)
    returns (annotation: Annotation, sighted: seq<Sighting>)
    requires |face.matches| == |face.faceDis| <= |classNames| && face.faceDis != []
    modifies ledger
    ensures annotation == Annotate(face, classNames)
    ensures sighted == Sighted(face, classNames, at)
    ensures ledger.lines == MarkAll(old(ledger.lines), sighted)
  {
    var r := Decide(face.faceDis, face.matches, classNames);
    sighted := [];
    if r.Identified? {
      ledger.MarkAttendance(r.name, at);
      sighted := [Sighting(r.name, at)];
      assert sighted[..0] == [];
    }
    annotation := Annotation(ScaleBox(face.location), DisplayName(r));
  }

  /** The `for encodeFace, faceLoc in zip(...)` loop over one frame's faces,
      when every face can be decided. */
  method ProcessFaces(ledger: AttendanceLedger, classNames: seq<string>, known: nat, frame: Frame)
    returns (annotations: seq<Annotation>)
    requires known <= |classNames| && FacesFit(frame.faces, known) && |frame.clock| == |frame.faces|
    requires known > 0 || frame.faces == []
    modifies ledger
    ensures annotations == AnnotateAll(frame.faces, classNames)
    ensures ledger.lines == MarkAll(old(ledger.lines), Sightings(frame, classNames, known, |frame.faces|))
  {
    annotations := [];
    ghost var seen: seq<Sighting> := [];
    for i := 0 to |frame.faces|
      invariant annotations == AnnotateAll(frame.faces[..i], classNames)
      invariant seen == Sightings(frame, classNames, known, i)
      invariant ledger.lines == MarkAll(old(ledger.lines), seen)
    {
      var face := frame.faces[i];
      var annotation, now := ProcessFace(ledger, classNames, face, frame.clock[i]);
      MarkAllAppend(old(ledger.lines), seen, now);
      seen := seen + now;
      annotations := annotations + [annotation];
      assert frame.faces[..i + 1][..i] == frame.faces[..i];
    }
    assert frame.faces[..|frame.faces|] == frame.faces;
  }

  /** One frame of the stream.  With an empty registry the first face makes
      `np.argmin` raise before anything is drawn or recorded: the frame
      fails.  A frame without faces never reaches it. */
  method ProcessFrame(ledger: AttendanceLedger, classNames: seq<string>, known: nat, frame: Frame)
    returns (annotations: seq<Annotation>, failed: bool)
    requires known <= |classNames| && FacesFit(frame.faces, known) && |frame.clock| == |frame.faces|
    modifies ledger
    ensures failed <==> known == 0 && frame.faces != []
    ensures failed ==> ledger.lines == old(ledger.lines)
    ensures !failed ==> annotations == AnnotateAll(frame.faces, classNames)
    ensures !failed ==>
      ledger.lines == MarkAll(old(ledger.lines), Sightings(frame, classNames, known, |frame.faces|))
  {
    if known == 0 && frame.faces != [] {
      return [], true;
    }
    annotations := ProcessFaces(ledger, classNames, known, frame);
    failed := false;
  }

  /** The `while True` loop over camera frames: every frame is processed and
      its annotations emitted, until the camera stops or a frame fails. */
  method RunStream(ledger: AttendanceLedger, classNames: seq<string>, known: nat, frames: seq<Frame>)
    returns (emitted: seq<seq<Annotation>>)
    requires known <= |classNames| && FramesFit(frames, known)
    modifies ledger
    ensures |emitted| <= |frames|
    ensures forall k :: 0 <= k < |emitted| ==> emitted[k] == AnnotateAll(frames[k].faces, classNames)
    ensures known > 0 ==>
      |emitted| == |frames| && ledger.lines == MarkAll(old(ledger.lines), StreamSightings(frames, classNames, known, |frames|))
    ensures known == 0 ==>
      ledger.lines == old(ledger.lines) && (forall k :: 0 <= k < |emitted| ==> frames[k].faces == [])
      && (|emitted| < |frames| ==> frames[|emitted|].faces != [])
  {
    emitted := [];
    ghost var seen: seq<Sighting> := [];
    var n := 0;
    while n < |frames|
      invariant 0 <= n <= |frames| && |emitted| == n
      invariant forall k :: 0 <= k < n ==> emitted[k] == AnnotateAll(frames[k].faces, classNames)
      invariant seen == StreamSightings(frames, classNames, known, n)
      invariant known > 0 ==> ledger.lines == MarkAll(old(ledger.lines), seen)
      invariant known == 0 ==> ledger.lines == old(ledger.lines) && forall k :: 0 <= k < n ==> frames[k].faces == []
    {
      var annotations, failed := ProcessFrame(ledger, classNames, known, frames[n]);
      if failed {
        return;
      }
      ghost var now := Sightings(frames[n], classNames, known, |frames[n].faces|);
      if known > 0 {
        MarkAllAppend(old(ledger.lines), seen, now);
      }
      seen := seen + now;
      ghost var before := emitted;
      emitted := emitted + [annotations];
      forall k | 0 <= k <= n ensures emitted[k] == AnnotateAll(frames[k].faces, classNames) {
        if k < n {
          assert emitted[k] == before[k];
        }
      }
      n := n + 1;
    }
  }

  /** `gen_frames(class_name)`: the registry from the folder `listing`
      (`images[i]` is what is read from `listing[i]`), then the stream.  Every
      face's distances are against the registry's encodings.  An unreadable
      entry makes `find_encodings` raise before the camera is opened: nothing
      is emitted and nothing recorded. */
  method GenFrames(ledger: AttendanceLedger, listing: seq<string>, images: seq<Image>, frames: seq<Frame>)
    returns (emitted: seq<seq<Annotation>>)
    requires |images| == |listing|
    requires AllReadable(images) ==> FramesFit(frames, |Encoded(Detections(images))|)
    modifies ledger
    ensures |emitted| <= |frames|
    ensures !AllReadable(images) ==> emitted == [] && ledger.lines == old(ledger.lines)
    ensures AllReadable(images) ==>
      forall k :: 0 <= k < |emitted| ==> emitted[k] == AnnotateAll(frames[k].faces, Labels(listing))
    ensures AllReadable(images) && |Encoded(Detections(images))| > 0 ==>
      |emitted| == |frames|
      && ledger.lines
         == MarkAll(old(ledger.lines), StreamSightings(frames, Labels(listing), |Encoded(Detections(images))|, |frames|))
    ensures AllReadable(images) && |Encoded(Detections(images))| == 0 ==>
      ledger.lines == old(ledger.lines) && (forall k :: 0 <= k < |emitted| ==> frames[k].faces == [])
      && (|emitted| < |frames| ==> frames[|emitted|].faces != [])
  {
    var classNames, encodeListKnown := LoadClass(listing, images);
    if encodeListKnown.None? {
      return [];
    }
    emitted := RunStream(ledger, classNames, |encodeListKnown.value|, frames);
  }
}
