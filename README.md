# Face-recognition attendance: a Dafny model of its decision logic

The application is a small Flask service. It enrols students of a class with a
photo, then follows a webcam stream and records attendance for every face it
recognises. This project models the logic that runs between the web layer, the
camera and the face-recognition library:

- **Enrolment** (module `Enrolment`):
  - the upload-format check `allowed_file`;
  - the 9-digit student-number rule;
  - the uniqueness scan `is_unique_student_number` over the class folder;
  - the name an enrolled image is stored under, `number_first_last.ext`;
  - the registry label read back from that name with `os.path.splitext`;
  - the decision sequence of the `/capture` and `/pick` forms.
- **Attendance ledger** (module `Ledger`):
  - `Attendance_<class>.csv` is a class `AttendanceLedger` holding its lines;
  - `mark_attendance` appends `NAME,YYYY-MM-DD HH:MM:SS` when `NAME` is not yet the first field of a line;
  - `attendance_data` reads the lines back as (name, time) pairs;
  - the `strftime` timestamp is written out digit by digit.
- **Registry** (module `Registry`):
  - `find_encodings` keeps the first face encoding of each image that has one;
  - the listing loop of `gen_frames` keeps one label per folder entry;
  - the two lists stay aligned only when no image was skipped.
- **Matching** (module `Matching`):
  - the per-face decision takes `np.argmin` of the distances (the first index of the minimum);
  - it accepts that entry when the library's match flag is set and the distance is below 0.50, and answers "Unknown" otherwise;
  - the face box found on the quarter-size frame is scaled by 4.
- **Session** (module `Session`):
  - the `gen_frames` loops, over the faces of a frame and over the frames of the stream;
  - they record identified faces in the ledger and produce the box and text drawn for each face.

Python string operations are written out in module `Text`: `startswith`, `split(',')`, `strip()`, and `lower()`/`upper()`.

The face-recognition library is an oracle:
- for registry construction, its answer for each image is an input (`Some(encoding)` or `None`);
- for each face in the stream, its distances and match flags against the registry are inputs;
- the clock (`datetime.now()`) is a parameter, one reading per face.

On an empty registry, `np.argmin` of an empty sequence raises, which ends the generator at the first frame with a face. The model's `Decide` returns `NoRegistry`, `ProcessFrame` fails before anything is recorded, and `RunStream` stops.

A folder entry that `cv2.imread` cannot decode gives `None`; the `cvtColor` call in `find_encodings` then raises, and nothing catches it, so the generator dies before the camera is opened. The model's `Image.Unreadable` makes `FindEncodings` and `LoadClass` answer `None`, and `GenFrames` emits nothing and leaves the file unchanged.

## Model

| member | source | states |
|---|---|---|
| Enrolment.AllowedFile | app.py:32-33 | a filename is accepted exactly when it contains a '.' and the text after its last '.', lower-cased, is png, jpg or jpeg |
| Enrolment.ValidStudentNumber | app.py:51 | a student number is accepted exactly when it has 9 characters, each an ASCII digit |
| Enrolment.ImageName | app.py:73 | the stored name is the number, `_`, the first name, `_`, the last name and the extension, each at its place and nothing else (the length is the sum of the parts) |
| Enrolment.IsUniqueStudentNumber | app.py:26-30 | the result is true exactly when no listed filename starts with the number; an empty listing gives true |
| Enrolment.NumberPrefixOfImage | app.py:28 | for two 9-digit numbers, the prefix test matches an image stored under `n_first_last.ext` exactly when the numbers are equal |
| Enrolment.FolderUniqueness | app.py:26-30 | on a folder of enrolled images, the uniqueness check refuses a number exactly when someone is enrolled under it |
| Enrolment.Capture | app.py:41-78 | the checks run in source order and each error is reported exactly when the earlier checks pass and its own fails: missing field, then not 9 digits, then a file already starting with the number, then a failed camera read; it is saved exactly when all pass, as `number_first_last.jpg`; it never reports a bad file format |
| Enrolment.Pick | app.py:84-116 | the checks run in source order and each error is reported exactly when the earlier checks pass and its own fails: missing field or file, then not 9 digits, then a file name `allowed_file` refuses, then a file already starting with the number; it is saved exactly when all pass, under a name keeping the secured filename's extension; it never reports a camera failure |
| Enrolment.CaptureThenDuplicate | app.py:59-61 | after a capture is saved under names without '/', a second capture with the same number in that class is refused as a duplicate |
| Enrolment.SplitExt | app.py:109 | `os.path.splitext`: root and extension concatenate to the name; the extension is empty or one leading dot with no other; a non-empty extension has a non-dot character before it in the root; an empty extension means no dot of the name has a non-dot character before it |
| Enrolment.HasNonDotPrefix | app.py:109 | a prefix holding a non-dot character stays so when it grows: the leading-dots rule of `splitext` looks only at what precedes the dot |
| Enrolment.SplitExtJoin | app.py:109 | a root with a non-dot character and a proper extension split back into exactly those two parts |
| Enrolment.LabelOfImageName | app.py:73 | for an image stored with an extension, the label read back from its name is `number_first_last`, whatever dots the names contain |
| Ledger.Timestamp | app.py:147 | `%Y-%m-%d %H:%M:%S` gives 19 characters, no comma, starting and ending with a digit |
| Ledger.TimestampInjective | app.py:147 | different instants (to the second) give different timestamps |
| Ledger.RecordLine | app.py:148 | the written line is the name, one comma and the timestamp, in that order |
| Ledger.NameKey | app.py:144 | the first field of a line is comma-free, a prefix of the line as read with its terminator, and ends where a comma follows or the line ends |
| Ledger.Mark | app.py:144-148 | marking keeps every earlier line, adds at most one, and leaves the file as it was exactly when the name is already a first field |
| Ledger.NameKeyOfRecord | app.py:144 | the first field of the line written for a comma-free name is that name |
| Ledger.NameKeyOfCommaName | app.py:144 | a name containing a comma is never the first field of its own line |
| Ledger.AttendanceLedger.MarkAttendance | app.py:139-148 | a name already on record leaves the file unchanged; otherwise exactly the line `name,timestamp` is appended |
| Ledger.MarkRecords | app.py:144-148 | after marking, a comma-free name is a first field of the file |
| Ledger.MarkIdempotent | app.py:144-148 | marking a comma-free name twice is the same as marking it once: the first timestamp wins |
| Ledger.CommaNameAppendsAgain | app.py:144-148 | a name containing a comma is appended again on every call |
| Ledger.MarkKeepsDistinct | app.py:144-148 | marking a comma-free name keeps the first fields of all lines pairwise distinct |
| Ledger.MarkAllAppend | app.py:187 | marking two runs of sightings one after the other is marking their concatenation |
| Ledger.MarkAllExtends | app.py:187 | earlier lines survive any sequence of marks |
| Ledger.MarkAllKeys | app.py:144-148 | every first field on record after a run of comma-free sightings was on record before or belongs to a sighting |
| Ledger.MarkAllRecordsOnce | app.py:144-148 | after a run of comma-free sightings every sighted name is on record and first fields stay pairwise distinct |
| Ledger.MarkAllFirstWins | app.py:145-148 | a comma-free name new to the file is recorded with the time of its first sighting |
| Ledger.OnlyLineFor | app.py:144 | with distinct first fields, the line keyed by a comma-free name is the one written for it |
| Ledger.ParseLine | app.py:215 | a line parses exactly when its stripped form holds exactly one comma; the parse gives two comma-free fields that, joined by the comma, are the stripped line |
| Ledger.StripRecordLine | app.py:148 | `strip()` gives back the line written for a name that does not start with whitespace |
| Ledger.ParseCommaFreeLine | app.py:215 | a line of two comma-free fields around one comma, left alone by `strip()`, parses back to those two fields |
| Ledger.ParseRecordLine | app.py:148 | the line written for a comma-free name that does not start with whitespace parses back to exactly that name and timestamp |
| Ledger.AttendanceLedger.AttendanceData | app.py:208-217 | the file parses exactly when every line strips and splits into two fields; entry `i` is the parse of line `i` |
| Text.SplitCount | app.py:215 | `split(',')` yields one more field than the string has commas |
| Text.SplitJoin | app.py:215 | splitting the separator-join of separator-free fields gives back the fields |
| Text.JoinSplit | app.py:215 | joining the fields of a split gives back the string |
| Text.StripLine | app.py:215 | `strip()` of a line with its terminator, whose first and last characters are not whitespace, is the line |
| Registry.Encoded | app.py:128-137 | the kept encodings are never more than the images |
| Registry.SourceIndex | app.py:128-137 | kept encoding `i` is the encoding of an image at index `i` or later, exactly `i` encodings precede that image |
| Registry.EncodedAll | app.py:128-137 | every image contributes an encoding exactly when the detector found a face in each |
| Registry.EncodedGrows | app.py:128-137 | the encodings kept from a prefix of the images are a prefix of those kept from a longer one |
| Registry.EncodedKeeps | app.py:128-137 | every image with a face contributes its encoding, at the position given by the encodings kept before it |
| Registry.LabelAligned | app.py:158-164 | label `i` belongs to encoding `i` exactly when no image up to `i` was skipped; otherwise encoding `i` came from a later image |
| Registry.FindEncodings | app.py:128-137 | an unreadable image makes the whole call fail; otherwise the loop returns the kept encodings in image order, each the encoding of its source image |
| Registry.Labels | app.py:162 | one label per entry, and each label followed by the entry's extension is the entry's name |
| Registry.ListLabels | app.py:158-162 | one label per folder entry: the entry's name with its extension removed |
| Registry.LoadClass | app.py:155-164 | labels as above; the registry is built exactly when every entry decodes, and then has never more encodings than labels, equally many exactly when no image was skipped |
| Matching.ArgMin | app.py:183 | `np.argmin` returns an index of the sequence holding a value no larger than any other |
| Matching.ArgMinIsFirstMin | app.py:183 | `np.argmin` picks an index holding the minimum with every earlier value strictly larger |
| Matching.Decide | app.py:181-189 | an error exactly on an empty registry; an identified face is an entry whose flag is set and whose distance is below 0.50, named by its uppercased label |
| Matching.DecideCorrect | app.py:180-189 | an empty registry is an error; otherwise the face is identified, under the uppercased label, exactly when the first-minimum entry's flag is set and its distance is below 0.50, else Unknown |
| Matching.MatchFlagImplied | app.py:181-185 | when the flags are the library's `distance <= 0.6` test, a face is identified exactly when its smallest distance is below 0.50 |
| Matching.TieGoesToFirst | app.py:183 | of two equal distances, the later entry is never chosen |
| Matching.ScaleBox | app.py:191-192 | the rescaled box has its top-left corner and its height and width multiplied by 4 |
| Matching.ScaleBoxContains | app.py:174 | a point lies in a small-frame box exactly when its full-size image lies in the rescaled box |
| Matching.ScaleBoxFaithful | app.py:191-192 | rescaling keeps a box's orientation and maps different boxes to different boxes |
| Session.AnnotateAllAnnotated | app.py:191-195 | the drawing of a frame has one entry per face, in detection order: the face's box scaled by 4 and its decided name |
| Session.SightingsCommaFree | app.py:186 | comma-free labels give comma-free identified names |
| Session.StreamRecordsOnce | app.py:180-189 | after a whole stream over a well-formed file every identified person is on record once, and a person new to the file carries the time of their first identification |
| Session.ProcessFace | app.py:181-195 | one face against a non-empty registry: its drawing is its rescaled box and decided name, and the file is marked exactly when the face is identified, under its uppercased label and clock reading |
| Session.ProcessFaces | app.py:180-195 | over a frame that can be decided, the drawings are those of every face in order, and the file is the old one marked with every identification in order |
| Session.ProcessFrame | app.py:180-195 | with an empty registry a frame with faces fails and the file is unchanged; otherwise as for the whole face loop |
| Session.RunStream | app.py:169-202 | every emitted frame carries the drawings of its faces; with a registry all frames are processed and the file records every identification of the stream in order; without one the file is unchanged and the stream stops at the first frame with a face |
| Session.GenFrames | app.py:154-202 | a folder entry that does not decode ends the generator with nothing emitted and the file unchanged; otherwise the registry is built from the folder and the stream runs against the folder's labels: drawings and file as for the stream; with an empty registry the file is unchanged, frames without faces are still emitted, and the stream stops exactly at the first frame with a face |

## Left out

- Flask routing, templates, `flash`, `redirect`, and reading the request form: web plumbing. The forms' fields are parameters of `Capture` and `Pick`.
- `secure_filename`: its result is the `secured` parameter of `Pick`.
- The camera (`cv2.VideoCapture`), `imread`, `imwrite`, `resize`, `cvtColor` and `imencode`: image I/O on pixels the model does not hold. What the model keeps of them is whether the camera read succeeded, which frames were delivered, and whether each folder entry decoded (an undecodable one ends `gen_frames`, see `GenFrames`).
- The multipart JPEG framing of the stream: byte formatting of images the model does not hold.
- The face-recognition library (`face_locations`, `face_encodings`, `compare_faces`, `face_distance`): floating-point vector maths in a foreign library. Its outputs are inputs of the model.
- `cv2.rectangle` and `cv2.putText`: drawing. The model states the box and the text they are given, not the filled label band under the box.
- `datetime.now()`: the clock is a `DateTime` parameter.
- Enrolment.Pick, Enrolment.Capture, Enrolment.CaptureThenDuplicate: the image write is assumed to store the file under `imageName` in the class folder. A first or last name containing '/' (or a name too long for the file system) points the path elsewhere: `file.save` then raises and the upload request fails, while `cv2.imwrite` fails silently and the success message still shows, so the folder never gains the name. `CaptureThenDuplicate` therefore requires names without '/', and the too-long case is not modelled.
- Enrolment.LabelOfImageName: proved only for an image stored with an extension. An upload whose secured name has no `splitext` extension (for example `.png` or `照片.jpg`, which `secure_filename` turns into `png` and `jpg`) is stored as `number_first_last` with no extension, and when the last name holds a dot, its label loses what follows that dot.
- Ledger.NameKey, Ledger.Mark, Ledger.NameKeyOfRecord, Ledger.MarkIdempotent, Ledger.MarkKeepsDistinct, Ledger.ParseRecordLine, Session.StreamRecordsOnce: a line break ('\n' or '\r') inside a name is not modelled. Such a name would be split into several lines when the file is read back, so it would be appended again on every call and `attendance_data` would fail. The last line of an existing file is assumed to end in "\n", as every line the application writes does.
- Enrolment.Capture, Session.GenFrames: the class folder itself. `os.makedirs` creates it before the uniqueness check, so a capture that then fails at the camera read still leaves an empty class behind, which `gen_frames` tracks with an empty registry; and `os.listdir` raises for a class that has no folder. The `listing` parameter stands for the folder's contents and expresses neither.
- Ledger.Timestamp: years are restricted to 1000-9999, where `%Y` is four digits.
- The real file I/O of `mark_attendance` and `attendance_data`. A missing attendance file reads as an empty ledger, and each line is held without its "\n" terminator.
- Two streams appending to the same CSV concurrently: the source has no locking, and the model is a single sequential ledger.
- `while True` over the camera: modelled as the finite sequence of frames read before the camera stops.
- `export_attendance` (pandas, FPDF, Excel), the e-mail sending, `manage_classes`, `add_class_member`, `select_class` and the browser script: export formatting, network and UI with no decision logic.
- `lower()`, `upper()` and `isdigit()` act on ASCII only; `strip()` uses Python's full whitespace set.
- NaN distances: the distances are exact reals, so `np.argmin`'s handling of NaN is not modelled.
