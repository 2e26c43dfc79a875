/** Enrolment of a student into a class folder: the upload-format check,
    the student-number rule, the uniqueness check over the folder listing,
    the stored image's name and the registry label read back from it, and
    the decisions of the two enrolment forms (webcam capture and upload). */
module Enrolment {
  import opened Text

  const AllowedExtensions: set<string> := {"png", "jpg", "jpeg"}

  /** `allowed_file`: the text after the last '.', lower-cased, is an allowed
      extension.  Equivalently: some '.' is followed by a dot-free suffix that
      is png, jpg or jpeg in any ASCII case. */
  predicate AllowedFile(filename: string)
    ensures AllowedFile(filename) <==>
      exists i :: 0 <= i < |filename| && filename[i] == '.' && '.' !in filename[i + 1..]
                  && Lower(filename[i + 1..]) in AllowedExtensions
  {
    match LastIndex(filename, '.')
    case None => false
    case Some(i) => Lower(filename[i + 1..]) in AllowedExtensions
  }

  /** `str.isdigit()` on ASCII: non-empty and every character a digit. */
  predicate IsDigits(s: string) {
    s != [] && forall i :: 0 <= i < |s| ==> IsAsciiDigit(s[i])
  }

  /** A student number is a 9-character string of digits. */
  predicate ValidStudentNumber(s: string)
    ensures ValidStudentNumber(s) <==> |s| == 9 && forall i :: 0 <= i < |s| ==> s[i] in "0123456789"
  {
    IsDigits(s) && |s| == 9
  }

  /** No file of the listing starts with the number. */
  predicate NumberUnused(listing: seq<string>, number: string) {
    forall i :: 0 <= i < |listing| ==> !IsPrefix(number, listing[i])
  }

  /** `is_unique_student_number`: scan the folder listing, stop at the first
      file whose name starts with the number. */
  method IsUniqueStudentNumber(listing: seq<string>, number: string) returns (unique: bool)
    ensures unique <==> NumberUnused(listing, number)
    ensures listing == [] ==> unique
  {
    var k := 0;
    while k < |listing|
      invariant 0 <= k <= |listing|
      invariant NumberUnused(listing[..k], number)
    {
      if |number| <= |listing[k]| && listing[k][..|number|] == number {
        return false;
      }
      k := k + 1;
    }
    assert listing[..k] == listing;
    return true;
  }

  /** `"{number}_{first}_{last}{ext}"`: the name an enrolled image is stored under. */
  function ImageName(number: string, first: string, last: string, ext: string): (name: string)
    ensures |name| == |number| + |first| + |last| + |ext| + 2
    ensures IsPrefix(number, name)
    ensures name[|number|] == '_' && name[|number| + 1..|number| + 1 + |first|] == first
    ensures name[|number| + 1 + |first|] == '_' && name[|number| + 2 + |first|..|name| - |ext|] == last
    ensures name[|name| - |ext|..] == ext
  {
    number + "_" + first + "_" + last + ext
  }

  /** A non-empty extension as `os.path.splitext` returns it: one leading dot, no other. */
  predicate IsExtension(ext: string) {
    ext != [] && ext[0] == '.' && '.' !in ext[1..]
  }

  predicate HasNonDot(s: string) {
    exists k :: 0 <= k < |s| && s[k] != '.'
  }

  /** A character other than '.' in a prefix is one in every longer prefix. */
  lemma HasNonDotPrefix(p: string, j: nat, i: nat)
    requires j <= i <= |p|
    ensures HasNonDot(p[..j]) ==> HasNonDot(p[..i])
  {
    if HasNonDot(p[..j]) {
      var k :| 0 <= k < j && p[..j][k] != '.';
      assert p[..i][k] == p[k];
    }
  }

  /** `os.path.splitext` on a name without directory separators: the
      extension starts at the last '.', unless only dots precede it; with
      no extension, no '.' of the name has a non-dot character before it. */
  function SplitExt(p: string): (r: (string, string))
    ensures r.0 + r.1 == p
    ensures r.1 == "" || IsExtension(r.1)
    ensures r.1 != "" ==> HasNonDot(r.0)
    ensures r.1 == "" ==> forall i :: 0 <= i < |p| && p[i] == '.' ==> !HasNonDot(p[..i])
  {
    match LastIndex(p, '.')
    case None => (p, "")
    case Some(i) =>
      if HasNonDot(p[..i]) then
        assert p[i..][1..] == p[i + 1..];
        (p[..i], p[i..])
      else
        assert forall j :: 0 <= j < |p| && p[j] == '.' ==> !HasNonDot(p[..j]) by {
          forall j | 0 <= j < |p| && p[j] == '.' ensures !HasNonDot(p[..j]) {
            HasNonDotPrefix(p, j, i);
          }
        }
        (p, "")
  }

  /** Splitting a root that has a non-dot character from a proper extension
      gives back the two parts. */
  lemma SplitExtJoin(root: string, ext: string)
    requires HasNonDot(root) && IsExtension(ext)
    ensures SplitExt(root + ext) == (root, ext)
  {
    var p := root + ext;
    var j := LastIndex(p, '.').value;
    assert p[|root|] == '.';
    assert p[..j] == root;
  }

  /** The registry label of an enrolled image is `number_first_last`,
      whatever dots the names contain. */
  lemma LabelOfImageName(number: string, first: string, last: string, ext: string)
    requires ValidStudentNumber(number) && IsExtension(ext)
    ensures SplitExt(ImageName(number, first, last, ext)).0 == number + "_" + first + "_" + last
  {
    var root := number + "_" + first + "_" + last;
    assert root[0] == number[0] && IsAsciiDigit(root[0]);
    SplitExtJoin(root, ext);
  }

  /** Among 9-digit numbers, the prefix test of `is_unique_student_number`
      matches an enrolled image exactly when the numbers are equal. */
  lemma NumberPrefixOfImage(n: string, m: string, first: string, last: string, ext: string)
    requires ValidStudentNumber(n) && ValidStudentNumber(m)
    ensures IsPrefix(m, ImageName(n, first, last, ext)) <==> m == n
  {
    assert ImageName(n, first, last, ext)[..9] == n;
  }

  datatype Enrollee = Enrollee(number: string, first: string, last: string, ext: string)

  function Files(people: seq<Enrollee>): (files: seq<string>)
    ensures |files| == |people|
  {
    seq(|people|, i requires 0 <= i < |people| =>
      ImageName(people[i].number, people[i].first, people[i].last, people[i].ext))
  }

  /** On a folder holding only enrolled images, the uniqueness check
      rejects a number exactly when someone is enrolled under it. */
  lemma FolderUniqueness(people: seq<Enrollee>, m: string)
    requires forall i :: 0 <= i < |people| ==> ValidStudentNumber(people[i].number)
    requires ValidStudentNumber(m)
    ensures NumberUnused(Files(people), m) <==> forall i :: 0 <= i < |people| ==> people[i].number != m
  {
    forall i | 0 <= i < |people|
      ensures IsPrefix(m, Files(people)[i]) <==> people[i].number == m
    {
      NumberPrefixOfImage(people[i].number, m, people[i].first, people[i].last, people[i].ext);
    }
  }

  datatype EnrolError =
    | MissingField             // 'All fields are required'
    | InvalidStudentNumber     // 'Student number must be a 9-digit numerical value'
    | InvalidFile              // 'Invalid file format or no file selected'
    | DuplicateStudentNumber   // 'Student number ... already exists in class ...'
    | CaptureFailed            // 'Failed to capture image'

  datatype Outcome = Saved(imageName: string) | Rejected(error: EnrolError)

  /** `all([...])` over form fields: every one is a non-empty string. */
  predicate Filled(fields: seq<string>) {
    forall i :: 0 <= i < |fields| ==> fields[i] != ""
  }

  /** The `/capture` form: `listing` is the class folder's contents (empty
      when the folder is new), `captured` whether the webcam read succeeded.
      `className` is the submitted class name after `upper()`, which keeps
      its length.  The checks run in order and the first that fails decides
      the message. */
  function Capture(first: string, last: string, number: string, className: string,
                   listing: seq<string>, captured: bool): (r: Outcome)
    ensures r == Rejected(MissingField) <==> !Filled([first, last, number, className])
    ensures r == Rejected(InvalidStudentNumber) <==>
      Filled([first, last, number, className]) && !ValidStudentNumber(number)
    ensures r == Rejected(DuplicateStudentNumber) <==>
      Filled([first, last, number, className]) && ValidStudentNumber(number) && !NumberUnused(listing, number)
    ensures r == Rejected(CaptureFailed) <==>
      Filled([first, last, number, className]) && ValidStudentNumber(number) && NumberUnused(listing, number)
      && !captured
    ensures r.Saved? <==>
      Filled([first, last, number, className]) && ValidStudentNumber(number) && NumberUnused(listing, number)
      && captured
    ensures r.Saved? ==> r.imageName == ImageName(number, first, last, ".jpg")
    ensures r != Rejected(InvalidFile)
  {
    if !Filled([first, last, number, className]) then Rejected(MissingField)
    else if !ValidStudentNumber(number) then Rejected(InvalidStudentNumber)
    else if !NumberUnused(listing, number) then Rejected(DuplicateStudentNumber)
    else if !captured then Rejected(CaptureFailed)
    else Saved(ImageName(number, first, last, ".jpg"))
  }

  /** The `/pick` upload form: `filename` is the uploaded file's name (empty
      when none was chosen, which makes the upload falsy), `secured` that
      name after `secure_filename`.  The checks run in order and the first
      that fails decides the message. */
  function Pick(first: string, last: string, number: string, className: string,
                filename: string, secured: string, listing: seq<string>): (r: Outcome)
    ensures r == Rejected(MissingField) <==> !Filled([first, last, number, className, filename])
    ensures r == Rejected(InvalidStudentNumber) <==>
      Filled([first, last, number, className, filename]) && !ValidStudentNumber(number)
    ensures r == Rejected(InvalidFile) <==>
      Filled([first, last, number, className, filename]) && ValidStudentNumber(number) && !AllowedFile(filename)
    ensures r == Rejected(DuplicateStudentNumber) <==>
      Filled([first, last, number, className, filename]) && ValidStudentNumber(number) && AllowedFile(filename)
      && !NumberUnused(listing, number)
    ensures r.Saved? <==>
      Filled([first, last, number, className, filename]) && ValidStudentNumber(number) && AllowedFile(filename)
      && NumberUnused(listing, number)
    ensures r.Saved? ==> r.imageName == ImageName(number, first, last, SplitExt(secured).1)
    ensures r != Rejected(CaptureFailed)
  {
    if !Filled([first, last, number, className, filename]) then Rejected(MissingField)
    else if !ValidStudentNumber(number) then Rejected(InvalidStudentNumber)
    else if !AllowedFile(filename) then Rejected(InvalidFile)
    else if !NumberUnused(listing, number) then Rejected(DuplicateStudentNumber)
    else Saved(ImageName(number, first, last, SplitExt(secured).1))
  }

  /** Once a capture is saved, the same number is refused in that class.
      A '/' in a name would point the stored path into a folder that does
      not exist, so the image would never join the class folder. */
  lemma CaptureThenDuplicate(first: string, last: string, number: string, className: string,
                             listing: seq<string>, first': string, last': string)
    requires Capture(first, last, number, className, listing, true).Saved?
    requires '/' !in first && '/' !in last
    requires first' != "" && last' != ""
    ensures Capture(first', last', number, className,
                    listing + [Capture(first, last, number, className, listing, true).imageName], true)
            == Rejected(DuplicateStudentNumber)
  {
    var name := ImageName(number, first, last, ".jpg");
    var listing' := listing + [name];
    var fields := [first, last, number, className];
    assert fields[2] != "" && fields[3] != "";
    var fields' := [first', last', number, className];
    assert Filled(fields') by {
      forall i | 0 <= i < 4 ensures fields'[i] != "" {
        if i >= 2 { assert fields'[i] == fields[i]; }
      }
    }
    assert name[..|number|] == number;
    assert !NumberUnused(listing', number) by {
      assert listing'[|listing|] == name;
    }
  }
}
