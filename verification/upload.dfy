/** The accept/reject decision of upload_file (app.py lines 116-147),
    lifted out of the HTTP handler as a pure function of the form fields. */
module Upload {
  import opened Wrappers
  import CharClasses
  import Engine
  import Generator

  /** The hard ceiling on the maximum candidate length. */
  const LengthCeiling: int := 8
  const DefaultMinLength: int := 1
  const DefaultMaxLength: int := 4
  /** The class names used when no box is ticked. */
  const DefaultClasses: seq<string> := ["numeric", "lowercase"]

  /** The parts of the request the handler reads: the uploaded file's name
      (None when there is no 'file' part), the two length fields already
      parsed as integers (None when absent), and the four class flags. */
  datatype Form = Form(
    fileName: Option<string>,
    minLength: Option<int>,
    maxLength: Option<int>,
    numeric: bool,
    lowercase: bool,
    uppercase: bool,
    special: bool)

  datatype Rejection = NoFileUploaded | NoFileSelected | NotZip | InvalidLength | LengthTooLarge

  /** An accepted request carries what the search is started with. */
  datatype Verdict =
    | Accepted(fileName: string, minLength: nat, maxLength: nat, classes: seq<string>)
    | Rejected(why: Rejection)

  function LowerAscii(c: char): char {
    if 'A' <= c <= 'Z' then (c as int + 32) as char else c
  }

  function Lower(s: string): (t: string)
    ensures |t| == |s|
    ensures forall i :: 0 <= i < |s| ==> t[i] == LowerAscii(s[i])
  {
    seq(|s|, i requires 0 <= i < |s| => LowerAscii(s[i]))
  }

  /** filename.lower().endswith('.zip') */
  predicate IsZipName(name: string) {
    |name| >= 4 && Lower(name)[|name| - 4 ..] == ".zip"
  }

  function MinOf(f: Form): int {
    match f.minLength
    case Some(n) => n
    case None => DefaultMinLength
  }

  function MaxOf(f: Form): int {
    match f.maxLength
    case Some(n) => n
    case None => DefaultMaxLength
  }

  /** The class names in the order the handler appends them. */
  function Ticked(f: Form): seq<string> {
    (if f.numeric then ["numeric"] else [])
    + (if f.lowercase then ["lowercase"] else [])
    + (if f.uppercase then ["uppercase"] else [])
    + (if f.special then ["special"] else [])
  }

  /** Whether the request asks for the class called name, the default
      applying when nothing is ticked. */
  predicate Requests(f: Form, name: string) {
    if !(f.numeric || f.lowercase || f.uppercase || f.special) then
      name == "numeric" || name == "lowercase"
    else
      (name == "numeric" && f.numeric) || (name == "lowercase" && f.lowercase)
      || (name == "uppercase" && f.uppercase) || (name == "special" && f.special)
  }

  /** The checks of upload_file, in its order. A request is accepted
      exactly when it names a non-empty file ending in .zip in any case and
      its lengths satisfy 1 <= min <= max <= 8; each rejection names the
      first check that failed. An accepted request asks for exactly the
      ticked classes, or numeric and lower case when none is ticked. */
  function Validate(f: Form): (v: Verdict)
    ensures v.Accepted? <==>
              f.fileName.Some? && f.fileName.value != "" && IsZipName(f.fileName.value)
              && 1 <= MinOf(f) <= MaxOf(f) <= LengthCeiling
    ensures v == Rejected(NoFileUploaded) <==> f.fileName.None?
    ensures v == Rejected(NoFileSelected) <==> f.fileName == Some("")
    ensures v == Rejected(NotZip) <==>
              f.fileName.Some? && f.fileName.value != "" && !IsZipName(f.fileName.value)
    ensures v == Rejected(InvalidLength) <==>
              f.fileName.Some? && f.fileName.value != "" && IsZipName(f.fileName.value)
              && (MinOf(f) < 1 || MaxOf(f) < MinOf(f))
    ensures v == Rejected(LengthTooLarge) <==>
              f.fileName.Some? && f.fileName.value != "" && IsZipName(f.fileName.value)
              && 1 <= MinOf(f) <= MaxOf(f) && MaxOf(f) > LengthCeiling
    ensures v.Accepted? ==>
              && v.fileName == f.fileName.value
              && v.minLength == MinOf(f) && v.maxLength == MaxOf(f)
              && |v.classes| > 0
              && (forall name :: name in v.classes <==> Requests(f, name))
              && (forall i, j :: 0 <= i < j < |v.classes| ==> v.classes[i] != v.classes[j])
  {
    match f.fileName
    case None => Rejected(NoFileUploaded)
    case Some(name) =>
      if name == "" then Rejected(NoFileSelected)
      else if !IsZipName(name) then Rejected(NotZip)
      else
        var classes := if Ticked(f) == [] then DefaultClasses else Ticked(f);
        if MinOf(f) < 1 || MaxOf(f) < MinOf(f) then Rejected(InvalidLength)
        else if MaxOf(f) > LengthCeiling then Rejected(LengthTooLarge)
        else Accepted(name, MinOf(f), MaxOf(f), classes)
  }

  /** The extension test ignores case: a name passes exactly when it ends
      in a dot followed by z, i and p, each in either case. */
  lemma ZipNameIgnoresCase(name: string)
    ensures IsZipName(name) <==>
              |name| >= 4 && name[|name| - 4] == '.'
              && name[|name| - 3] in {'z', 'Z'}
              && name[|name| - 2] in {'i', 'I'}
              && name[|name| - 1] in {'p', 'P'}
  {
    if |name| >= 4 {
      var t := Lower(name)[|name| - 4 ..];
      assert t == [LowerAscii(name[|name| - 4]), LowerAscii(name[|name| - 3]),
                   LowerAscii(name[|name| - 2]), LowerAscii(name[|name| - 1])];
    }
  }

  /** An accepted request is one the engine can run as written: the length
      range is 1 <= min <= max <= 8, at least one known class name is
      present, so the alphabet holds exactly the requested classes, and the
      progress estimate is positive, so the division-by-zero error of an
      empty class list cannot arise through the upload. */
  lemma AcceptedIsSearchable(f: Form)
    requires Validate(f).Accepted?
    ensures var v := Validate(f);
            && 1 <= v.minLength <= v.maxLength <= LengthCeiling
            && !CharClasses.NoneSelected(v.classes)
            && Engine.Estimate(|v.classes|, v.minLength, v.maxLength) > 0
  {
    var v := Validate(f);
    assert v.classes[0] in v.classes;
    PowPositive(|v.classes|, v.minLength);
  }

  /** The upload's default request as written: a ZIP name with no length
      fields and no box ticked searches lengths 1..4 over numeric and
      lower case, and its first running snapshot (100 failures) already
      reads 99; with the intended estimate it reads 0.01. */
  lemma DefaultUploadSaturates(name: string)
    requires IsZipName(name)
    ensures var v := Validate(Form(Some(name), None, None, false, false, false, false));
            && v.Accepted? && v.minLength == 1 && v.maxLength == 4 && |v.classes| == 2
            && var r := Engine.Crack(Engine.Opened(["secret.txt"]), Engine.AllWrong, 1, 4, v.classes);
               |r.reports| > 0 && r.reports[0] == Engine.Snapshot(99.0, Engine.Running, Some(100), None, None)
    ensures var v := Validate(Form(Some(name), None, None, false, false, false, false));
            && v.Accepted?
            && var r := Engine.CrackIntended(Engine.Opened(["secret.txt"]), Engine.AllWrong, 1, 4, v.classes);
               |r.reports| > 0 && r.reports[0] == Engine.Snapshot(0.01, Engine.Running, Some(100), None, None)
  {
    var v := Validate(Form(Some(name), None, None, false, false, false, false));
    assert v.classes == DefaultClasses;
    Engine.AsWrittenProgressSaturates();
  }

  lemma {:induction false} PowPositive(b: nat, e: nat)
    requires b > 0
    ensures Generator.Pow(b, e) > 0
    decreases e
  {
    if e > 0 {
      PowPositive(b, e - 1);
    }
  }
}
