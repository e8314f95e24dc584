/** The upload configuration of the backend (backend/multer.js): the file
    filter that decides whether a profile picture is accepted, the name under
    which an accepted file is stored, and the two run in the order multer runs
    them. The callbacks of the source become functions returning a decision. */
module Upload {
  import opened Wrappers
  import opened JsString
  import opened NodePath

  /** The declared MIME types the filter lets through; compared exactly. */
  const AllowedTypes: seq<string> := ["image/png", "image/jpg", "image/jpeg"]

  /** The extensions the filter lets through, after lower-casing. */
  const AllowedExtensions: seq<string> := [".jpg", ".jpeg", ".png"]

  /** `limits.fileSize`: 2 MiB. Multer enforces it while streaming the file;
      that enforcement is not part of this model. */
  const MaxFileSize: nat := 2 * 1024 * 1024

  /** The largest value of `Math.round(Math.random() * 1E9)`. */
  const MaxRandom: nat := 1_000_000_000

  /** The two reasons the filter gives for refusing a file. */
  datatype Rejection = UnsupportedMediaType | UnsupportedExtension

  /** The message of the error handed to multer's callback. */
  function ErrorMessage(reason: Rejection): string {
    match reason
    case UnsupportedMediaType => "Invalid File Type: Only images are allowed"
    case UnsupportedExtension => "Invalid File Type: Only .png, .jpg, and .jpeg are allowed"
  }

  /** The two error messages differ, so the message tells the reason. */
  lemma ErrorMessageIdentifiesReason(a: Rejection, b: Rejection)
    ensures ErrorMessage(a) == ErrorMessage(b) <==> a == b
  {
    if a != b {
      assert |ErrorMessage(a)| != |ErrorMessage(b)|;
    }
  }

  /** `cb(null, true)` or `cb(new Error(ErrorMessage(reason)), false)`. */
  datatype Decision = Accepted | Rejected(reason: Rejection)

  /** `fileFilter`: the MIME type is checked first and alone decides a
      rejection; the extension, lower-cased, is checked only after it. */
  function FileFilter(mimetype: string, originalname: string): (d: Decision)
    ensures mimetype !in AllowedTypes ==> d == Rejected(UnsupportedMediaType)
    ensures d == Accepted <==>
      mimetype in AllowedTypes && ToLowerCase(Extname(originalname)) in AllowedExtensions
  {
    if mimetype in AllowedTypes then
      if ToLowerCase(Extname(originalname)) in AllowedExtensions then Accepted
      else Rejected(UnsupportedExtension)
    else
      Rejected(UnsupportedMediaType)
  }

  /** Each allowed extension has the shape `extname` can return and a
      letter after its '.'. */
  lemma AllowedExtensionsAreExtensions(e: string)
    requires e in AllowedExtensions
    ensures IsExtension(e) && |e| >= 2
  {
  }

  /** An independent reading of the extension rule: the file name's last
      segment, lower-cased, ends in one of the allowed extensions with at least
      one character in front of it. */
  predicate HasImageExtension(name: string) {
    exists e :: e in AllowedExtensions && EndsAfterStem(ToLowerCase(Basename(name)), e)
  }

  lemma LowerExtnameIs(name: string, e: string)
    requires IsExtension(e) && |e| >= 2
    ensures ToLowerCase(Extname(name)) == e <==> EndsAfterStem(ToLowerCase(Basename(name)), e)
  {
    ExtnameToLower(name);
    BasenameToLower(name);
    ExtnameAsSuffix(ToLowerCase(name), e);
  }

  lemma LowerExtensionAllowedIff(name: string)
    ensures ToLowerCase(Extname(name)) in AllowedExtensions <==> HasImageExtension(name)
  {
    var x := ToLowerCase(Extname(name));
    if x in AllowedExtensions {
      AllowedExtensionsAreExtensions(x);
      LowerExtnameIs(name, x);
    }
    if HasImageExtension(name) {
      var e :| e in AllowedExtensions && EndsAfterStem(ToLowerCase(Basename(name)), e);
      AllowedExtensionsAreExtensions(e);
      LowerExtnameIs(name, e);
    }
  }

  /** A file is accepted exactly when its MIME type is one of the three image
      types and its name carries an image extension in any letter case. */
  lemma FileFilterAcceptsIff(mimetype: string, originalname: string)
    ensures FileFilter(mimetype, originalname) == Accepted <==>
      mimetype in AllowedTypes && HasImageExtension(originalname)
  {
    LowerExtensionAllowedIff(originalname);
  }

  /** With an allowed MIME type, a name without an image extension is refused
      for its extension. */
  lemma FileFilterRejectsExtension(mimetype: string, originalname: string)
    requires mimetype in AllowedTypes && !HasImageExtension(originalname)
    ensures FileFilter(mimetype, originalname) == Rejected(UnsupportedExtension)
  {
    LowerExtensionAllowedIff(originalname);
  }

  /** The decision does not depend on the letter case of the file name. */
  lemma FileFilterIgnoresNameCase(mimetype: string, name1: string, name2: string)
    requires ToLowerCase(name1) == ToLowerCase(name2)
    ensures FileFilter(mimetype, name1) == FileFilter(mimetype, name2)
  {
    ExtnameToLower(name1);
    ExtnameToLower(name2);
  }

  /** The MIME comparison is exact: an upper-case spelling is refused, and
      for the MIME reason whatever the name. */
  lemma FileFilterMimeIsCaseSensitive(originalname: string)
    ensures FileFilter("IMAGE/PNG", originalname) == Rejected(UnsupportedMediaType)
  {
  }

  /** An allowed image type with a name such as `photo.PNG` is accepted: the
      extension is compared in lower case. */
  lemma FileFilterAcceptsUpperCaseExtension(mimetype: string, stem: string)
    requires mimetype in AllowedTypes
    requires stem != [] && '.' !in stem && '/' !in stem
    ensures FileFilter(mimetype, stem + ".PNG") == Accepted
  {
    assert ToLowerCase(".PNG") == ".png" by {
      var l := ToLowerCase(".PNG");
      assert l[0] == '.' && l[1] == 'p' && l[2] == 'n' && l[3] == 'g';
    }
    FileFilterByExtension(mimetype, stem, ".PNG");
  }

  /** An allowed image type with a name such as `malware.exe` is refused for
      its extension. */
  lemma FileFilterRejectsExecutable(mimetype: string, stem: string)
    requires mimetype in AllowedTypes
    requires stem != [] && '.' !in stem && '/' !in stem
    ensures FileFilter(mimetype, stem + ".exe") == Rejected(UnsupportedExtension)
  {
    assert ToLowerCase(".exe") == ".exe" by {
      LowerCaseUnchanged(".exe");
    }
    assert ".exe" !in AllowedExtensions by {
      assert ".exe"[1] != ".jpg"[1] && ".exe"[1] != ".png"[1] && |".exe"| != |".jpeg"|;
    }
    FileFilterByExtension(mimetype, stem, ".exe");
  }

  /** With an allowed image type, a '.'- and '/'-free stem followed by an
      extension is judged by that extension alone. */
  lemma FileFilterByExtension(mimetype: string, stem: string, e: string)
    requires mimetype in AllowedTypes
    requires stem != [] && '.' !in stem && '/' !in stem && IsExtension(e)
    ensures FileFilter(mimetype, stem + e) ==
      if ToLowerCase(e) in AllowedExtensions then Accepted else Rejected(UnsupportedExtension)
  {
    ExtnameOfStemAndExtension(stem, e);
  }

  // ---------------------------------------------------------------------
  // The storage name

  /** The `filename` callback: `<timestamp>-<random><extname(originalname)>`.
      The name stays inside the upload directory, keeps the original
      extension in its original letter case, and has that same extension. */
  function Filename(timestamp: nat, random: nat, originalname: string): (name: string)
    requires random <= MaxRandom
    ensures '/' !in name
    ensures EndsAfterStem(name, Extname(originalname))
    ensures Extname(name) == Extname(originalname)
  {
    var stem := NumberToString(timestamp) + "-" + NumberToString(random);
    StoredNameFacts(stem, NumberToString(timestamp), NumberToString(random), Extname(originalname));
    stem + Extname(originalname)
  }

  lemma StoredNameFacts(stem: string, ts: string, rs: string, e: string)
    requires AllDigits(ts) && AllDigits(rs) && ts != [] && stem == ts + "-" + rs
    requires IsExtension(e)
    ensures '/' !in stem + e
    ensures EndsAfterStem(stem + e, e)
    ensures Extname(stem + e) == e
  {
    DigitsHaveNoSeparator(ts);
    DigitsHaveNoSeparator(rs);
    assert '.' !in stem && '/' !in stem;
    ExtnameOfStemAndExtension(stem, e);
    assert (stem + e)[|stem + e| - |e|..] == e;
  }

  /** The length of the run of decimal digits at the start of `s`. */
  function DigitRun(s: string): (j: nat)
    ensures j <= |s| && AllDigits(s[..j])
    ensures j < |s| ==> !IsDigit(s[j])
  {
    if s != [] && IsDigit(s[0]) then
      var j := 1 + DigitRun(s[1..]);
      assert s[..j] == [s[0]] + s[1..][..j - 1];
      j
    else 0
  }

  lemma {:induction false} DigitRunOfDigitsThen(d: string, e: string)
    requires AllDigits(d) && (e == [] || !IsDigit(e[0]))
    ensures DigitRun(d + e) == |d|
  {
    if d == [] {
      assert d + e == e;
    } else {
      assert (d + e)[1..] == d[1..] + e;
      assert IsDigit(d[0]);
      DigitRunOfDigitsThen(d[1..], e);
    }
  }

  /** The parts a stored name is made of. */
  datatype StoredName = StoredName(timestamp: nat, random: nat, extension: string)

  /** Reads a stored name back: the digits before the first '-', the run of
      digits after it, and what follows that run. */
  function ParseFilename(name: string): Option<StoredName> {
    match IndexOf(name, '-')
    case None => None
    case Some(i) => ParseParts(name[..i], name[i + 1..])
  }

  /** The parts on either side of the first '-'. */
  function ParseParts(stamp: string, rest: string): Option<StoredName> {
    var j := DigitRun(rest);
    if stamp == [] || !AllDigits(stamp) || j == 0 then None
    else Some(StoredName(DecimalValue(stamp), DecimalValue(rest[..j]), rest[j..]))
  }

  /** A name built from two digit runs and an extension that does not start
      with a digit parses back into those parts. */
  lemma ParseFilenameOfParts(ts: string, rs: string, e: string)
    requires ts != [] && AllDigits(ts) && rs != [] && AllDigits(rs)
    requires e == [] || !IsDigit(e[0])
    ensures ParseFilename(ts + "-" + rs + e) == Some(StoredName(DecimalValue(ts), DecimalValue(rs), e))
  {
    var rest := rs + e;
    ParseFilenameSplitsAtDash(ts, rest);
    assert ParseParts(ts, rest) == Some(StoredName(DecimalValue(ts), DecimalValue(rs), e)) by {
      DigitRunOfDigitsThen(rs, e);
      assert rest[..|rs|] == rs && rest[|rs|..] == e;
    }
    assert ts + "-" + rs + e == ts + "-" + rest;
  }

  /** The first '-' of a name that starts with digits and a '-' is that one. */
  lemma ParseFilenameSplitsAtDash(ts: string, rest: string)
    requires AllDigits(ts)
    ensures ParseFilename(ts + "-" + rest) == ParseParts(ts, rest)
  {
    var name := ts + "-" + rest;
    assert name[..|ts|] == ts && name[|ts|] == '-' && name[|ts| + 1..] == rest;
    forall j | 0 <= j < |ts| ensures name[j] != '-' {
      assert name[j] == ts[j] && IsDigit(ts[j]);
    }
    IndexOfUnique(name, '-', |ts|);
  }

  /** Every generated name parses back into the timestamp, the random number
      and the extension it was made from. */
  lemma ParseFilenameOfFilename(timestamp: nat, random: nat, originalname: string)
    requires random <= MaxRandom
    ensures ParseFilename(Filename(timestamp, random, originalname))
      == Some(StoredName(timestamp, random, Extname(originalname)))
  {
    var e := Extname(originalname);
    assert e == [] || e[0] == '.';
    ParseFilenameOfParts(NumberToString(timestamp), NumberToString(random), e);
    DecimalValueOfNumberToString(timestamp);
    DecimalValueOfNumberToString(random);
  }

  /** Generated names determine their timestamp, random number and extension,
      so two different (timestamp, random) pairs never give the same name. */
  lemma FilenameInjective(t1: nat, r1: nat, name1: string, t2: nat, r2: nat, name2: string)
    requires r1 <= MaxRandom && r2 <= MaxRandom
    ensures Filename(t1, r1, name1) == Filename(t2, r2, name2) ==>
      t1 == t2 && r1 == r2 && Extname(name1) == Extname(name2)
  {
    ParseFilenameOfFilename(t1, r1, name1);
    ParseFilenameOfFilename(t2, r2, name2);
  }

  /** `a.JPG` is stored under a name ending in `.JPG`: the case is kept. */
  lemma FilenameKeepsExtensionCase(timestamp: nat, random: nat)
    requires random <= MaxRandom
    ensures var name := Filename(timestamp, random, "a.JPG");
      |name| > 4 && name[|name| - 4..] == ".JPG"
  {
    assert "a" + ".JPG" == "a.JPG";
    ExtnameOfStemAndExtension("a", ".JPG");
  }

  // ---------------------------------------------------------------------
  // The two callbacks together

  /** One upload as multer runs this configuration: the filter first, and the
      storage name only for an accepted file. An accepted file is stored
      directly in the upload directory under a name whose extension is, up to
      letter case, one of the allowed ones. */
  function HandleUpload(mimetype: string, originalname: string, timestamp: nat, random: nat)
    : (r: Result<string, Rejection>)
    requires random <= MaxRandom
    ensures r.Ok? <==> FileFilter(mimetype, originalname) == Accepted
    ensures r.Err? ==> FileFilter(mimetype, originalname) == Rejected(r.error)
    ensures r.Ok? ==> r.value == Filename(timestamp, random, originalname)
    ensures r.Ok? ==> '/' !in r.value && ToLowerCase(Extname(r.value)) in AllowedExtensions
  {
    match FileFilter(mimetype, originalname)
    case Accepted => Ok(Filename(timestamp, random, originalname))
    case Rejected(reason) => Err(reason)
  }
}
