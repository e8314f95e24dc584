/** Node's POSIX `path.extname`, which the upload code applies to the
    client-supplied file name. The extension is taken from the last segment of
    the path (trailing '/' ignored): it runs from the last '.' of that segment
    to its end, and is empty when the segment has no '.', when its last '.' is
    its first character (a dotfile such as `.bashrc`), or when the segment is
    exactly `..`. */
module NodePath {
  import opened Wrappers
  import opened JsString

  /** What `extname` can return: empty, or one leading '.' followed by
      characters that are neither '.' nor '/'. */
  predicate IsExtension(e: string) {
    e == [] || (e[0] == '.' && forall i :: 0 < i < |e| ==> e[i] != '.' && e[i] != '/')
  }

  /** `p` with its trailing '/' characters removed. */
  function StripTrailingSlashes(p: string): (r: string)
    ensures r <= p
    ensures r == [] || r[|r| - 1] != '/'
    ensures forall i :: |r| <= i < |p| ==> p[i] == '/'
  {
    if p != [] && p[|p| - 1] == '/' then StripTrailingSlashes(p[..|p| - 1]) else p
  }

  /** The characters of `p` after its last '/': a '/'-free suffix of `p`
      that is either all of `p` or preceded by a '/'. */
  function LastSegment(p: string): (r: string)
    ensures |r| <= |p| && r == p[|p| - |r|..]
    ensures forall i :: 0 <= i < |r| ==> r[i] != '/'
    ensures |r| < |p| ==> p[|p| - |r| - 1] == '/'
  {
    match LastIndexOf(p, '/')
    case None => p
    case Some(i) => p[i + 1..]
  }

  /** `path.basename(p)`: the last segment of the path once trailing
      separators are ignored (see `BasenameIsLastSegment`). */
  function Basename(p: string): (r: string)
    ensures |r| <= |p|
    ensures forall i :: 0 <= i < |r| ==> r[i] != '/'
  {
    LastSegment(StripTrailingSlashes(p))
  }

  /** The basename is the longest '/'-free suffix of the path once its
      trailing '/' are removed: either all of it or preceded by a '/'. */
  lemma BasenameIsLastSegment(p: string)
    ensures var t := StripTrailingSlashes(p); var r := Basename(p);
      |r| <= |t| && r == t[|t| - |r|..] && (|r| < |t| ==> t[|t| - |r| - 1] == '/')
  {
  }

  /** When the path does not end in '/', the basename is a suffix of it. */
  lemma BasenameIsSuffix(p: string)
    requires p != [] && p[|p| - 1] != '/'
    ensures |Basename(p)| <= |p| && Basename(p) == p[|p| - |Basename(p)|..]
  {
    assert StripTrailingSlashes(p) == p;
    BasenameIsLastSegment(p);
  }

  /** The extension rule on a basename: from its last '.' to its end, and
      empty when there is no '.', when the last '.' is the first character,
      or when the basename is `..`. */
  function BaseExtension(base: string): (r: string)
    ensures r == [] || (|r| < |base| && r == base[|base| - |r|..])
  {
    match LastIndexOf(base, '.')
    case None => ""
    case Some(k) => if k == 0 || base == ".." then "" else base[k..]
  }

  /** `path.extname(p)` (POSIX flavour). */
  function Extname(p: string): (r: string)
    ensures IsExtension(r)
  {
    var base := Basename(p);
    match LastIndexOf(base, '.')
    case None => ""
    case Some(k) => if k == 0 || base == ".." then "" else base[k..]
  }

  /** `extname` is the extension rule applied to the basename. */
  lemma ExtnameOfBasename(p: string)
    ensures Extname(p) == BaseExtension(Basename(p))
  {
  }

  /** Every character of the basename occurs in the path. */
  lemma BasenameCharsInPath(p: string, i: nat)
    requires i < |Basename(p)|
    ensures Basename(p)[i] in p
  {
    var t := StripTrailingSlashes(p);
    var r := Basename(p);
    assert p[|t| - |r| + i] == r[i];
  }

  /** A name without any '.' has no extension. */
  lemma ExtnameWithoutDot(p: string)
    requires '.' !in p
    ensures Extname(p) == ""
  {
    var b := Basename(p);
    forall i | 0 <= i < |b| ensures b[i] != '.' {
      BasenameCharsInPath(p, i);
    }
  }

  /** A '/'-free name is its own basename. */
  lemma BasenameWithoutSlash(p: string)
    requires '/' !in p
    ensures Basename(p) == p
  {
  }

  /** A dotfile such as `.bashrc` has no extension. */
  lemma ExtnameOfDotfile(p: string)
    requires p != [] && p[0] == '.' && '.' !in p[1..] && '/' !in p
    ensures Extname(p) == ""
  {
    BasenameWithoutSlash(p);
    forall j | 0 < j < |p| ensures p[j] != '.' {
      assert p[j] == p[1..][j - 1];
    }
    LastIndexOfUnique(p, '.', 0);
  }

  /** A suffix of a suffix is a suffix. */
  lemma SuffixOfSuffix(p: string, b: string, e: string)
    requires |b| <= |p| && b == p[|p| - |b|..]
    requires |e| <= |b| && e == b[|b| - |e|..]
    ensures |e| <= |p| && e == p[|p| - |e|..]
  {
  }

  /** `s` ends with `suffix` and has at least one character before it. */
  predicate EndsAfterStem(s: string, suffix: string) {
    |suffix| < |s| && s[|s| - |suffix|..] == suffix
  }

  /** A basename that ends with a non-empty extension after at least one
      other character has that extension (the basename `..` aside). */
  lemma ExtnameFromSuffix(p: string, e: string)
    requires IsExtension(e) && e != []
    requires |e| >= 2 || Basename(p) != ".."
    requires EndsAfterStem(Basename(p), e)
    ensures Extname(p) == e
  {
    ExtnameOfBasename(p);
    BaseExtensionFromSuffix(Basename(p), e);
  }

  lemma BaseExtensionFromSuffix(b: string, e: string)
    requires IsExtension(e) && e != []
    requires |e| >= 2 || b != ".."
    requires EndsAfterStem(b, e)
    ensures BaseExtension(b) == e
  {
    var k := |b| - |e|;
    assert b[k..] == e;
    forall j | k < j < |b| ensures b[j] != '.' {
      assert b[j] == e[j - k];
    }
    LastIndexOfUnique(b, '.', k);
  }

  /** A non-empty extension ends the basename, after at least one other
      character. */
  lemma ExtnameEndsBasename(p: string)
    requires Extname(p) != []
    ensures EndsAfterStem(Basename(p), Extname(p))
  {
    ExtnameOfBasename(p);
  }

  /** The extension as a suffix of the basename: a non-empty extension `e` is
      the extension of `p` exactly when the basename ends with `e` and has at
      least one character before it (the basename `..` aside). */
  lemma ExtnameAsSuffix(p: string, e: string)
    requires IsExtension(e) && e != []
    requires |e| >= 2 || Basename(p) != ".."
    ensures Extname(p) == e <==> EndsAfterStem(Basename(p), e)
  {
    if EndsAfterStem(Basename(p), e) {
      ExtnameFromSuffix(p, e);
    }
    if Extname(p) == e {
      ExtnameEndsBasename(p);
    }
  }

  /** A name made of a '.'- and '/'-free stem and an extension has that
      extension. */
  lemma ExtnameOfStemAndExtension(stem: string, e: string)
    requires stem != [] && '.' !in stem && '/' !in stem && IsExtension(e)
    ensures Extname(stem + e) == e
  {
    var name := stem + e;
    if e == [] {
      assert name == stem;
      ExtnameWithoutDot(stem);
    } else {
      assert '/' !in name by {
        forall i | 0 <= i < |name| ensures name[i] != '/' {
          if i >= |stem| {
            assert name[i] == e[i - |stem|];
          }
        }
      }
      BasenameWithoutSlash(name);
      assert name[0] == stem[0] && name[..1] != "..";
      assert name[|name| - |e|..] == e;
      ExtnameFromSuffix(name, e);
    }
  }

  // ---------------------------------------------------------------------
  // extname commutes with ASCII lower-casing

  lemma {:induction false} StripTrailingSlashesToLower(p: string)
    ensures StripTrailingSlashes(ToLowerCase(p)) == ToLowerCase(StripTrailingSlashes(p))
  {
    if p != [] {
      ToLowerCaseSlices(p, |p| - 1);
      if p[|p| - 1] == '/' {
        StripTrailingSlashesToLower(p[..|p| - 1]);
      }
    }
  }

  /** Lower-casing moves no '.' or '/', so the last one stays where it was. */
  lemma LastIndexOfToLower(b: string, c: char)
    requires c == '.' || c == '/'
    ensures LastIndexOf(ToLowerCase(b), c) == LastIndexOf(b, c)
  {
    var lb := ToLowerCase(b);
    if LastIndexOf(b, c).Some? {
      var k := LastIndexOf(b, c).value;
      forall j | k < j < |lb| ensures lb[j] != c {
        assert b[j] != c;
      }
      LastIndexOfUnique(lb, c, k);
    }
  }

  lemma LastSegmentToLower(p: string)
    ensures LastSegment(ToLowerCase(p)) == ToLowerCase(LastSegment(p))
  {
    LastIndexOfToLower(p, '/');
    match LastIndexOf(p, '/')
    case None =>
    case Some(i) => ToLowerCaseSlices(p, i + 1);
  }

  lemma BasenameToLower(p: string)
    ensures Basename(ToLowerCase(p)) == ToLowerCase(Basename(p))
  {
    StripTrailingSlashesToLower(p);
    LastSegmentToLower(StripTrailingSlashes(p));
  }

  lemma ToLowerCaseDotDot(b: string)
    ensures ToLowerCase(b) == ".." <==> b == ".."
  {
    if |b| == 2 {
      assert ToLowerCase(b)[0] == LowerChar(b[0]) && ToLowerCase(b)[1] == LowerChar(b[1]);
    }
  }

  /** Lower-casing a name and then taking its extension is the same as
      lower-casing its extension. */
  lemma ExtnameToLower(p: string)
    ensures Extname(ToLowerCase(p)) == ToLowerCase(Extname(p))
  {
    BasenameToLower(p);
    BaseExtensionToLower(Basename(p));
    ExtnameOfBasename(p);
    ExtnameOfBasename(ToLowerCase(p));
  }

  lemma BaseExtensionToLower(b: string)
    ensures BaseExtension(ToLowerCase(b)) == ToLowerCase(BaseExtension(b))
  {
    var lb := ToLowerCase(b);
    assert LastIndexOf(lb, '.') == LastIndexOf(b, '.') by { LastIndexOfToLower(b, '.'); }
    assert lb == ".." <==> b == ".." by { ToLowerCaseDotDot(b); }
    if LastIndexOf(b, '.').Some? {
      var k := LastIndexOf(b, '.').value;
      ToLowerCaseSlices(b, k);
    }
  }
}
