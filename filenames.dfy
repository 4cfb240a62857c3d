/**
 * The enrollment filename validator: a file is enrolled under `<name>_<id>.<ext>`,
 * where the extension is one of .jpg, .jpeg, .png (any case), the stem holds exactly
 * one underscore and the id is made of digits.  The extension is split off the way
 * POSIX `os.path.splitext` does it.
 */
module Filenames {

  const Extensions: seq<string> := [".jpg", ".jpeg", ".png"]

  const BadExtension := "Invalid file extension"
  const BadUnderscores := "Filename must contain exactly one underscore"
  const BadId := "ID must be numeric"

  /** Index of the last occurrence of `c` in `s` before index `n`, or -1 when there is none. */
  function LastBefore(s: string, c: char, n: nat): (r: int)
    requires n <= |s|
    ensures -1 <= r < n
    ensures r >= 0 ==> s[r] == c
    ensures forall j :: r < j < n ==> s[j] != c
  {
    if n == 0 then -1
    else if s[n - 1] == c then n - 1
    else LastBefore(s, c, n - 1)
  }

  /** Index of the last occurrence of `c` in `s`, or -1 when there is none. */
  function RFind(s: string, c: char): (r: int)
    ensures -1 <= r < |s|
    ensures r >= 0 ==> s[r] == c
    ensures forall j :: r < j < |s| ==> s[j] != c
  {
    LastBefore(s, c, |s|)
  }

  predicate AllDots(s: string) {
    forall i :: 0 <= i < |s| ==> s[i] == '.'
  }

  /** Every character of `p` from index `lo` up to (not including) `hi` is a dot. */
  predicate DotsBetween(p: string, lo: int, hi: int) {
    forall i :: 0 <= lo <= i < hi && i < |p| ==> p[i] == '.'
  }

  /**
   * Where `os.path.splitext` starts the extension of a POSIX path: at the last '.',
   * provided that dot comes after the last '/' and something other than dots precedes
   * it within the last path component; otherwise at the end (no extension).
   */
  function ExtStart(p: string): (k: nat)
    ensures k <= |p|
    ensures k < |p| ==> p[k] == '.'
    ensures forall i :: k < i < |p| ==> p[i] != '.' && p[i] != '/'
  {
    var sepIndex := RFind(p, '/');
    var dotIndex := RFind(p, '.');
    if dotIndex > sepIndex && !DotsBetween(p, sepIndex + 1, dotIndex) then dotIndex else |p|
  }

  /** `os.path.splitext`: the stem and the extension, which together give back the path. */
  function SplitExt(p: string): (r: (string, string))
    ensures r.0 + r.1 == p
    ensures r.1 != [] ==> r.1[0] == '.'
    ensures forall i :: 0 < i < |r.1| ==> r.1[i] != '.'
    ensures forall i :: 0 <= i < |r.1| ==> r.1[i] != '/'
  {
    var k := ExtStart(p);
    assert p[..k] + p[k..] == p;
    (p[..k], p[k..])
  }

  function LowerChar(c: char): char {
    if 'A' <= c <= 'Z' then (c as int + 32) as char else c
  }

  /** `str.lower`, restricted to ASCII letters. */
  function LowerAscii(s: string): (r: string)
    ensures |r| == |s|
    ensures forall i :: 0 <= i < |s| ==> r[i] == LowerChar(s[i])
  {
    if s == [] then [] else [LowerChar(s[0])] + LowerAscii(s[1..])
  }

  /** `str.count` of one character. */
  function CountChar(s: string, c: char): (n: nat)
    ensures n == multiset(s)[c]
  {
    if s == [] then 0
    else
      assert s == s[..|s| - 1] + [s[|s| - 1]];
      CountChar(s[..|s| - 1], c) + (if s[|s| - 1] == c then 1 else 0)
  }

  /** `str.isdigit`, restricted to the ASCII digits: non-empty and all of '0'..'9'. */
  predicate IsDigits(s: string) {
    |s| > 0 && forall i :: 0 <= i < |s| ==> '0' <= s[i] <= '9'
  }

  /** `stem.split('_')` for a stem with exactly one underscore: the two parts around it. */
  function SplitAtUnderscore(stem: string): (r: (string, string))
    requires CountChar(stem, '_') == 1
    ensures stem == r.0 + "_" + r.1
    ensures '_' !in r.0 && '_' !in r.1
  {
    assert '_' in multiset(stem);
    var k := RFind(stem, '_');
    assert stem == stem[..k] + "_" + stem[k + 1..];
    assert multiset(stem) == multiset(stem[..k]) + multiset("_") + multiset(stem[k + 1..]);
    (stem[..k], stem[k + 1..])
  }

  /**
   * `validate_filename`: (True, "") for an acceptable enrollment filename, otherwise
   * False and the reason of the first check that fails.
   */
  function Validate(filename: string): (r: (bool, string))
    ensures r.0 <==> r.1 == ""
    ensures r.1 in {"", BadExtension, BadUnderscores, BadId}
  {
    var (stem, ext) := SplitExt(filename);
    if LowerAscii(ext) !in Extensions then (false, BadExtension)
    else if CountChar(stem, '_') != 1 then (false, BadUnderscores)
    else
      var (name, id) := SplitAtUnderscore(stem);
      if !IsDigits(id) then (false, BadId) else (true, "")
  }

  predicate IsLetter(c: char) {
    'a' <= c <= 'z' || 'A' <= c <= 'Z'
  }

  /** An allowed extension, in its listed spelling, is a dot followed by lower-case letters. */
  lemma ListedExtensionShape(allowed: string)
    requires allowed in Extensions
    ensures |allowed| >= 4 && allowed[0] == '.'
    ensures forall i :: 0 < i < |allowed| ==> 'a' <= allowed[i] <= 'z'
  {
  }

  /** Lowering a character gives a dot only from a dot and a lower-case letter only from a letter. */
  lemma LowerCharInverse(c: char, a: char)
    requires a == '.' || 'a' <= a <= 'z'
    ensures LowerChar(c) == a <==> c == a || (a != '.' && c as int == a as int - 32)
    ensures a == '.' ==> (LowerChar(c) == a <==> c == '.')
    ensures 'a' <= a <= 'z' && LowerChar(c) == a ==> IsLetter(c)
  {
  }

  /** An allowed extension, whatever its case, is a dot followed by letters only. */
  lemma AllowedExtensionShape(ext: string)
    requires LowerAscii(ext) in Extensions
    ensures |ext| >= 4 && ext[0] == '.'
    ensures forall i :: 0 < i < |ext| ==> IsLetter(ext[i])
  {
    var l := LowerAscii(ext);
    ListedExtensionShape(l);
    LowerCharInverse(ext[0], '.');
    forall i | 0 < i < |ext| ensures IsLetter(ext[i]) {
      LowerCharInverse(ext[i], l[i]);
    }
  }

  /** `c` is the character `a` of an allowed extension, in lower or upper case. */
  predicate SameIgnoringCase(c: char, a: char) {
    c == a || (a != '.' && c as int == a as int - 32)
  }

  /** Lowering matches a word of dots and lower-case letters exactly when each character does. */
  lemma LowerMatches(s: string, word: string)
    requires forall i :: 0 <= i < |word| ==> word[i] == '.' || 'a' <= word[i] <= 'z'
    ensures LowerAscii(s) == word <==>
      |s| == |word| && forall i :: 0 <= i < |s| ==> SameIgnoringCase(s[i], word[i])
  {
    var l := LowerAscii(s);
    if |s| == |word| {
      forall i | 0 <= i < |s| ensures l[i] == word[i] <==> SameIgnoringCase(s[i], word[i]) {
        LowerCharInverse(s[i], word[i]);
      }
      if forall i :: 0 <= i < |s| ==> l[i] == word[i] {
        assert l == word;
      }
    }
  }

  /**
   * Case-insensitive comparison: an extension lowers to an allowed one exactly when it
   * spells it letter by letter in lower or upper case.
   */
  lemma ExtensionCaseInsensitive(ext: string, allowed: string)
    requires allowed in Extensions
    ensures LowerAscii(ext) == allowed <==>
      |ext| == |allowed| && forall i :: 0 <= i < |ext| ==> SameIgnoringCase(ext[i], allowed[i])
  {
    ListedExtensionShape(allowed);
    LowerMatches(ext, allowed);
  }

  /** The two ways `os.path.splitext` can end: at the last dot, or with no extension. */
  lemma ExtStartCases(p: string)
    ensures ExtStart(p) < |p| <==>
      RFind(p, '.') > RFind(p, '/') && !DotsBetween(p, RFind(p, '/') + 1, RFind(p, '.'))
    ensures ExtStart(p) < |p| ==> ExtStart(p) == RFind(p, '.')
  {
    var sepIndex, dotIndex := RFind(p, '/'), RFind(p, '.');
    var found := dotIndex > sepIndex && !DotsBetween(p, sepIndex + 1, dotIndex);
    assert ExtStart(p) == if found then dotIndex else |p|;
    assert found ==> 0 <= dotIndex < |p|;
  }

  lemma SplitExtAtStart(p: string)
    ensures SplitExt(p) == (p[..ExtStart(p)], p[ExtStart(p)..])
    ensures SplitExt(p).1 != [] <==> ExtStart(p) < |p|
  {
  }

  /**
   * The extension is non-empty exactly when some '.' is preceded, within the last path
   * component, by a character that is not a dot.
   */
  lemma SplitExtHasExtension(p: string)
    ensures SplitExt(p).1 != [] <==>
      (exists j, k :: 0 <= j < k < |p| && p[k] == '.' && p[j] != '.' &&
         forall m :: j <= m < |p| ==> p[m] != '/')
  {
    var sepIndex := RFind(p, '/');
    var dotIndex := RFind(p, '.');
    ExtStartCases(p);
    SplitExtAtStart(p);
    if ExtStart(p) < |p| {
      var j :| sepIndex + 1 <= j < dotIndex && p[j] != '.';
      assert p[dotIndex] == '.';
    }
    if exists j, k :: 0 <= j < k < |p| && p[k] == '.' && p[j] != '.' &&
         forall m :: j <= m < |p| ==> p[m] != '/' {
      var j, k :| 0 <= j < k < |p| && p[k] == '.' && p[j] != '.' &&
        forall m :: j <= m < |p| ==> p[m] != '/';
      assert sepIndex < j;
      assert k <= dotIndex;
    }
  }

  /**
   * A filename whose characters before its last dot are all dots has no extension, so
   * it is rejected for its extension: ".jpg" and "..png" among them.
   */
  lemma DotOnlyStemRejected(dots: string, rest: string)
    requires AllDots(dots)
    requires '.' !in rest && '/' !in rest
    ensures SplitExt(dots + rest) == (dots + rest, [])
    ensures Validate(dots + rest) == (false, BadExtension)
  {
    var p := dots + rest;
    forall m | 0 <= m < |p| ensures p[m] != '/' && (m >= |dots| ==> p[m] != '.') {
      if m < |dots| { assert p[m] == dots[m]; } else { assert p[m] == rest[m - |dots|]; }
    }
    var sepIndex := RFind(p, '/');
    var dotIndex := RFind(p, '.');
    assert sepIndex == -1;
    forall i | 0 <= i < dotIndex ensures p[i] == '.' {
      assert p[i] == dots[i];
    }
    ExtStartCases(p);
    SplitExtAtStart(p);
    assert ExtStart(p) == |p|;
    assert p[..|p|] == p;
    assert LowerAscii([]) == [];
  }

  /**
   * `os.path.splitext` splits a dot-led extension without dots or slashes off a stem
   * that ends in neither a dot nor a slash.
   */
  lemma SplitExtAt(stem: string, ext: string)
    requires |stem| > 0 && stem[|stem| - 1] != '.' && stem[|stem| - 1] != '/'
    requires |ext| > 0 && ext[0] == '.'
    requires forall i :: 0 < i < |ext| ==> ext[i] != '.' && ext[i] != '/'
    ensures SplitExt(stem + ext) == (stem, ext)
  {
    var p := stem + ext;
    var d := |stem|;
    forall m | d - 1 <= m < |p|
      ensures p[m] != '/'
      ensures m > d ==> p[m] != '.'
    {
      if m < d { assert p[m] == stem[m]; } else { assert p[m] == ext[m - d]; }
    }
    assert p[d] == ext[0];
    var sepIndex := RFind(p, '/');
    var dotIndex := RFind(p, '.');
    assert dotIndex == d;
    assert sepIndex < d - 1;
    assert p[d - 1] == stem[d - 1];
    assert p[..d] == stem && p[d..] == ext;
  }

  /** A stem `name_id` with no other underscore splits back into `name` and `id`. */
  lemma SplitAtUnderscoreOf(name: string, id: string)
    requires '_' !in name && '_' !in id
    ensures CountChar(name + "_" + id, '_') == 1
    ensures SplitAtUnderscore(name + "_" + id) == (name, id)
  {
    var stem := name + "_" + id;
    var n := |name|;
    assert multiset(stem) == multiset(name) + multiset("_") + multiset(id);
    assert stem[n] == '_';
    forall m | n < m < |stem| ensures stem[m] != '_' {
      assert stem[m] == id[m - n - 1];
    }
    var k := RFind(stem, '_');
    assert k == n;
    assert stem[..k] == name && stem[k + 1..] == id;
  }

  /**
   * Every filename of the form `<name>_<digits><allowed extension>`, with no underscore
   * in `name`, is accepted, and its stem splits back into `name` and the digits.
   */
  lemma ShapeAccepted(name: string, id: string, ext: string)
    requires '_' !in name
    requires IsDigits(id)
    requires LowerAscii(ext) in Extensions
    ensures SplitExt(name + "_" + id + ext) == (name + "_" + id, ext)
    ensures SplitAtUnderscore(name + "_" + id) == (name, id)
    ensures Validate(name + "_" + id + ext) == (true, "")
  {
    AllowedExtensionShape(ext);
    var stem := name + "_" + id;
    assert stem[|stem| - 1] == id[|id| - 1];
    SplitExtAt(stem, ext);
    assert '_' !in id by {
      forall i | 0 <= i < |id| ensures id[i] != '_' { }
    }
    SplitAtUnderscoreOf(name, id);
  }

  /**
   * Conversely every accepted filename has that form: its stem is `name_id` with no
   * underscore in `name`, digits in `id`, and its extension is an allowed one.
   */
  lemma AcceptedShape(filename: string) returns (name: string, id: string, ext: string)
    requires Validate(filename).0
    ensures filename == name + "_" + id + ext
    ensures '_' !in name && IsDigits(id) && LowerAscii(ext) in Extensions
    ensures SplitExt(filename) == (name + "_" + id, ext)
    ensures CountChar(SplitExt(filename).0, '_') == 1 && SplitAtUnderscore(SplitExt(filename).0) == (name, id)
  {
    var stem;
    stem, ext := SplitExt(filename).0, SplitExt(filename).1;
    assert '_' in multiset(stem);
    name, id := SplitAtUnderscore(stem).0, SplitAtUnderscore(stem).1;
  }

  /** The rejection reason is that of the first check that fails, in the order of the checks. */
  lemma RejectionOrder(filename: string)
    ensures Validate(filename).1 == BadExtension <==> LowerAscii(SplitExt(filename).1) !in Extensions
    ensures Validate(filename).1 == BadUnderscores <==>
      LowerAscii(SplitExt(filename).1) in Extensions && CountChar(SplitExt(filename).0, '_') != 1
    ensures Validate(filename).1 == BadId <==>
      && LowerAscii(SplitExt(filename).1) in Extensions
      && exists name, id :: SplitExt(filename).0 == name + "_" + id && '_' !in name && '_' !in id && !IsDigits(id)
  {
    var (stem, ext) := SplitExt(filename);
    if LowerAscii(ext) in Extensions && CountChar(stem, '_') == 1 {
      assert '_' in multiset(stem);
      var (name, id) := SplitAtUnderscore(stem);
      assert stem == name + "_" + id;
    }
    if exists name, id :: stem == name + "_" + id && '_' !in name && '_' !in id && !IsDigits(id) {
      var name, id :| stem == name + "_" + id && '_' !in name && '_' !in id && !IsDigits(id);
      SplitAtUnderscoreOf(name, id);
    }
  }
}
