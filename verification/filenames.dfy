/** Filename policy: `sanitize_filename`, `split_filename_ext` and
    `get_file_extension` from helpers.py, `truncate_filename` from
    downloader.py, and the two `os.path` functions they lean on
    (`splitext` and `join`, POSIX flavour). */
module Filenames {
  import opened PyStr

  // ---------------------------------------------------------------------------
  // Characters

  /** The characters `sanitize_filename` rewrites to `_`, in the order it rewrites them. */
  const InvalidChars: string := "<>:\"/\\|?*\0"

  /** The characters `sanitize_filename` strips from both ends. */
  const StripChars: set<char> := {'.', ' ', '_'}

  /** The length `sanitize_filename` aims to stay within. */
  const NameLimit: int := 255

  /** The fallback name for an empty or fully stripped input. */
  const FallbackName: string := "file"

  const InvalidSet: set<char> := {'<', '>', ':', '"', '/', '\\', '|', '?', '*', '\0'}

  /** A character `sanitize_filename` lets through. */
  predicate ValidChar(c: char) {
    c !in InvalidSet && c as int > 31
  }

  predicate AllValid(s: string) {
    forall i :: 0 <= i < |s| ==> ValidChar(s[i])
  }

  const HexDigits: set<char> := {
    '0', '1', '2', '3', '4', '5', '6', '7', '8', '9', 'a', 'b', 'c', 'd', 'e', 'f'
  }

  /** A name that stays inside the directory it is joined to: non-empty, not
      `.` or `..`, and without `/`, NUL, control characters or any other
      character `sanitize_filename` rejects. */
  predicate IsPlainName(n: string) {
    n != [] && n != "." && n != ".." && AllValid(n)
  }

  /** What `sanitize_filename` makes of a name when no length cut is needed:
      valid characters, no doubled space or underscore, and no `.`, space or
      `_` at either end. */
  predicate IsCleanForm(s: string) {
    && AllValid(s)
    && !HasDouble(s, ' ')
    && !HasDouble(s, '_')
    && (s == [] || (s[0] !in StripChars && s[|s| - 1] !in StripChars))
  }

  // ---------------------------------------------------------------------------
  // Facts about doubled characters in pieces of strings

  lemma NoDoubleInfix(s: string, a: int, b: int, c: char)
    requires 0 <= a <= b <= |s| && !HasDouble(s, c)
    ensures !HasDouble(s[a..b], c)
  {
  }

  lemma NoDoubleJoin(u: string, x: char, v: string, c: char)
    requires x != c && !HasDouble(u, c) && !HasDouble(v, c)
    ensures !HasDouble(u + [x] + v, c)
  {
  }

  // ---------------------------------------------------------------------------
  // sanitize_filename, step by step

  /** `s.replace(a, b)` for single characters. */
  function ReplaceChar(s: string, a: char, b: char): (r: string)
    ensures |r| == |s|
    ensures forall i :: 0 <= i < |s| ==> r[i] == (if s[i] == a then b else s[i])
  {
    seq(|s|, i requires 0 <= i < |s| => if s[i] == a then b else s[i])
  }

  /** `for char in chars: s = s.replace(char, '_')` */
  function ReplaceEach(s: string, chars: string): string
    decreases |chars|
  {
    if chars == [] then s else ReplaceEach(ReplaceChar(s, chars[0], '_'), chars[1..])
  }

  /** The replacement loop rewrites every listed character to `_` and keeps
      every other character, position by position. */
  lemma {:induction false} ReplaceEachMaps(s: string, chars: string)
    requires '_' !in chars
    ensures |ReplaceEach(s, chars)| == |s|
    ensures forall i :: 0 <= i < |s| ==>
      ReplaceEach(s, chars)[i] == (if s[i] in chars then '_' else s[i])
    decreases |chars|
  {
    if chars != [] {
      var s' := ReplaceChar(s, chars[0], '_');
      ReplaceEachMaps(s', chars[1..]);
      assert forall x :: x in chars <==> x == chars[0] || x in chars[1..];
    }
  }

  /** `''.join(ch for ch in s if ord(ch) > 31)` */
  function DropControl(s: string): (r: string)
    ensures forall i :: 0 <= i < |r| ==> r[i] as int > 31
    ensures (forall i :: 0 <= i < |s| ==> s[i] !in InvalidSet) ==> AllValid(r)
    ensures (forall i :: 0 <= i < |s| ==> s[i] as int > 31) ==> r == s
  {
    if s == [] then []
    else if s[0] as int > 31 then [s[0]] + DropControl(s[1..])
    else DropControl(s[1..])
  }

  /** Dropping works character by character: a character above 31 is kept,
      any other removed, and the kept ones stay in order. */
  lemma {:induction false} DropControlAppend(u: string, v: string)
    ensures DropControl(u + v) == DropControl(u) + DropControl(v)
    ensures |u| == 1 ==> DropControl(u) == (if u[0] as int > 31 then u else [])
    decreases |u|
  {
    if u == [] {
      assert u + v == v;
    } else {
      assert (u + v)[0] == u[0] && (u + v)[1..] == u[1..] + v;
      DropControlAppend(u[1..], v);
      if |u| == 1 {
        assert u[1..] == [];
      }
    }
  }

  /** The effect of the replacement loop, position by position: every
      invalid character becomes `_` (`ReplaceLoopIsMap`). */
  function ReplaceInvalid(s: string): (r: string)
    ensures |r| == |s|
    ensures forall i :: 0 <= i < |s| ==> r[i] !in InvalidSet
  {
    seq(|s|, i requires 0 <= i < |s| => if s[i] in InvalidSet then '_' else s[i])
  }

  /** Running `filename.replace(char, '_')` for each invalid character in
      turn is the same as rewriting each invalid character in one pass. */
  lemma ReplaceLoopIsMap(s: string)
    ensures ReplaceEach(s, InvalidChars) == ReplaceInvalid(s)
  {
    InvalidCharsListed();
    ReplaceListedIsMap(s, InvalidChars);
  }

  /** The string and the set of invalid characters agree. */
  lemma InvalidCharsListed()
    ensures '_' !in InvalidChars
    ensures forall x :: x in InvalidChars <==> x in InvalidSet
  {
  }

  /** Any listing of exactly the invalid characters gives the one-pass map. */
  lemma ReplaceListedIsMap(s: string, chars: string)
    requires '_' !in chars
    requires forall x :: x in chars <==> x in InvalidSet
    ensures ReplaceEach(s, chars) == ReplaceInvalid(s)
  {
    ReplaceEachMaps(s, chars);
  }

  /** Both collapse loops: runs of spaces, then runs of underscores. */
  function CollapseRuns(s: string): string {
    CollapseLoop(CollapseLoop(s, ' '), '_')
  }

  /** The text `sanitize_filename` has before its empty check and length cut. */
  function Clean(s: string): string {
    Strip(CollapseRuns(DropControl(ReplaceInvalid(s))), StripChars)
  }


  lemma CollapseRunsFacts(s: string)
    requires AllValid(s)
    ensures AllValid(CollapseRuns(s))
    ensures !HasDouble(CollapseRuns(s), ' ') && !HasDouble(CollapseRuns(s), '_')
  {
    var spaces := CollapseLoop(s, ' ');
    CollapseLoopIsSquash(s, ' ');
    SquashKeeps(s, ' ', ValidChar);
    SquashHasNoDouble(s, ' ');
    CollapseLoopIsSquash(spaces, '_');
    SquashKeeps(spaces, '_', ValidChar);
    SquashHasNoDouble(spaces, '_');
    SquashKeepsNoDouble(spaces, '_', ' ');
  }

  lemma StripKeepsCleanForm(s: string)
    requires Tidy(s)
    ensures IsCleanForm(Strip(s, StripChars))
  {
    var r := Strip(s, StripChars);
    var a := LeadCount(s, StripChars);
    InfixTidy(s, a, a + |r|);
  }

  /** Cleaning always lands in clean form. */
  lemma CleanIsCleanForm(s: string)
    ensures IsCleanForm(Clean(s))
  {
    CollapseRunsFacts(DropControl(ReplaceInvalid(s)));
    StripKeepsCleanForm(CollapseRuns(DropControl(ReplaceInvalid(s))));
  }

  lemma StripIdentity(s: string)
    requires s == [] || (s[0] !in StripChars && s[|s| - 1] !in StripChars)
    ensures Strip(s, StripChars) == s
  {
    assert LeadCount(s, StripChars) == 0;
    assert s[0..] == s;
  }

  /** A name already in clean form passes through cleaning unchanged. */
  lemma CleanFixpoint(s: string)
    requires IsCleanForm(s)
    ensures Clean(s) == s
  {
    assert ReplaceInvalid(s) == s;
    assert DropControl(s) == s;
    assert CollapseLoop(s, ' ') == s;
    assert CollapseRuns(s) == s;
    StripIdentity(s);
  }

  // ---------------------------------------------------------------------------
  // split_filename_ext and get_file_extension

  /** `split_filename_ext`: with a `.`, the text before and after the last one;
      without, the whole name and an empty extension. */
  function SplitFilenameExt(s: string): (r: (string, string))
    ensures '.' in s ==> r.0 + "." + r.1 == s && '.' !in r.1
    ensures '.' !in s ==> r == (s, "")
  {
    var i := RFind(s, '.');
    if i < 0 then (s, "")
    else
      assert s == s[..i] + "." + s[i + 1..];
      (s[..i], s[i + 1..])
  }

  /** `get_file_extension` */
  function GetFileExtension(s: string): string {
    if s == [] || '.' !in s then "" else Lower(AfterLast(s, '.'))
  }

  /** The extension `get_file_extension` reports is the lower-cased extension
      `split_filename_ext` splits off, and never holds a `.`. */
  lemma GetFileExtensionAgrees(s: string)
    ensures GetFileExtension(s) == Lower(SplitFilenameExt(s).1)
    ensures '.' !in GetFileExtension(s)
  {
    if '.' in s {
      var name := SplitFilenameExt(s).0;
      var ext := SplitFilenameExt(s).1;
      var i := RFind(s, '.');
      assert s[i + 1..] == ext;
      assert '.' !in Lower(ext) by {
        forall k | 0 <= k < |ext| ensures Lower(ext)[k] != '.' {
          assert ext[k] != '.';
        }
      }
    }
  }

  // ---------------------------------------------------------------------------
  // sanitize_filename

  /** The length cut: keep a non-empty extension and shorten the stem to fit
      255 characters, or keep the first 255 characters. */
  function LimitLength(f: string): string {
    var name := SplitFilenameExt(f).0;
    var ext := SplitFilenameExt(f).1;
    if ext != [] then SliceTo(name, NameLimit - |ext| - 1) + "." + ext
    else SliceTo(name, NameLimit)
  }

  /** Where the two halves of `split_filename_ext` sit inside the name. */
  lemma SplitFilenameExtParts(f: string)
    ensures |SplitFilenameExt(f).0| <= |f|
    ensures SplitFilenameExt(f).0 == f[..|SplitFilenameExt(f).0|]
    ensures '.' in f ==> |SplitFilenameExt(f).0| + 1 + |SplitFilenameExt(f).1| == |f|
    ensures '.' in f ==> SplitFilenameExt(f).1 == f[|SplitFilenameExt(f).0| + 1..]
  {
    var name := SplitFilenameExt(f).0;
    var ext := SplitFilenameExt(f).1;
    if '.' in f {
      assert f == name + "." + ext;
      assert f[..|name|] == name;
      assert f[|name| + 1..] == ext;
    }
  }

  lemma AllValidInfix(s: string, a: int, b: int)
    requires 0 <= a <= b <= |s| && AllValid(s)
    ensures AllValid(s[a..b])
  {
    assert forall i :: 0 <= i < b - a ==> s[a..b][i] == s[a + i];
  }

  lemma AllValidJoin(u: string, x: char, v: string)
    requires AllValid(u) && ValidChar(x) && AllValid(v)
    ensures AllValid(u + [x] + v)
  {
    var w := u + [x] + v;
    assert forall i :: 0 <= i < |w| ==> w[i] == (if i < |u| then u[i] else if i == |u| then x else v[i - |u| - 1]);
  }

  /** A piece of a string inherits its valid characters and its lack of
      doubled spaces and underscores. */
  lemma InfixTidy(f: string, a: int, b: int)
    requires 0 <= a <= b <= |f| && Tidy(f)
    ensures Tidy(f[a..b])
  {
    NoDoubleInfix(f, a, b, ' ');
    NoDoubleInfix(f, a, b, '_');
    AllValidInfix(f, a, b);
  }

  /** The stem the length cut keeps is a prefix of the name. */
  lemma LimitLengthStem(f: string)
    ensures var name := SplitFilenameExt(f).0; var ext := SplitFilenameExt(f).1;
      var stem := if ext != [] then SliceTo(name, NameLimit - |ext| - 1) else SliceTo(name, NameLimit);
      |stem| <= |f| && stem == f[..|stem|]
  {
    SplitFilenameExtParts(f);
  }

  /** Valid characters and no doubled space or underscore. */
  predicate Tidy(s: string) {
    AllValid(s) && !HasDouble(s, ' ') && !HasDouble(s, '_')
  }

  lemma TidyDotJoin(stem: string, ext: string)
    requires Tidy(stem) && Tidy(ext)
    ensures Tidy(stem + "." + ext)
  {
    assert stem + "." + ext == stem + ['.'] + ext;
    NoDoubleJoin(stem, '.', ext, ' ');
    NoDoubleJoin(stem, '.', ext, '_');
    AllValidJoin(stem, '.', ext);
  }

  lemma PrefixTidy(f: string, n: int)
    requires 0 <= n <= |f| && Tidy(f)
    ensures Tidy(f[..n])
  {
    InfixTidy(f, 0, n);
    assert f[0..n] == f[..n];
  }

  lemma SuffixTidy(f: string, n: int)
    requires 0 <= n <= |f| && Tidy(f)
    ensures Tidy(f[n..])
  {
    InfixTidy(f, n, |f|);
    assert f[n..|f|] == f[n..];
  }

  lemma LimitLengthStemTidy(f: string)
    requires Tidy(f)
    ensures var name := SplitFilenameExt(f).0; var ext := SplitFilenameExt(f).1;
      Tidy(if ext != [] then SliceTo(name, NameLimit - |ext| - 1) else SliceTo(name, NameLimit))
  {
    var name := SplitFilenameExt(f).0;
    var ext := SplitFilenameExt(f).1;
    var stem := if ext != [] then SliceTo(name, NameLimit - |ext| - 1) else SliceTo(name, NameLimit);
    LimitLengthStem(f);
    PrefixTidy(f, |stem|);
  }

  lemma ExtTidy(f: string)
    requires Tidy(f)
    ensures Tidy(SplitFilenameExt(f).1)
  {
    var name := SplitFilenameExt(f).0;
    SplitFilenameExtParts(f);
    if '.' in f {
      SuffixTidy(f, |name| + 1);
    }
  }

  /** The length cut, unfolded: the shortened stem, then `.` and the
      extension when there is one. */
  lemma LimitLengthShape(f: string)
    ensures var name := SplitFilenameExt(f).0; var ext := SplitFilenameExt(f).1;
      && (ext != [] ==> LimitLength(f) == SliceTo(name, NameLimit - |ext| - 1) + "." + ext)
      && (ext == [] ==> LimitLength(f) == SliceTo(name, NameLimit))
  {
  }

  /** The length cut keeps only valid characters and creates no doubled
      space or underscore. */
  lemma LimitLengthValid(f: string)
    requires Tidy(f)
    ensures Tidy(LimitLength(f))
  {
    var r := LimitLength(f);
    var name := SplitFilenameExt(f).0;
    var ext := SplitFilenameExt(f).1;
    LimitLengthStemTidy(f);
    ExtTidy(f);
    LimitLengthShape(f);
    if ext != [] {
      var stem := SliceTo(name, NameLimit - |ext| - 1);
      TidyDotJoin(stem, ext);
      assert r == stem + "." + ext;
    } else {
      assert r == SliceTo(name, NameLimit);
    }
  }

  /** A cut name is at least 255 characters long, and exactly 255 unless the
      extension alone is longer than 254. */
  lemma LimitLengthSize(f: string)
    requires |f| > NameLimit
    ensures |LimitLength(f)| >= NameLimit
    ensures |SplitFilenameExt(f).1| <= NameLimit - 1 ==> |LimitLength(f)| == NameLimit
  {
    SplitFilenameExtParts(f);
  }

  lemma DotSuffix(stem: string, ext: string)
    ensures EndsWith(stem + "." + ext, "." + ext)
  {
    assert (stem + "." + ext)[|stem|..] == "." + ext;
  }

  /** A non-empty extension survives the cut. */
  lemma LimitLengthKeepsExtension(f: string)
    ensures SplitFilenameExt(f).1 != [] ==> EndsWith(LimitLength(f), "." + SplitFilenameExt(f).1)
  {
    var name := SplitFilenameExt(f).0;
    var ext := SplitFilenameExt(f).1;
    LimitLengthShape(f);
    DotSuffix(SliceTo(name, NameLimit - |ext| - 1), ext);
  }

  /** The last step of `sanitize_filename`: the length check and cut. */
  function Finish(f: string): string {
    if |f| > NameLimit then LimitLength(f) else f
  }

  lemma FinishFacts(f: string)
    requires IsCleanForm(f) && f != []
    ensures IsPlainName(Finish(f))
    ensures !HasDouble(Finish(f), ' ') && !HasDouble(Finish(f), '_')
    ensures |f| <= NameLimit ==> Finish(f) == f
  {
    if |f| > NameLimit {
      LimitLengthValid(f);
      LimitLengthSize(f);
    } else {
      assert f[0] != '.';
    }
  }

  /** `sanitize_filename` on a string argument. */
  function Sanitize(s: string): (r: string)
    ensures IsPlainName(r)
    ensures !HasDouble(r, ' ') && !HasDouble(r, '_')
    ensures (s == [] || Clean(s) == []) ==> r == FallbackName
    ensures |Clean(s)| <= NameLimit ==> IsCleanForm(r)
  {
    if s == [] then FallbackName
    else
      var c := Clean(s);
      CleanIsCleanForm(s);
      var f := if c == [] then FallbackName else c;
      FinishedFacts(c, f);
      Finish(f)
  }

  /** What `Sanitize` promises, stated of the cleaned text `c` it finishes. */
  lemma FinishedFacts(c: string, f: string)
    requires c == [] || IsCleanForm(c)
    requires f == if c == [] then FallbackName else c
    ensures IsPlainName(Finish(f))
    ensures !HasDouble(Finish(f), ' ') && !HasDouble(Finish(f), '_')
    ensures c == [] ==> Finish(f) == FallbackName
    ensures |c| <= NameLimit ==> IsCleanForm(Finish(f))
  {
    assert IsCleanForm(f) && f != [];
    FinishFacts(f);
  }

  /** Sanitising a name that needed no length cut is idempotent. */
  lemma SanitizeIdempotent(s: string)
    requires |Clean(s)| <= NameLimit
    ensures Sanitize(Sanitize(s)) == Sanitize(s)
  {
    var r := Sanitize(s);
    CleanFixpoint(r);
  }

  /** The 255-character bound holds whenever the cleaned name has no `.` or
      its last extension is at most 254 characters; a non-empty extension is
      kept when the cut happens. */
  lemma SanitizeLengthBound(s: string)
    ensures var ext := SplitFilenameExt(Clean(s)).1;
      |ext| <= NameLimit - 1 ==> |Sanitize(s)| <= NameLimit
    ensures var ext := SplitFilenameExt(Clean(s)).1;
      |Clean(s)| > NameLimit && ext != [] ==> EndsWith(Sanitize(s), "." + ext)
  {
    var c := Clean(s);
    if s != [] && c != [] {
      SanitizeOfClean(s, c);
      if |c| > NameLimit {
        LimitLengthSize(c);
        LimitLengthKeepsExtension(c);
      }
    }
  }

  /** Sanitising a string whose cleaned form is a non-empty `c` is the
      length check and cut applied to `c`. */
  lemma SanitizeOfClean(s: string, c: string)
    requires Clean(s) == c && c != []
    ensures Sanitize(s) == Finish(c)
  {
  }

  lemma LongExtensionCleanForm(ext: string)
    requires IsCleanForm(ext) && |ext| > 0
    ensures IsCleanForm("a." + ext)
  {
    var s := "a." + ext;
    assert s == "a" + ['.'] + ext;
    AllValidJoin("a", '.', ext);
    NoDoubleJoin("a", '.', ext, ' ');
    NoDoubleJoin("a", '.', ext, '_');
  }

  lemma LongExtensionSplit(ext: string)
    requires '.' !in ext
    ensures SplitFilenameExt("a." + ext) == ("a", ext)
  {
    var s := "a." + ext;
    RFindAt(s, '.', 1);
    assert s[..1] == "a" && s[2..] == ext;
  }

  lemma LongExtensionCut(ext: string)
    requires '.' !in ext && |ext| >= NameLimit
    ensures LimitLength("a." + ext) == "." + ext
  {
    LongExtensionSplit(ext);
    var stem := SliceTo("a", NameLimit - |ext| - 1);
    assert stem == [];
    assert LimitLength("a." + ext) == stem + "." + ext;
    assert stem + "." + ext == "." + ext;
  }

  /** An extension longer than 254 characters defeats the bound: the stem
      slice index goes negative, the stem vanishes and the result is the
      extension alone, longer than 255 characters and starting with a `.`. */
  lemma SanitizeLongExtension(ext: string)
    requires IsCleanForm(ext) && '.' !in ext && |ext| >= NameLimit
    ensures Sanitize("a." + ext) == "." + ext
    ensures |Sanitize("a." + ext)| > NameLimit && Sanitize("a." + ext)[0] == '.'
  {
    var s := "a." + ext;
    LongExtensionCleanForm(ext);
    CleanFixpoint(s);
    SanitizeOfClean(s, s);
    LongExtensionCut(ext);
  }

  lemma ParentPrefixReplace(name: string)
    requires AllValid(name)
    ensures ReplaceInvalid("../" + name) == ".._" + name
    ensures DropControl(".._" + name) == ".._" + name
  {
    var s := "../" + name;
    var t := ".._" + name;
    forall i | 0 <= i < |s| ensures ReplaceInvalid(s)[i] == t[i] {
      if i >= 3 {
        assert s[i] == name[i - 3] && t[i] == name[i - 3];
        assert ValidChar(name[i - 3]);
      }
    }
    forall i | 0 <= i < |t| ensures t[i] as int > 31 {
      if i >= 3 {
        assert t[i] == name[i - 3] && ValidChar(name[i - 3]);
      }
    }
  }

  lemma ParentPrefixCollapse(name: string)
    requires IsCleanForm(name) && name != []
    ensures CollapseRuns(".._" + name) == ".._" + name
  {
    var t := ".._" + name;
    forall i | 0 <= i < |t| - 1 && t[i] == t[i + 1] ensures t[i] != ' ' && t[i] != '_' {
      if i >= 3 {
        assert t[i] == name[i - 3] && t[i + 1] == name[i - 2];
      } else if i == 2 {
        assert t[i + 1] == name[0];
      }
    }
    CollapseLoopIsSquash(t, ' ');
    SquashIdentity(t, ' ');
    CollapseLoopIsSquash(t, '_');
    SquashIdentity(t, '_');
  }

  lemma ParentPrefixStrip(name: string)
    requires name != [] && name[0] !in StripChars && name[|name| - 1] !in StripChars
    ensures Strip(".._" + name, StripChars) == name
  {
    var t := ".._" + name;
    assert t[3] == name[0] && t[|t| - 1] == name[|name| - 1];
    assert LeadCount(t, StripChars) == 3;
    var r := Strip(t, StripChars);
    assert r != [];
    assert |r| == |name|;
    assert r == t[3..];
  }

  /** A leading `../` is removed: the `/` becomes `_` and the strip takes
      off the whole `.._` prefix, leaving the clean name behind it. */
  lemma SanitizeParentPrefix(name: string)
    requires IsCleanForm(name) && name != [] && |name| <= NameLimit
    ensures Sanitize("../" + name) == name
  {
    ParentPrefixReplace(name);
    ParentPrefixCollapse(name);
    ParentPrefixStrip(name);
    SanitizeOfClean("../" + name, name);
  }

  /** Two clean components joined by `_` are still in clean form when
      neither touches the `_` with an underscore of its own. */
  lemma UnderscoreJoinCleanForm(a: string, b: string)
    requires IsCleanForm(a) && IsCleanForm(b) && a != [] && b != []
    ensures IsCleanForm(a + "_" + b)
  {
    var c := a + "_" + b;
    assert c == a + ['_'] + b;
    AllValidJoin(a, '_', b);
    NoDoubleJoin(a, '_', b, ' ');
    forall i | 0 <= i < |c| - 1 ensures !(c[i] == '_' && c[i + 1] == '_') {
      if i < |a| - 1 {
        assert c[i] == a[i] && c[i + 1] == a[i + 1];
      } else if i == |a| - 1 {
        assert c[i] == a[|a| - 1];
      } else if i == |a| {
        assert c[i + 1] == b[0];
      } else {
        assert c[i] == b[i - |a| - 1] && c[i + 1] == b[i - |a|];
      }
    }
  }

  /** The replacement loop works piece by piece. */
  lemma ReplaceInvalidAppend(u: string, v: string)
    ensures ReplaceInvalid(u + v) == ReplaceInvalid(u) + ReplaceInvalid(v)
  {
    assert forall i :: 0 <= i < |u + v| ==> (u + v)[i] == (if i < |u| then u[i] else v[i - |u|]);
  }

  lemma TraversalReplace(a: string, b: string, c: string)
    requires AllValid(a) && AllValid(b) && c == a + "_" + b
    ensures ReplaceInvalid("../../" + a + "/" + b) == ".._.._" + c
    ensures DropControl(".._.._" + c) == ".._.._" + c
  {
    assert ReplaceInvalid(a) == a;
    assert ReplaceInvalid(b) == b;
    assert ReplaceInvalid("../../") == ".._.._";
    assert ReplaceInvalid("/") == "_";
    ReplaceInvalidAppend("../../", a);
    ReplaceInvalidAppend("../../" + a, "/");
    ReplaceInvalidAppend("../../" + a + "/", b);
    assert ".._.._" + a == ".._.." + ['_'] + a;
    AllValidJoin(".._..", '_', a);
    assert ".._.._" + c == (".._.._" + a) + ['_'] + b;
    AllValidJoin(".._.._" + a, '_', b);
  }

  lemma TraversalCollapse(c: string)
    requires IsCleanForm(c) && c != []
    ensures CollapseRuns(".._.._" + c) == ".._.._" + c
  {
    var t := ".._.._" + c;
    forall i | 0 <= i < |t| - 1 ensures !(t[i] == t[i + 1] && (t[i] == ' ' || t[i] == '_')) {
      if i >= 6 {
        assert t[i] == c[i - 6] && t[i + 1] == c[i - 5];
      } else if i == 5 {
        assert t[i + 1] == c[0];
      }
    }
    CollapseLoopIsSquash(t, ' ');
    SquashIdentity(t, ' ');
    CollapseLoopIsSquash(t, '_');
    SquashIdentity(t, '_');
  }

  lemma TraversalStrip(c: string)
    requires c != [] && c[0] !in StripChars && c[|c| - 1] !in StripChars
    ensures Strip(".._.._" + c, StripChars) == c
  {
    var t := ".._.._" + c;
    assert t[6] == c[0] && t[|t| - 1] == c[|c| - 1];
    assert LeadCount(t, StripChars) == 6;
    var r := Strip(t, StripChars);
    assert r != [];
    assert |r| == |c|;
    assert r == t[6..];
  }

  /** A two-level climb out of the directory is flattened into one name:
      `../../etc/passwd` becomes `etc_passwd`. Every `/` turns into `_`, and
      the strip removes the `.._.._` that the two `../` leave behind. */
  lemma SanitizeTraversal(a: string, b: string)
    requires IsCleanForm(a) && IsCleanForm(b) && a != [] && b != []
    requires |a| + 1 + |b| <= NameLimit
    ensures Sanitize("../../" + a + "/" + b) == a + "_" + b
  {
    var c := a + "_" + b;
    UnderscoreJoinCleanForm(a, b);
    TraversalClean(a, b, c);
    SanitizeOfClean("../../" + a + "/" + b, c);
    FinishFacts(c);
  }

  lemma TraversalClean(a: string, b: string, c: string)
    requires IsCleanForm(a) && IsCleanForm(b) && c == a + "_" + b && IsCleanForm(c) && c != []
    ensures Clean("../../" + a + "/" + b) == c
  {
    var t := ".._.._" + c;
    TraversalReplace(a, b, c);
    TraversalCollapse(c);
    TraversalStrip(c);
    assert CollapseRuns(DropControl(ReplaceInvalid("../../" + a + "/" + b))) == t;
  }

  // ---------------------------------------------------------------------------
  // os.path.splitext and os.path.join (POSIX)

  /** The text of the last path component. */
  function Basename(p: string): string {
    AfterLast(p, '/')
  }

  /** `os.path.splitext(p)`: split at the last `.` of the last component,
      unless only dots precede it in that component (`.bashrc` has no
      extension). */
  function SplitExt(p: string): (r: (string, string))
    ensures r.0 + r.1 == p
    ensures r.1 == [] || (r.1[0] == '.' && '.' !in r.1[1..] && '/' !in r.1)
  {
    var sep := RFind(p, '/');
    var dot := RFind(p, '.');
    if sep < dot && exists k :: sep + 1 <= k < dot && p[k] != '.' then
      assert p[..dot] + p[dot..] == p;
      (p[..dot], p[dot..])
    else (p, [])
  }

  /** The extension is non-empty exactly when the last component holds a
      non-dot character somewhere before a dot. */
  lemma SplitExtCharacterized(p: string)
    ensures SplitExt(p).1 != [] <==>
      exists j, k :: RFind(p, '/') < j < k < |p| && p[j] != '.' && p[k] == '.'
  {
    var sep := RFind(p, '/');
    var dot := RFind(p, '.');
    if exists j, k :: sep < j < k < |p| && p[j] != '.' && p[k] == '.' {
      var j, k :| sep < j < k < |p| && p[j] != '.' && p[k] == '.';
      assert k <= dot;
      assert sep + 1 <= j < dot && p[j] != '.';
    }
  }

  /** A leading-dot name with no other dot has no extension. */
  lemma SplitExtHidden(rest: string)
    requires '.' !in rest && '/' !in rest
    ensures SplitExt("." + rest) == ("." + rest, "")
  {
    var p := "." + rest;
    if rest != [] {
      RFindAt(p, '.', 0);
    }
  }

  lemma BasenameAfterSlash(u: string, name: string)
    requires |u| > 0 && u[|u| - 1] == '/'
    ensures '/' !in name ==> Basename(u + name) == name
  {
    if '/' !in name {
      var w := u + name;
      RFindAt(w, '/', |u| - 1);
      assert w[|u|..] == name;
    }
  }

  /** What `os.path.join` puts before a relative name: the directory, and a
      `/` unless the directory is empty or already ends in one. */
  function DirPrefix(dir: string): (p: string)
    ensures p == [] || p[|p| - 1] == '/'
    ensures StartsWith(p, dir) && |p| <= |dir| + 1
    ensures p == [] <==> dir == []
  {
    if dir == [] || EndsWith(dir, "/") then dir else dir + "/"
  }

  /** `path` names an entry directly inside `dir`: the directory's prefix
      followed by a single non-empty path component. */
  predicate DirectChild(path: string, dir: string) {
    var p := DirPrefix(dir);
    |p| < |path| && path[..|p|] == p && '/' !in path[|p|..]
  }

  /** `os.path.join(dir, name)` for two components. */
  function Join(dir: string, name: string): (r: string)
    ensures EndsWith(r, name)
    ensures '/' !in name ==> Basename(r) == name
    ensures '/' !in name && dir != [] ==> StartsWith(r, dir)
    ensures !StartsWith(name, "/") && dir != [] ==> StartsWith(r, dir)
    ensures !StartsWith(name, "/") ==> r[..|r| - |name|] == DirPrefix(dir)
    ensures '/' !in name && name != [] ==> DirectChild(r, dir)
    ensures StartsWith(name, "/") ==> r == name
  {
    if StartsWith(name, "/") then
      assert name[0] == '/';
      name
    else if dir == [] then name
    else if EndsWith(dir, "/") then
      BasenameAfterSlash(dir, name);
      dir + name
    else
      BasenameAfterSlash(dir + "/", name);
      dir + "/" + name
  }

  /** A relative name joined to a directory is the directory's prefix
      followed by the name. */
  lemma JoinSplits(dir: string, name: string)
    requires !StartsWith(name, "/")
    ensures Join(dir, name) == DirPrefix(dir) + name
  {
    var r := Join(dir, name);
    assert r == r[..|r| - |name|] + r[|r| - |name|..];
  }

  /** A plain name joined to a directory is an entry directly inside it. */
  lemma JoinPlainChild(dir: string, leaf: string)
    requires IsPlainName(leaf)
    ensures var p := Join(dir, leaf);
      && IsPlainName(Basename(p))
      && (dir != [] ==> StartsWith(p, dir))
      && DirectChild(p, dir)
      && p == DirPrefix(dir) + Basename(p)
  {
    assert '/' !in leaf by {
      assert forall i :: 0 <= i < |leaf| ==> ValidChar(leaf[i]);
    }
    assert leaf[..1][0] == leaf[0];
    JoinSplits(dir, leaf);
  }

  /** A sibling whose name merely extends the directory's is not inside it:
      `/downloadsX/f` is not an entry of `/downloads`. */
  lemma SiblingIsNotChild()
    ensures !DirectChild("/downloadsX/f", "/downloads")
    ensures DirectChild("/downloads/f", "/downloads")
  {
    assert DirPrefix("/downloads") == "/downloads/";
    assert "/downloadsX/f"[10] == 'X';
    assert "/downloads/f"[11..] == "f";
  }

  // ---------------------------------------------------------------------------
  // truncate_filename

  /** `truncate_filename`'s default `max_length`. */
  const DefaultMaxLength: int := 200

  /** The environment's MD5: `hexdigest()` is 32 lower-case hex digits for every input. */
  ghost predicate IsHexDigest(digest: string -> string) {
    forall t :: |digest(t)| == 32 && forall i :: 0 <= i < 32 ==> digest(t)[i] in HexDigits
  }

  /** `truncate_filename(filename, max_length)`, with `digest` standing for
      `hashlib.md5(...).hexdigest()`. A stem longer than
      `max_length - len(ext) - 10` is shortened and tagged with `_` and the
      first eight hex digits of the stem's digest; the extension is kept. */
  function TruncateFilename(filename: string, maxLength: int, digest: string -> string): (r: string)
    requires IsHexDigest(digest)
    ensures var name := SplitExt(filename).0; var ext := SplitExt(filename).1;
      |name| <= maxLength - |ext| - 10 ==> r == filename
    ensures var name := SplitExt(filename).0; var ext := SplitExt(filename).1;
      |name| > maxLength - |ext| - 10 ==>
        && |r| >= |ext| + 9
        && r == r[..|r| - |ext| - 9] + "_" + digest(name)[..8] + ext
        && StartsWith(name, r[..|r| - |ext| - 9])
    ensures var name := SplitExt(filename).0; var ext := SplitExt(filename).1;
      |name| > maxLength - |ext| - 10 && |ext| <= maxLength - 19 ==> |r| == maxLength - 10
    ensures var name := SplitExt(filename).0; var ext := SplitExt(filename).1;
      var k := maxLength - |ext| - 19;
      |name| > maxLength - |ext| - 10 && k < 0 ==>
        |r| - |ext| - 9 == (if |name| + k > 0 then |name| + k else 0)
  {
    var p := SplitExt(filename);
    var name := p.0;
    var ext := p.1;
    var budget := maxLength - |ext| - 10;
    if |name| > budget then
      var stem := SliceTo(name, budget - 9);
      var hash := digest(name)[..8];
      var r := stem + "_" + hash + ext;
      assert r[..|r| - |ext| - 9] == stem;
      r
    else name + ext
  }

  lemma SplitExtValid(filename: string)
    requires AllValid(filename)
    ensures AllValid(SplitExt(filename).0) && AllValid(SplitExt(filename).1)
  {
    var name := SplitExt(filename).0;
    assert filename[..|name|] == name && filename[|name|..] == SplitExt(filename).1;
    AllValidInfix(filename, 0, |name|);
    AllValidInfix(filename, |name|, |filename|);
  }

  /** A stem, `_`, hex digits and an extension make a valid name. */
  lemma TaggedValid(stem: string, hash: string, ext: string)
    requires AllValid(stem) && AllValid(ext)
    requires forall i :: 0 <= i < |hash| ==> hash[i] in HexDigits
    ensures AllValid(stem + "_" + hash + ext)
  {
    assert AllValid(hash + ext) by {
      forall i | 0 <= i < |hash + ext| ensures ValidChar((hash + ext)[i]) {
        if i >= |hash| {
          assert (hash + ext)[i] == ext[i - |hash|];
        }
      }
    }
    assert stem + "_" + hash + ext == stem + ['_'] + (hash + ext);
    AllValidJoin(stem, '_', hash + ext);
  }

  /** When the extension leaves no room for a stem, `name[:negative]` keeps
      all but the last few characters of the stem instead of none, and the
      result is longer than the `max_length - 10` the truncation aims for. */
  lemma TruncateOverBudget(filename: string, maxLength: int, digest: string -> string)
    requires IsHexDigest(digest)
    requires |SplitExt(filename).0| > maxLength - |SplitExt(filename).1| - 10
    requires |SplitExt(filename).1| > maxLength - 19
    ensures |TruncateFilename(filename, maxLength, digest)| > maxLength - 10
  {
  }

  /** Truncation keeps a plain name plain: the only characters it adds are
      `_` and hex digits. */
  lemma TruncateKeepsPlain(filename: string, maxLength: int, digest: string -> string)
    requires IsHexDigest(digest) && IsPlainName(filename)
    ensures IsPlainName(TruncateFilename(filename, maxLength, digest))
  {
    var r := TruncateFilename(filename, maxLength, digest);
    var name := SplitExt(filename).0;
    var ext := SplitExt(filename).1;
    SplitExtValid(filename);
    if |name| <= maxLength - |ext| - 10 {
      assert r == filename;
    } else {
      TruncatedPlain(r, name, ext, digest);
    }
  }

  /** The long case of `TruncateKeepsPlain`, from the shape of the result. */
  lemma TruncatedPlain(r: string, name: string, ext: string, digest: string -> string)
    requires IsHexDigest(digest) && AllValid(name) && AllValid(ext)
    requires |r| >= |ext| + 9
    requires r == r[..|r| - |ext| - 9] + "_" + digest(name)[..8] + ext
    requires StartsWith(name, r[..|r| - |ext| - 9])
    ensures IsPlainName(r)
  {
    var stem := r[..|r| - |ext| - 9];
    HexPrefix(digest, name);
    TaggedPlain(r, name, stem, digest(name)[..8], ext);
  }

  /** The first eight characters of a digest are hex digits. */
  lemma HexPrefix(digest: string -> string, t: string)
    requires IsHexDigest(digest)
    ensures |digest(t)| == 32 && forall i :: 0 <= i < 8 ==> digest(t)[..8][i] in HexDigits
  {
  }

  /** A prefix of a valid stem tagged with `_`, eight hex digits and a valid
      extension is a plain name. */
  lemma TaggedPlain(r: string, name: string, stem: string, hash: string, ext: string)
    requires AllValid(name) && StartsWith(name, stem) && AllValid(ext)
    requires |hash| == 8 && forall i :: 0 <= i < 8 ==> hash[i] in HexDigits
    requires r == stem + "_" + hash + ext
    ensures IsPlainName(r)
  {
    AllValidInfix(name, 0, |stem|);
    TaggedValid(stem, hash, ext);
  }
}
