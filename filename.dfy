/** `output_filename_append`: the name of the output file, the input name
    with `_encoded` or `_decoded` put in front of its last `.`-extension,
    built in a `malloc`ed buffer of strlen(input) + 9 characters. */
module Filename {
  datatype Option<T> = None | Some(value: T)

  /** A C string: no NUL character before its end. */
  predicate IsCString(s: string)
  {
    forall k :: 0 <= k < |s| ==> s[k] != '\0'
  }

  /** `strrchr(s, '.')`: the position of the last '.', if there is one. */
  function LastDot(s: string): (r: Option<nat>)
    ensures r.Some? ==> r.value < |s| && s[r.value] == '.'
    ensures r.Some? ==> forall k :: r.value < k < |s| ==> s[k] != '.'
    ensures r.None? ==> forall k :: 0 <= k < |s| ==> s[k] != '.'
  {
    if s == [] then None
    else if s[|s| - 1] == '.' then Some(|s| - 1)
    else LastDot(s[..|s| - 1])
  }

  /** The name without its extension. */
  function Stem(s: string): string
  {
    match LastDot(s)
    case Some(dot) => s[..dot]
    case None => s
  }

  /** The extension: from the last '.' on, or nothing without a '.'. */
  function Extension(s: string): string
  {
    match LastDot(s)
    case Some(dot) => s[dot..]
    case None => []
  }

  /** The text put before the extension. */
  function Tag(eFlag: int): (tag: string)
    ensures |tag| == 8
  {
    if eFlag != 0 then "_encoded" else "_decoded"
  }

  /** b is an extension of a + b: empty when a + b has no '.', otherwise
      a '.' followed by no other '.'. */
  predicate IsExtensionSplit(a: string, b: string)
  {
    if b == [] then forall k :: 0 <= k < |a| ==> a[k] != '.'
    else b[0] == '.' && forall k :: 1 <= k < |b| ==> b[k] != '.'
  }

  /** Stem and Extension split the name at its last '.'. */
  lemma ExtensionSplit(s: string)
    ensures Stem(s) + Extension(s) == s && IsExtensionSplit(Stem(s), Extension(s))
  {
    match LastDot(s)
    case Some(dot) =>
      assert s[..dot] + s[dot..] == s;
    case None =>
  }

  /** The split at the last '.' is the only split into a name and an
      extension. */
  lemma ExtensionUnique(s: string, a: string, b: string)
    requires s == a + b && IsExtensionSplit(a, b)
    ensures a == Stem(s) && b == Extension(s)
  {
    if b != [] {
      assert s[|a|] == '.';
      assert a == s[..|a|] && b == s[|a|..];
    }
  }

  /** The output name of a C string is a C string. */
  lemma FilenameIsCString(s: string, eFlag: int)
    requires IsCString(s)
    ensures IsCString(Stem(s) + Tag(eFlag) + Extension(s))
  {
    ExtensionSplit(s);
    var t := Stem(s) + Tag(eFlag) + Extension(s);
    forall k | 0 <= k < |t| ensures t[k] != '\0' {
      if k < |Stem(s)| {
        assert t[k] == s[k];
      } else if k >= |Stem(s)| + 8 {
        assert t[k] == s[k - 8];
      }
    }
  }

  /** `strcpy(buf, s)`: s and its NUL at the start of buf; the length of
      the string buf then holds. */
  method StrCpy(buf: array<char>, s: string) returns (n: nat)
    requires |s| < buf.Length
    modifies buf
    ensures n == |s| && buf[..n] == s && buf[n] == '\0'
  {
    forall k | 0 <= k < |s| {
      buf[k] := s[k];
    }
    buf[|s|] := '\0';
    n := |s|;
  }

  /** `strcat(buf, s)` on the string of length n in buf: s and a NUL put
      over its NUL; the new length. */
  method StrCat(buf: array<char>, n: nat, s: string) returns (n': nat)
    requires n + |s| < buf.Length
    modifies buf
    ensures n' == n + |s| && buf[..n'] == old(buf[..n]) + s && buf[n'] == '\0'
  {
    forall k | 0 <= k < |s| {
      buf[n + k] := s[k];
    }
    buf[n + |s|] := '\0';
    n' := n + |s|;
  }

  /** `output_filename_append(input, e_flag, &free_me)`: copy the input
      into a buffer of strlen(input) + 9 characters, cut it at its last '.'
      keeping a copy of the extension, append the tag, then the extension. The
      buffer is just big enough: the name is 8 characters longer than the
      input, and its NUL takes the last cell. */
  method OutputFilenameAppend(inputFilename: string, eFlag: int) returns (filename: string, freeMe: int)
    requires IsCString(inputFilename)
    ensures filename == Stem(inputFilename) + Tag(eFlag) + Extension(inputFilename)
    ensures |filename| == |inputFilename| + 8
    ensures IsCString(filename)
    ensures freeMe == 1
  {
    var buf := new char[|inputFilename| + 9];
    var n := StrCpy(buf, inputFilename);
    var extension: Option<string> := None;
    var dot := LastDot(buf[..n]);
    ExtensionSplit(inputFilename);
    if dot.Some? {
      extension := Some(buf[dot.value..n]);
      assert buf[..dot.value] == inputFilename[..dot.value];
      buf[dot.value] := '\0';
      n := dot.value;
    }
    assert buf[..n] == Stem(inputFilename);
    assert extension.Some? ==> extension.value == Extension(inputFilename);
    assert extension.None? ==> Extension(inputFilename) == [];
    n := StrCat(buf, n, Tag(eFlag));
    if extension.Some? {
      n := StrCat(buf, n, extension.value);
    }
    filename := buf[..n];
    FilenameIsCString(inputFilename, eFlag);
    freeMe := 1;
  }
}
