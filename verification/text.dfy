/** The string operations the merger relies on, each written the way Python's
    `str` and `os.path` (POSIX flavour) define them. */
module Text {
  import opened Common

  /** Python's `str.isspace()` for one character: the ASCII controls TAB..CR,
      the separators FS..US, SPACE, NEL, NBSP and the Unicode space separators. */
  predicate IsSpace(c: char) {
    var n := c as int;
    || (9 <= n <= 13)
    || (28 <= n <= 32)
    || n == 0x85
    || n == 0xA0
    || n == 0x1680
    || (0x2000 <= n <= 0x200A)
    || n == 0x2028
    || n == 0x2029
    || n == 0x202F
    || n == 0x205F
    || n == 0x3000
  }

  /** `s.lstrip()`. */
  function TrimStart(s: string): string {
    if |s| > 0 && IsSpace(s[0]) then TrimStart(s[1..]) else s
  }

  /** `s.rstrip()`. */
  function TrimEnd(s: string): string {
    if |s| > 0 && IsSpace(s[|s| - 1]) then TrimEnd(s[..|s| - 1]) else s
  }

  /** `s.strip()`. */
  function Strip(s: string): string {
    TrimEnd(TrimStart(s))
  }

  /** `lstrip` drops the leading whitespace and nothing else. */
  lemma {:induction false} TrimStartSpec(s: string)
    ensures var r := TrimStart(s);
      && |r| <= |s| && r == s[|s| - |r|..]
      && (forall i :: 0 <= i < |s| - |r| ==> IsSpace(s[i]))
      && (r == [] || !IsSpace(r[0]))
    decreases |s|
  {
    if |s| > 0 && IsSpace(s[0]) {
      TrimStartSpec(s[1..]);
    }
  }

  /** `rstrip` drops the trailing whitespace and nothing else. */
  lemma {:induction false} TrimEndSpec(s: string)
    ensures var r := TrimEnd(s);
      && |r| <= |s| && r == s[..|r|]
      && (forall i :: |r| <= i < |s| ==> IsSpace(s[i]))
      && (r == [] || !IsSpace(r[|r| - 1]))
    decreases |s|
  {
    if |s| > 0 && IsSpace(s[|s| - 1]) {
      TrimEndSpec(s[..|s| - 1]);
    }
  }

  /** `strip` keeps the contiguous middle of `s` starting at offset `k`; what it
      removes is whitespace, and what it keeps neither starts nor ends with it. */
  lemma StripSpec(s: string) returns (k: nat)
    ensures k + |Strip(s)| <= |s|
    ensures Strip(s) == s[k..k + |Strip(s)|]
    ensures forall i :: 0 <= i < k ==> IsSpace(s[i])
    ensures forall i :: k + |Strip(s)| <= i < |s| ==> IsSpace(s[i])
    ensures Strip(s) == [] || (!IsSpace(Strip(s)[0]) && !IsSpace(Strip(s)[|Strip(s)| - 1]))
  {
    var t := TrimStart(s);
    TrimStartSpec(s);
    TrimEndSpec(t);
    k := |s| - |t|;
  }

  /** Stripping twice strips nothing more. */
  lemma StripIdempotent(s: string)
    ensures Strip(Strip(s)) == Strip(s)
  {
    var r := Strip(s);
    var _ := StripSpec(s);
    if r != [] {
      assert TrimStart(r) == r;
      assert TrimEnd(r) == r;
    }
  }

  /** Python's `'-e' in s`: the marker occurs anywhere in `s`, not only as a suffix. */
  predicate HasMarker(s: string) {
    exists i | 0 <= i < |s| - 1 :: s[i] == '-' && s[i + 1] == 'e'
  }

  /** `s.rfind(c)`, with `None` for Python's -1. */
  function LastIndex(s: string, c: char): (r: Option<nat>)
    ensures r.Some? ==> r.value < |s|
  {
    if |s| == 0 then None
    else if s[|s| - 1] == c then Some(|s| - 1)
    else LastIndex(s[..|s| - 1], c)
  }

  /** `rfind` finds nothing exactly when `c` does not occur; otherwise it finds
      an occurrence with none after it. */
  lemma {:induction false} LastIndexSpec(s: string, c: char)
    ensures LastIndex(s, c).None? <==> c !in s
    ensures LastIndex(s, c).Some? ==> LastIndex(s, c).value < |s| && s[LastIndex(s, c).value] == c
    ensures LastIndex(s, c).Some? ==> forall j :: LastIndex(s, c).value < j < |s| ==> s[j] != c
    decreases |s|
  {
    if |s| > 0 && s[|s| - 1] != c {
      var init := s[..|s| - 1];
      LastIndexSpec(init, c);
      assert forall x :: x in s ==> x in init || x == s[|s| - 1];
      assert forall j :: 0 <= j < |init| ==> init[j] == s[j];
    }
  }

  /** `os.path.basename(p)` on POSIX: everything after the last slash. */
  function Basename(p: string): string {
    match LastIndex(p, '/')
    case None => p
    case Some(i) => p[i + 1..]
  }

  /** A base name is the slash-free tail of the path that starts right after its last slash. */
  lemma BasenameSpec(p: string)
    ensures '/' !in Basename(p)
    ensures |Basename(p)| <= |p| && Basename(p) == p[|p| - |Basename(p)|..]
    ensures |Basename(p)| < |p| ==> p[|p| - |Basename(p)| - 1] == '/'
  {
    LastIndexSpec(p, '/');
  }

  /** Whether a name has an extension: it contains a dot with some character
      other than a dot before the last one. */
  predicate HasExtension(name: string) {
    match LastIndex(name, '.')
    case None => false
    case Some(d) => exists j | 0 <= j < d :: name[j] != '.'
  }

  /** `os.path.splitext(name)` for a name without slashes: the extension starts
      at the last dot, unless every character before that dot is itself a dot
      (".bashrc" and "..x" have no extension). */
  function SplitExt(name: string): (string, string) {
    if HasExtension(name) then (name[..LastIndex(name, '.').value], name[LastIndex(name, '.').value..])
    else (name, [])
  }

  /** The root and the extension put back together give the name; a non-empty
      extension is one dot followed by dot-free text, and it is empty exactly
      when the name has no extension. */
  lemma SplitExtSpec(name: string)
    ensures SplitExt(name).0 + SplitExt(name).1 == name
    ensures SplitExt(name).1 == [] <==> !HasExtension(name)
    ensures SplitExt(name).1 != [] ==> SplitExt(name).1[0] == '.' && '.' !in SplitExt(name).1[1..]
  {
    LastIndexSpec(name, '.');
    if HasExtension(name) {
      var d := LastIndex(name, '.').value;
      var ext := name[d..];
      forall k | 1 <= k < |ext| ensures ext[k] != '.' {
        assert ext[k] == name[d + k];
      }
    }
  }

  /** `name[:4]`: the first four characters, or all of a shorter name. */
  function Tag(name: string): string {
    if |name| <= 4 then name else name[..4]
  }

  /** A tag is the longest prefix of the name with at most four characters. */
  lemma TagIsPrefix(name: string)
    ensures |Tag(name)| == if |name| < 4 then |name| else 4
    ensures Tag(name) == name[..|Tag(name)|]
  {
  }

  /** `sep.join(parts)`. */
  function Join(parts: seq<string>, sep: string): string {
    if |parts| == 0 then []
    else if |parts| == 1 then parts[0]
    else parts[0] + sep + Join(parts[1..], sep)
  }

  /** Joining one more part puts a single separator between the parts joined
      so far and the new part; a lone part is joined as itself. */
  lemma {:induction false} JoinAppend(parts: seq<string>, sep: string, x: string)
    ensures |parts| == 0 ==> Join(parts + [x], sep) == x
    ensures |parts| > 0 ==> Join(parts + [x], sep) == Join(parts, sep) + sep + x
    decreases |parts|
  {
    if |parts| > 1 {
      assert (parts + [x])[1..] == parts[1..] + [x];
      JoinAppend(parts[1..], sep, x);
    } else if |parts| == 1 {
      assert (parts + [x])[1..] == [x];
    }
  }
}
