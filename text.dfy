/** The Python string behaviour the model relies on: whitespace as `str.isspace`
    sees it, the `s.strip() == ""` test, ASCII lower-casing, `str(n)` for
    integers, and `pathlib`'s file name and suffix of a POSIX path. */
module Text {
  import opened Common

  /** `c.isspace()`: the code points Python's `str.strip()` removes. */
  predicate IsSpace(c: char) {
    var n := c as int;
    (9 <= n <= 13) || (28 <= n <= 32) || n == 0x85 || n == 0xA0 || n == 0x1680
    || (0x2000 <= n <= 0x200A) || n == 0x2028 || n == 0x2029 || n == 0x202F
    || n == 0x205F || n == 0x3000
  }

  /** `s.strip() == ""`: nothing but whitespace (true of the empty string). */
  predicate IsBlank(s: string) {
    BlankFrom(s, 0)
  }

  /** Nothing but whitespace from index `i` on. */
  predicate BlankFrom(s: string, i: nat)
    decreases |s| - i
  {
    i >= |s| || (IsSpace(s[i]) && BlankFrom(s, i + 1))
  }

  lemma {:induction false} BlankFromAll(s: string, i: nat)
    ensures BlankFrom(s, i) <==> forall j :: i <= j < |s| ==> IsSpace(s[j])
    decreases |s| - i
  {
    if i < |s| {
      BlankFromAll(s, i + 1);
    }
  }

  /** A string is blank exactly when every character is whitespace. */
  lemma BlankAll(s: string)
    ensures IsBlank(s) <==> forall i :: 0 <= i < |s| ==> IsSpace(s[i])
  {
    BlankFromAll(s, 0);
  }

  /** A concatenation is blank exactly when both parts are. */
  lemma BlankConcat(a: string, b: string)
    ensures IsBlank(a + b) <==> IsBlank(a) && IsBlank(b)
  {
    BlankAll(a);
    BlankAll(b);
    BlankAll(a + b);
    if IsBlank(a + b) {
      forall i | 0 <= i < |a| ensures IsSpace(a[i]) {
        assert (a + b)[i] == a[i];
      }
      forall i | 0 <= i < |b| ensures IsSpace(b[i]) {
        assert (a + b)[|a| + i] == b[i];
      }
    }
    if IsBlank(a) && IsBlank(b) {
      forall i | 0 <= i < |a + b| ensures IsSpace((a + b)[i]) {
        if i >= |a| { assert (a + b)[i] == b[i - |a|]; }
      }
    }
  }

  /** A string holding a non-whitespace character at some index is not blank. */
  lemma NotBlankAt(s: string, i: nat)
    requires i < |s| && !IsSpace(s[i])
    ensures !IsBlank(s)
  {
    BlankAll(s);
  }

  function LowerChar(c: char): char {
    if 'A' <= c <= 'Z' then (c as int + 32) as char else c
  }

  /** `s.lower()` restricted to ASCII letters. */
  function Lower(s: string): (t: string)
    ensures |t| == |s|
    ensures forall i :: 0 <= i < |t| ==> !('A' <= t[i] <= 'Z')
  {
    seq(|s|, i requires 0 <= i < |s| => LowerChar(s[i]))
  }

  /** Lower-casing twice is lower-casing once. */
  lemma LowerIdempotent(s: string)
    ensures Lower(Lower(s)) == Lower(s)
  {
  }

  function DigitChar(d: nat): (c: char)
    requires d < 10
    ensures '0' <= c <= '9'
  {
    ('0' as int + d) as char
  }

  /** `str(n)` for a non-negative integer: its decimal digits, most significant first. */
  function NatToString(n: nat): (s: string)
    ensures 1 <= |s|
    ensures n < 10 <==> |s| == 1
    ensures forall i :: 0 <= i < |s| ==> '0' <= s[i] <= '9'
  {
    if n < 10 then [DigitChar(n)] else NatToString(n / 10) + [DigitChar(n % 10)]
  }

  /** Distinct numbers render as distinct strings. */
  lemma {:induction false} NatToStringInjective(a: nat, b: nat)
    requires NatToString(a) == NatToString(b)
    ensures a == b
  {
    if a >= 10 && b >= 10 {
      var sa, sb := NatToString(a), NatToString(b);
      assert sa[..|sa| - 1] == NatToString(a / 10);
      assert sb[..|sb| - 1] == NatToString(b / 10);
      NatToStringInjective(a / 10, b / 10);
      assert sa[|sa| - 1] == DigitChar(a % 10);
      assert sb[|sb| - 1] == DigitChar(b % 10);
    }
  }

  /** `str(i)` for any integer. */
  function IntToString(i: int): (s: string)
    ensures |s| >= 1
    ensures s[0] == '-' <==> i < 0
  {
    if i < 0 then "-" + NatToString(-i) else NatToString(i)
  }

  /** Two strings that share a prefix are equal exactly when their tails are. */
  lemma PrefixCancel(p: string, a: string, b: string)
    requires p + a == p + b
    ensures a == b
  {
    assert a == (p + a)[|p|..];
    assert b == (p + b)[|p|..];
  }

  /** `s.rfind(c)`, with `None` for -1. */
  function LastIndexOf(s: string, c: char): (r: Option<nat>)
    ensures r.Some? ==> r.value < |s| && s[r.value] == c
    ensures r.Some? ==> forall j :: r.value < j < |s| ==> s[j] != c
    ensures r.None? ==> forall j :: 0 <= j < |s| ==> s[j] != c
  {
    if s == [] then None
    else if s[|s| - 1] == c then Some(|s| - 1)
    else LastIndexOf(s[..|s| - 1], c)
  }

  /** The path ends in a "." part, which pathlib drops: "." alone or after a '/'. */
  predicate EndsInDotPart(path: string) {
    path != [] && path[|path| - 1] == '.' && (|path| == 1 || path[|path| - 2] == '/')
  }

  /** `PurePosixPath(path).name`: the last part of the path, where trailing
      slashes and "." parts are not parts. */
  function FileName(path: string): (name: string)
    ensures forall j :: 0 <= j < |name| ==> name[j] != '/'
    ensures name != "."
  {
    if path != [] && (path[|path| - 1] == '/' || EndsInDotPart(path)) then FileName(path[..|path| - 1])
    else match LastIndexOf(path, '/')
      case None => path
      case Some(i) => path[i + 1..]
  }

  /** `PurePosixPath(path).suffix`: the file name from its last '.' on, or ""
      when the name has no '.', or its last '.' opens or closes the name. */
  function Suffix(path: string): (ext: string)
    ensures ext == "" || (2 <= |ext| && ext[0] == '.')
    ensures forall j :: 0 < j < |ext| ==> ext[j] != '.' && ext[j] != '/'
    ensures |ext| <= |FileName(path)|
    ensures ext == FileName(path)[|FileName(path)| - |ext|..]
  {
    var name := FileName(path);
    match LastIndexOf(name, '.')
    case None => ""
    case Some(i) => if 0 < i < |name| - 1 then name[i..] else ""
  }

  /** A name without '/' whose last '.' sits strictly inside it has the
      suffix that starts at that '.'. */
  lemma SuffixOfPlainName(name: string, i: nat)
    requires forall j :: 0 <= j < |name| ==> name[j] != '/'
    requires 0 < i < |name| - 1 && name[i] == '.'
    requires forall j :: i < j < |name| ==> name[j] != '.'
    ensures FileName(name) == name
    ensures Suffix(name) == name[i..]
  {
    assert LastIndexOf(name, '/').None?;
    assert LastIndexOf(name, '.') == Some(i);
  }

  /** A final "." part is no part: appending "/." to a path changes neither
      its name nor its suffix ("x.pdf/." names "x.pdf", suffix ".pdf"). */
  lemma DotPartDropped(path: string)
    ensures FileName(path + "/.") == FileName(path)
    ensures Suffix(path + "/.") == Suffix(path)
  {
    var q := path + "/.";
    assert EndsInDotPart(q) by {
      assert q[|q| - 1] == '.' && q[|q| - 2] == '/';
    }
    assert q[..|q| - 1] == path + "/";
    assert (path + "/")[..|path|] == path;
  }
}
