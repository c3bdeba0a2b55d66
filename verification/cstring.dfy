/**
  C strings as the chat programs handle them: a char array holds a string up
  to its first NUL, `strncpy(dst, src, n); dst[n] = '\0'` bounds a string, and
  the padding `strncpy` leaves behind fills the rest of a fixed array.
 */
module CString {

  const NUL: char := '\0'

  /** The string stored at the start of `s`: everything before its first NUL
      (what `strlen` counts and `%s` prints). */
  function CStr(s: seq<char>): (r: seq<char>)
    ensures |r| <= |s| && r == s[..|r|]
    ensures NUL !in r
    ensures |r| < |s| ==> s[|r|] == NUL
  {
    if |s| == 0 || s[0] == NUL then [] else [s[0]] + CStr(s[1..])
  }

  /** A string without NUL is its own C string. */
  lemma {:induction false} CStrOfPlain(s: seq<char>)
    requires NUL !in s
    ensures CStr(s) == s
  {
    if |s| > 0 {
      assert s[0] != NUL;
      CStrOfPlain(s[1..]);
      assert s == [s[0]] + s[1..];
    }
  }

  /** Whatever follows a NUL is not part of the C string. */
  lemma CStrStopsAtNul(s: seq<char>, t: seq<char>)
    requires NUL !in s
    ensures CStr(s + [NUL] + t) == s
  {
    var w := s + [NUL] + t;
    assert w[|s|] == NUL;
    assert w[..|s|] == s;
  }

  /** The C string `strncpy(dst, s, n); dst[n] = '\0'` leaves in `dst`:
      the C string of `s`, cut to at most `n` characters. */
  function Truncate(s: seq<char>, n: nat): (r: seq<char>)
    ensures |r| <= n && NUL !in r
    ensures |r| <= |CStr(s)| && r == CStr(s)[..|r|]
    ensures |r| == n || r == CStr(s)
  {
    var c := CStr(s);
    if |c| <= n then c else c[..n]
  }

  /** A plain string that already fits is left untouched by truncation. */
  lemma TruncateShort(s: seq<char>, n: nat)
    requires NUL !in s && |s| <= n
    ensures Truncate(s, n) == s
  {
    CStrOfPlain(s);
  }

  /** The fixed `n`-char array holding `s` followed by the NUL padding
      `strncpy` writes and the terminator the programs store last. */
  function Padded(s: seq<char>, n: nat): (r: seq<char>)
    requires |s| < n
    ensures |r| == n && r[..|s|] == s
    ensures forall i :: |s| <= i < n ==> r[i] == NUL
  {
    s + seq(n - |s|, _ => NUL)
  }

  /** Reading a padded array back as a C string gives the string stored in it. */
  lemma PaddedRoundTrip(s: seq<char>, n: nat)
    requires NUL !in s && |s| < n
    ensures CStr(Padded(s, n)) == s
  {
    var p := Padded(s, n);
    assert p == s + [NUL] + seq(n - |s| - 1, _ => NUL);
    CStrStopsAtNul(s, seq(n - |s| - 1, _ => NUL));
  }

  /** The characters C's `isspace` accepts in the "C" locale. */
  predicate IsSpace(c: char)
  {
    c == ' ' || c == '\t' || c == '\n' || c == '\r' || c == '\U{B}' || c == '\U{C}'
  }

  /** The length of the run of white space at the start of `s`: what
      `atoi` and `sscanf("%s")` skip. */
  function SpaceRun(s: seq<char>): (k: nat)
    ensures k <= |s| && forall i :: 0 <= i < k ==> IsSpace(s[i])
    ensures k < |s| ==> !IsSpace(s[k])
  {
    if |s| == 0 || !IsSpace(s[0]) then 0 else 1 + SpaceRun(s[1..])
  }

  /** `s` up to (not including) the first `'\n'`: what
      `s[strcspn(s, "\n")] = '\0'` leaves behind in a NUL-free string. */
  function CutAtNewline(s: seq<char>): (r: seq<char>)
    ensures |r| <= |s| && r == s[..|r|]
    ensures '\n' !in r
    ensures |r| < |s| ==> s[|r|] == '\n'
  {
    if |s| == 0 || s[0] == '\n' then [] else [s[0]] + CutAtNewline(s[1..])
  }

  /** The index of the first `c` in `s`, as `strchr` finds it, or `|s|`. */
  function StrChr(s: seq<char>, c: char): (k: nat)
    ensures k <= |s|
    ensures c !in s[..k]
    ensures k < |s| ==> s[k] == c
  {
    if |s| == 0 then 0
    else if s[0] == c then 0
    else
      var k := StrChr(s[1..], c);
      assert s[..k + 1] == [s[0]] + s[1..][..k];
      k + 1
  }
}
