/**
 NUL-terminated strings.  A `const char*` argument is a `CString`, the characters
 before the terminator; a pointer into it is an index, and `At` reads the terminator
 at index `|s|` and nothing beyond.  A `char[]` buffer is an `array<char>`, read as a
 string through `Text`.
 */
module CStrings {

  const NUL: char := '\0'
  const BACKSPACE: char := '\U{0008}'

  type CString = s: string | NUL !in s

  /** What `*(s + p)` reads; asking past the terminator is out of bounds. */
  function At(s: CString, p: nat): char
    requires p <= |s|
  {
    if p < |s| then s[p] else NUL
  }

  /** The string a buffer holds: everything before its first NUL. */
  function Text(buffer: seq<char>): CString {
    if buffer == [] || buffer[0] == NUL then "" else [buffer[0]] + Text(buffer[1..])
  }

  /** The buffer starts with `s` and a terminator. */
  ghost predicate Holds(buffer: seq<char>, s: CString) {
    |s| < |buffer| && buffer[..|s|] == s && buffer[|s|] == NUL
  }

  lemma {:induction false} HoldsText(buffer: seq<char>, s: CString)
    requires Holds(buffer, s)
    ensures Text(buffer) == s
  {
    if s != "" {
      assert buffer[0] == s[0];
      assert buffer[1..][..|s| - 1] == buffer[..|s|][1..] == s[1..];
      HoldsText(buffer[1..], s[1..]);
    }
  }

  /** `p` is where two strings stop agreeing, or their common end. */
  ghost predicate FirstDifference(s1: CString, s2: CString, p: nat) {
    && p <= |s1| && p <= |s2|
    && s1[..p] == s2[..p]
    && (At(s1, p) != At(s2, p) || (p == |s1| && p == |s2|))
  }

  method StrCmp(s1: CString, s2: CString) returns (order: int)
    ensures order == 0 <==> s1 == s2
    ensures exists p :: FirstDifference(s1, s2, p) && order == At(s1, p) as int - At(s2, p) as int
  {
    var p := 0;
    while At(s1, p) != NUL && At(s1, p) == At(s2, p)
      invariant p <= |s1| && p <= |s2| && s1[..p] == s2[..p]
      decreases |s1| - p
    {
      p := p + 1;
    }
    order := At(s1, p) as int - At(s2, p) as int;
    assert FirstDifference(s1, s2, p);
    assert order == 0 ==> s1 == s1[..p] && s2 == s2[..p];
  }

  /** `strcmp(s1, s2) == 0` */
  method StrEqual(s1: CString, s2: CString) returns (same: bool)
    ensures same <==> s1 == s2
  {
    var order := StrCmp(s1, s2);
    same := order == 0;
  }

  function Take(s: string, n: nat): string {
    if n <= |s| then s[..n] else s
  }

  method StrNCmp(s1: CString, s2: CString, n: nat) returns (order: int)
    ensures order == 0 <==> Take(s1, n) == Take(s2, n)
    ensures order != 0 ==>
              exists p: nat :: p < n && FirstDifference(s1, s2, p) && order == At(s1, p) as int - At(s2, p) as int
  {
    var p := 0;
    while p < n && At(s1, p) != NUL && At(s1, p) == At(s2, p)
      invariant p <= |s1| && p <= |s2| && p <= n && s1[..p] == s2[..p]
      decreases |s1| - p
    {
      p := p + 1;
    }
    order := if p < n then At(s1, p) as int - At(s2, p) as int else 0;
    if order == 0 {
      assert p < n ==> s1 == s1[..p] && s2 == s2[..p];
    } else {
      assert FirstDifference(s1, s2, p);
    }
    if order != 0 && p < |s1| && p < |s2| {
      assert Take(s1, n)[p] == s1[p] && Take(s2, n)[p] == s2[p];
    }
  }

  /** `strncmp(s, word, strlen(word)) == 0` */
  method StartsWith(s: CString, word: CString) returns (yes: bool)
    ensures yes <==> word <= s
  {
    var order := StrNCmp(s, word, |word|);
    yes := order == 0;
    assert Take(word, |word|) == word;
  }

  method StrLen(buffer: array<char>, ghost s: CString) returns (n: nat)
    requires Holds(buffer[..], s)
    ensures n == |s|
  {
    assert forall k :: 0 <= k < |s| ==> buffer[..][..|s|][k] == buffer[k];
    n := 0;
    while buffer[n] != NUL
      invariant n <= |s|
      decreases |s| - n
    {
      n := n + 1;
    }
  }

  /** `strcpy(buffer + at, src)`. */
  method StrCpy(buffer: array<char>, at: nat, src: CString)
    requires at + |src| < buffer.Length
    modifies buffer
    ensures buffer[..] == old(buffer[..at]) + src + [NUL] + old(buffer[at + |src| + 1..])
  {
    var i := 0;
    while At(src, i) != NUL
      invariant i <= |src|
      invariant forall k :: 0 <= k < i ==> buffer[at + k] == src[k]
      invariant forall k :: 0 <= k < at || at + i <= k < buffer.Length ==> buffer[k] == old(buffer[k])
      decreases |src| - i
    {
      buffer[at + i] := src[i];
      i := i + 1;
    }
    buffer[at + i] := NUL;
    assert buffer[at..at + |src|] == src;
    assert buffer[..at] == old(buffer[..at]);
    assert buffer[at + |src| + 1..] == old(buffer[at + |src| + 1..]);
    assert buffer[..] == buffer[..at] + buffer[at..at + |src|] + [NUL] + buffer[at + |src| + 1..];
  }

  /** `strcpy(buffer, src)`: the buffer now reads as `src`. */
  method SetText(buffer: array<char>, src: CString)
    requires |src| < buffer.Length
    modifies buffer
    ensures Holds(buffer[..], src) && Text(buffer[..]) == src
  {
    StrCpy(buffer, 0, src);
    assert Holds(buffer[..], src);
    HoldsText(buffer[..], src);
  }

  /** `strncpy(buffer, src, n)`: at most n characters, padded with NULs up to n. */
  method StrNCpy(buffer: array<char>, src: CString, n: nat)
    requires n <= buffer.Length
    modifies buffer
    ensures forall k :: 0 <= k < n ==> buffer[k] == if k < |src| then src[k] else NUL
    ensures forall k :: n <= k < buffer.Length ==> buffer[k] == old(buffer[k])
  {
    var i := 0;
    while i < n && At(src, i) != NUL
      invariant i <= n && i <= |src|
      invariant forall k :: 0 <= k < i ==> buffer[k] == src[k]
      invariant forall k :: i <= k < buffer.Length ==> buffer[k] == old(buffer[k])
    {
      buffer[i] := src[i];
      i := i + 1;
    }
    while i < n
      invariant i <= n
      invariant forall k :: 0 <= k < i ==> buffer[k] == if k < |src| then src[k] else NUL
      invariant forall k :: n <= k < buffer.Length ==> buffer[k] == old(buffer[k])
    {
      buffer[i] := NUL;
      i := i + 1;
    }
  }

  /** `strcat(buffer, src)` on a buffer holding `s`. */
  method StrCat(buffer: array<char>, src: CString, ghost s: CString)
    requires Holds(buffer[..], s)
    requires |s| + |src| < buffer.Length
    modifies buffer
    ensures Holds(buffer[..], s + src)
    ensures buffer[|s| + |src| + 1..] == old(buffer[|s| + |src| + 1..])
  {
    var n := StrLen(buffer, s);
    StrCpy(buffer, n, src);
  }
}
