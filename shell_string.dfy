// shell_string.c: strdup and strndup for the shell, on NUL-terminated
// character buffers. Whether the allocator succeeds is a parameter.

module ShellString {

  import opened Words
  import opened CText

  /** strlen: the position of the first NUL. */
  function StrLen(s: seq<char>): (n: nat)
    requires '\0' in s
    ensures n < |s| && s[n] == '\0' && '\0' !in s[..n]
  {
    IndexOf(s, '\0').value
  }

  /** The string a NUL-terminated buffer holds. */
  function Contents(s: seq<char>): seq<char>
    requires '\0' in s
  {
    s[..StrLen(s)]
  }

  /** The string and its terminator, and nothing after. */
  lemma TerminatedContents(str: seq<char>)
    requires '\0' !in str
    ensures '\0' in str + ['\0'] && StrLen(str + ['\0']) == |str| && Contents(str + ['\0']) == str
  {
    var s := str + ['\0'];
    assert s[|str|] == '\0';
    assert forall i | 0 <= i < |str| :: s[i] == str[i];
    assert s[..|str|] == str;
  }

  /** strlen over a buffer, by a scan. */
  method StrLenOf(a: array<char>) returns (n: nat)
    requires '\0' in a[..]
    ensures n == StrLen(a[..])
  {
    n := 0;
    while a[n] != '\0'
      invariant n <= StrLen(a[..])
      invariant '\0' !in a[..n]
      decreases StrLen(a[..]) - n
    {
      assert a[..n + 1] == a[..n] + [a[n]];
      n := n + 1;
    }
    assert a[..][n] == '\0';
    assert a[..][..n] == a[..n];
  }

  /** memcpy of the first size characters of src into a fresh buffer of length len. */
  method CopyPrefix(src: array<char>, size: nat, len: nat) returns (dst: array<char>)
    requires size <= src.Length && size <= len
    ensures fresh(dst) && dst.Length == len && dst[..size] == src[..size]
  {
    dst := new char[len];
    var i := 0;
    while i < size
      invariant 0 <= i <= size
      invariant dst[..i] == src[..i]
    {
      dst[i] := src[i];
      assert dst[..i + 1] == dst[..i] + [dst[i]];
      assert src[..i + 1] == src[..i] + [src[i]];
      i := i + 1;
    }
  }

  /** shell_strdup: a fresh copy of the string and its NUL, or null when the allocation fails. */
  method StrDup(str: array<char>, allocOk: bool) returns (copy: array?<char>)
    requires '\0' in str[..]
    ensures copy != null <==> allocOk
    ensures copy != null ==> fresh(copy) && copy[..] == str[..StrLen(str[..]) + 1]
  {
    var size := StrLenOf(str);
    size := size + 1;
    if !allocOk {
      return null;
    }
    var c := CopyPrefix(str, size, size);
    assert c[..] == c[..size];
    return c;
  }

  /** shell_strndup: at most n characters of s copied into a fresh buffer and NUL-terminated, or null. */
  method StrNDup(s: array<char>, n: nat, allocOk: bool) returns (result: array?<char>)
    requires '\0' in s[..]
    ensures result != null <==> allocOk
    ensures result != null ==>
      && fresh(result) && result.Length == Min(n, StrLen(s[..])) + 1
      && result[..] == s[..Min(n, StrLen(s[..]))] + ['\0']
  {
    var size := StrLenOf(s);
    if n < size {
      size := n;
    }
    if !allocOk {
      return null;
    }
    var r := CopyPrefix(s, size, size + 1);
    r[size] := '\0';
    assert r[..] == r[..size] + [r[size]];
    return r;
  }

  /** The copy strdup makes holds the same string. */
  lemma DupSameString(s: seq<char>)
    requires '\0' in s
    ensures '\0' in s[..StrLen(s) + 1] && Contents(s[..StrLen(s) + 1]) == Contents(s)
  {
    assert s[..StrLen(s) + 1] == Contents(s) + ['\0'];
    TerminatedContents(Contents(s));
  }

  /** The copy strndup makes holds the first min(n, strlen) characters of the string. */
  lemma NDupPrefix(s: seq<char>, n: nat)
    requires '\0' in s
    ensures var r := s[..Min(n, StrLen(s))] + ['\0'];
      '\0' in r && Contents(r) == Contents(s)[..Min(n, StrLen(s))] && |Contents(r)| == Min(n, StrLen(s))
  {
    var k := Min(n, StrLen(s));
    assert '\0' !in s[..k] by {
      assert forall i | 0 <= i < k :: s[..k][i] == s[..StrLen(s)][i];
    }
    TerminatedContents(s[..k]);
  }
}
