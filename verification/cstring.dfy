/**
 NUL-terminated character data as the C library sees it: a `const char*`
 argument, and the `strcmp` comparison the string's equality relies on.
 */
module CString {
  import opened BasicTypes

  /** A `const char*` argument: `None` is the null pointer, `Some(s)` holds the
      characters before the terminator. */
  type CStr = Option<seq<char>>

  /** A non-null C string cannot contain its own terminator. */
  predicate WellFormed(c: CStr)
  {
    c.Some? ==> '\0' !in c.value
  }

  /** Reading index `i` of a terminated text whose visible characters are `s`:
      at `|s|` and beyond, the terminator. */
  function CharAt(s: seq<char>, i: nat): char
  {
    if i < |s| then s[i] else '\0'
  }

  /** What `strlen` and `strcmp` see in a character buffer: everything before
      its first NUL. */
  function TextBefore(buf: seq<char>): (r: seq<char>)
    ensures '\0' !in r
    ensures r <= buf
    ensures |r| < |buf| ==> buf[|r|] == '\0'
  {
    if |buf| == 0 || buf[0] == '\0' then [] else [buf[0]] + TextBefore(buf[1..])
  }

  /** The buffer `a` shows exactly the terminated text `s` when `s` is a prefix
      of `a` that is followed by a terminator (or by the end of `a`). */
  lemma TextBeforeIs(a: seq<char>, s: seq<char>)
    requires '\0' !in s
    ensures TextBefore(a) == s <==> |s| <= |a| && a[..|s|] == s && CharAt(a, |s|) == '\0'
  {
    var r := TextBefore(a);
    if |s| <= |a| && a[..|s|] == s && CharAt(a, |s|) == '\0' {
      assert r == a[..|r|];
    }
  }

  /** `strcmp(a, b) == 0`, scanning from index `i` once the first `i`
      characters are known to agree. */
  function StrCmpEqFrom(a: seq<char>, b: seq<char>, i: nat): (r: bool)
    requires '\0' !in b
    requires i <= |a| && i <= |b| && a[..i] == b[..i]
    ensures r <==> TextBefore(a) == b
    decreases |b| - i
  {
    TextBeforeIs(a, b);
    var x := CharAt(a, i);
    var y := CharAt(b, i);
    if x != y then
      false
    else if x == '\0' then
      true
    else
      assert a[..i + 1] == a[..i] + [x] && b[..i + 1] == b[..i] + [y];
      StrCmpEqFrom(a, b, i + 1)
  }

  /** `strcmp(a, b) == 0` for a buffer `a` and a well-formed C string `b`. */
  function StrCmpEq(a: seq<char>, b: seq<char>): (r: bool)
    requires '\0' !in b
    ensures r <==> TextBefore(a) == b
  {
    StrCmpEqFrom(a, b, 0)
  }
}
