/**
 * The C-string helpers behind the XML node text (xml.c): `filter`, which drops the
 * non-printable bytes of a string in place, and the growable text accumulator CONCAT_STR_t
 * with concat_string, flush_con_string and duplicate_string.
 *
 * A C string is a byte array holding a NUL; its text is what precedes the first NUL.
 */
module XmlStrings {
  import opened Common

  const INITIAL_SIZE: nat := 16
  const INCREASE_SIZE: nat := 16

  /** The bytes filter keeps: printable ASCII, 32 to 126. */
  predicate Printable(c: byte)
  {
    31 < c < 127
  }

  /** The printable bytes of `s`, in order. */
  function Filtered(s: seq<byte>): (r: seq<byte>)
    ensures |r| <= |s|
  {
    if s == [] then []
    else Filtered(s[..|s| - 1]) + (if Printable(s[|s| - 1]) then [s[|s| - 1]] else [])
  }

  /** strlen: the position of the first NUL. */
  function StrLen(s: seq<byte>): (n: nat)
    requires 0 in s
    ensures n < |s| && s[n] == 0
    ensures forall j :: 0 <= j < n ==> s[j] != 0
  {
    if s[0] == 0 then 0
    else
      assert s == [s[0]] + s[1..];
      1 + StrLen(s[1..])
  }

  /** The text of a C string: the bytes before its first NUL. */
  function CStr(s: seq<byte>): (r: seq<byte>)
    requires 0 in s
    ensures |r| < |s| && 0 !in r
  {
    s[..StrLen(s)]
  }

  /** A text followed by a NUL reads back as that text, whatever comes after. */
  lemma TextThenNul(t: seq<byte>, rest: seq<byte>)
    requires 0 !in t
    ensures 0 in t + [0] + rest
    ensures StrLen(t + [0] + rest) == |t| && CStr(t + [0] + rest) == t
  {
    var s := t + [0] + rest;
    assert s[|t|] == 0;
    assert forall j :: 0 <= j < |t| ==> s[j] == t[j];
    assert s[..|t|] == t;
  }

  /** A NUL after NUL-free bytes ends the text there. */
  lemma NulAt(s: seq<byte>, k: nat)
    requires k < |s| && s[k] == 0 && 0 !in s[..k]
    ensures 0 in s && StrLen(s) == k && CStr(s) == s[..k]
  {
    assert s[k] in s;
    assert forall j :: 0 <= j < k ==> s[j] == s[..k][j];
  }

  /** The array contents filter leaves behind: the kept bytes, a NUL, then the old bytes. */
  function FilterOutcome(s: seq<byte>): (r: seq<byte>)
    requires 0 in s
    ensures |r| == |s|
  {
    var f := Filtered(CStr(s));
    f + [0] + s[|f| + 1..]
  }

  /** Filtering the text of two strings one after the other filters each in turn. */
  lemma {:induction false} FilteredAppend(s: seq<byte>, t: seq<byte>)
    ensures Filtered(s + t) == Filtered(s) + Filtered(t)
    decreases |t|
  {
    if t == [] {
      assert s + t == s;
    } else {
      var u := t[..|t| - 1];
      assert (s + t)[..|s + t| - 1] == s + u;
      FilteredAppend(s, u);
    }
  }

  /** Filter keeps each printable byte as often as it occurs and drops every other byte. */
  lemma {:induction false} FilteredCount(s: seq<byte>, c: byte)
    ensures multiset(Filtered(s))[c] == if Printable(c) then multiset(s)[c] else 0
  {
    if s != [] {
      FilteredCount(s[..|s| - 1], c);
      assert s == s[..|s| - 1] + [s[|s| - 1]];
    }
  }

  /** Filtering changes nothing exactly when every byte is printable. */
  lemma {:induction false} FilteredUnchanged(s: seq<byte>)
    ensures (forall j :: 0 <= j < |s| ==> Printable(s[j])) <==> Filtered(s) == s
  {
    if forall j :: 0 <= j < |s| ==> Printable(s[j]) {
      if s != [] {
        FilteredUnchanged(s[..|s| - 1]);
        assert s == s[..|s| - 1] + [s[|s| - 1]];
      }
    }
    if Filtered(s) == s {
      forall j | 0 <= j < |s|
        ensures Printable(s[j])
      {
        FilteredCount(s, s[j]);
        assert s[j] in multiset(s);
      }
    }
  }

  /** Every byte filter keeps is printable; in particular it is not a NUL. */
  lemma FilteredPrintable(s: seq<byte>)
    ensures forall j :: 0 <= j < |Filtered(s)| ==> Printable(Filtered(s)[j])
    ensures 0 !in Filtered(s)
  {
    var f := Filtered(s);
    forall j | 0 <= j < |f|
      ensures Printable(f[j])
    {
      FilteredCount(s, f[j]);
      assert f[j] in multiset(f);
    }
  }

  /** Filtering twice is filtering once. */
  lemma FilteredIdempotent(s: seq<byte>)
    ensures Filtered(Filtered(s)) == Filtered(s)
  {
    FilteredPrintable(s);
    FilteredUnchanged(Filtered(s));
  }

  /** Filtering one more byte of a string appends it when it is printable. */
  lemma FilteredStep(s: seq<byte>, i: nat)
    requires i < |s|
    ensures Filtered(s[..i + 1]) == Filtered(s[..i]) + if Printable(s[i]) then [s[i]] else []
  {
    assert s[..i + 1][..i] == s[..i];
  }

  /** The string filter leaves behind reads as the filtered text of the old one. */
  lemma FilterOutcomeText(s: seq<byte>)
    requires 0 in s
    ensures 0 in FilterOutcome(s) && CStr(FilterOutcome(s)) == Filtered(CStr(s))
  {
    var f := Filtered(CStr(s));
    FilteredPrintable(CStr(s));
    TextThenNul(f, s[|f| + 1..]);
  }

  /**
   * filter: compact the printable bytes of the C string in `a` to its front, in order, and
   * put a NUL after them; the bytes after that NUL are left as they were.
   */
  method Filter(a: array<byte>)
    requires 0 in a[..]
    modifies a
    ensures a[..] == FilterOutcome(old(a[..]))
    ensures 0 in a[..] && CStr(a[..]) == Filtered(CStr(old(a[..])))
  {
    ghost var s := a[..];
    ghost var n := StrLen(s);
    var i, t := 0, 0;
    while a[i] != 0
      invariant 0 <= t <= i <= n
      invariant forall j :: t <= j < a.Length ==> a[j] == s[j]
      invariant a[..t] == Filtered(s[..i])
      decreases n - i
    {
      FilteredStep(s, i);
      if Printable(a[i]) {
        a[t] := a[i];
        t := t + 1;
      }
      i := i + 1;
    }
    assert s[..i] == CStr(s);
    a[t] := 0;
    assert a[..] == FilterOutcome(s);
    FilterOutcomeText(s);
  }

  /** What concat_string appends: the text of `str`, filtered first when `doFilter` is set. */
  function Incoming(str: seq<byte>, doFilter: bool): (r: seq<byte>)
    requires 0 in str
    ensures 0 !in r
  {
    FilteredPrintable(CStr(str));
    if doFilter then Filtered(CStr(str)) else CStr(str)
  }

  /**
   * realloc of a byte buffer to `n` bytes: a new buffer holding the old bytes as far as both
   * reach (the bytes past the old end are zero here; C leaves them indeterminate).
   */
  method Realloc(a: array<byte>, n: nat) returns (b: array<byte>)
    ensures fresh(b) && b.Length == n
    ensures b[..Min(n, a.Length)] == a[..Min(n, a.Length)]
  {
    b := new byte[n](_ => 0);
    forall j | 0 <= j < Min(n, a.Length) {
      b[j] := a[j];
    }
  }

  /**
   * strncat(dst, src, n): append at most `n` bytes of the text of `src` to the text of `dst`
   * and end it with a NUL; the bytes after that NUL are left as they were.
   */
  method StrNCat(dst: array<byte>, src: array<byte>, n: nat)
    requires dst != src && 0 in dst[..] && 0 in src[..]
    requires StrLen(dst[..]) + Min(StrLen(src[..]), n) < dst.Length
    modifies dst
    ensures 0 in dst[..]
    ensures CStr(dst[..]) == CStr(old(dst[..])) + CStr(src[..])[..Min(StrLen(src[..]), n)]
    ensures forall j :: StrLen(dst[..]) < j < dst.Length ==> dst[j] == old(dst[j])
  {
    ghost var text := CStr(dst[..]);
    var d := StrLen(dst[..]);
    var k := Min(StrLen(src[..]), n);
    ghost var incoming := CStr(src[..])[..k];
    var i := 0;
    while i < k
      invariant 0 <= i <= k
      invariant dst[..d] == text
      invariant forall j :: 0 <= j < i ==> dst[d + j] == incoming[j]
      invariant forall j :: d + i <= j < dst.Length ==> dst[j] == old(dst[j])
    {
      dst[d + i] := src[i];
      i := i + 1;
    }
    dst[d + k] := 0;
    assert dst[..d + k] == text + incoming;
    NulAt(dst[..], d + k);
  }

  /**
   * CONCAT_STR_t: a C string `buf` (NULL until the first concat) with room for `len` bytes of
   * text and its NUL.
   */
  class ConcatString {
    var buf: array?<byte>
    var len: int

    ghost predicate Valid()
      reads this, buf
    {
      buf != null ==> 0 <= len && buf.Length == len + 1 && buf[len] == 0
    }

    /** The accumulated text; empty while there is no buffer. */
    ghost function Text(): (r: seq<byte>)
      requires Valid()
      reads this, buf
      ensures 0 !in r
      ensures buf != null ==> |r| <= len
    {
      if buf == null then []
      else
        assert buf[..][len] == 0;
        CStr(buf[..])
    }

    /** The capacity concat_string works with: INITIAL_SIZE on a string with no buffer. */
    function Capacity(): int
      reads this
    {
      if buf == null then INITIAL_SIZE else len
    }

    /** A zero-filled CONCAT_STR_t, as embedded in a node fresh from calloc. */
    constructor ()
      ensures Valid() && buf == null && len == 0 && Text() == []
    {
      buf := null;
      len := 0;
    }

    /**
     * concat_string: append the text of `str` (filtered in place first when `doFilter` is
     * set), growing the capacity once by INCREASE_SIZE when the result would not fit.
     */
    method Concat(str: array<byte>, doFilter: bool)
      requires Valid() && 0 in str[..] && str != buf
      requires |Text()| + |Incoming(str[..], doFilter)| <= Capacity() + INCREASE_SIZE
      modifies this, buf, str
      ensures Valid() && buf != null && (buf == old(buf) || fresh(buf))
      ensures str[..] == if doFilter then FilterOutcome(old(str[..])) else old(str[..])
      ensures Text() == old(Text()) + Incoming(old(str[..]), doFilter)
      ensures len == old(Capacity())
                     + if |old(Text())| + |Incoming(old(str[..]), doFilter)| > old(Capacity())
                       then INCREASE_SIZE else 0
    {
      if buf == null {
        Allocate();
      }
      if doFilter {
        Filter(str);
      }
      GrowAndAppend(str);
    }

    /**
     * The rest of concat_string once there is a buffer: grow it by INCREASE_SIZE if the text
     * of `str` does not fit, then append that text.
     */
    method GrowAndAppend(str: array<byte>)
      requires Valid() && buf != null && 0 in str[..] && str != buf
      requires |Text()| + |CStr(str[..])| <= len + INCREASE_SIZE
      modifies this, buf
      ensures Valid() && buf != null && (buf == old(buf) || fresh(buf))
      ensures Text() == old(Text()) + CStr(str[..])
      ensures len == old(len) + if |old(Text())| + |CStr(str[..])| > old(len) then INCREASE_SIZE else 0
    {
      var n := StrLen(buf[..]);
      var m := StrLen(str[..]);
      if n + m > len {
        Grow();
      }
      Append(str);
    }

    /** The first allocation: an empty string with room for INITIAL_SIZE bytes of text. */
    method Allocate()
      requires buf == null
      modifies this
      ensures Valid() && buf != null && fresh(buf) && len == INITIAL_SIZE && Text() == []
    {
      len := INITIAL_SIZE;
      buf := new byte[INITIAL_SIZE + 1](_ => 0);
      assert buf[..] == [] + [0] + buf[1..];
      TextThenNul([], buf[1..]);
    }

    /** The realloc to INCREASE_SIZE more bytes of text, keeping the text. */
    method Grow()
      requires Valid() && buf != null
      modifies this
      ensures Valid() && buf != null && fresh(buf)
      ensures len == old(len) + INCREASE_SIZE && Text() == old(Text())
    {
      var n := StrLen(buf[..]);
      ghost var before := buf[..];
      len := len + INCREASE_SIZE;
      buf := Realloc(buf, len + 1);
      buf[len] := 0;
      assert buf[..n + 1] == before[..n + 1];
      assert buf[..] == before[..n] + [0] + buf[n + 1..];
      TextThenNul(before[..n], buf[n + 1..]);
    }

    /** strncat(buf, str, len) when all of str fits, then the NUL at the end of the text. */
    method Append(str: array<byte>)
      requires Valid() && buf != null && 0 in str[..] && str != buf
      requires |Text()| + |CStr(str[..])| <= len
      modifies buf
      ensures Valid() && Text() == old(Text()) + CStr(old(str[..]))
    {
      StrNCat(buf, str, len);
      // the text ends where strlen says, so this rewrites the NUL already there
      buf[StrLen(buf[..])] := 0;
    }

    /**
     * flush_con_string: hand over the accumulated text as a C string of exactly its length
     * (an empty one when there is no buffer), or NULL when that calloc or realloc fails
     * (`allocOk` false); either way the accumulator is left empty.
     */
    method Flush(allocOk: bool) returns (r: array?<byte>)
      requires Valid()
      modifies this
      ensures r == null <==> !allocOk
      ensures r != null ==> fresh(r) && r[..] == old(Text()) + [0]
      ensures buf == null && len == 0
    {
      if !allocOk {
        r := null;
      } else if buf == null {
        r := new byte[1](_ => 0);
      } else {
        var n := StrLen(buf[..]);
        r := Realloc(buf, n + 1);
        assert r[..] == buf[..n + 1];
      }
      buf := null;
      len := 0;
    }

    /** The accumulator and its buffer. */
    ghost function Footprint(): set<object>
      reads this
    {
      if buf == null then {this}
      else
        var b: array<byte> := buf;
        {this, b}
    }

    /**
     * duplicate_string: a copy with the same capacity and a new buffer holding the same
     * `len` bytes of text area and a NUL.
     */
    method Duplicate() returns (d: ConcatString)
      requires Valid()
      ensures fresh(d.Footprint()) && d.Valid() && d.len == len
      ensures buf == null ==> d.buf == null
      ensures buf != null ==> fresh(d.buf) && d.buf[..] == buf[..]
      ensures d.Text() == Text()
    {
      d := new ConcatString();
      d.len := len;
      if buf != null {
        var b := new byte[len + 1](_ => 0);
        forall j | 0 <= j < len {
          b[j] := buf[j];
        }
        assert b[..] == buf[..];
        d.buf := b;
      }
    }
  }
}
