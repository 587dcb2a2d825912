/**
 * String helpers the analyzer relies on: Python's `sep.join(parts)` and
 * `str.strip()` with no argument.
 */
module Text {

  // ---------------------------------------------------------------------
  // sep.join(parts)
  // ---------------------------------------------------------------------

  /** Sum of the lengths of `parts`. */
  function TotalLength(parts: seq<string>): nat {
    if parts == [] then 0 else |parts[0]| + TotalLength(parts[1..])
  }

  /** The number of separators a join of `n` parts writes. */
  function SeparatorCount(n: nat): nat {
    if n == 0 then 0 else n - 1
  }

  /** Python's `sep.join(parts)`: the parts in order, `sep` between neighbours. */
  function Join(sep: string, parts: seq<string>): (r: string)
    ensures |r| == TotalLength(parts) + SeparatorCount(|parts|) * |sep|
  {
    if |parts| == 0 then ""
    else if |parts| == 1 then parts[0]
    else parts[0] + sep + Join(sep, parts[1..])
  }

  /** Where part `i` starts in `Join(sep, parts)`: the earlier parts, each followed by `sep`. */
  function Offset(sep: string, parts: seq<string>, i: nat): nat
    requires i <= |parts|
  {
    TotalLength(parts[..i]) + i * |sep|
  }

  lemma {:induction false} TotalLengthPrefix(parts: seq<string>, i: nat)
    requires 0 < i <= |parts|
    ensures TotalLength(parts[..i]) == |parts[0]| + TotalLength(parts[1..][..i - 1])
  {
    assert parts[..i][1..] == parts[1..][..i - 1];
  }

  /** A slice of a suffix is a slice of the whole, shifted. */
  lemma SliceOfSuffix(r: string, head: nat, x: nat, y: nat)
    requires head <= |r| && x <= y <= |r| - head
    ensures r[head..][x..y] == r[head + x..head + y]
  {
  }

  /** Part `i` of a join sits verbatim at `Offset(sep, parts, i)`. */
  lemma {:induction false} JoinPartAt(sep: string, parts: seq<string>, i: nat)
    requires i < |parts|
    ensures Offset(sep, parts, i) + |parts[i]| <= |Join(sep, parts)|
    ensures Join(sep, parts)[Offset(sep, parts, i)..Offset(sep, parts, i) + |parts[i]|] == parts[i]
  {
    var r := Join(sep, parts);
    if i == 0 {
      assert parts[..0] == [];
      if |parts| > 1 {
        assert r == parts[0] + sep + Join(sep, parts[1..]);
      }
    } else {
      var tail := parts[1..];
      JoinPartAt(sep, tail, i - 1);
      TotalLengthPrefix(parts, i);
      var head := |parts[0]| + |sep|;
      var o := Offset(sep, tail, i - 1);
      assert tail[i - 1] == parts[i];
      assert Offset(sep, parts, i) == head + o;
      assert r == parts[0] + sep + Join(sep, tail);
      assert r[head..] == Join(sep, tail);
      SliceOfSuffix(r, head, o, o + |parts[i]|);
    }
  }

  /** Exactly one `sep` follows every part of a join but the last. */
  lemma {:induction false} JoinSeparatorAfter(sep: string, parts: seq<string>, i: nat)
    requires i + 1 < |parts|
    ensures Offset(sep, parts, i) + |parts[i]| + |sep| <= |Join(sep, parts)|
    ensures Join(sep, parts)[Offset(sep, parts, i) + |parts[i]|..Offset(sep, parts, i) + |parts[i]| + |sep|] == sep
  {
    var r := Join(sep, parts);
    var tail := parts[1..];
    assert r == parts[0] + sep + Join(sep, tail);
    if i == 0 {
      assert parts[..0] == [];
    } else {
      JoinSeparatorAfter(sep, tail, i - 1);
      TotalLengthPrefix(parts, i);
      var head := |parts[0]| + |sep|;
      var o := Offset(sep, tail, i - 1) + |parts[i]|;
      assert tail[i - 1] == parts[i];
      assert Offset(sep, parts, i) + |parts[i]| == head + o;
      assert r[head..] == Join(sep, tail);
      SliceOfSuffix(r, head, o, o + |sep|);
    }
  }

  /**
   * The layout of a join: part `i` sits verbatim at `Offset(sep, parts, i)`,
   * and exactly one `sep` follows every part but the last. With the length in
   * `Join`'s contract this fixes every character of the result.
   */
  lemma JoinLayout(sep: string, parts: seq<string>, i: nat)
    requires i < |parts|
    ensures Offset(sep, parts, i) + |parts[i]| <= |Join(sep, parts)|
    ensures Join(sep, parts)[Offset(sep, parts, i)..Offset(sep, parts, i) + |parts[i]|] == parts[i]
    ensures i + 1 < |parts| ==>
      Offset(sep, parts, i) + |parts[i]| + |sep| <= |Join(sep, parts)| &&
      Join(sep, parts)[Offset(sep, parts, i) + |parts[i]|..Offset(sep, parts, i) + |parts[i]| + |sep|] == sep
  {
    JoinPartAt(sep, parts, i);
    if i + 1 < |parts| {
      JoinSeparatorAfter(sep, parts, i);
    }
  }

  /** Joining one more part appends one separator and that part. */
  lemma {:induction false} JoinSnoc(sep: string, parts: seq<string>, last: string)
    requires parts != []
    ensures Join(sep, parts + [last]) == Join(sep, parts) + sep + last
  {
    if |parts| == 1 {
      assert (parts + [last])[1..] == [last];
    } else {
      assert (parts + [last])[1..] == parts[1..] + [last];
      JoinSnoc(sep, parts[1..], last);
    }
  }

  // ---------------------------------------------------------------------
  // str.strip()
  // ---------------------------------------------------------------------

  /**
   * The characters CPython's `str.isspace()` accepts, which are the ones
   * `str.strip()` removes when given no argument.
   */
  predicate IsSpace(c: char): (r: bool)
    // on ASCII: tab, newline, vertical tab, form feed, carriage return, the
    // four information separators 0x1C-0x1F, and the space
    ensures c < '\U{0080}' ==> (r <==> '\t' <= c <= '\r' || '\U{001C}' <= c <= ' ')
    // the zero-width space and the byte-order mark are not whitespace to Python
    ensures c == '\U{200B}' || c == '\U{FEFF}' ==> !r
  {
    || ('\U{0009}' <= c <= '\U{000D}')
    || ('\U{001C}' <= c <= '\U{001F}')
    || c == ' '
    || c == '\U{0085}'
    || c == '\U{00A0}'
    || c == '\U{1680}'
    || ('\U{2000}' <= c <= '\U{200A}')
    || c == '\U{2028}'
    || c == '\U{2029}'
    || c == '\U{202F}'
    || c == '\U{205F}'
    || c == '\U{3000}'
  }

  /** Every character of `s` is whitespace (the empty string included). */
  predicate IsBlank(s: string) {
    forall i :: 0 <= i < |s| ==> IsSpace(s[i])
  }

  /** `s` with its leading whitespace removed: a suffix of `s` not starting with whitespace. */
  function TrimStart(s: string): (r: string)
    ensures |r| <= |s| && r == s[|s| - |r|..]
    ensures forall i :: 0 <= i < |s| - |r| ==> IsSpace(s[i])
    ensures r != [] ==> !IsSpace(r[0])
  {
    if |s| > 0 && IsSpace(s[0]) then
      var tail := s[1..];
      var r := TrimStart(tail);
      assert tail[|tail| - |r|..] == s[|s| - |r|..];
      assert forall i :: 1 <= i < |s| - |r| ==> tail[i - 1] == s[i];
      r
    else
      s
  }

  /** `s` with its trailing whitespace removed: a prefix of `s` not ending with whitespace. */
  function TrimEnd(s: string): (r: string)
    ensures |r| <= |s| && r == s[..|r|]
    ensures forall i :: |r| <= i < |s| ==> IsSpace(s[i])
    ensures r != [] ==> !IsSpace(r[|r| - 1])
  {
    if |s| > 0 && IsSpace(s[|s| - 1]) then
      var front := s[..|s| - 1];
      var r := TrimEnd(front);
      assert front[..|r|] == s[..|r|];
      assert forall i :: |r| <= i < |s| - 1 ==> front[i] == s[i];
      r
    else
      s
  }

  /** How many characters `s.strip()` drops from the front of `s`. */
  function StripStart(s: string): nat {
    |s| - |TrimStart(s)|
  }

  /**
   * Python's `s.strip()`: leading, then trailing whitespace removed. Its
   * full contract (the slice it keeps, the whitespace it drops) is stated by
   * `StripIsSlice` and `StripDropsOnlyWhitespace`.
   */
  function Strip(s: string): (r: string)
    ensures |r| <= |s|
    ensures r != [] ==> !IsSpace(r[0]) && !IsSpace(r[|r| - 1])
  {
    TrimEnd(TrimStart(s))
  }

  /**
   * `s.strip()` is the slice of `s` that starts right after its leading
   * whitespace, and neither of its ends is whitespace.
   */
  lemma StripIsSlice(s: string)
    ensures StripStart(s) + |Strip(s)| <= |s|
    ensures Strip(s) == s[StripStart(s)..StripStart(s) + |Strip(s)|]
    ensures Strip(s) != [] ==> !IsSpace(Strip(s)[0]) && !IsSpace(Strip(s)[|Strip(s)| - 1])
  {
    var a := StripStart(s);
    var t := TrimStart(s);
    var r := TrimEnd(t);
    assert t == s[a..];
    assert r == t[..|r|];
    SliceOfSuffix(s, a, 0, |r|);
    if r != [] {
      assert r[0] == t[0];
    }
  }

  /** What `s.strip()` drops on either side is whitespace. */
  lemma StripDropsOnlyWhitespace(s: string)
    ensures forall i :: 0 <= i < StripStart(s) ==> IsSpace(s[i])
    ensures forall i :: StripStart(s) + |Strip(s)| <= i < |s| ==> IsSpace(s[i])
  {
    var a := StripStart(s);
    var t := TrimStart(s);
    var r := TrimEnd(t);
    assert t == s[a..];
    forall i | a + |r| <= i < |s| ensures IsSpace(s[i]) {
      assert t[i - a] == s[i];
    }
  }

  /** `s.strip()` is empty exactly when `s` is all whitespace. */
  lemma StripEmptyIffBlank(s: string)
    ensures Strip(s) == "" <==> IsBlank(s)
  {
    var a := StripStart(s);
    var r := Strip(s);
    StripIsSlice(s);
    StripDropsOnlyWhitespace(s);
    if r != "" {
      assert s[a] == r[0];
    }
  }

  /** Stripping twice is stripping once. */
  lemma StripIdempotent(s: string)
    ensures Strip(Strip(s)) == Strip(s)
  {
    var r := Strip(s);
    if r != [] {
      assert TrimStart(r) == r;
      assert TrimEnd(r) == r;
    }
  }
}
