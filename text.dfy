/** Whitespace removal and the split at the first '='. */
module Text {
  import opened Results

  /** Rust's `char::is_whitespace`: the Unicode White_Space property. */
  predicate IsWhitespace(c: char) {
    || ('\U{9}' <= c <= '\U{D}')
    || c == ' '
    || c == '\U{85}'
    || c == '\U{A0}'
    || c == '\U{1680}'
    || ('\U{2000}' <= c <= '\U{200A}')
    || c == '\U{2028}'
    || c == '\U{2029}'
    || c == '\U{202F}'
    || c == '\U{205F}'
    || c == '\U{3000}'
  }

  /** The characters of `s` that are not whitespace, in their order. */
  function Stripped(s: string): (r: string)
    ensures |r| <= |s|
  {
    if s == [] then []
    else Stripped(s[..|s| - 1]) + (if IsWhitespace(s[|s| - 1]) then [] else [s[|s| - 1]])
  }

  /** A character survives stripping exactly when it occurs and is not whitespace. */
  lemma {:induction false} StrippedMembers(s: string, c: char)
    ensures c in Stripped(s) <==> c in s && !IsWhitespace(c)
  {
    if s != [] {
      var init := s[..|s| - 1];
      StrippedMembers(init, c);
      assert s == init + [s[|s| - 1]];
    }
  }

  /** Stripping distributes over concatenation. */
  lemma {:induction false} StrippedConcat(a: string, b: string)
    ensures Stripped(a + b) == Stripped(a) + Stripped(b)
  {
    if b != [] {
      var init := b[..|b| - 1];
      assert (a + b)[..|a + b| - 1] == a + init;
      StrippedConcat(a, init);
    } else {
      assert a + b == a;
    }
  }

  /** A string without whitespace is left as it is, so stripping is idempotent. */
  lemma {:induction false} StrippedIdentity(s: string)
    requires forall i :: 0 <= i < |s| ==> !IsWhitespace(s[i])
    ensures Stripped(s) == s
  {
    if s != [] {
      StrippedIdentity(s[..|s| - 1]);
    }
  }

  /** A string of whitespace strips to nothing. */
  lemma {:induction false} StrippedBlank(s: string)
    requires forall i :: 0 <= i < |s| ==> IsWhitespace(s[i])
    ensures Stripped(s) == []
  {
    if s != [] {
      StrippedBlank(s[..|s| - 1]);
    }
  }

  /**
   * `remove_whitespace`: `String::retain` compacts the kept characters to the
   * front of the buffer; the string is then the first `n` of them.
   */
  method RemoveWhitespace(a: array<char>) returns (n: nat)
    modifies a
    ensures n <= a.Length
    ensures a[..n] == Stripped(old(a[..]))
  {
    ghost var s := a[..];
    n := 0;
    var i := 0;
    while i < a.Length
      invariant 0 <= n <= i <= a.Length
      invariant a[..n] == Stripped(s[..i])
      invariant forall j :: i <= j < a.Length ==> a[j] == s[j]
    {
      var c := a[i];
      assert s[..i + 1][..i] == s[..i];
      if !IsWhitespace(c) {
        a[n] := c;
        n := n + 1;
      }
      i := i + 1;
    }
    assert s[..a.Length] == s;
  }

  /**
   * `str::split_once("=")`: the text before the first '=' and the text after it,
   * or nothing when there is no '='.
   */
  function SplitOnce(s: string): (r: Option<(string, string)>)
    ensures r.None? <==> '=' !in s
    ensures r.Some? ==> s == r.value.0 + "=" + r.value.1 && '=' !in r.value.0
  {
    if s == [] then None
    else if s[0] == '=' then Some(([], s[1..]))
    else match SplitOnce(s[1..])
      case None => None
      case Some(parts) => Some(([s[0]] + parts.0, parts.1))
  }

  /** The split happens at the first '=', whatever follows it. */
  lemma {:induction false} SplitOnceFirst(x: string, y: string)
    requires '=' !in x
    ensures SplitOnce(x + "=" + y) == Some((x, y))
  {
    var s := x + "=" + y;
    if x == [] {
      assert s[1..] == y;
    } else {
      assert s[1..] == x[1..] + "=" + y;
      SplitOnceFirst(x[1..], y);
      assert [x[0]] + x[1..] == x;
    }
  }
}
