/** The handful of ECMAScript string operations the gateway relies on:
    `String.prototype.split` with a one-character separator,
    `String.prototype.trim`, and the character classes WhiteSpace and
    LineTerminator of the ECMAScript language specification (sections 12.2
    and 12.3 of ECMA-262). A JavaScript string is modelled as a sequence of
    characters.
 */
module JsString {

  /** LineTerminator: LF, CR, LINE SEPARATOR, PARAGRAPH SEPARATOR. These are
      also exactly the characters a regular-expression `.` does not match
      when the `s` flag is absent. */
  predicate IsLineTerminator(c: char) {
    var n := c as int;
    n == 0x000A || n == 0x000D || n == 0x2028 || n == 0x2029
  }

  /** WhiteSpace: TAB, VT, FF, ZWNBSP and every character of the Unicode
      category Zs (SPACE, NO-BREAK SPACE, OGHAM SPACE MARK, EN QUAD through
      HAIR SPACE, NARROW NO-BREAK SPACE, MEDIUM MATHEMATICAL SPACE,
      IDEOGRAPHIC SPACE). */
  predicate IsWhiteSpace(c: char) {
    var n := c as int;
    || n == 0x0009 || n == 0x000B || n == 0x000C || n == 0xFEFF
    || n == 0x0020 || n == 0x00A0 || n == 0x1680
    || (0x2000 <= n <= 0x200A)
    || n == 0x202F || n == 0x205F || n == 0x3000
  }

  /** The characters `trim` strips: WhiteSpace and LineTerminator. */
  predicate IsTrimmable(c: char) {
    IsWhiteSpace(c) || IsLineTerminator(c)
  }

  predicate AllTrimmable(s: string) {
    forall k | 0 <= k < |s| :: IsTrimmable(s[k])
  }

  /** No line terminator occurs in `s[lo..hi]`. */
  predicate NoLineTerminatorIn(s: string, lo: nat, hi: nat)
    requires lo <= hi <= |s|
  {
    forall k | lo <= k < hi :: !IsLineTerminator(s[k])
  }

  // ---------------------------------------------------------------------------
  // split / join
  // ---------------------------------------------------------------------------

  /** Joins non-empty `parts` with `sep` between neighbours: the inverse of
      `Split` (`Array.prototype.join` with a one-character separator). */
  function Join(parts: seq<string>, sep: char): string
    requires |parts| >= 1
  {
    if |parts| == 1 then parts[0] else parts[0] + [sep] + Join(parts[1..], sep)
  }

  /** `s.split(sep)` for a one-character separator: the maximal pieces of `s`
      between occurrences of `sep`, in order. There is always at least one
      piece, so a string without `sep` splits into exactly itself. */
  function Split(s: string, sep: char): (parts: seq<string>)
    ensures |parts| >= 1
    ensures forall i | 0 <= i < |parts| :: sep !in parts[i]
    ensures Join(parts, sep) == s
    ensures |parts| == 1 <==> sep !in s
  {
    if |s| == 0 then [[]]
    else
      var rest := Split(s[1..], sep);
      if s[0] == sep then [[]] + rest
      else [[s[0]] + rest[0]] + rest[1..]
  }

  /** Splitting a joined sequence of separator-free pieces gives the pieces
      back: `Split` loses nothing. */
  lemma {:induction false} SplitJoin(parts: seq<string>, sep: char)
    requires |parts| >= 1
    requires forall i | 0 <= i < |parts| :: sep !in parts[i]
    ensures Split(Join(parts, sep), sep) == parts
  {
    if |parts| == 1 {
      SplitNoSeparator(parts[0], sep);
    } else {
      SplitJoin(parts[1..], sep);
      SplitAfterPrefix(parts[0], [sep] + Join(parts[1..], sep), sep);
      assert Join(parts, sep) == parts[0] + ([sep] + Join(parts[1..], sep));
      assert ([sep] + Join(parts[1..], sep))[1..] == Join(parts[1..], sep);
      assert parts == [parts[0]] + parts[1..];
    }
  }

  /** A string with no separator is its own only piece. */
  lemma SplitNoSeparator(s: string, sep: char)
    requires sep !in s
    ensures Split(s, sep) == [s]
  {
  }

  /** The first piece of `h + t` is `h` when `h` has no separator and `t` is
      empty or starts with one; the remaining pieces are those of `t` after
      that separator. */
  lemma {:induction false} SplitAfterPrefix(h: string, t: string, sep: char)
    requires sep !in h
    requires t == [] || t[0] == sep
    ensures Split(h + t, sep)[0] == h
    ensures t != [] ==> Split(h + t, sep)[1..] == Split(t[1..], sep)
  {
    if h == [] {
      assert h + t == t;
      if t != [] {
        assert Split(t, sep) == [[]] + Split(t[1..], sep);
      }
    } else {
      SplitAfterPrefix(h[1..], t, sep);
      assert (h + t)[1..] == h[1..] + t;
      assert (h + t)[0] == h[0];
      assert [h[0]] + h[1..] == h;
    }
  }

  // ---------------------------------------------------------------------------
  // trim
  // ---------------------------------------------------------------------------

  /** Number of trimmable characters at the start of `s`. */
  function LeadingTrimmable(s: string): (n: nat)
    ensures n <= |s|
    ensures forall k | 0 <= k < n :: IsTrimmable(s[k])
    ensures n < |s| ==> !IsTrimmable(s[n])
  {
    if |s| == 0 || !IsTrimmable(s[0]) then 0
    else 1 + LeadingTrimmable(s[1..])
  }

  /** Number of trimmable characters at the end of `s`. */
  function TrailingTrimmable(s: string): (n: nat)
    ensures n <= |s|
    ensures forall k | |s| - n <= k < |s| :: IsTrimmable(s[k])
    ensures n < |s| ==> !IsTrimmable(s[|s| - n - 1])
  {
    if |s| == 0 || !IsTrimmable(s[|s| - 1]) then 0
    else 1 + TrailingTrimmable(s[..|s| - 1])
  }

  /** `s.trim()`: `s` without its leading and trailing WhiteSpace and
      LineTerminator characters. The result is empty exactly when `s` holds
      nothing else; otherwise it starts and ends with a character `trim`
      keeps, and it sits inside `s` with only trimmable characters around it. */
  function Trim(s: string): (r: string)
    ensures |r| <= |s|
    ensures r == [] <==> AllTrimmable(s)
    ensures r != [] ==> !IsTrimmable(r[0]) && !IsTrimmable(r[|r| - 1])
    ensures r != [] ==>
      var lo := LeadingTrimmable(s);
      && lo + |r| <= |s|
      && s[lo..lo + |r|] == r
      && (forall k | 0 <= k < lo :: IsTrimmable(s[k]))
      && (forall k | lo + |r| <= k < |s| :: IsTrimmable(s[k]))
  {
    var lo := LeadingTrimmable(s);
    if lo == |s| then []
    else s[lo..|s| - TrailingTrimmable(s)]
  }

  /** Trimming a string padded with trimmable characters on both sides gives
      back the core, provided the core neither starts nor ends with one. */
  lemma TrimPadded(pre: string, core: string, post: string)
    requires AllTrimmable(pre) && AllTrimmable(post)
    requires core != [] ==> !IsTrimmable(core[0]) && !IsTrimmable(core[|core| - 1])
    ensures Trim(pre + core + post) == core
  {
    var s := pre + core + post;
    assert forall k | 0 <= k < |pre| :: s[k] == pre[k];
    assert forall k | |pre| + |core| <= k < |s| :: s[k] == post[k - |pre| - |core|];
    if core == [] {
      assert AllTrimmable(s);
    } else {
      assert s[|pre|] == core[0];
      assert s[|pre| + |core| - 1] == core[|core| - 1];
      assert LeadingTrimmable(s) == |pre|;
      assert TrailingTrimmable(s) == |post|;
      assert s[|pre|..|s| - |post|] == core;
    }
  }
}
