/** String helpers with Python's meaning: decimal rendering of integers
    (`str(n)`), `endswith`, `rstrip` with a character set, substring
    membership, ASCII lower-casing, and which texts Python reads as a
    name or as a plain string literal. */
module Strs {

  predicate IsDigit(c: char) { '0' <= c <= '9' }

  function Digit(d: nat): (c: char)
    requires d < 10
    ensures IsDigit(c)
  {
    "0123456789"[d]
  }

  /** `str(n)` for a non-negative integer. */
  function NatStr(n: nat): (r: string)
    ensures |r| > 0
    ensures forall i | 0 <= i < |r| :: IsDigit(r[i])
    ensures |r| == 1 <==> n < 10
  {
    if n < 10 then [Digit(n)] else NatStr(n / 10) + [Digit(n % 10)]
  }

  /** `str(i)` for any integer. */
  function IntStr(i: int): (r: string)
    ensures |r| > 0
    ensures i >= 0 ==> r == NatStr(i)
    ensures i < 0 ==> r[0] == '-'
  {
    if i >= 0 then NatStr(i) else "-" + NatStr(-i)
  }

  /** Different numbers render differently. */
  lemma {:induction false} NatStrInjective(a: nat, b: nat)
    requires NatStr(a) == NatStr(b)
    ensures a == b
  {
    if a >= 10 && b >= 10 {
      var sa, sb := NatStr(a), NatStr(b);
      assert NatStr(a / 10) == sa[..|sa| - 1] && NatStr(b / 10) == sb[..|sb| - 1];
      NatStrInjective(a / 10, b / 10);
      assert Digit(a % 10) == sa[|sa| - 1] == Digit(b % 10);
    }
  }

  /** A rendered number contains no underscore. */
  lemma NatStrNoUnderscore(n: nat)
    ensures '_' !in NatStr(n)
  {
    var r := NatStr(n);
    assert forall i | 0 <= i < |r| :: r[i] != '_';
  }

  /** `head + "_" + tail` splits uniquely at its last underscore when the
      tail has none: the tail and the head are both recovered. */
  lemma SplitAtLastUnderscore(h1: string, t1: string, h2: string, t2: string)
    requires '_' !in t1 && '_' !in t2
    requires h1 + "_" + t1 == h2 + "_" + t2
    ensures h1 == h2 && t1 == t2
  {
    var s := h1 + "_" + t1;
    LastUnderscoreAt(s, h1, t1);
    LastUnderscoreAt(s, h2, t2);
    assert !(|h1| < |h2|);
    assert !(|h2| < |h1|);
    assert h1 == s[..|h1|] == h2;
    assert t1 == s[|h1| + 1..] == t2;
  }

  lemma LastUnderscoreAt(s: string, h: string, t: string)
    requires '_' !in t && s == h + "_" + t
    ensures s[|h|] == '_'
    ensures forall i | |h| < i < |s| :: s[i] != '_'
  {
    assert forall i | |h| < i < |s| :: s[i] == t[i - |h| - 1];
  }

  /** Python's `s.endswith(t)`. */
  predicate EndsWith(s: string, t: string) {
    |t| <= |s| && s[|s| - |t|..] == t
  }

  /** Python's `s.rstrip(cs)`: removes trailing characters that belong to `cs`. */
  function RStrip(s: string, cs: set<char>): (r: string)
    ensures r <= s
    ensures |r| > 0 ==> r[|r| - 1] !in cs
    ensures forall i | |r| <= i < |s| :: s[i] in cs
  {
    if |s| == 0 || s[|s| - 1] !in cs then s else RStrip(s[..|s| - 1], cs)
  }

  /** Stripping a tail made of stripped characters from a head that does not
      end in one of them gives back the head. */
  lemma RStripRecoversHead(head: string, tail: string, cs: set<char>)
    requires |head| > 0 && head[|head| - 1] !in cs
    requires forall i | 0 <= i < |tail| :: tail[i] in cs
    ensures RStrip(head + tail, cs) == head
  {
    var s := head + tail;
    var r := RStrip(s, cs);
    assert s[|head| - 1] !in cs;
    assert !(|r| < |head|);
    assert forall i | |head| <= i < |s| :: s[i] == tail[i - |head|];
    assert !(|r| > |head|);
    assert r == s[..|r|];
  }

  /** Python's `t in s` on strings. */
  predicate IsSubstring(t: string, s: string) {
    exists i | 0 <= i <= |s| - |t| :: OccursAt(t, s, i)
  }

  predicate OccursAt(t: string, s: string, i: int)
    requires 0 <= i <= |s| - |t|
  {
    s[i..i + |t|] == t
  }

  /** An ASCII character that may start a Python identifier. */
  predicate IsNameStart(c: char) { 'a' <= c <= 'z' || 'A' <= c <= 'Z' || c == '_' }

  /** An ASCII character that may continue a Python identifier. */
  predicate IsNameChar(c: char) { IsNameStart(c) || IsDigit(c) }

  /** Text Python reads as one identifier (restricted to ASCII). */
  predicate IsIdentifier(s: string) {
    |s| > 0 && IsNameStart(s[0]) && forall i | 0 < i < |s| :: IsNameChar(s[i])
  }

  /** An identifier that `set_obj_elem_from_keys` finds bound nowhere: no
      Python keyword, builtin or local name of that function holds a
      digit, and of its module's names only `keys2str` does. */
  predicate IsUnboundName(s: string) {
    IsIdentifier(s) && (exists i | 0 <= i < |s| :: IsDigit(s[i])) && s != "keys2str"
  }

  /** Text that reads back unchanged between single quotes: no quote, no
      backslash escape, no line break and no NUL byte. */
  predicate IsPlainLiteralBody(t: string) {
    '\'' !in t && '\\' !in t && '\n' !in t && '\r' !in t && '\0' !in t
  }

  function LowerChar(c: char): (r: char)
    ensures 'A' <= c <= 'Z' ==> 'a' <= r <= 'z'
    ensures !('A' <= c <= 'Z') ==> r == c
  {
    if 'A' <= c <= 'Z' then (c as int - 'A' as int + 'a' as int) as char else c
  }

  /** Python's `s.lower()` restricted to ASCII letters. */
  function Lower(s: string): (r: string)
    ensures |r| == |s|
    ensures forall i | 0 <= i < |s| :: r[i] == LowerChar(s[i])
  {
    seq(|s|, i requires 0 <= i < |s| => LowerChar(s[i]))
  }
}
