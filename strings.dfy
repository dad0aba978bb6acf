/**
 * Character classes and the Python string operations the routes use,
 * restricted to ASCII text: `str.isspace`, `str.upper`, `str.lower`,
 * `str.strip`, `str.replace(pat, '')`, `str.isalnum` and the `in`
 * substring test.
 */
module Strings {

  /** Python's `str.isspace` on ASCII: tab, line feed, vertical tab, form
      feed, carriage return, the four separators 0x1C..0x1F and space. */
  predicate IsSpace(c: char) {
    9 <= c as int <= 13 || 28 <= c as int <= 32
  }

  predicate AllSpace(s: string) {
    forall i :: 0 <= i < |s| ==> IsSpace(s[i])
  }

  function UpperChar(c: char): char {
    if 'a' <= c <= 'z' then (c as int - 32) as char else c
  }

  function LowerChar(c: char): char {
    if 'A' <= c <= 'Z' then (c as int + 32) as char else c
  }

  /** `str.upper()` */
  function Upper(s: string): (r: string)
    ensures |r| == |s|
    ensures forall i :: 0 <= i < |s| ==> r[i] == UpperChar(s[i])
  {
    seq(|s|, i requires 0 <= i < |s| => UpperChar(s[i]))
  }

  /** `str.lower()` */
  function Lower(s: string): (r: string)
    ensures |r| == |s|
    ensures forall i :: 0 <= i < |s| ==> r[i] == LowerChar(s[i])
  {
    seq(|s|, i requires 0 <= i < |s| => LowerChar(s[i]))
  }

  /** `str.lstrip()`: the suffix of `s` left after its leading whitespace. */
  function TrimLeft(s: string): (r: string)
    ensures |r| <= |s| && r == s[|s| - |r|..]
    ensures r == [] || !IsSpace(r[0])
  {
    if s != [] && IsSpace(s[0]) then TrimLeft(s[1..]) else s
  }

  /** `str.rstrip()`: the prefix of `s` left before its trailing whitespace. */
  function TrimRight(s: string): (r: string)
    ensures |r| <= |s| && r == s[..|r|]
    ensures r == [] || !IsSpace(r[|r| - 1])
  {
    if s != [] && IsSpace(s[|s| - 1]) then TrimRight(s[..|s| - 1]) else s
  }

  /** What `lstrip` removes is whitespace only. */
  lemma {:induction false} TrimLeftRemovesSpace(s: string)
    ensures AllSpace(s[..|s| - |TrimLeft(s)|])
    decreases |s|
  {
    if s != [] && IsSpace(s[0]) {
      TrimLeftRemovesSpace(s[1..]);
      var k := |s| - |TrimLeft(s)|;
      forall i | 0 <= i < k ensures IsSpace(s[i]) {
        if i > 0 {
          assert s[i] == s[1..][..k - 1][i - 1];
        }
      }
    }
  }

  /** What `rstrip` removes is whitespace only. */
  lemma {:induction false} TrimRightRemovesSpace(s: string)
    ensures AllSpace(s[|TrimRight(s)|..])
    decreases |s|
  {
    if s != [] && IsSpace(s[|s| - 1]) {
      var init := s[..|s| - 1];
      TrimRightRemovesSpace(init);
      var k := |TrimRight(s)|;
      forall i | k <= i < |s| ensures IsSpace(s[i]) {
        if i < |s| - 1 {
          assert s[i] == init[k..][i - k];
        }
      }
    }
  }

  /** A leading whitespace character is stripped. */
  lemma TrimLeftCons(c: char, x: string)
    requires IsSpace(c)
    ensures TrimLeft([c] + x) == TrimLeft(x)
  {
    assert ([c] + x)[1..] == x;
  }

  /** A trailing whitespace character is stripped. */
  lemma TrimRightSnoc(x: string, c: char)
    requires IsSpace(c)
    ensures TrimRight(x + [c]) == TrimRight(x)
  {
    assert (x + [c])[..|x|] == x;
  }

  /** `str.strip()` */
  function Strip(s: string): string {
    TrimRight(TrimLeft(s))
  }

  /** `k` occurs in `s` starting at index `i`. */
  predicate OccursAt(s: string, k: string, i: int) {
    0 <= i <= |s| - |k| && s[i..i + |k|] == k
  }

  /** Python's `k in s` for strings. */
  predicate Contains(s: string, k: string) {
    exists i | 0 <= i <= |s| - |k| :: OccursAt(s, k, i)
  }

  /** `s.replace(pat, '')`: every non-overlapping occurrence of `pat`,
      scanning from the left, is removed. */
  function RemoveAll(s: string, pat: string): (r: string)
    requires pat != []
    ensures |r| <= |s|
    decreases |s|
  {
    if |s| < |pat| then s
    else if s[..|pat|] == pat then RemoveAll(s[|pat|..], pat)
    else [s[0]] + RemoveAll(s[1..], pat)
  }

  predicate IsAlnumChar(c: char) {
    'a' <= c <= 'z' || 'A' <= c <= 'Z' || '0' <= c <= '9'
  }

  /** `str.isalnum()`: non-empty and every character a letter or a digit. */
  predicate IsAlnum(s: string) {
    s != [] && forall i :: 0 <= i < |s| ==> IsAlnumChar(s[i])
  }

  /** A character the pattern does not contain is never removed. */
  lemma {:induction false} RemoveAllKeepsOthers(s: string, pat: string, c: char)
    requires pat != [] && c !in pat
    ensures c in s ==> c in RemoveAll(s, pat)
    decreases |s|
  {
    if |s| < |pat| {
    } else if s[..|pat|] == pat {
      assert s == s[..|pat|] + s[|pat|..];
      RemoveAllKeepsOthers(s[|pat|..], pat, c);
    } else {
      assert s == [s[0]] + s[1..];
      RemoveAllKeepsOthers(s[1..], pat, c);
    }
  }

  /** Removing a pattern whose first character does not occur changes
      nothing. */
  lemma {:induction false} RemoveAllAbsent(s: string, pat: string)
    requires pat != [] && pat[0] !in s
    ensures RemoveAll(s, pat) == s
    decreases |s|
  {
    if |s| >= |pat| {
      assert s[..|pat|][0] == s[0];
      assert s[..|pat|] != pat;
      RemoveAllAbsent(s[1..], pat);
      assert s == [s[0]] + s[1..];
    }
  }

  /** The decimal digits of `n`, as `str(n)` prints a non-negative int. */
  function Decimal(n: nat): (r: string)
    ensures r != []
    ensures forall i :: 0 <= i < |r| ==> '0' <= r[i] <= '9'
  {
    var digit := ['0' + (n % 10) as char];
    if n < 10 then digit else Decimal(n / 10) + digit
  }

  /** Python's `s[-k:]` for k >= 0: the last k characters, or all of `s`. */
  function LastChars(s: string, k: nat): string {
    if |s| <= k then s else s[|s| - k..]
  }
}
