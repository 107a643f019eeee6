/**
 * The pieces of Foundation's string handling that the prompt helpers use:
 * the `.whitespacesAndNewlines` character set, `trimmingCharacters(in:)`,
 * `lowercased()` and `replacingOccurrences(of: "\\", with: "")`.
 * Strings are sequences of Unicode scalars.
 */
module SwiftText {

  /** Membership in `CharacterSet.whitespacesAndNewlines`: Unicode general
      categories Zs, Zl and Zp, U+0009 through U+000D, and U+0085. */
  const BlankCodes: set<int> := {
    0x09, 0x0A, 0x0B, 0x0C, 0x0D, 0x20, 0x85, 0xA0, 0x1680,
    0x2000, 0x2001, 0x2002, 0x2003, 0x2004, 0x2005, 0x2006, 0x2007, 0x2008, 0x2009, 0x200A,
    0x2028, 0x2029, 0x202F, 0x205F, 0x3000 }

  predicate IsBlank(c: char) {
    c as int in BlankCodes
  }

  predicate AllBlank(s: string) {
    forall i | 0 <= i < |s| :: IsBlank(s[i])
  }

  /** `s[..i]` and `s[j..]` are blank. */
  predicate BlankOutside(s: string, i: int, j: int) {
    0 <= i <= j <= |s| &&
    (forall k | 0 <= k < i :: IsBlank(s[k])) &&
    (forall k | j <= k < |s| :: IsBlank(s[k]))
  }

  /** The index of the first non-blank character at or after `from`, or
      `|s|` when there is none. */
  function SkipBlanks(s: string, from: nat): (k: nat)
    requires from <= |s|
    ensures from <= k <= |s|
    ensures forall j | from <= j < k :: IsBlank(s[j])
    ensures k < |s| ==> !IsBlank(s[k])
    decreases |s| - from
  {
    if from < |s| && IsBlank(s[from]) then SkipBlanks(s, from + 1) else from
  }

  /** Where `s[from..end]` ends once its trailing blank characters are
      dropped. */
  function SkipBlanksBack(s: string, from: nat, end: nat): (k: nat)
    requires from <= end <= |s|
    ensures from <= k <= end
    ensures forall j | k <= j < end :: IsBlank(s[j])
    ensures from < k ==> !IsBlank(s[k - 1])
    decreases end
  {
    if from < end && IsBlank(s[end - 1]) then SkipBlanksBack(s, from, end - 1) else end
  }

  /** Where the trimmed text starts. */
  function TrimFrom(s: string): (i: nat)
    ensures i <= |s|
  {
    SkipBlanks(s, 0)
  }

  /** `s.trimmingCharacters(in: .whitespacesAndNewlines)`: the text between
      the leading and the trailing run of blank characters. */
  function Trim(s: string): (r: string)
    ensures r == [] <==> AllBlank(s)
    ensures r != [] ==> !IsBlank(r[0]) && !IsBlank(r[|r| - 1])
    ensures |r| <= |s|
  {
    var i := TrimFrom(s);
    var j := SkipBlanksBack(s, i, |s|);
    assert i < j ==> s[i..j][0] == s[i] && s[i..j][j - i - 1] == s[j - 1];
    s[i..j]
  }

  /** The trimmed string is the part of `s` between a blank prefix and a
      blank suffix. */
  lemma {:induction false} TrimIsMiddle(s: string)
    ensures var i := TrimFrom(s);
            i + |Trim(s)| <= |s| && Trim(s) == s[i..i + |Trim(s)|] && BlankOutside(s, i, i + |Trim(s)|)
  {
    var i := TrimFrom(s);
    var j := SkipBlanksBack(s, i, |s|);
    assert Trim(s) == s[i..j];
  }

  /** Conversely, an infix with non-blank ends (or an empty one) between a
      blank prefix and a blank suffix is the trimmed string, so `Trim` is
      the only such infix. */
  lemma {:induction false} TrimIsOnlyMiddle(s: string, i: nat, t: string)
    requires i + |t| <= |s| && t == s[i..i + |t|] && BlankOutside(s, i, i + |t|)
    requires t != [] ==> !IsBlank(t[0]) && !IsBlank(t[|t| - 1])
    ensures Trim(s) == t
  {
    var k := TrimFrom(s);
    var m := SkipBlanksBack(s, k, |s|);
    var j := i + |t|;
    assert Trim(s) == s[k..m];
    if t == [] {
      assert AllBlank(s) by {
        forall n | 0 <= n < |s| ensures IsBlank(s[n]) {
          assert n < i || j <= n;
        }
      }
    } else {
      assert s[i] == t[0] && s[j - 1] == t[|t| - 1];
      assert k == i;
      assert m == j;
    }
  }

  /** Lower-cases one scalar: the ASCII capitals map to the small letters and
      everything else is left alone. */
  function LowerChar(c: char): (r: char)
    ensures !('A' <= r <= 'Z')
    ensures 'A' <= c <= 'Z' ==> r as int == c as int + 32
    ensures !('A' <= c <= 'Z') ==> r == c
  {
    if 'A' <= c <= 'Z' then (c as int + 32) as char else c
  }

  /** `s.lowercased()` restricted to ASCII capitals. No other scalar
      lower-cases into an ASCII letter, so comparing the result with an
      all-lower-case ASCII word decides the same as Swift does. */
  function Lower(s: string): (r: string)
    ensures |r| == |s|
    ensures forall i | 0 <= i < |r| :: !('A' <= r[i] <= 'Z')
    ensures forall i | 0 <= i < |s| && 'A' <= s[i] <= 'Z' :: r[i] as int == s[i] as int + 32
    ensures forall i | 0 <= i < |s| && !('A' <= s[i] <= 'Z') :: r[i] == s[i]
  {
    seq(|s|, i requires 0 <= i < |s| => LowerChar(s[i]))
  }

  /** `t` spells the lower-case ASCII word `w`, in any mix of cases. */
  predicate SameIgnoringCase(t: string, w: string) {
    |t| == |w| &&
    forall i | 0 <= i < |t| :: t[i] == w[i] || ('A' <= t[i] <= 'Z' && t[i] as int + 32 == w[i] as int)
  }

  predicate IsLowerWord(w: string) {
    forall i | 0 <= i < |w| :: 'a' <= w[i] <= 'z'
  }

  /** Lower-casing gives a lower-case word exactly when the string spells
      that word up to case. */
  lemma {:induction false} LowerIsWord(t: string, w: string)
    requires IsLowerWord(w)
    ensures Lower(t) == w <==> SameIgnoringCase(t, w)
  {
    if SameIgnoringCase(t, w) {
      forall i | 0 <= i < |t| ensures Lower(t)[i] == w[i] {
        if t[i] == w[i] {
          assert !('A' <= t[i] <= 'Z');
        }
      }
    }
  }

  lemma {:induction false} LowerIdempotent(s: string)
    ensures Lower(Lower(s)) == Lower(s)
  {
  }

  /** `s.replacingOccurrences(of: "\\", with: "")`: every backslash deleted,
      every other character kept in order. */
  function RemoveBackslashes(s: string): (r: string)
    ensures '\\' !in r
    ensures |r| <= |s|
    ensures '\\' !in s ==> r == s
  {
    if s == [] then []
    else (if s[0] == '\\' then [] else [s[0]]) + RemoveBackslashes(s[1..])
  }

  /** Removing backslashes keeps every other character, as often as it
      occurs. */
  lemma {:induction false} RemoveBackslashesKeepsOthers(s: string)
    ensures multiset(RemoveBackslashes(s)) == multiset(s)['\\' := 0]
  {
    if s != [] {
      RemoveBackslashesKeepsOthers(s[1..]);
      assert s == [s[0]] + s[1..];
    }
  }

  /** Blanks around a string do not change its trimming. */
  lemma {:induction false} TrimIgnoresBlanksAround(p: string, o: nat, s: string)
    requires o + |s| <= |p|
    requires forall k | 0 <= k < |s| :: p[o + k] == s[k]
    requires forall k | 0 <= k < |p| && !(o <= k < o + |s|) :: IsBlank(p[k])
    ensures Trim(p) == Trim(s)
  {
    TrimIsMiddle(s);
    var i, t := TrimFrom(s), Trim(s);
    forall k | 0 <= k < |t| ensures p[o + i + k] == t[k] {
      assert t[k] == s[i + k];
    }
    assert t == p[o + i..o + i + |t|];
    assert BlankOutside(p, o + i, o + i + |t|) by {
      forall k | 0 <= k < o + i ensures IsBlank(p[k]) {
        if o <= k { assert p[k] == s[k - o]; }
      }
      forall k | o + i + |t| <= k < |p| ensures IsBlank(p[k]) {
        if k < o + |s| { assert p[k] == s[k - o]; }
      }
    }
    TrimIsOnlyMiddle(p, o + i, t);
  }

  /** A string without blanks at either end is its own trimming. */
  lemma {:induction false} TrimKeeps(s: string)
    requires s != [] && !IsBlank(s[0]) && !IsBlank(s[|s| - 1])
    ensures Trim(s) == s
  {
    TrimIsOnlyMiddle(s, 0, s);
  }

  /** Removing backslashes keeps the order of what is left: it works on
      each part of a string separately. */
  lemma {:induction false} RemoveBackslashesAppend(a: string, b: string)
    ensures RemoveBackslashes(a + b) == RemoveBackslashes(a) + RemoveBackslashes(b)
  {
    if a != [] {
      RemoveBackslashesAppend(a[1..], b);
      assert (a + b)[1..] == a[1..] + b;
      assert (a + b)[0] == a[0];
    } else {
      assert a + b == b;
    }
  }

  /** Removing backslashes works one character at a time. */
  lemma {:induction false} RemoveBackslashesCons(c: char, s: string)
    ensures RemoveBackslashes([c] + s) == (if c == '\\' then [] else [c]) + RemoveBackslashes(s)
  {
    assert ([c] + s)[1..] == s;
  }
}
