/**
 * `stringWithSpace(_:_:trailing:)` and its two front ends,
 * `toPrintWithSpace(_:_:trailing:)` and `String.withSpace(_:trailing:)`:
 * fit a string into a column of `totSpace` characters by adding U+0020
 * spaces after it (trailing) or before it (leading). A string already
 * longer than the column is returned unchanged.
 */
module Padding {
  import opened SwiftText

  /** `String(repeating: "\u{0020}", count: n)`. */
  function Spaces(n: nat): (r: string)
    ensures |r| == n
    ensures forall i | 0 <= i < n :: r[i] == ' '
  {
    seq(n, i => ' ')
  }

  /** The column width a padded string ends up with. */
  function Width(str: string, totSpace: int): nat {
    if totSpace < |str| then |str| else totSpace
  }

  /** `stringWithSpace(str, totSpace, trailing: trailing)`, which also is
      `str.withSpace(totSpace, trailing: trailing)`. */
  function StringWithSpace(str: string, totSpace: int, trailing: bool): (r: string)
    ensures totSpace < |str| ==> r == str
    ensures |r| == Width(str, totSpace)
    ensures trailing ==> r[..|str|] == str && forall i | |str| <= i < |r| :: r[i] == ' '
    ensures !trailing ==> r[|r| - |str|..] == str && forall i | 0 <= i < |r| - |str| :: r[i] == ' '
  {
    if totSpace < |str| then str
    else if trailing then str + Spaces(totSpace - |str|)
    else Spaces(totSpace - |str|) + str
  }

  /** `toPrintWithSpace(item, totSpace, trailing: trailing)`: the item's
      `String(describing:)` text, given here as `describe`, padded. */
  function ToPrintWithSpace<T>(describe: T -> string, item: T, totSpace: int, trailing: bool): (r: string)
    ensures |r| == Width(describe(item), totSpace)
    ensures trailing ==> r[..|describe(item)|] == describe(item) &&
                         forall i | |describe(item)| <= i < |r| :: r[i] == ' '
    ensures !trailing ==> r[|r| - |describe(item)|..] == describe(item) &&
                          forall i | 0 <= i < |r| - |describe(item)| :: r[i] == ' '
  {
    StringWithSpace(describe(item), totSpace, trailing)
  }

  /** `str.withSpace(totSpace, trailing: trailing)`: the two front ends
      agree on a string, whose description is itself. */
  function WithSpace(str: string, totSpace: int, trailing: bool): (r: string)
    ensures r == ToPrintWithSpace(s => s, str, totSpace, trailing)
  {
    StringWithSpace(str, totSpace, trailing)
  }

  /** The string and the column width determine the result: it is the
      only string of that width that holds `str` at the chosen end and
      spaces everywhere else. */
  lemma {:induction false} PaddingIsUnique(str: string, totSpace: int, trailing: bool, r: string)
    requires |r| == Width(str, totSpace)
    requires trailing ==> r[..|str|] == str && forall i | |str| <= i < |r| :: r[i] == ' '
    requires !trailing ==> r[|r| - |str|..] == str && forall i | 0 <= i < |r| - |str| :: r[i] == ' '
    ensures r == StringWithSpace(str, totSpace, trailing)
  {
    var p := StringWithSpace(str, totSpace, trailing);
    forall i | 0 <= i < |r| ensures r[i] == p[i] {
      if trailing && i < |str| {
        assert r[i] == r[..|str|][i] && p[i] == p[..|str|][i];
      } else if !trailing && |r| - |str| <= i {
        var k := i - (|r| - |str|);
        assert r[i] == r[|r| - |str|..][k] && p[i] == p[|p| - |str|..][k];
      }
    }
  }

  /** Padding an already padded string to the same width changes nothing. */
  lemma {:induction false} PaddingIdempotent(str: string, totSpace: int, trailing: bool)
    ensures StringWithSpace(StringWithSpace(str, totSpace, trailing), totSpace, trailing) ==
            StringWithSpace(str, totSpace, trailing)
  {
  }

  /** When the string fills the column, the side does not matter. */
  lemma {:induction false} FullColumnIgnoresSide(str: string, totSpace: int)
    requires totSpace <= |str|
    ensures StringWithSpace(str, totSpace, true) == StringWithSpace(str, totSpace, false) == str
  {
    if totSpace == |str| {
      assert Spaces(0) == [];
      assert str + [] == str && [] + str == str;
    }
  }

  /** Where the string sits in its padding. */
  function Offset(str: string, totSpace: int, trailing: bool): nat {
    if trailing then 0 else Width(str, totSpace) - |str|
  }

  /** The padded string holds `str` at `Offset` and spaces everywhere else. */
  lemma {:induction false} PaddingLayout(str: string, totSpace: int, trailing: bool)
    ensures var p, o := StringWithSpace(str, totSpace, trailing), Offset(str, totSpace, trailing);
            o + |str| <= |p| &&
            (forall k | 0 <= k < |str| :: p[o + k] == str[k]) &&
            (forall k | 0 <= k < |p| && !(o <= k < o + |str|) :: p[k] == ' ')
  {
    var p, o := StringWithSpace(str, totSpace, trailing), Offset(str, totSpace, trailing);
    if totSpace < |str| {
      assert o == 0 && p == str;
    } else if trailing {
      var pad := Spaces(totSpace - |str|);
      assert p == str + pad && o == 0;
      forall k | 0 <= k < |str| ensures p[o + k] == str[k] {
        assert (str + pad)[k] == str[k];
      }
      forall k | 0 <= k < |p| && !(o <= k < o + |str|) ensures p[k] == ' ' {
        assert (str + pad)[k] == pad[k - |str|];
      }
    } else {
      var pad := Spaces(totSpace - |str|);
      assert p == pad + str && o == |pad|;
      forall k | 0 <= k < |str| ensures p[o + k] == str[k] {
        assert (pad + str)[|pad| + k] == str[k];
      }
      forall k | 0 <= k < |p| && !(o <= k < o + |str|) ensures p[k] == ' ' {
        assert (pad + str)[k] == pad[k];
      }
    }
  }

  /** Padding only adds blanks, so trimming a padded string gives what
      trimming the string itself gives, on either side. */
  lemma {:induction false} PaddingTrims(str: string, totSpace: int, trailing: bool)
    ensures Trim(StringWithSpace(str, totSpace, trailing)) == Trim(str)
  {
    var p, o := StringWithSpace(str, totSpace, trailing), Offset(str, totSpace, trailing);
    PaddingLayout(str, totSpace, trailing);
    assert IsBlank(' ');
    forall k | 0 <= k < |p| && !(o <= k < o + |str|) ensures IsBlank(p[k]) {
      assert p[k] == ' ';
    }
    TrimIgnoresBlanksAround(p, o, str);
  }

  /** A string without blanks at its ends comes back from its padding by
      trimming. */
  lemma {:induction false} PaddingUndoneByTrim(str: string, totSpace: int, trailing: bool)
    requires str == [] || (!IsBlank(str[0]) && !IsBlank(str[|str| - 1]))
    ensures Trim(StringWithSpace(str, totSpace, trailing)) == str
  {
    PaddingTrims(str, totSpace, trailing);
    if str != [] {
      TrimKeeps(str);
    }
  }

  lemma {:induction false} PaddingExamples()
    ensures StringWithSpace("C", 4, true) == "C   "
    ensures StringWithSpace("12", 5, false) == "   12"
    ensures StringWithSpace("carbon", 3, true) == "carbon"
  {
    assert Spaces(3) == "   ";
  }
}
