/**
  Whitespace stripping as Python's `str.strip()` does it. The profile name
  default (`"first last".strip()`) and Django's form fields, which strip their
  input before validating it, both rely on it; those form fields also refuse
  text holding a NUL character.
 */
module Text {

  /** The characters for which Python's `str.isspace()` holds. */
  const WHITESPACE: set<char> := {
    ' ', '\t', '\n', '\r', '\U{000B}', '\U{000C}',
    '\U{001C}', '\U{001D}', '\U{001E}', '\U{001F}',
    '\U{0085}', '\U{00A0}', '\U{1680}',
    '\U{2000}', '\U{2001}', '\U{2002}', '\U{2003}', '\U{2004}', '\U{2005}',
    '\U{2006}', '\U{2007}', '\U{2008}', '\U{2009}', '\U{200A}',
    '\U{2028}', '\U{2029}', '\U{202F}', '\U{205F}', '\U{3000}'
  }

  predicate IsSpace(c: char) {
    c in WHITESPACE
  }

  predicate AllSpace(s: string) {
    forall i :: 0 <= i < |s| ==> IsSpace(s[i])
  }

  /** A form text field refuses any value holding a NUL character. */
  predicate TextFieldClean(s: string) {
    '\0' !in s
  }

  /** Whitespace followed by whitespace is whitespace. */
  lemma AllSpaceJoin(a: string, b: string)
    requires AllSpace(a) && AllSpace(b)
    ensures AllSpace(a + b)
  {
    var ab := a + b;
    forall i | 0 <= i < |ab|
      ensures IsSpace(ab[i])
    {
      if i < |a| {
        assert ab[i] == a[i];
      } else {
        assert ab[i] == b[i - |a|];
      }
    }
  }

  /** The length of the longest all-whitespace prefix. */
  function LeadingSpace(s: string): (n: nat)
    ensures n <= |s|
    ensures AllSpace(s[..n])
    ensures n < |s| ==> !IsSpace(s[n])
  {
    if s != [] && IsSpace(s[0]) then
      var k := LeadingSpace(s[1..]);
      assert s[..k + 1] == [s[0]] + s[1..][..k];
      AllSpaceJoin([s[0]], s[1..][..k]);
      k + 1
    else
      0
  }

  /** The length of the longest all-whitespace suffix. */
  function TrailingSpace(s: string): (n: nat)
    ensures n <= |s|
    ensures AllSpace(s[|s| - n..])
    ensures n < |s| ==> !IsSpace(s[|s| - n - 1])
  {
    if s != [] && IsSpace(s[|s| - 1]) then
      var init := s[..|s| - 1];
      var k := TrailingSpace(init);
      assert s[|s| - (k + 1)..] == init[|init| - k..] + [s[|s| - 1]];
      AllSpaceJoin(init[|init| - k..], [s[|s| - 1]]);
      assert k < |init| ==> init[|init| - k - 1] == s[|s| - (k + 1) - 1];
      k + 1
    else
      0
  }

  /** Where `str.strip()` cuts: after the leading whitespace (`i`), and
      before the trailing whitespace of what follows (`j`). */
  lemma StripCuts(s: string, i: nat, j: nat)
    requires i <= j <= |s|
    requires AllSpace(s[..i]) && (i < |s| ==> !IsSpace(s[i]))
    requires AllSpace(s[i..][j - i..]) && (i < j ==> !IsSpace(s[i..][j - i - 1]))
    ensures AllSpace(s[j..])
    ensures i < j ==> !IsSpace(s[i]) && !IsSpace(s[j - 1])
    ensures i == j <==> AllSpace(s)
  {
    assert s[j..] == s[i..][j - i..];
    if i == j {
      assert s == s[..i] + s[j..];
      AllSpaceJoin(s[..i], s[j..]);
    } else {
      assert s[i..][j - i - 1] == s[j - 1];
    }
  }

  /** The cut points of `str.strip()`. */
  function StripBounds(s: string): (r: (nat, nat))
    ensures r.0 <= r.1 <= |s|
    ensures AllSpace(s[..r.0]) && AllSpace(s[r.1..])
    ensures r.0 < r.1 ==> !IsSpace(s[r.0]) && !IsSpace(s[r.1 - 1])
    ensures r.0 == r.1 <==> AllSpace(s)
  {
    var i := LeadingSpace(s);
    var j := |s| - TrailingSpace(s[i..]);
    StripCuts(s, i, j);
    (i, j)
  }

  /** Python's `str.strip()` with no argument: leading whitespace goes first,
      then trailing whitespace of what is left. */
  function Strip(s: string): (r: string)
    ensures |r| <= |s|
    ensures r != [] ==> !IsSpace(r[0]) && !IsSpace(r[|r| - 1])
    ensures r == [] <==> AllSpace(s)
  {
    var (i, j) := StripBounds(s);
    s[i..j]
  }

  /** The stripped text is a contiguous piece of the input and everything
      stripped off either side is whitespace. */
  lemma StripIsSlice(s: string)
    ensures var r := Strip(s);
      exists i :: 0 <= i <= |s| - |r| && s[i..i + |r|] == r && AllSpace(s[..i]) && AllSpace(s[i + |r|..])
  {
    var (i, j) := StripBounds(s);
    var r := Strip(s);
    assert r == s[i..j];
    assert |r| == j - i;
    assert i + |r| == j;
    assert 0 <= i <= |s| - |r|;
    assert s[i..i + |r|] == r;
    assert AllSpace(s[..i]) && AllSpace(s[i + |r|..]);
  }

  /** A string with no whitespace at either end is its own strip. */
  lemma StripKeepsStripped(r: string)
    requires r != [] ==> !IsSpace(r[0]) && !IsSpace(r[|r| - 1])
    ensures Strip(r) == r
  {
    if r != [] {
      assert LeadingSpace(r) == 0;
      assert r[0..] == r;
      assert TrailingSpace(r) == 0;
      assert StripBounds(r) == (0, |r|);
    }
  }

  /** Stripping twice strips nothing more. */
  lemma StripIdempotent(s: string)
    ensures Strip(Strip(s)) == Strip(s)
  {
    StripKeepsStripped(Strip(s));
  }
}
