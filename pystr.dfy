/**
 * The Python string primitives (`join`, `startswith`) and the character
 * classes that the regular expressions and string methods of the
 * transcription utilities rely on; the classes are hand-coded for the code
 * points that matter to the corpus (README says where they stop being exact).
 */
module PyStr {
  import opened Seqs


  /** `s.startswith(p)`. */
  predicate StartsWith(s: string, p: string)
  {
    |p| <= |s| && s[..|p|] == p
  }

  /** `sep.join(ts)`. */
  function JoinWith(ts: seq<string>, sep: string): string
  {
    if ts == [] then []
    else if |ts| == 1 then ts[0]
    else ts[0] + sep + JoinWith(ts[1..], sep)
  }

  /** Python's `str.isspace()`, which is also what `\s`, `str.split()` and `str.strip()` use. */
  predicate IsSpace(c: char)
  {
    || ('\t' <= c <= '\r')
    || ('\U{1c}' <= c <= '\U{1f}')
    || c == ' '
    || c == '\U{85}'
    || c == '\U{a0}'
    || c == '\U{1680}'
    || ('\U{2000}' <= c <= '\U{200a}')
    || c == '\U{2028}'
    || c == '\U{2029}'
    || c == '\U{202f}'
    || c == '\U{205f}'
    || c == '\U{3000}'
  }

  /** `\d`: a decimal digit (only the ASCII ones are modelled). */
  predicate IsDigit(c: char)
  {
    '0' <= c <= '9'
  }

  /** The `A-Z` range of a character class: ASCII capitals only. */
  predicate IsAsciiUpper(c: char)
  {
    'A' <= c <= 'Z'
  }

  /**
   * `\w` on a `str` pattern: a letter, a digit, any other numeric character,
   * or `_`. Exact below U+0370 (Latin, Latin-1, Latin Extended, IPA and the
   * spacing modifier letters); everything from U+0370 on counts as non-word.
   */
  predicate IsWordChar(c: char)
  {
    || ('0' <= c <= '9')
    || ('A' <= c <= 'Z')
    || c == '_'
    || ('a' <= c <= 'z')
    || c == '\U{aa}' || c == '\U{b2}' || c == '\U{b3}' || c == '\U{b5}'
    || c == '\U{b9}' || c == '\U{ba}'
    || ('\U{bc}' <= c <= '\U{be}')
    || ('\U{c0}' <= c <= '\U{d6}')
    || ('\U{d8}' <= c <= '\U{f6}')
    || ('\U{f8}' <= c <= '\U{2c1}')
    || ('\U{2c6}' <= c <= '\U{2d1}')
    || ('\U{2e0}' <= c <= '\U{2e4}')
    || c == '\U{2ec}' || c == '\U{2ee}'
  }

  /** `s.lstrip()`. */
  function LStrip(s: string): (r: string)
    ensures |r| <= |s| && r == s[|s| - |r|..]
    ensures r == [] || !IsSpace(r[0])
    ensures forall i :: 0 <= i < |s| - |r| ==> IsSpace(s[i])
  {
    if s != [] && IsSpace(s[0]) then LStrip(s[1..]) else s
  }

  /** `s.rstrip()`. */
  function RStrip(s: string): (r: string)
    ensures |r| <= |s| && r == s[..|r|]
    ensures r == [] || !IsSpace(r[|r| - 1])
    ensures forall i :: |r| <= i < |s| ==> IsSpace(s[i])
  {
    if s != [] && IsSpace(s[|s| - 1]) then RStrip(s[..|s| - 1]) else s
  }

  /** `s.strip()`. */
  function Strip(s: string): string
  {
    RStrip(LStrip(s))
  }

  /** `s.strip()` neither starts nor ends with whitespace. */
  lemma StripEnds(s: string)
    ensures var r := Strip(s);
              r == [] || (!IsSpace(r[0]) && !IsSpace(r[|r| - 1]))
  {
    var l := LStrip(s);
    var r := RStrip(l);
    assert r == [] || r[0] == l[0] by {
      assert r == l[..|r|];
    }
  }

  /** `s.strip()` is the slice of `s` that starts where `s.lstrip()` does. */
  lemma StripIsSlice(s: string)
    ensures var r := Strip(s); var i := |s| - |LStrip(s)|;
              i + |r| <= |s| && s[i..i + |r|] == r
  {
    var l := LStrip(s);
    var r := RStrip(l);
    PrefixOfSuffix(s, l, r);
  }

  /** Everything after that slice is whitespace (everything before it is, by `LStrip`). */
  lemma StripTrailing(s: string)
    ensures var r := Strip(s); var i := |s| - |LStrip(s)|;
              forall j :: i + |r| <= j < |s| ==> IsSpace(s[j])
  {
    var l := LStrip(s);
    var r := RStrip(l);
    SuffixIndex(s, l);
    assert forall k :: |r| <= k < |l| ==> IsSpace(l[k]);
  }

  /** `s.strip()` only drops characters. */
  lemma StripChars(s: string)
    ensures forall c {:trigger c in Strip(s)} :: c in Strip(s) ==> c in s
  {
    var r := Strip(s);
    var i := |s| - |LStrip(s)|;
    StripIsSlice(s);
    forall c | c in r ensures c in s {
      var k :| 0 <= k < |r| && r[k] == c;
      assert s[i + k] == c;
    }
  }

  /** The longest prefix of `s` without whitespace. */
  function WordPrefix(s: string): (r: string)
    ensures |r| <= |s| && r == s[..|r|]
    ensures forall c <- r :: !IsSpace(c)
    ensures |r| == |s| || IsSpace(s[|r|])
  {
    if s == [] || IsSpace(s[0]) then [] else [s[0]] + WordPrefix(s[1..])
  }

  /**
   * `s.split()[0]`: the first whitespace-separated field, which exists when
   * `s` has a character other than whitespace.
   */
  function FirstWord(s: string): (r: string)
    requires exists c <- s :: !IsSpace(c)
    ensures |r| > 0 && forall c <- r :: !IsSpace(c)
    ensures var l := LStrip(s);
              && |r| <= |l| && l[..|r|] == r
              && (|r| == |l| || IsSpace(l[|r|]))
  {
    var l := LStrip(s);
    assert |l| > 0 by {
      var c :| c in s && !IsSpace(c);
      var k :| 0 <= k < |s| && s[k] == c;
    }
    WordPrefix(l)
  }

  lemma SpaceIsNotWordChar(c: char)
    requires IsSpace(c)
    ensures !IsWordChar(c) && !IsDigit(c)
  {
  }
}
