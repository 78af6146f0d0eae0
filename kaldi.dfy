/**
 * `kaldi_tokenize`: turns the text of one orthographic annotation into the
 * tokens of a Kaldi (speech-recognition) transcript. Four steps run in order:
 * delete the characters that mean nothing to Kaldi, delete the opening
 * markers `<X `, replace every run of digits by an anonymisation code, and
 * split on pipes and whitespace runs after stripping the ends. The code is
 * the one random draw of the call (`random_anom()`), passed in as `code`.
 */
module Kaldi {
  import opened PyStr
  import opened Seqs

  /** The anonymisation codes. */
  const ANOM: set<string> := {"NJ", "NN", "NM", "NO", "NT"}

  lemma AnomCodesAreCapitals(code: string)
    requires code in ANOM
    ensures |code| == 2 && forall c <- code :: IsAsciiUpper(c)
  {
  }

  /** Characters of the class `[\?#\$\[\]\{\}\(\)=>\-\*\+_]`. */
  predicate IsIrrelevant(c: char)
  {
    || c == '?' || c == '#' || c == '$' || c == '[' || c == ']'
    || c == '{' || c == '}' || c == '(' || c == ')' || c == '='
    || c == '>' || c == '-' || c == '*' || c == '+' || c == '_'
  }

  /** Step 1: delete every irrelevant character. */
  function RemoveIrrelevant(s: string): (r: string)
    ensures |r| <= |s| && IsSubsequence(r, s)
    ensures forall c {:trigger c in r} :: c in r <==> c in s && !IsIrrelevant(c)
  {
    if s == [] then []
    else if IsIrrelevant(s[0]) then RemoveIrrelevant(s[1..])
    else
      var r := [s[0]] + RemoveIrrelevant(s[1..]);
      assert r[0] == s[0] && r[1..] == RemoveIrrelevant(s[1..]);
      r
  }

  /** Step 1 works character by character: it distributes over concatenation ... */
  lemma {:induction false} RemoveIrrelevantAppend(a: string, b: string)
    ensures RemoveIrrelevant(a + b) == RemoveIrrelevant(a) + RemoveIrrelevant(b)
    decreases |a|
  {
    if a == [] {
      assert a + b == b;
    } else {
      DropAppend(a, b, 1);
      RemoveIrrelevantAppend(a[1..], b);
      if !IsIrrelevant(a[0]) {
        AppendAssoc([a[0]], RemoveIrrelevant(a[1..]), RemoveIrrelevant(b));
      }
    }
  }

  /** ... and keeps a single character exactly when it is not irrelevant. */
  lemma RemoveIrrelevantChar(c: char)
    ensures RemoveIrrelevant([c]) == if IsIrrelevant(c) then [] else [c]
  {
    assert [c][1..] == [];
  }

  /** The length of the longest prefix of `s` made of ASCII capitals. */
  function UpperRunLength(s: string): (n: nat)
    ensures n <= |s|
    ensures forall i :: 0 <= i < n ==> IsAsciiUpper(s[i])
    ensures n < |s| ==> !IsAsciiUpper(s[n])
  {
    if s == [] || !IsAsciiUpper(s[0]) then 0 else 1 + UpperRunLength(s[1..])
  }

  /** `s` starts with a match of `<[A-Z]+ `. */
  predicate MarkerAt(s: string)
  {
    && |s| > 0
    && s[0] == '<'
    && var n := UpperRunLength(s[1..]);
       n > 0 && 1 + n < |s| && s[1 + n] == ' '
  }

  /** Step 2: `re.sub("<[A-Z]+ ", "", s)`, scanning left to right without rescanning what a deletion joins. */
  function RemoveMarkers(s: string): (r: string)
    ensures |r| <= |s| && IsSubsequence(r, s)
    ensures forall c {:trigger c in r} :: c in r ==> c in s
    decreases |s|
  {
    if s == [] then []
    else if MarkerAt(s) then
      var k := UpperRunLength(s[1..]) + 2;
      var r := RemoveMarkers(s[k..]);
      SubsequenceDrop(r, s, k);
      r
    else
      var r := [s[0]] + RemoveMarkers(s[1..]);
      assert r[0] == s[0] && r[1..] == RemoveMarkers(s[1..]);
      r
  }

  /** The length of the longest prefix of `s` made of digits. */
  function DigitRunLength(s: string): (n: nat)
    ensures n <= |s|
    ensures forall i :: 0 <= i < n ==> IsDigit(s[i])
    ensures n < |s| ==> !IsDigit(s[n])
  {
    if s == [] || !IsDigit(s[0]) then 0 else 1 + DigitRunLength(s[1..])
  }

  /** Step 3: `re.sub(r"\d+", code, s)`: every maximal run of digits becomes `code`. */
  function Anonymise(s: string, code: string): (r: string)
    ensures forall c {:trigger c in r} :: c in r ==> (c in s && !IsDigit(c)) || c in code
    decreases |s|
  {
    if s == [] then []
    else if IsDigit(s[0]) then
      var n := DigitRunLength(s);
      assert forall c <- s[n..] :: c in s;
      code + Anonymise(s[n..], code)
    else
      assert forall c <- s[1..] :: c in s;
      [s[0]] + Anonymise(s[1..], code)
  }

  /** A separator of `re.split(r"\||\s+", ...)`: a pipe or a whitespace character. */
  predicate IsSeparator(c: char)
  {
    c == '|' || IsSpace(c)
  }

  /** The length of the longest prefix of `s` made of whitespace. */
  function SpaceRunLength(s: string): (n: nat)
    ensures n <= |s|
    ensures forall i :: 0 <= i < n ==> IsSpace(s[i])
    ensures n < |s| ==> !IsSpace(s[n])
  {
    if s == [] || !IsSpace(s[0]) then 0 else 1 + SpaceRunLength(s[1..])
  }

  /**
   * The pieces of `re.split(r"\||\s+", s)` when the piece in progress
   * already holds `acc`: a pipe ends a piece, and so does a whole run of
   * whitespace; nothing else is dropped, so empty pieces can occur.
   */
  function SplitFrom(s: string, acc: string): (r: seq<string>)
    ensures |r| >= 1
    ensures forall t, c {:trigger c in t, t in r} :: t in r && c in t ==> (c in s && !IsSeparator(c)) || c in acc
    decreases |s|
  {
    if s == [] then [acc]
    else if s[0] == '|' then [acc] + SplitFrom(s[1..], [])
    else if IsSpace(s[0]) then [acc] + SplitFrom(s[SpaceRunLength(s)..], [])
    else SplitFrom(s[1..], acc + [s[0]])
  }

  /** `re.split(r"\||\s+", s)`. */
  function Split(s: string): (r: seq<string>)
    ensures |r| >= 1
    ensures forall t, c {:trigger c in t, t in r} :: t in r && c in t ==> c in s && !IsSeparator(c)
  {
    SplitFrom(s, [])
  }

  /**
   * `kaldi_tokenize(annotation)` when `random_anom()` returns `code`: the
   * list is never empty, and no token holds an irrelevant character, a pipe,
   * whitespace or a digit.
   */
  function KaldiTokenize(annotation: string, code: string): (r: seq<string>)
    requires code in ANOM
    ensures |r| >= 1
    ensures forall t, c {:trigger c in t, t in r} :: t in r && c in t ==>
              !IsIrrelevant(c) && !IsSeparator(c) && !IsDigit(c)
  {
    var s4 := Strip(Anonymise(RemoveMarkers(RemoveIrrelevant(annotation)), code));
    StrippedChars(annotation, code, s4);
    SplitKeepsClean(s4);
    Split(s4)
  }

  /** The pieces of a text without irrelevant characters and digits have none either. */
  lemma SplitKeepsClean(s: string)
    requires forall c {:trigger c in s} :: c in s ==> !IsIrrelevant(c) && !IsDigit(c)
    ensures forall t, c {:trigger c in t, t in Split(s)} :: t in Split(s) && c in t ==>
              !IsIrrelevant(c) && !IsSeparator(c) && !IsDigit(c)
  {
    var r := Split(s);
    forall t, c | t in r && c in t ensures !IsIrrelevant(c) && !IsSeparator(c) && !IsDigit(c) {
      assert c in s;
    }
  }

  /** A character left before the split is neither irrelevant nor a digit. */
  lemma StrippedChars(annotation: string, code: string, s4: string)
    requires code in ANOM
    requires s4 == Strip(Anonymise(RemoveMarkers(RemoveIrrelevant(annotation)), code))
    ensures forall c {:trigger c in s4} :: c in s4 ==> !IsIrrelevant(c) && !IsDigit(c)
  {
    var s3 := Anonymise(RemoveMarkers(RemoveIrrelevant(annotation)), code);
    StripChars(s3);
    AnonymisedChars(annotation, code);
  }

  /** A character left after steps 1 to 3 is neither irrelevant nor a digit. */
  lemma AnonymisedChars(annotation: string, code: string)
    requires code in ANOM
    ensures var s3 := Anonymise(RemoveMarkers(RemoveIrrelevant(annotation)), code);
              forall c {:trigger c in s3} :: c in s3 ==> !IsIrrelevant(c) && !IsDigit(c)
  {
    AnomCodesAreCapitals(code);
    var s1 := RemoveIrrelevant(annotation);
    var s2 := RemoveMarkers(s1);
    forall c | c in Anonymise(s2, code) ensures !IsIrrelevant(c) && !IsDigit(c) {
      if c !in code {
        assert c in s2;
        assert c in s1;
      }
    }
  }

  // ---------------------------------------------------------------------
  // Step 1 and the strip: text they have nothing to do on is left alone

  lemma {:induction false} RemoveIrrelevantUntouched(s: string)
    requires forall c <- s :: !IsIrrelevant(c)
    ensures RemoveIrrelevant(s) == s
    decreases |s|
  {
    if s != [] {
      assert s[0] in s;
      RemoveIrrelevantUntouched(s[1..]);
    }
  }

  lemma StripUntouched(s: string)
    requires s == [] || (!IsSpace(s[0]) && !IsSpace(s[|s| - 1]))
    ensures Strip(s) == s
  {
  }

  // ---------------------------------------------------------------------
  // Step 2: what the marker deletion removes and what it keeps

  /** A prefix without `<` is copied unchanged. */
  lemma {:induction false} RemoveMarkersKeepsPrefix(u: string, v: string)
    requires '<' !in u
    ensures RemoveMarkers(u + v) == u + RemoveMarkers(v)
    decreases |u|
  {
    if u == [] {
      assert u + v == v;
    } else {
      assert u[0] in u;
      assert (u + v)[0] == u[0] && !MarkerAt(u + v);
      assert RemoveMarkers(u + v) == [u[0]] + RemoveMarkers((u + v)[1..]);
      assert (u + v)[1..] == u[1..] + v;
      RemoveMarkersKeepsPrefix(u[1..], v);
      assert [u[0]] + (u[1..] + RemoveMarkers(v)) == u + RemoveMarkers(v);
    }
  }

  lemma RemoveMarkersAtMarker(caps: string, v: string)
    requires |caps| > 0 && forall c <- caps :: IsAsciiUpper(c)
    ensures RemoveMarkers(['<'] + caps + [' '] + v) == RemoveMarkers(v)
  {
    var m := ['<'] + caps + [' '] + v;
    assert m[1..] == caps + ([' '] + v);
    UpperRunExact(caps, [' '] + v);
    assert m[1 + |caps|] == ' ';
    assert MarkerAt(m);
    assert m[|caps| + 2..] == v;
  }

  /**
   * Where no marker starts, nothing is deleted: a `<` that does not open
   * `<` + capitals + space, as in `a<b` or `<NOISEx`, is kept.
   */
  lemma {:induction false} RemoveMarkersNoMarker(s: string)
    requires forall i :: 0 <= i < |s| ==> !MarkerAt(s[i..])
    ensures RemoveMarkers(s) == s
    decreases |s|
  {
    if s != [] {
      assert s[0..] == s;
      forall i | 0 <= i < |s| - 1 ensures !MarkerAt(s[1..][i..]) {
        assert s[1..][i..] == s[i + 1..];
      }
      RemoveMarkersNoMarker(s[1..]);
      HeadTail(s);
    }
  }

  /** For instance `a<b` passes through the marker deletion unchanged. */
  lemma RemoveMarkersKeepsLoneBracket()
    ensures RemoveMarkers("a<b") == "a<b"
  {
    var s := "a<b";
    assert s[0..][0] == 'a' && s[1..][1..] == "b" && s[2..][0] == 'b';
    RemoveMarkersNoMarker(s);
  }

  /** A character that is not a capital ends a run of capitals. */
  lemma {:induction false} UpperRunAppend(a: string, b: string)
    requires b == [] || !IsAsciiUpper(b[0])
    ensures UpperRunLength(a + b) == UpperRunLength(a)
    decreases |a|
  {
    if a == [] {
      assert a + b == b;
    } else {
      DropAppend(a, b, 1);
      if IsAsciiUpper(a[0]) {
        UpperRunAppend(a[1..], b);
      }
    }
  }

  /** A marker cannot run into a following `<`: `u + m` starts with one exactly when `u` does. */
  lemma MarkerAtAppend(u: string, m: string)
    requires u != [] && m != [] && m[0] == '<'
    ensures MarkerAt(u + m) <==> MarkerAt(u)
    ensures UpperRunLength((u + m)[1..]) == UpperRunLength(u[1..])
  {
    DropAppend(u, m, 1);
    UpperRunAppend(u[1..], m);
    var n := UpperRunLength(u[1..]);
    if 1 + n < |u| {
      assert (u + m)[1 + n] == u[1 + n];
    } else {
      assert (u + m)[1 + n] == m[0];
    }
  }

  /** A marker `<` + capitals + space is deleted wherever it stands, and only it. */
  lemma {:induction false} RemoveMarkersAnywhere(u: string, caps: string, v: string)
    requires |caps| > 0 && forall c <- caps :: IsAsciiUpper(c)
    ensures RemoveMarkers(u + (['<'] + caps + [' '] + v)) == RemoveMarkers(u) + RemoveMarkers(v)
    decreases |u|
  {
    var m := ['<'] + caps + [' '] + v;
    if u == [] {
      assert u + m == m;
      RemoveMarkersAtMarker(caps, v);
    } else {
      assert m[0] == '<';
      MarkerAtAppend(u, m);
      if MarkerAt(u) {
        var k := UpperRunLength(u[1..]) + 2;
        DropAppend(u, m, k);
        RemoveMarkersAnywhere(u[k..], caps, v);
      } else {
        DropAppend(u, m, 1);
        RemoveMarkersAnywhere(u[1..], caps, v);
        AppendAssoc([u[0]], RemoveMarkers(u[1..]), RemoveMarkers(v));
      }
    }
  }

  // ---------------------------------------------------------------------
  // Step 3: every maximal digit run becomes the one code of the call

  lemma DigitRunOfAppend(a: string, b: string)
    requires a == [] || b == [] || !IsDigit(a[|a| - 1]) || !IsDigit(b[0])
    requires DigitRunLength(a) > 0
    ensures DigitRunLength(a + b) == DigitRunLength(a)
  {
    var m := DigitRunLength(a);
    forall i | 0 <= i < m ensures IsDigit((a + b)[i]) {
      assert (a + b)[i] == a[i];
    }
    if m < |a| {
      assert (a + b)[m] == a[m];
    } else if b != [] {
      assert IsDigit(a[m - 1]);
      assert (a + b)[m] == b[0];
    }
  }

  lemma DigitRunExact(d: string, v: string)
    requires forall c <- d :: IsDigit(c)
    requires v == [] || !IsDigit(v[0])
    ensures DigitRunLength(d + v) == |d|
  {
    forall i | 0 <= i < |d| ensures IsDigit((d + v)[i]) {
      assert (d + v)[i] == d[i] && d[i] in d;
    }
    if v != [] {
      assert (d + v)[|d|] == v[0];
    }
  }

  lemma UpperRunExact(caps: string, v: string)
    requires forall c <- caps :: IsAsciiUpper(c)
    requires v == [] || !IsAsciiUpper(v[0])
    ensures UpperRunLength(caps + v) == |caps|
  {
    forall i | 0 <= i < |caps| ensures IsAsciiUpper((caps + v)[i]) {
      assert (caps + v)[i] == caps[i] && caps[i] in caps;
    }
    if v != [] {
      assert (caps + v)[|caps|] == v[0];
    }
  }

  /** Anonymising splits at any boundary that does not cut a digit run. */
  lemma {:induction false} AnonymiseAppend(a: string, b: string, code: string)
    requires forall c <- code :: !IsDigit(c)
    requires a == [] || b == [] || !IsDigit(a[|a| - 1]) || !IsDigit(b[0])
    ensures Anonymise(a + b, code) == Anonymise(a, code) + Anonymise(b, code)
    decreases |a|
  {
    if a == [] {
      assert a + b == b;
    } else if IsDigit(a[0]) {
      var n := DigitRunLength(a);
      assert n < |a| ==> a[n..][|a[n..]| - 1] == a[|a| - 1];
      AnonymiseAppend(a[n..], b, code);
      AnonymiseAppendAtRun(a, b, code);
    } else {
      assert |a| > 1 ==> a[1..][|a[1..]| - 1] == a[|a| - 1];
      AnonymiseAppend(a[1..], b, code);
      AnonymiseAppendAtChar(a, b, code);
    }
  }

  /** The inductive step of `AnonymiseAppend` when `a` starts with a digit run. */
  lemma AnonymiseAppendAtRun(a: string, b: string, code: string)
    requires a != [] && IsDigit(a[0])
    requires b == [] || !IsDigit(a[|a| - 1]) || !IsDigit(b[0])
    requires var n := DigitRunLength(a);
               Anonymise(a[n..] + b, code) == Anonymise(a[n..], code) + Anonymise(b, code)
    ensures Anonymise(a + b, code) == Anonymise(a, code) + Anonymise(b, code)
  {
    var n := DigitRunLength(a);
    DigitRunOfAppend(a, b);
    AnonymiseAtDigit(a, code);
    AnonymiseAtDigit(a + b, code);
    DropAppend(a, b, n);
    AppendAssoc(code, Anonymise(a[n..], code), Anonymise(b, code));
  }

  /** At a digit the whole run is replaced by the code. */
  lemma AnonymiseAtDigit(s: string, code: string)
    requires s != [] && IsDigit(s[0])
    ensures Anonymise(s, code) == code + Anonymise(s[DigitRunLength(s)..], code)
  {
  }

  /** Any other character is kept. */
  lemma AnonymiseAtOther(s: string, code: string)
    requires s != [] && !IsDigit(s[0])
    ensures Anonymise(s, code) == [s[0]] + Anonymise(s[1..], code)
  {
  }

  /** The inductive step of `AnonymiseAppend` when `a` starts with another character. */
  lemma AnonymiseAppendAtChar(a: string, b: string, code: string)
    requires a != [] && !IsDigit(a[0])
    requires Anonymise(a[1..] + b, code) == Anonymise(a[1..], code) + Anonymise(b, code)
    ensures Anonymise(a + b, code) == Anonymise(a, code) + Anonymise(b, code)
  {
    DropAppend(a, b, 1);
    AnonymiseAtOther(a, code);
    AnonymiseAtOther(a + b, code);
    AppendAssoc([a[0]], Anonymise(a[1..], code), Anonymise(b, code));
  }

  lemma AnonymiseAtRun(d: string, v: string, code: string)
    requires forall c <- code :: !IsDigit(c)
    requires |d| > 0 && forall c <- d :: IsDigit(c)
    requires v == [] || !IsDigit(v[0])
    ensures Anonymise(d + v, code) == code + Anonymise(v, code)
  {
    assert d[0] in d && (d + v)[0] == d[0];
    DigitRunExact(d, v);
    assert (d + v)[|d|..] == v;
  }

  /** A maximal digit run `d` between `u` and `v` is replaced by exactly `code`. */
  lemma AnonymiseRun(u: string, d: string, v: string, code: string)
    requires forall c <- code :: !IsDigit(c)
    requires |d| > 0 && forall c <- d :: IsDigit(c)
    requires u == [] || !IsDigit(u[|u| - 1])
    requires v == [] || !IsDigit(v[0])
    ensures Anonymise(u + (d + v), code) == Anonymise(u, code) + (code + Anonymise(v, code))
  {
    assert (d + v)[0] == d[0];
    AnonymiseAppend(u, d + v, code);
    AnonymiseAtRun(d, v, code);
  }

  /** Text without digits is left alone by step 3. */
  lemma {:induction false} AnonymiseWithoutDigits(s: string, code: string)
    requires forall c <- code :: !IsDigit(c)
    requires forall c <- s :: !IsDigit(c)
    ensures Anonymise(s, code) == s
    decreases |s|
  {
    if s != [] {
      assert s[0] in s;
      AnonymiseWithoutDigits(s[1..], code);
    }
  }

  // ---------------------------------------------------------------------
  // Step 4: splitting undoes joining with pipes

  lemma {:induction false} SplitFromWord(t: string, rest: string, acc: string)
    requires forall c <- t :: !IsSeparator(c)
    ensures SplitFrom(t + rest, acc) == SplitFrom(rest, acc + t)
    decreases |t|
  {
    if t == [] {
      assert t + rest == rest && acc + t == acc;
    } else {
      assert t[0] in t;
      assert (t + rest)[1..] == t[1..] + rest;
      assert acc + [t[0]] + t[1..] == acc + t;
      SplitFromWord(t[1..], rest, acc + [t[0]]);
    }
  }

  /** A pipe ends the piece in progress; the next piece starts empty. */
  lemma SplitFromPipe(t: string, rest: string, acc: string)
    requires forall c <- t :: !IsSeparator(c)
    ensures SplitFrom(t + ("|" + rest), acc) == [acc + t] + SplitFrom(rest, [])
  {
    SplitFromWord(t, "|" + rest, acc);
    assert ("|" + rest)[1..] == rest;
  }

  /**
   * A run of whitespace, however long, ends the piece in progress once: the
   * `\s+` half of the pattern.
   */
  lemma SplitFromSpaceRun(t: string, ws: string, rest: string, acc: string)
    requires forall c <- t :: !IsSeparator(c)
    requires |ws| > 0 && forall c <- ws :: IsSpace(c)
    requires rest == [] || !IsSpace(rest[0])
    ensures SplitFrom(t + (ws + rest), acc) == [acc + t] + SplitFrom(rest, [])
  {
    SplitFromWord(t, ws + rest, acc);
    SpaceRunExact(ws, rest);
    DropAppend(ws, rest, |ws|);
    assert ws[0] in ws && ws[|ws|..] == [];
  }

  lemma SpaceRunExact(ws: string, v: string)
    requires forall c <- ws :: IsSpace(c)
    requires v == [] || !IsSpace(v[0])
    ensures SpaceRunLength(ws + v) == |ws|
  {
    forall i | 0 <= i < |ws| ensures IsSpace((ws + v)[i]) {
      assert (ws + v)[i] == ws[i] && ws[i] in ws;
    }
    if v != [] {
      assert (ws + v)[|ws|] == v[0];
    }
  }

  /** For instance `"a \t b"` splits into `["a", "b"]`. */
  lemma SplitSpaceRunExample()
    ensures Split("a \t b") == ["a", "b"]
  {
    assert "a \t b" == "a" + (" \t " + "b");
    assert forall c <- " \t " :: IsSpace(c);
    SplitFromSpaceRun("a", " \t ", "b", []);
    SplitFromWord("b", [], []);
    assert "b" + [] == "b" && [] + "a" == "a" && [] + "b" == "b";
  }

  /** A pipe next to a space leaves empty pieces: `"a | b"` splits into `["a", "", "", "b"]`. */
  lemma SplitPipeAndSpacesExample()
    ensures Split("a | b") == ["a", "", "", "b"]
  {
    var tail := SplitFrom("| b", []);
    SplitWordThenSpace();
    SplitPipeThenSpace();
    assert tail == ["", "", "b"];
    assert SplitFrom("a | b", []) == ["a"] + tail;
    assert ["a"] + ["", "", "b"] == ["a", "", "", "b"];
  }

  lemma SplitWordThenSpace()
    ensures SplitFrom("a | b", []) == ["a"] + SplitFrom("| b", [])
  {
    assert "a | b" == "a" + (" " + "| b");
    SplitFromSpaceRun("a", " ", "| b", []);
    assert [] + "a" == "a";
  }

  lemma SplitPipeThenSpace()
    ensures SplitFrom("| b", []) == ["", "", "b"]
  {
    assert "| b" == [] + ("|" + " b");
    SplitFromPipe([], " b", []);
    SplitSpaceThenWord();
  }

  lemma SplitSpaceThenWord()
    ensures SplitFrom(" b", []) == ["", "b"]
  {
    assert " b" == [] + (" " + "b");
    SplitFromSpaceRun([], " ", "b", []);
    SplitFromWord("b", [], []);
    assert "b" + [] == "b" && [] + "b" == "b";
  }

  lemma {:induction false} SplitFromJoin(ts: seq<string>, acc: string)
    requires |ts| >= 1
    requires forall t, c :: t in ts && c in t ==> !IsSeparator(c)
    ensures SplitFrom(JoinWith(ts, "|"), acc) == [acc + ts[0]] + ts[1..]
    decreases |ts|
  {
    assert ts[0] in ts;
    if |ts| == 1 {
      SplitFromWord(ts[0], [], acc);
      assert ts[0] + [] == ts[0];
    } else {
      var j := JoinWith(ts[1..], "|");
      assert JoinWith(ts, "|") == ts[0] + ("|" + j);
      SplitFromWord(ts[0], "|" + j, acc);
      assert ("|" + j)[1..] == j;
      SplitFromJoin(ts[1..], []);
      assert [] + ts[1..][0] == ts[1];
    }
  }

  /** Splitting pipe-joined tokens that hold no separator gives them back. */
  lemma SplitJoinRoundTrip(ts: seq<string>)
    requires |ts| >= 1
    requires forall t, c :: t in ts && c in t ==> !IsSeparator(c)
    ensures Split(JoinWith(ts, "|")) == ts
  {
    SplitFromJoin(ts, []);
    assert [] + ts[0] == ts[0];
  }

  // ---------------------------------------------------------------------
  // The whole pipeline on the edge case and on examples

  /** The empty annotation gives one empty token, not an empty list. */
  lemma KaldiTokenizeEmpty(code: string)
    requires code in ANOM
    ensures KaldiTokenize("", code) == [""]
  {
  }

  /** Text that steps 1 and 2 have nothing to do on: no irrelevant character and no `<`. */
  predicate Untouched(s: string)
  {
    forall c <- s :: !IsIrrelevant(c) && c != '<'
  }

  lemma UntouchedAppend(a: string, b: string)
    requires Untouched(a) && Untouched(b)
    ensures Untouched(a + b)
  {
  }

  lemma NoDigitsAppend(a: string, b: string)
    requires forall c <- a :: !IsDigit(c)
    requires forall c <- b :: !IsDigit(c)
    ensures forall c <- a + b :: !IsDigit(c)
  {
  }

  /** Text without irrelevant characters and without `<` passes steps 1 and 2 unchanged. */
  lemma FirstStepsUntouched(s: string)
    requires Untouched(s)
    ensures RemoveMarkers(RemoveIrrelevant(s)) == s
  {
    RemoveIrrelevantUntouched(s);
    RemoveMarkersKeepsPrefix(s, []);
    assert s + [] == s;
  }

  lemma AnonymiseLeadingRun(d: string, rest: string, code: string)
    requires forall c <- code :: !IsDigit(c)
    requires |d| > 0 && forall c <- d :: IsDigit(c)
    requires forall c <- rest :: !IsDigit(c)
    ensures Anonymise(d + rest, code) == code + rest
  {
    assert rest != [] ==> rest[0] in rest;
    AnonymiseAtRun(d, rest, code);
    AnonymiseWithoutDigits(rest, code);
  }

  lemma StripCodeAndWords(code: string, w1: string, w2: string)
    requires |code| > 0 && forall c <- code :: IsAsciiUpper(c)
    requires Plain(w2)
    ensures var s := code + ([' '] + w1 + ['|'] + w2); Strip(s) == s
  {
    var s := code + ([' '] + w1 + ['|'] + w2);
    assert s[0] == code[0] && code[0] in code;
    assert s[|s| - 1] == if w2 == [] then '|' else w2[|w2| - 1];
    assert w2 != [] ==> w2[|w2| - 1] in w2;
    StripUntouched(s);
  }

  /** A word that every step leaves as it is and that the split keeps whole. */
  predicate Plain(w: string)
  {
    forall c <- w :: !IsIrrelevant(c) && c != '<' && !IsDigit(c) && !IsSeparator(c)
  }

  lemma SplitAfterSpace(w1: string, w2: string, acc: string)
    requires Plain(w1) && Plain(w2)
    ensures SplitFrom([' '] + w1 + ['|'] + w2, acc) == [acc, w1, w2]
  {
    var s := [' '] + w1 + ['|'] + w2;
    var t := w1 + (['|'] + w2);
    assert s[1..] == t;
    assert SpaceRunLength(s) == 1 by {
      assert s[1] == if w1 == [] then '|' else w1[0];
      assert w1 != [] ==> w1[0] in w1;
    }
    SplitFromWord(w1, ['|'] + w2, []);
    assert [] + w1 == w1;
    assert (['|'] + w2)[1..] == w2 + [];
    SplitFromWord(w2, [], []);
    assert [] + w2 == w2;
  }

  lemma SplitCodeAndWords(code: string, w1: string, w2: string)
    requires forall c <- code :: IsAsciiUpper(c)
    requires Plain(w1) && Plain(w2)
    ensures Split(code + ([' '] + w1 + ['|'] + w2)) == [code, w1, w2]
  {
    var rest := [' '] + w1 + ['|'] + w2;
    SplitFromWord(code, rest, []);
    assert [] + code == code;
    SplitAfterSpace(w1, w2, code);
  }

  lemma SplitPlainWord(w: string)
    requires Plain(w)
    ensures Split(w) == [w]
  {
    assert w == w + [];
    SplitFromWord(w, [], []);
    assert [] + w == w;
  }

  /**
   * A run of digits, a space, and two plain words joined by a pipe give
   * three tokens: the code of the call, then the two words (for instance
   * `"123 slovo|další"` gives `[code, "slovo", "další"]`).
   */
  lemma KaldiTokenizeDigitsAndWords(d: string, w1: string, w2: string, code: string)
    requires code in ANOM
    requires |d| > 0 && forall c <- d :: IsDigit(c)
    requires Plain(w1) && Plain(w2)
    ensures KaldiTokenize(d + ([' '] + w1 + ['|'] + w2), code) == [code, w1, w2]
  {
    AnomCodesAreCapitals(code);
    StepsOnDigitsAndWords(d, w1, w2, code);
  }

  lemma PlainRest(w1: string, w2: string)
    requires Plain(w1) && Plain(w2)
    ensures var rest := [' '] + w1 + ['|'] + w2;
              Untouched(rest) && forall c <- rest :: !IsDigit(c)
  {
    UntouchedAppend([' '], w1);
    UntouchedAppend([' '] + w1, ['|']);
    UntouchedAppend([' '] + w1 + ['|'], w2);
    NoDigitsAppend([' '], w1);
    NoDigitsAppend([' '] + w1, ['|']);
    NoDigitsAppend([' '] + w1 + ['|'], w2);
  }

  lemma DigitsThenUntouched(d: string, rest: string)
    requires forall c <- d :: IsDigit(c)
    requires Untouched(rest)
    ensures Untouched(d + rest)
  {
    UntouchedAppend(d, rest);
  }

  lemma StepsOnDigitsAndWords(d: string, w1: string, w2: string, code: string)
    requires |code| > 0 && forall c <- code :: IsAsciiUpper(c)
    requires |d| > 0 && forall c <- d :: IsDigit(c)
    requires Plain(w1) && Plain(w2)
    ensures var s := d + ([' '] + w1 + ['|'] + w2);
            Split(Strip(Anonymise(RemoveMarkers(RemoveIrrelevant(s)), code))) == [code, w1, w2]
  {
    var rest := [' '] + w1 + ['|'] + w2;
    var s := d + rest;
    var s3 := code + rest;
    PlainRest(w1, w2);
    DigitsThenUntouched(d, rest);
    calc {
      Split(Strip(Anonymise(RemoveMarkers(RemoveIrrelevant(s)), code)));
    ==  { FirstStepsUntouched(s); }
      Split(Strip(Anonymise(s, code)));
    ==  { AnonymiseLeadingRun(d, rest, code); }
      Split(Strip(s3));
    ==  { StripCodeAndWords(code, w1, w2); }
      Split(s3);
    ==  { SplitCodeAndWords(code, w1, w2); }
      [code, w1, w2];
    }
  }

  /**
   * An opening marker in front of a plain word is dropped together with its
   * space (for instance `"<NOISE slovo"` gives `["slovo"]`).
   */
  lemma KaldiTokenizeDropsMarker(caps: string, w: string, code: string)
    requires code in ANOM
    requires |caps| > 0 && forall c <- caps :: IsAsciiUpper(c)
    requires Plain(w)
    ensures KaldiTokenize(['<'] + caps + [' '] + w, code) == [w]
  {
    var s := ['<'] + caps + [' '] + w;
    assert RemoveIrrelevant(s) == s by {
      assert forall c <- s :: c == '<' || c == ' ' || c in caps || c in w;
      RemoveIrrelevantUntouched(s);
    }
    assert RemoveMarkers(s) == w by {
      assert s == [] + (['<'] + caps + [' '] + w);
      RemoveMarkersAnywhere([], caps, w);
      RemoveMarkersKeepsPrefix(w, []);
      assert w + [] == w;
    }
    assert Anonymise(w, code) == w by {
      AnomCodesAreCapitals(code);
      AnonymiseWithoutDigits(w, code);
    }
    assert Strip(w) == w by {
      assert w != [] ==> w[0] in w && w[|w| - 1] in w;
      StripUntouched(w);
    }
    assert Split(w) == [w] by {
      SplitPlainWord(w);
    }
  }
}
