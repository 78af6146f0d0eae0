/**
 * `to_split_phones`: writes a phonetically transcribed word with its phones
 * separated by single spaces. The word is split into characters, joined with
 * spaces, and three literal substitutions then glue back the two-character
 * phones `ch`, `ou` and `ʒʒ`. Words that are not plain lower-case phonetic
 * transcriptions (anything with a non-word character or an ASCII capital,
 * and the fillers `hmm` and `emm`) are atomic and come back unchanged.
 */
module Phones {
  import opened PyStr
  import opened Seqs
  import Kaldi

  /** The atomicity test of `to_split_phones`: `re.search(r"[\WA-Z]", w) or w in ("hmm", "emm")`. */
  predicate IsAtomic(w: string)
  {
    || (exists c <- w :: !IsWordChar(c) || IsAsciiUpper(c))
    || w == "hmm"
    || w == "emm"
  }

  /** `list(w)`: one single-character string per character. */
  function Chars(w: string): (r: seq<string>)
    ensures |r| == |w|
    ensures forall i :: 0 <= i < |w| ==> r[i] == [w[i]]
  {
    seq(|w|, i requires 0 <= i < |w| => [w[i]])
  }

  /** `re.sub(pat, rep, s)` for a literal pattern: left to right, matches do not overlap. */
  function ReplaceAll(s: string, pat: string, rep: string): string
    requires |pat| > 0
    decreases |s|
  {
    if s == [] then []
    else if StartsWith(s, pat) then rep + ReplaceAll(s[|pat|..], pat, rep)
    else [s[0]] + ReplaceAll(s[1..], pat, rep)
  }

  /**
   * `to_split_phones(w)`: an atomic word comes back as it is; any other word
   * comes out as its greedy segmentation into phones (`Segment` below), one
   * space between neighbouring phones.
   */
  function ToSplitPhones(w: string): (r: string)
    ensures IsAtomic(w) ==> r == w
    ensures !IsAtomic(w) ==> r == JoinWith(Segment(w), " ")
  {
    if IsAtomic(w) then w
    else
      var spaced := JoinWith(Chars(w), " ");
      NonAtomicIsSpaceFree(w);
      SubstitutionsSegment(w);
      ReplaceAll(ReplaceAll(ReplaceAll(spaced, "c h", "ch"), "o u", "ou"), "ʒ ʒ", "ʒʒ")
  }

  // ---------------------------------------------------------------------
  // The reference: a greedy left-to-right segmentation into phones

  /** The two-character phones. */
  predicate IsDigraph(p: string)
  {
    p == "ch" || p == "ou" || p == "ʒʒ"
  }

  /**
   * Cuts `w` into phones, taking a two-character phone wherever one starts:
   * the pieces put back together give `w`, and a one-character piece never
   * starts a two-character phone with the first character of the next piece.
   * So no two-character phone is missed, and the leftmost one wins: `"ʒʒʒ"`
   * is `["ʒʒ", "ʒ"]`, never `["ʒ", "ʒʒ"]`.
   */
  function Segment(w: string): (r: seq<string>)
    ensures Concat(r) == w
    ensures forall p <- r :: |p| == 1 || IsDigraph(p)
    ensures forall i :: 0 <= i < |r| - 1 && |r[i]| == 1 ==> |r[i + 1]| > 0 && !IsDigraph(r[i] + r[i + 1][..1])
    decreases |w|
  {
    if w == [] then []
    else if |w| >= 2 && IsDigraph(w[..2]) then
      var rest := Segment(w[2..]);
      SegmentHead(w, 2, rest);
      [w[..2]] + rest
    else
      var rest := Segment(w[1..]);
      SingleHeadNoDigraph(w, rest);
      assert w[..1] == [w[0]];
      SegmentHead(w, 1, rest);
      [[w[0]]] + rest
  }

  /** The head phone `w[..k]` in front of a segmentation of `w[k..]` segments `w`. */
  lemma SegmentHead(w: string, k: nat, rest: seq<string>)
    requires 0 < k <= |w| && (k == 1 || IsDigraph(w[..k]))
    requires Concat(rest) == w[k..]
    requires forall q <- rest :: |q| == 1 || IsDigraph(q)
    requires forall i :: 0 <= i < |rest| - 1 && |rest[i]| == 1 ==> |rest[i + 1]| > 0 && !IsDigraph(rest[i] + rest[i + 1][..1])
    requires k == 1 && |rest| > 0 ==> |rest[0]| > 0 && !IsDigraph(w[..1] + rest[0][..1])
    ensures Concat([w[..k]] + rest) == w
    ensures forall q <- [w[..k]] + rest :: |q| == 1 || IsDigraph(q)
    ensures var r := [w[..k]] + rest;
              forall i :: 0 <= i < |r| - 1 && |r[i]| == 1 ==> |r[i + 1]| > 0 && !IsDigraph(r[i] + r[i + 1][..1])
  {
    SegmentCons(w[..k], rest);
    TakeDrop(w, k);
  }

  /** Putting a phone in front of a segmentation keeps its three properties when no digraph is missed. */
  lemma SegmentCons(p: string, rest: seq<string>)
    requires |p| == 1 || IsDigraph(p)
    requires forall q <- rest :: |q| == 1 || IsDigraph(q)
    requires forall i :: 0 <= i < |rest| - 1 && |rest[i]| == 1 ==> |rest[i + 1]| > 0 && !IsDigraph(rest[i] + rest[i + 1][..1])
    requires |p| == 1 && |rest| > 0 ==> |rest[0]| > 0 && !IsDigraph(p + rest[0][..1])
    ensures Concat([p] + rest) == p + Concat(rest)
    ensures forall q <- [p] + rest :: |q| == 1 || IsDigraph(q)
    ensures var r := [p] + rest;
              forall i :: 0 <= i < |r| - 1 && |r[i]| == 1 ==> |r[i + 1]| > 0 && !IsDigraph(r[i] + r[i + 1][..1])
  {
    var r := [p] + rest;
    assert r[1..] == rest;
    forall i | 0 < i < |r| ensures r[i] == rest[i - 1] { }
    forall i | 0 <= i < |r| - 1 && |r[i]| == 1
      ensures |r[i + 1]| > 0 && !IsDigraph(r[i] + r[i + 1][..1])
    {
      if i > 0 {
        assert r[i] == rest[i - 1] && r[i + 1] == rest[i];
      }
    }
  }

  /** When `w` does not start with a digraph, its first character and the first character of the next phone form none. */
  lemma SingleHeadNoDigraph(w: string, rest: seq<string>)
    requires |w| > 0 && !(|w| >= 2 && IsDigraph(w[..2]))
    requires Concat(rest) == w[1..]
    requires forall q <- rest :: |q| == 1 || IsDigraph(q)
    ensures |rest| > 0 ==> |rest[0]| > 0 && !IsDigraph([w[0]] + rest[0][..1])
  {
    if |rest| > 0 {
      assert rest[0] in rest;
      assert Concat(rest) == rest[0] + Concat(rest[1..]);
      assert rest[0][..1] == [w[1]];
      assert w[..2] == [w[0]] + rest[0][..1];
    }
  }

  /** The concatenation of a list of strings. */
  function Concat(ts: seq<string>): string
  {
    if ts == [] then [] else ts[0] + Concat(ts[1..])
  }

  /** `s` with every space deleted. */
  function RemoveSpaces(s: string): (r: string)
    ensures ' ' !in r
  {
    if s == [] then [] else (if s[0] == ' ' then [] else [s[0]]) + RemoveSpaces(s[1..])
  }

  // ---------------------------------------------------------------------
  // One substitution `x y` -> `xy` on space-joined tokens

  /** A token of a space-joined list: non-empty and free of spaces. */
  predicate IsToken(t: string)
  {
    |t| > 0 && ' ' !in t
  }

  /**
   * Tokens on which substituting `x y` by `xy` merges whole tokens only: a
   * token longer than one character neither ends in `x` nor starts with `y`.
   */
  predicate MergeReady(ts: seq<string>, x: char, y: char)
  {
    forall t <- ts :: IsToken(t) && (|t| > 1 ==> t[|t| - 1] != x && t[0] != y)
  }

  /** Glues each adjacent pair of tokens `x`, `y` into one token, left to right. */
  function MergePair(ts: seq<string>, x: char, y: char): (r: seq<string>)
    ensures |r| <= |ts|
    ensures |r| == 0 <==> |ts| == 0
    ensures |ts| > 0 ==> r[0] == ts[0] || r[0] == [x, y]
    ensures forall t <- r :: t in ts || t == [x, y]
  {
    if |ts| >= 2 && ts[0] == [x] && ts[1] == [y] then [[x, y]] + MergePair(ts[2..], x, y)
    else if ts == [] then []
    else [ts[0]] + MergePair(ts[1..], x, y)
  }

  /** A three-character pattern matches when its characters do, one by one. */
  lemma StartsWithThree(s: string, a: char, b: char, c: char)
    ensures StartsWith(s, [a, b, c]) <==> |s| >= 3 && s[0] == a && s[1] == b && s[2] == c
  {
    if |s| >= 3 {
      assert s[..3] == [s[0], s[1], s[2]];
    }
  }

  /** A token that cannot start a match of `x y` is copied through unchanged. */
  lemma {:induction false} SkipToken(t: string, s: string, x: char, y: char)
    requires IsToken(t) && x != ' '
    requires !(t[|t| - 1] == x && |s| >= 2 && s[0] == ' ' && s[1] == y)
    ensures ReplaceAll(t + s, [x, ' ', y], [x, y]) == t + ReplaceAll(s, [x, ' ', y], [x, y])
    decreases |t|
  {
    var pat := [x, ' ', y];
    StartsWithThree(t + s, x, ' ', y);
    DropAppend(t, s, 1);
    if |t| == 1 {
      if |t + s| >= 3 {
        assert (t + s)[1] == s[0] && (t + s)[2] == s[1];
      }
      ReplaceNoMatch(t + s, pat, [x, y]);
      assert t == [t[0]] && t[1..] == [];
    } else {
      assert t[1] in t;
      assert (t + s)[1] == t[1];
      ReplaceNoMatch(t + s, pat, [x, y]);
      assert ' ' !in t[1..] by {
        forall c <- t[1..] ensures c in t { }
      }
      SkipToken(t[1..], s, x, y);
      HeadTail(t);
      AppendAssoc([t[0]], t[1..], ReplaceAll(s, pat, [x, y]));
    }
  }

  /** Where the pattern does not start, the first character is copied through. */
  lemma ReplaceNoMatch(s: string, pat: string, rep: string)
    requires |pat| > 0 && s != [] && !StartsWith(s, pat)
    ensures ReplaceAll(s, pat, rep) == [s[0]] + ReplaceAll(s[1..], pat, rep)
  {
  }

  /** A separating space never starts a match of `x y`. */
  lemma SkipSpace(s: string, x: char, y: char)
    requires x != ' '
    ensures ReplaceAll(" " + s, [x, ' ', y], [x, y]) == " " + ReplaceAll(s, [x, ' ', y], [x, y])
  {
    StartsWithThree(" " + s, x, ' ', y);
    assert (" " + s)[1..] == s;
  }

  /** A match of `x y` at the front is replaced and the scan resumes after it. */
  lemma ReplaceAtMatch(s: string, x: char, y: char)
    ensures ReplaceAll([x, ' ', y] + s, [x, ' ', y], [x, y]) == [x, y] + ReplaceAll(s, [x, ' ', y], [x, y])
  {
    var pat := [x, ' ', y];
    StartsWithThree(pat + s, x, ' ', y);
    assert (pat + s)[3..] == s;
  }

  /** The pair `x`, `y` at the head of the list is merged by the substitution. */
  lemma MergeHead(rest: seq<string>, x: char, y: char)
    requires x != ' '
    requires ReplaceAll(JoinWith(rest, " "), [x, ' ', y], [x, y]) == JoinWith(MergePair(rest, x, y), " ")
    ensures ReplaceAll(JoinWith([[x], [y]] + rest, " "), [x, ' ', y], [x, y])
         == JoinWith(MergePair([[x], [y]] + rest, x, y), " ")
  {
    MergeJoin(rest, x, y);
    if |rest| == 0 {
      MergeHeadAlone(x, y);
    } else {
      MergeHeadMore(rest, x, y);
    }
  }

  lemma MergeHeadAlone(x: char, y: char)
    ensures ReplaceAll(JoinWith([[x], [y]], " "), [x, ' ', y], [x, y]) == [x, y]
  {
    assert [[x], [y]][1..] == [[y]];
    assert JoinWith([[x], [y]], " ") == [x, ' ', y] + [];
    ReplaceAtMatch([], x, y);
  }

  lemma MergeHeadMore(rest: seq<string>, x: char, y: char)
    requires x != ' ' && |rest| > 0
    requires ReplaceAll(JoinWith(rest, " "), [x, ' ', y], [x, y]) == JoinWith(MergePair(rest, x, y), " ")
    ensures ReplaceAll(JoinWith([[x], [y]] + rest, " "), [x, ' ', y], [x, y])
         == JoinWith([[x, y]] + MergePair(rest, x, y), " ")
  {
    var tail := JoinWith(rest, " ");
    HeadTwo([[x], [y]] + rest);
    JoinCons([y], rest, " ");
    JoinCons([x], [[y]] + rest, " ");
    ConsThree(x, ' ', y, " " + tail);
    ReplaceAtMatch(" " + tail, x, y);
    SkipSpace(tail, x, y);
    JoinCons([x, y], MergePair(rest, x, y), " ");
  }

  /** Joining a list with a head token. */
  lemma JoinCons(t: string, ts: seq<string>, sep: string)
    requires |ts| > 0
    ensures JoinWith([t] + ts, sep) == t + (sep + JoinWith(ts, sep))
  {
    assert ([t] + ts)[1..] == ts;
  }

  /** The joined text starts with the first character of the first token. */
  lemma JoinHead(ts: seq<string>, sep: string)
    requires |ts| > 0 && |ts[0]| > 0
    ensures |JoinWith(ts, sep)| > 0 && JoinWith(ts, sep)[0] == ts[0][0]
  {
  }

  /** A token followed by a space and a text that does not continue a match. */
  lemma SkipTokenAndSpace(t: string, tail: string, x: char, y: char)
    requires IsToken(t) && x != ' ' && |tail| > 0
    requires !(t[|t| - 1] == x && tail[0] == y)
    ensures ReplaceAll(t + (" " + tail), [x, ' ', y], [x, y]) == t + (" " + ReplaceAll(tail, [x, ' ', y], [x, y]))
  {
    SkipToken(t, " " + tail, x, y);
    SkipSpace(tail, x, y);
  }

  /** A head token that does not pair with the next one is copied through. */
  lemma MergeSkip(t: string, rest: seq<string>, x: char, y: char)
    requires x != ' ' && |rest| > 0
    requires MergeReady([t, rest[0]], x, y)
    requires !(t == [x] && rest[0] == [y])
    requires ReplaceAll(JoinWith(rest, " "), [x, ' ', y], [x, y]) == JoinWith(MergePair(rest, x, y), " ")
    ensures ReplaceAll(JoinWith([t] + rest, " "), [x, ' ', y], [x, y]) == JoinWith(MergePair([t] + rest, x, y), " ")
  {
    assert t in [t, rest[0]] && rest[0] in [t, rest[0]];
    var tail := JoinWith(rest, " ");
    JoinHead(rest, " ");
    assert !(t[|t| - 1] == x && tail[0] == y) by {
      if t[|t| - 1] == x {
        assert t == [x];
        assert rest[0] != [y];
        assert rest[0][0] != y;
      }
    }
    SkipTokenAndSpace(t, tail, x, y);
    JoinCons(t, rest, " ");
    assert ([t] + rest)[1..] == rest;
    assert MergePair([t] + rest, x, y) == [t] + MergePair(rest, x, y);
    JoinCons(t, MergePair(rest, x, y), " ");
  }

  /** Substituting `x y` by `xy` in the joined text merges the token list. */
  lemma {:induction false} ReplaceJoined(ts: seq<string>, x: char, y: char)
    requires x != ' ' && y != ' '
    requires MergeReady(ts, x, y)
    ensures ReplaceAll(JoinWith(ts, " "), [x, ' ', y], [x, y]) == JoinWith(MergePair(ts, x, y), " ")
    decreases |ts|
  {
    if |ts| == 0 {
    } else if |ts| == 1 {
      ReplaceSingle(ts, x, y);
    } else if ts[0] == [x] && ts[1] == [y] {
      MergeReadyTail(ts, 2, x, y);
      ReplaceJoined(ts[2..], x, y);
      MergeHead(ts[2..], x, y);
      HeadTwo(ts);
    } else {
      MergeReadyTail(ts, 1, x, y);
      ReplaceJoined(ts[1..], x, y);
      MergeReadyPair(ts, x, y);
      MergeSkip(ts[0], ts[1..], x, y);
      HeadTail(ts);
    }
  }

  lemma MergeReadyTail(ts: seq<string>, k: nat, x: char, y: char)
    requires k <= |ts| && MergeReady(ts, x, y)
    ensures MergeReady(ts[k..], x, y)
  {
    forall t <- ts[k..] ensures t in ts { }
  }

  lemma MergeReadyPair(ts: seq<string>, x: char, y: char)
    requires 2 <= |ts| && MergeReady(ts, x, y)
    ensures MergeReady([ts[0], ts[1]], x, y)
  {
    assert ts[0] in ts && ts[1] in ts;
  }

  lemma ReplaceSingle(ts: seq<string>, x: char, y: char)
    requires |ts| == 1 && x != ' ' && MergeReady(ts, x, y)
    ensures ReplaceAll(JoinWith(ts, " "), [x, ' ', y], [x, y]) == JoinWith(MergePair(ts, x, y), " ")
  {
    assert ts[0] in ts;
    SkipToken(ts[0], "", x, y);
    assert ts[0] + "" == ts[0];
  }

  // ---------------------------------------------------------------------
  // The three substitutions compose to the greedy segmentation

  /** The token list after the three substitutions at the end of `to_split_phones`. */
  function Merged(w: string): seq<string>
  {
    MergePair(MergePair(MergePair(Chars(w), 'c', 'h'), 'o', 'u'), 'ʒ', 'ʒ')
  }

  lemma MergeStep(t: string, rest: seq<string>, x: char, y: char)
    requires !(t == [x] && |rest| > 0 && rest[0] == [y])
    ensures MergePair([t] + rest, x, y) == [t] + MergePair(rest, x, y)
  {
    assert ([t] + rest)[1..] == rest;
  }

  lemma MergeJoin(rest: seq<string>, x: char, y: char)
    ensures MergePair([[x], [y]] + rest, x, y) == [[x, y]] + MergePair(rest, x, y)
  {
    assert ([[x], [y]] + rest)[2..] == rest;
  }

  lemma CharsCons(w: string)
    requires |w| > 0
    ensures Chars(w) == [[w[0]]] + Chars(w[1..])
  {
  }

  /** A word starting with `ch`. */
  lemma MergedCh(w: string)
    requires |w| >= 2 && w[0] == 'c' && w[1] == 'h'
    ensures Merged(w) == [w[..2]] + Merged(w[2..])
  {
    var c2 := Chars(w[2..]);
    CharsCons(w);
    CharsCons(w[1..]);
    assert w[1..][1..] == w[2..];
    assert Chars(w) == [['c'], ['h']] + c2;
    MergeJoin(c2, 'c', 'h');
    var m1 := MergePair(c2, 'c', 'h');
    MergeStep("ch", m1, 'o', 'u');
    MergeStep("ch", MergePair(m1, 'o', 'u'), 'ʒ', 'ʒ');
    assert w[..2] == "ch";
  }

  /** A word starting with `ou`. */
  lemma MergedOu(w: string)
    requires |w| >= 2 && w[0] == 'o' && w[1] == 'u'
    ensures Merged(w) == [w[..2]] + Merged(w[2..])
  {
    var c2 := Chars(w[2..]);
    CharsCons(w);
    CharsCons(w[1..]);
    assert w[1..][1..] == w[2..];
    MergeStep("u", c2, 'c', 'h');
    MergeStep("o", [['u']] + c2, 'c', 'h');
    var m1 := MergePair(c2, 'c', 'h');
    assert [['o']] + ([['u']] + m1) == [['o'], ['u']] + m1;
    MergeJoin(m1, 'o', 'u');
    MergeStep("ou", MergePair(m1, 'o', 'u'), 'ʒ', 'ʒ');
    assert w[..2] == "ou";
  }

  /** A word starting with `ʒʒ`. */
  lemma MergedZz(w: string)
    requires |w| >= 2 && w[0] == 'ʒ' && w[1] == 'ʒ'
    ensures Merged(w) == [w[..2]] + Merged(w[2..])
  {
    var c2 := Chars(w[2..]);
    CharsCons(w);
    CharsCons(w[1..]);
    assert w[1..][1..] == w[2..];
    MergeStep("ʒ", c2, 'c', 'h');
    MergeStep("ʒ", [['ʒ']] + c2, 'c', 'h');
    var m1 := MergePair(c2, 'c', 'h');
    MergeStep("ʒ", m1, 'o', 'u');
    MergeStep("ʒ", [['ʒ']] + m1, 'o', 'u');
    var m2 := MergePair(m1, 'o', 'u');
    assert [['ʒ']] + ([['ʒ']] + m2) == [['ʒ'], ['ʒ']] + m2;
    MergeJoin(m2, 'ʒ', 'ʒ');
    assert w[..2] == "ʒʒ";
  }

  /** A word whose first two characters are not a two-character phone. */
  lemma MergedSingle(w: string)
    requires |w| > 0 && !(|w| >= 2 && IsDigraph(w[..2]))
    ensures Merged(w) == [[w[0]]] + Merged(w[1..])
  {
    var v := w[1..];
    CharsCons(w);
    var c1 := Chars(v);
    if |v| > 0 {
      CharsCons(v);
      assert w[..2] == [w[0], v[0]];
    }
    MergeStep([w[0]], c1, 'c', 'h');
    var m1 := MergePair(c1, 'c', 'h');
    MergeStep([w[0]], m1, 'o', 'u');
    var m2 := MergePair(m1, 'o', 'u');
    MergeStep([w[0]], m2, 'ʒ', 'ʒ');
  }

  /** The three substitutions cut a word exactly as the greedy segmentation does. */
  lemma {:induction false} MergedIsSegment(w: string)
    ensures Merged(w) == Segment(w)
    decreases |w|
  {
    if w == [] {
    } else if |w| >= 2 && IsDigraph(w[..2]) {
      assert w[..2] == [w[0], w[1]];
      if w[0] == 'c' {
        MergedCh(w);
      } else if w[0] == 'o' {
        MergedOu(w);
      } else {
        MergedZz(w);
      }
      MergedIsSegment(w[2..]);
    } else {
      MergedSingle(w);
      MergedIsSegment(w[1..]);
    }
  }

  // ---------------------------------------------------------------------
  // What `to_split_phones` promises

  /** A word that is not atomic holds only word characters, so no whitespace. */
  lemma NonAtomicHasNoSpace(w: string)
    requires !IsAtomic(w)
    ensures forall c <- w :: !IsSpace(c) && !IsAsciiUpper(c)
  {
    forall c <- w ensures !IsSpace(c) && !IsAsciiUpper(c) {
      if IsSpace(c) {
        SpaceIsNotWordChar(c);
      }
    }
  }

  lemma CharsReady(w: string, x: char, y: char)
    requires ' ' !in w
    ensures MergeReady(Chars(w), x, y)
    ensures forall t <- Chars(w) :: |t| == 1
  {
    forall t <- Chars(w) ensures IsToken(t) && |t| == 1 {
      var i :| 0 <= i < |w| && Chars(w)[i] == t;
      assert t == [w[i]];
    }
  }

  /** After gluing `ch`, the tokens are ready for gluing `ou`. */
  lemma ReadyAfterCh(w: string)
    requires ' ' !in w
    ensures MergeReady(MergePair(Chars(w), 'c', 'h'), 'o', 'u')
  {
    var c0 := Chars(w);
    var m1 := MergePair(c0, 'c', 'h');
    CharsReady(w, 'o', 'u');
    forall t <- m1 ensures IsToken(t) && (|t| > 1 ==> t[|t| - 1] != 'o' && t[0] != 'u') {
      if t != "ch" {
        assert t in c0;
      }
    }
  }

  /** After gluing `ch` and `ou`, the tokens are ready for gluing `ʒʒ`. */
  lemma ReadyAfterOu(w: string)
    requires ' ' !in w
    ensures MergeReady(MergePair(MergePair(Chars(w), 'c', 'h'), 'o', 'u'), 'ʒ', 'ʒ')
  {
    var c0 := Chars(w);
    var m1 := MergePair(c0, 'c', 'h');
    var m2 := MergePair(m1, 'o', 'u');
    CharsReady(w, 'ʒ', 'ʒ');
    forall t <- m2 ensures IsToken(t) && (|t| > 1 ==> t[|t| - 1] != 'ʒ' && t[0] != 'ʒ') {
      if t != "ou" {
        assert t in m1;
        if t != "ch" {
          assert t in c0;
        }
      }
    }
  }

  /** The three substitutions on a spaced-out word without spaces yield its segmentation. */
  lemma SubstitutionsSegment(w: string)
    requires ' ' !in w
    ensures ReplaceAll(ReplaceAll(ReplaceAll(JoinWith(Chars(w), " "), "c h", "ch"), "o u", "ou"), "ʒ ʒ", "ʒʒ")
         == JoinWith(Segment(w), " ")
  {
    assert "c h" == ['c', ' ', 'h'] && "o u" == ['o', ' ', 'u'] && "ʒ ʒ" == ['ʒ', ' ', 'ʒ'];
    assert "ch" == ['c', 'h'] && "ou" == ['o', 'u'] && "ʒʒ" == ['ʒ', 'ʒ'];
    CharsReady(w, 'c', 'h');
    ReplaceJoined(Chars(w), 'c', 'h');
    ReadyAfterCh(w);
    ReplaceJoined(MergePair(Chars(w), 'c', 'h'), 'o', 'u');
    ReadyAfterOu(w);
    ReplaceJoined(MergePair(MergePair(Chars(w), 'c', 'h'), 'o', 'u'), 'ʒ', 'ʒ');
    MergedIsSegment(w);
  }

  lemma NonAtomicIsSpaceFree(w: string)
    requires !IsAtomic(w)
    ensures ' ' !in w
  {
    NonAtomicHasNoSpace(w);
    assert IsSpace(' ');
  }

  lemma {:induction false} RemoveSpacesAppend(a: string, b: string)
    ensures RemoveSpaces(a + b) == RemoveSpaces(a) + RemoveSpaces(b)
    decreases |a|
  {
    if a == [] {
      assert a + b == b;
    } else {
      DropAppend(a, b, 1);
      RemoveSpacesAppend(a[1..], b);
      var h := if a[0] == ' ' then [] else [a[0]];
      AppendAssoc(h, RemoveSpaces(a[1..]), RemoveSpaces(b));
    }
  }

  lemma {:induction false} RemoveSpacesOfPlain(s: string)
    requires ' ' !in s
    ensures RemoveSpaces(s) == s
    decreases |s|
  {
    if s != [] {
      RemoveSpacesOfPlain(s[1..]);
      assert s == [s[0]] + s[1..];
    }
  }

  /** Deleting the separators of a space-joined list of space-free pieces concatenates them. */
  lemma {:induction false} RemoveSpacesOfJoin(ts: seq<string>)
    requires forall t <- ts :: ' ' !in t
    ensures RemoveSpaces(JoinWith(ts, " ")) == Concat(ts)
    decreases |ts|
  {
    if |ts| == 0 {
    } else if |ts| == 1 {
      assert ts[0] in ts;
      RemoveSpacesOfPlain(ts[0]);
      assert Concat(ts[1..]) == [];
      assert ts[0] + [] == ts[0];
    } else {
      assert ts[0] in ts;
      assert forall t <- ts[1..] :: t in ts;
      RemoveSpacesOfJoin(ts[1..]);
      RemoveSpacesOfPlain(ts[0]);
      RemoveSpacesAppend(ts[0] + " ", JoinWith(ts[1..], " "));
      RemoveSpacesAppend(ts[0], " ");
    }
  }

  /** The phones of a word without spaces are free of spaces too. */
  lemma SegmentSpaceFree(w: string)
    requires ' ' !in w
    ensures forall t <- Segment(w) :: ' ' !in t
  {
    forall t <- Segment(w) ensures ' ' !in t {
      ConcatMember(Segment(w), t);
    }
  }

  /** Deleting the spaces from the phones of a non-atomic word gives back the word. */
  lemma SplitPhonesKeepsLetters(w: string)
    requires !IsAtomic(w)
    ensures RemoveSpaces(ToSplitPhones(w)) == w
  {
    NonAtomicIsSpaceFree(w);
    SegmentSpaceFree(w);
    RemoveSpacesOfJoin(Segment(w));
  }

  /** Every character of a piece occurs in the concatenation. */
  lemma {:induction false} ConcatMember(ts: seq<string>, t: string)
    requires t in ts
    ensures forall c <- t :: c in Concat(ts)
    decreases |ts|
  {
    if ts[0] != t {
      assert t in ts[1..];
      ConcatMember(ts[1..], t);
    }
  }

  /** An anonymisation code is atomic, so `to_split_phones` leaves it alone. */
  lemma AnomCodesUnsplit(code: string)
    requires code in Kaldi.ANOM
    ensures IsAtomic(code) && ToSplitPhones(code) == code
  {
    Kaldi.AnomCodesAreCapitals(code);
    assert code[0] in code;
  }

  lemma SegmentDigraphHead(w: string)
    requires |w| >= 2 && IsDigraph(w[..2])
    ensures Segment(w) == [w[..2]] + Segment(w[2..])
  {
  }

  lemma SegmentSingleHead(w: string)
    requires |w| > 0 && !(|w| >= 2 && IsDigraph(w[..2]))
    ensures Segment(w) == [[w[0]]] + Segment(w[1..])
  {
  }

  /** The leftmost two-character phone wins: `ʒʒʒ` is `ʒʒ ʒ`, not `ʒ ʒʒ`. */
  lemma SegmentLeftmostDigraph()
    ensures Segment("ʒʒʒ") == ["ʒʒ", "ʒ"]
  {
    var w := "ʒʒʒ";
    assert w[..2] == "ʒʒ" && w[2..] == "ʒ";
    var v := w[2..];
    assert v[1..] == [] && v[0] == 'ʒ';
    SegmentSingleHead(v);
    SegmentDigraphHead(w);
  }

  lemma SegmentChroust()
    ensures Segment("chroust") == ["ch"] + ([['r']] + (["ou"] + ([['s']] + [['t']])))
  {
    var w := "chroust";
    assert w[..2] == "ch" && w[2..] == "roust";
    SegmentRoust();
    SegmentDigraphHead(w);
  }

  lemma SegmentRoust()
    ensures Segment("roust") == [['r']] + (["ou"] + ([['s']] + [['t']]))
  {
    var s1 := "roust";
    assert s1[..2] == "ro" && s1[1..] == "oust" && s1[0] == 'r';
    SegmentOust();
    SegmentSingleHead(s1);
  }

  lemma SegmentOust()
    ensures Segment("oust") == ["ou"] + ([['s']] + [['t']])
  {
    var s2, s3, s4 := "oust", "st", "t";
    assert s2[0] == 'o' && s2[1] == 'u' && s2[2..] == s3;
    assert s2[..2] == "ou";
    SegmentSt();
    SegmentDigraphHead(s2);
  }

  lemma SegmentSt()
    ensures Segment("st") == [['s']] + [['t']]
  {
    var s3, s4 := "st", "t";
    assert s3[..2] == "st" && s3[1..] == s4 && s3[0] == 's';
    assert s4[1..] == [] && s4[0] == 't';
    SegmentSingleHead(s4);
    SegmentSingleHead(s3);
  }

  lemma JoinChroust()
    ensures JoinWith(["ch"] + ([['r']] + (["ou"] + ([['s']] + [['t']]))), " ") == "ch r ou s t"
  {
    var g3 := [['s']] + [['t']];
    var g2 := ["ou"] + g3;
    var g1 := [['r']] + g2;
    JoinCons(['s'], [['t']], " ");
    assert JoinWith(g3, " ") == "s t";
    JoinCons("ou", g3, " ");
    assert JoinWith(g2, " ") == "ou s t";
    JoinCons(['r'], g2, " ");
    assert JoinWith(g1, " ") == "r ou s t";
    JoinCons("ch", g1, " ");
  }

  lemma ChroustNotAtomic()
    ensures !IsAtomic("chroust")
  {
    forall c <- "chroust" ensures IsWordChar(c) && !IsAsciiUpper(c) {
      assert 'a' <= c <= 'z';
    }
  }

  /** The word `chroust` splits into the phones `ch r ou s t`. */
  lemma ChroustExample()
    ensures ToSplitPhones("chroust") == "ch r ou s t"
  {
    ChroustNotAtomic();
    SegmentChroust();
    JoinChroust();
  }
}
