/**
 * Reading annotations and time slots out of a parsed transcription
 * (`OrtofonEaf._extract_annotations_in_tier` and `_extract_timestamps`).
 *
 * A transcription holds `TIER` elements. A tier is read for a requested
 * linguistic type when its `LINGUISTIC_TYPE_REF` is that type, it was not
 * added by the TransVer tool, and its `TIER_ID` does not start with `JO` or
 * `anom`. The annotations of a phonetic tier are `REF_ANNOTATION` elements,
 * those of any other tier `ALIGNABLE_ANNOTATION` elements; the value of an
 * annotation is the text of its first child, and the speaker of a tier is
 * the first word of its `TIER_ID`.
 */
module Extract {
  import opened Wrappers
  import opened Tree
  import opened PyStr

  /** The linguistic type of the orthographic layer. */
  const ORTHOGRAPHIC := "ortografický"
  /** The linguistic type of the phonetic layer. */
  const PHONETIC := "fonetický"

  /**
   * An annotation read with its attributes: the attribute dict of the span
   * element plus `ANNOTATION_VALUE` and `SPEAKER`. Values are optional
   * because the text of an element may be absent.
   */
  type Record = map<string, Option<string>>

  /** One entry of the extracted list: the text alone, or the whole record. */
  datatype Annot = Text(value: Option<string>) | Attribs(record: Record)

  /** The tag of the annotation elements of a tier of linguistic type `attrib`. */
  function SpanTag(attrib: string): (r: string)
    ensures r == "REF_ANNOTATION" <==> attrib == PHONETIC
    ensures r == "REF_ANNOTATION" || r == "ALIGNABLE_ANNOTATION"
  {
    if attrib == PHONETIC then "REF_ANNOTATION" else "ALIGNABLE_ANNOTATION"
  }

  /**
   * The selection test can be evaluated on `tier` without an exception: the
   * tier has a `LINGUISTIC_TYPE_REF`, and it has a `TIER_ID` whenever the
   * test gets as far as looking at it.
   */
  predicate Checkable(tier: Element, attrib: string)
  {
    && "LINGUISTIC_TYPE_REF" in tier.attrib
    && (tier.attrib["LINGUISTIC_TYPE_REF"] == attrib && Get(tier.attrib, "ANNOTATOR") != Some("TransVer")
        ==> "TIER_ID" in tier.attrib)
  }

  /** The tier-selection rule; a missing `ANNOTATOR` does not exclude a tier. */
  predicate Selected(tier: Element, attrib: string)
    requires Checkable(tier, attrib)
  {
    && tier.attrib["LINGUISTIC_TYPE_REF"] == attrib
    && Get(tier.attrib, "ANNOTATOR") != Some("TransVer")
    && !StartsWith(tier.attrib["TIER_ID"], "JO")
    && !StartsWith(tier.attrib["TIER_ID"], "anom")
  }

  /**
   * `tier` can be read without an exception: the selection test can be
   * evaluated, and a selected tier has a speaker and only annotation
   * elements with at least one child.
   */
  predicate TierReadable(tier: Element, attrib: string)
  {
    && Checkable(tier, attrib)
    && (Selected(tier, attrib) ==>
          && (exists c <- tier.attrib["TIER_ID"] :: !IsSpace(c))
          && forall span <- Iter(tier, SpanTag(attrib)) :: |span.children| > 0)
  }

  /** Every tier of the document can be read for type `attrib`. */
  predicate Extractable(root: Element, attrib: string)
  {
    forall tier <- Iter(root, "TIER") :: TierReadable(tier, attrib)
  }

  /** The speaker of a selected tier: the first word of its `TIER_ID`. */
  function Speaker(tier: Element, attrib: string): (r: string)
    requires TierReadable(tier, attrib) && Selected(tier, attrib)
    ensures |r| > 0 && forall c <- r :: !IsSpace(c)
  {
    FirstWord(tier.attrib["TIER_ID"])
  }

  /** An attribute dict seen as a record. */
  function Lift(m: map<string, string>): (r: Record)
    ensures r.Keys == m.Keys
    ensures forall k <- m :: r[k] == Some(m[k])
  {
    map k <- m :: Some(m[k])
  }

  /**
   * The record of an annotation element: its attributes, with
   * `ANNOTATION_VALUE` set to the text of its first child and `SPEAKER` to
   * the tier's speaker; every other attribute is kept as it is.
   */
  function SpanRecord(span: Element, speaker: string): (r: Record)
    requires |span.children| > 0
    ensures r.Keys == span.attrib.Keys + {"ANNOTATION_VALUE", "SPEAKER"}
    ensures r["ANNOTATION_VALUE"] == span.children[0].text
    ensures r["SPEAKER"] == Some(speaker)
    ensures forall k <- span.attrib :: k != "ANNOTATION_VALUE" && k != "SPEAKER" ==> r[k] == Some(span.attrib[k])
  {
    Lift(span.attrib)["ANNOTATION_VALUE" := span.children[0].text]["SPEAKER" := Some(speaker)]
  }

  /** The entry for one annotation element. */
  function SpanAnnot(span: Element, speaker: string, getAttribs: bool): Annot
    requires |span.children| > 0
  {
    if getAttribs then Attribs(SpanRecord(span, speaker)) else Text(span.children[0].text)
  }

  /** The entries for a list of annotation elements of one speaker, in order. */
  function SpanAnnots(spans: seq<Element>, speaker: string, getAttribs: bool): (r: seq<Annot>)
    requires forall span <- spans :: |span.children| > 0
    ensures |r| == |spans|
    ensures forall a <- r :: a.Attribs? == getAttribs
  {
    seq(|spans|, j requires 0 <= j < |spans| => SpanAnnot(spans[j], speaker, getAttribs))
  }

  /** The entries contributed by one tier: none unless it is selected. */
  function TierAnnots(tier: Element, attrib: string, getAttribs: bool): (r: seq<Annot>)
    requires TierReadable(tier, attrib)
    ensures Selected(tier, attrib) ==> |r| == |Iter(tier, SpanTag(attrib))|
    ensures !Selected(tier, attrib) ==> r == []
    ensures forall a <- r :: a.Attribs? == getAttribs
  {
    if Selected(tier, attrib) then SpanAnnots(Iter(tier, SpanTag(attrib)), Speaker(tier, attrib), getAttribs)
    else []
  }

  /** The entries contributed by a list of tiers, in order. */
  function TiersAnnots(tiers: seq<Element>, attrib: string, getAttribs: bool): (r: seq<Annot>)
    requires forall tier <- tiers :: TierReadable(tier, attrib)
    ensures forall a <- r :: a.Attribs? == getAttribs
  {
    if tiers == [] then []
    else TiersAnnots(tiers[..|tiers| - 1], attrib, getAttribs) + TierAnnots(tiers[|tiers| - 1], attrib, getAttribs)
  }

  /**
   * What `_extract_annotations_in_tier(attrib, getAttribs)` returns for the
   * document `root`: records when `getAttribs` is set, bare texts otherwise.
   */
  function Annotations(root: Element, attrib: string, getAttribs: bool): (r: seq<Annot>)
    requires Extractable(root, attrib)
    ensures forall a <- r :: a.Attribs? == getAttribs
  {
    TiersAnnots(Iter(root, "TIER"), attrib, getAttribs)
  }

  /** The list of tiers read so far grows by one tier. */
  lemma TiersAnnotsStep(tiers: seq<Element>, i: int, attrib: string, getAttribs: bool)
    requires 0 <= i < |tiers|
    requires forall tier <- tiers :: TierReadable(tier, attrib)
    ensures TiersAnnots(tiers[..i + 1], attrib, getAttribs)
         == TiersAnnots(tiers[..i], attrib, getAttribs) + TierAnnots(tiers[i], attrib, getAttribs)
  {
    assert tiers[..i + 1][..i] == tiers[..i];
    assert tiers[..i + 1][i] == tiers[i];
  }

  /**
   * The inner loop of `_extract_annotations_in_tier`: appends the entry of
   * each annotation element of a selected tier.
   */
  method AppendSpans(annots: seq<Annot>, spans: seq<Element>, speaker: string, getAttribs: bool)
    returns (r: seq<Annot>)
    requires forall span <- spans :: |span.children| > 0
    ensures r == annots + SpanAnnots(spans, speaker, getAttribs)
  {
    r := annots;
    ghost var expected := SpanAnnots(spans, speaker, getAttribs);
    for j := 0 to |spans|
      invariant r == annots + expected[..j]
    {
      assert spans[j] in spans;
      assert expected[..j + 1] == expected[..j] + [expected[j]];
      var annotText := spans[j].children[0].text;
      if getAttribs {
        var record := SpanRecord(spans[j], speaker);
        r := r + [Attribs(record)];
      } else {
        r := r + [Text(annotText)];
      }
    }
    assert expected[..|spans|] == expected;
  }

  /** `_extract_annotations_in_tier`: a loop over the tiers appending to the result list. */
  method ExtractAnnotationsInTier(root: Element, attrib: string, getAttribs: bool) returns (annots: seq<Annot>)
    requires Extractable(root, attrib)
    ensures annots == Annotations(root, attrib, getAttribs)
  {
    annots := [];
    var annotType := SpanTag(attrib);
    var tiers := Iter(root, "TIER");
    for i := 0 to |tiers|
      invariant annots == TiersAnnots(tiers[..i], attrib, getAttribs)
    {
      var tier := tiers[i];
      assert TierReadable(tier, attrib) by {
        assert tier in tiers;
      }
      TiersAnnotsStep(tiers, i, attrib, getAttribs);
      if Selected(tier, attrib) {
        var speaker := FirstWord(tier.attrib["TIER_ID"]);
        annots := AppendSpans(annots, Iter(tier, annotType), speaker, getAttribs);
      }
    }
    assert tiers[..|tiers|] == tiers;
  }

  /** `_extract_timestamps`: the attribute dict of every `TIME_SLOT`, in document order. */
  method ExtractTimestamps(root: Element) returns (timestamps: seq<map<string, string>>)
    ensures |timestamps| == |Iter(root, "TIME_SLOT")|
    ensures forall i :: 0 <= i < |timestamps| ==> timestamps[i] == Iter(root, "TIME_SLOT")[i].attrib
  {
    timestamps := [];
    var slots := Iter(root, "TIME_SLOT");
    for i := 0 to |slots|
      invariant |timestamps| == i
      invariant forall k :: 0 <= k < i ==> timestamps[k] == slots[k].attrib
    {
      timestamps := timestamps + [slots[i].attrib];
    }
  }

  // ---------------------------------------------------------------------
  // What the extracted list holds

  /** The number of annotation elements under the selected tiers of `tiers`. */
  function SpanCount(tiers: seq<Element>, attrib: string): nat
    requires forall tier <- tiers :: TierReadable(tier, attrib)
  {
    if tiers == [] then 0
    else
      var last := tiers[|tiers| - 1];
      assert last in tiers && TierReadable(last, attrib) && Checkable(last, attrib);
      SpanCount(tiers[..|tiers| - 1], attrib) + (if Selected(last, attrib) then |Iter(last, SpanTag(attrib))| else 0)
  }

  lemma {:induction false} TiersAnnotsCount(tiers: seq<Element>, attrib: string, getAttribs: bool)
    requires forall tier <- tiers :: TierReadable(tier, attrib)
    ensures |TiersAnnots(tiers, attrib, getAttribs)| == SpanCount(tiers, attrib)
    decreases |tiers|
  {
    if tiers != [] {
      TiersAnnotsCount(tiers[..|tiers| - 1], attrib, getAttribs);
    }
  }

  /**
   * One entry per annotation element of the right kind under each selected
   * tier, in either mode.
   */
  lemma AnnotationsCount(root: Element, attrib: string, getAttribs: bool)
    requires Extractable(root, attrib)
    ensures |Annotations(root, attrib, getAttribs)| == SpanCount(Iter(root, "TIER"), attrib)
  {
    TiersAnnotsCount(Iter(root, "TIER"), attrib, getAttribs);
  }

  lemma SpanAnnotsSound(spans: seq<Element>, speaker: string, getAttribs: bool, a: Annot)
    requires forall span <- spans :: |span.children| > 0
    requires a in SpanAnnots(spans, speaker, getAttribs)
    ensures exists span <- spans :: a == SpanAnnot(span, speaker, getAttribs)
  {
    var j :| 0 <= j < |spans| && SpanAnnots(spans, speaker, getAttribs)[j] == a;
    assert spans[j] in spans;
  }

  lemma {:induction false} TiersAnnotsSound(tiers: seq<Element>, attrib: string, getAttribs: bool, a: Annot)
    requires forall tier <- tiers :: TierReadable(tier, attrib)
    requires a in TiersAnnots(tiers, attrib, getAttribs)
    ensures exists tier <- tiers :: Selected(tier, attrib) &&
              exists span <- Iter(tier, SpanTag(attrib)) :: a == SpanAnnot(span, Speaker(tier, attrib), getAttribs)
    decreases |tiers|
  {
    var init := tiers[..|tiers| - 1];
    var last := tiers[|tiers| - 1];
    assert forall tier <- init :: tier in tiers;
    if a in TiersAnnots(init, attrib, getAttribs) {
      TiersAnnotsSound(init, attrib, getAttribs, a);
      var tier :| tier in init && Selected(tier, attrib) &&
        exists span <- Iter(tier, SpanTag(attrib)) :: a == SpanAnnot(span, Speaker(tier, attrib), getAttribs);
      assert tier in tiers;
    } else {
      assert last in tiers;
      SpanAnnotsSound(Iter(last, SpanTag(attrib)), Speaker(last, attrib), getAttribs, a);
    }
  }

  /**
   * Tier selection: every entry comes from an annotation element of the
   * right kind under a selected tier, and carries that tier's speaker.
   */
  lemma AnnotationsSound(root: Element, attrib: string, getAttribs: bool)
    requires Extractable(root, attrib)
    ensures forall a <- Annotations(root, attrib, getAttribs) ::
              exists tier <- Iter(root, "TIER") :: Selected(tier, attrib) &&
                exists span <- Iter(tier, SpanTag(attrib)) ::
                  && span.tag == SpanTag(attrib)
                  && a == SpanAnnot(span, Speaker(tier, attrib), getAttribs)
  {
    forall a <- Annotations(root, attrib, getAttribs)
      ensures exists tier <- Iter(root, "TIER") :: Selected(tier, attrib) &&
                exists span <- Iter(tier, SpanTag(attrib)) ::
                  && span.tag == SpanTag(attrib)
                  && a == SpanAnnot(span, Speaker(tier, attrib), getAttribs)
    {
      TiersAnnotsSound(Iter(root, "TIER"), attrib, getAttribs, a);
    }
  }

  lemma {:induction false} TiersAnnotsComplete(tiers: seq<Element>, attrib: string, getAttribs: bool, tier: Element, span: Element)
    requires forall t <- tiers :: TierReadable(t, attrib)
    requires tier in tiers && TierReadable(tier, attrib)
    requires Selected(tier, attrib) && span in Iter(tier, SpanTag(attrib))
    ensures |span.children| > 0
    ensures SpanAnnot(span, Speaker(tier, attrib), getAttribs) in TiersAnnots(tiers, attrib, getAttribs)
    decreases |tiers|
  {
    var init := tiers[..|tiers| - 1];
    assert tiers == init + [tiers[|tiers| - 1]];
    if tier in init {
      assert forall t <- init :: t in tiers;
      TiersAnnotsComplete(init, attrib, getAttribs, tier, span);
    } else {
      assert tier == tiers[|tiers| - 1];
      var spans := Iter(tier, SpanTag(attrib));
      var j :| 0 <= j < |spans| && spans[j] == span;
      assert SpanAnnots(spans, Speaker(tier, attrib), getAttribs)[j] == SpanAnnot(span, Speaker(tier, attrib), getAttribs);
    }
  }

  /** Every annotation element of the right kind under a selected tier has its entry. */
  lemma AnnotationsComplete(root: Element, attrib: string, getAttribs: bool)
    requires Extractable(root, attrib)
    ensures forall tier <- Iter(root, "TIER"), span <- Iter(tier, SpanTag(attrib)) ::
              Selected(tier, attrib) ==> SpanAnnot(span, Speaker(tier, attrib), getAttribs) in Annotations(root, attrib, getAttribs)
  {
    var tiers := Iter(root, "TIER");
    forall tier <- tiers, span <- Iter(tier, SpanTag(attrib)) | Selected(tier, attrib)
      ensures SpanAnnot(span, Speaker(tier, attrib), getAttribs) in Annotations(root, attrib, getAttribs)
    {
      TiersAnnotsComplete(tiers, attrib, getAttribs, tier, span);
    }
  }

  /** `texts` are the `ANNOTATION_VALUE`s of the records `records`, entry by entry. */
  predicate ValuesOf(texts: seq<Annot>, records: seq<Annot>)
  {
    && |texts| == |records|
    && forall k :: 0 <= k < |records| ==>
         && records[k].Attribs?
         && "ANNOTATION_VALUE" in records[k].record
         && texts[k] == Text(records[k].record["ANNOTATION_VALUE"])
  }

  lemma ValuesOfAppend(t1: seq<Annot>, r1: seq<Annot>, t2: seq<Annot>, r2: seq<Annot>)
    requires ValuesOf(t1, r1) && ValuesOf(t2, r2)
    ensures ValuesOf(t1 + t2, r1 + r2)
  {
    forall k | 0 <= k < |r1 + r2|
      ensures && (r1 + r2)[k].Attribs?
              && "ANNOTATION_VALUE" in (r1 + r2)[k].record
              && (t1 + t2)[k] == Text((r1 + r2)[k].record["ANNOTATION_VALUE"])
    {
      if k < |r1| {
        assert (r1 + r2)[k] == r1[k] && (t1 + t2)[k] == t1[k];
      } else {
        assert (r1 + r2)[k] == r2[k - |r1|] && (t1 + t2)[k] == t2[k - |t1|];
      }
    }
  }

  lemma {:induction false} TiersAnnotsValues(tiers: seq<Element>, attrib: string)
    requires forall tier <- tiers :: TierReadable(tier, attrib)
    ensures ValuesOf(TiersAnnots(tiers, attrib, false), TiersAnnots(tiers, attrib, true))
    decreases |tiers|
  {
    if tiers != [] {
      var init := tiers[..|tiers| - 1];
      var last := tiers[|tiers| - 1];
      assert forall t <- init :: t in tiers;
      assert last in tiers;
      TiersAnnotsValues(init, attrib);
      var texts := TierAnnots(last, attrib, false);
      var records := TierAnnots(last, attrib, true);
      assert ValuesOf(texts, records) by {
        if Selected(last, attrib) {
          var spans := Iter(last, SpanTag(attrib));
          forall k | 0 <= k < |records|
            ensures && records[k].Attribs?
                    && "ANNOTATION_VALUE" in records[k].record
                    && texts[k] == Text(records[k].record["ANNOTATION_VALUE"])
          {
            assert spans[k] in spans;
          }
        }
      }
      ValuesOfAppend(TiersAnnots(init, attrib, false), TiersAnnots(init, attrib, true), texts, records);
    }
  }

  /**
   * Reading without attributes gives, entry by entry, the `ANNOTATION_VALUE`
   * of reading with them: every entry of the second is a record.
   */
  lemma TextsAreRecordValues(root: Element, attrib: string)
    requires Extractable(root, attrib)
    ensures ValuesOf(Annotations(root, attrib, false), Annotations(root, attrib, true))
  {
    TiersAnnotsValues(Iter(root, "TIER"), attrib);
  }
}
