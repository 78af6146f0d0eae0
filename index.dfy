/**
 * The `OrtofonEaf` object: the orthographic and phonetic annotation records
 * and the time slots read from a transcription when it is opened, and three
 * dictionaries built from them on demand and kept in cache fields.
 *
 * A cache field is consulted by truthiness, so a cached empty dictionary is
 * rebuilt on the next call. The phonetic records can be indexed by their own
 * `ANNOTATION_ID` or by the `ANNOTATION_REF` that points at the
 * orthographic annotation they transcribe, and both accessors use the one
 * cache field: whichever runs first with a non-empty result decides what
 * both return from then on.
 */
module Index {
  import opened Wrappers
  import opened Tree
  import opened Extract

  /** Every dict of `lst` has the key `key`. */
  predicate HasKey<K, V(==)>(lst: seq<map<K, V>>, key: K)
  {
    forall d <- lst :: key in d
  }

  /** `_lst2dict(lst, key)`: `{d[key]: d for d in lst}`; each entry is a dict of `lst` filed under its own key. */
  function Lst2Dict<K, V(==)>(lst: seq<map<K, V>>, key: K): (r: map<V, map<K, V>>)
    requires HasKey(lst, key)
    ensures forall v <- r :: r[v] in lst && r[v][key] == v
  {
    if lst == [] then map[]
    else
      var init := lst[..|lst| - 1];
      var last := lst[|lst| - 1];
      assert forall d <- init :: d in lst;
      Lst2Dict(init, key)[last[key] := last]
  }

  /** The list grows by one dict, which overwrites any entry under its key. */
  lemma Lst2DictSnoc<K, V>(lst: seq<map<K, V>>, key: K)
    requires HasKey(lst, key) && |lst| > 0
    ensures HasKey(lst[..|lst| - 1], key)
    ensures Lst2Dict(lst, key) == Lst2Dict(lst[..|lst| - 1], key)[lst[|lst| - 1][key] := lst[|lst| - 1]]
  {
    assert forall d <- lst[..|lst| - 1] :: d in lst;
  }

  /** The keys of the dictionary are exactly the keys of the dicts of the list. */
  lemma {:induction false} Lst2DictKeys<K, V>(lst: seq<map<K, V>>, key: K)
    requires HasKey(lst, key)
    ensures Lst2Dict(lst, key).Keys == set d <- lst :: d[key]
    decreases |lst|
  {
    if lst != [] {
      var init := lst[..|lst| - 1];
      var last := lst[|lst| - 1];
      Lst2DictSnoc(lst, key);
      Lst2DictKeys(init, key);
      assert lst == init + [last];
      assert (set d <- lst :: d[key]) == (set d <- init :: d[key]) + {last[key]};
    }
  }

  /** The dictionary is empty exactly when the list is. */
  lemma Lst2DictEmpty<K, V>(lst: seq<map<K, V>>, key: K)
    requires HasKey(lst, key)
    ensures |Lst2Dict(lst, key)| == 0 <==> lst == []
  {
    if lst != [] {
      Lst2DictKeys(lst, key);
      assert lst[0][key] in Lst2Dict(lst, key).Keys;
    }
  }

  /** The last dict of the list with a given key is the one the dictionary keeps. */
  lemma {:induction false} Lst2DictLastWins<K, V>(lst: seq<map<K, V>>, key: K, i: int)
    requires HasKey(lst, key) && 0 <= i < |lst|
    requires forall j :: i < j < |lst| ==> lst[j][key] != lst[i][key]
    ensures lst[i][key] in Lst2Dict(lst, key) && Lst2Dict(lst, key)[lst[i][key]] == lst[i]
    decreases |lst|
  {
    var init := lst[..|lst| - 1];
    Lst2DictSnoc(lst, key);
    if i < |lst| - 1 {
      assert init[i] == lst[i];
      assert forall j :: i < j < |init| ==> init[j] == lst[j];
      Lst2DictLastWins(init, key, i);
    }
  }

  /** The keys of `lst` are pairwise distinct. */
  predicate DistinctKeys<K, V(==)>(lst: seq<map<K, V>>, key: K)
    requires HasKey(lst, key)
  {
    forall i, j :: 0 <= i < j < |lst| ==> lst[i][key] != lst[j][key]
  }

  /** The keys of a list stay distinct when a dict with a new key is added at the end. */
  lemma DistinctKeysSnoc<K, V>(lst: seq<map<K, V>>, key: K)
    requires HasKey(lst, key) && |lst| > 0
    ensures HasKey(lst[..|lst| - 1], key)
    ensures DistinctKeys(lst, key) <==>
              DistinctKeys(lst[..|lst| - 1], key) && lst[|lst| - 1][key] !in (set d <- lst[..|lst| - 1] :: d[key])
  {
    var init := lst[..|lst| - 1];
    var last := lst[|lst| - 1];
    assert forall d <- init :: d in lst;
    assert forall i :: 0 <= i < |init| ==> init[i] == lst[i];
    if DistinctKeys(lst, key) {
      forall d <- init ensures d[key] != last[key] {
        var i :| 0 <= i < |init| && init[i] == d;
      }
    }
    if DistinctKeys(init, key) && last[key] !in (set d <- init :: d[key]) {
      forall i, j | 0 <= i < j < |lst| ensures lst[i][key] != lst[j][key] {
        if j < |lst| - 1 {
          assert init[i][key] != init[j][key];
        } else {
          assert init[i] in init;
        }
      }
    }
  }

  /**
   * The dictionary has at most one entry per dict of the list, and exactly
   * one each when the keys are distinct.
   */
  lemma {:induction false} Lst2DictSize<K, V>(lst: seq<map<K, V>>, key: K)
    requires HasKey(lst, key)
    ensures |Lst2Dict(lst, key)| <= |lst|
    ensures |Lst2Dict(lst, key)| == |lst| <==> DistinctKeys(lst, key)
    decreases |lst|
  {
    if lst != [] {
      var init := lst[..|lst| - 1];
      var last := lst[|lst| - 1];
      Lst2DictSnoc(lst, key);
      Lst2DictSize(init, key);
      Lst2DictKeys(init, key);
      DistinctKeysSnoc(lst, key);
      var m := Lst2Dict(init, key);
      assert |Lst2Dict(lst, key)| == |m| + (if last[key] in m then 0 else 1);
    }
  }

  /** With distinct keys, every dict of the list is found under its own key. */
  lemma Lst2DictDistinct<K, V>(lst: seq<map<K, V>>, key: K)
    requires HasKey(lst, key) && DistinctKeys(lst, key)
    ensures forall i :: 0 <= i < |lst| ==> lst[i][key] in Lst2Dict(lst, key) && Lst2Dict(lst, key)[lst[i][key]] == lst[i]
  {
    forall i | 0 <= i < |lst|
      ensures lst[i][key] in Lst2Dict(lst, key) && Lst2Dict(lst, key)[lst[i][key]] == lst[i]
    {
      Lst2DictLastWins(lst, key, i);
    }
  }

  /** The records of a list of entries read with their attributes. */
  function RecordsOf(annots: seq<Annot>): (r: seq<Record>)
    ensures |r| == |annots|
    ensures forall i :: 0 <= i < |annots| && annots[i].Attribs? ==> r[i] == annots[i].record
  {
    seq(|annots|, i requires 0 <= i < |annots| => if annots[i].Attribs? then annots[i].record else map[])
  }

  /** A cache field counts as filled only when it holds a non-empty dict. */
  predicate Truthy<K, V>(cache: Option<map<K, V>>)
  {
    cache.Some? && |cache.value| > 0
  }

  class OrtofonEaf {
    /** The parsed transcription. */
    const root: Element
    /** The orthographic annotation records, in document order. */
    const ort: seq<Record>
    /** The phonetic annotation records, in document order. */
    const fon: seq<Record>
    /** The attribute dicts of the time slots, in document order. */
    const time: seq<map<string, string>>

    var ortCache: Option<map<Option<string>, Record>>
    var fonCache: Option<map<Option<string>, Record>>
    var timeCache: Option<map<string, map<string, string>>>

    /**
     * The records are those read from the transcription, and a filled cache
     * holds the dictionary built from them: for the phonetic cache, by either
     * of the two keys.
     */
    predicate Valid()
      reads this
    {
      && Extractable(root, ORTHOGRAPHIC)
      && Extractable(root, PHONETIC)
      && ort == RecordsOf(Annotations(root, ORTHOGRAPHIC, true))
      && fon == RecordsOf(Annotations(root, PHONETIC, true))
      && (ortCache.Some? ==> HasKey(ort, "ANNOTATION_ID") && ortCache.value == Lst2Dict(ort, "ANNOTATION_ID"))
      && (fonCache.Some? ==>
            || (HasKey(fon, "ANNOTATION_ID") && fonCache.value == Lst2Dict(fon, "ANNOTATION_ID"))
            || (HasKey(fon, "ANNOTATION_REF") && fonCache.value == Lst2Dict(fon, "ANNOTATION_REF")))
      && (timeCache.Some? ==> HasKey(time, "TIME_SLOT_ID") && timeCache.value == Lst2Dict(time, "TIME_SLOT_ID"))
    }

    /** `__init__`: reads both annotation layers and the time slots; every cache starts empty. */
    constructor(root: Element)
      requires Extractable(root, ORTHOGRAPHIC) && Extractable(root, PHONETIC)
      ensures Valid()
      ensures this.root == root
      ensures |time| == |Iter(root, "TIME_SLOT")|
      ensures forall i :: 0 <= i < |time| ==> time[i] == Iter(root, "TIME_SLOT")[i].attrib
      ensures ortCache == None && fonCache == None && timeCache == None
    {
      var ortAnnots := ExtractAnnotationsInTier(root, ORTHOGRAPHIC, true);
      var fonAnnots := ExtractAnnotationsInTier(root, PHONETIC, true);
      var timestamps := ExtractTimestamps(root);
      this.root := root;
      ort := RecordsOf(ortAnnots);
      fon := RecordsOf(fonAnnots);
      time := timestamps;
      ortCache := None;
      fonCache := None;
      timeCache := None;
    }

    /** `ort_dict`: the orthographic records keyed by `ANNOTATION_ID`. */
    method OrtDict() returns (d: map<Option<string>, Record>)
      requires Valid()
      requires Truthy(ortCache) || HasKey(ort, "ANNOTATION_ID")
      modifies this
      ensures Valid()
      ensures HasKey(ort, "ANNOTATION_ID") && d == Lst2Dict(ort, "ANNOTATION_ID")
      ensures Truthy(old(ortCache)) ==> d == old(ortCache).value
      ensures ortCache == Some(d)
      ensures fonCache == old(fonCache) && timeCache == old(timeCache)
    {
      if ortCache.Some? && |ortCache.value| > 0 {
        d := ortCache.value;
      } else {
        ortCache := Some(Lst2Dict(ort, "ANNOTATION_ID"));
        d := ortCache.value;
      }
    }

    /**
     * `fon_dict`: the phonetic records keyed by `ANNOTATION_ID`, unless the
     * shared cache already holds a non-empty dict, which is returned as it is.
     */
    method FonDict() returns (d: map<Option<string>, Record>)
      requires Valid()
      requires Truthy(fonCache) || HasKey(fon, "ANNOTATION_ID")
      modifies this
      ensures Valid()
      ensures Truthy(old(fonCache)) ==> d == old(fonCache).value
      ensures !Truthy(old(fonCache)) ==> d == Lst2Dict(fon, "ANNOTATION_ID")
      ensures fonCache == Some(d)
      ensures ortCache == old(ortCache) && timeCache == old(timeCache)
    {
      if fonCache.Some? && |fonCache.value| > 0 {
        d := fonCache.value;
      } else {
        fonCache := Some(Lst2Dict(fon, "ANNOTATION_ID"));
        d := fonCache.value;
      }
    }

    /**
     * `fon_dict_by_ort_id`: the phonetic records keyed by `ANNOTATION_REF`,
     * unless the shared cache already holds a non-empty dict, which is
     * returned as it is.
     */
    method FonDictByOrtId() returns (d: map<Option<string>, Record>)
      requires Valid()
      requires Truthy(fonCache) || HasKey(fon, "ANNOTATION_REF")
      modifies this
      ensures Valid()
      ensures Truthy(old(fonCache)) ==> d == old(fonCache).value
      ensures !Truthy(old(fonCache)) ==> d == Lst2Dict(fon, "ANNOTATION_REF")
      ensures fonCache == Some(d)
      ensures ortCache == old(ortCache) && timeCache == old(timeCache)
    {
      if fonCache.Some? && |fonCache.value| > 0 {
        d := fonCache.value;
      } else {
        fonCache := Some(Lst2Dict(fon, "ANNOTATION_REF"));
        d := fonCache.value;
      }
    }

    /** `time_dict`: the time slots keyed by `TIME_SLOT_ID`. */
    method TimeDict() returns (d: map<string, map<string, string>>)
      requires Valid()
      requires Truthy(timeCache) || HasKey(time, "TIME_SLOT_ID")
      modifies this
      ensures Valid()
      ensures HasKey(time, "TIME_SLOT_ID") && d == Lst2Dict(time, "TIME_SLOT_ID")
      ensures Truthy(old(timeCache)) ==> d == old(timeCache).value
      ensures timeCache == Some(d)
      ensures ortCache == old(ortCache) && fonCache == old(fonCache)
    {
      if timeCache.Some? && |timeCache.value| > 0 {
        d := timeCache.value;
      } else {
        timeCache := Some(Lst2Dict(time, "TIME_SLOT_ID"));
        d := timeCache.value;
      }
    }
  }

  /**
   * The shared phonetic cache: once `fon_dict_by_ort_id` has returned a
   * non-empty dict, `fon_dict` returns that same dict, keyed by
   * `ANNOTATION_REF` and not by `ANNOTATION_ID`.
   */
  method FonDictAfterByOrtId(eaf: OrtofonEaf) returns (byRef: map<Option<string>, Record>, byId: map<Option<string>, Record>)
    requires eaf.Valid() && eaf.fonCache == None
    requires HasKey(eaf.fon, "ANNOTATION_REF")
    modifies eaf
    ensures byRef == Lst2Dict(eaf.fon, "ANNOTATION_REF")
    ensures |byRef| > 0 ==> byId == byRef
    ensures |byRef| == 0 ==> eaf.fon == [] && byId == map[]
  {
    byRef := eaf.FonDictByOrtId();
    Lst2DictEmpty(eaf.fon, "ANNOTATION_REF");
    byId := eaf.FonDict();
  }
}
