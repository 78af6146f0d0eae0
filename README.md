# ORTOFON transcription utilities in Dafny

This project models `eafutils/ucnk.py`, the utilities of the ORTOFON
spoken-corpus project for reading `.eaf` transcriptions. A transcription is an
XML tree. Its `TIER` elements hold the annotations of one speaker on one
layer: the orthographic layer (`ortografický`) or the phonetic layer
(`fonetický`). Its `TIME_SLOT` elements hold the time line. The module has
three parts, and the model follows each in the form the code has.

* **Extraction** (`extract.dfy`, over the tree of `tree.dfy`).
  * `_extract_annotations_in_tier` walks the tiers in document order and keeps those the selection rule accepts.
  * For each kept tier it appends one entry per annotation element. An entry is the text of the element's first child, or the element's attributes extended with `ANNOTATION_VALUE` and `SPEAKER`.
  * `_extract_timestamps` collects the attribute dict of every time slot.
  * Both are loops appending to a list. They are methods proved equal to the reference functions `Annotations` and `Iter`, and lemmas then state what those functions contain.
* **Indexing and caching** (`index.dfy`).
  * `_lst2dict` turns a list of dicts into a dict keyed by one field, where a later dict wins.
  * `OrtofonEaf` is a class with three cache fields of type `Option<map>`.
  * Each accessor consults its cache by truthiness, so a cached empty dict counts as absent.
  * `fon_dict` and `fon_dict_by_ort_id` share one cache field.
* **Text normalisation** (`kaldi.dfy`, `phones.dfy`, over the string primitives of `pystr.dfy`).
  * `kaldi_tokenize` deletes irrelevant characters and the `<X ` markers, replaces every digit run by the one anonymisation code drawn for the call, then strips and splits.
  * `to_split_phones` spaces out a phonetic word but keeps `ch`, `ou` and `ʒʒ` together.
  * Its three regular-expression substitutions are proved to produce the greedy segmentation `Phones.Segment`.

The random code of `random_anom` is a parameter `code` with `code in ANOM`.
The Python exceptions the code can raise become preconditions:

* `Extract.Checkable` and `Extract.TierReadable` cover a tier without `LINGUISTIC_TYPE_REF`, a selected tier without a usable `TIER_ID`, and an annotation element without children.
* `Index.HasKey` covers a record without the key that `_lst2dict` looks up.

Three behaviours of the code are easy to miss, and the model keeps them:

* The two phonetic accessors share one cache field. Whichever of them first stores a non-empty dict decides what both return, so `fon_dict` after `fon_dict_by_ort_id` gives the dict keyed by `ANNOTATION_REF` (`Index.FonDictAfterByOrtId`).
* A first child without text is appended as `None`, not rejected. The model carries the value as `Option<string>`.
* `kaldi_tokenize` never returns an empty list (`Kaldi.KaldiTokenize`). `kaldi_tokenize("")` is `[""]` (`Kaldi.KaldiTokenizeEmpty`), and a pipe next to another separator, as in `a | b`, yields empty tokens inside the list (`Kaldi.SplitPipeAndSpacesExample`).

## Model

| member | source | states |
|---|---|---|
| Tree.IterIsFilteredPreOrder | eafutils/ucnk.py:109 | `iter(tag)` yields exactly the elements of the document-order traversal, the start element included, whose tag is `tag`, in that order |
| Tree.IterMembers | eafutils/ucnk.py:134 | an element is yielded by `iter(tag)` if and only if it lies in the subtree and carries the tag |
| Tree.Iter | eafutils/ucnk.py:116 | every element `iter(tag)` yields carries the tag `tag` |
| Wrappers.Get | eafutils/ucnk.py:112 | `dict.get` gives a value exactly when the key is present, and then it gives the stored value |
| PyStr.FirstWord | eafutils/ucnk.py:115 | `split()[0]` is a non-empty run without whitespace, found right after the leading whitespace and followed by whitespace or the end |
| PyStr.LStrip | eafutils/ucnk.py:152 | `lstrip()` is a suffix that does not start with whitespace, and only whitespace was removed |
| PyStr.RStrip | eafutils/ucnk.py:152 | `rstrip()` is a prefix that does not end with whitespace, and only whitespace was removed |
| PyStr.StripEnds | eafutils/ucnk.py:152 | `strip()` neither starts nor ends with whitespace |
| PyStr.StripIsSlice | eafutils/ucnk.py:152 | `strip()` is the slice of the input starting where `lstrip()` starts (so everything cut off in front is whitespace, by `LStrip`) |
| PyStr.StripTrailing | eafutils/ucnk.py:152 | everything cut off after that slice is whitespace |
| PyStr.StripChars | eafutils/ucnk.py:152 | `strip()` introduces no character that was not in the input |
| Extract.SpanTag | eafutils/ucnk.py:107-108 | the annotation element tag is `REF_ANNOTATION` exactly for the phonetic type and `ALIGNABLE_ANNOTATION` otherwise |
| Extract.Speaker | eafutils/ucnk.py:115 | a selected tier's speaker is a non-empty word without whitespace |
| Extract.Lift | eafutils/ucnk.py:119 | the record of an attribute dict has the same keys and the same values |
| Extract.SpanRecord | eafutils/ucnk.py:118-121 | the record's keys are the element's attributes plus `ANNOTATION_VALUE` and `SPEAKER`; `ANNOTATION_VALUE` is the first child's text, possibly absent; `SPEAKER` is the speaker; every other attribute is unchanged |
| Extract.SpanAnnots | eafutils/ucnk.py:116-124 | one entry per annotation element |
| Extract.TierAnnots | eafutils/ucnk.py:110-124 | a selected tier contributes one entry per annotation element of the right tag below it (itself included); any other tier contributes nothing |
| Extract.Annotations | eafutils/ucnk.py:105-125 | the reference definition of the result: the entries of the tiers in document order; every entry is a record when attributes are asked for and a bare text otherwise |
| Extract.AppendSpans | eafutils/ucnk.py:116-124 | the inner loop appends exactly the entries of the tier's annotation elements, in order, to the list built so far |
| Extract.ExtractAnnotationsInTier | eafutils/ucnk.py:86-125 | the loops return the concatenation, over the tiers in document order, of each tier's entries |
| Extract.ExtractTimestamps | eafutils/ucnk.py:127-136 | the result has one attribute dict per `TIME_SLOT` of the whole document, in document order, with nothing filtered |
| Extract.AnnotationsCount | eafutils/ucnk.py:107-124 | in either mode, the number of entries equals the number of annotation elements of the right tag under the selected tiers |
| Extract.AnnotationsSound | eafutils/ucnk.py:109-122 | every entry comes from an annotation element of the right tag under a tier that passes the selection rule. The rule: `LINGUISTIC_TYPE_REF` matches, `ANNOTATOR` is not `TransVer` (a missing one is allowed), and `TIER_ID` starts with neither `JO` nor `anom`. The entry carries that tier's speaker |
| Extract.AnnotationsComplete | eafutils/ucnk.py:109-124 | every annotation element of the right tag under a selected tier has its entry in the result |
| Extract.TextsAreRecordValues | eafutils/ucnk.py:117-124 | reading without attributes gives, entry by entry, the `ANNOTATION_VALUE` of reading with attributes, and every entry of the latter is a record |
| Index.Lst2Dict | eafutils/ucnk.py:74-84 | every entry of the dict is a dict of the list, filed under its own value for the key |
| Index.Lst2DictKeys | eafutils/ucnk.py:84 | the dict's keys are exactly the key values `d[key]` of the dicts in the list |
| Index.Lst2DictEmpty | eafutils/ucnk.py:84 | the dict is empty exactly when the list is |
| Index.Lst2DictLastWins | eafutils/ucnk.py:84 | a dict that no later dict of the list shares a key with is the one kept under its key |
| Index.Lst2DictSize | eafutils/ucnk.py:84 | the dict has at most as many entries as the list, and exactly as many if and only if the keys are distinct |
| Index.Lst2DictDistinct | eafutils/ucnk.py:84 | with distinct keys, every dict of the list is found under its own key |
| Index.RecordsOf | eafutils/ucnk.py:42-43 | the records kept by the object are the extracted records, one for one |
| Index.OrtofonEaf.constructor | eafutils/ucnk.py:40-44 | the object holds the orthographic and phonetic records and the time-slot dicts read from the tree, and every cache starts empty |
| Index.OrtofonEaf.OrtDict | eafutils/ucnk.py:46-51 | returns the orthographic records keyed by `ANNOTATION_ID`. A non-empty cached dict is returned unchanged. The cache then holds the result, and the other caches are untouched |
| Index.OrtofonEaf.FonDict | eafutils/ucnk.py:53-58 | returns the non-empty dict already in the shared phonetic cache, whichever key built it. Otherwise it builds the phonetic records keyed by `ANNOTATION_ID` and caches them |
| Index.OrtofonEaf.FonDictByOrtId | eafutils/ucnk.py:60-65 | returns the non-empty dict already in the shared phonetic cache, whichever key built it. Otherwise it builds the phonetic records keyed by `ANNOTATION_REF` and caches them |
| Index.OrtofonEaf.TimeDict | eafutils/ucnk.py:67-72 | returns the time-slot dicts keyed by `TIME_SLOT_ID`. A non-empty cached dict is returned unchanged, and the cache then holds the result |
| Index.FonDictAfterByOrtId | eafutils/ucnk.py:53-65 | after `fon_dict_by_ort_id` has returned a non-empty dict, `fon_dict` returns that same dict, keyed by `ANNOTATION_REF`. An empty one means there are no phonetic records, and `fon_dict` then returns the empty dict as well |
| Kaldi.AnomCodesAreCapitals | eafutils/ucnk.py:20 | every anonymisation code is two ASCII capitals |
| Kaldi.RemoveIrrelevant | eafutils/ucnk.py:145 | the result is a subsequence of the input (order kept, nothing added) and holds exactly the characters of the input outside `?#$[]{}()=>-*+_` |
| Kaldi.RemoveIrrelevantAppend | eafutils/ucnk.py:145 | the deletion distributes over concatenation, so it works character by character in order |
| Kaldi.RemoveIrrelevantChar | eafutils/ucnk.py:145 | a single character is deleted if it is one of `?#$[]{}()=>-*+_` and kept otherwise |
| Kaldi.RemoveIrrelevantUntouched | eafutils/ucnk.py:145 | a text without irrelevant characters is left as it is |
| Kaldi.UpperRunLength | eafutils/ucnk.py:146 | the length of the maximal run of ASCII capitals at the start |
| Kaldi.RemoveMarkers | eafutils/ucnk.py:146 | deleting the markers only removes characters: the result is a subsequence of the input |
| Kaldi.RemoveMarkersKeepsPrefix | eafutils/ucnk.py:146 | text before the first `<` is copied unchanged |
| Kaldi.RemoveMarkersNoMarker | eafutils/ucnk.py:146 | where no `<` + capitals + space starts, the text is left exactly as it is, so a `<` that opens no marker is kept |
| Kaldi.RemoveMarkersKeepsLoneBracket | eafutils/ucnk.py:146 | `a<b` passes through the marker deletion unchanged |
| Kaldi.RemoveMarkersAtMarker | eafutils/ucnk.py:146 | a leading `<` + capitals + space is deleted |
| Kaldi.UpperRunAppend | eafutils/ucnk.py:146 | a character that is not a capital ends the capital run of a marker |
| Kaldi.MarkerAtAppend | eafutils/ucnk.py:146 | text ahead of a `<` starts with a marker exactly when it does on its own |
| Kaldi.RemoveMarkersAnywhere | eafutils/ucnk.py:146 | a `<` + capitals + space marker is deleted wherever it stands, and the text on both sides is processed as if the marker were not there |
| Kaldi.DigitRunLength | eafutils/ucnk.py:149 | the length of the maximal run of digits at the start |
| Kaldi.Anonymise | eafutils/ucnk.py:149 | after anonymising, every character is a non-digit of the input or a character of the code |
| Kaldi.AnonymiseAppend | eafutils/ucnk.py:149 | anonymising distributes over a concatenation that does not cut a digit run |
| Kaldi.AnonymiseAtRun | eafutils/ucnk.py:149 | a maximal digit run at the start becomes the code |
| Kaldi.AnonymiseRun | eafutils/ucnk.py:149 | a maximal digit run anywhere becomes the one code of the call |
| Kaldi.AnonymiseWithoutDigits | eafutils/ucnk.py:149 | a text without digits is left as it is |
| Kaldi.SpaceRunLength | eafutils/ucnk.py:152 | the length of the maximal whitespace run at the start |
| Kaldi.SplitFrom | eafutils/ucnk.py:152 | splitting always yields at least one piece, and pieces hold only non-separator characters of the input or of the piece in progress |
| Kaldi.Split | eafutils/ucnk.py:152 | `re.split(r"\\|\|\s+", s)` yields at least one piece, and no piece holds a pipe or whitespace |
| Kaldi.SplitFromWord | eafutils/ucnk.py:152 | a separator-free stretch is added to the piece in progress |
| Kaldi.SplitFromPipe | eafutils/ucnk.py:152 | a single pipe ends the piece in progress and the next piece starts empty |
| Kaldi.SplitFromSpaceRun | eafutils/ucnk.py:152 | a whole run of whitespace, however long, ends the piece in progress exactly once |
| Kaldi.SplitSpaceRunExample | eafutils/ucnk.py:152 | `"a \t b"` splits into `["a", "b"]` |
| Kaldi.SplitPipeAndSpacesExample | eafutils/ucnk.py:152 | `"a \| b"` splits into `["a", "", "", "b"]`: pipe and whitespace runs are separate separators |
| Kaldi.SplitFromJoin | eafutils/ucnk.py:152 | splitting pipe-joined separator-free pieces gives the pieces back, the first extended by the piece in progress |
| Kaldi.SplitJoinRoundTrip | eafutils/ucnk.py:152 | splitting the pipe-joined list of separator-free tokens gives the list back |
| Kaldi.StripUntouched | eafutils/ucnk.py:152 | a text without whitespace at either end is not changed by stripping |
| Kaldi.AnonymisedChars | eafutils/ucnk.py:145-149 | a character left after the first three steps is neither one of the deleted characters nor a digit |
| Kaldi.StrippedChars | eafutils/ucnk.py:145-152 | a character left after stripping is neither one of the deleted characters nor a digit |
| Kaldi.SplitKeepsClean | eafutils/ucnk.py:152 | splitting a text without deleted characters and digits gives pieces without them, and without separators |
| Kaldi.KaldiTokenize | eafutils/ucnk.py:143-152 | the token list is never empty, and no token contains any of `?#$[]{}()=>-*+_`, a pipe, whitespace or a digit |
| Kaldi.KaldiTokenizeEmpty | eafutils/ucnk.py:152 | the empty annotation gives the one empty token `[""]` |
| Kaldi.KaldiTokenizeDigitsAndWords | eafutils/ucnk.py:143-152 | a digit run followed by a space and `w1|w2` tokenizes to `[code, w1, w2]`, with the call's code in place of the digits |
| Kaldi.KaldiTokenizeDropsMarker | eafutils/ucnk.py:146 | a `<` + capitals + space marker before a word disappears, leaving `[w]` |
| Phones.Chars | eafutils/ucnk.py:171 | `list(w)` has one single-character string per character, in order |
| Phones.Segment | eafutils/ucnk.py:158 | the greedy segmentation into phones: the pieces concatenate back to the word, every piece is one character or one of `ch`, `ou`, `ʒʒ`, and a one-character piece never starts one of these with the first character of the next piece, so the leftmost two-character phone always wins (`ʒʒʒ` is `ʒʒ ʒ`) |
| Phones.SegmentLeftmostDigraph | eafutils/ucnk.py:175 | `ʒʒʒ` segments as `ʒʒ ʒ`, the way `re.sub("ʒ ʒ", "ʒʒ", …)` glues the leftmost pair |
| Phones.MergePair | eafutils/ucnk.py:173-175 | gluing adjacent `x`, `y` tokens never lengthens the list, keeps the first token or glues it, and produces only old tokens or `xy` |
| Phones.SkipToken | eafutils/ucnk.py:173-175 | a token that cannot begin a match of `x y` is copied through the substitution |
| Phones.SkipSpace | eafutils/ucnk.py:173-175 | a separating space never begins a match |
| Phones.MergeHead | eafutils/ucnk.py:173-175 | tokens `x`, `y` at the head are glued by the substitution |
| Phones.MergeSkip | eafutils/ucnk.py:173-175 | a head token that does not pair with the next one is copied through |
| Phones.ReplaceJoined | eafutils/ucnk.py:173-175 | `re.sub("x y", "xy", …)` on space-joined tokens equals joining the tokens after gluing each adjacent `x`, `y` pair, left to right |
| Phones.MergedCh | eafutils/ucnk.py:173-175 | a word starting with `ch` yields the phone `ch` first |
| Phones.MergedOu | eafutils/ucnk.py:173-175 | a word starting with `ou` yields the phone `ou` first |
| Phones.MergedZz | eafutils/ucnk.py:173-175 | a word starting with `ʒʒ` yields the phone `ʒʒ` first |
| Phones.MergedSingle | eafutils/ucnk.py:173-175 | a word not starting with a two-character phone yields its first character first |
| Phones.MergedIsSegment | eafutils/ucnk.py:171-175 | the three gluing passes over the characters give exactly the greedy segmentation |
| Phones.NonAtomicHasNoSpace | eafutils/ucnk.py:167 | a word that passes the atomicity test has no whitespace and no ASCII capital |
| Phones.CharsReady | eafutils/ucnk.py:171 | the characters of a space-free word are tokens ready for gluing |
| Phones.ReadyAfterCh | eafutils/ucnk.py:173-174 | after gluing `ch` the tokens are ready for gluing `ou` |
| Phones.ReadyAfterOu | eafutils/ucnk.py:174-175 | after gluing `ou` the tokens are ready for gluing `ʒʒ` |
| Phones.SubstitutionsSegment | eafutils/ucnk.py:171-175 | the join and the three substitutions on a space-free word give its segmentation joined by single spaces |
| Phones.ToSplitPhones | eafutils/ucnk.py:154-175 | an atomic word is returned as it is; any other word comes out as its greedy phone segmentation, one space between neighbouring phones, so `ch`, `ou` and `ʒʒ` stay unsplit |
| Phones.RemoveSpacesOfJoin | eafutils/ucnk.py:171 | deleting the spaces of a space-joined list of space-free pieces concatenates the pieces |
| Phones.SegmentSpaceFree | eafutils/ucnk.py:171-175 | the phones of a space-free word contain no space |
| Phones.SplitPhonesKeepsLetters | eafutils/ucnk.py:169-175 | deleting the spaces from the output for a non-atomic word gives the word back |
| Phones.AnomCodesUnsplit | eafutils/ucnk.py:167-168 | every anonymisation code contains an ASCII capital, so it is atomic and returned unchanged |
| Phones.ChroustExample | eafutils/ucnk.py:158 | `to_split_phones("chroust")` is `ch r ou s t` |

## Left out

- `find_eaf` (eafutils/ucnk.py:177-182) walks the file system, which is I/O. It is not modelled.
- Parsing the XML file (`ElementTree.__init__`) is not modelled. The object is built from the parsed tree, an `Element` value with tag, attributes, text and children. Tails, namespaces and comments play no part in the module.
- `random_anom` (eafutils/ucnk.py:139-141) draws from a random number generator. The drawn code is the parameter `code`, with `code in ANOM`, and one draw serves the whole call.
- Python exceptions are not modelled as control flow. The conditions under which the code would raise are preconditions (`Extract.Extractable`, `Index.HasKey`), so the model says nothing about inputs on which the code raises.
- Extract.SpanRecord: the code writes `ANNOTATION_VALUE` and `SPEAKER` into the element's own attribute dict. The list therefore shares that dict with the tree. An element reached through two nested selected tiers appears twice as one dict carrying the later speaker. The model builds a fresh record per entry, so each entry has its own tier's speaker; no aliasing is modelled.
- Index.Lst2Dict: dict keys are the record values, `Option<string>` for annotation records. A key taken from an attribute is always present, so it is never `None`.
- Kaldi.Anonymise, Kaldi.KaldiTokenize, PyStr.IsDigit: `\d` is modelled as the ASCII digits only. Python also counts the other Unicode decimal digits (from U+0660 on), which the model treats as ordinary characters.
- PyStr.IsWordChar, Phones.IsAtomic: `\w` is exact below U+0370 (Latin, the IPA letters, the spacing modifier letters). Every character from U+0370 on is treated as a non-word character, which makes a word containing one atomic.
- Kaldi.KaldiTokenize, Phones.ToSplitPhones: the general regular-expression engine is not modelled. The five patterns of the module are hand-coded as scans with the same leftmost, non-overlapping semantics.
- Phones.ReplaceAll: it models `re.sub` with a literal pattern only, which is all that `to_split_phones` uses.
- Kaldi.RemoveIrrelevant: its own contract states subsequence and the exact set of characters kept, not multiplicity; the exact result, character by character, is pinned down by `Kaldi.RemoveIrrelevantAppend` and `Kaldi.RemoveIrrelevantChar`.
- Kaldi.SplitFrom: its own contract states the shape of the pieces only; how a pipe and a whitespace run (the `\s+` grouping) end a piece is stated by `Kaldi.SplitFromWord`, `Kaldi.SplitFromPipe` and `Kaldi.SplitFromSpaceRun`.
- Kaldi.Split: as for `SplitFrom`, its own contract gives the shape of the pieces; the separators are stated by the `SplitFrom` lemmas and the examples.
- The model follows Python up to 3.8. `annot.getchildren()` (eafutils/ucnk.py:117) no longer exists from Python 3.9 on, where it raises `AttributeError`, and `random.sample(ANOM, 1)` on a set (eafutils/ucnk.py:141) raises `TypeError` from Python 3.11 on.
- Index.Lst2Dict: a Python dict keeps its keys in insertion order (the first appearance of each key); a Dafny map has no order, so the order of iteration over the dicts is not modelled.
