/** The storage form of a character's tag list: the list is kept in one TEXT
    column as the comma-joined string, and is read back by splitting on commas
    and dropping the empty pieces. */
module TagEncoding {
  import opened Common
  import opened Text

  const Separator: char := ','

  /** A tag that survives an encode/decode round trip: non-empty, no comma. */
  predicate IsCleanTag(t: string) {
    t != "" && Separator !in t
  }

  predicate NonEmpty(t: string) {
    t != ""
  }

  /** `','.join(tags)`, as the importers store a tag list. */
  function EncodeTags(ts: seq<string>): (r: string)
    ensures (forall t | t in ts :: IsCleanTag(t)) ==> (r == "" <==> ts == [])
    ensures (forall t | t in ts :: IsCleanTag(t)) ==> (Separator in r <==> |ts| > 1)
  {
    assert ts != [] ==> ts[0] in ts && (|ts| == 1 || Separator in Join(ts, Separator));
    Join(ts, Separator)
  }

  /** `[t for t in (stored or '').split(',') if t]`, as the exporter reads a
      stored tags value back; `None` is a NULL column. Every tag it yields is
      clean, and it yields exactly the non-empty comma-separated pieces. */
  function DecodeTags(stored: Option<string>): (r: seq<string>)
    ensures forall t | t in r :: IsCleanTag(t)
    ensures forall t | t in r :: t in Split(stored.GetOr(""), Separator)
    ensures forall t | t in Split(stored.GetOr(""), Separator) && t != "" :: t in r
    ensures stored.None? ==> r == []
  {
    var pieces := Split(stored.GetOr(""), Separator);
    assert stored.None? ==> pieces == [""] by {
      if stored.None? {
        assert FindFirst("", [Separator]).None? by {
          forall j: nat ensures !OccursAt("", [Separator], j) {
            OccursAtChar("", Separator, j);
          }
        }
      }
    }
    Filter(pieces, NonEmpty)
  }

  /** A stored value without a comma decodes to itself as the one tag, or to
      no tag when it is empty. */
  lemma DecodeOne(a: string)
    requires Separator !in a
    ensures DecodeTags(Some(a)) == if a == "" then [] else [a]
  {
    SplitNone(a, Separator);
  }

  /** Decoding reads the pieces left to right: the tags of `a,b` are the tags
      of `a` followed by the tags of `b`, repeats and order kept. */
  lemma DecodeConcat(a: string, b: string)
    requires Separator !in a
    ensures DecodeTags(Some(a + [Separator] + b)) == DecodeTags(Some(a)) + DecodeTags(Some(b))
  {
    SplitAfter(a, b, Separator);
    SplitNone(a, Separator);
    FilterConcat([a], Split(b, Separator), NonEmpty);
  }

  /** Decoding undoes encoding for a list of clean tags (an empty list included,
      which is stored as the empty string and read back as no tags). */
  lemma {:induction false} DecodeEncode(ts: seq<string>)
    requires forall t | t in ts :: IsCleanTag(t)
    ensures DecodeTags(Some(EncodeTags(ts))) == ts
  {
    if ts == [] {
      assert EncodeTags(ts) == "";
      assert DecodeTags(Some("")) == DecodeTags(None);
    } else {
      SplitJoin(ts, Separator);
      FilterKeepsAll(ts, NonEmpty);
    }
  }

  /** A stored string without empty pieces is the encoding of the tags that are
      decoded from it; such strings are exactly the ones export/import keeps. */
  predicate IsCanonical(stored: string) {
    stored == "" || forall p | p in Split(stored, Separator) :: p != ""
  }

  lemma {:induction false} EncodeDecode(stored: string)
    requires IsCanonical(stored)
    ensures EncodeTags(DecodeTags(Some(stored))) == stored
  {
    if stored == "" {
      assert DecodeTags(Some(stored)) == DecodeTags(None);
    } else {
      FilterKeepsAll(Split(stored, Separator), NonEmpty);
    }
  }
}
