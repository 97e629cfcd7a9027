/**
 Which source a piece number names (`piece_table.py`, `_source_of`): the original, a segment of the add
 store, or the original or a segment of a legacy generation.
 */
module SourceMap {
  import opened Rows
  import opened Pieces
  import opened AddStore

  /** An old original with its old add store, kept because pieces still refer to them. */
  datatype Legacy = Legacy(original: Source, segments: seq<Bytes>)

  /** `src` names a source of this table. */
  predicate Known(src: nat, segments: seq<Bytes>, legacy: seq<Legacy>) {
    var g, k := GenerationOf(src), SegmentOf(src);
    if src == 0 then true
    else if g == 0 then 1 <= k <= |segments|
    else g <= |legacy| && k <= |legacy[g - 1].segments|
  }

  function Resolve(src: nat, original: Source, segments: seq<Bytes>, legacy: seq<Legacy>): Source
    requires Known(src, segments, legacy)
  {
    var g, k := GenerationOf(src), SegmentOf(src);
    if src == 0 then original
    else if g == 0 then SegmentSource(segments[k - 1])
    else if k == 0 then legacy[g - 1].original
    else SegmentSource(legacy[g - 1].segments[k - 1])
  }

  function SourcesOf(original: Source, segments: seq<Bytes>, legacy: seq<Legacy>): Sources {
    map src: nat | src < (|legacy| + 1) * SEGMENTS && Known(src, segments, legacy) :: Resolve(src, original, segments, legacy)
  }

  lemma {:induction false} Lookup(src: nat, original: Source, segments: seq<Bytes>, legacy: seq<Legacy>)
    ensures src in SourcesOf(original, segments, legacy) <==> Known(src, segments, legacy)
    ensures Known(src, segments, legacy) ==> SourcesOf(original, segments, legacy)[src] == Resolve(src, original, segments, legacy)
  {
    if Known(src, segments, legacy) {
      assert src < (|legacy| + 1) * SEGMENTS;
    }
  }

  /** The live original is source 0 and segment `k` of the add store is source `k`. */
  lemma {:induction false} LiveSources(original: Source, segments: seq<Bytes>, legacy: seq<Legacy>, k: nat)
    requires 1 <= k <= |segments| && k < SEGMENTS
    ensures var S := SourcesOf(original, segments, legacy);
            0 in S && S[0] == original && k in S && S[k] == SegmentSource(segments[k - 1])
  {
    Lookup(0, original, segments, legacy);
    Lookup(k, original, segments, legacy);
  }

  lemma {:induction false} OriginalSource0(original: Source, segments: seq<Bytes>, legacy: seq<Legacy>)
    ensures var S := SourcesOf(original, segments, legacy); 0 in S && S[0] == original
  {
    Lookup(0, original, segments, legacy);
  }

  /** More appended bytes, more generations and another state of the scan never take a byte away. */
  lemma {:induction false} SourcesGrow(o: Source, segments: seq<Bytes>, legacy: seq<Legacy>,
                                       o2: Source, segments2: seq<Bytes>, legacy2: seq<Legacy>)
    requires o.data == o2.data && SegmentsGrow(segments, segments2) && legacy <= legacy2
    ensures Grows(SourcesOf(o, segments, legacy), SourcesOf(o2, segments2, legacy2))
  {
    var S, T := SourcesOf(o, segments, legacy), SourcesOf(o2, segments2, legacy2);
    hide SourcesOf;
    forall k | k in S
      ensures k in T && S[k].data <= T[k].data
    {
      Lookup(k, o, segments, legacy);
      Lookup(k, o2, segments2, legacy2);
      var g := GenerationOf(k);
      if k != 0 && g > 0 {
        assert legacy2[g - 1] == legacy[g - 1];
      }
    }
  }
}
