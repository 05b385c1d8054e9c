/** Where the track records of a decoded file sit: a description of the
    track loop's result that does not follow the loop (record `k` starts
    after the records before it, each accepted record has 0,0,0 padding,
    and the run ends at the end of the file or at a bad padding), proved
    equivalent to it, and the bound on the number of tracks that follows. */
module Layout {
  import opened Bytes
  import opened Drum

  /** Number of file bytes the records of `ts` occupy. */
  function Span(ts: seq<DrumPattern>): nat
  {
    if ts == [] then 0 else RECORD_FIXED_LEN + |ts[0].name| + Span(ts[1..])
  }

  /** The record at `off` lies inside the file, passes the padding check
      and reads as `t` (see `RecordRead` for what each field holds). */
  ghost predicate RecordAt(data: seq<byte>, off: nat, t: DrumPattern)
  {
    off < |data| && PaddingOk(data, off) && t == RecordRead(data, off)
  }

  /** The track loop ends at cursor `off`: the cursor has reached the end of
      the file, or the three bytes after the id there are not 0,0,0. */
  ghost predicate StopsAt(data: seq<byte>, off: nat)
  {
    off >= |data| || !PaddingOk(data, off)
  }

  /** Where record `k` of `ts` starts when the first one starts at `off`. */
  function Offset(ts: seq<DrumPattern>, off: nat, k: nat): nat
    requires k <= |ts|
  {
    off + Span(ts[..k])
  }

  /** `ts` is a run of accepted records laid end to end from `off`, after
      which the loop ends. */
  ghost predicate RecordsFrom(data: seq<byte>, off: nat, ts: seq<DrumPattern>)
  {
    && (forall k {:trigger Offset(ts, off, k)} :: 0 <= k < |ts| ==> RecordAt(data, Offset(ts, off, k), ts[k]))
    && StopsAt(data, off + Span(ts))
  }

  /** Record `k + 1` starts where record `k` of the records after the first
      one starts, counting from the end of the first. */
  lemma OffsetNext(ts: seq<DrumPattern>, off: nat, next: nat, k: nat)
    requires k < |ts| && next == off + RECORD_FIXED_LEN + |ts[0].name|
    ensures Offset(ts, off, k + 1) == Offset(ts[1..], next, k)
  {
    assert ts[..k + 1][1..] == ts[1..][..k];
  }

  /** What the track loop reads is a run of accepted records ending where
      the loop stops. */
  lemma {:induction false} TracksFromAreRecords(data: seq<byte>, off: nat)
    ensures RecordsFrom(data, off, TracksFrom(data, off))
    decreases |data| - off
  {
    var ts := TracksFrom(data, off);
    if off < |data| && PaddingOk(data, off) {
      var next := RecordEnd(data, off);
      var rest := TracksFrom(data, next);
      TracksFromAreRecords(data, next);
      assert ts == [RecordRead(data, off)] + rest;
      assert ts[1..] == rest;
      assert next == off + RECORD_FIXED_LEN + |ts[0].name|;
      forall k | 0 <= k < |ts|
        ensures RecordAt(data, Offset(ts, off, k), ts[k])
      {
        if k == 0 {
          assert ts[..0] == [];
        } else {
          OffsetNext(ts, off, next, k - 1);
          assert RecordAt(data, Offset(rest, next, k - 1), rest[k - 1]);
        }
      }
      assert Span(ts) == RECORD_FIXED_LEN + |ts[0].name| + Span(rest);
    }
  }

  /** A run of accepted records is its first record followed by a run that
      starts where that record ends. */
  lemma RecordsFromTail(data: seq<byte>, off: nat, ts: seq<DrumPattern>)
    requires ts != [] && RecordsFrom(data, off, ts)
    ensures RecordAt(data, off, ts[0])
    ensures RecordsFrom(data, RecordEnd(data, off), ts[1..])
  {
    assert ts[..0] == [];
    assert RecordAt(data, Offset(ts, off, 0), ts[0]);
    var next := RecordEnd(data, off);
    assert next == off + RECORD_FIXED_LEN + |ts[0].name|;
    assert Span(ts) == RECORD_FIXED_LEN + |ts[0].name| + Span(ts[1..]);
    forall k | 0 <= k < |ts[1..]|
      ensures RecordAt(data, Offset(ts[1..], next, k), ts[1..][k])
    {
      OffsetNext(ts, off, next, k);
      assert RecordAt(data, Offset(ts, off, k + 1), ts[k + 1]);
    }
  }

  /** A run of accepted records ending where the loop stops is exactly what
      the track loop reads. */
  lemma {:induction false} RecordsAreTracksFrom(data: seq<byte>, off: nat, ts: seq<DrumPattern>)
    requires RecordsFrom(data, off, ts)
    ensures TracksFrom(data, off) == ts
    decreases |ts|
  {
    if ts != [] {
      RecordsFromTail(data, off, ts);
      RecordsAreTracksFrom(data, RecordEnd(data, off), ts[1..]);
      assert ts == [ts[0]] + ts[1..];
    }
  }

  /** The track loop reads `ts` exactly when `ts` is a run of accepted
      records from `off` ending where the loop stops. */
  lemma TracksFromExactly(data: seq<byte>, off: nat, ts: seq<DrumPattern>)
    ensures TracksFrom(data, off) == ts <==> RecordsFrom(data, off, ts)
  {
    if TracksFrom(data, off) == ts {
      TracksFromAreRecords(data, off);
    }
    if RecordsFrom(data, off, ts) {
      RecordsAreTracksFrom(data, off, ts);
    }
  }

  /** Every record the loop reads starts before the end of the file and the
      next one starts at least 21 bytes further on, so the last of `n`
      records starts at or after `off + 21 * (n - 1)`. */
  lemma {:induction false} TracksFromBound(data: seq<byte>, off: nat)
    ensures |TracksFrom(data, off)| == 0 || off + RECORD_FIXED_LEN * (|TracksFrom(data, off)| - 1) < |data|
    decreases |data| - off
  {
    if off < |data| && PaddingOk(data, off) {
      var next := RecordEnd(data, off);
      TracksFromBound(data, next);
      var n := |TracksFrom(data, next)|;
      assert |TracksFrom(data, off)| == 1 + n;
      assert next >= off + RECORD_FIXED_LEN;
      if n > 0 {
        assert off + RECORD_FIXED_LEN * n <= next + RECORD_FIXED_LEN * (n - 1);
      }
    }
  }

  /** The tracks of a decoded file are exactly the run of accepted records
      laid end to end from offset 50. */
  lemma DecodedTracks(data: seq<byte>, ts: seq<DrumPattern>)
    requires Decoded(data).Ok?
    ensures Decoded(data).pattern.patterns == ts <==> RecordsFrom(data, TRACKS_START, ts)
  {
    TracksFromExactly(data, TRACKS_START, ts);
  }

  /** A decoded file of `len` bytes has at most ceil((len - 50) / 21)
      tracks, and none when `len <= 50`. */
  lemma DecodedTrackCount(data: seq<byte>)
    requires Decoded(data).Ok?
    ensures |data| <= TRACKS_START ==> Decoded(data).pattern.patterns == []
    ensures |data| > TRACKS_START ==>
      |Decoded(data).pattern.patterns| <= (|data| - TRACKS_START + RECORD_FIXED_LEN - 1) / RECORD_FIXED_LEN
  {
    TracksFromBound(data, TRACKS_START);
    if |data| > TRACKS_START {
      CeilingBound(|Decoded(data).pattern.patterns|, |data| - TRACKS_START);
    }
  }

  /** `n` items each at least 21 apart, the last before `m`, number at most
      ceil(m / 21). */
  lemma CeilingBound(n: nat, m: nat)
    requires n == 0 || RECORD_FIXED_LEN * (n - 1) < m
    ensures n <= (m + RECORD_FIXED_LEN - 1) / RECORD_FIXED_LEN
  {
    var q := (m + RECORD_FIXED_LEN - 1) / RECORD_FIXED_LEN;
    assert m + RECORD_FIXED_LEN - 1 == RECORD_FIXED_LEN * q + (m + RECORD_FIXED_LEN - 1) % RECORD_FIXED_LEN;
  }
}
