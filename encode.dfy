/** The `.splice` layout as the decoder reads it, written out: a header of
    the signature and zero fill, the version padded with zeros, the tempo
    bits in little-endian order, then one record per track. Decoding what
    is written this way gives back the pattern written. */
module Encoding {
  import opened Bytes
  import opened Drum

  /** A track that fits a record: a name of at most 255 bytes, whose length
      fits the name-length byte, and 16 steps. */
  predicate RecordOk(t: DrumPattern)
  {
    |t.name| < 0x100 && |t.track| == TRACK_LEN
  }

  /** A pattern the layout can hold: a version of at most 32 bytes with no
      zero byte in it (the decoder cuts the field at its first zero), a
      tempo of 32 bits and tracks that fit records. */
  predicate WellFormed(p: Pattern)
  {
    |p.version| <= VERSION_LEN && 0 !in p.version && p.tempo < 0x1_0000_0000 &&
    forall k :: 0 <= k < |p.patterns| ==> RecordOk(p.patterns[k])
  }

  /** One track record: id, 0,0,0 padding, name length, name, steps. */
  function EncodeRecord(t: DrumPattern): (b: seq<byte>)
    requires RecordOk(t)
    ensures |b| == RECORD_FIXED_LEN + |t.name|
  {
    [t.id] + PADDING + [|t.name| as byte] + t.name + t.track
  }

  /** The records of `ts`, end to end. */
  function EncodeRecords(ts: seq<DrumPattern>): (b: seq<byte>)
    requires forall k :: 0 <= k < |ts| ==> RecordOk(ts[k])
  {
    if ts == [] then [] else EncodeRecord(ts[0]) + EncodeRecords(ts[1..])
  }

  /** The 50-byte header: signature and zero fill, the padded version and
      the tempo bits. */
  function EncodeHeader(version: seq<byte>, tempo: nat): (h: seq<byte>)
    requires |version| <= VERSION_LEN && tempo < 0x1_0000_0000
    ensures |h| == TRACKS_START
  {
    SIGNATURE + Zeros(HEADER_LEN - |SIGNATURE|)
      + (version + Zeros(VERSION_LEN - |version|))
      + LittleEndian32(tempo)
  }

  /** A whole file for `p`. */
  function Encode(p: Pattern): seq<byte>
    requires WellFormed(p)
  {
    EncodeHeader(p.version, p.tempo) + EncodeRecords(p.patterns)
  }

  /** A record written for `t` where the cursor `off` stands is accepted
      and reads back as `t`, and the next record starts right after it. */
  lemma RecordReadsBack(data: seq<byte>, off: nat, t: DrumPattern, rest: seq<byte>)
    requires RecordOk(t)
    requires off <= |data| && data[off..] == EncodeRecord(t) + rest
    ensures off < |data| && PaddingOk(data, off)
    ensures RecordRead(data, off) == t
    ensures RecordEnd(data, off) == off + |EncodeRecord(t)|
  {
    var r := EncodeRecord(t);
    var n := |t.name|;
    FieldReadsBack(data, off, r, rest, 0, TRACK_ID_LEN);
    FieldReadsBack(data, off, r, rest, 1, ERR_BYTES_LEN);
    FieldReadsBack(data, off, r, rest, 4, NAME_LENGTH_LEN);
    FieldReadsBack(data, off, r, rest, 5, n);
    FieldReadsBack(data, off, r, rest, 5 + n, TRACK_LEN);
    assert r[0..1] == [t.id];
    assert r[1..4] == PADDING;
    assert r[4..5] == [n as byte];
    assert r[5..5 + n] == t.name;
    assert r[5 + n..5 + n + TRACK_LEN] == t.track;
    assert NameLength(data, off) == n;
  }

  /** A field of the bytes `b` that the file holds from `off` on reads as
      that slice of `b`. */
  lemma FieldReadsBack(data: seq<byte>, off: nat, b: seq<byte>, rest: seq<byte>, k: nat, len: nat)
    requires off <= |data| && data[off..] == b + rest && k + len <= |b|
    ensures ReadAt(data, off + k, len) == b[k..k + len]
  {
    ReadAtFrom(data, off, k, len);
    ReadAtMiddle([], b, rest, k, len);
    assert [] + b + rest == b + rest;
  }

  /** The loop reads nothing more where the rest of the file is empty or
      starts with a record whose padding is not 0,0,0. */
  lemma TracksStop(data: seq<byte>, off: nat, tail: seq<byte>)
    requires off <= |data| && data[off..] == tail
    requires tail == [] || !PaddingOk(tail, 0)
    ensures TracksFrom(data, off) == []
  {
    if tail != [] {
      ReadAtFrom(data, off, TRACK_ID_LEN, ERR_BYTES_LEN);
    }
  }

  /** Records written end to end from cursor `off` read back as the tracks
      they were written from, when what follows them is nothing or a
      record whose padding is not 0,0,0. */
  lemma {:induction false} TracksReadBack(data: seq<byte>, off: nat, ts: seq<DrumPattern>, tail: seq<byte>)
    requires forall k :: 0 <= k < |ts| ==> RecordOk(ts[k])
    requires tail == [] || !PaddingOk(tail, 0)
    requires off <= |data| && data[off..] == EncodeRecords(ts) + tail
    ensures TracksFrom(data, off) == ts
    decreases |ts|
  {
    if ts == [] {
      assert data[off..] == tail;
      TracksStop(data, off, tail);
    } else {
      var t := ts[0];
      var r := EncodeRecord(t);
      var more := EncodeRecords(ts[1..]);
      assert data[off..] == r + (more + tail) by {
        assert EncodeRecords(ts) == r + more;
      }
      var next := off + |r|;
      assert next <= |data| && data[next..] == more + tail by {
        SliceAfter(data, off, r, more + tail);
      }
      var after := TracksFrom(data, next);
      assert after == ts[1..] by {
        TracksReadBack(data, next, ts[1..], tail);
      }
      assert TracksFrom(data, off) == [t] + after by {
        RecordThenTracks(data, off, t, more + tail, next, after);
      }
      assert [t] + ts[1..] == ts;
    }
  }

  /** A record written where the cursor `off` stands is read, then whatever
      the loop reads after it. */
  lemma RecordThenTracks(data: seq<byte>, off: nat, t: DrumPattern, rest: seq<byte>, next: nat, after: seq<DrumPattern>)
    requires RecordOk(t)
    requires off <= |data| && data[off..] == EncodeRecord(t) + rest
    requires next == off + |EncodeRecord(t)| && TracksFrom(data, next) == after
    ensures TracksFrom(data, off) == [t] + after
  {
    RecordReadsBack(data, off, t, rest);
    TracksFromStep(data, off, t, next);
  }

  /** One step of the loop over records: an accepted record, then the
      records after it. */
  lemma TracksFromStep(data: seq<byte>, off: nat, t: DrumPattern, next: nat)
    requires off < |data| && PaddingOk(data, off)
    requires RecordRead(data, off) == t && RecordEnd(data, off) == next
    ensures TracksFrom(data, off) == [t] + TracksFrom(data, next)
  {
  }

  /** Where the fields of a written header lie. */
  lemma HeaderLayout(version: seq<byte>, tempo: nat)
    requires |version| <= VERSION_LEN && tempo < 0x1_0000_0000
    ensures var h := EncodeHeader(version, tempo);
      h[0..HEADER_LEN] == SIGNATURE + Zeros(HEADER_LEN - |SIGNATURE|) &&
      h[VERSION_START..VERSION_START + VERSION_LEN] == version + Zeros(VERSION_LEN - |version|) &&
      h[TEMPO_START..TEMPO_START + TEMPO_LEN] == LittleEndian32(tempo)
  {
    var sig := SIGNATURE + Zeros(HEADER_LEN - |SIGNATURE|);
    var field := version + Zeros(VERSION_LEN - |version|);
    var bits := LittleEndian32(tempo);
    var h := sig + field + bits;
    assert h[0..HEADER_LEN] == sig;
    assert h[VERSION_START..VERSION_START + VERSION_LEN] == field;
    assert h[TEMPO_START..TEMPO_START + TEMPO_LEN] == bits;
  }

  /** The header written for a version and tempo holds the signature at
      the start of its first 14 bytes, whatever follows it. */
  lemma SignatureReadsBack(version: seq<byte>, tempo: nat, rest: seq<byte>)
    requires |version| <= VERSION_LEN && tempo < 0x1_0000_0000
    ensures OccursAt(ReadAt(EncodeHeader(version, tempo) + rest, 0, HEADER_LEN), SIGNATURE, 0)
  {
    var sig := SIGNATURE + Zeros(HEADER_LEN - |SIGNATURE|);
    assert ReadAt(EncodeHeader(version, tempo) + rest, 0, HEADER_LEN) == sig by {
      HeaderLayout(version, tempo);
      assert EncodeHeader(version, tempo) + rest == [] + EncodeHeader(version, tempo) + rest;
      ReadAtMiddle([], EncodeHeader(version, tempo), rest, 0, HEADER_LEN);
    }
    assert sig[0..|SIGNATURE|] == SIGNATURE;
  }

  /** The version field of the header written for a version and tempo
      trims back to the version, whatever follows it. */
  lemma VersionReadsBack(version: seq<byte>, tempo: nat, rest: seq<byte>)
    requires |version| <= VERSION_LEN && 0 !in version && tempo < 0x1_0000_0000
    ensures Trim(ReadAt(EncodeHeader(version, tempo) + rest, VERSION_START, VERSION_LEN)) == version
  {
    var field := version + Zeros(VERSION_LEN - |version|);
    assert ReadAt(EncodeHeader(version, tempo) + rest, VERSION_START, VERSION_LEN) == field by {
      HeaderLayout(version, tempo);
      assert EncodeHeader(version, tempo) + rest == [] + EncodeHeader(version, tempo) + rest;
      ReadAtMiddle([], EncodeHeader(version, tempo), rest, VERSION_START, VERSION_LEN);
    }
    TrimPadded(version, VERSION_LEN - |version|);
  }

  /** The tempo field of the header written for a version and tempo reads
      back as the tempo, whatever follows it. */
  lemma TempoReadsBack(version: seq<byte>, tempo: nat, rest: seq<byte>)
    requires |version| <= VERSION_LEN && tempo < 0x1_0000_0000
    ensures TempoBits(ReadAt(EncodeHeader(version, tempo) + rest, TEMPO_START, TEMPO_LEN)) == tempo
  {
    assert ReadAt(EncodeHeader(version, tempo) + rest, TEMPO_START, TEMPO_LEN) == LittleEndian32(tempo) by {
      HeaderLayout(version, tempo);
      assert EncodeHeader(version, tempo) + rest == [] + EncodeHeader(version, tempo) + rest;
      ReadAtMiddle([], EncodeHeader(version, tempo), rest, TEMPO_START, TEMPO_LEN);
    }
    LittleEndian32RoundTrip(tempo);
  }

  /** A well-formed pattern, written out and followed by nothing or by a
      record whose padding is not 0,0,0, decodes back to itself. */
  lemma DecodeEncode(p: Pattern, tail: seq<byte>)
    requires WellFormed(p)
    requires tail == [] || !PaddingOk(tail, 0)
    ensures Decoded(Encode(p) + tail) == Ok(p)
  {
    var h := EncodeHeader(p.version, p.tempo);
    var recs := EncodeRecords(p.patterns) + tail;
    var data := Encode(p) + tail;
    assert data == h + recs;
    SignatureReadsBack(p.version, p.tempo, recs);
    VersionReadsBack(p.version, p.tempo, recs);
    TempoReadsBack(p.version, p.tempo, recs);
    assert data[TRACKS_START..] == EncodeRecords(p.patterns) + tail;
    TracksReadBack(data, TRACKS_START, p.patterns, tail);
    assert Index(ReadAt(data, 0, HEADER_LEN), SIGNATURE) != -1;
    assert Decoded(data) == Ok(Pattern(p.version, p.tempo, p.patterns));
  }
}
