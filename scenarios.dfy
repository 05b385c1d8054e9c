/** Concrete files and step patterns, decoded and rendered. */
module Scenarios {
  import opened Bytes
  import opened Drum
  import opened Render
  import opened Encoding

  /** The version string "0.808-alpha". */
  const VERSION: seq<byte> := [0x30, 0x2e, 0x38, 0x30, 0x38, 0x2d, 0x61, 0x6c, 0x70, 0x68, 0x61]

  /** The bits of the float 120.0, the tempo of the sample patterns. */
  const TEMPO_120: nat := 0x42f0_0000

  /** Four beats on the first step of each group. */
  const FOUR_ON_THE_FLOOR: seq<byte> := [1, 0, 0, 0, 1, 0, 0, 0, 1, 0, 0, 0, 1, 0, 0, 0]

  /** A track with id 1, the name "kick" and four beats. */
  const KICK: DrumPattern := DrumPattern(1, [0x6b, 0x69, 0x63, 0x6b], FOUR_ON_THE_FLOOR)

  /** Four beats render as one hit and three rests per group, every group
      closed by a bar: "|x---|x---|x---|x---|". */
  lemma FourOnTheFloorRendered()
    ensures Rendered(FOUR_ON_THE_FLOOR) ==
      [BAR, HIT, REST, REST, REST, BAR, HIT, REST, REST, REST, BAR,
       HIT, REST, REST, REST, BAR, HIT, REST, REST, REST, BAR]
  {
    var s := FOUR_ON_THE_FLOOR;
    var group := [HIT, REST, REST, REST];
    assert Marks(s[..4]) == group;
    assert Marks(s[4..][..4]) == group;
    assert Marks(s[8..][..4]) == group;
    assert Marks(s[12..][..4]) == group;
    assert s[4..][4..] == s[8..];
    assert s[8..][4..] == s[12..];
    assert s[12..][4..] == [];
  }

  /** An empty file has no signature in its (zero-filled) header and is
      rejected. */
  lemma EmptyFileRejected()
    ensures Decoded([]).Err?
  {
    var header := ReadAt([], 0, HEADER_LEN);
    assert forall k :: 0 <= k < |header| ==> header[k] == 0;
    assert SIGNATURE[0] != 0;
  }

  /** The signature may sit anywhere in the first 14 bytes, not only at the
      start. */
  lemma SignatureNotAtStart(rest: seq<byte>)
    ensures Decoded(Zeros(HEADER_LEN - |SIGNATURE|) + SIGNATURE + rest).Ok?
  {
    var data := Zeros(HEADER_LEN - |SIGNATURE|) + SIGNATURE + rest;
    var k := HEADER_LEN - |SIGNATURE|;
    assert ReadAt(data, 0, HEADER_LEN)[k..k + |SIGNATURE|] == SIGNATURE;
    assert OccursAt(ReadAt(data, 0, HEADER_LEN), SIGNATURE, k);
  }

  /** A file holding the "kick" track, then a record whose padding is not
      0,0,0, decodes to the kick track alone, without an error. */
  lemma CorruptedTail()
    ensures Decoded(Encode(Pattern(VERSION, TEMPO_120, [KICK])) + [2, 9, 9, 9]) ==
      Ok(Pattern(VERSION, TEMPO_120, [KICK]))
  {
    var p := Pattern(VERSION, TEMPO_120, [KICK]);
    assert WellFormed(p);
    assert !PaddingOk([2, 9, 9, 9], 0) by {
      assert ReadAt([2, 9, 9, 9], TRACK_ID_LEN, ERR_BYTES_LEN)[0] == 9;
    }
    DecodeEncode(p, [2, 9, 9, 9]);
  }

  /** A record cut short by the end of the file is still read, its missing
      bytes as zeros: one id byte after the header gives a track with that
      id, no name and 16 zero steps. */
  lemma RecordPastEnd()
    ensures Decoded(EncodeHeader(VERSION, TEMPO_120) + [7]).Ok?
    ensures Decoded(EncodeHeader(VERSION, TEMPO_120) + [7]).pattern.patterns ==
      [DrumPattern(7, [], Zeros(TRACK_LEN))]
  {
    var p := Pattern(VERSION, TEMPO_120, []);
    assert WellFormed(p);
    DecodeEncode(p, []);
    var h := EncodeHeader(VERSION, TEMPO_120);
    var data := h + [7];
    var off := TRACKS_START;
    assert h + [] == Encode(p);
    assert ReadAt(data, 0, HEADER_LEN) == ReadAt(h + [], 0, HEADER_LEN);
    assert data[off] == 7;
    var id := ReadAt(data, off, TRACK_ID_LEN);
    var errBytes := ReadAt(data, off + TRACK_ID_LEN, ERR_BYTES_LEN);
    var nameLength := ReadAt(data, off + TRACK_ID_LEN + ERR_BYTES_LEN, NAME_LENGTH_LEN);
    assert errBytes == PADDING;
    assert nameLength[0] == 0;
    var nameAt := NameStart(off);
    var name := ReadAt(data, nameAt, 0);
    var track := ReadAt(data, nameAt, TRACK_LEN);
    assert track == Zeros(TRACK_LEN);
    var end := nameAt + TRACK_LEN;
    TracksFromNext(data, off, id, errBytes, nameLength, nameAt, name, nameAt, track, end);
    assert TracksFrom(data, end) == [];
  }
}
