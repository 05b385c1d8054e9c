/** The `.splice` decoder: the file header (signature, version, tempo) and
    the loop over track records, as a method over the file's bytes with a
    forward-only cursor, proved against the function `Decoded`. */
module Drum {
  import opened Bytes

  // Field lengths, in bytes, in the order they are read.
  const HEADER_LEN: nat := 14
  const VERSION_LEN: nat := 32
  const TEMPO_LEN: nat := 4
  const TRACK_ID_LEN: nat := 1
  const ERR_BYTES_LEN: nat := 3
  const NAME_LENGTH_LEN: nat := 1
  const TRACK_LEN: nat := 16

  /** Offset of the version field, of the tempo and of the first track record. */
  const VERSION_START: nat := HEADER_LEN
  const TEMPO_START: nat := HEADER_LEN + VERSION_LEN
  const TRACKS_START: nat := HEADER_LEN + VERSION_LEN + TEMPO_LEN

  /** Bytes a record takes besides its name: id, padding, name length, steps. */
  const RECORD_FIXED_LEN: nat := TRACK_ID_LEN + ERR_BYTES_LEN + NAME_LENGTH_LEN + TRACK_LEN

  /** The ASCII bytes of "SPLICE". */
  const SIGNATURE: seq<byte> := [0x53, 0x50, 0x4c, 0x49, 0x43, 0x45]

  /** The padding that must follow a track id. */
  const PADDING: seq<byte> := [0, 0, 0]

  /** One instrument: its id byte, raw name bytes and step bytes. */
  datatype DrumPattern = DrumPattern(id: byte, name: seq<byte>, track: seq<byte>)

  /** A decoded file. `tempo` is the 32-bit little-endian bit pattern of the
      stored float. */
  datatype Pattern = Pattern(version: seq<byte>, tempo: nat, patterns: seq<DrumPattern>)

  datatype Error = MissingHeader

  datatype Result = Ok(pattern: Pattern) | Err(error: Error)

  /** The 32-bit unsigned value of four little-endian bytes. */
  function TempoBits(b: seq<byte>): (v: nat)
    requires |b| == 4
    ensures v < 0x1_0000_0000
  {
    b[0] as nat + 0x100 * b[1] as nat + 0x1_0000 * b[2] as nat + 0x100_0000 * b[3] as nat
  }

  /** The four little-endian bytes of a 32-bit unsigned value. */
  function LittleEndian32(v: nat): (b: seq<byte>)
    requires v < 0x1_0000_0000
    ensures |b| == 4
  {
    var v1 := v / 0x100;
    var v2 := v1 / 0x100;
    [(v % 0x100) as byte, (v1 % 0x100) as byte, (v2 % 0x100) as byte, (v2 / 0x100) as byte]
  }

  /** Reading the tempo loses nothing: its bytes are recovered from it. */
  lemma TempoBitsRoundTrip(b: seq<byte>)
    requires |b| == 4
    ensures LittleEndian32(TempoBits(b)) == b
  {
    var v := TempoBits(b);
    assert v < 0x1_0000_0000;
    assert v == b[0] as nat + 0x100 * (b[1] as nat + 0x100 * (b[2] as nat + 0x100 * b[3] as nat));
    BytesOf(v, b[0] as nat, b[1] as nat, b[2] as nat, b[3] as nat);
  }

  /** Writing a 32-bit value as four little-endian bytes loses nothing: the
      tempo read back from them is the value. */
  lemma LittleEndian32RoundTrip(v: nat)
    requires v < 0x1_0000_0000
    ensures TempoBits(LittleEndian32(v)) == v
  {
    var v1 := v / 0x100;
    var v2 := v1 / 0x100;
    assert v == 0x100 * v1 + v % 0x100;
    assert v1 == 0x100 * v2 + v1 % 0x100;
    assert v2 == 0x100 * (v2 / 0x100) + v2 % 0x100;
    assert v2 / 0x100 < 0x100;
  }

  /** The four bytes of `b0 + 256 * (b1 + 256 * (b2 + 256 * b3))` are
      recovered by repeated division by 256. */
  lemma BytesOf(v: nat, b0: nat, b1: nat, b2: nat, b3: nat)
    requires b0 < 0x100 && b1 < 0x100 && b2 < 0x100 && b3 < 0x100
    requires v == b0 + 0x100 * (b1 + 0x100 * (b2 + 0x100 * b3))
    ensures v % 0x100 == b0 && v / 0x100 % 0x100 == b1 &&
      v / 0x100 / 0x100 % 0x100 == b2 && v / 0x100 / 0x100 / 0x100 == b3
  {
    var hi2 := b2 + 0x100 * b3;
    var hi1 := b1 + 0x100 * hi2;
    ByteSplit(b0, hi1);
    ByteSplit(b1, hi2);
    ByteSplit(b2, b3);
  }

  /** Splitting off the low byte of `lo + 256 * hi`. */
  lemma ByteSplit(lo: nat, hi: nat)
    requires lo < 0x100
    ensures (lo + 0x100 * hi) % 0x100 == lo
    ensures (lo + 0x100 * hi) / 0x100 == hi
  {
  }

  /** Whether a header region holds the signature anywhere in it. */
  ghost predicate HasSignature(header: seq<byte>)
  {
    exists k :: OccursAt(header, SIGNATURE, k)
  }

  /** Whether the three bytes after the id of the record at `off` read as
      0,0,0 (bytes past the end of the file read as zero). */
  predicate PaddingOk(data: seq<byte>, off: nat)
  {
    ReadAt(data, off + TRACK_ID_LEN, ERR_BYTES_LEN) == PADDING
  }

  /** The name-length byte of the record at `off`. */
  function NameLength(data: seq<byte>, off: nat): nat
  {
    ReadAt(data, off + TRACK_ID_LEN + ERR_BYTES_LEN, NAME_LENGTH_LEN)[0] as nat
  }

  /** Offset of the name of the record at `off`. */
  function NameStart(off: nat): nat
  {
    off + TRACK_ID_LEN + ERR_BYTES_LEN + NAME_LENGTH_LEN
  }

  /** The record at `off` as it reads: its id is its first byte, its name
      has as many bytes as the name-length byte says and its steps are the
      16 bytes after the name, any of them past the end of the file read as
      zero. */
  function RecordRead(data: seq<byte>, off: nat): (t: DrumPattern)
    ensures t.id == if off < |data| then data[off] else 0
    ensures |t.name| == NameLength(data, off)
    ensures forall k :: 0 <= k < |t.name| ==>
      t.name[k] == if NameStart(off) + k < |data| then data[NameStart(off) + k] else 0
    ensures |t.track| == TRACK_LEN
    ensures forall k :: 0 <= k < TRACK_LEN ==>
      t.track[k] == if NameStart(off) + |t.name| + k < |data| then data[NameStart(off) + |t.name| + k] else 0
  {
    var nameLength := NameLength(data, off);
    DrumPattern(ReadAt(data, off, TRACK_ID_LEN)[0],
                ReadAt(data, NameStart(off), nameLength),
                ReadAt(data, NameStart(off) + nameLength, TRACK_LEN))
  }

  /** Offset just past the record at `off`. */
  function RecordEnd(data: seq<byte>, off: nat): (e: nat)
    ensures e >= off + RECORD_FIXED_LEN
  {
    NameStart(off) + NameLength(data, off) + TRACK_LEN
  }

  /** The track records read from cursor `off` on: none once the cursor has
      reached the end of the file or the record's padding is not 0,0,0;
      otherwise the record there, then those after it. */
  function TracksFrom(data: seq<byte>, off: nat): (ts: seq<DrumPattern>)
    decreases |data| - off
  {
    if off >= |data| || !PaddingOk(data, off) then []
    else [RecordRead(data, off)] + TracksFrom(data, RecordEnd(data, off))
  }

  /** Unfolding `TracksFrom` at a record inside the file whose padding is
      0,0,0, given what its fields read as and where they lie. */
  lemma TracksFromNext(data: seq<byte>, off: nat, id: seq<byte>, errBytes: seq<byte>, nameLength: seq<byte>,
                       nameAt: nat, name: seq<byte>, trackAt: nat, track: seq<byte>, end: nat)
    requires off < |data|
    requires id == ReadAt(data, off, TRACK_ID_LEN)
    requires errBytes == ReadAt(data, off + TRACK_ID_LEN, ERR_BYTES_LEN) && errBytes == PADDING
    requires nameLength == ReadAt(data, off + TRACK_ID_LEN + ERR_BYTES_LEN, NAME_LENGTH_LEN)
    requires nameAt == NameStart(off) && name == ReadAt(data, nameAt, nameLength[0] as nat)
    requires trackAt == nameAt + |name| && track == ReadAt(data, trackAt, TRACK_LEN)
    requires end == trackAt + TRACK_LEN
    ensures TracksFrom(data, off) == [DrumPattern(id[0], name, track)] + TracksFrom(data, end)
  {
    assert RecordEnd(data, off) == end;
  }

  /** The decoded file: an error when the header region lacks the
      signature, otherwise the trimmed version, the tempo bits and the
      track records from offset 50 on. */
  function Decoded(data: seq<byte>): (r: Result)
    ensures r.Err? <==> !HasSignature(ReadAt(data, 0, HEADER_LEN))
    ensures r.Ok? ==> |r.pattern.version| <= VERSION_LEN && 0 !in r.pattern.version
    ensures r.Ok? ==> r.pattern.version == ReadAt(data, VERSION_START, VERSION_LEN)[..|r.pattern.version|]
    ensures r.Ok? && |r.pattern.version| < VERSION_LEN ==>
      ReadAt(data, VERSION_START, VERSION_LEN)[|r.pattern.version|] == 0
    ensures r.Ok? ==> r.pattern.tempo < 0x1_0000_0000
    ensures r.Ok? ==> LittleEndian32(r.pattern.tempo) == ReadAt(data, TEMPO_START, TEMPO_LEN)
  {
    if Index(ReadAt(data, 0, HEADER_LEN), SIGNATURE) == -1 then Err(MissingHeader)
    else
      var tempoBytes := ReadAt(data, TEMPO_START, TEMPO_LEN);
      TempoBitsRoundTrip(tempoBytes);
      Ok(Pattern(Trim(ReadAt(data, VERSION_START, VERSION_LEN)),
                 TempoBits(tempoBytes),
                 TracksFrom(data, TRACKS_START)))
  }

  /** Decodes a file: checks the header region for the signature, reads the
      version and tempo, then reads track records while the cursor is before
      the end of the file, stopping early, without an error, at the first
      record whose padding is not 0,0,0 and keeping the records read before
      it, in file order. */
  method Decode(data: seq<byte>) returns (r: Result)
    ensures r.Err? <==> !HasSignature(ReadAt(data, 0, HEADER_LEN))
    ensures r == Decoded(data)
  {
    var offset: nat, spliceHeader := ReadAndSeek(data, HEADER_LEN, 0);
    if Index(spliceHeader, SIGNATURE) == -1 {
      return Err(MissingHeader);
    }

    var version;
    offset, version := ReadAndSeek(data, VERSION_LEN, offset);
    version := Trim(version);

    var tempoBuf;
    offset, tempoBuf := ReadAndSeek(data, TEMPO_LEN, offset);
    var tempo := TempoBits(tempoBuf);

    var fileLength := |data|;
    var dPatterns: seq<DrumPattern> := [];
    while offset < fileLength
      invariant dPatterns + TracksFrom(data, offset) == TracksFrom(data, TRACKS_START)
      decreases fileLength - offset
    {
      ghost var start := offset;
      var id, errBytes, nameLength, name, track;
      offset, id := ReadAndSeek(data, TRACK_ID_LEN, offset);
      offset, errBytes := ReadAndSeek(data, ERR_BYTES_LEN, offset);
      if errBytes != PADDING {
        assert TracksFrom(data, start) == [];
        break;
      }
      offset, nameLength := ReadAndSeek(data, NAME_LENGTH_LEN, offset);
      ghost var nameAt := offset;
      offset, name := ReadAndSeek(data, nameLength[0] as nat, offset);
      ghost var trackAt := offset;
      offset, track := ReadAndSeek(data, TRACK_LEN, offset);
      var t := DrumPattern(id[0], name, track);
      TracksFromNext(data, start, id, errBytes, nameLength, nameAt, name, trackAt, track, offset);
      ghost var rest := TracksFrom(data, offset);
      assert (dPatterns + [t]) + rest == dPatterns + ([t] + rest);
      dPatterns := dPatterns + [t];
    }
    return Ok(Pattern(version, tempo, dPatterns));
  }
}
