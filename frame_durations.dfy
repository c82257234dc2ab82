/** The animated-WebP frame-duration extractor: a forward-only walk over the
    chunks of a RIFF container (RFC 9649, section 2) that reads the duration
    field of every ANMF chunk it meets.

    As the extractor does it, and not as RFC 9649 asks: no pad byte is skipped
    after an odd-sized chunk, an ANMF chunk smaller than 14 bytes still has its
    duration read, and only the low 16 bits of the 24-bit Frame Duration
    field are read. */
module WebpFrames {
  import opened LittleEndian
  import opened Streams

  /** Bytes of the RIFF file header skipped before the first chunk. */
  const RiffHeaderSize: nat := 12
  /** Bytes of a chunk header: a 4-byte tag and a 4-byte little-endian size. */
  const ChunkHeaderSize: nat := 8
  /** Offset of the duration field inside an ANMF chunk's payload. */
  const DurationOffset: nat := 12
  /** Width in bytes of the duration field as read. */
  const DurationWidth: nat := 2
  /** The tag of an animation-frame chunk, "ANMF". */
  const Anmf: seq<Byte> := [0x41, 0x4E, 0x4D, 0x46]

  /** A chunk header found at `offset`. */
  datatype ChunkHeader = ChunkHeader(offset: nat, tag: seq<Byte>, size: nat)

  /** Why the walk ended: the next chunk header was incomplete, or an ANMF
      chunk's duration field ran past the end (the struct error the extractor
      catches). */
  datatype Stop = EndOfChunks | DurationCutShort

  /** The result of a walk: the durations read, why it ended, and where the
      stream's cursor is left. */
  datatype Scan = Scan(durations: seq<nat>, stop: Stop, cursor: nat)

  /** The 4-byte tag of the chunk header at `p`. */
  function ChunkTag(data: seq<Byte>, p: nat): seq<Byte>
    requires p + ChunkHeaderSize <= |data|
  {
    data[p..p + 4]
  }

  /** The declared payload size of the chunk header at `p`. */
  function ChunkSize(data: seq<Byte>, p: nat): nat
    requires p + ChunkHeaderSize <= |data|
  {
    Decode(data[p + 4..p + 8])
  }

  /** A chunk header unpacked as `'<4sI'`: the tag is "ANMF" exactly when the
      four bytes at `p` are those letters, and the size is the unsigned 32-bit
      value of the next four, least significant first. */
  lemma HeaderBytes(data: seq<Byte>, p: nat)
    requires p + ChunkHeaderSize <= |data|
    ensures |ChunkTag(data, p)| == 4
    ensures ChunkTag(data, p) == Anmf <==>
              data[p] == 0x41 && data[p + 1] == 0x4E && data[p + 2] == 0x4D && data[p + 3] == 0x46
    ensures ChunkSize(data, p) == data[p + 4] as int + 0x100 * data[p + 5] as int
                                  + 0x1_0000 * data[p + 6] as int + 0x100_0000 * data[p + 7] as int
    ensures ChunkSize(data, p) < 0x1_0000_0000
  {
    var tag := ChunkTag(data, p);
    if data[p] == 0x41 && data[p + 1] == 0x4E && data[p + 2] == 0x4D && data[p + 3] == 0x46 {
      assert tag == Anmf;
    }
    U32(data[p + 4..p + 8]);
  }

  /** Where the header after the chunk at `p` starts: right after its declared
      payload, with no pad byte. */
  function NextChunk(data: seq<Byte>, p: nat): (q: nat)
    requires p + ChunkHeaderSize <= |data|
    ensures q >= p + ChunkHeaderSize
  {
    p + ChunkHeaderSize + ChunkSize(data, p)
  }

  /** Whether the ANMF chunk whose header is at `p` has its whole duration
      field inside the input. */
  predicate DurationFits(data: seq<Byte>, p: nat): (b: bool)
    ensures b <==> |Peek(data, p + ChunkHeaderSize + DurationOffset, DurationWidth)| == DurationWidth
  {
    p + ChunkHeaderSize + DurationOffset + DurationWidth <= |data|
  }

  /** The duration of the ANMF chunk whose header is at `p`, in milliseconds. */
  function DurationAt(data: seq<Byte>, p: nat): (ms: nat)
    requires DurationFits(data, p)
    ensures ms == data[p + 20] as int + 256 * data[p + 21] as int
    ensures ms < 0x1_0000
  {
    U16(data[p + 20..p + 22]);
    Decode(data[p + 20..p + 22])
  }

  /** The walk from the chunk header at `p`, as the extractor's loop runs it. */
  function Walk(data: seq<Byte>, p: nat): (s: Scan)
    ensures s.cursor >= p && s.cursor >= |data|
    ensures forall i :: 0 <= i < |s.durations| ==> s.durations[i] < 0x1_0000
    ensures p + ChunkHeaderSize * |s.durations| <= Max(p, |data|)
    decreases |data| - p
  {
    if p + ChunkHeaderSize > |data| then
      Scan([], EndOfChunks, Max(p, |data|))
    else if ChunkTag(data, p) == Anmf then
      if !DurationFits(data, p) then
        Scan([], DurationCutShort, Max(p + ChunkHeaderSize + DurationOffset, |data|))
      else
        var rest := Walk(data, NextChunk(data, p));
        rest.(durations := [DurationAt(data, p)] + rest.durations)
    else
      Walk(data, NextChunk(data, p))
  }

  /** The list `extract_webp_frame_durations` returns for an in-memory buffer. */
  function FrameDurations(data: seq<Byte>): (r: seq<nat>)
    ensures |data| < RiffHeaderSize + ChunkHeaderSize ==> r == []
    ensures forall i :: 0 <= i < |r| ==> r[i] < 0x1_0000
    ensures RiffHeaderSize + ChunkHeaderSize * |r| <= Max(RiffHeaderSize, |data|)
  {
    Walk(data, RiffHeaderSize).durations
  }

  /** `scan` with `done` read before it. */
  function After(done: seq<nat>, scan: Scan): Scan
  {
    scan.(durations := done + scan.durations)
  }

  /** The walk's first step, one lemma per branch of the loop body. */
  lemma WalkEnds(data: seq<Byte>, p: nat)
    requires p + ChunkHeaderSize > |data|
    ensures Walk(data, p) == Scan([], EndOfChunks, Max(p, |data|))
  {
  }

  lemma WalkCutShort(data: seq<Byte>, p: nat)
    requires p + ChunkHeaderSize <= |data| && ChunkTag(data, p) == Anmf && !DurationFits(data, p)
    ensures Walk(data, p) == Scan([], DurationCutShort, Max(p + 20, |data|))
  {
  }

  lemma WalkReads(data: seq<Byte>, p: nat, done: seq<nat>)
    requires p + ChunkHeaderSize <= |data| && ChunkTag(data, p) == Anmf && DurationFits(data, p)
    ensures After(done, Walk(data, p)) == After(done + [DurationAt(data, p)], Walk(data, NextChunk(data, p)))
  {
  }

  lemma WalkSkips(data: seq<Byte>, p: nat)
    requires p + ChunkHeaderSize <= |data| && ChunkTag(data, p) != Anmf
    ensures Walk(data, p) == Walk(data, NextChunk(data, p))
  {
  }

  /** The 8 bytes read at `p` unpack (`'<4sI'`) to the tag and size there. */
  lemma HeaderFields(data: seq<Byte>, p: nat, header: seq<Byte>)
    requires p + ChunkHeaderSize <= |data| && header == data[p..p + 8]
    ensures header[..4] == ChunkTag(data, p) && Decode(header[4..]) == ChunkSize(data, p)
  {
    assert header[4..] == data[p + 4..p + 8];
  }

  /** The 2 bytes read 20 bytes after an ANMF header unpack (`'<H'`) to its
      duration. */
  lemma DurationField(data: seq<Byte>, p: nat, field: seq<Byte>)
    requires DurationFits(data, p) && field == data[p + 20..p + 22]
    ensures Decode(field) == DurationAt(data, p)
  {
  }

  /** `extract_webp_frame_durations` on an in-memory stream: skip the RIFF
      header, then read chunk headers until fewer than 8 bytes are left,
      reading the duration of each ANMF chunk and skipping every chunk by its
      declared size. A duration field cut short ends the walk with the list
      read so far. */
  method ExtractFrameDurations(f: ByteStream) returns (frameDurations: seq<nat>)
    modifies f
    ensures frameDurations == FrameDurations(f.data)
    ensures f.pos == Walk(f.data, RiffHeaderSize).cursor
  {
    f.Seek(RiffHeaderSize);
    frameDurations := [];
    var frameCount := 0;
    assert frameDurations + Walk(f.data, f.pos).durations == Walk(f.data, f.pos).durations;
    while true
      invariant frameCount == |frameDurations|
      invariant Walk(f.data, RiffHeaderSize) == After(frameDurations, Walk(f.data, f.pos))
      decreases |f.data| - f.pos
    {
      ghost var start := f.pos;
      var chunkHeader := f.Read(ChunkHeaderSize);
      if |chunkHeader| < ChunkHeaderSize {
        WalkEnds(f.data, start);
        assert frameDurations + [] == frameDurations;
        break;
      }
      HeaderFields(f.data, start, chunkHeader);
      var chunkType: seq<Byte>, chunkSize: int := chunkHeader[..4], Decode(chunkHeader[4..]);
      if chunkType == Anmf {
        f.SeekRelative(DurationOffset);
        assert f.pos == start + 20;
        var field := f.Read(DurationWidth);
        if |field| != DurationWidth {
          // the struct error is caught: the durations read so far are returned
          WalkCutShort(f.data, start);
          assert frameDurations + [] == frameDurations;
          return;
        }
        DurationField(f.data, start, field);
        var duration := Decode(field);
        WalkReads(f.data, start, frameDurations);
        frameDurations := frameDurations + [duration];
        frameCount := frameCount + 1;
        f.SeekRelative(chunkSize - 14);
      } else {
        WalkSkips(f.data, start);
        f.SeekRelative(chunkSize);
      }
      assert f.pos == NextChunk(f.data, start);
    }
  }

  // The chunk walker on its own, and the extractor's result stated over it.

  /** The header of the chunk that starts at `p`. */
  function HeaderAt(data: seq<Byte>, p: nat): ChunkHeader
    requires p + ChunkHeaderSize <= |data|
  {
    ChunkHeader(p, ChunkTag(data, p), ChunkSize(data, p))
  }

  /** `c` is the complete header found at its offset. */
  predicate IsHeaderAt(data: seq<Byte>, c: ChunkHeader)
  {
    c.offset + ChunkHeaderSize <= |data| && c == HeaderAt(data, c.offset)
  }

  /** Where the chunk after `c` starts: the same offset as `NextChunk`, but
      computed from a header value. `Chunks` states its contract with this
      one and its body with `NextChunk`, so the contract does not merely
      repeat the body. */
  function Next(c: ChunkHeader): nat
  {
    c.offset + ChunkHeaderSize + c.size
  }

  /** Every complete chunk header from `p` on: the first at `p`, each next one
      where the previous chunk's declared payload ends, and none once fewer
      than 8 bytes are left. */
  function Chunks(data: seq<Byte>, p: nat): (cs: seq<ChunkHeader>)
    ensures forall i :: 0 <= i < |cs| ==> IsHeaderAt(data, cs[i])
    ensures |cs| > 0 ==> cs[0].offset == p
    ensures forall i :: 0 < i < |cs| ==> cs[i].offset == Next(cs[i - 1])
    ensures (if cs == [] then p else Next(cs[|cs| - 1])) + ChunkHeaderSize > |data|
    decreases |data| - p
  {
    if p + ChunkHeaderSize > |data| then [] else [HeaderAt(data, p)] + Chunks(data, NextChunk(data, p))
  }

  /** An ANMF chunk whose duration field runs past the end of the input. */
  predicate IsCutShort(data: seq<Byte>, c: ChunkHeader)
  {
    c.tag == Anmf && !DurationFits(data, c.offset)
  }

  /** The ANMF chunks among `cs`, in order. */
  function AnmfChunks(cs: seq<ChunkHeader>): (a: seq<ChunkHeader>)
    ensures forall j :: 0 <= j < |a| ==> a[j].tag == Anmf
  {
    if cs == [] then []
    else if cs[0].tag == Anmf then [cs[0]] + AnmfChunks(cs[1..])
    else AnmfChunks(cs[1..])
  }

  /** `AnmfChunks` keeps exactly the chunks of `cs` tagged ANMF. */
  lemma {:induction false} AnmfChunksFilter(cs: seq<ChunkHeader>)
    ensures forall c :: c in AnmfChunks(cs) <==> c in cs && c.tag == Anmf
  {
    if cs != [] {
      AnmfChunksFilter(cs[1..]);
      assert cs == [cs[0]] + cs[1..];
    }
  }

  /** The durations of the ANMF chunks among `cs`, in order, up to the first
      one whose duration field runs past the end. */
  function Collect(data: seq<Byte>, cs: seq<ChunkHeader>): (r: seq<nat>)
    ensures |r| <= |cs|
    ensures forall i :: 0 <= i < |r| ==> r[i] < 0x1_0000
  {
    if cs == [] then []
    else if cs[0].tag == Anmf then
      if DurationFits(data, cs[0].offset) then [DurationAt(data, cs[0].offset)] + Collect(data, cs[1..]) else []
    else Collect(data, cs[1..])
  }

  /** The extractor's fused loop reads what the chunk walker followed by
      `Collect` reads. */
  lemma {:induction false} WalkIsChunkWalk(data: seq<Byte>, p: nat)
    ensures Walk(data, p).durations == Collect(data, Chunks(data, p))
    decreases |data| - p
  {
    if p + ChunkHeaderSize <= |data| {
      var q := NextChunk(data, p);
      WalkIsChunkWalk(data, q);
      var cs := Chunks(data, p);
      assert cs == [HeaderAt(data, p)] + Chunks(data, q);
      assert cs[1..] == Chunks(data, q);
    }
  }

  /** The walk stops early, on a duration field cut short, exactly when some
      ANMF chunk the chunk walker finds is cut short. */
  lemma {:induction false} WalkStopsAtCutShort(data: seq<Byte>, p: nat)
    ensures Walk(data, p).stop == DurationCutShort <==>
              exists i :: 0 <= i < |Chunks(data, p)| && IsCutShort(data, Chunks(data, p)[i])
    decreases |data| - p
  {
    if p + ChunkHeaderSize <= |data| {
      var q := NextChunk(data, p);
      WalkStopsAtCutShort(data, q);
      var cs, rest := Chunks(data, p), Chunks(data, q);
      assert cs == [HeaderAt(data, p)] + rest;
      assert cs[0] == HeaderAt(data, p);
      if IsCutShort(data, cs[0]) {
        WalkCutShort(data, p);
        assert Walk(data, p).stop == DurationCutShort;
        assert 0 < |Chunks(data, p)| && IsCutShort(data, Chunks(data, p)[0]);
      } else {
        if ChunkTag(data, p) == Anmf {
          WalkReads(data, p, []);
        } else {
          WalkSkips(data, p);
        }
        assert Walk(data, p).stop == Walk(data, q).stop;
        if exists i :: 0 <= i < |cs| && IsCutShort(data, cs[i]) {
          var i :| 0 <= i < |cs| && IsCutShort(data, cs[i]);
          assert rest[i - 1] == cs[i];
          assert IsCutShort(data, Chunks(data, q)[i - 1]);
        }
        if exists i :: 0 <= i < |rest| && IsCutShort(data, rest[i]) {
          var i :| 0 <= i < |rest| && IsCutShort(data, rest[i]);
          assert cs[i + 1] == rest[i];
          assert IsCutShort(data, Chunks(data, p)[i + 1]);
        }
      }
    }
  }

  /** What `Collect` yields, chunk by chunk: the j-th duration is the field
      `b[p] + 256 * b[p + 1]` at payload offset 12 of the j-th ANMF chunk, and it
      stops short only at an ANMF chunk that is cut short. */
  lemma {:induction false} CollectReadsAnmfChunks(data: seq<Byte>, cs: seq<ChunkHeader>)
    ensures |Collect(data, cs)| <= |AnmfChunks(cs)|
    ensures forall j :: 0 <= j < |Collect(data, cs)| ==>
              DurationFits(data, AnmfChunks(cs)[j].offset) &&
              Collect(data, cs)[j] == DurationAt(data, AnmfChunks(cs)[j].offset)
    ensures |Collect(data, cs)| < |AnmfChunks(cs)| ==> IsCutShort(data, AnmfChunks(cs)[|Collect(data, cs)|])
  {
    if cs != [] {
      CollectReadsAnmfChunks(data, cs[1..]);
      var r, a := Collect(data, cs), AnmfChunks(cs);
      if cs[0].tag != Anmf {
        assert r == Collect(data, cs[1..]) && a == AnmfChunks(cs[1..]);
      } else if DurationFits(data, cs[0].offset) {
        var r', a' := Collect(data, cs[1..]), AnmfChunks(cs[1..]);
        assert r == [DurationAt(data, cs[0].offset)] + r' && a == [cs[0]] + a';
        forall j | 0 < j < |r|
          ensures DurationFits(data, a[j].offset) && r[j] == DurationAt(data, a[j].offset)
        {
          assert r[j] == r'[j - 1] && a[j] == a'[j - 1];
        }
      } else {
        assert r == [] && a[0] == cs[0];
      }
    }
  }

  /** A cut-short ANMF chunk ends the collection: what comes after it is
      never read. */
  lemma {:induction false} CollectStopsAtCut(data: seq<Byte>, cs: seq<ChunkHeader>, k: nat)
    requires k < |cs| && IsCutShort(data, cs[k])
    ensures Collect(data, cs) == Collect(data, cs[..k])
  {
    if k > 0 {
      CollectStopsAtCut(data, cs[1..], k - 1);
      assert cs[..k][1..] == cs[1..][..k - 1];
    }
  }

  /** The extractor's result, stated over the chunk walker: one duration per
      ANMF chunk walked from offset 12, in encounter order, each the 16-bit
      little-endian field at payload offset 12 of its chunk; fewer only when an
      ANMF chunk's field runs past the end, and then exactly those before it. */
  lemma FrameDurationsAreAnmfFields(data: seq<Byte>)
    ensures var a := AnmfChunks(Chunks(data, RiffHeaderSize));
            var r := FrameDurations(data);
            && |r| <= |a|
            && (forall j :: 0 <= j < |r| ==>
                  DurationFits(data, a[j].offset) && r[j] == data[a[j].offset + 20] as int + 256 * data[a[j].offset + 21] as int)
            && (|r| < |a| ==> IsCutShort(data, a[|r|]))
  {
    WalkIsChunkWalk(data, RiffHeaderSize);
    CollectReadsAnmfChunks(data, Chunks(data, RiffHeaderSize));
  }

  /** An ANMF chunk whose duration field runs past the end of the input ends
      the extraction with exactly the durations of the chunks before it. */
  lemma TruncatedFrameKeepsEarlierDurations(data: seq<Byte>, k: nat)
    requires k < |Chunks(data, RiffHeaderSize)| && IsCutShort(data, Chunks(data, RiffHeaderSize)[k])
    ensures FrameDurations(data) == Collect(data, Chunks(data, RiffHeaderSize)[..k])
  {
    WalkIsChunkWalk(data, RiffHeaderSize);
    CollectStopsAtCut(data, Chunks(data, RiffHeaderSize), k);
  }

  // Concrete containers.

  /** "RIFF", a size, "WEBP": the 12-byte file header the walk skips. */
  const RiffHeader: seq<Byte> := [0x52, 0x49, 0x46, 0x46, 0, 0, 0, 0, 0x57, 0x45, 0x42, 0x50]

  /** One ANMF chunk of declared size 20 whose duration bytes are `[100, 0]`
      gives a single duration of 100 ms. */
  lemma OneFrameOf100Ms()
    ensures FrameDurations(RiffHeader + Anmf + [20, 0, 0, 0] + seq(12, _ => 0) + [100, 0] + seq(6, _ => 0)) == [100]
  {
  }

  /** No pad byte follows an odd-sized chunk: after a 1-byte "ICCP" chunk the
      next header is read at offset 21, and the ANMF chunk found there yields
      300 ms. */
  lemma OddSizedChunkIsNotPadded()
    ensures FrameDurations(RiffHeader + [0x49, 0x43, 0x43, 0x50, 1, 0, 0, 0, 7]
                           + Anmf + [14, 0, 0, 0] + seq(12, _ => 0) + [0x2C, 0x01]) == [300]
  {
    var data := RiffHeader + [0x49, 0x43, 0x43, 0x50, 1, 0, 0, 0, 7] + Anmf + [14, 0, 0, 0] + seq(12, _ => 0) + [0x2C, 0x01];
    var iccp: seq<Byte> := [0x49, 0x43, 0x43, 0x50, 1, 0, 0, 0, 7];
    assert data[12..21] == iccp;
    assert ChunkTag(data, 12) == iccp[..4];
    assert iccp[..4][0] != Anmf[0];
    assert data[16..20] == iccp[4..8] == [1, 0, 0, 0];
    assert ChunkTag(data, 21) == Anmf;
    assert data[25..29] == [14, 0, 0, 0];
    assert data[41..43] == [0x2C, 0x01];
    U32(data[16..20]);
    U32(data[25..29]);
    WalkSkips(data, 12);
    assert NextChunk(data, 12) == 21 && NextChunk(data, 21) == 43;
    assert Walk(data, 43) == Scan([], EndOfChunks, 43);
  }

  /** An ANMF chunk declared smaller than 14 bytes still has a duration read:
      with declared size 0 the field lies 12 bytes into whatever follows its
      header, here inside the next chunk, which is then walked as well. */
  lemma UndersizedAnmfIsStillRead()
    ensures FrameDurations(RiffHeader + Anmf + [0, 0, 0, 0] + Anmf + [0, 0, 0, 0] + [0, 0, 0, 0] + [5, 0]) == [5]
  {
    var data := RiffHeader + Anmf + [0, 0, 0, 0] + Anmf + [0, 0, 0, 0] + [0, 0, 0, 0] + [5, 0];
    assert ChunkTag(data, 12) == Anmf && data[16..20] == [0, 0, 0, 0];
    assert data[32..34] == [5, 0];
    assert ChunkTag(data, 20) == Anmf && data[24..28] == [0, 0, 0, 0];
    assert !DurationFits(data, 20);
    assert Walk(data, 20) == Scan([], DurationCutShort, 40);
  }
}
