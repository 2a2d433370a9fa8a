/** The self-extracting bundle header codec (src/bundle/mod.rs): the
    header executable is padded with filler bytes to a whole number of
    64 KiB blocks, the tar archive follows, and the tar is found again by
    looking for the ustar magic (the `magic` field at offset 257 of a
    header block in the ustar interchange format of POSIX.1) at each block
    boundary. */
module Bundle {
  import opened Base

  // `CHUNK_SIZE`, the block size of 64 KiB, is written as the literal
  // 65536 throughout, which keeps the block arithmetic linear.

  /** `MAX_CHUNKS`: blocks searched for the tar (about 2 MiB). */
  const MaxChunks: nat := 32

  /** The byte `pad_header` fills with. */
  const Filler: Byte := 4

  /** Offset of the magic field in a ustar header block. */
  const MagicOffset: nat := 257

  /** `b"ustar"`. */
  const Ustar: Bytes := [0x75, 0x73, 0x74, 0x61, 0x72]

  // ------------------------------------------------------------------
  // pad_header
  // ------------------------------------------------------------------

  /** The padded header: the header followed by filler up to the next
      block boundary strictly past its end, refused once that would take
      more than `MAX_CHUNKS - 1` = 31 blocks. */
  function Pad(header: Bytes): (r: Result<Bytes>)
    ensures r.Ok? <==> |header| < 31 * 65536
    ensures r.Err? ==> r.msg == "Header too large."
    ensures r.Ok? ==>
      && |r.value| % 65536 == 0
      && |header| < |r.value| <= |header| + 65536
      && header <= r.value
      && forall i :: |header| <= i < |r.value| ==> r.value[i] == Filler
  {
    if |header| < 31 * 65536 then
      var size := (|header| / 65536 + 1) * 65536;
      Ok(header + seq(size - |header|, _ => Filler))
    else Err("Header too large.")
  }

  /** `pad_header`: try the sizes of 1 to 31 blocks in turn and resize the
      header to the first one that exceeds it. */
  method PadHeader(header: Bytes) returns (r: Result<Bytes>)
    ensures r == Pad(header)
  {
    var data := header;
    for idx := 1 to MaxChunks
      invariant |header| >= (idx - 1) * 65536
    {
      if |data| < idx * 65536 {
        data := data + seq(idx * 65536 - |data|, _ => Filler);
        assert idx == |header| / 65536 + 1;
        return Ok(data);
      }
    }
    r := Err("Header too large.");
  }

  // ------------------------------------------------------------------
  // get_tar
  // ------------------------------------------------------------------

  /** The ustar magic sits at offset 257 of the block starting at byte
      `k * 64 KiB` (and the data is long enough to hold it). */
  predicate MagicBlock(data: Bytes, k: nat)
  {
    k * 65536 + MagicOffset + |Ustar| <= |data|
    && data[k * 65536 + MagicOffset .. k * 65536 + MagicOffset + |Ustar|] == Ustar
  }

  /** The lowest block from `k` on, below `MAX_CHUNKS`, holding the magic. */
  function FirstMagic(data: Bytes, k: nat): (r: Option<nat>)
    ensures r.Some? ==> k <= r.value < MaxChunks && MagicBlock(data, r.value)
    ensures r.Some? ==> forall j :: k <= j < r.value ==> !MagicBlock(data, j)
    ensures r.None? ==> forall j :: k <= j < MaxChunks ==> !MagicBlock(data, j)
    decreases MaxChunks - k
  {
    if k >= MaxChunks then None
    else if MagicBlock(data, k) then Some(k)
    else FirstMagic(data, k + 1)
  }

  /** What `get_tar` returns: everything from the first block holding the
      magic. */
  function TarOf(data: Bytes): (r: Result<Bytes>)
    ensures r.Ok? <==> exists k :: 0 <= k < MaxChunks && MagicBlock(data, k)
    ensures r.Err? ==> r.msg == "Could not find chunk, are you running a raw header?"
    ensures r.Ok? ==> |r.value| <= |data| && r.value == data[|data| - |r.value|..]
    ensures r.Ok? ==> |data| - |r.value| == FirstMagic(data, 0).value * 65536
  {
    match FirstMagic(data, 0)
    case Some(k) => Ok(data[k * 65536..])
    case None => Err("Could not find chunk, are you running a raw header?")
  }

  /** `get_tar`: scan the block boundaries in order, returning at the first
      one whose magic window is present and reads `ustar`. */
  method GetTar(data: Bytes) returns (r: Result<Bytes>)
    ensures r == TarOf(data)
  {
    for idx := 0 to MaxChunks
      invariant FirstMagic(data, 0) == FirstMagic(data, idx)
    {
      var initial := idx * 65536;
      if initial + MagicOffset + |Ustar| <= |data| && data[initial + MagicOffset .. initial + MagicOffset + |Ustar|] == Ustar {
        return Ok(data[initial..]);
      }
    }
    r := Err("Could not find chunk, are you running a raw header?");
  }

  /** Data too short for the first window has no tar. */
  lemma ShortDataHasNoTar(data: Bytes)
    requires |data| < MagicOffset + |Ustar|
    ensures TarOf(data).Err?
  {
    assert forall k :: 0 <= k < MaxChunks ==> !MagicBlock(data, k);
  }

  /** A window that reaches past the end of the header into the filler
      ends in a filler byte, which is not the last byte of `ustar`. */
  lemma {:induction false} NoMagicAcrossFiller(header: Bytes, data: Bytes, k: nat)
    requires Pad(header).Ok? && Pad(header).value <= data
    requires k * 65536 < |Pad(header).value|
    requires !(k * 65536 + MagicOffset + |Ustar| <= |header| && MagicBlock(header, k))
    ensures !MagicBlock(data, k)
  {
    var padded := Pad(header).value;
    var start := k * 65536 + MagicOffset;
    assert k < |padded| / 65536;
    assert start + |Ustar| <= |padded|;
    if start + |Ustar| <= |header| {
      assert data[start..start + |Ustar|] == header[start..start + |Ustar|];
    } else {
      assert data[start..start + |Ustar|][4] == padded[start + 4] == Filler;
    }
  }

  /** No block boundary inside the padded header carries the magic. */
  lemma PaddedHeaderHasNoMagic(header: Bytes, tar: Bytes)
    requires Pad(header).Ok?
    requires forall k :: 0 <= k < MaxChunks ==> !MagicBlock(header, k)
    ensures forall k :: 0 <= k < |Pad(header).value| / 65536 ==> !MagicBlock(Pad(header).value + tar, k)
  {
    var data := Pad(header).value + tar;
    forall k | 0 <= k < |Pad(header).value| / 65536 ensures !MagicBlock(data, k) {
      NoMagicAcrossFiller(header, data, k);
    }
  }

  /** The tar's first block lands on the block boundary right after the
      padded header. */
  lemma TarStartsAtBoundary(padded: Bytes, tar: Bytes)
    requires |padded| % 65536 == 0
    requires MagicBlock(tar, 0)
    ensures MagicBlock(padded + tar, |padded| / 65536)
    ensures (padded + tar)[|padded| / 65536 * 65536..] == tar
  {
    var n := |padded| / 65536;
    var data := padded + tar;
    assert n * 65536 == |padded|;
    assert data[n * 65536 + MagicOffset .. n * 65536 + MagicOffset + |Ustar|]
        == tar[MagicOffset .. MagicOffset + |Ustar|];
  }

  /** The round trip of a bundle: after the padded header, a tar whose
      first block carries the magic is found again exactly, provided no
      block of the header itself carries it. */
  lemma RoundTrip(header: Bytes, tar: Bytes)
    requires Pad(header).Ok?
    requires forall k :: 0 <= k < MaxChunks ==> !MagicBlock(header, k)
    requires MagicBlock(tar, 0)
    ensures TarOf(Pad(header).value + tar) == Ok(tar)
  {
    var padded := Pad(header).value;
    var n := |padded| / 65536;
    PaddedHeaderHasNoMagic(header, tar);
    TarStartsAtBoundary(padded, tar);
    var first := FirstMagic(padded + tar, 0);
    assert first == Some(n) by {
      assert first.Some?;
      assert !(first.value < n) && !(n < first.value);
    }
  }
}
