/** `pack`: reassemble a boot image from the artifact files of a working
    directory into one sector-padded buffer, recomputing the size fields, the
    image-type or signed-image marker, the sector count and the header
    checksum. */
module Pack {
  import opened Bytes
  import opened Layout

  /** The artifacts `pack` cannot do without, in the order it loads them. */
  const Required: seq<Artifact> := [Cmdline, Parameter, Bootstub, Kernel, Ramdisk]

  /** `img_size` and every other size are C `int`s: the model assumes they
      stay below 2^31. */
  const IntLimit: nat := 0x8000_0000

  /** The assembled image, or the first required artifact found missing. */
  datatype PackResult = Image(bytes: seq<bv8>) | MissingArtifact(name: Artifact)

  predicate HasRequired(dir: map<Artifact, seq<bv8>>)
  {
    Cmdline in dir && Parameter in dir && Bootstub in dir && Kernel in dir && Ramdisk in dir
  }

  /** `name` is the first artifact of `Required` absent from `dir`. */
  predicate FirstMissing(dir: map<Artifact, seq<bv8>>, name: Artifact)
  {
    exists i :: 0 <= i < |Required| && Required[i] == name && name !in dir &&
      forall j :: 0 <= j < i ==> Required[j] in dir
  }

  /** The trailing padding: the unique amount below one sector that brings
      the size to a sector boundary. */
  function Padding(size: nat): (pad: nat)
    ensures pad < SectorLen && (size + pad) % SectorLen == 0
  {
    if SectorLen - size % SectorLen < SectorLen then SectorLen - size % SectorLen else 0
  }

  /** `img_size`: header + signature + info block + bootstub + kernel + ramdisk. */
  function ImageSize(dir: map<Artifact, seq<bv8>>): nat
    requires HasRequired(dir)
  {
    |FileOr(dir, Hdr)| + |FileOr(dir, Sig)| + InfoLen + |dir[Bootstub]| + |dir[Kernel]| + |dir[Ramdisk]|
  }

  /** What the model asks of the directory so that no two writes of `pack`
      overlap and no size overflows: a header long enough for the fields it
      carries, a cmdline of at most 1024 bytes and a parameter of at most 8. */
  predicate Admissible(dir: map<Artifact, seq<bv8>>)
  {
    && (Hdr in dir ==> ChecksumSpan <= |dir[Hdr]|)
    && (Cmdline in dir ==> |dir[Cmdline]| <= CmdlineLen)
    && (Parameter in dir ==> |dir[Parameter]| <= ParameterLen)
    && (HasRequired(dir) ==> ImageSize(dir) + Padding(ImageSize(dir)) < IntLimit)
  }

  /** Start of the info block: header length plus signature length, each 0
      when the artifact is absent. */
  function InfoBase(dir: map<Artifact, seq<bv8>>): nat
  {
    |FileOr(dir, Hdr)| + |FileOr(dir, Sig)|
  }

  /** The regions up to the end of the info block sit at their offsets:
      signature after the header and, when there is one, the signed-image
      marker inside the info block; the cmdline at the start of the info
      block, the kernel and ramdisk lengths as little-endian uint32 fields
      after it, then the parameter. */
  ghost predicate InfoPlaced(dir: map<Artifact, seq<bv8>>, out: seq<bv8>)
    requires HasRequired(dir)
  {
    var hdrLen, base := |FileOr(dir, Hdr)|, InfoBase(dir);
    var cmdline, parameter := dir[Cmdline], dir[Parameter];
    && base + InfoLen <= |out|
    && |cmdline| <= CmdlineLen && |parameter| <= ParameterLen
    && |dir[Kernel]| < U32Limit && |dir[Ramdisk]| < U32Limit
    && (Sig in dir ==> out[hdrLen..base] == dir[Sig] && out[base + MarkerOff..base + MarkerOff + |Marker|] == Marker)
    && out[base..base + |cmdline|] == cmdline
    && out[base + KernelSizeOff..base + KernelSizeOff + 4] == U32Le(|dir[Kernel]|)
    && out[base + RamdiskSizeOff..base + RamdiskSizeOff + 4] == U32Le(|dir[Ramdisk]|)
    && out[base + ParameterOff..base + ParameterOff + |parameter|] == parameter
  }

  /** Bootstub, kernel and ramdisk follow the info block back to back. */
  ghost predicate PayloadsPlaced(dir: map<Artifact, seq<bv8>>, out: seq<bv8>)
    requires HasRequired(dir)
  {
    var at := InfoBase(dir) + InfoLen;
    var bootstub, kernel, ramdisk := dir[Bootstub], dir[Kernel], dir[Ramdisk];
    && at + |bootstub| + |kernel| + |ramdisk| <= |out|
    && out[at..at + |bootstub|] == bootstub
    && out[at + |bootstub|..at + |bootstub| + |kernel|] == kernel
    && out[at + |bootstub| + |kernel|..at + |bootstub| + |kernel| + |ramdisk|] == ramdisk
  }

  /** The header as copied before the fix-up: every byte of the artifact
      except the image type of an unsigned image, which is incremented
      modulo 2^32. */
  ghost predicate HeaderCopied(dir: map<Artifact, seq<bv8>>, out: seq<bv8>)
    requires Hdr in dir && ChecksumSpan <= |dir[Hdr]| <= |out|
  {
    var hdr := dir[Hdr];
    && (forall k :: 0 <= k < |hdr| && (Sig in dir || !(ImageTypeOff <= k < ImageTypeOff + 4)) ==> out[k] == hdr[k])
    && (Sig !in dir ==>
          LeU32(out[ImageTypeOff..ImageTypeOff + 4]) == (LeU32(hdr[ImageTypeOff..ImageTypeOff + 4]) + 1) % U32Limit)
  }

  /** The header as `pack` leaves it: the artifact's bytes except the
      checksum (byte 7), the sector count (bytes 48..51) and the image type
      (bytes 52..55); the sector count is the padded size in sectors minus
      one; the image type is kept when there is a signature and otherwise
      incremented modulo 2^32; and byte 7 makes the XOR of bytes 0..55 zero. */
  ghost predicate HeaderFixed(dir: map<Artifact, seq<bv8>>, out: seq<bv8>)
    requires Hdr in dir && ChecksumSpan <= |dir[Hdr]| <= |out|
  {
    var hdr := dir[Hdr];
    && (forall k :: 0 <= k < |hdr| && k != ChecksumOff && !(SectorCountOff <= k < ChecksumSpan) ==> out[k] == hdr[k])
    && LeU32(out[SectorCountOff..SectorCountOff + 4]) == |out| / SectorLen - 1
    && (if Sig in dir then out[ImageTypeOff..ImageTypeOff + 4] == hdr[ImageTypeOff..ImageTypeOff + 4]
        else LeU32(out[ImageTypeOff..ImageTypeOff + 4]) == (LeU32(hdr[ImageTypeOff..ImageTypeOff + 4]) + 1) % U32Limit)
    && Xor(out[..ChecksumSpan]) == 0
  }

  /** The image `pack` writes for a directory holding every required
      artifact. Bytes it never writes (the rest of the info block, and the
      rest of the cmdline and parameter slots) are left unconstrained: they
      come from an uninitialised buffer. */
  ghost predicate PackedImage(dir: map<Artifact, seq<bv8>>, out: seq<bv8>)
    requires HasRequired(dir) && Admissible(dir)
  {
    var size := ImageSize(dir);
    && |out| == size + Padding(size)
    && InfoPlaced(dir, out)
    && PayloadsPlaced(dir, out)
    && (forall k :: size <= k < |out| ==> out[k] == 0xFF)
    && (Hdr in dir ==> HeaderFixed(dir, out))
  }

  /** The header checksum: XOR of bytes 0..55 with byte 7 taken as zero. */
  function HeaderChecksum(h: seq<bv8>): bv8
    requires ChecksumSpan <= |h|
  {
    Xor(h[..ChecksumSpan][ChecksumOff := 0])
  }

  /** Storing the checksum at byte 7 makes the XOR of bytes 0..55 zero. */
  lemma ChecksumZeroesHeader(h: seq<bv8>)
    requires ChecksumSpan <= |h|
    ensures Xor(h[ChecksumOff := HeaderChecksum(h)][..ChecksumSpan]) == 0
  {
    var c := HeaderChecksum(h);
    var zeroed := h[..ChecksumSpan][ChecksumOff := 0];
    assert h[ChecksumOff := c][..ChecksumSpan] == zeroed[ChecksumOff := c];
    XorUpdate(zeroed, ChecksumOff, c);
  }

  /** Recomputing the checksum of a header that already carries it gives the
      same byte: the checksum is idempotent. */
  lemma ChecksumIdempotent(h: seq<bv8>)
    requires ChecksumSpan <= |h|
    ensures HeaderChecksum(h[ChecksumOff := HeaderChecksum(h)]) == HeaderChecksum(h)
  {
    var c := HeaderChecksum(h);
    assert h[ChecksumOff := c][..ChecksumSpan][ChecksumOff := 0] == h[..ChecksumSpan][ChecksumOff := 0];
  }

  /** Changing any one covered header byte other than byte 7 changes the
      checksum. */
  lemma ChecksumDetectsByteChange(h: seq<bv8>, k: nat, v: bv8)
    requires ChecksumSpan <= |h| && k < ChecksumSpan && k != ChecksumOff && v != h[k]
    ensures HeaderChecksum(h[k := v]) != HeaderChecksum(h)
  {
    var zeroed := h[..ChecksumSpan][ChecksumOff := 0];
    assert h[k := v][..ChecksumSpan][ChecksumOff := 0] == zeroed[k := v];
    XorUpdate(zeroed, k, v);
    assert zeroed[k] == h[k];
    assert h[k] ^ v != 0;
  }

  /** `s` with `src` copied over it from offset `off` on: memcpy. */
  function Splice(s: seq<bv8>, off: nat, src: seq<bv8>): (r: seq<bv8>)
    requires off + |src| <= |s|
    ensures |r| == |s| && r[off..off + |src|] == src
  {
    s[..off] + src + s[off + |src|..]
  }

  /** A splice leaves every window that does not meet it unchanged. */
  lemma SpliceElsewhere(s: seq<bv8>, off: nat, src: seq<bv8>, lo: nat, hi: nat)
    requires off + |src| <= |s| && lo <= hi <= |s| && (hi <= off || off + |src| <= lo)
    ensures Splice(s, off, src)[lo..hi] == s[lo..hi]
  {
    var r := Splice(s, off, src);
    forall k | lo <= k < hi
      ensures r[k] == s[k]
    {
      if k < off {
        assert r[k] == s[..off][k];
      } else {
        assert r[k] == s[off + |src|..][k - off - |src|];
      }
    }
  }

  /** A splice leaves every byte it does not cover unchanged. */
  lemma SpliceAt(s: seq<bv8>, off: nat, src: seq<bv8>, k: nat)
    requires off + |src| <= |s| && k < |s| && (k < off || off + |src| <= k)
    ensures Splice(s, off, src)[k] == s[k]
  {
    if k < off {
      assert Splice(s, off, src)[k] == s[..off][k];
    } else {
      assert Splice(s, off, src)[k] == s[off + |src|..][k - off - |src|];
    }
  }

  /** A splice puts its source byte at every position it covers. */
  lemma SpliceIn(s: seq<bv8>, off: nat, src: seq<bv8>, k: nat)
    requires off <= k < off + |src| <= |s|
    ensures Splice(s, off, src)[k] == src[k - off]
  {
    assert Splice(s, off, src)[k] == Splice(s, off, src)[off..off + |src|][k - off];
  }

  /** n copies of v: memset's source. */
  function Repeat(v: bv8, n: nat): (r: seq<bv8>)
    ensures |r| == n && forall k :: 0 <= k < n ==> r[k] == v
  {
    seq(n, _ => v)
  }

  /** The first write of `pack`: the header, when present, at offset 0. */
  function HeaderWrites(dir: map<Artifact, seq<bv8>>, s: seq<bv8>): (r: seq<bv8>)
    requires |FileOr(dir, Hdr)| <= |s|
    ensures |r| == |s|
  {
    if Hdr in dir then Splice(s, 0, dir[Hdr]) else s
  }

  /** The writes that mark the image kind: the signature after the header
      and the signed-image marker in the info block, or, for a header without
      signature, the image type read back from the buffer plus one. */
  function MarkWrites(dir: map<Artifact, seq<bv8>>, s: seq<bv8>): (r: seq<bv8>)
    requires InfoBase(dir) + MarkerOff + |Marker| <= |s|
    ensures |r| == |s|
  {
    if Sig in dir then
      Splice(Splice(s, |FileOr(dir, Hdr)|, dir[Sig]), InfoBase(dir) + MarkerOff, Marker)
    else if Hdr in dir then
      Splice(s, ImageTypeOff, U32Le((LeU32(s[ImageTypeOff..ImageTypeOff + 4]) + 1) % U32Limit))
    else
      s
  }

  /** Everything `pack` writes before the info block. */
  function LeadingWrites(dir: map<Artifact, seq<bv8>>, s: seq<bv8>): (r: seq<bv8>)
    requires InfoBase(dir) + MarkerOff + |Marker| <= |s|
    ensures |r| == |s|
  {
    MarkWrites(dir, HeaderWrites(dir, s))
  }

  /** The info-block writes: cmdline, kernel size, ramdisk size, parameter. */
  function InfoWrites(dir: map<Artifact, seq<bv8>>, s: seq<bv8>): (r: seq<bv8>)
    requires HasRequired(dir) && Admissible(dir) && InfoBase(dir) + InfoLen <= |s|
    ensures |r| == |s|
  {
    var base := InfoBase(dir);
    var withCmdline := Splice(s, base, dir[Cmdline]);
    var withKernelSize := Splice(withCmdline, base + KernelSizeOff, U32Le(|dir[Kernel]|));
    var withRamdiskSize := Splice(withKernelSize, base + RamdiskSizeOff, U32Le(|dir[Ramdisk]|));
    Splice(withRamdiskSize, base + ParameterOff, dir[Parameter])
  }

  /** The four info-block writes one after another, as `PlaceInfo` makes them. */
  lemma InfoWritesInOrder(dir: map<Artifact, seq<bv8>>, s: seq<bv8>)
    requires HasRequired(dir) && Admissible(dir) && InfoBase(dir) + InfoLen <= |s|
    ensures InfoWrites(dir, s) ==
      Splice(Splice(Splice(Splice(s, InfoBase(dir), dir[Cmdline]),
                           InfoBase(dir) + KernelSizeOff, U32Le(|dir[Kernel]|)),
                    InfoBase(dir) + RamdiskSizeOff, U32Le(|dir[Ramdisk]|)),
             InfoBase(dir) + ParameterOff, dir[Parameter])
  {
  }

  /** Bootstub, kernel and ramdisk, back to back after the info block. */
  function PayloadWrites(dir: map<Artifact, seq<bv8>>, s: seq<bv8>): (r: seq<bv8>)
    requires HasRequired(dir) && ImageSize(dir) <= |s|
    ensures |r| == |s|
  {
    Splice(Splice(Splice(s, InfoBase(dir) + InfoLen, dir[Bootstub]),
                  InfoBase(dir) + InfoLen + |dir[Bootstub]|, dir[Kernel]),
           InfoBase(dir) + InfoLen + |dir[Bootstub]| + |dir[Kernel]|, dir[Ramdisk])
  }

  /** The three payload writes one after another, as `PlacePayloads` makes them. */
  lemma PayloadWritesInOrder(dir: map<Artifact, seq<bv8>>, s: seq<bv8>)
    requires HasRequired(dir) && ImageSize(dir) <= |s|
    ensures PayloadWrites(dir, s) ==
      Splice(Splice(Splice(s, InfoBase(dir) + InfoLen, dir[Bootstub]),
                    InfoBase(dir) + InfoLen + |dir[Bootstub]|, dir[Kernel]),
             InfoBase(dir) + InfoLen + |dir[Bootstub]| + |dir[Kernel]|, dir[Ramdisk])
  {
  }

  /** The trailing padding: 0xFF from the image size to the end. */
  function PadWrites(dir: map<Artifact, seq<bv8>>, s: seq<bv8>): (r: seq<bv8>)
    requires HasRequired(dir) && ImageSize(dir) <= |s|
    ensures |r| == |s|
  {
    Splice(s, ImageSize(dir), Repeat(0xFF, |s| - ImageSize(dir)))
  }

  /** The header fix-up: the sector count at byte 48, then the checksum of
      the result at byte 7. */
  function HeaderFixWrites(s: seq<bv8>): (r: seq<bv8>)
    requires SectorLen <= |s| && |s| / SectorLen - 1 < U32Limit
    ensures |r| == |s|
  {
    var counted := Splice(s, SectorCountOff, U32Le(|s| / SectorLen - 1));
    counted[ChecksumOff := HeaderChecksum(counted)]
  }

  /** Every write of `pack`, in the order of the source, over a buffer whose
      initial contents `s0` are arbitrary. */
  function PackWrites(dir: map<Artifact, seq<bv8>>, s0: seq<bv8>): (r: seq<bv8>)
    requires HasRequired(dir) && Admissible(dir) && |s0| == ImageSize(dir) + Padding(ImageSize(dir))
    ensures |r| == |s0|
  {
    var laid := PadWrites(dir, PayloadWrites(dir, InfoWrites(dir, LeadingWrites(dir, s0))));
    if Hdr in dir then HeaderFixWrites(laid) else laid
  }

  /** The buffer after every write of `pack` is `PackWrites` of what it held
      before the first. */
  lemma PackWritesInOrder(dir: map<Artifact, seq<bv8>>, s0: seq<bv8>, laid: seq<bv8>, out: seq<bv8>)
    requires HasRequired(dir) && Admissible(dir) && |s0| == ImageSize(dir) + Padding(ImageSize(dir))
    requires laid == PadWrites(dir, PayloadWrites(dir, InfoWrites(dir, LeadingWrites(dir, s0))))
    requires out == if Hdr in dir then HeaderFixWrites(laid) else laid
    ensures PackedImage(dir, out)
  {
    PackWritesPlaced(dir, s0);
  }

  /** Two byte strings that agree on [lo, hi) agree on every window inside it. */
  lemma Window(a: seq<bv8>, b: seq<bv8>, lo: int, hi: int, x: int, y: int)
    requires 0 <= lo <= x <= y <= hi <= |a| && hi <= |b| && a[lo..hi] == b[lo..hi]
    ensures a[x..y] == b[x..y]
  {
    assert forall k :: x <= k < y ==> a[k] == a[lo..hi][k - lo] == b[lo..hi][k - lo] == b[k];
  }

  /** The copied header survives any change past `hi`, which lies at or after
      its end. */
  lemma HeaderKept(dir: map<Artifact, seq<bv8>>, a: seq<bv8>, b: seq<bv8>, hi: nat)
    requires Hdr in dir && ChecksumSpan <= |dir[Hdr]| <= hi <= |a| && hi <= |b|
    requires a[0..hi] == b[0..hi]
    requires HeaderCopied(dir, a)
    ensures HeaderCopied(dir, b)
  {
    forall k | 0 <= k < |dir[Hdr]|
      ensures b[k] == a[k]
    {
      assert b[k] == b[0..hi][k];
    }
    assert b[ImageTypeOff..ImageTypeOff + 4] == a[ImageTypeOff..ImageTypeOff + 4];
  }

  /** For a signed image the marks put the signature and the marker in place
      and leave the header bytes alone. */
  lemma SignedMarks(dir: map<Artifact, seq<bv8>>, w: seq<bv8>)
    requires Sig in dir && InfoBase(dir) + MarkerOff + |Marker| <= |w|
    requires Hdr in dir ==> ChecksumSpan <= |dir[Hdr]| && w[0..|dir[Hdr]|] == dir[Hdr]
    ensures var r, hdrLen, base := MarkWrites(dir, w), |FileOr(dir, Hdr)|, InfoBase(dir);
      && r[hdrLen..base] == dir[Sig] && r[base + MarkerOff..base + MarkerOff + |Marker|] == Marker
      && (Hdr in dir ==> HeaderCopied(dir, r))
  {
    var hdrLen, base := |FileOr(dir, Hdr)|, InfoBase(dir);
    var withSig := Splice(w, hdrLen, dir[Sig]);
    var r := MarkWrites(dir, w);
    SpliceElsewhere(w, hdrLen, dir[Sig], 0, hdrLen);
    SpliceElsewhere(withSig, base + MarkerOff, Marker, 0, base);
    Window(r, withSig, 0, base, hdrLen, base);
    if Hdr in dir {
      var hdr := dir[Hdr];
      Window(r, withSig, 0, base, 0, hdrLen);
      forall k | 0 <= k < hdrLen
        ensures r[k] == hdr[k]
      {
        assert r[k] == r[0..hdrLen][k];
      }
    }
  }

  /** For an unsigned image with a header the marks rewrite only the image
      type, to the copied value plus one. */
  lemma UnsignedMarks(dir: map<Artifact, seq<bv8>>, w: seq<bv8>)
    requires Sig !in dir && Hdr in dir && ChecksumSpan <= |dir[Hdr]| && InfoBase(dir) + MarkerOff + |Marker| <= |w|
    requires w[0..|dir[Hdr]|] == dir[Hdr]
    ensures HeaderCopied(dir, MarkWrites(dir, w))
  {
    var hdr := dir[Hdr];
    var hdrLen := |hdr|;
    var r := MarkWrites(dir, w);
    var imgtype := U32Le((LeU32(w[ImageTypeOff..ImageTypeOff + 4]) + 1) % U32Limit);
    forall k | 0 <= k < hdrLen && !(ImageTypeOff <= k < ImageTypeOff + 4)
      ensures r[k] == hdr[k]
    {
      SpliceAt(w, ImageTypeOff, imgtype, k);
      assert w[k] == w[0..hdrLen][k];
    }
    Window(w, hdr, 0, hdrLen, ImageTypeOff, ImageTypeOff + 4);
  }

  /** The leading writes put the signature and marker in place and leave the
      header copied, whatever the buffer held. */
  lemma LeadingFacts(dir: map<Artifact, seq<bv8>>, s: seq<bv8>)
    requires Admissible(dir) && InfoBase(dir) + MarkerOff + |Marker| <= |s|
    ensures var r, hdrLen, base := LeadingWrites(dir, s), |FileOr(dir, Hdr)|, InfoBase(dir);
      && (Sig in dir ==> r[hdrLen..base] == dir[Sig] && r[base + MarkerOff..base + MarkerOff + |Marker|] == Marker)
      && (Hdr in dir ==> HeaderCopied(dir, r))
  {
    var w := HeaderWrites(dir, s);
    if Sig in dir {
      SignedMarks(dir, w);
    } else if Hdr in dir {
      UnsignedMarks(dir, w);
    }
  }

  /** The info-block writes put cmdline, size fields and parameter in place. */
  lemma InfoFacts(dir: map<Artifact, seq<bv8>>, s: seq<bv8>)
    requires HasRequired(dir) && Admissible(dir) && InfoBase(dir) + InfoLen <= |s|
    ensures var r, base := InfoWrites(dir, s), InfoBase(dir);
      && r[base..base + |dir[Cmdline]|] == dir[Cmdline]
      && r[base + KernelSizeOff..base + KernelSizeOff + 4] == U32Le(|dir[Kernel]|)
      && r[base + RamdiskSizeOff..base + RamdiskSizeOff + 4] == U32Le(|dir[Ramdisk]|)
      && r[base + ParameterOff..base + ParameterOff + |dir[Parameter]|] == dir[Parameter]
  {
    var base := InfoBase(dir);
    var withCmdline := Splice(s, base, dir[Cmdline]);
    var withKernelSize := Splice(withCmdline, base + KernelSizeOff, U32Le(|dir[Kernel]|));
    var withRamdiskSize := Splice(withKernelSize, base + RamdiskSizeOff, U32Le(|dir[Ramdisk]|));
    var cmdlineEnd := base + |dir[Cmdline]|;
    InfoWritesInOrder(dir, s);
    SpliceElsewhere(withCmdline, base + KernelSizeOff, U32Le(|dir[Kernel]|), base, cmdlineEnd);
    SpliceElsewhere(withKernelSize, base + RamdiskSizeOff, U32Le(|dir[Ramdisk]|), base, cmdlineEnd);
    SpliceElsewhere(withRamdiskSize, base + ParameterOff, dir[Parameter], base, cmdlineEnd);
    SpliceElsewhere(withKernelSize, base + RamdiskSizeOff, U32Le(|dir[Ramdisk]|), base + KernelSizeOff, base + KernelSizeOff + 4);
    SpliceElsewhere(withRamdiskSize, base + ParameterOff, dir[Parameter], base + KernelSizeOff, base + KernelSizeOff + 4);
    SpliceElsewhere(withRamdiskSize, base + ParameterOff, dir[Parameter], base + RamdiskSizeOff, base + RamdiskSizeOff + 4);
  }

  /** The info-block writes touch nothing outside [base, base + 1040). */
  lemma InfoFrame(dir: map<Artifact, seq<bv8>>, s: seq<bv8>)
    requires HasRequired(dir) && Admissible(dir) && InfoBase(dir) + InfoLen <= |s|
    ensures var r, base := InfoWrites(dir, s), InfoBase(dir);
      && r[0..base] == s[0..base]
      && r[base + MarkerOff..|r|] == s[base + MarkerOff..|s|]
  {
    var base := InfoBase(dir);
    InfoWritesInOrder(dir, s);
    FourSplicesElsewhere(s, base, dir[Cmdline], base + KernelSizeOff, U32Le(|dir[Kernel]|),
                         base + RamdiskSizeOff, U32Le(|dir[Ramdisk]|), base + ParameterOff, dir[Parameter], 0, base);
    FourSplicesElsewhere(s, base, dir[Cmdline], base + KernelSizeOff, U32Le(|dir[Kernel]|),
                         base + RamdiskSizeOff, U32Le(|dir[Ramdisk]|), base + ParameterOff, dir[Parameter], base + MarkerOff, |s|);
  }

  /** Four splices in a row leave a window that none of them meets unchanged. */
  lemma FourSplicesElsewhere(s: seq<bv8>, o1: nat, a1: seq<bv8>, o2: nat, a2: seq<bv8>, o3: nat, a3: seq<bv8>,
                             o4: nat, a4: seq<bv8>, lo: nat, hi: nat)
    requires o1 + |a1| <= |s| && o2 + |a2| <= |s| && o3 + |a3| <= |s| && o4 + |a4| <= |s| && lo <= hi <= |s|
    requires hi <= o1 || o1 + |a1| <= lo
    requires hi <= o2 || o2 + |a2| <= lo
    requires hi <= o3 || o3 + |a3| <= lo
    requires hi <= o4 || o4 + |a4| <= lo
    ensures Splice(Splice(Splice(Splice(s, o1, a1), o2, a2), o3, a3), o4, a4)[lo..hi] == s[lo..hi]
  {
    var s1 := Splice(s, o1, a1);
    var s2 := Splice(s1, o2, a2);
    var s3 := Splice(s2, o3, a3);
    SpliceElsewhere(s, o1, a1, lo, hi);
    SpliceElsewhere(s1, o2, a2, lo, hi);
    SpliceElsewhere(s2, o3, a3, lo, hi);
    SpliceElsewhere(s3, o4, a4, lo, hi);
  }

  /** The payload writes put bootstub, kernel and ramdisk in place and touch
      nothing outside [base + 4096, image size). */
  lemma PayloadFacts(dir: map<Artifact, seq<bv8>>, s: seq<bv8>)
    requires HasRequired(dir) && ImageSize(dir) <= |s|
    ensures var r, at := PayloadWrites(dir, s), InfoBase(dir) + InfoLen;
      && PayloadsPlaced(dir, r)
      && r[0..at] == s[0..at]
      && r[ImageSize(dir)..|r|] == s[ImageSize(dir)..|s|]
  {
    var at := InfoBase(dir) + InfoLen;
    var bootstub, kernel, ramdisk := dir[Bootstub], dir[Kernel], dir[Ramdisk];
    var withBootstub := Splice(s, at, bootstub);
    var withKernel := Splice(withBootstub, at + |bootstub|, kernel);
    var r := Splice(withKernel, at + |bootstub| + |kernel|, ramdisk);
    var size, end := ImageSize(dir), |s|;
    SpliceElsewhere(withKernel, at + |bootstub| + |kernel|, ramdisk, at, at + |bootstub| + |kernel|);
    SpliceElsewhere(withBootstub, at + |bootstub|, kernel, at, at + |bootstub|);
    Window(r, withKernel, at, at + |bootstub| + |kernel|, at, at + |bootstub|);
    Window(r, withKernel, at, at + |bootstub| + |kernel|, at + |bootstub|, at + |bootstub| + |kernel|);
    SpliceElsewhere(withKernel, at + |bootstub| + |kernel|, ramdisk, 0, at);
    SpliceElsewhere(withBootstub, at + |bootstub|, kernel, 0, at);
    SpliceElsewhere(s, at, bootstub, 0, at);
    SpliceElsewhere(withKernel, at + |bootstub| + |kernel|, ramdisk, size, end);
    SpliceElsewhere(withBootstub, at + |bootstub|, kernel, size, end);
    SpliceElsewhere(s, at, bootstub, size, end);
  }

  /** The fix-up writes the sector count and a checksum that zeroes the XOR
      of bytes 0..55, and touches nothing but bytes 7 and 48..51. */
  lemma HeaderFixFacts(s: seq<bv8>)
    requires SectorLen <= |s| && |s| / SectorLen - 1 < U32Limit
    ensures var r := HeaderFixWrites(s);
      && LeU32(r[SectorCountOff..SectorCountOff + 4]) == |s| / SectorLen - 1
      && Xor(r[..ChecksumSpan]) == 0
      && r[0..ChecksumOff] == s[0..ChecksumOff]
      && r[ChecksumOff + 1..SectorCountOff] == s[ChecksumOff + 1..SectorCountOff]
      && r[SectorCountOff + 4..|r|] == s[SectorCountOff + 4..|s|]
  {
    var counted := Splice(s, SectorCountOff, U32Le(|s| / SectorLen - 1));
    var r := HeaderFixWrites(s);
    ChecksumZeroesHeader(counted);
    SpliceElsewhere(s, SectorCountOff, U32Le(|s| / SectorLen - 1), 0, SectorCountOff);
    SpliceElsewhere(s, SectorCountOff, U32Le(|s| / SectorLen - 1), SectorCountOff + 4, |s|);
    assert r[SectorCountOff..SectorCountOff + 4] == counted[SectorCountOff..SectorCountOff + 4];
    assert r[0..ChecksumOff] == counted[0..ChecksumOff];
    Window(counted, s, 0, SectorCountOff, 0, ChecksumOff);
    assert r[ChecksumOff + 1..SectorCountOff] == counted[ChecksumOff + 1..SectorCountOff];
    Window(counted, s, 0, SectorCountOff, ChecksumOff + 1, SectorCountOff);
    assert r[SectorCountOff + 4..|r|] == counted[SectorCountOff + 4..|s|];
  }

  /** What `InfoPlaced` describes survives any change outside a window
      [lo, hi) that covers everything from the end of the header to the end
      of the info block. */
  lemma InfoKept(dir: map<Artifact, seq<bv8>>, a: seq<bv8>, b: seq<bv8>, lo: nat, hi: nat)
    requires HasRequired(dir) && InfoPlaced(dir, a)
    requires lo <= |FileOr(dir, Hdr)| && InfoBase(dir) + InfoLen <= hi <= |a| && hi <= |b|
    requires a[lo..hi] == b[lo..hi]
    ensures InfoPlaced(dir, b)
  {
    var hdrLen, base := |FileOr(dir, Hdr)|, InfoBase(dir);
    if Sig in dir {
      Window(a, b, lo, hi, hdrLen, base);
      Window(a, b, lo, hi, base + MarkerOff, base + MarkerOff + |Marker|);
    }
    Window(a, b, lo, hi, base, base + |dir[Cmdline]|);
    Window(a, b, lo, hi, base + KernelSizeOff, base + KernelSizeOff + 4);
    Window(a, b, lo, hi, base + RamdiskSizeOff, base + RamdiskSizeOff + 4);
    Window(a, b, lo, hi, base + ParameterOff, base + ParameterOff + |dir[Parameter]|);
  }

  /** What `PayloadsPlaced` describes survives any change outside a window
      [lo, hi) that covers the payloads. */
  lemma PayloadsKept(dir: map<Artifact, seq<bv8>>, a: seq<bv8>, b: seq<bv8>, lo: nat, hi: nat)
    requires HasRequired(dir) && PayloadsPlaced(dir, a)
    requires lo <= InfoBase(dir) + InfoLen && ImageSize(dir) <= hi <= |a| && hi <= |b|
    requires a[lo..hi] == b[lo..hi]
    ensures PayloadsPlaced(dir, b)
  {
    var at := InfoBase(dir) + InfoLen;
    var kernelAt := at + |dir[Bootstub]|;
    var ramdiskAt := kernelAt + |dir[Kernel]|;
    Window(a, b, lo, hi, at, kernelAt);
    Window(a, b, lo, hi, kernelAt, ramdiskAt);
    Window(a, b, lo, hi, ramdiskAt, ramdiskAt + |dir[Ramdisk]|);
  }

  /** The 0xFF padding survives a change that leaves every byte from `lo`
      on alone. */
  lemma PaddingKept(a: seq<bv8>, b: seq<bv8>, lo: nat, size: nat)
    requires lo <= size <= |a| == |b| && a[lo..|a|] == b[lo..|b|]
    requires forall k :: size <= k < |a| ==> a[k] == 0xFF
    ensures forall k :: size <= k < |b| ==> b[k] == 0xFF
  {
    forall k | size <= k < |b|
      ensures b[k] == 0xFF
    {
      assert b[k] == b[lo..|b|][k - lo] == a[lo..|a|][k - lo];
    }
  }

  /** Header, signature, marker and info block, as the first two groups of
      writes leave them. */
  lemma FrontPlaced(dir: map<Artifact, seq<bv8>>, s0: seq<bv8>)
    requires HasRequired(dir) && Admissible(dir) && InfoBase(dir) + InfoLen <= |s0|
    ensures var front := InfoWrites(dir, LeadingWrites(dir, s0));
      && InfoPlaced(dir, front)
      && (Hdr in dir ==> HeaderCopied(dir, front))
  {
    var s1 := LeadingWrites(dir, s0);
    var s2 := InfoWrites(dir, s1);
    var hdrLen, base := |FileOr(dir, Hdr)|, InfoBase(dir);
    LeadingFacts(dir, s0);
    InfoFacts(dir, s1);
    InfoFrame(dir, s1);
    if Sig in dir {
      Window(s1, s2, 0, base, hdrLen, base);
      Window(s1, s2, base + MarkerOff, |s1|, base + MarkerOff, base + MarkerOff + |Marker|);
    }
    if Hdr in dir {
      HeaderKept(dir, s1, s2, base);
    }
  }

  /** The payload writes keep what the front writes placed. */
  lemma PayloadsOverFront(dir: map<Artifact, seq<bv8>>, s2: seq<bv8>)
    requires HasRequired(dir) && Admissible(dir) && ImageSize(dir) <= |s2|
    requires InfoPlaced(dir, s2) && (Hdr in dir ==> HeaderCopied(dir, s2))
    ensures var s3 := PayloadWrites(dir, s2);
      && InfoPlaced(dir, s3) && PayloadsPlaced(dir, s3)
      && (Hdr in dir ==> HeaderCopied(dir, s3))
  {
    var s3 := PayloadWrites(dir, s2);
    PayloadFacts(dir, s2);
    InfoKept(dir, s2, s3, 0, InfoBase(dir) + InfoLen);
    if Hdr in dir {
      HeaderKept(dir, s2, s3, InfoBase(dir) + InfoLen);
    }
  }

  /** The padding keeps everything before the image size and fills the rest
      with 0xFF. */
  lemma PaddingOverPayloads(dir: map<Artifact, seq<bv8>>, s3: seq<bv8>)
    requires HasRequired(dir) && Admissible(dir) && ImageSize(dir) <= |s3|
    requires InfoPlaced(dir, s3) && PayloadsPlaced(dir, s3) && (Hdr in dir ==> HeaderCopied(dir, s3))
    ensures var s4 := PadWrites(dir, s3);
      && InfoPlaced(dir, s4) && PayloadsPlaced(dir, s4)
      && (forall k :: ImageSize(dir) <= k < |s4| ==> s4[k] == 0xFF)
      && (Hdr in dir ==> HeaderCopied(dir, s4))
  {
    var size := ImageSize(dir);
    var s4 := PadWrites(dir, s3);
    SpliceElsewhere(s3, size, Repeat(0xFF, |s3| - size), 0, size);
    InfoKept(dir, s3, s4, 0, size);
    PayloadsKept(dir, s3, s4, 0, size);
    if Hdr in dir {
      HeaderKept(dir, s3, s4, size);
    }
    forall k | size <= k < |s4|
      ensures s4[k] == 0xFF
    {
      assert s4[k] == s4[size..|s4|][k - size];
    }
  }

  /** Every write before the header fix-up, as the buffer is then. */
  lemma LaidOut(dir: map<Artifact, seq<bv8>>, s0: seq<bv8>)
    requires HasRequired(dir) && Admissible(dir) && |s0| == ImageSize(dir) + Padding(ImageSize(dir))
    ensures var laid := PadWrites(dir, PayloadWrites(dir, InfoWrites(dir, LeadingWrites(dir, s0))));
      && InfoPlaced(dir, laid) && PayloadsPlaced(dir, laid)
      && (forall k :: ImageSize(dir) <= k < |laid| ==> laid[k] == 0xFF)
      && (Hdr in dir ==> HeaderCopied(dir, laid))
  {
    var s2 := InfoWrites(dir, LeadingWrites(dir, s0));
    FrontPlaced(dir, s0);
    PayloadsOverFront(dir, s2);
    PaddingOverPayloads(dir, PayloadWrites(dir, s2));
  }

  /** The header fix-up only touches bytes 7 and 48..51: the rest of the
      header stays as copied and everything past it is unchanged. */
  lemma HeaderComposed(dir: map<Artifact, seq<bv8>>, before: seq<bv8>, after: seq<bv8>)
    requires Hdr in dir && ChecksumSpan <= |dir[Hdr]| <= |before| == |after|
    requires HeaderCopied(dir, before)
    requires after[0..ChecksumOff] == before[0..ChecksumOff]
    requires after[ChecksumOff + 1..SectorCountOff] == before[ChecksumOff + 1..SectorCountOff]
    requires after[SectorCountOff + 4..|after|] == before[SectorCountOff + 4..|before|]
    ensures forall k :: 0 <= k < |dir[Hdr]| && k != ChecksumOff && !(SectorCountOff <= k < ChecksumSpan) ==>
      after[k] == dir[Hdr][k]
    ensures Sig in dir ==> after[ImageTypeOff..ImageTypeOff + 4] == dir[Hdr][ImageTypeOff..ImageTypeOff + 4]
    ensures Sig !in dir ==>
      LeU32(after[ImageTypeOff..ImageTypeOff + 4]) == (LeU32(dir[Hdr][ImageTypeOff..ImageTypeOff + 4]) + 1) % U32Limit
    ensures after[|dir[Hdr]|..|after|] == before[|dir[Hdr]|..|before|]
  {
    var hdr := dir[Hdr];
    forall k | 0 <= k < |hdr| && k != ChecksumOff && !(SectorCountOff <= k < SectorCountOff + 4)
      ensures after[k] == before[k]
    {
      if k < ChecksumOff {
        assert after[k] == after[0..ChecksumOff][k];
      } else if k < SectorCountOff {
        assert after[k] == after[ChecksumOff + 1..SectorCountOff][k - ChecksumOff - 1];
      } else {
        assert after[k] == after[SectorCountOff + 4..|after|][k - SectorCountOff - 4];
      }
    }
    Window(after, before, SectorCountOff + 4, |after|, ImageTypeOff, ImageTypeOff + 4);
    Window(after, before, SectorCountOff + 4, |after|, |hdr|, |after|);
    if Sig in dir {
      assert forall k :: ImageTypeOff <= k < ImageTypeOff + 4 ==> before[k] == hdr[k];
    }
  }

  /** Whatever the buffer held before, the writes of `pack` produce the image
      `PackedImage` describes. */
  lemma PackWritesPlaced(dir: map<Artifact, seq<bv8>>, s0: seq<bv8>)
    requires HasRequired(dir) && Admissible(dir) && |s0| == ImageSize(dir) + Padding(ImageSize(dir))
    ensures PackedImage(dir, PackWrites(dir, s0))
  {
    var laid := PadWrites(dir, PayloadWrites(dir, InfoWrites(dir, LeadingWrites(dir, s0))));
    LaidOut(dir, s0);
    if Hdr in dir {
      var out := HeaderFixWrites(laid);
      var hdrLen := |dir[Hdr]|;
      HeaderFixFacts(laid);
      HeaderComposed(dir, laid, out);
      InfoKept(dir, laid, out, hdrLen, |out|);
      PayloadsKept(dir, laid, out, hdrLen, |out|);
      PaddingKept(laid, out, hdrLen, ImageSize(dir));
    }
  }

  /** Below the info block, the leading writes of a headerless image put
      only the signature. */
  lemma HeaderlessLeading(dir: map<Artifact, seq<bv8>>, s: seq<bv8>, k: nat)
    requires Hdr !in dir && InfoBase(dir) + MarkerOff + |Marker| <= |s| && k < InfoBase(dir) + MarkerOff
    ensures LeadingWrites(dir, s)[k] == if k < |FileOr(dir, Sig)| then dir[Sig][k] else s[k]
  {
    if Sig in dir {
      var sig := dir[Sig];
      var withSig := Splice(s, 0, sig);
      SpliceAt(withSig, InfoBase(dir) + MarkerOff, Marker, k);
      if k < |sig| {
        SpliceIn(s, 0, sig, k);
      } else {
        SpliceAt(s, 0, sig, k);
      }
    }
  }

  /** Before the kernel size field, the info-block writes put only the
      cmdline. */
  lemma InfoBeforeSizes(dir: map<Artifact, seq<bv8>>, s: seq<bv8>, k: nat)
    requires HasRequired(dir) && Admissible(dir) && InfoBase(dir) + InfoLen <= |s|
    requires k < InfoBase(dir) + KernelSizeOff
    ensures var base := InfoBase(dir);
      InfoWrites(dir, s)[k] == if base <= k < base + |dir[Cmdline]| then dir[Cmdline][k - base] else s[k]
  {
    var base := InfoBase(dir);
    var w1 := Splice(s, base, dir[Cmdline]);
    var w2 := Splice(w1, base + KernelSizeOff, U32Le(|dir[Kernel]|));
    var w3 := Splice(w2, base + RamdiskSizeOff, U32Le(|dir[Ramdisk]|));
    InfoWritesInOrder(dir, s);
    if base <= k < base + |dir[Cmdline]| {
      SpliceIn(s, base, dir[Cmdline], k);
    } else {
      SpliceAt(s, base, dir[Cmdline], k);
    }
    SpliceAt(w1, base + KernelSizeOff, U32Le(|dir[Kernel]|), k);
    SpliceAt(w2, base + RamdiskSizeOff, U32Le(|dir[Ramdisk]|), k);
    SpliceAt(w3, base + ParameterOff, dir[Parameter], k);
  }

  /** The payload and padding writes leave the bytes before the bootstub
      alone. */
  lemma BackMissesFront(dir: map<Artifact, seq<bv8>>, s: seq<bv8>, k: nat)
    requires HasRequired(dir) && ImageSize(dir) <= |s| && k < InfoBase(dir) + InfoLen
    ensures PadWrites(dir, PayloadWrites(dir, s))[k] == s[k]
  {
    var at := InfoBase(dir) + InfoLen;
    var p1 := Splice(s, at, dir[Bootstub]);
    var p2 := Splice(p1, at + |dir[Bootstub]|, dir[Kernel]);
    PayloadWritesInOrder(dir, s);
    SpliceAt(s, at, dir[Bootstub], k);
    SpliceAt(p1, at + |dir[Bootstub]|, dir[Kernel], k);
    SpliceAt(p2, at + |dir[Bootstub]| + |dir[Kernel]|, dir[Ramdisk], k);
    var payloads := PayloadWrites(dir, s);
    SpliceAt(payloads, ImageSize(dir), Repeat(0xFF, |payloads| - ImageSize(dir)), k);
  }

  /** Without a header, `pack` writes none of the header fields: each of
      the first 56 bytes holds the signature byte, the cmdline byte or the
      buffer's own byte that lies there. */
  lemma HeaderlessKeepsHeaderSpan(dir: map<Artifact, seq<bv8>>, s0: seq<bv8>, k: nat)
    requires HasRequired(dir) && Admissible(dir) && |s0| == ImageSize(dir) + Padding(ImageSize(dir))
    requires Hdr !in dir && k < ChecksumSpan
    ensures var sig := FileOr(dir, Sig);
      PackWrites(dir, s0)[k] ==
        if k < |sig| then sig[k]
        else if k < |sig| + |dir[Cmdline]| then dir[Cmdline][k - |sig|]
        else s0[k]
  {
    var lead := LeadingWrites(dir, s0);
    HeaderlessLeading(dir, s0, k);
    InfoBeforeSizes(dir, lead, k);
    BackMissesFront(dir, InfoWrites(dir, lead), k);
  }

  /** memcpy(buf + off, src, |src|). */
  method CopyInto(buf: array<bv8>, off: nat, src: seq<bv8>)
    requires off + |src| <= buf.Length
    modifies buf
    ensures buf[..] == Splice(old(buf[..]), off, src)
  {
    forall i | 0 <= i < |src| {
      buf[off + i] := src[i];
    }
    assert buf[..] == old(buf[..])[..off] + src + old(buf[..])[off + |src|..];
  }

  /** memset(buf + off, v, n). */
  method Fill(buf: array<bv8>, off: nat, n: nat, v: bv8)
    requires off + n <= buf.Length
    modifies buf
    ensures buf[..] == Splice(old(buf[..]), off, Repeat(v, n))
  {
    forall k | off <= k < off + n {
      buf[k] := v;
    }
    assert buf[..] == old(buf[..])[..off] + Repeat(v, n) + old(buf[..])[off + n..];
  }

  /** The XOR loop over a 56-byte copy of the header whose byte 7 is zeroed. */
  method ComputeChecksum(buf: array<bv8>) returns (x: bv8)
    requires ChecksumSpan <= buf.Length
    ensures x == HeaderChecksum(buf[..])
  {
    var copy := buf[..ChecksumSpan][ChecksumOff := 0];
    x := 0;
    for i := 0 to ChecksumSpan
      invariant x == Xor(copy[..i])
    {
      assert copy[..i + 1][..i] == copy[..i];
      x := x ^ copy[i];
    }
    assert copy[..ChecksumSpan] == copy;
  }

  /** memcpy of the header artifact, when there is one, to offset 0. */
  method PlaceHeader(buf: array<bv8>, dir: map<Artifact, seq<bv8>>)
    requires |FileOr(dir, Hdr)| <= buf.Length
    modifies buf
    ensures buf[..] == HeaderWrites(dir, old(buf[..]))
  {
    if Hdr in dir {
      CopyInto(buf, 0, dir[Hdr]);
    }
  }

  /** The signature after the header, then the signed-image marker in the
      info block that follows it. */
  method PlaceSignature(buf: array<bv8>, hdrLen: nat, sig: seq<bv8>)
    requires hdrLen + |sig| + MarkerOff + |Marker| <= buf.Length
    modifies buf
    ensures buf[..] == Splice(Splice(old(buf[..]), hdrLen, sig), hdrLen + |sig| + MarkerOff, Marker)
  {
    CopyInto(buf, hdrLen, sig);
    CopyInto(buf, hdrLen + |sig| + MarkerOff, Marker);
  }

  /** The image type of an unsigned image, read back from the buffer and
      stored again plus one, wrapping at 2^32. */
  method BumpImageType(buf: array<bv8>)
    requires ChecksumSpan <= buf.Length
    modifies buf
    ensures buf[..] == Splice(old(buf[..]), ImageTypeOff,
                              U32Le((LeU32(old(buf[..])[ImageTypeOff..ImageTypeOff + 4]) + 1) % U32Limit))
  {
    var imgtype := (LeU32(buf[ImageTypeOff..ImageTypeOff + 4]) + 1) % U32Limit;
    CopyInto(buf, ImageTypeOff, U32Le(imgtype));
  }

  /** Signature and signed-image marker, or else the image-type increment
      of a header without signature. */
  method PlaceMarks(buf: array<bv8>, dir: map<Artifact, seq<bv8>>)
    requires InfoBase(dir) + MarkerOff + |Marker| <= buf.Length
    modifies buf
    ensures buf[..] == MarkWrites(dir, old(buf[..]))
  {
    if Sig in dir {
      PlaceSignature(buf, |FileOr(dir, Hdr)|, dir[Sig]);
    } else if Hdr in dir {
      BumpImageType(buf);
    }
  }

  /** Header, then the marks of a signed or unsigned image. */
  method PlaceLeading(buf: array<bv8>, dir: map<Artifact, seq<bv8>>)
    requires InfoBase(dir) + MarkerOff + |Marker| <= buf.Length
    modifies buf
    ensures buf[..] == LeadingWrites(dir, old(buf[..]))
  {
    PlaceHeader(buf, dir);
    PlaceMarks(buf, dir);
  }

  /** The info block: cmdline, kernel size, ramdisk size, parameter. */
  method PlaceInfo(buf: array<bv8>, dir: map<Artifact, seq<bv8>>)
    requires HasRequired(dir) && Admissible(dir) && InfoBase(dir) + InfoLen <= buf.Length
    modifies buf
    ensures buf[..] == InfoWrites(dir, old(buf[..]))
  {
    var base := InfoBase(dir);
    InfoWritesInOrder(dir, buf[..]);
    CopyInto(buf, base, dir[Cmdline]);
    CopyInto(buf, base + KernelSizeOff, U32Le(|dir[Kernel]|));
    CopyInto(buf, base + RamdiskSizeOff, U32Le(|dir[Ramdisk]|));
    CopyInto(buf, base + ParameterOff, dir[Parameter]);
  }

  /** Bootstub, kernel and ramdisk back to back after the info block. */
  method PlacePayloads(buf: array<bv8>, dir: map<Artifact, seq<bv8>>)
    requires HasRequired(dir) && ImageSize(dir) <= buf.Length
    modifies buf
    ensures buf[..] == PayloadWrites(dir, old(buf[..]))
  {
    var at := InfoBase(dir) + InfoLen;
    PayloadWritesInOrder(dir, buf[..]);
    CopyInto(buf, at, dir[Bootstub]);
    CopyInto(buf, at + |dir[Bootstub]|, dir[Kernel]);
    CopyInto(buf, at + |dir[Bootstub]| + |dir[Kernel]|, dir[Ramdisk]);
  }

  /** memset of 0xFF from the image size to the end of the buffer. */
  method PlacePadding(buf: array<bv8>, dir: map<Artifact, seq<bv8>>)
    requires HasRequired(dir) && ImageSize(dir) <= buf.Length
    modifies buf
    ensures buf[..] == PadWrites(dir, old(buf[..]))
  {
    Fill(buf, ImageSize(dir), buf.Length - ImageSize(dir), 0xFF);
  }

  /** The sector count at byte 48, then the checksum at byte 7. */
  method FixHeader(buf: array<bv8>)
    requires SectorLen <= buf.Length && buf.Length / SectorLen - 1 < U32Limit
    modifies buf
    ensures buf[..] == HeaderFixWrites(old(buf[..]))
  {
    var sectors := buf.Length / SectorLen - 1;
    CopyInto(buf, SectorCountOff, U32Le(sectors));
    var x := ComputeChecksum(buf);
    buf[ChecksumOff] := x;
  }

  /** The image for a directory holding every required artifact: a buffer
      of the padded size with uninitialised contents, every write of the
      source in order, then the header fix-up when there is a header. */
  method Assemble(dir: map<Artifact, seq<bv8>>) returns (image: seq<bv8>)
    requires HasRequired(dir) && Admissible(dir)
    ensures PackedImage(dir, image)
  {
    var imgSize := ImageSize(dir);
    var buf := new bv8[imgSize + Padding(imgSize)];
    ghost var s0 := buf[..];
    PlaceLeading(buf, dir);
    PlaceInfo(buf, dir);
    PlacePayloads(buf, dir);
    PlacePadding(buf, dir);
    ghost var laid := buf[..];
    if Hdr in dir {
      FixHeader(buf);
    }
    image := buf[..];
    PackWritesInOrder(dir, s0, laid, image);
  }

  /** pack(): fail on the first missing required artifact, before any
      buffer exists; otherwise assemble the padded image. */
  method Pack(dir: map<Artifact, seq<bv8>>) returns (r: PackResult)
    requires HasRequired(dir) ==> Admissible(dir)
    ensures r.MissingArtifact? <==> !HasRequired(dir)
    ensures r.MissingArtifact? ==> FirstMissing(dir, r.name)
    ensures r.Image? ==> HasRequired(dir) && PackedImage(dir, r.bytes)
  {
    var i := 0;
    while i < |Required|
      invariant 0 <= i <= |Required|
      invariant forall j :: 0 <= j < i ==> Required[j] in dir
    {
      if Required[i] !in dir {
        return MissingArtifact(Required[i]);
      }
      i := i + 1;
    }
    assert HasRequired(dir) by {
      assert Required[0] == Cmdline && Required[1] == Parameter && Required[2] == Bootstub;
      assert Required[3] == Kernel && Required[4] == Ramdisk;
    }
    var image := Assemble(dir);
    r := Image(image);
  }
}
