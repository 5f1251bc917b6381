/** `unpack`: one pass of a file cursor over the boot image, probing for the
    header, the signature and the bootstub size, then carving out each region
    and writing it as an artifact. */
module Unpack {
  import opened Bytes
  import opened Stream
  import opened Probe
  import opened Layout

  /** The header probe: when the first four bytes do not look textual the
      512-byte header is read (and returned), otherwise nothing is. */
  method ReadHeader(f: ImageFile, isalnum: bv8 -> int) returns (hdr: seq<bv8>)
    requires f.pos == 0 && LeadingReadable(f.bytes, isalnum)
    modifies f
    ensures |hdr| == HeaderSize(f.bytes, isalnum) && hdr == f.bytes[..|hdr|]
    ensures f.pos == |hdr|
  {
    var textual := CheckByte(f, 4, 1, isalnum);
    hdr := [];
    if !textual {
      hdr := f.Read(HeaderLen);
    }
  }

  /** The signature probe loop: seek by each delta in turn and stop at the
      first position whose probe fires; the cursor ends at the end of the
      signature. */
  method SkipSignature(f: ImageFile, hdrSize: nat, isalnum: bv8 -> int)
    requires f.pos == hdrSize && SigReach(f.bytes, hdrSize, 0, isalnum)
    modifies f
    ensures f.pos == hdrSize + SigSize(f.bytes, hdrSize, isalnum)
  {
    var i := 0;
    while i < |SigDeltas|
      invariant 0 <= i <= |SigDeltas|
      invariant f.pos == hdrSize + (if i == 0 then 0 else SigCandidates[i - 1])
      invariant i < |SigDeltas| ==> SigReach(f.bytes, hdrSize, i, isalnum)
      invariant i < |SigDeltas| ==> SigFrom(f.bytes, hdrSize, i, isalnum) == SigSize(f.bytes, hdrSize, isalnum)
      invariant i == |SigDeltas| ==> SigSize(f.bytes, hdrSize, isalnum) == SigMax
    {
      CandidatesAccumulate(i);
      f.Seek(SigDeltas[i]);
      var hit := CheckByte(f, 4, 1, isalnum);
      if hit {
        break;
      }
      i := i + 1;
    }
  }

  /** The bootstub probe: 4096 bytes past the end of the info block, a
      2-byte probe decides between 4096 and 8192 bytes; the size is taken
      from the cursor and the cursor is sent back to the bootstub's start. */
  method SizeBootstub(f: ImageFile, base: nat, isalnum: bv8 -> int) returns (size: nat)
    requires f.pos == base + InfoLen && base + InfoLen + BootstubStep + 2 <= |f.bytes|
    modifies f
    ensures size == BootstubSize(f.bytes, base, isalnum)
    ensures f.pos == base + InfoLen
  {
    f.Seek(BootstubStep);
    var large := CheckByte(f, 2, 0, isalnum);
    if large {
      f.Seek(BootstubStep);
    }
    size := f.pos - base - InfoLen;
    f.Seek(-(size as int));
  }

  /** The header and signature: probe, read what is present, and leave the
      cursor at the start of the info block. */
  method ReadLeading(f: ImageFile, isalnum: bv8 -> int) returns (files: map<Artifact, seq<bv8>>, hdrSize: nat, sigSize: nat)
    requires f.pos == 0 && LeadingReadable(f.bytes, isalnum)
    modifies f
    ensures hdrSize == HeaderSize(f.bytes, isalnum) && sigSize == SigSize(f.bytes, hdrSize, isalnum)
    ensures f.pos == hdrSize + sigSize
    ensures files == Leading(f.bytes, hdrSize, sigSize)
  {
    files := map[];
    var hdr := ReadHeader(f, isalnum);
    if |hdr| > 0 {
      files := files[Hdr := hdr];
    }
    hdrSize := f.pos;

    SkipSignature(f, hdrSize, isalnum);
    sigSize := f.pos - hdrSize;
    if sigSize > 0 {
      f.Seek(-(sigSize as int));
      var sig := f.Read(sigSize);
      files := files[Sig := sig];
    }
  }

  /** The 4096-byte info block (cmdline, the two size fields, parameter,
      padding) and the bootstub after it; the size fields are returned
      undecoded, as read. */
  method ReadInfo(f: ImageFile, files: map<Artifact, seq<bv8>>, base: nat, isalnum: bv8 -> int)
    returns (files': map<Artifact, seq<bv8>>, kernelSizeBuffer: seq<bv8>, ramdiskSizeBuffer: seq<bv8>, bootstubSize: nat)
    requires f.pos == base && base + InfoLen + BootstubStep + 2 <= |f.bytes|
    requires base + InfoLen + BootstubSize(f.bytes, base, isalnum) <= |f.bytes|
    modifies f
    ensures bootstubSize == BootstubSize(f.bytes, base, isalnum)
    ensures kernelSizeBuffer == f.bytes[base + KernelSizeOff..base + KernelSizeOff + 4]
    ensures ramdiskSizeBuffer == f.bytes[base + RamdiskSizeOff..base + RamdiskSizeOff + 4]
    ensures files' == files[Cmdline := CString(f.bytes[base..base + CmdlineLen])]
                           [Parameter := f.bytes[base + ParameterOff..base + ParameterOff + ParameterLen]]
                           [Bootstub := f.bytes[base + InfoLen..base + InfoLen + bootstubSize]]
    ensures f.pos == base + InfoLen + bootstubSize
  {
    var cmdline := f.Read(CmdlineLen);
    files' := files[Cmdline := CString(cmdline)];
    kernelSizeBuffer := f.Read(4);
    ramdiskSizeBuffer := f.Read(4);
    var parameter := f.Read(ParameterLen);
    files' := files'[Parameter := parameter];
    f.Seek(InfoTail);

    bootstubSize := SizeBootstub(f, base, isalnum);
    var bootstub := f.Read(bootstubSize);
    files' := files'[Bootstub := bootstub];
  }

  /** The size checks and the kernel and ramdisk reads that follow the
      bootstub: a size out of range ends `unpack` with status 1 and without
      the artifact. */
  method ReadPayloads(f: ImageFile, files: map<Artifact, seq<bv8>>, kernelSize: nat, ramdiskSize: nat, ghost p: Plan)
    returns (files': map<Artifact, seq<bv8>>, status: int)
    requires kernelSize == p.kernelField && ramdiskSize == p.ramdiskField
    requires p.Base() + InfoLen <= p.Extent() <= |f.bytes|
    requires f.pos == p.KernelStart() && files == Carved(f.bytes, p)
    modifies f
    ensures Unpacked(files', status) == SplitWith(f.bytes, p)
  {
    files' := files;
    if kernelSize < KernelMin || kernelSize > KernelMax {
      return files', 1;
    }
    var kernel := f.Read(kernelSize);
    files' := files'[Kernel := kernel];

    if ramdiskSize < RamdiskMin || ramdiskSize > RamdiskMax {
      return files', 1;
    }
    var ramdisk := f.Read(ramdiskSize);
    files' := files'[Ramdisk := ramdisk];
    status := 0;
  }

  /** Splits `img` into artifact files; the result is the specification
      `Split`, so everything proved of `Split` holds of what this writes. */
  method Unpack(img: seq<bv8>, isalnum: bv8 -> int) returns (files: map<Artifact, seq<bv8>>, status: int)
    requires Readable(img, isalnum)
    ensures Unpacked(files, status) == Split(img, isalnum)
  {
    var f := new ImageFile(img);
    var hdrSize, sigSize;
    files, hdrSize, sigSize := ReadLeading(f, isalnum);
    var kernelSizeBuffer, ramdiskSizeBuffer, bootstubSize;
    files, kernelSizeBuffer, ramdiskSizeBuffer, bootstubSize := ReadInfo(f, files, hdrSize + sigSize, isalnum);

    var kernelSize := LeU32(kernelSizeBuffer);
    var ramdiskSize := LeU32(ramdiskSizeBuffer);
    ghost var p := Plan(hdrSize, sigSize, bootstubSize, kernelSize, ramdiskSize);
    assert p == PlanOf(img, isalnum);
    assert files == Carved(img, p);

    files, status := ReadPayloads(f, files, kernelSize, ramdiskSize, p);
  }
}
