/** The segment catalogue of an Intel Android boot image and the layout that
    `unpack` infers from an image's bytes.

    In stream order: an optional 512-byte header, an optional signature, a
    4096-byte info block (cmdline, kernel size, ramdisk size, parameter), a
    4096- or 8192-byte bootstub, the kernel, the ramdisk, and padding to a
    512-byte sector. */
module Layout {
  import opened Bytes
  import opened Probe

  const HeaderLen: nat := 512
  /** The seeks of the signature probe loop, and their running sums. */
  const SigDeltas: seq<nat> := [0, 480, 248, 296]
  const SigCandidates: seq<nat> := [0, 480, 728, 1024]
  const SigMax: nat := 1024

  const InfoLen: nat := 4096
  const CmdlineLen: nat := 1024
  const KernelSizeOff: nat := 1024
  const RamdiskSizeOff: nat := 1028
  const ParameterOff: nat := 1032
  const ParameterLen: nat := 8
  /** The signed-image marker sits 1024 + 16 bytes into the info block. */
  const MarkerOff: nat := 1040
  const Marker: seq<bv8> := [0xBD, 0x02, 0xBD, 0x02, 0xBD, 0x12, 0xBD, 0x12]
  /** The bytes of the info block after the two size fields and the parameter. */
  const InfoTail: nat := 3072 - 16

  const BootstubStep: nat := 4096

  const KernelMin: nat := 500000
  const KernelMax: nat := 15000000
  const RamdiskMin: nat := 10000
  const RamdiskMax: nat := 300000000

  const SectorLen: nat := 512
  const ChecksumOff: nat := 7
  const SectorCountOff: nat := 48
  const ImageTypeOff: nat := 52
  const ChecksumSpan: nat := 56

  predicate KernelInRange(n: nat) { KernelMin <= n <= KernelMax }
  predicate RamdiskInRange(n: nat) { RamdiskMin <= n <= RamdiskMax }

  /** Each signature candidate is the previous one plus the next seek. */
  lemma CandidatesAccumulate(i: nat)
    requires i < |SigDeltas|
    ensures SigCandidates[i] == (if i == 0 then 0 else SigCandidates[i - 1]) + SigDeltas[i]
  {
  }

  /** The header is present (512 bytes) iff the 4-byte probe at offset 0
      says the start does NOT look textual. */
  function HeaderSize(img: seq<bv8>, isalnum: bv8 -> int): (n: nat)
    requires 4 <= |img|
    ensures n == 0 || n == HeaderLen
    ensures n == HeaderLen <==> !ProbeAt(img, 0, 4, 1, isalnum)
  {
    if ProbeAt(img, 0, 4, 1, isalnum) then 0 else HeaderLen
  }

  /** Every window the signature loop probes from candidate j on lies inside
      the image: the loop moves on to the next candidate only when the
      current probe does not fire. */
  predicate SigReach(img: seq<bv8>, hdr: nat, j: nat, isalnum: bv8 -> int)
    decreases |SigCandidates| - j
  {
    && j < |SigCandidates| && hdr + SigCandidates[j] + 4 <= |img|
    && (j < |SigCandidates| - 1 && !ProbeAt(img, hdr + SigCandidates[j], 4, 1, isalnum) ==>
          SigReach(img, hdr, j + 1, isalnum))
  }

  /** The signature size found by probing from candidate j onwards: the
      first candidate whose probe fires, or the last candidate (1024) when
      none before it fires. The window probed at the end of the signature
      lies inside the image. */
  function SigFrom(img: seq<bv8>, hdr: nat, j: nat, isalnum: bv8 -> int): (n: nat)
    requires SigReach(img, hdr, j, isalnum)
    ensures n in {0, 480, 728, 1024} && SigCandidates[j] <= n && hdr + n + 4 <= |img|
    ensures forall k :: j <= k < |SigCandidates| - 1 && SigCandidates[k] < n ==>
      !ProbeAt(img, hdr + SigCandidates[k], 4, 1, isalnum)
    ensures n < SigMax ==> ProbeAt(img, hdr + n, 4, 1, isalnum)
    decreases |SigCandidates| - j
  {
    if j == |SigCandidates| - 1 || ProbeAt(img, hdr + SigCandidates[j], 4, 1, isalnum) then
      SigCandidates[j]
    else
      SigFrom(img, hdr, j + 1, isalnum)
  }

  function SigSize(img: seq<bv8>, hdr: nat, isalnum: bv8 -> int): nat
    requires SigReach(img, hdr, 0, isalnum)
  {
    SigFrom(img, hdr, 0, isalnum)
  }

  /** The bootstub is 8192 bytes iff the 2-byte probe 8192 bytes past the
      start of the info block fires, and 4096 bytes otherwise. */
  function BootstubSize(img: seq<bv8>, base: nat, isalnum: bv8 -> int): (n: nat)
    requires base + InfoLen + BootstubStep + 2 <= |img|
    ensures n == BootstubStep || n == 2 * BootstubStep
    ensures n == 2 * BootstubStep <==> ProbeAt(img, base + InfoLen + BootstubStep, 2, 0, isalnum)
  {
    if ProbeAt(img, base + InfoLen + BootstubStep, 2, 0, isalnum) then 2 * BootstubStep else BootstubStep
  }

  /** The sizes `unpack` settles on; offsets are derived from them. */
  datatype Plan = Plan(hdr: nat, sig: nat, bootstub: nat, kernelField: nat, ramdiskField: nat)
  {
    /** Start of the info block (cmdline). */
    function Base(): nat { hdr + sig }
    function BootstubStart(): nat { Base() + InfoLen }
    function KernelStart(): nat { BootstubStart() + bootstub }
    function RamdiskStart(): nat { KernelStart() + kernelField }
    /** One past the last byte `unpack` reads on its path. */
    function Extent(): nat
    {
      if !KernelInRange(kernelField) then KernelStart()
      else if !RamdiskInRange(ramdiskField) then RamdiskStart()
      else RamdiskStart() + ramdiskField
    }
  }

  /** The image holds every window `unpack` probes for the header and the
      signature, and the header and signature it reads. */
  predicate LeadingReadable(img: seq<bv8>, isalnum: bv8 -> int)
  {
    4 <= |img| && SigReach(img, HeaderSize(img, isalnum), 0, isalnum)
  }

  /** The image also holds the info block and the bootstub probe window
      8192 bytes into it: everything `unpack` reads before the size checks. */
  predicate PlanReadable(img: seq<bv8>, isalnum: bv8 -> int)
  {
    && LeadingReadable(img, isalnum)
    && var hdr := HeaderSize(img, isalnum);
       hdr + SigSize(img, hdr, isalnum) + InfoLen + BootstubStep + 2 <= |img|
  }

  /** The layout inferred from an image. */
  function PlanOf(img: seq<bv8>, isalnum: bv8 -> int): (p: Plan)
    requires PlanReadable(img, isalnum)
    ensures p.hdr == 0 || p.hdr == HeaderLen
    ensures p.sig in {0, 480, 728, 1024}
    ensures p.bootstub == BootstubStep || p.bootstub == 2 * BootstubStep
    ensures p.Base() + InfoLen + BootstubStep + 2 <= |img|
    ensures p.kernelField < U32Limit && p.ramdiskField < U32Limit
  {
    var hdr := HeaderSize(img, isalnum);
    var sig := SigSize(img, hdr, isalnum);
    var base := hdr + sig;
    Plan(hdr, sig, BootstubSize(img, base, isalnum),
         LeU32(img[base + KernelSizeOff..base + KernelSizeOff + 4]),
         LeU32(img[base + RamdiskSizeOff..base + RamdiskSizeOff + 4]))
  }

  /** The image holds every byte `unpack` reads on the path it takes
      through this image (short reads are not modelled). */
  predicate Readable(img: seq<bv8>, isalnum: bv8 -> int)
  {
    PlanReadable(img, isalnum) && PlanOf(img, isalnum).Extent() <= |img|
  }

  /** The named artifact files of the working directory. */
  datatype Artifact = Hdr | Sig | Cmdline | Parameter | Bootstub | Kernel | Ramdisk
  {
    function FileName(): string
    {
      match this
      case Hdr => "hdr"
      case Sig => "sig"
      case Cmdline => "cmdline.txt"
      case Parameter => "parameter"
      case Bootstub => "bootstub"
      case Kernel => "kernel"
      case Ramdisk => "ramdisk.cpio.gz"
    }
  }

  /** What `unpack` leaves behind: the artifact files it wrote, by name, and
      its return value. */
  datatype Unpacked = Unpacked(files: map<Artifact, seq<bv8>>, status: int)

  /** The artifacts written before the size checks: the header and the
      signature when the plan has them, then cmdline, parameter and bootstub. */
  function Carved(img: seq<bv8>, p: Plan): map<Artifact, seq<bv8>>
    requires p.KernelStart() <= |img|
  {
    var base := p.Base();
    Leading(img, p.hdr, p.sig)[Cmdline := CString(img[base..base + CmdlineLen])]
                   [Parameter := img[base + ParameterOff..base + ParameterOff + ParameterLen]]
                   [Bootstub := img[p.BootstubStart()..p.KernelStart()]]
  }

  /** The header and signature artifacts, each written only when present. */
  function Leading(img: seq<bv8>, hdr: nat, sig: nat): map<Artifact, seq<bv8>>
    requires hdr + sig <= |img|
  {
    var none: map<Artifact, seq<bv8>> := map[];
    var withHdr := if hdr > 0 then none[Hdr := img[..hdr]] else none;
    if sig > 0 then withHdr[Sig := img[hdr..hdr + sig]] else withHdr
  }

  /** The artifacts carved from an image along a plan whose reads all fall
      inside the image; the kernel and ramdisk sizes are checked in that
      order and the first failure ends the run with status 1. */
  function SplitWith(img: seq<bv8>, p: Plan): (u: Unpacked)
    requires p.Base() + InfoLen <= p.Extent() <= |img|
  {
    var info := Carved(img, p);
    if !KernelInRange(p.kernelField) then
      Unpacked(info, 1)
    else
      var withKernel := info[Kernel := img[p.KernelStart()..p.RamdiskStart()]];
      if !RamdiskInRange(p.ramdiskField) then
        Unpacked(withKernel, 1)
      else
        Unpacked(withKernel[Ramdisk := img[p.RamdiskStart()..p.RamdiskStart() + p.ramdiskField]], 0)
  }

  /** The specification of `unpack`: the artifacts along the inferred plan. */
  function Split(img: seq<bv8>, isalnum: bv8 -> int): Unpacked
    requires Readable(img, isalnum)
  {
    SplitWith(img, PlanOf(img, isalnum))
  }

  /** The artifact of a given name, or nothing when it was not written. */
  function FileOr(files: map<Artifact, seq<bv8>>, name: Artifact): seq<bv8>
  {
    if name in files then files[name] else []
  }

  /** Which artifacts `unpack` writes and how the status follows the two
      size checks: cmdline, parameter and bootstub always; the header and
      signature when found; the kernel iff its size is in range; the ramdisk
      iff both sizes are, which is exactly when the status is 0. */
  lemma SplitArtifacts(img: seq<bv8>, p: Plan)
    requires p.Base() + InfoLen <= p.Extent() <= |img|
    ensures var u := SplitWith(img, p);
      && (u.status == 0 || u.status == 1)
      && (u.status == 0 <==> KernelInRange(p.kernelField) && RamdiskInRange(p.ramdiskField))
      && (Hdr in u.files <==> p.hdr > 0)
      && (Sig in u.files <==> p.sig > 0)
      && Cmdline in u.files && Parameter in u.files && Bootstub in u.files
      && (Kernel in u.files <==> KernelInRange(p.kernelField))
      && (Ramdisk in u.files <==> u.status == 0)
      && |FileOr(u.files, Hdr)| == p.hdr
      && |FileOr(u.files, Sig)| == p.sig
      && |u.files[Parameter]| == ParameterLen
      && |u.files[Bootstub]| == p.bootstub
      && (Kernel in u.files ==> |u.files[Kernel]| == p.kernelField)
      && (Ramdisk in u.files ==> |u.files[Ramdisk]| == p.ramdiskField)
  {
  }

  /** On success the artifacts tile the image: header, signature, the
      4096-byte info block, bootstub, kernel and ramdisk are contiguous, in
      that order, and cover every byte up to the end of the ramdisk. The info
      block carries the two lengths as little-endian uint32 fields, the
      parameter, and the cmdline as its leading C string. */
  lemma {:induction false} SplitTilesImage(img: seq<bv8>, isalnum: bv8 -> int)
    requires Readable(img, isalnum)
    requires Split(img, isalnum).status == 0
    ensures var u, p := Split(img, isalnum), PlanOf(img, isalnum);
      var info := img[p.Base()..p.Base() + InfoLen];
      && FileOr(u.files, Hdr) + FileOr(u.files, Sig) + info + u.files[Bootstub]
           + u.files[Kernel] + u.files[Ramdisk] == img[..p.Extent()]
      && info[KernelSizeOff..KernelSizeOff + 4] == U32Le(|u.files[Kernel]|)
      && info[RamdiskSizeOff..RamdiskSizeOff + 4] == U32Le(|u.files[Ramdisk]|)
      && info[ParameterOff..ParameterOff + ParameterLen] == u.files[Parameter]
      && u.files[Cmdline] == CString(info[..CmdlineLen])
  {
    var p := PlanOf(img, isalnum);
    TilesAlong(img, p);
  }

  /** `SplitTilesImage` along any plan whose size fields are the ones the
      info block holds. */
  lemma TilesAlong(img: seq<bv8>, p: Plan)
    requires p.Base() + InfoLen <= p.Extent() <= |img| && SplitWith(img, p).status == 0
    requires p.kernelField == LeU32(img[p.Base() + KernelSizeOff..p.Base() + KernelSizeOff + 4])
    requires p.ramdiskField == LeU32(img[p.Base() + RamdiskSizeOff..p.Base() + RamdiskSizeOff + 4])
    ensures var u := SplitWith(img, p);
      var info := img[p.Base()..p.Base() + InfoLen];
      && FileOr(u.files, Hdr) + FileOr(u.files, Sig) + info + u.files[Bootstub]
           + u.files[Kernel] + u.files[Ramdisk] == img[..p.Extent()]
      && info[KernelSizeOff..KernelSizeOff + 4] == U32Le(|u.files[Kernel]|)
      && info[RamdiskSizeOff..RamdiskSizeOff + 4] == U32Le(|u.files[Ramdisk]|)
      && info[ParameterOff..ParameterOff + ParameterLen] == u.files[Parameter]
      && u.files[Cmdline] == CString(info[..CmdlineLen])
  {
    SplitArtifacts(img, p);
    CarvedContents(img, p);
    assert p.Extent() == p.RamdiskStart() + p.ramdiskField;
    var u := SplitWith(img, p);
    TileCuts(img, p.hdr, p.Base(), p.BootstubStart(), p.KernelStart(), p.RamdiskStart(), p.Extent(),
             FileOr(u.files, Hdr), FileOr(u.files, Sig), img[p.Base()..p.Base() + InfoLen],
             u.files[Bootstub], u.files[Kernel], u.files[Ramdisk]);
    TilesInfo(img, p.Base(), p.kernelField, p.ramdiskField);
  }

  /** Six consecutive slices from the start make up the prefix they reach. */
  lemma TileCuts(img: seq<bv8>, a: nat, b: nat, c: nat, d: nat, e: nat, f: nat,
                 s1: seq<bv8>, s2: seq<bv8>, s3: seq<bv8>, s4: seq<bv8>, s5: seq<bv8>, s6: seq<bv8>)
    requires a <= b <= c <= d <= e <= f <= |img|
    requires s1 == img[..a] && s2 == img[a..b] && s3 == img[b..c] && s4 == img[c..d] && s5 == img[d..e] && s6 == img[e..f]
    ensures s1 + s2 + s3 + s4 + s5 + s6 == img[..f]
  {
    GrowPrefix(img, a, b);
    GrowPrefix(img, b, c);
    GrowPrefix(img, c, d);
    GrowPrefix(img, d, e);
    GrowPrefix(img, e, f);
  }

  /** A prefix followed by the next slice is the longer prefix. */
  lemma GrowPrefix(img: seq<bv8>, i: nat, j: nat)
    requires i <= j <= |img|
    ensures img[..i] + img[i..j] == img[..j]
  {
  }

  /** Where each artifact of a split comes from. */
  lemma CarvedContents(img: seq<bv8>, p: Plan)
    requires p.Base() + InfoLen <= p.Extent() <= |img|
    ensures var u := SplitWith(img, p);
      && FileOr(u.files, Hdr) == img[..p.hdr]
      && FileOr(u.files, Sig) == img[p.hdr..p.Base()]
      && Cmdline in u.files && u.files[Cmdline] == CString(img[p.Base()..p.Base() + CmdlineLen])
      && Parameter in u.files && u.files[Parameter] == img[p.Base() + ParameterOff..p.Base() + ParameterOff + ParameterLen]
      && Bootstub in u.files && u.files[Bootstub] == img[p.BootstubStart()..p.KernelStart()]
      && (Kernel in u.files ==> u.files[Kernel] == img[p.KernelStart()..p.RamdiskStart()])
      && (Ramdisk in u.files ==> u.files[Ramdisk] == img[p.RamdiskStart()..p.Extent()])
  {
    CarvedFiles(img, p);
    SplitKeepsCarved(img, p);
  }

  /** What `unpack` writes before the size checks, artifact by artifact. */
  lemma CarvedFiles(img: seq<bv8>, p: Plan)
    requires p.KernelStart() <= |img|
    ensures var c := Carved(img, p);
      && FileOr(c, Hdr) == img[..p.hdr]
      && FileOr(c, Sig) == img[p.hdr..p.Base()]
      && Cmdline in c && c[Cmdline] == CString(img[p.Base()..p.Base() + CmdlineLen])
      && Parameter in c && c[Parameter] == img[p.Base() + ParameterOff..p.Base() + ParameterOff + ParameterLen]
      && Bootstub in c && c[Bootstub] == img[p.BootstubStart()..p.KernelStart()]
  {
    LeadingContents(img, p.hdr, p.sig);
  }

  /** The size checks only ever add the kernel and the ramdisk to what was
      carved before them. */
  lemma SplitKeepsCarved(img: seq<bv8>, p: Plan)
    requires p.Base() + InfoLen <= p.Extent() <= |img|
    ensures var u, c := SplitWith(img, p), Carved(img, p);
      && FileOr(u.files, Hdr) == FileOr(c, Hdr) && FileOr(u.files, Sig) == FileOr(c, Sig)
      && FileOr(u.files, Cmdline) == FileOr(c, Cmdline) && FileOr(u.files, Parameter) == FileOr(c, Parameter)
      && FileOr(u.files, Bootstub) == FileOr(c, Bootstub)
      && (Kernel in u.files ==> u.files[Kernel] == img[p.KernelStart()..p.RamdiskStart()])
      && (Ramdisk in u.files ==> u.files[Ramdisk] == img[p.RamdiskStart()..p.Extent()])
  {
    LeadingContents(img, p.hdr, p.sig);
  }

  /** The header and signature artifacts hold the bytes they were cut from,
      and nothing else is written with them. */
  lemma LeadingContents(img: seq<bv8>, hdr: nat, sig: nat)
    requires hdr + sig <= |img|
    ensures var lead := Leading(img, hdr, sig);
      && FileOr(lead, Hdr) == img[..hdr] && FileOr(lead, Sig) == img[hdr..hdr + sig]
      && lead.Keys <= {Hdr, Sig}
  {
  }

  lemma SliceOfSlice(s: seq<bv8>, lo: nat, hi: nat, i: nat, j: nat)
    requires lo <= hi <= |s| && i <= j <= hi - lo
    ensures s[lo..hi][i..j] == s[lo + i..lo + j]
  {
    var a, b := s[lo..hi][i..j], s[lo + i..lo + j];
    assert |a| == |b|;
    forall k | 0 <= k < |a|
      ensures a[k] == b[k]
    {
      assert a[k] == s[lo..hi][i + k] == s[lo + i + k];
    }
  }

  /** The fields of the info block, read off the block itself. */
  lemma TilesInfo(img: seq<bv8>, base: nat, kernelField: nat, ramdiskField: nat)
    requires base + InfoLen <= |img|
    requires kernelField == LeU32(img[base + KernelSizeOff..base + KernelSizeOff + 4])
    requires ramdiskField == LeU32(img[base + RamdiskSizeOff..base + RamdiskSizeOff + 4])
    ensures var info := img[base..base + InfoLen];
      && info[KernelSizeOff..KernelSizeOff + 4] == U32Le(kernelField)
      && info[RamdiskSizeOff..RamdiskSizeOff + 4] == U32Le(ramdiskField)
      && info[ParameterOff..ParameterOff + ParameterLen] == img[base + ParameterOff..base + ParameterOff + ParameterLen]
      && info[..CmdlineLen] == img[base..base + CmdlineLen]
  {
    SliceOfSlice(img, base, base + InfoLen, KernelSizeOff, KernelSizeOff + 4);
    SliceOfSlice(img, base, base + InfoLen, RamdiskSizeOff, RamdiskSizeOff + 4);
    SliceOfSlice(img, base, base + InfoLen, ParameterOff, ParameterOff + ParameterLen);
    SliceOfSlice(img, base, base + InfoLen, 0, CmdlineLen);
    U32LeOfLeU32(img[base + KernelSizeOff..base + KernelSizeOff + 4]);
    U32LeOfLeU32(img[base + RamdiskSizeOff..base + RamdiskSizeOff + 4]);
  }

  /** With an isalnum that answers 0 or at least 4 (as a C library that
      returns a flag bit such as 8 does), no probe of `unpack` can fire: the
      header is always taken, the signature is always 1024 bytes and the
      bootstub always 4096 bytes, whatever the image holds. */
  lemma {:induction false} WideAlnumFixesLayout(img: seq<bv8>, isalnum: bv8 -> int)
    requires PlanReadable(img, isalnum)
    requires forall b: bv8 :: isalnum(b) == 0 || isalnum(b) >= 4
    ensures var p := PlanOf(img, isalnum);
      p.hdr == HeaderLen && p.sig == SigMax && p.bootstub == BootstubStep
  {
    ProbeSilentForWideAlnum(img[0..4], 1, isalnum);
    var hdr := HeaderSize(img, isalnum);
    SilentSignature(img, hdr, 0, isalnum);
    var sig := SigSize(img, hdr, isalnum);
    var at := hdr + sig + InfoLen + BootstubStep;
    ProbeSilentForWideAlnum(img[at..at + 2], 0, isalnum);
  }

  /** With such an isalnum the signature loop runs to its last candidate. */
  lemma {:induction false} SilentSignature(img: seq<bv8>, hdr: nat, j: nat, isalnum: bv8 -> int)
    requires SigReach(img, hdr, j, isalnum)
    requires forall b: bv8 :: isalnum(b) == 0 || isalnum(b) >= 4
    ensures SigFrom(img, hdr, j, isalnum) == SigMax
    decreases |SigCandidates| - j
  {
    if j < |SigCandidates| - 1 {
      var at := hdr + SigCandidates[j];
      ProbeSilentForWideAlnum(img[at..at + 4], 1, isalnum);
      SilentSignature(img, hdr, j + 1, isalnum);
    }
  }

  /** The first signature candidate is offset 0, so the signature loop's
      first probe looks at the very window the header probe looked at: an
      image found to have no header is never found to have a signature. */
  lemma HeaderlessUnsigned(img: seq<bv8>, isalnum: bv8 -> int)
    requires LeadingReadable(img, isalnum)
    ensures HeaderSize(img, isalnum) == 0 ==> SigSize(img, 0, isalnum) == 0
  {
  }

  /** An image whose first four bytes look textual is read from offset 0
      on, with no header and no signature; when its kernel size field is out
      of range `unpack` stops after the bootstub, so the image need hold no
      more than the info block and the bootstub. */
  lemma TextualStartStopsEarly(img: seq<bv8>, isalnum: bv8 -> int)
    requires InfoLen + BootstubStep + 2 <= |img| && ProbeAt(img, 0, 4, 1, isalnum)
    requires InfoLen + BootstubSize(img, 0, isalnum) <= |img|
    requires !KernelInRange(LeU32(img[KernelSizeOff..KernelSizeOff + 4]))
    ensures Readable(img, isalnum)
    ensures var p := PlanOf(img, isalnum);
      p.hdr == 0 && p.sig == 0 && p.Extent() == InfoLen + p.bootstub && Split(img, isalnum).status == 1
  {
  }
}
