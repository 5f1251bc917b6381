/** `pack` followed by `unpack`: when the probes of `unpack` find the regions
    that `pack` laid down, splitting the packed image gives the artifacts
    back. */
module RoundTrip {
  import opened Bytes
  import opened Layout
  import opened Pack

  /** The three probes of `unpack` settle on the header, signature and
      bootstub lengths of the directory the image was packed from. The probes
      look at content (the isalnum value of single bytes), so this is a
      property of the artifacts and of the C library, not of `pack`. */
  predicate ProbesAgree(dir: map<Artifact, seq<bv8>>, out: seq<bv8>, isalnum: bv8 -> int)
  {
    && PlanReadable(out, isalnum)
    && var p := PlanOf(out, isalnum);
    && Bootstub in dir
    && p.hdr == |FileOr(dir, Hdr)| && p.sig == |FileOr(dir, Sig)| && p.bootstub == |dir[Bootstub]|
  }

  /** The header of a packed image, as `pack` leaves it (see `HeaderFixed`). */
  ghost predicate HeaderAsPacked(dir: map<Artifact, seq<bv8>>, out: seq<bv8>)
  {
    Hdr in dir ==> ChecksumSpan <= |dir[Hdr]| <= |out| && HeaderFixed(dir, out)
  }

  predicate NulFree(text: seq<bv8>)
  {
    forall i :: 0 <= i < |text| ==> text[i] != 0
  }

  /** On a packed image the inferred plan puts the info block where `pack`
      wrote it, reads back the true kernel and ramdisk lengths, and stays
      inside the image. */
  lemma PackedPlan(dir: map<Artifact, seq<bv8>>, out: seq<bv8>, isalnum: bv8 -> int)
    requires HasRequired(dir) && InfoPlaced(dir, out) && PayloadsPlaced(dir, out)
    requires ProbesAgree(dir, out, isalnum)
    ensures var p := PlanOf(out, isalnum);
      && p.Base() == InfoBase(dir) && p.kernelField == |dir[Kernel]| && p.ramdiskField == |dir[Ramdisk]|
      && p.Extent() <= ImageSize(dir)
      && Readable(out, isalnum)
  {
    var p := PlanOf(out, isalnum);
    var base := InfoBase(dir);
    assert out[base + KernelSizeOff..base + KernelSizeOff + 4] == U32Le(|dir[Kernel]|);
    assert out[base + RamdiskSizeOff..base + RamdiskSizeOff + 4] == U32Le(|dir[Ramdisk]|);
  }

  /** The recovered header: the artifact's bytes except the checksum, the
      sector count and the image type; the image type too when the image is
      signed; and a checksum that zeroes the XOR of bytes 0..55. */
  lemma HeaderRecovered(dir: map<Artifact, seq<bv8>>, out: seq<bv8>, h: seq<bv8>)
    requires HeaderAsPacked(dir, out) && |FileOr(dir, Hdr)| <= |out| && h == out[..|FileOr(dir, Hdr)|]
    ensures forall k :: 0 <= k < |h| && k != ChecksumOff && !(SectorCountOff <= k < ChecksumSpan) ==>
      h[k] == FileOr(dir, Hdr)[k]
    ensures Hdr in dir && Sig in dir ==> h[ImageTypeOff..ImageTypeOff + 4] == dir[Hdr][ImageTypeOff..ImageTypeOff + 4]
    ensures Hdr in dir ==> Xor(h[..ChecksumSpan]) == 0
  {
    if Hdr in dir {
      assert h[..ChecksumSpan] == out[..ChecksumSpan];
      assert h[ImageTypeOff..ImageTypeOff + 4] == out[ImageTypeOff..ImageTypeOff + 4];
    }
  }

  /** The cmdline and parameter come back from the info block: as written
      when they fill their slots, and otherwise as the front of what is
      recovered (the rest of each slot is whatever the buffer held). */
  lemma InfoRecovered(dir: map<Artifact, seq<bv8>>, out: seq<bv8>, cmdline: seq<bv8>, parameter: seq<bv8>)
    requires HasRequired(dir) && InfoPlaced(dir, out)
    requires cmdline == CString(out[InfoBase(dir)..InfoBase(dir) + CmdlineLen])
    requires parameter == out[InfoBase(dir) + ParameterOff..InfoBase(dir) + ParameterOff + ParameterLen]
    ensures dir[Parameter] <= parameter
    ensures |dir[Parameter]| == ParameterLen ==> parameter == dir[Parameter]
    ensures NulFree(dir[Cmdline]) ==> dir[Cmdline] <= cmdline
    ensures NulFree(dir[Cmdline]) && |dir[Cmdline]| == CmdlineLen ==> cmdline == dir[Cmdline]
  {
    var base := InfoBase(dir);
    var text := dir[Cmdline];
    assert parameter[..|dir[Parameter]|] == out[base + ParameterOff..base + ParameterOff + |dir[Parameter]|];
    var slot := out[base..base + CmdlineLen];
    var rest := out[base + |text|..base + CmdlineLen];
    assert slot == text + rest by {
      assert slot[..|text|] == out[base..base + |text|];
      assert slot[|text|..] == rest;
      assert slot == slot[..|text|] + slot[|text|..];
    }
    if NulFree(text) {
      CStringKeepsText(text, rest);
      assert cmdline[..|text|] == text;
      if |text| == CmdlineLen {
        assert rest == [];
      }
    }
  }

  /** The plan facts that the recovery lemmas work from. */
  predicate PlanFits(dir: map<Artifact, seq<bv8>>, out: seq<bv8>, p: Plan)
    requires HasRequired(dir)
  {
    && p.hdr == |FileOr(dir, Hdr)| && p.sig == |FileOr(dir, Sig)| && p.bootstub == |dir[Bootstub]|
    && p.kernelField == |dir[Kernel]| && p.ramdiskField == |dir[Ramdisk]|
    && p.Extent() <= |out|
  }

  /** Along a fitting plan the size checks see the true lengths, so they
      decide the status and which of kernel and ramdisk are written. */
  lemma StatusRecovered(dir: map<Artifact, seq<bv8>>, out: seq<bv8>, p: Plan)
    requires HasRequired(dir) && PlanFits(dir, out, p)
    ensures p.Base() + InfoLen <= p.Extent()
    ensures var u := SplitWith(out, p);
      && (u.status == 0 <==> KernelInRange(|dir[Kernel]|) && RamdiskInRange(|dir[Ramdisk]|))
      && (Kernel in u.files <==> KernelInRange(|dir[Kernel]|))
      && (Ramdisk in u.files <==> u.status == 0)
  {
    SplitArtifacts(out, p);
  }

  /** Signature and bootstub come back along a fitting plan. */
  lemma SigBootstubRecovered(dir: map<Artifact, seq<bv8>>, out: seq<bv8>, p: Plan)
    requires HasRequired(dir) && InfoPlaced(dir, out) && PayloadsPlaced(dir, out) && PlanFits(dir, out, p)
    requires p.Base() + InfoLen <= p.Extent()
    ensures var u := SplitWith(out, p);
      && FileOr(u.files, Sig) == FileOr(dir, Sig)
      && Bootstub in u.files && u.files[Bootstub] == dir[Bootstub]
  {
    SplitKeepsCarved(out, p);
    CarvedFiles(out, p);
  }

  /** Kernel and ramdisk, when written, come back along a fitting plan. */
  lemma KernelRamdiskRecovered(dir: map<Artifact, seq<bv8>>, out: seq<bv8>, p: Plan)
    requires HasRequired(dir) && PayloadsPlaced(dir, out) && PlanFits(dir, out, p)
    requires p.Base() + InfoLen <= p.Extent()
    ensures var u := SplitWith(out, p);
      && (Kernel in u.files ==> u.files[Kernel] == dir[Kernel])
      && (Ramdisk in u.files ==> u.files[Ramdisk] == dir[Ramdisk])
  {
    SplitKeepsCarved(out, p);
  }

  /** Header, cmdline and parameter come back along a fitting plan. */
  lemma FrontRecovered(dir: map<Artifact, seq<bv8>>, out: seq<bv8>, p: Plan)
    requires HasRequired(dir) && InfoPlaced(dir, out) && HeaderAsPacked(dir, out) && PlanFits(dir, out, p)
    requires p.Base() + InfoLen <= p.Extent()
    ensures var u := SplitWith(out, p);
      && Parameter in u.files && dir[Parameter] <= u.files[Parameter]
      && (|dir[Parameter]| == ParameterLen ==> u.files[Parameter] == dir[Parameter])
      && Cmdline in u.files && (NulFree(dir[Cmdline]) ==> dir[Cmdline] <= u.files[Cmdline])
      && (Hdr in u.files <==> Hdr in dir)
      && |FileOr(u.files, Hdr)| == |FileOr(dir, Hdr)|
      && (forall k :: 0 <= k < |FileOr(dir, Hdr)| && k != ChecksumOff && !(SectorCountOff <= k < ChecksumSpan) ==>
            FileOr(u.files, Hdr)[k] == FileOr(dir, Hdr)[k])
      && (Hdr in dir && Sig in dir ==>
            FileOr(u.files, Hdr)[ImageTypeOff..ImageTypeOff + 4] == dir[Hdr][ImageTypeOff..ImageTypeOff + 4])
      && (Hdr in dir ==> Xor(FileOr(u.files, Hdr)[..ChecksumSpan]) == 0)
  {
    var u := SplitWith(out, p);
    SplitArtifacts(out, p);
    CarvedContents(out, p);
    HeaderRecovered(dir, out, FileOr(u.files, Hdr));
    InfoRecovered(dir, out, u.files[Cmdline], u.files[Parameter]);
  }

  /** Splitting the output of `pack`, whenever the probes find the regions
      `pack` laid down, gives back the signature, bootstub, kernel and
      ramdisk unchanged, the parameter and a NUL-free cmdline at the front of
      their slots, and the header unchanged except at bytes 7 and 48..55; the
      split succeeds iff both lengths are in range. */
  lemma SplitRecoversPacked(dir: map<Artifact, seq<bv8>>, out: seq<bv8>, isalnum: bv8 -> int)
    requires HasRequired(dir) && Admissible(dir) && PackedImage(dir, out)
    requires ProbesAgree(dir, out, isalnum)
    ensures Readable(out, isalnum)
    ensures var u := Split(out, isalnum);
      && (u.status == 0 <==> KernelInRange(|dir[Kernel]|) && RamdiskInRange(|dir[Ramdisk]|))
      && FileOr(u.files, Sig) == FileOr(dir, Sig)
      && Bootstub in u.files && u.files[Bootstub] == dir[Bootstub]
      && (Kernel in u.files <==> KernelInRange(|dir[Kernel]|))
      && (Kernel in u.files ==> u.files[Kernel] == dir[Kernel])
      && (Ramdisk in u.files <==> u.status == 0)
      && (Ramdisk in u.files ==> u.files[Ramdisk] == dir[Ramdisk])
      && Parameter in u.files && dir[Parameter] <= u.files[Parameter]
      && (|dir[Parameter]| == ParameterLen ==> u.files[Parameter] == dir[Parameter])
      && Cmdline in u.files && (NulFree(dir[Cmdline]) ==> dir[Cmdline] <= u.files[Cmdline])
      && (Hdr in u.files <==> Hdr in dir)
      && |FileOr(u.files, Hdr)| == |FileOr(dir, Hdr)|
      && (forall k :: 0 <= k < |FileOr(dir, Hdr)| && k != ChecksumOff && !(SectorCountOff <= k < ChecksumSpan) ==>
            FileOr(u.files, Hdr)[k] == FileOr(dir, Hdr)[k])
      && (Hdr in dir && Sig in dir ==>
            FileOr(u.files, Hdr)[ImageTypeOff..ImageTypeOff + 4] == dir[Hdr][ImageTypeOff..ImageTypeOff + 4])
      && (Hdr in dir ==> Xor(FileOr(u.files, Hdr)[..ChecksumSpan]) == 0)
  {
    PackedPlan(dir, out, isalnum);
    var p := PlanOf(out, isalnum);
    assert PlanFits(dir, out, p);
    assert InfoPlaced(dir, out) && PayloadsPlaced(dir, out) && HeaderAsPacked(dir, out);
    StatusRecovered(dir, out, p);
    SigBootstubRecovered(dir, out, p);
    KernelRamdiskRecovered(dir, out, p);
    FrontRecovered(dir, out, p);
  }
}
