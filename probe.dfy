/** The content-sniffing probe `check_byte` used to find the boundaries that
    the boot image does not describe (header, signature, bootstub).

    The probe calls the C library's `isalnum` on one byte and compares the
    VALUE it returns with its bounds. C only promises that this value is
    nonzero exactly for alphanumeric bytes, so the model takes `isalnum` as a
    parameter and proves its facts for every such function. */
module Probe {
  import opened Stream

  /** The byte the probe looks at: a leading NUL is skipped when the window
      holds more than one byte. */
  function KeptByte(window: seq<bv8>): bv8
    requires |window| >= 1
  {
    if |window| > 1 && window[0] == 0 then window[1] else window[0]
  }

  /** check_byte's verdict on a window of `|window|` bytes: true iff the
      isalnum value of the kept byte lies strictly between `min` and the
      ORIGINAL window length. */
  predicate LooksTextual(window: seq<bv8>, min: int, isalnum: bv8 -> int)
    requires |window| >= 1
    ensures LooksTextual(window, min, isalnum) ==> min + 2 <= |window|
    ensures LooksTextual(window, min, isalnum) && 0 <= min ==> isalnum(KeptByte(window)) != 0
  {
    min < isalnum(KeptByte(window)) < |window|
  }

  /** The probe on the `size` bytes of `img` starting at offset `at`. */
  predicate ProbeAt(img: seq<bv8>, at: nat, size: nat, min: int, isalnum: bv8 -> int)
    requires 1 <= size && at + size <= |img|
  {
    LooksTextual(img[at..at + size], min, isalnum)
  }

  /** A probe never fires when isalnum only ever answers 0 or a value at
      least as large as the window: then no value lies strictly between a
      nonnegative `min` and the window length. */
  lemma ProbeSilentForWideAlnum(window: seq<bv8>, min: int, isalnum: bv8 -> int)
    requires |window| >= 1 && 0 <= min
    requires forall b: bv8 :: isalnum(b) == 0 || isalnum(b) >= |window|
    ensures !LooksTextual(window, min, isalnum)
  {
    var b := KeptByte(window);
    assert isalnum(b) == 0 || isalnum(b) >= |window|;
  }

  /** check_byte(f, size, min): reads the window at the cursor, decides, and
      leaves the cursor where it found it. */
  method CheckByte(f: ImageFile, size: int, min: int, isalnum: bv8 -> int) returns (textual: bool)
    requires 1 <= size && 0 <= f.pos && f.pos + size <= |f.bytes|
    modifies f
    ensures f.pos == old(f.pos)
    ensures textual == LooksTextual(f.bytes[f.pos..f.pos + size], min, isalnum)
  {
    ghost var window := f.bytes[f.pos..f.pos + size];
    var origsize := size;
    var n := size;
    if n > 1 {
      var skip := f.Read(1);
      if skip[0] == 0 {
        n := n - 1;
      } else {
        f.Seek(-1);
      }
    }
    var tmp := f.Read(n);
    f.Seek(-origsize);
    assert tmp[0] == KeptByte(window);
    var bytes := isalnum(tmp[0]);
    textual := bytes > min && bytes < origsize;
  }
}
