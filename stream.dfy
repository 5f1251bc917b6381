/** The read side of a C `FILE *` opened on the boot image: the bytes of the
    file and a cursor that `fseek`/`fread` move. */
module Stream {

  class ImageFile {
    const bytes: seq<bv8>
    var pos: int

    /** fopen(filename, "rb"): the cursor starts at the first byte. */
    constructor (contents: seq<bv8>)
      ensures bytes == contents && pos == 0
    {
      bytes := contents;
      pos := 0;
    }

    /** fseek(f, delta, SEEK_CUR); a seek before the start is not allowed. */
    method Seek(delta: int)
      requires 0 <= pos + delta
      modifies this
      ensures pos == old(pos) + delta
    {
      pos := pos + delta;
    }

    /** fread of n bytes that all lie inside the file. */
    method Read(n: nat) returns (s: seq<bv8>)
      requires 0 <= pos && pos + n <= |bytes|
      modifies this
      ensures s == bytes[old(pos)..old(pos) + n]
      ensures pos == old(pos) + n
    {
      s := bytes[pos..pos + n];
      pos := pos + n;
    }
  }
}
