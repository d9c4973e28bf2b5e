/**
 Reading and writing at file positions, and the strips that an erasure plan cuts a file into
 (erasure_tools.c:93-104, 409-428, 556-593).
 */
module ErasureFiles {
  import Division

  type Byte = bv8
  type Block = seq<Byte>

  /** BLANK_CHAR: what bread puts in place of bytes past the end of a file. */
  const PAD: Byte := 0x30

  ghost predicate Shaped(x: seq<Block>, count: nat, len: nat) {
    |x| == count && forall i :: 0 <= i < count ==> |x[i]| == len
  }

  /** fseek and bread. */
  function ReadAt(f: Block, pos: nat, len: nat): (b: Block)
    ensures |b| == len
  {
    seq(len, i requires 0 <= i < len => if pos + i < |f| then f[pos + i] else PAD)
  }

  /** fseek and fwrite: a gap past the end of the file reads as zero bytes. */
  function WriteAt(f: Block, pos: nat, b: Block): (g: Block)
    ensures |g| == if b == [] || pos + |b| <= |f| then |f| else pos + |b|
    ensures forall k :: 0 <= k < |b| ==> pos + k < |g| && g[pos + k] == b[k]
    ensures forall k :: 0 <= k < |f| && !(pos <= k < pos + |b|) ==> g[k] == f[k]
  {
    if b == [] then f
    else
      seq(if pos + |b| <= |f| then |f| else pos + |b|,
          k requires 0 <= k => if pos <= k < pos + |b| then b[k - pos] else if k < |f| then f[k] else 0)
  }

  function Join(x: seq<Block>, y: seq<Block>): (z: seq<Block>)
    requires |x| == |y|
    ensures |z| == |x| && forall i :: 0 <= i < |x| ==> z[i] == x[i] + y[i]
  {
    seq(|x|, i requires 0 <= i < |x| => x[i] + y[i])
  }

  /** The same stretch of every block. */
  function Slices(x: seq<Block>, a: nat, b: nat): (z: seq<Block>)
    requires a <= b && forall i :: 0 <= i < |x| ==> b <= |x[i]|
    ensures Shaped(z, |x|, b - a) && forall i :: 0 <= i < |x| ==> z[i] == x[i][a..b]
  {
    seq(|x|, i requires 0 <= i < |x| => x[i][a..b])
  }

  /** Where the `i`-th strip of a file region begins. */
  function Place(base: nat, strip: nat, i: nat): nat {
    Division.NonNegative(i, strip);
    base + i * strip
  }

  lemma PlacesApart(base: nat, strip: nat, i: nat, j: nat)
    requires i < j
    ensures Place(base, strip, i) + strip <= Place(base, strip, j)
  {
    Division.Ordered(i, j, strip);
  }

  lemma NextPlace(base: nat, strip: nat, i: nat)
    ensures Place(base, strip, i + 1) == Place(base, strip, i) + strip
    ensures Place(base, strip, 0) == base
  {
    Division.Distributes(i, 1, strip);
  }

  function Strip(f: Block, base: nat, strip: nat, i: nat): Block {
    ReadAt(f, Place(base, strip, i), strip)
  }

  /** The file reaches to the end of the strip. */
  ghost predicate Covers(f: Block, base: nat, strip: nat, i: nat) {
    strip == 0 || Place(base, strip, i) + strip <= |f|
  }

  /** The strips of a file region, padded where the file ends early. */
  function Strips(f: Block, base: nat, strip: nat, count: nat): (x: seq<Block>)
    ensures Shaped(x, count, strip)
  {
    seq(count, i requires 0 <= i => Strip(f, base, strip, i))
  }

  /** What was written is what is read back, together with what was there before it. */
  lemma ReadExtended(f: Block, pos: nat, old_len: nat, b: Block)
    requires pos + old_len <= |f| || old_len == 0
    ensures ReadAt(WriteAt(f, pos + old_len, b), pos, old_len + |b|) == ReadAt(f, pos, old_len) + b
  {
  }

  /** Reading a stretch that lies in the file and clear of the write gives what it gave. */
  lemma ReadElsewhere(f: Block, pos: nat, len: nat, at: nat, b: Block)
    requires pos + len <= |f| || len == 0
    requires pos + len <= at || at + |b| <= pos
    ensures ReadAt(WriteAt(f, at, b), pos, len) == ReadAt(f, pos, len)
  {
  }
}
