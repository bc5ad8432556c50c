/** The flat image and the redo primitive (src/journal.rs, `apply_op_in_place`).

    The image is a sequence of bits, bit j of byte i at index 8i+j, so each operation, whether it sets
    bitmap bits or copies bytes, replaces one run of bits. */
module ImageModel {
  import opened Bytes
  import opened MetadataOps
  import opened LastWins

  type Image = seq<bool>

  datatype Result<+T> = Ok(value: T) | Err

  /** The superblock fields the journal reads; sizes and spans count blocks unless named otherwise. */
  datatype Geometry = Geometry(
    blockSize: nat, blockCount: nat, inodeCount: nat,
    inodeBitmapBlock: nat, inodeBitmapBlocks: nat,
    dataBitmapBlock: nat, dataBitmapBlocks: nat,
    inodeTableBlock: nat, dataBlockStart: nat)

  const U64_MAX := 0xFFFF_FFFF_FFFF_FFFF

  /** Bit offset of block `b`. */
  function BlockBit(g: Geometry, b: nat): nat {
    8 * (b * g.blockSize)
  }

  predicate SpanFits(g: Geometry, len: nat, start: nat, blocks: nat) {
    BlockBit(g, start) + BlockBit(g, blocks) <= len
  }

  /** The checks `apply_op_in_place` makes on an image of `len` bits. */
  predicate Fits(g: Geometry, len: nat, op: MetadataOp) {
    match op
    case SetInodeBitmap(id, _) =>
      && id < g.inodeCount
      && SpanFits(g, len, g.inodeBitmapBlock, g.inodeBitmapBlocks)
      && id / 8 < g.inodeBitmapBlocks * g.blockSize
    case SetDataBitmap(b, _) =>
      && g.dataBlockStart <= b < g.blockCount
      && SpanFits(g, len, g.dataBitmapBlock, g.dataBitmapBlocks)
      && (b - g.dataBlockStart) / 8 < g.dataBitmapBlocks * g.blockSize
    case SetDataBitmapRange(start, count, _) =>
      && g.dataBlockStart <= start
      && (if start + count <= U64_MAX then start + count else U64_MAX) <= g.blockCount
      && SpanFits(g, len, g.dataBitmapBlock, g.dataBitmapBlocks)
    case WriteInode(id, _) =>
      && id < g.inodeCount
      && BlockBit(g, g.inodeTableBlock) + 8 * (INODE_BYTES * id + INODE_BYTES) <= len
    case WriteBlockSlice(b, off, data) =>
      && g.dataBlockStart <= b < g.blockCount
      && BlockBit(g, b) + BlockBit(g, 1) <= len
      && off + |data| <= g.blockSize
  }

  /** First bit the operation writes. */
  function OpPos(g: Geometry, op: MetadataOp): int {
    match op
    case SetInodeBitmap(id, _) => BlockBit(g, g.inodeBitmapBlock) + id
    case SetDataBitmap(b, _) => BlockBit(g, g.dataBitmapBlock) + (b - g.dataBlockStart)
    case SetDataBitmapRange(start, _, _) => BlockBit(g, g.dataBitmapBlock) + (start - g.dataBlockStart)
    case WriteInode(id, _) => BlockBit(g, g.inodeTableBlock) + 8 * (INODE_BYTES * id)
    case WriteBlockSlice(b, off, _) => BlockBit(g, b) + 8 * off
  }

  /** A range is clipped at the end of the bitmap span. */
  function RangeLen(g: Geometry, start: nat, count: nat): nat {
    var total, first := BlockBit(g, g.dataBitmapBlocks), start - g.dataBlockStart;
    if first >= total then 0 else if first + count <= total then count else total - first
  }

  function Repeat(v: bool, n: nat): (s: seq<bool>)
    ensures |s| == n && forall i :: 0 <= i < n ==> s[i] == v
  {
    seq(n, _ => v)
  }

  /** The bits the operation writes. */
  function OpBits(g: Geometry, op: MetadataOp): seq<bool> {
    match op
    case SetInodeBitmap(_, a) => [a]
    case SetDataBitmap(_, a) => [a]
    case SetDataBitmapRange(start, count, a) => Repeat(a, RangeLen(g, start, count))
    case WriteInode(_, bytes) => BitsOf(bytes)
    case WriteBlockSlice(_, _, data) => BitsOf(data)
  }

  function Splice(img: Image, pos: nat, bits: seq<bool>): (r: Image)
    requires pos + |bits| <= |img|
    ensures |r| == |img|
    ensures forall p :: 0 <= p < |img| ==> r[p] == if pos <= p < pos + |bits| then bits[p - pos] else img[p]
  {
    img[..pos] + bits + img[pos + |bits|..]
  }

  lemma FitsInside(g: Geometry, len: nat, op: MetadataOp)
    requires Fits(g, len, op)
    ensures 0 <= OpPos(g, op) && (|OpBits(g, op)| > 0 ==> OpPos(g, op) + |OpBits(g, op)| <= len)
  {
    match op
    case SetInodeBitmap(id, _) => SpanBits(g, g.inodeBitmapBlocks, id);
    case SetDataBitmap(b, _) => SpanBits(g, g.dataBitmapBlocks, b - g.dataBlockStart);
    case SetDataBitmapRange(_, _, _) =>
    case WriteInode(_, _) =>
    case WriteBlockSlice(_, _, _) =>
  }

  lemma SpanBits(g: Geometry, blocks: nat, i: nat)
    ensures i / 8 < blocks * g.blockSize <==> i < BlockBit(g, blocks)
  {
  }

  /** One redo step: out-of-range targets are refused, everything else is one splice. */
  function Apply(g: Geometry, img: Image, op: MetadataOp): (r: Result<Image>)
    ensures r.Ok? <==> Fits(g, |img|, op)
    ensures r.Ok? ==> |r.value| == |img|
  {
    if !Fits(g, |img|, op) then Err
    else
      FitsInside(g, |img|, op);
      if OpBits(g, op) == [] then Ok(img) else Ok(Splice(img, OpPos(g, op), OpBits(g, op)))
  }

  function ApplyAll(g: Geometry, img: Image, ops: seq<MetadataOp>): (r: Result<Image>)
    decreases |ops|
  {
    if ops == [] then Ok(img)
    else match Apply(g, img, ops[0])
      case Err => Err
      case Ok(img') => ApplyAll(g, img', ops[1..])
  }

  lemma {:induction false} ApplyAllSnoc(g: Geometry, img: Image, ops: seq<MetadataOp>, op: MetadataOp)
    requires ApplyAll(g, img, ops).Ok?
    ensures ApplyAll(g, img, ops + [op]) == Apply(g, ApplyAll(g, img, ops).value, op)
    decreases |ops|
  {
    hide Apply, Fits;
    if ops == [] {
      assert ops + [op] == [op];
    } else {
      assert (ops + [op])[1..] == ops[1..] + [op];
      ApplyAllSnoc(g, Apply(g, img, ops[0]).value, ops[1..], op);
    }
  }

  lemma {:induction false} ApplyAllConcat(g: Geometry, img: Image, a: seq<MetadataOp>, b: seq<MetadataOp>)
    requires ApplyAll(g, img, a).Ok?
    ensures ApplyAll(g, img, a + b) == ApplyAll(g, ApplyAll(g, img, a).value, b)
    decreases |a|
  {
    hide Apply;
    if a == [] {
      assert a + b == b;
    } else {
      assert (a + b)[1..] == a[1..] + b;
      ApplyAllConcat(g, Apply(g, img, a[0]).value, a[1..], b);
    }
  }

  // ---------------------------------------------------------------------------
  // In place
  // ---------------------------------------------------------------------------

  method SpliceInPlace(image: array<bool>, pos: nat, bits: seq<bool>)
    requires pos + |bits| <= image.Length
    modifies image
    ensures image[..] == Splice(old(image[..]), pos, bits)
  {
    for i := 0 to |bits|
      invariant forall p :: 0 <= p < image.Length ==>
        image[p] == if pos <= p < pos + i then bits[p - pos] else old(image[p])
    {
      image[pos + i] := bits[i];
    }
  }

  method ApplyInPlace(g: Geometry, image: array<bool>, op: MetadataOp) returns (ok: bool)
    modifies image
    ensures ok == Fits(g, image.Length, op)
    ensures ok ==> Apply(g, old(image[..]), op) == Ok(image[..])
    ensures !ok ==> image[..] == old(image[..])
  {
    hide OpPos, OpBits;
    ok := Fits(g, image.Length, op);
    if ok {
      FitsInside(g, image.Length, op);
      var bits := OpBits(g, op);
      if bits != [] {
        SpliceInPlace(image, OpPos(g, op), bits);
      }
    }
  }

  /** `apply_journal_ops`: stops at the first operation that is refused. */
  method ApplyAllInPlace(g: Geometry, image: array<bool>, ops: seq<MetadataOp>) returns (ok: bool)
    modifies image
    ensures ok ==> ApplyAll(g, old(image[..]), ops) == Ok(image[..])
    ensures !ok ==>
              && ApplyAll(g, old(image[..]), ops).Err?
              && exists n ::
                   && 0 <= n < |ops| && !Fits(g, image.Length, ops[n])
                   && ApplyAll(g, old(image[..]), ops[..n]) == Ok(image[..])
  {
    hide Apply, Fits;
    assert ops[0..] == ops;
    for i := 0 to |ops|
      invariant ApplyAll(g, old(image[..]), ops[..i]) == Ok(image[..])
      invariant ApplyAll(g, old(image[..]), ops) == ApplyAll(g, image[..], ops[i..])
    {
      assert ops[i..][1..] == ops[i + 1..];
      ApplyFails(g, image[..], ops[i]);
      ApplyAllSnoc(g, old(image[..]), ops[..i], ops[i]);
      assert ops[..i + 1] == ops[..i] + [ops[i]];
      var done := ApplyInPlace(g, image, ops[i]);
      if !done {
        return false;
      }
    }
    return true;
  }

  lemma ApplyFails(g: Geometry, img: Image, op: MetadataOp)
    ensures Apply(g, img, op).Err? <==> !Fits(g, |img|, op)
  {
  }

  // ---------------------------------------------------------------------------
  // What a list writes
  // ---------------------------------------------------------------------------

  ghost function OpWrite(g: Geometry, op: MetadataOp, p: nat): Option<bool> {
    var pos, bits := OpPos(g, op), OpBits(g, op);
    if pos <= p < pos + |bits| then Some(bits[p - pos]) else None
  }

  ghost function LastWrite(g: Geometry, ops: seq<MetadataOp>, p: nat): Option<bool> {
    Last(ops, op => OpWrite(g, op, p))
  }

  ghost predicate AllFit(g: Geometry, len: nat, ops: seq<MetadataOp>) {
    forall i :: 0 <= i < |ops| ==> Fits(g, len, ops[i])
  }

  lemma ApplyAt(g: Geometry, img: Image, op: MetadataOp, p: nat)
    requires Fits(g, |img|, op) && p < |img|
    ensures Apply(g, img, op).Ok? && |Apply(g, img, op).value| == |img|
    ensures Apply(g, img, op).value[p] == OrElse(OpWrite(g, op, p), img[p])
  {
    hide OpPos, OpBits, Fits;
    FitsInside(g, |img|, op);
  }

  /** A list succeeds exactly when every operation fits, and then each bit holds the last value
      written to it. */
  lemma {:induction false} ApplyAllExact(g: Geometry, img: Image, ops: seq<MetadataOp>)
    ensures ApplyAll(g, img, ops).Ok? <==> AllFit(g, |img|, ops)
    ensures ApplyAll(g, img, ops).Ok? ==>
              && |ApplyAll(g, img, ops).value| == |img|
              && forall p :: 0 <= p < |img| ==> ApplyAll(g, img, ops).value[p] == OrElse(LastWrite(g, ops, p), img[p])
    decreases |ops|
  {
    hide Fits, OpWrite, Apply;
    if ops != [] {
      ApplyFails(g, img, ops[0]);
      assert ops == [ops[0]] + ops[1..];
      if Fits(g, |img|, ops[0]) {
        ApplyLength(g, img, ops[0]);
        var img' := Apply(g, img, ops[0]).value;
        ApplyAllExact(g, img', ops[1..]);
        forall p | 0 <= p < |img| && ApplyAll(g, img, ops).Ok?
          ensures ApplyAll(g, img, ops).value[p] == OrElse(LastWrite(g, ops, p), img[p])
        {
          ApplyAt(g, img, ops[0], p);
          LastCons(ops[0], ops[1..], op => OpWrite(g, op, p));
        }
      }
    }
  }

  lemma ApplyLength(g: Geometry, img: Image, op: MetadataOp)
    requires Fits(g, |img|, op)
    ensures Apply(g, img, op).Ok? && |Apply(g, img, op).value| == |img|
  {
  }

  /** Redo depends only on what lies outside the footprint: two images succeed or fail alike, and
      when they succeed they end equal exactly if they agreed outside the bits the list writes. */
  lemma RedoDependsOutsideFootprint(g: Geometry, a: Image, b: Image, ops: seq<MetadataOp>)
    requires |a| == |b|
    ensures ApplyAll(g, a, ops).Ok? <==> ApplyAll(g, b, ops).Ok?
    ensures ApplyAll(g, a, ops).Ok? ==>
              (ApplyAll(g, a, ops) == ApplyAll(g, b, ops) <==>
               forall p :: 0 <= p < |a| && LastWrite(g, ops, p).None? ==> a[p] == b[p])
  {
    hide LastWrite, ApplyAll, AllFit;
    ApplyAllExact(g, a, ops);
    ApplyAllExact(g, b, ops);
    if ApplyAll(g, a, ops).Ok? {
      var a', b' := ApplyAll(g, a, ops).value, ApplyAll(g, b, ops).value;
      if forall p :: 0 <= p < |a| && LastWrite(g, ops, p).None? ==> a[p] == b[p] {
        assert a' == b';
      } else {
        var p :| 0 <= p < |a| && LastWrite(g, ops, p).None? && a[p] != b[p];
        assert a'[p] != b'[p];
      }
    }
  }

  /** `c` is `img` with any of the footprint bits of `ops` changed in any way. */
  ghost predicate Disturbed(g: Geometry, img: Image, c: Image, ops: seq<MetadataOp>) {
    |c| == |img| && forall p :: 0 <= p < |img| && LastWrite(g, ops, p).None? ==> c[p] == img[p]
  }

  /** Replay after any partial application equals one clean application. */
  lemma ReplayAfterPartialApply(g: Geometry, img: Image, c: Image, ops: seq<MetadataOp>)
    requires Disturbed(g, img, c, ops)
    ensures ApplyAll(g, c, ops) == ApplyAll(g, img, ops)
  {
    hide LastWrite, ApplyAll;
    RedoDependsOutsideFootprint(g, img, c, ops);
  }

  /** ... in particular replaying a list any number of times changes nothing further. */
  lemma ReplayIsIdempotent(g: Geometry, img: Image, ops: seq<MetadataOp>)
    requires ApplyAll(g, img, ops).Ok?
    ensures ApplyAll(g, ApplyAll(g, img, ops).value, ops) == ApplyAll(g, img, ops)
  {
    hide LastWrite, ApplyAll, AllFit;
    ApplyAllExact(g, img, ops);
    ReplayAfterPartialApply(g, img, ApplyAll(g, img, ops).value, ops);
  }
}
