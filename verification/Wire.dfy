/** The 17-byte RML1 header: magic, operation, 64-bit offset or lease id, 32-bit length, big-endian. */
module Wire {
  import opened Bytes

  const MAGIC: bytes := [82, 77, 76, 49]

  const HEADER_SIZE := 17

  function Pow256(n: nat): pos {
    if n == 0 then 1 else 256 * Pow256(n - 1)
  }

  /** `v` in `n` bytes, most significant first. */
  function Pack(v: nat, n: nat): (b: bytes)
    requires v < Pow256(n)
    ensures |b| == n
  {
    if n == 0 then [] else Pack(v / 256, n - 1) + [v % 256]
  }

  function Unpack(b: bytes): (v: nat)
    ensures v < Pow256(|b|)
  {
    if b == [] then 0 else 256 * Unpack(b[..|b| - 1]) + b[|b| - 1]
  }

  lemma {:induction false} UnpackPack(v: nat, n: nat)
    requires v < Pow256(n)
    ensures Unpack(Pack(v, n)) == v
  {
    if n > 0 {
      UnpackPack(v / 256, n - 1);
      assert Pack(v, n)[..n - 1] == Pack(v / 256, n - 1);
    }
  }

  lemma {:induction false} PackUnpack(b: bytes)
    ensures Pack(Unpack(b), |b|) == b
  {
    if b != [] {
      PackUnpack(b[..|b| - 1]);
    }
  }

  /** A header whose fields fit their widths in the format. */
  type Header = h: HeaderFields | h.op < Pow256(1) && h.offset < Pow256(8) && h.length < Pow256(4)
    witness HeaderFields(0, 0, 0)

  datatype HeaderFields = HeaderFields(op: nat, offset: nat, length: nat)

  function PackHeader(h: Header): (b: bytes)
    ensures |b| == HEADER_SIZE
  {
    MAGIC + Pack(h.op, 1) + Pack(h.offset, 8) + Pack(h.length, 4)
  }

  /** The header in 17 bytes, unless they do not start with the magic. */
  function UnpackHeader(b: bytes): Option<Header>
    requires |b| == HEADER_SIZE
  {
    if b[..4] != MAGIC then None
    else Some(HeaderFields(Unpack(b[4..5]), Unpack(b[5..13]), Unpack(b[13..17])))
  }

  lemma UnpackPackHeader(h: Header)
    ensures UnpackHeader(PackHeader(h)) == Some(h)
  {
    var b := PackHeader(h);
    assert b[..4] == MAGIC && b[4..5] == Pack(h.op, 1);
    assert b[5..13] == Pack(h.offset, 8) && b[13..17] == Pack(h.length, 4);
    UnpackPack(h.op, 1);
    UnpackPack(h.offset, 8);
    UnpackPack(h.length, 4);
  }

  lemma PackUnpackHeader(b: bytes)
    requires |b| == HEADER_SIZE && UnpackHeader(b).Some?
    ensures PackHeader(UnpackHeader(b).value) == b
  {
    PackUnpack(b[4..5]);
    PackUnpack(b[5..13]);
    PackUnpack(b[13..17]);
    assert b == b[..4] + b[4..5] + b[5..13] + b[13..17];
  }

  // ---- The order of the bytes ----

  /** The bytes weighed by their places, the first one most. */
  function Weigh(b: bytes): nat {
    if b == [] then 0 else b[0] * Pow256(|b| - 1) + Weigh(b[1..])
  }

  lemma {:induction false} WeighSnoc(b: bytes)
    requires b != []
    ensures Weigh(b) == 256 * Weigh(b[..|b| - 1]) + b[|b| - 1]
  {
    var n := |b| - 1;
    if n > 0 {
      WeighSnoc(b[1..]);
      assert b[1..][..n - 1] == b[..n][1..];
      var front := Weigh(b[..n][1..]);
      assert Weigh(b[..n]) == b[0] * Pow256(n - 1) + front;
      Distribute(b[0], Pow256(n - 1), front);
    }
  }

  lemma Distribute(a: nat, b: nat, c: nat)
    ensures 256 * (a * b + c) == a * (256 * b) + 256 * c
  {
  }

  /** Decoding is big-endian: a number is the sum of its bytes weighed by their places. */
  lemma {:induction false} UnpackWeighs(b: bytes)
    ensures Unpack(b) == Weigh(b)
  {
    if b != [] {
      UnpackWeighs(b[..|b| - 1]);
      WeighSnoc(b);
    }
  }

  /** Four bytes as a number, the first one most significant. */
  function Quad(b: bytes, at: nat): int
    requires at + 4 <= |b|
  {
    16777216 * (b[at] as int) + 65536 * (b[at + 1] as int) + 256 * (b[at + 2] as int) + b[at + 3]
  }

  lemma {:induction false} UnpackFour(b: bytes)
    requires |b| == 4
    ensures Unpack(b) == Quad(b, 0)
  {
    assert b[..3][..2] == b[..2] && b[..2][..1] == b[..1] && b[..1][..0] == [];
    assert Unpack(b[..1]) == b[0];
    assert Unpack(b[..2]) == 256 * Unpack(b[..1]) + b[1];
    assert Unpack(b[..3]) == 256 * Unpack(b[..2]) + b[2];
  }

  lemma {:induction false} UnpackEight(b: bytes)
    requires |b| == 8
    ensures Unpack(b) == 4294967296 * Quad(b, 0) + Quad(b, 4)
  {
    assert b[..7][..6] == b[..6] && b[..6][..5] == b[..5] && b[..5][..4] == b[..4];
    assert Unpack(b[..5]) == 256 * Unpack(b[..4]) + b[4];
    assert Unpack(b[..6]) == 256 * Unpack(b[..5]) + b[5];
    assert Unpack(b[..7]) == 256 * Unpack(b[..6]) + b[6];
    UnpackFour(b[..4]);
  }

  /** Where the fields of a header lie, and in which order their bytes: "RML1", one byte of operation, eight
      of offset and four of length, most significant first. */
  lemma HeaderLayout(h: Header)
    ensures var b := PackHeader(h);
            && |b| == 17 && b[..4] == [82, 77, 76, 49] && b[4] == h.op
            && h.offset == 4294967296 * Quad(b, 5) + Quad(b, 9)
            && h.length == Quad(b, 13)
  {
    hide Pack, Unpack;
    var b := PackHeader(h);
    assert b[4..5] == Pack(h.op, 1) && b[5..13] == Pack(h.offset, 8) && b[13..17] == Pack(h.length, 4);
    OneByte(h.op);
    UnpackPack(h.offset, 8);
    UnpackPack(h.length, 4);
    UnpackEight(b[5..13]);
    UnpackFour(b[13..17]);
  }

  lemma OneByte(v: nat)
    requires v < Pow256(1)
    ensures Pack(v, 1) == [v]
  {
    assert Pack(v / 256, 0) == [];
  }

  // ---- The body of a BORROW reply ----

  /** Lease id, offset and length, in eight bytes each. */
  function PackLease(id: nat, offset: nat, length: nat): (b: bytes)
    requires id < Pow256(8) && offset < Pow256(8) && length < Pow256(8)
    ensures |b| == 24
  {
    Pack(id, 8) + Pack(offset, 8) + Pack(length, 8)
  }

  function UnpackLease(b: bytes): Option<(nat, nat, nat)> {
    if |b| != 24 then None else Some((Unpack(b[..8]), Unpack(b[8..16]), Unpack(b[16..24])))
  }

  /** The client reads off a BORROW reply the lease that the server granted: first the id, then the offset,
      then the length. */
  lemma LeaseReply(id: nat, offset: nat, length: nat)
    requires id < Pow256(8) && offset < Pow256(8) && length < Pow256(8)
    ensures var b := PackLease(id, offset, length);
            && UnpackLease(b) == Some((id, offset, length))
            && Weigh(b[..8]) == id && Weigh(b[8..16]) == offset && Weigh(b[16..24]) == length
  {
    var b := PackLease(id, offset, length);
    assert b[..8] == Pack(id, 8) && b[8..16] == Pack(offset, 8) && b[16..24] == Pack(length, 8);
    UnpackPack(id, 8);
    UnpackPack(offset, 8);
    UnpackPack(length, 8);
    UnpackWeighs(b[..8]);
    UnpackWeighs(b[8..16]);
    UnpackWeighs(b[16..24]);
  }
}
