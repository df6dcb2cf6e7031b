/** The framing of blocks in a CAR stream (IPLD CARv1 specification, "Data"). */
module CarFraming {
  import opened Basics
  import opened Bytes

  datatype Block = Block(cid: seq<Byte>, data: seq<Byte>)

  // ----- unsigned varints -----------------------------------------------------------------

  function Uvarint(n: nat): seq<Byte>
    decreases n
  {
    if n < 128 then [n] else [n % 128 + 128] + Uvarint(n / 128)
  }

  /** Read a uvarint whose next byte is its i-th; ten bytes hold 64 bits, the tenth only one. */
  function ReadUvarint(data: seq<Byte>, i: nat): Option<Read<nat>>
    decreases |data|
  {
    if data == [] || i >= 10 then None
    else if data[0] < 128 then
      if i == 9 && data[0] > 1 then None else Some(Read(data[0], data[1..]))
    else
      var high := ReadUvarint(data[1..], i + 1);
      if high.None? then None else Some(Read(data[0] - 128 + 128 * high.value.value, high.value.rest))
  }

  /** What fits in the bytes from the i-th on: 2^(64 - 7i). */
  function Limit(i: nat): nat
    decreases 9 - i
  {
    if i >= 9 then 2 else 128 * Limit(i + 1)
  }

  lemma LimitIsTwo64()
    ensures Limit(0) == TWO_64
  {
    assert Limit(8) == 128 * Limit(9) && Limit(7) == 128 * Limit(8) && Limit(6) == 128 * Limit(7);
    assert Limit(5) == 128 * Limit(6) && Limit(4) == 128 * Limit(5) && Limit(3) == 128 * Limit(4);
    assert Limit(2) == 128 * Limit(3) && Limit(1) == 128 * Limit(2) && Limit(0) == 128 * Limit(1);
  }

  lemma {:induction false} UvarintRoundTrip(n: nat, i: nat, rest: seq<Byte>)
    requires i <= 9 && n < Limit(i)
    ensures ReadUvarint(Uvarint(n) + rest, i) == Some(Read(n, rest))
    ensures |Uvarint(n)| <= 10 - i
    decreases n
  {
    var data := Uvarint(n) + rest;
    if n < 128 {
      assert data[1..] == rest;
    } else {
      UvarintRoundTrip(n / 128, i + 1, rest);
      assert data[1..] == Uvarint(n / 128) + rest;
    }
  }

  /** Seven bits a byte, the low ones first, and the high bit set on all but the last. */
  lemma UvarintBytes(n: nat)
    ensures n < 128 ==> Uvarint(n) == [n]
    ensures 128 <= n < 16384 ==> Uvarint(n) == [n % 128 + 128, n / 128]
    ensures n >= 128 ==> Uvarint(n)[0] == n % 128 + 128 && Uvarint(n)[1..] == Uvarint(n / 128)
  {
  }

  /** A uvarint says where it ends: reading it does not look at what follows. */
  lemma {:induction false} UvarintSelfDelimits(data: seq<Byte>, i: nat, more: seq<Byte>)
    requires ReadUvarint(data, i).Some?
    ensures ReadUvarint(data + more, i)
         == Some(Read(ReadUvarint(data, i).value.value, ReadUvarint(data, i).value.rest + more))
    ensures |ReadUvarint(data, i).value.rest| < |data|
    decreases |data|
  {
    assert (data + more)[1..] == data[1..] + more;
    if data[0] >= 128 {
      UvarintSelfDelimits(data[1..], i + 1, more);
    }
  }

  // ----- CIDs -----------------------------------------------------------------------------

  function Take(data: seq<Byte>, n: nat): Option<Read<seq<Byte>>> {
    if |data| < n then None else Some(Read(data[..n], data[n..]))
  }

  /** What follows the version of a CIDv1: codec, hash code, digest length, digest. */
  function AfterVersion(data: seq<Byte>): Option<seq<Byte>> {
    var codec := ReadUvarint(data, 0);
    if codec.None? then None
    else
      var code := ReadUvarint(codec.value.rest, 0);
      if code.None? then None
      else
        var size := ReadUvarint(code.value.rest, 0);
        if size.None? || |size.value.rest| < size.value.value then None
        else Some(size.value.rest[size.value.value..])
  }

  /** What is left after the CID at the front of `data`: a bare SHA-256 multihash, or a CIDv1. */
  function SkipCid(data: seq<Byte>): Option<seq<Byte>> {
    if |data| >= 2 && data[0] == 0x12 && data[1] == 0x20 then
      if |data| < 34 then None else Some(data[34..])
    else
      var version := ReadUvarint(data, 0);
      if version.None? || version.value.value != 1 then None else AfterVersion(version.value.rest)
  }

  predicate IsCid(c: seq<Byte>) {
    SkipCid(c) == Some([])
  }

  lemma AfterVersionSelfDelimits(data: seq<Byte>, more: seq<Byte>)
    requires AfterVersion(data).Some?
    ensures AfterVersion(data + more) == Some(AfterVersion(data).value + more)
  {
    UvarintSelfDelimits(data, 0, more);
    var codec := ReadUvarint(data, 0).value;
    UvarintSelfDelimits(codec.rest, 0, more);
    var code := ReadUvarint(codec.rest, 0).value;
    UvarintSelfDelimits(code.rest, 0, more);
    var size := ReadUvarint(code.rest, 0).value;
    assert (size.rest + more)[size.value..] == size.rest[size.value..] + more;
  }

  /** A CID says where it ends. */
  lemma CidSelfDelimits(c: seq<Byte>, more: seq<Byte>)
    requires IsCid(c)
    ensures SkipCid(c + more) == Some(more)
  {
    if |c| >= 2 && c[0] == 0x12 && c[1] == 0x20 {
      assert (c + more)[34..] == more;
    } else {
      UvarintSelfDelimits(c, 0, more);
      var version := ReadUvarint(c, 0).value;
      AfterVersionSelfDelimits(version.rest, more);
      assert [] + more == more;
    }
  }

  // ----- sections -------------------------------------------------------------------------

  predicate Framable(b: Block) {
    IsCid(b.cid) && |b.cid| + |b.data| < TWO_64
  }

  /** writeCarBlock: length, CID, data. */
  function WriteBlock(b: Block): seq<Byte> {
    Uvarint(|b.cid| + |b.data|) + b.cid + b.data
  }

  function WriteBlocks(blocks: seq<Block>): seq<Byte>
    decreases |blocks|
  {
    if blocks == [] then [] else WriteBlocks(blocks[..|blocks| - 1]) + WriteBlock(blocks[|blocks| - 1])
  }

  /** A section as the specification reads it: a length, that many bytes, a CID at their front. */
  function ReadSection(data: seq<Byte>): Option<Read<Block>> {
    var size := ReadUvarint(data, 0);
    if size.None? || |size.value.rest| < size.value.value then None
    else
      var section := size.value.rest[..size.value.value];
      var after := SkipCid(section);
      if after.None? || |after.value| > |section| then None
      else
        var n := |section| - |after.value|;
        Some(Read(Block(section[..n], section[n..]), size.value.rest[size.value.value..]))
  }

  /** Every section up to the end of the stream. */
  function ReadBlocks(data: seq<Byte>): Option<seq<Block>>
    decreases |data|
  {
    if data == [] then Some([])
    else
      var first := ReadSection(data);
      if first.None? || |first.value.rest| >= |data| then None
      else
        var others := ReadBlocks(first.value.rest);
        if others.None? then None else Some([first.value.value] + others.value)
  }

  lemma Cuts(a: seq<Byte>, b: seq<Byte>, rest: seq<Byte>)
    ensures (a + b + rest)[..|a| + |b|] == a + b && (a + b + rest)[|a| + |b|..] == rest
    ensures (a + b)[..|a|] == a && (a + b)[|a|..] == b
  {
  }

  /** A section whose length is known is cut into CID and data. */
  lemma SectionRead(b: Block, size: seq<Byte>, rest: seq<Byte>)
    requires IsCid(b.cid) && ReadUvarint(size + (b.cid + b.data + rest), 0)
               == Some(Read(|b.cid| + |b.data|, b.cid + b.data + rest))
    ensures ReadSection(size + (b.cid + b.data + rest)) == Some(Read(b, rest))
  {
    Cuts(b.cid, b.data, rest);
    CidSelfDelimits(b.cid, b.data);
  }

  lemma Regroup(a: seq<Byte>, b: seq<Byte>, c: seq<Byte>, rest: seq<Byte>)
    ensures a + b + c + rest == a + (b + c + rest)
    ensures a != [] ==> |a + b + c| > 0
  {
  }

  /** The length is read back, whatever follows it. */
  lemma SizeRead(n: nat, rest: seq<Byte>)
    requires n < TWO_64
    ensures ReadUvarint(Uvarint(n) + rest, 0) == Some(Read(n, rest)) && Uvarint(n) != []
  {
    LimitIsTwo64();
    UvarintRoundTrip(n, 0, rest);
  }

  lemma SectionRoundTrip(b: Block, rest: seq<Byte>)
    requires Framable(b)
    ensures ReadSection(WriteBlock(b) + rest) == Some(Read(b, rest))
    ensures |WriteBlock(b)| > 0
  {
    var n := |b.cid| + |b.data|;
    SizeRead(n, b.cid + b.data + rest);
    Regroup(Uvarint(n), b.cid, b.data, rest);
    SectionRead(b, Uvarint(n), rest);
  }

  /** The bytes of a section: how long CID and data are together, then both. */
  lemma SectionBytes(b: Block)
    requires |b.cid| + |b.data| < 16384
    ensures var n := |b.cid| + |b.data|;
            WriteBlock(b) == (if n < 128 then [n] else [n % 128 + 128, n / 128]) + b.cid + b.data
  {
    UvarintBytes(|b.cid| + |b.data|);
  }

  lemma {:induction false} WriteBlocksFront(blocks: seq<Block>)
    requires blocks != []
    ensures WriteBlocks(blocks) == WriteBlock(blocks[0]) + WriteBlocks(blocks[1..])
    decreases |blocks|
  {
    var last := |blocks| - 1;
    if last > 0 {
      WriteBlocksFront(blocks[..last]);
      assert blocks[..last][1..] == blocks[1..][..last - 1];
      assert blocks[1..][last - 1] == blocks[last];
    }
  }

  /** Framing round trip: any list of blocks is read back exactly from the bytes written for it. */
  lemma {:induction false} FramingRoundTrip(blocks: seq<Block>)
    requires forall b :: b in blocks ==> Framable(b)
    ensures ReadBlocks(WriteBlocks(blocks)) == Some(blocks)
    decreases |blocks|
  {
    if blocks != [] {
      WriteBlocksFront(blocks);
      SectionRoundTrip(blocks[0], WriteBlocks(blocks[1..]));
      FramingRoundTrip(blocks[1..]);
      assert blocks == [blocks[0]] + blocks[1..];
    }
  }

  // ----- the writer as it is written ------------------------------------------------------

  /** Fill the front of a buffer with the uvarint of x; ten bytes always suffice. */
  method PutUvarint(buf: array<Byte>, x: nat) returns (n: nat)
    requires x < TWO_64 && buf.Length == 10
    modifies buf
    ensures n <= 10 && buf[..n] == Uvarint(x)
  {
    LimitIsTwo64();
    var rest: nat := x;
    n := 0;
    while rest >= 128
      invariant n <= 9 && rest < Limit(n)
      invariant Uvarint(x) == buf[..n] + Uvarint(rest)
      decreases rest
    {
      ghost var before := buf[..n];
      assert n < 9;
      buf[n] := rest % 128 + 128;
      assert buf[..n + 1] == before + [rest % 128 + 128];
      rest := rest / 128;
      n := n + 1;
    }
    ghost var before := buf[..n];
    buf[n] := rest;
    n := n + 1;
    assert buf[..n] == before + [rest];
  }

  method WriteCarBlock(w: Writer, b: Block)
    requires |b.cid| + |b.data| < TWO_64
    modifies w
    ensures w.out == old(w.out) + WriteBlock(b)
  {
    var buf := new Byte[10];
    var n := PutUvarint(buf, |b.cid| + |b.data|);
    w.Write(buf[..n]);
    w.Write(b.cid);
    w.Write(b.data);
    assert old(w.out) + Uvarint(|b.cid| + |b.data|) + b.cid + b.data == old(w.out) + WriteBlock(b);
  }

  /** The blocks of a CAR, one after another. */
  method WriteCarBlocks(w: Writer, blocks: seq<Block>)
    requires forall b :: b in blocks ==> Framable(b)
    modifies w
    ensures w.out == old(w.out) + WriteBlocks(blocks)
  {
    for i := 0 to |blocks|
      invariant w.out == old(w.out) + WriteBlocks(blocks[..i])
    {
      assert Framable(blocks[i]);
      WriteCarBlock(w, blocks[i]);
      assert blocks[..i + 1][..i] == blocks[..i];
      Assoc(old(w.out), WriteBlocks(blocks[..i]), WriteBlock(blocks[i]));
    }
    assert blocks[..|blocks|] == blocks;
  }
}
