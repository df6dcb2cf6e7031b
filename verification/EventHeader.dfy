/** CBOR data item heads (section 3 of RFC 8949) and text strings, as the header codec uses them. */
module Cbor {
  import opened Basics
  import opened Bytes

  const MAJ_UNSIGNED := 0
  const MAJ_NEGATIVE := 1
  const MAJ_TEXT := 3
  const MAJ_MAP := 5

  const TWO_16 := 0x1_0000
  const TWO_32 := 0x1_0000_0000
  const TWO_63 := 0x8000_0000_0000_0000

  datatype Head = Head(major: int, arg: nat)

  /** The k-byte big-endian form of n. */
  function BigEndian(n: nat, k: nat): seq<Byte>
    decreases k
  {
    if k == 0 then [] else BigEndian(n / 256, k - 1) + [n % 256]
  }

  function FromBigEndian(s: seq<Byte>): (n: nat)
    ensures n < Pow256(|s|)
    decreases |s|
  {
    if s == [] then 0 else 256 * FromBigEndian(s[..|s| - 1]) + s[|s| - 1]
  }

  function Pow256(k: nat): nat {
    if k == 0 then 1 else 256 * Pow256(k - 1)
  }

  lemma {:induction false} BigEndianRoundTrip(n: nat, k: nat)
    requires n < Pow256(k)
    ensures |BigEndian(n, k)| == k && FromBigEndian(BigEndian(n, k)) == n
    decreases k
  {
    if k > 0 {
      BigEndianRoundTrip(n / 256, k - 1);
      var s := BigEndian(n, k);
      assert s[..|s| - 1] == BigEndian(n / 256, k - 1);
    }
  }

  /** The shortest head for a major type and argument. */
  function WriteHead(major: int, arg: nat): seq<Byte>
    requires 0 <= major < 8 && arg < TWO_64
  {
    if arg < 24 then [32 * major + arg]
    else if arg < 256 then [32 * major + 24] + BigEndian(arg, 1)
    else if arg < TWO_16 then [32 * major + 25] + BigEndian(arg, 2)
    else if arg < TWO_32 then [32 * major + 26] + BigEndian(arg, 4)
    else [32 * major + 27] + BigEndian(arg, 8)
  }

  /** The number of argument bytes after the first byte, and the least argument they may hold. */
  function ArgBytes(low: int): nat
    requires 24 <= low <= 27
  {
    if low == 24 then 1 else if low == 25 then 2 else if low == 26 then 4 else 8
  }

  function LeastArg(low: int): nat
    requires 24 <= low <= 27
  {
    if low == 24 then 24 else if low == 25 then 256 else if low == 26 then TWO_16 else TWO_32
  }

  /** Read a head; a longer form than needed is refused. */
  function ReadHead(data: seq<Byte>): (r: Option<Read<Head>>)
    ensures r.Some? ==> r.value.value.arg < TWO_64
  {
    Powers();
    if data == [] then None
    else
      var major, low := data[0] / 32, data[0] % 32;
      if low < 24 then Some(Read(Head(major, low), data[1..]))
      else if low > 27 || |data| < 1 + ArgBytes(low) then None
      else
        var arg := FromBigEndian(data[1..1 + ArgBytes(low)]);
        if arg < LeastArg(low) then None
        else Some(Read(Head(major, arg), data[1 + ArgBytes(low)..]))
  }

  lemma Powers()
    ensures Pow256(1) == 256 && Pow256(2) == TWO_16 && Pow256(4) == TWO_32 && Pow256(8) == TWO_64
  {
    assert Pow256(2) == 256 * Pow256(1) && Pow256(3) == 256 * Pow256(2) && Pow256(4) == 256 * Pow256(3);
    assert Pow256(5) == 256 * Pow256(4) && Pow256(6) == 256 * Pow256(5);
    assert Pow256(7) == 256 * Pow256(6) && Pow256(8) == 256 * Pow256(7);
  }

  /** A head with argument bytes is read back, provided no shorter form would have done. */
  lemma LongHead(major: int, low: int, arg: nat, rest: seq<Byte>)
    requires 0 <= major < 8 && 24 <= low <= 27 && LeastArg(low) <= arg < Pow256(ArgBytes(low))
    ensures ReadHead([32 * major + low] + BigEndian(arg, ArgBytes(low)) + rest) == Some(Read(Head(major, arg), rest))
  {
    var k := ArgBytes(low);
    BigEndianRoundTrip(arg, k);
    var data := [32 * major + low] + BigEndian(arg, k) + rest;
    assert data[0] / 32 == major && data[0] % 32 == low;
    assert data[1..1 + k] == BigEndian(arg, k);
    assert data[1 + k..] == rest;
  }

  /** A head without argument bytes is read back. */
  lemma ShortHead(major: int, arg: nat, rest: seq<Byte>)
    requires 0 <= major < 8 && arg < 24
    ensures ReadHead([32 * major + arg] + rest) == Some(Read(Head(major, arg), rest))
  {
    var data := [32 * major + arg] + rest;
    assert data[0] / 32 == major && data[0] % 32 == arg;
    assert data[1..] == rest;
  }

  lemma HeadRoundTrip(major: int, arg: nat, rest: seq<Byte>)
    requires 0 <= major < 8 && arg < TWO_64
    ensures ReadHead(WriteHead(major, arg) + rest) == Some(Read(Head(major, arg), rest))
  {
    Powers();
    if arg < 24 {
      ShortHead(major, arg, rest);
    } else if arg < 256 {
      LongHead(major, 24, arg, rest);
    } else if arg < TWO_16 {
      LongHead(major, 25, arg, rest);
    } else if arg < TWO_32 {
      LongHead(major, 26, arg, rest);
    } else {
      LongHead(major, 27, arg, rest);
    }
  }

  lemma {:induction false} BigEndianIsOnly(s: seq<Byte>)
    ensures BigEndian(FromBigEndian(s), |s|) == s
    decreases |s|
  {
    if s != [] {
      var front := s[..|s| - 1];
      BigEndianIsOnly(front);
      assert FromBigEndian(s) / 256 == FromBigEndian(front) && FromBigEndian(s) % 256 == s[|s| - 1];
      assert s == front + [s[|s| - 1]];
    }
  }

  lemma LongHeadIs(major: int, low: int, arg: nat)
    requires 0 <= major < 8 && 24 <= low <= 27 && LeastArg(low) <= arg < Pow256(ArgBytes(low))
    ensures arg < TWO_64 && WriteHead(major, arg) == [32 * major + low] + BigEndian(arg, ArgBytes(low))
  {
    Powers();
  }

  /** A head that is read with argument bytes is the shortest one for its argument. */
  lemma LongHeadIsOnly(data: seq<Byte>)
    requires data != [] && ReadHead(data).Some? && data[0] % 32 >= 24
    ensures var r := ReadHead(data).value;
            data == WriteHead(r.value.major, r.value.arg) + r.rest
  {
    var major, low := data[0] / 32, data[0] % 32;
    var k := ArgBytes(low);
    var bytes := data[1..1 + k];
    BigEndianIsOnly(bytes);
    LongHeadIs(major, low, FromBigEndian(bytes));
    Pieces(data, k);
  }

  lemma Pieces(data: seq<Byte>, k: nat)
    requires 1 + k <= |data|
    ensures data == [data[0]] + data[1..1 + k] + data[1 + k..]
  {
  }

  /** A head is read exactly when it stands at the front in its shortest form. */
  lemma HeadReadExactlyWhen(data: seq<Byte>, h: Head, rest: seq<Byte>)
    ensures ReadHead(data) == Some(Read(h, rest))
       <==> 0 <= h.major < 8 && h.arg < TWO_64 && data == WriteHead(h.major, h.arg) + rest
  {
    if ReadHead(data) == Some(Read(h, rest)) {
      if data[0] % 32 >= 24 {
        LongHeadIsOnly(data);
      } else {
        assert data == [data[0]] + data[1..];
      }
    } else if 0 <= h.major < 8 && h.arg < TWO_64 && data == WriteHead(h.major, h.arg) + rest {
      HeadRoundTrip(h.major, h.arg, rest);
      assert false;
    }
  }

  /** The bytes of short heads: the major type in the top three bits, arguments high byte first. */
  lemma HeadBytes(major: int, arg: nat)
    requires 0 <= major < 8
    ensures arg < 24 ==> WriteHead(major, arg) == [32 * major + arg]
    ensures 24 <= arg < 256 ==> WriteHead(major, arg) == [32 * major + 24, arg]
    ensures 256 <= arg < 65536 ==> WriteHead(major, arg) == [32 * major + 25, arg / 256, arg % 256]
  {
    TwoBytes(arg / 256, arg);
    if 24 <= arg < 256 {
      assert arg % 256 == arg;
    }
    if 256 <= arg < 65536 {
      assert arg / 256 % 256 == arg / 256;
    }
  }

  lemma TwoBytes(high: nat, arg: nat)
    requires high == arg / 256
    ensures BigEndian(arg, 1) == [arg % 256] && BigEndian(arg, 2) == [high % 256, arg % 256]
  {
    assert BigEndian(arg, 0) == [] && BigEndian(high, 0) == [];
    assert BigEndian(high, 1) == [high % 256];
  }

  function WriteText(s: seq<Byte>): seq<Byte>
    requires |s| < TWO_64
  {
    WriteHead(MAJ_TEXT, |s|) + s
  }

  /** Read a text string of at most `limit` bytes. */
  function ReadText(data: seq<Byte>, limit: nat): Option<Read<seq<Byte>>> {
    var head := ReadHead(data);
    if head.None? || head.value.value.major != MAJ_TEXT || head.value.value.arg > limit then None
    else
      var n, rest := head.value.value.arg, head.value.rest;
      if |rest| < n then None else Some(Read(rest[..n], rest[n..]))
  }

  lemma TextRoundTrip(s: seq<Byte>, rest: seq<Byte>, limit: nat)
    requires |s| <= limit && |s| < TWO_64
    ensures ReadText(WriteText(s) + rest, limit) == Some(Read(s, rest))
  {
    HeadRoundTrip(MAJ_TEXT, |s|, s + rest);
    assert WriteText(s) + rest == WriteHead(MAJ_TEXT, |s|) + (s + rest);
    assert (s + rest)[..|s|] == s && (s + rest)[|s|..] == rest;
  }

  /** A text string is read exactly when it stands at the front and is within the limit. */
  lemma TextReadExactlyWhen(data: seq<Byte>, limit: nat, s: seq<Byte>, rest: seq<Byte>)
    ensures ReadText(data, limit) == Some(Read(s, rest))
       <==> |s| <= limit && |s| < TWO_64 && data == WriteText(s) + rest
  {
    if ReadText(data, limit) == Some(Read(s, rest)) {
      var head := ReadHead(data).value;
      HeadReadExactlyWhen(data, head.value, head.rest);
      assert head.rest == s + rest;
      assert data == WriteHead(MAJ_TEXT, |s|) + s + rest;
    } else if |s| <= limit && |s| < TWO_64 && data == WriteText(s) + rest {
      TextRoundTrip(s, rest, limit);
      assert false;
    }
  }
}

/** The event header of a firehose frame: its writer and its reader. */
module EventHeader {
  import opened Basics
  import opened Bytes
  import opened Cbor

  const KEY_T: seq<Byte> := [0x74]
  const KEY_OP: seq<Byte> := [0x6F, 0x70]

  datatype Header = Header(msgType: seq<Byte>, op: int)

  predicate IsInt64(x: int) {
    -TWO_63 <= x < TWO_63
  }

  /** Two's complement 64-bit arithmetic: a result, or a uint64, brought back into range. */
  function Wrap(x: int): (r: int)
    requires -TWO_63 - TWO_64 <= x < TWO_63 + TWO_64
    ensures IsInt64(r) && (r - x) % TWO_64 == 0
  {
    if x >= TWO_63 then x - TWO_64 else if x < -TWO_63 then x + TWO_64 else x
  }

  /** The conversion uint64(x). */
  function Unsigned(x: int): (r: nat)
    requires IsInt64(x)
    ensures r < TWO_64 && (r - x) % TWO_64 == 0
  {
    if x < 0 then x + TWO_64 else x
  }

  function WriteInt(op: int): seq<Byte>
    requires IsInt64(op)
  {
    if op >= 0 then WriteHead(MAJ_UNSIGNED, Unsigned(op))
    else WriteHead(MAJ_NEGATIVE, Unsigned(Wrap(Wrap(-op) - 1)))
  }

  function ReadInt(data: seq<Byte>): Option<Read<int>> {
    var head := ReadHead(data);
    if head.None? then None
    else
      var major, arg, rest := head.value.value.major, head.value.value.arg, head.value.rest;
      if major == MAJ_UNSIGNED then if arg >= TWO_63 then None else Some(Read(arg, rest))
      else if major == MAJ_NEGATIVE then Some(Read(Wrap(-1 - Wrap(arg)), rest))
      else None
  }

  function WriteHeader(op: int, msgType: seq<Byte>): seq<Byte>
    requires IsInt64(op) && |msgType| < TWO_64
  {
    if msgType == [] then WriteHead(MAJ_MAP, 1) + (WriteText(KEY_OP) + WriteInt(op))
    else WriteHead(MAJ_MAP, 2) + (WriteText(KEY_T) + (WriteText(msgType) + (WriteText(KEY_OP) + WriteInt(op))))
  }

  /** One field of the header map: a known key and its value. */
  function DecodeField(h: Header, data: seq<Byte>, limit: nat): Option<Read<Header>> {
    var key := ReadText(data, limit);
    if key.None? then None
    else if key.value.value == KEY_T then
      var t := ReadText(key.value.rest, limit);
      if t.None? then None else Some(Read(h.(msgType := t.value.value), t.value.rest))
    else if key.value.value == KEY_OP then
      var op := ReadInt(key.value.rest);
      if op.None? then None else Some(Read(h.(op := op.value.value), op.value.rest))
    else None
  }

  /** The first n fields of the header map, in any order; a key seen again overrides. */
  function DecodeFields(n: nat, data: seq<Byte>, limit: nat): Option<Read<Header>>
    decreases n
  {
    if n == 0 then Some(Read(Header([], 1), data))
    else
      var before := DecodeFields(n - 1, data, limit);
      if before.None? then None else DecodeField(before.value.value, before.value.rest, limit)
  }

  function DecodeHeader(data: seq<Byte>, limit: nat): Option<Read<Header>> {
    var head := ReadHead(data);
    if head.None? || head.value.value.major != MAJ_MAP then None
    else DecodeFields(head.value.value.arg, head.value.rest, limit)
  }

  /** The negation of the least int64 wraps, and the subtraction wraps it back. */
  lemma NegatedArg(op: int)
    requires IsInt64(op) && op < 0
    ensures Unsigned(Wrap(Wrap(-op) - 1)) == -op - 1
  {
  }

  lemma IntRoundTrip(op: int, rest: seq<Byte>)
    requires IsInt64(op)
    ensures ReadInt(WriteInt(op) + rest) == Some(Read(op, rest))
  {
    if op >= 0 {
      HeadRoundTrip(MAJ_UNSIGNED, op, rest);
    } else {
      NegatedArg(op);
      HeadRoundTrip(MAJ_NEGATIVE, -op - 1, rest);
    }
  }

  /** A negative head is read as the integer it stands for exactly when that fits an int64. */
  lemma NegativeReadsExactly(arg: nat, rest: seq<Byte>)
    requires arg < TWO_64
    ensures var r := ReadInt(WriteHead(MAJ_NEGATIVE, arg) + rest);
            r.Some? && r.value.rest == rest && (r.value.value == -1 - arg <==> arg < TWO_63)
  {
    HeadRoundTrip(MAJ_NEGATIVE, arg, rest);
  }

  /**
    Header round trip (AT Protocol Event Stream specification, section "Framing"). Reading what
    was written, whatever follows it, gives back type and op and leaves exactly what follows: for
    every int64 op, and every type string within the reader's length limit, the empty one included.
   */
  lemma HeaderRoundTrip(op: int, msgType: seq<Byte>, suffix: seq<Byte>, limit: nat)
    requires IsInt64(op) && |msgType| <= limit && 2 <= limit < TWO_64
    ensures DecodeHeader(WriteHeader(op, msgType) + suffix, limit) == Some(Read(Header(msgType, op), suffix))
  {
    var opField := WriteText(KEY_OP) + WriteInt(op);
    if msgType == [] {
      Assoc(WriteHead(MAJ_MAP, 1), opField, suffix);
      HeadRoundTrip(MAJ_MAP, 1, opField + suffix);
      OpField(Header([], 1), op, suffix, limit);
    } else {
      var fields := WriteText(KEY_T) + (WriteText(msgType) + opField);
      Assoc(WriteHead(MAJ_MAP, 2), fields, suffix);
      HeadRoundTrip(MAJ_MAP, 2, fields + suffix);
      Assoc(WriteText(KEY_T), WriteText(msgType) + opField, suffix);
      Assoc(WriteText(msgType), opField, suffix);
      TypeField(msgType, opField + suffix, limit);
      OpField(Header(msgType, 1), op, suffix, limit);
      TwoFields(fields + suffix, limit);
    }
  }

  lemma TwoFields(data: seq<Byte>, limit: nat)
    ensures DecodeFields(2, data, limit)
         == var first := DecodeField(Header([], 1), data, limit);
            if first.None? then None else DecodeField(first.value.value, first.value.rest, limit)
  {
    assert DecodeFields(1, data, limit) == DecodeField(Header([], 1), data, limit);
  }

  lemma TypeField(msgType: seq<Byte>, rest: seq<Byte>, limit: nat)
    requires |msgType| <= limit && 2 <= limit < TWO_64
    ensures DecodeField(Header([], 1), WriteText(KEY_T) + (WriteText(msgType) + rest), limit)
         == Some(Read(Header(msgType, 1), rest))
  {
    TextRoundTrip(KEY_T, WriteText(msgType) + rest, limit);
    TextRoundTrip(msgType, rest, limit);
  }

  lemma OpField(h: Header, op: int, suffix: seq<Byte>, limit: nat)
    requires IsInt64(op) && 2 <= limit
    ensures DecodeField(h, WriteText(KEY_OP) + WriteInt(op) + suffix, limit) == Some(Read(h.(op := op), suffix))
  {
    TextRoundTrip(KEY_OP, WriteInt(op) + suffix, limit);
    assert WriteText(KEY_OP) + WriteInt(op) + suffix == WriteText(KEY_OP) + (WriteInt(op) + suffix);
    IntRoundTrip(op, suffix);
    assert KEY_OP != KEY_T;
  }

  /** The first byte of a small integer: 0x00 to 0x17, or 0x20 to 0x37 for the negative ones. */
  lemma SmallInt(op: int)
    requires -24 <= op < 24
    ensures WriteInt(op) == if op >= 0 then [op] else [0x20 - 1 - op]
  {
    if op < 0 {
      NegatedArg(op);
    }
  }

  lemma OpBytes(op: int)
    requires -24 <= op < 24
    ensures WriteText(KEY_OP) + WriteInt(op) == [0x62, 0x6F, 0x70, if op >= 0 then op else 0x20 - 1 - op]
  {
    SmallInt(op);
    assert WriteText(KEY_OP) == [0x62, 0x6F, 0x70];
  }

  lemma TypeBytes(msgType: seq<Byte>)
    requires |msgType| < 24
    ensures WriteText(KEY_T) == [0x61, 0x74] && WriteText(msgType) == [0x60 + |msgType|] + msgType
  {
  }

  lemma Regroup(a: Byte, b: seq<Byte>, c: Byte, d: seq<Byte>, rest: seq<Byte>)
    requires |b| == 2
    ensures [a] + (b + ([c] + d + rest)) == [a, b[0], b[1], c] + d + rest
  {
  }

  /**
    The bytes on the wire, for a small op and a type of at most 23 bytes: a map of two pairs (or of
    one, without a type), text keys "t" and "op", in that order (section 3 of RFC 8949).
   */
  lemma HeaderBytes(op: int, msgType: seq<Byte>)
    requires -24 <= op < 24 && |msgType| < 24
    ensures var last: Byte := if op >= 0 then op else 0x20 - 1 - op;
            WriteHeader(op, msgType)
            == if msgType == [] then [0xA1] + [0x62, 0x6F, 0x70, last]
               else [0xA2, 0x61, 0x74, 0x60 + |msgType|] + msgType + [0x62, 0x6F, 0x70, last]
  {
    OpBytes(op);
    TypeBytes(msgType);
    assert WriteHead(MAJ_MAP, 1) == [0xA1] && WriteHead(MAJ_MAP, 2) == [0xA2];
    Regroup(0xA2, WriteText(KEY_T), 0x60 + |msgType|, msgType, WriteText(KEY_OP) + WriteInt(op));
  }

  /** A non-negative integer is read exactly when it stands at the front and fits an int64. */
  lemma NaturalReadExactlyWhen(data: seq<Byte>, n: nat, rest: seq<Byte>)
    ensures ReadInt(data) == Some(Read(n, rest)) && data != [] && data[0] < 0x20
       <==> n < TWO_63 && data == WriteHead(MAJ_UNSIGNED, n) + rest
  {
    HeadReadExactlyWhen(data, Head(MAJ_UNSIGNED, n), rest);
    if ReadInt(data).Some? && data[0] < 0x20 {
      assert ReadHead(data).value.value.major == 0;
    }
  }

  /** An integer is read exactly when a head of one of the two integer types is, unless it is 2^63 or more. */
  lemma IntReadExactlyWhen(data: seq<Byte>)
    ensures ReadInt(data).Some?
       <==> ReadHead(data).Some?
            && (data[0] / 32 == 1 || (data[0] / 32 == 0 && ReadHead(data).value.value.arg < TWO_63))
  {
  }

  /** A header without fields means op 1 and no type. */
  lemma EmptyHeader(rest: seq<Byte>, limit: nat)
    ensures DecodeHeader([0xA0] + rest, limit) == Some(Read(Header([], 1), rest))
  {
    ShortHead(5, 0, rest);
  }

  /** A field of the header is read exactly when it is one of the two known, key and value in place. */
  lemma FieldReadExactlyWhen(h: Header, data: seq<Byte>, limit: nat, h': Header, rest: seq<Byte>)
    requires 2 <= limit < TWO_64
    ensures DecodeField(h, data, limit) == Some(Read(h', rest)) <==>
              || (|h'.msgType| <= limit && h' == h.(msgType := h'.msgType)
                  && data == [0x61, 0x74] + (WriteText(h'.msgType) + rest))
              || (h' == h.(op := h'.op)
                  && exists value :: data == [0x62, 0x6F, 0x70] + value && ReadInt(value) == Some(Read(h'.op, rest)))
  {
    assert WriteText(KEY_OP) == [0x62, 0x6F, 0x70] && WriteText(KEY_T) == [0x61, 0x74];
    if DecodeField(h, data, limit).Some? {
      var key := ReadText(data, limit).value;
      TextReadExactlyWhen(data, limit, key.value, key.rest);
      if key.value == KEY_T {
        var t := ReadText(key.rest, limit).value;
        TextReadExactlyWhen(key.rest, limit, t.value, t.rest);
      }
    }
    if |h'.msgType| <= limit && data == [0x61, 0x74] + (WriteText(h'.msgType) + rest) {
      TextReadExactlyWhen(data, limit, KEY_T, WriteText(h'.msgType) + rest);
      TextReadExactlyWhen(WriteText(h'.msgType) + rest, limit, h'.msgType, rest);
    }
    if value :| data == [0x62, 0x6F, 0x70] + value && ReadInt(value) == Some(Read(h'.op, rest)) {
      TextReadExactlyWhen(data, limit, KEY_OP, value);
    }
  }

  /** A header is read exactly when a map of n pairs stands at the front, and n fields are read after it. */
  lemma HeaderReadExactlyWhen(data: seq<Byte>, limit: nat, r: Read<Header>)
    ensures DecodeHeader(data, limit) == Some(r)
       <==> exists n: nat, fields :: n < TWO_64 && data == WriteHead(5, n) + fields
                                     && DecodeFields(n, fields, limit) == Some(r)
  {
    if DecodeHeader(data, limit) == Some(r) {
      var head := ReadHead(data).value;
      HeadReadExactlyWhen(data, head.value, head.rest);
    }
    if n: nat, fields :|
      n < TWO_64 && data == WriteHead(5, n) + fields && DecodeFields(n, fields, limit) == Some(r) {
      HeadReadExactlyWhen(data, Head(5, n), fields);
    }
  }

  lemma NothingNext(i: nat, data: seq<Byte>, limit: nat)
    requires DecodeFields(i, data, limit).None?
    ensures DecodeFields(i + 1, data, limit).None?
  {
  }

  /** A field that cannot be read ends the header. */
  lemma {:induction false} NothingAfter(i: nat, n: nat, data: seq<Byte>, limit: nat)
    requires i <= n && DecodeFields(i, data, limit).None?
    ensures DecodeFields(n, data, limit).None?
    decreases n - i
  {
    if i < n {
      NothingNext(i, data, limit);
      NothingAfter(i + 1, n, data, limit);
    }
  }

  // ----- the writer and the reader as they are written ------------------------------------

  method PutText(w: Writer, s: seq<Byte>)
    requires |s| < TWO_64
    modifies w
    ensures w.out == old(w.out) + WriteText(s)
  {
    w.Write(WriteHead(MAJ_TEXT, |s|));
    w.Write(s);
  }

  method PutHeader(w: Writer, op: int, msgType: seq<Byte>)
    requires IsInt64(op) && |msgType| < TWO_64
    modifies w
    ensures w.out == old(w.out) + WriteHeader(op, msgType)
  {
    ghost var before := w.out;
    var fieldCount := 2;
    if msgType == [] {
      fieldCount := fieldCount - 1;
    }
    var mapHead := WriteHead(MAJ_MAP, fieldCount);
    w.Write(mapHead);
    if msgType != [] {
      PutText(w, KEY_T);
      PutText(w, msgType);
    }
    ghost var opField := WriteText(KEY_OP) + WriteInt(op);
    ghost var mid := w.out;
    PutText(w, KEY_OP);
    if op >= 0 {
      w.Write(WriteHead(MAJ_UNSIGNED, Unsigned(op)));
    } else {
      w.Write(WriteHead(MAJ_NEGATIVE, Unsigned(Wrap(Wrap(-op) - 1))));
    }
    Assoc(mid, WriteText(KEY_OP), WriteInt(op));
    if msgType == [] {
      Assoc(before, mapHead, opField);
    } else {
      var typeField := WriteText(msgType) + opField;
      Assoc(before + mapHead + WriteText(KEY_T), WriteText(msgType), opField);
      Assoc(before + mapHead, WriteText(KEY_T), typeField);
      Assoc(before, mapHead, WriteText(KEY_T) + typeField);
    }
  }

  /** A reader that is used up as it is read. */
  class Reader {
    var rest: seq<Byte>

    constructor (data: seq<Byte>)
      ensures rest == data
    {
      rest := data;
    }

    method NextHead() returns (h: Option<Head>)
      modifies this
      ensures var r := ReadHead(old(rest));
              if r.None? then h == None else h == Some(r.value.value) && rest == r.value.rest
    {
      var r := ReadHead(rest);
      if r.None? {
        return None;
      }
      rest := r.value.rest;
      h := Some(r.value.value);
    }

    method NextText(limit: nat) returns (s: Option<seq<Byte>>)
      modifies this
      ensures var r := ReadText(old(rest), limit);
              if r.None? then s == None else s == Some(r.value.value) && rest == r.value.rest
    {
      var h := NextHead();
      if h.None? || h.value.major != MAJ_TEXT || h.value.arg > limit || |rest| < h.value.arg {
        return None;
      }
      s := Some(rest[..h.value.arg]);
      rest := rest[h.value.arg..];
    }

    method NextInt() returns (i: Option<int>)
      modifies this
      ensures var r := ReadInt(old(rest));
              if r.None? then i == None else i == Some(r.value.value) && rest == r.value.rest
    {
      var h := NextHead();
      if h.None? {
        return None;
      }
      if h.value.major == MAJ_UNSIGNED {
        i := if h.value.arg >= TWO_63 then None else Some(h.value.arg);
      } else if h.value.major == MAJ_NEGATIVE {
        i := Some(Wrap(-1 - Wrap(h.value.arg)));
      } else {
        i := None;
      }
    }

    method NextField(h: Header, limit: nat) returns (h': Option<Header>)
      modifies this
      ensures var r := DecodeField(h, old(rest), limit);
              if r.None? then h' == None else h' == Some(r.value.value) && rest == r.value.rest
    {
      var key := NextText(limit);
      if key.None? {
        return None;
      }
      if key.value == KEY_T {
        var t := NextText(limit);
        h' := if t.None? then None else Some(h.(msgType := t.value));
      } else if key.value == KEY_OP {
        var op := NextInt();
        h' := if op.None? then None else Some(h.(op := op.value));
      } else {
        h' := None;
      }
    }

    /** decodeHeader: the fields of the map one after another, from the same reader. */
    method NextHeader(limit: nat) returns (h: Option<Header>)
      modifies this
      ensures var r := DecodeHeader(old(rest), limit);
              if r.None? then h == None else h == Some(r.value.value) && rest == r.value.rest
    {
      var head := NextHead();
      if head.None? || head.value.major != MAJ_MAP {
        return None;
      }
      ghost var fields := rest;
      var header := Header([], 1);
      for i := 0 to head.value.arg
        invariant DecodeFields(i, fields, limit) == Some(Read(header, rest))
      {
        var field := NextField(header, limit);
        if field.None? {
          NothingAfter(i + 1, head.value.arg, fields, limit);
          return None;
        }
        header := field.value;
      }
      h := Some(header);
    }
  }
}
