/** The structure block of a flattened devicetree: the byte-level tokenizer, and the encoding of
    section 5.4 of the Devicetree Specification v0.3 that it inverts. */
module FdtTokens {
  import opened Bits

  type byte = x: int | 0 <= x < 256

  const FDT_BEGIN_NODE: nat := 1
  const FDT_END_NODE: nat := 2
  const FDT_PROP: nat := 3
  const FDT_NOP: nat := 4

  const U32: nat := 0x1_0000_0000

  datatype Token =
    | BeginNode(name: seq<byte>)
    | Property(nameOff: nat, data: seq<byte>)
    | EndNode

  /** What one call of `TokenIter::next` does: no token, a slice out of bounds, or a token and
      the rest of the buffer. */
  datatype Next = Stop | Panic | Got(token: Token, rest: seq<byte>)

  /** `u32::from_be_bytes` of the first four bytes. */
  function ReadU32(buf: seq<byte>): nat
    requires |buf| >= 4
  {
    buf[0] as int * 0x100_0000 + buf[1] as int * 0x1_0000 + buf[2] as int * 256 + buf[3] as int
  }

  function BigEndian(x: nat): (r: seq<byte>)
    requires x < U32
    ensures |r| == 4
  {
    [x / 0x100_0000, x / 0x1_0000 % 256, x / 256 % 256, x % 256]
  }

  /** The position of the first NUL, or the length. */
  function NulPosition(buf: seq<byte>): (n: nat)
    ensures n <= |buf|
    ensures forall i :: 0 <= i < n ==> buf[i] != 0
    ensures n < |buf| ==> buf[n] == 0
  {
    if buf == [] || buf[0] == 0 then 0 else
      var n := 1 + NulPosition(buf[1..]);
      assert forall i :: 1 <= i < n ==> buf[i] == buf[1..][i - 1];
      n
  }

  /** `align_up(val, 4)`. */
  function AlignUp4(val: nat): nat
    requires val + 4 <= WORD
  {
    AlignUp(val, 4)
  }

  lemma {:induction false} AlignUp4Means(val: nat)
    requires val + 4 <= WORD
    ensures AlignUp4(val) == val + Padding(val)
  {
    hide AlignUp;
    assert Pow2(2) == 4;
    AlignUpIsLeast(val, 2);
    NextMultiple(val, AlignUp(val, 4));
  }

  lemma {:induction false} NextMultiple(val: nat, up: nat)
    requires val <= up < val + 4 && up % 4 == 0
    ensures up == val + Padding(val)
  {
    var q, r := val / 4, val % 4;
    assert val == 4 * q + r;
  }

  /** The number of padding bytes after `val` bytes. */
  function Padding(val: nat): nat {
    (4 - val % 4) % 4
  }

  /** `TokenIter::next`. */
  function NextToken(buf: seq<byte>): Next
    requires |buf| + 4 <= WORD
    decreases |buf|
  {
    if |buf| < 4 then Stop
    else
      var tag, rest := ReadU32(buf), buf[4..];
      if tag == FDT_BEGIN_NODE then
        var n := NulPosition(rest);
        if n == |rest| then Stop
        else
          var len := AlignUp4(n + 1);
          if len > |rest| then Panic else Got(BeginNode(rest[..n]), rest[len..])
      else if tag == FDT_PROP then
        if |rest| < 8 then Stop
        else
          var len, nameOff, body := ReadU32(rest), ReadU32(rest[4..]), rest[8..];
          if len > |body| then Panic
          else
            var skip := AlignUp4(len);
            if skip > |body| then Panic else Got(Property(nameOff, body[..len]), body[skip..])
      else if tag == FDT_END_NODE then Got(EndNode, rest)
      else if tag == FDT_NOP then NextToken(rest)
      else Stop
  }

  // ----- The encoding -----

  /** A token as it is written: any number of NOPs before it, any padding bytes after it. */
  datatype Item = Item(nops: nat, token: Token, pad: seq<byte>)

  predicate WellFormedItem(i: Item) {
    match i.token
    case BeginNode(name) => (forall k :: 0 <= k < |name| ==> name[k] != 0) && |i.pad| == Padding(|name| + 1)
    case Property(nameOff, data) => nameOff < U32 && |data| < U32 && |i.pad| == Padding(|data|)
    case EndNode => i.pad == []
  }

  /** The four bytes of a token's tag, as section 5.4.1 numbers the tokens: 1 to 4 and 9. */
  function Tag(b: byte): (r: seq<byte>)
    ensures |r| == 4
  {
    [0, 0, 0, b]
  }

  function EncodeToken(t: Token, pad: seq<byte>): seq<byte>
    requires t.Property? ==> t.nameOff < U32 && |t.data| < U32
  {
    match t
    case BeginNode(name) => Tag(1) + (name + ([0] + pad))
    case Property(nameOff, data) =>
      Tag(3) + (BigEndian(|data|) + (BigEndian(nameOff) + (data + pad)))
    case EndNode => Tag(2) + pad
  }

  function EncodeItem(i: Item): seq<byte>
    requires WellFormedItem(i)
    decreases i.nops
  {
    if i.nops == 0 then EncodeToken(i.token, i.pad)
    else Tag(4) + EncodeItem(i.(nops := i.nops - 1))
  }

  function Encode(items: seq<Item>): seq<byte>
    requires forall i :: 0 <= i < |items| ==> WellFormedItem(items[i])
  {
    if items == [] then [] else EncodeItem(items[0]) + Encode(items[1..])
  }

  function TokensOf(items: seq<Item>): seq<Token> {
    seq(|items|, i requires 0 <= i < |items| => items[i].token)
  }

  // ----- The tokenizer inverts the encoding -----

  lemma {:induction false} ReadBigEndian(x: nat, tail: seq<byte>)
    requires x < U32
    ensures ReadU32(BigEndian(x) + tail) == x && (BigEndian(x) + tail)[4..] == tail
  {
    var b := BigEndian(x) + tail;
    assert b[0] == x / 0x100_0000 && b[1] == x / 0x1_0000 % 256 && b[2] == x / 256 % 256 && b[3] == x % 256;
    assert x / 256 / 256 == x / 0x1_0000 && x / 0x1_0000 / 256 == x / 0x100_0000;
  }

  /** The reader compares with these numbers. */
  lemma {:induction false} ReadTag(x: byte, tail: seq<byte>)
    ensures ReadU32(Tag(x) + tail) == x && (Tag(x) + tail)[4..] == tail
  {
    var b := Tag(x) + tail;
    assert b[0] == 0 && b[1] == 0 && b[2] == 0 && b[3] == x;
  }

  lemma {:induction false} NulAfterName(name: seq<byte>, tail: seq<byte>)
    requires forall k :: 0 <= k < |name| ==> name[k] != 0
    ensures NulPosition(name + ([0] + tail)) == |name|
  {
    var b := name + ([0] + tail);
    var n := NulPosition(b);
    assert b[|name|] == 0;
    assert forall i :: 0 <= i < |name| ==> b[i] == name[i];
  }

  /** One encoded token, whatever follows it, is read back, and the reader stands right behind
      its padding. */
  lemma {:induction false} NextOfToken(t: Token, pad: seq<byte>, tail: seq<byte>)
    requires WellFormedItem(Item(0, t, pad)) && |EncodeToken(t, pad)| + |tail| + 4 <= WORD
    ensures NextToken(EncodeToken(t, pad) + tail) == Got(t, tail)
  {
    match t
    case BeginNode(name) => NextOfBegin(name, pad, tail);
    case Property(nameOff, data) => NextOfProperty(nameOff, data, pad, tail);
    case EndNode =>
      assert Tag(2) + pad == Tag(2);
      ReadTag(2, tail);
  }

  lemma {:induction false} NextOfBegin(name: seq<byte>, pad: seq<byte>, tail: seq<byte>)
    requires WellFormedItem(Item(0, BeginNode(name), pad))
    requires |EncodeToken(BeginNode(name), pad)| + |tail| + 4 <= WORD
    ensures NextToken(EncodeToken(BeginNode(name), pad) + tail) == Got(BeginNode(name), tail)
  {
    hide AlignUp4, NulPosition, ReadU32, BigEndian, Tag;
    var rest := name + ([0] + (pad + tail));
    assert EncodeToken(BeginNode(name), pad) + tail == Tag(1) + rest;
    ReadTag(1, rest);
    NulAfterName(name, pad + tail);
    AlignUp4Means(|name| + 1);
    assert rest[..|name|] == name;
    assert rest[|name| + 1 + |pad|..] == tail;
  }

  lemma {:induction false} NextOfProperty(nameOff: nat, data: seq<byte>, pad: seq<byte>, tail: seq<byte>)
    requires WellFormedItem(Item(0, Property(nameOff, data), pad))
    requires |EncodeToken(Property(nameOff, data), pad)| + |tail| + 4 <= WORD
    ensures NextToken(EncodeToken(Property(nameOff, data), pad) + tail) == Got(Property(nameOff, data), tail)
  {
    hide AlignUp4, NulPosition, ReadU32, BigEndian, Tag;
    var body := data + (pad + tail);
    var rest1 := BigEndian(nameOff) + body;
    var rest := BigEndian(|data|) + rest1;
    assert EncodeToken(Property(nameOff, data), pad) + tail == Tag(3) + rest;
    ReadTag(3, rest);
    ReadBigEndian(|data|, rest1);
    ReadBigEndian(nameOff, body);
    AlignUp4Means(|data|);
    assert rest[8..] == rest1[4..] == body;
    assert body[..|data|] == data;
    assert body[|data| + |pad|..] == tail;
  }

  lemma {:induction false} NextOfItem(i: Item, tail: seq<byte>)
    requires WellFormedItem(i) && |EncodeItem(i)| + |tail| + 4 <= WORD
    ensures NextToken(EncodeItem(i) + tail) == Got(i.token, tail)
    decreases i.nops
  {
    hide ReadU32, Tag, EncodeToken;
    if i.nops == 0 {
      NextOfToken(i.token, i.pad, tail);
    } else {
      var j := i.(nops := i.nops - 1);
      NextOfItem(j, tail);
      assert EncodeItem(i) + tail == Tag(4) + (EncodeItem(j) + tail);
      ReadTag(4, EncodeItem(j) + tail);
    }
  }

  /** The reader at `buf` yields exactly `toks`, in order, and then stops. */
  ghost predicate Yields(buf: seq<byte>, toks: seq<Token>)
    decreases |toks|
  {
    && |buf| + 4 <= WORD
    && if toks == [] then NextToken(buf) == Stop
       else NextToken(buf).Got? && NextToken(buf).token == toks[0] && Yields(NextToken(buf).rest, toks[1..])
  }

  /** For every stream of tokens, encoded with any NOPs and any padding and closed by FDT_END,
      the tokenizer yields exactly these tokens, in order. */
  lemma {:induction false} TokenizerInvertsEncoding(items: seq<Item>, tail: seq<byte>)
    requires forall i :: 0 <= i < |items| ==> WellFormedItem(items[i])
    requires |Encode(items)| + |tail| + 8 <= WORD
    ensures Yields(Encode(items) + (Tag(9) + tail), TokensOf(items))
  {
    hide ReadU32, Tag, EncodeItem, NextToken;
    var end := Tag(9) + tail;
    if items == [] {
      assert Encode(items) + end == end;
      StopAtEnd(tail);
    } else {
      var rest := Encode(items[1..]) + end;
      assert Encode(items) + end == EncodeItem(items[0]) + rest;
      NextOfItem(items[0], rest);
      TokenizerInvertsEncoding(items[1..], tail);
      assert TokensOf(items)[1..] == TokensOf(items[1..]);
    }
  }

  lemma {:induction false} StopAtEnd(tail: seq<byte>)
    requires |tail| + 8 <= WORD
    ensures NextToken(Tag(9) + tail) == Stop
  {
    hide Tag, ReadU32;
    ReadTag(9, tail);
  }
}
