/** CryptoHelper: the block loop around a streaming hash, and the hex printer.

    The hash itself (MD5, RFC 1321 section 3) is library code; the loop is proved correct for
    every streaming hash in which updating twice is updating once with the two pieces joined.
    A C++ string is a sequence of bytes. */
module Crypto {
  import opened Base
  import opened Framing

  const BLOCK := 16

  /** A streaming hash: initial context, update, and final digest. */
  datatype Hash<!Ctx> = Hash(init: Ctx, update: (Ctx, Bytes) -> Ctx, final: Ctx -> Bytes)

  ghost predicate AppendLaw<Ctx(!new)>(h: Hash<Ctx>) {
    forall ctx: Ctx, a: Bytes, b: Bytes :: h.update(h.update(ctx, a), b) == h.update(ctx, a + b)
  }

  /** Hashing a word at once. */
  function Digest<Ctx>(h: Hash<Ctx>, word: Bytes): Bytes {
    h.final(h.update(h.init, word))
  }

  // ---------------------------------------------------------------- hex

  function HexDigit(n: nat): (d: Byte)
    requires n < 16
  {
    if n < 10 then n + 0x30 else n + 87
  }

  predicate IsHexDigit(d: Byte) {
    0x30 <= d <= 0x39 || 0x61 <= d <= 0x66
  }

  /** Two digits for every byte, the high half first. */
  function Hex(data: Bytes): Bytes {
    if data == [] then [] else [HexDigit(data[0] / 16), HexDigit(data[0] % 16)] + Hex(data[1..])
  }

  function DigitValue(d: Byte): Option<nat> {
    if 0x30 <= d <= 0x39 then Some(d - 0x30)
    else if 0x61 <= d <= 0x66 then Some(d - 87)
    else None
  }

  /** An independent reader of lower-case hex. */
  function Unhex(text: Bytes): Option<Bytes> {
    if text == [] then Some([])
    else if |text| == 1 then None
    else
      var rest := Unhex(text[2..]);
      match (DigitValue(text[0]), DigitValue(text[1]), rest)
      case (Some(hi), Some(lo), Some(bytes)) => if 16 * hi + lo < 256 then Some([16 * hi + lo] + bytes) else None
      case _ => None
  }

  lemma DigitRoundTrip(b: Byte)
    ensures DigitValue(HexDigit(b / 16)) == Some(b / 16) && DigitValue(HexDigit(b % 16)) == Some(b % 16)
    ensures 16 * (b / 16) + b % 16 == b
  {}

  /** Printing is twice as long, all lower-case hex digits, and read back by `Unhex`. */
  lemma {:induction false} HexRoundTrip(data: Bytes)
    ensures |Hex(data)| == 2 * |data|
    ensures forall d :: d in Hex(data) ==> IsHexDigit(d)
    ensures Unhex(Hex(data)) == Some(data)
  {
    if data != [] {
      HexRoundTrip(data[1..]);
      DigitRoundTrip(data[0]);
      var text := Hex(data);
      assert text[2..] == Hex(data[1..]) && text[0] == HexDigit(data[0] / 16) && text[1] == HexDigit(data[0] % 16);
      assert [data[0]] + data[1..] == data;
    }
  }

  const HEX_DIGITS := "0123456789abcdef"

  /** A byte prints as the character of its high half followed by that of its low half. */
  lemma HexOfByte(b: Byte)
    ensures Hex([b]) == [HEX_DIGITS[b / 16] as int, HEX_DIGITS[b % 16] as int]
  {
    HexDigitIsCharacter(b / 16);
    HexDigitIsCharacter(b % 16);
    assert [b][1..] == [];
  }

  lemma HexDigitIsCharacter(n: nat)
    requires n < 16
    ensures HexDigit(n) == HEX_DIGITS[n] as int
  {}

  /** Distinct digests print differently. */
  lemma HexIsInjective(a: Bytes, b: Bytes)
    ensures Hex(a) == Hex(b) <==> a == b
  {
    HexRoundTrip(a);
    HexRoundTrip(b);
  }

  lemma {:induction false} HexAppend(data: Bytes, b: Byte)
    ensures Hex(data + [b]) == Hex(data) + [HexDigit(b / 16), HexDigit(b % 16)]
  {
    if data == [] {
      assert [b][1..] == [];
    } else {
      HexAppend(data[1..], b);
      assert (data + [b])[1..] == data[1..] + [b];
    }
  }

  method ToHex(data: Bytes, count: nat) returns (s: Bytes)
    requires count <= |data|
    ensures s == Hex(data[..count])
  {
    s := [];
    var i := 0;
    while i < count
      invariant 0 <= i <= count
      invariant s == Hex(data[..i])
    {
      var ch := data[i];
      var lo := ch % 16;
      var hi := ch / 16;
      HexAppend(data[..i], ch);
      assert data[..i + 1] == data[..i] + [ch];
      s := s + [if hi < 10 then hi + 0x30 else hi + 87];
      s := s + [if lo < 10 then lo + 0x30 else lo + 87];
      i := i + 1;
    }
  }

  // ---------------------------------------------------------------- the block loop

  function Joined(blocks: seq<Bytes>): Bytes {
    if blocks == [] then [] else Joined(blocks[..|blocks| - 1]) + blocks[|blocks| - 1]
  }

  lemma JoinedAppend(blocks: seq<Bytes>, block: Bytes, rest: Bytes)
    ensures Joined(blocks + [block]) == Joined(blocks) + block
    ensures Joined(blocks + [block]) + rest == Joined(blocks) + (block + rest)
  {}

  lemma UpdateAppend<Ctx(!new)>(h: Hash<Ctx>, ctx: Ctx, a: Bytes, b: Bytes)
    requires AppendLaw(h)
    ensures h.update(h.update(ctx, a), b) == h.update(ctx, a + b)
  {}

  /** Feeding the word in blocks of 16 bytes, the last one shorter and possibly empty, prints
      the digest of the whole word.  `blocks` is what was fed. */
  method Md5Hash<Ctx(!new)>(h: Hash<Ctx>, word: Bytes) returns (hashWord: Bytes, blocks: seq<Bytes>)
    requires AppendLaw(h) && |Digest(h, word)| == BLOCK
    ensures hashWord == Hex(Digest(h, word))
    ensures Joined(blocks) == word && blocks != []
    ensures forall k :: 0 <= k < |blocks| - 1 ==> |blocks[k]| == BLOCK
    ensures |blocks[|blocks| - 1]| < BLOCK
  {
    var ctx := h.init;
    var copyWord := word;
    blocks := [];
    while |copyWord| >= BLOCK
      invariant Joined(blocks) + copyWord == word
      invariant h.update(ctx, copyWord) == h.update(h.init, word)
      invariant forall k :: 0 <= k < |blocks| ==> |blocks[k]| == BLOCK
      decreases |copyWord|
    {
      var substr := copyWord[..BLOCK];
      var rest := copyWord[BLOCK..];
      assert copyWord == substr + rest;
      UpdateAppend(h, ctx, substr, rest);
      JoinedAppend(blocks, substr, rest);
      ctx := h.update(ctx, substr);
      blocks := blocks + [substr];
      copyWord := rest;
    }
    JoinedAppend(blocks, copyWord, []);
    ctx := h.update(ctx, copyWord);
    blocks := blocks + [copyWord];
    var hash := h.final(ctx);
    hashWord := ToHex(hash, BLOCK);
    assert hash[..BLOCK] == hash;
  }
}
