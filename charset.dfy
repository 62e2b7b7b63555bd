/**
 * The byte-class bitmap of `charset.h`: a 256-bit membership table kept as
 * four 64-bit words. Byte `b` lives in bit `b & 0x3F` (that is `b % 64`) of
 * word `b >> 6` (that is `b / 64`).
 *
 * A 64-bit word is modelled as its 64 bits, least significant first, and
 * the word operators `|`, `& ~` and `~` act bit by bit. The C++ builds each
 * one-bit mask by shifting an `int` (`1 << (c & 0x3F)`), which is undefined
 * for shift amounts of 32 and more; this model uses the evidently intended
 * 64-bit one-bit-per-byte layout throughout.
 */
module Charsets {

  /** An unsigned byte, the argument type of `charset::operator()`. */
  type Byte = b: int | 0 <= b < 256

  /** A 64-bit word, as its bits from least to most significant. */
  type Word = s: seq<bool> | |s| == 64 witness seq(64, _ => false)

  /** The backing `std::array<uint64_t, 4>`. */
  type Bitmap = s: seq<Word> | |s| == 4
    witness [seq(64, _ => false), seq(64, _ => false), seq(64, _ => false), seq(64, _ => false)]

  /** The word with every bit clear. */
  function ZeroWord(): Word {
    seq(64, _ => false)
  }

  /** `x | y`. */
  function Or(x: Word, y: Word): Word {
    seq(64, k requires 0 <= k < 64 => x[k] || y[k])
  }

  /** `x & ~y`. */
  function AndNot(x: Word, y: Word): Word {
    seq(64, k requires 0 <= k < 64 => x[k] && !y[k])
  }

  /** `~x`. */
  function Not(x: Word): Word {
    seq(64, k requires 0 <= k < 64 => !x[k])
  }

  /** Membership of byte `b` in a raw bitmap: bit `b & 0x3F` of word `b >> 6`. */
  predicate InBitmap(bitmap: Bitmap, b: Byte) {
    bitmap[b / 64][b % 64]
  }

  /** The conversion of a `char` to `uint8_t` that C++ applies when a charset
      is used as a character predicate: the value modulo 256. */
  function ByteOf(c: char): Byte {
    (c as int) % 256
  }

  datatype Charset = Charset(bitmap: Bitmap) {

    /** `operator()`: is byte `b` a member? */
    predicate Contains(b: Byte) {
      InBitmap(bitmap, b)
    }

    /** `operator+`: the word-wise OR of the two bitmaps. */
    function Union(other: Charset): (r: Charset)
      ensures forall b: Byte :: r.Contains(b) <==> Contains(b) || other.Contains(b)
    {
      Charset(seq(4, w requires 0 <= w < 4 => Or(bitmap[w], other.bitmap[w])))
    }

    /** `operator-`: the word-wise AND with the complement of `other`. */
    function Minus(other: Charset): (r: Charset)
      ensures forall b: Byte :: r.Contains(b) <==> Contains(b) && !other.Contains(b)
    {
      Charset(seq(4, w requires 0 <= w < 4 => AndNot(bitmap[w], other.bitmap[w])))
    }

    /** `operator!`: the word-wise complement. */
    function Complement(): (r: Charset)
      ensures forall b: Byte :: r.Contains(b) <==> !Contains(b)
    {
      Charset(seq(4, w requires 0 <= w < 4 => Not(bitmap[w])))
    }
  }

  /** The default constructor: every word zero. */
  function Empty(): (cs: Charset)
    ensures forall b: Byte :: !cs.Contains(b)
  {
    Charset([ZeroWord(), ZeroWord(), ZeroWord(), ZeroWord()])
  }

  /** The bitmap after `bitmap[c >> 6] |= 1 << (c & 0x3F)`. */
  function SetByte(bitmap: Bitmap, c: Byte): Bitmap {
    bitmap[c / 64 := bitmap[c / 64][c % 64 := true]]
  }

  /** Setting byte `c` adds `c` and nothing else. */
  lemma SetByteMember(bitmap: Bitmap, c: Byte, b: Byte)
    ensures InBitmap(SetByte(bitmap, c), b) <==> InBitmap(bitmap, b) || b == c
  {
    assert b == 64 * (b / 64) + b % 64;
    assert c == 64 * (c / 64) + c % 64;
  }

  /** The string constructor is given 7-bit characters: a `char` with the top
      bit set is negative in C++ and would index the bitmap out of range. */
  predicate SevenBit(str: string) {
    forall i :: 0 <= i < |str| ==> str[i] as int < 128
  }

  /** The bitmap the string constructor builds: the characters of `str`, set
      one after another from first to last. */
  function StringBitmap(str: string): Bitmap
    requires SevenBit(str)
  {
    if str == [] then Empty().bitmap
    else SetByte(StringBitmap(str[..|str| - 1]), str[|str| - 1] as int)
  }

  lemma {:induction false} StringBitmapMember(str: string, b: Byte)
    requires SevenBit(str)
    ensures InBitmap(StringBitmap(str), b) <==> b as char in str
  {
    if str != [] {
      var init, last := str[..|str| - 1], str[|str| - 1];
      assert SevenBit(init);
      assert str == init + [last];
      StringBitmapMember(init, b);
      SetByteMember(StringBitmap(init), last as int, b);
    }
  }

  /** The charset built from a string holds exactly its characters. */
  function OfString(str: string): (cs: Charset)
    requires SevenBit(str)
    ensures forall b: Byte :: cs.Contains(b) <==> b as char in str
  {
    var cs := Charset(StringBitmap(str));
    assert forall b: Byte :: cs.Contains(b) <==> b as char in str by {
      forall b: Byte ensures cs.Contains(b) <==> b as char in str {
        StringBitmapMember(str, b);
      }
    }
    cs
  }

  /** The bitmap after the predicate constructor's loop has visited the
      bytes below `n`. */
  function Scanned(f: Byte -> bool, n: nat): Bitmap
    requires n <= 256
  {
    if n == 0 then Empty().bitmap
    else if f(n - 1) then SetByte(Scanned(f, n - 1), n - 1)
    else Scanned(f, n - 1)
  }

  lemma {:induction false} ScannedMember(f: Byte -> bool, n: nat, b: Byte)
    requires n <= 256
    ensures InBitmap(Scanned(f, n), b) <==> b < n && f(b)
  {
    if n != 0 {
      ScannedMember(f, n - 1, b);
      SetByteMember(Scanned(f, n - 1), n - 1, b);
    }
  }

  /** `charset(const std::function<bool(uint8_t)>&)`: one pass over the 256
      byte values, setting the bit of each one the predicate accepts. */
  method FromPredicate(f: Byte -> bool) returns (cs: Charset)
    ensures cs == Charset(Scanned(f, 256))
    ensures forall b: Byte :: cs.Contains(b) <==> f(b)
  {
    var bitmap := new Word[4](_ => ZeroWord());
    for idx := 0 to 256
      invariant bitmap[..] == Scanned(f, idx)
    {
      if f(idx) {
        bitmap[idx / 64] := bitmap[idx / 64][idx % 64 := true];
      }
    }
    cs := Charset(bitmap[..]);
    forall b: Byte ensures cs.Contains(b) <==> f(b) {
      ScannedMember(f, 256, b);
    }
  }

  /** `charset(const std::string&)`: one pass over the string, setting the bit
      of each character. */
  method FromString(str: string) returns (cs: Charset)
    requires SevenBit(str)
    ensures cs == OfString(str)
  {
    var bitmap := new Word[4](_ => ZeroWord());
    for i := 0 to |str|
      invariant SevenBit(str[..i])
      invariant bitmap[..] == StringBitmap(str[..i])
    {
      var c := str[i] as int;
      bitmap[c / 64] := bitmap[c / 64][c % 64 := true];
      assert str[..i + 1][..i] == str[..i];
    }
    assert str[..|str|] == str;
    cs := Charset(bitmap[..]);
  }

  /** A double complement gives back the same bitmap. */
  lemma ComplementInvolutive(cs: Charset)
    ensures cs.Complement().Complement() == cs
  {
    var r := cs.Complement().Complement();
    forall w | 0 <= w < 4 ensures r.bitmap[w] == cs.bitmap[w] {
      assert r.bitmap[w] == Not(Not(cs.bitmap[w]));
    }
  }
}
