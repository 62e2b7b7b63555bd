/**
 * `to_number` accumulates into a 32-bit `int`. Its three operations per
 * digit (`num*10`, `+ *pos`, `- '0'`) are modelled with two's-complement
 * wrap-around, the behaviour of every mainstream compiler for this code
 * (the language itself leaves signed overflow undefined). With it, a digit
 * string of ten or more digits can wrap into the range the port handler
 * accepts: `port` as written accepts `4294967297` as port 1. The rest of
 * the model uses the unbounded `to_number` of `Grammar.ToNumber`, under
 * which `port` accepts exactly the values 1 to 65535.
 */
module Overflow {
  import opened CombParser
  import opened Grammar
  import opened UriParser

  const Modulus: int := 0x1_0000_0000
  const Half: int := 0x8000_0000

  /** The 32-bit two's-complement value of `x`. */
  function Wrap32(x: int): (r: int)
    ensures -Half <= r < Half
    ensures r == x - ((x + Half) / Modulus) * Modulus
  {
    (x + Half) % Modulus - Half
  }

  /** Values that differ by a multiple of 2^32 wrap to the same value. */
  lemma WrapShift(x: int, k: int)
    ensures Wrap32(x + k * Modulus) == Wrap32(x)
  {
    var r := Wrap32(x);
    var y := x + k * Modulus;
    assert y + Half == (k + (x + Half) / Modulus) * Modulus + (r + Half);
    assert 0 <= r + Half < Modulus;
  }

  /** Wrapping an operand first does not change the wrapped result of a
      multiplication by ten or of an addition. */
  lemma WrapTimesTen(x: int)
    ensures Wrap32(Wrap32(x) * 10) == Wrap32(x * 10)
  {
    var k := (x + Half) / Modulus;
    assert Wrap32(x) * 10 == x * 10 + (-10 * k) * Modulus;
    WrapShift(x * 10, -10 * k);
  }

  lemma WrapPlus(x: int, d: int)
    ensures Wrap32(Wrap32(x) + d) == Wrap32(x + d)
  {
    var k := (x + Half) / Modulus;
    assert Wrap32(x) + d == x + d + (-k) * Modulus;
    WrapShift(x + d, -k);
  }

  /** The loop of `to_number` as written: every operation wraps. */
  function DecimalValue32(s: string): int {
    if s == [] then 0
    else Wrap32(Wrap32(Wrap32(DecimalValue32(s[..|s| - 1]) * 10) + s[|s| - 1] as int) - '0' as int)
  }

  method ToNumber32(s: string) returns (num: int)
    ensures num == DecimalValue32(s)
    ensures num == Wrap32(DecimalValue(s))
  {
    num := 0;
    var pos := 0;
    while pos < |s|
      invariant pos <= |s|
      invariant num == DecimalValue32(s[..pos])
    {
      assert s[..pos + 1][..pos] == s[..pos];
      num := Wrap32(Wrap32(Wrap32(num * 10) + s[pos] as int) - '0' as int);
      pos := pos + 1;
    }
    assert s[..pos] == s;
    Wraps(s);
  }

  /** The wrapped loop computes the true value modulo 2^32. */
  lemma {:induction false} Wraps(s: string)
    ensures DecimalValue32(s) == Wrap32(DecimalValue(s))
  {
    if s != [] {
      var init := s[..|s| - 1];
      var c := s[|s| - 1] as int;
      Wraps(init);
      var v := DecimalValue(init);
      WrapTimesTen(v);
      WrapPlus(v * 10, c);
      WrapPlus(v * 10 + c, -('0' as int));
    }
  }

  function ToNum32(s: string): Value {
    Num(DecimalValue32(s))
  }

  /** `port` with the 32-bit `to_number`. */
  function Port32(): Parser {
    Attach(Pred(Digit()), Convert(ToNum32, PortHandler))
  }

  /** What `port` does as written: the run of digits is read modulo 2^32. */
  lemma Port32Matches(s: string, pos: nat, end: nat)
    requires pos <= end <= |s| && Bytes(s)
    ensures var q := DigitsEnd(s, pos, end);
      var v := Wrap32(DecimalValue(s[pos..q]));
      Parse(Port32(), s, pos, end)
        == if q > pos && 0 < v < 65536 then Returned(q, Run([Emitted("port", Num(v))]))
           else Returned(pos, Fail)
  {
    Port32Reads(s, pos, end);
    Wraps(s[pos..DigitsEnd(s, pos, end)]);
  }

  lemma Port32Reads(s: string, pos: nat, end: nat)
    requires pos <= end <= |s| && Bytes(s)
    ensures var q := DigitsEnd(s, pos, end);
      var v := DecimalValue32(s[pos..q]);
      Parse(Port32(), s, pos, end)
        == if q > pos && 0 < v < 65536 then Returned(q, Run([Emitted("port", Num(v))]))
           else Returned(pos, Fail)
  {
    ConvertedPort(ToNum32, s, pos, end);
  }

  /** The value of the ten digits `4294967297`, one more than 2^32. */
  lemma BigValue()
    ensures DecimalValue("4294967297") == 4294967297
  {
    assert DecimalValue("4") == 4;
    assert DecimalValue("42") == 42 by { assert "42"[..1] == "4"; }
    assert DecimalValue("429") == 429 by { assert "429"[..2] == "42"; }
    assert DecimalValue("4294") == 4294 by { assert "4294"[..3] == "429"; }
    assert DecimalValue("42949") == 42949 by { assert "42949"[..4] == "4294"; }
    assert DecimalValue("429496") == 429496 by { assert "429496"[..5] == "42949"; }
    assert DecimalValue("4294967") == 4294967 by { assert "4294967"[..6] == "429496"; }
    assert DecimalValue("42949672") == 42949672 by { assert "42949672"[..7] == "4294967"; }
    assert DecimalValue("429496729") == 429496729 by { assert "429496729"[..8] == "42949672"; }
    assert "4294967297"[..9] == "429496729";
  }

  lemma BigDigits()
    ensures DigitsEnd("4294967297", 0, 10) == 10
  {
    var s := "4294967297";
    DigitsEndAt(s, 0, 10, 10);
  }

  /** As written, `port` accepts the ten-digit `4294967297` as port 1. */
  lemma Port32AcceptsOverflow()
    ensures Parse(Port32(), "4294967297", 0, 10) == Returned(10, Run([Emitted("port", Num(1))]))
  {
    var s := "4294967297";
    BigValue();
    assert Wrap32(4294967297) == 1;
    BigDigits();
    assert s[0..10] == s;
    Port32Matches(s, 0, 10);
  }

  /** With the unbounded reading, the same input is not a port. */
  lemma PortRejectsOverflow()
    ensures Parse(Port(), "4294967297", 0, 10) == Returned(0, Fail)
  {
    var s := "4294967297";
    BigValue();
    BigDigits();
    assert s[0..10] == s;
    PortMatches(s, 0, 10);
  }
}
