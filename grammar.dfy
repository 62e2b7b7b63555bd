/**
 * The concrete grammars of `test.cpp`: the character classes, the two
 * converters, the IPv4 and IPv6 address grammars and the URI grammar built
 * inside `UriParser`, with the properties that the combinator laws give
 * them.
 *
 * A C++ `char` is a byte, so the lemmas about inputs assume every character
 * is below 256 (`Bytes`). The callbacks the URI grammar is given become
 * `Span` events named after them; the two handlers that print a converted
 * value become `Emitted` events.
 */
module Grammar {
  import opened Charsets
  import opened CombParser
  import opened Laws
  import opened Termination

  /* ---------------------------------------------------------------------
     Character classes
     --------------------------------------------------------------------- */

  /** The `n` consecutive characters starting at code `lo`. */
  function Consecutive(lo: nat, n: nat): (r: string)
    requires lo + n <= 128
    ensures |r| == n
    ensures forall c :: c in r <==> lo <= c as int < lo + n
  {
    var r := seq(n, i requires 0 <= i < n => (lo + i) as char);
    forall c ensures c in r <==> lo <= c as int < lo + n {
      if lo <= c as int < lo + n {
        assert r[c as int - lo] == c;
      }
    }
    r
  }

  lemma DigitString()
    ensures "0123456789" == Consecutive('0' as nat, 10)
  {
  }

  lemma LowerString()
    ensures "abcdefghijklmnopqrstuvwxyz" == Consecutive('a' as nat, 26)
  {
  }

  lemma UpperString()
    ensures "ABCDEFGHIJKLMNOPQRSTUVWXYZ" == Consecutive('A' as nat, 26)
  {
  }

  lemma LetterStrings()
    ensures "abcdefghijklmnopqrstuvwxyzABCDEFGHIJKLMNOPQRSTUVWXYZ"
         == Consecutive('a' as nat, 26) + Consecutive('A' as nat, 26)
    ensures "ABCDEFabcdef" == Consecutive('A' as nat, 6) + Consecutive('a' as nat, 6)
  {
    LowerString();
    UpperString();
    assert "abcdefghijklmnopqrstuvwxyzABCDEFGHIJKLMNOPQRSTUVWXYZ"
        == "abcdefghijklmnopqrstuvwxyz" + "ABCDEFGHIJKLMNOPQRSTUVWXYZ";
    assert "ABCDEF" == Consecutive('A' as nat, 6);
    assert "abcdef" == Consecutive('a' as nat, 6);
    assert "ABCDEFabcdef" == "ABCDEF" + "abcdef";
  }

  /** `alpha`: the ASCII letters. */
  function Alpha(): (cs: Charset)
    ensures forall b: Byte :: cs.Contains(b) <==>
      ('a' as int <= b <= 'z' as int) || ('A' as int <= b <= 'Z' as int)
  {
    LetterStrings();
    OfString("abcdefghijklmnopqrstuvwxyzABCDEFGHIJKLMNOPQRSTUVWXYZ")
  }

  /** `digit`: the decimal digits. */
  function Digit(): (cs: Charset)
    ensures forall b: Byte :: cs.Contains(b) <==> '0' as int <= b <= '9' as int
  {
    DigitString();
    OfString("0123456789")
  }

  /** `hexdigit`: `digit` together with the letters `A`-`F` and `a`-`f`. */
  function HexDigit(): (cs: Charset)
    ensures forall b: Byte :: cs.Contains(b) <==>
      ('0' as int <= b <= '9' as int) || ('A' as int <= b <= 'F' as int) || ('a' as int <= b <= 'f' as int)
  {
    LetterStrings();
    Digit().Union(OfString("ABCDEFabcdef"))
  }

  /** `!cs{chars}`: every byte except those of `chars`. */
  function AllBut(chars: string): (cs: Charset)
    requires SevenBit(chars)
    ensures forall b: Byte :: cs.Contains(b) <==> b as char !in chars
  {
    OfString(chars).Complement()
  }

  /** `p{cs}`: a non-empty run of characters whose byte is in `cs`. */
  function Pred(cs: Charset): Parser {
    Many(c => cs.Contains(ByteOf(c)))
  }

  /** Every character of `s` is a byte, as a C++ `char` is. */
  predicate Bytes(s: string) {
    forall i :: 0 <= i < |s| ==> s[i] as int < 256
  }

  predicate IsDigit(c: char) {
    '0' <= c <= '9'
  }

  /** On a byte character, the predicate of `p{digit}` is the digit test. */
  lemma DigitChar(c: char)
    requires c as int < 256
    ensures Digit().Contains(ByteOf(c)) <==> IsDigit(c)
  {
    var b := ByteOf(c);
    assert b == c as int;
    var digit := Digit();
    assert digit.Contains(b) <==> '0' as int <= b <= '9' as int;
  }

  /** A predicate run is determined by where the maximal run ends. */
  lemma RunEndAt(pred: char -> bool, s: string, pos: nat, q: nat, end: nat)
    requires pos <= q <= end <= |s|
    requires forall i | pos <= i < q :: pred(s[i])
    requires q == end || !pred(s[q])
    ensures RunEnd(pred, s, pos, end) == q
  {
  }

  /** The end of the maximal run of decimal digits from `pos`: `RunEnd` for
      the digit test on the character itself, stated without the charset so
      that lemmas about concrete strings need no lambda; `DigitRun` ties the
      two together. */
  function DigitsEnd(s: string, pos: nat, end: nat): (q: nat)
    requires pos <= end <= |s|
    ensures pos <= q <= end
    ensures forall i | pos <= i < q :: IsDigit(s[i])
    ensures q == end || !IsDigit(s[q])
    decreases end - pos
  {
    if pos != end && IsDigit(s[pos]) then DigitsEnd(s, pos + 1, end) else pos
  }

  /** On byte input, `p{digit}` matches exactly the maximal digit run. */
  lemma DigitRun(s: string, pos: nat, end: nat)
    requires pos <= end <= |s| && Bytes(s)
    ensures var q := DigitsEnd(s, pos, end);
      Parse(Pred(Digit()), s, pos, end)
        == if q > pos then Returned(q, Success()) else Returned(pos, Fail)
  {
    var pred := c => Digit().Contains(ByteOf(c));
    var q := DigitsEnd(s, pos, end);
    forall i | pos <= i <= q && i < end ensures pred(s[i]) <==> IsDigit(s[i]) {
      DigitChar(s[i]);
    }
    RunEndAt(pred, s, pos, q, end);
  }

  /* ---------------------------------------------------------------------
     Converters
     --------------------------------------------------------------------- */

  /** The value `to_number` computes: the left fold `num * 10 + (c - '0')`
      over the span, in unbounded integers. */
  function DecimalValue(s: string): int {
    if s == [] then 0
    else DecimalValue(s[..|s| - 1]) * 10 + (s[|s| - 1] as int - '0' as int)
  }

  /** The loop of `to_number`. */
  method ToNumber(s: string) returns (num: int)
    ensures num == DecimalValue(s)
  {
    num := 0;
    var pos := 0;
    while pos != |s|
      invariant pos <= |s|
      invariant num == DecimalValue(s[..pos])
    {
      assert s[..pos + 1][..pos] == s[..pos];
      num := num * 10 + s[pos] as int - '0' as int;
      pos := pos + 1;
    }
    assert s[..|s|] == s;
  }

  function Pow10(n: nat): (r: nat)
    ensures r >= 1
  {
    if n == 0 then 1 else 10 * Pow10(n - 1)
  }

  predicate AllDigits(s: string) {
    forall i :: 0 <= i < |s| ==> IsDigit(s[i])
  }

  /** Over a digit string the value is what the digits denote in base 10: it
      has no more digits than the string. */
  lemma {:induction false} DecimalBounds(s: string)
    requires AllDigits(s)
    ensures 0 <= DecimalValue(s) < Pow10(|s|)
  {
    if s != [] {
      assert AllDigits(s[..|s| - 1]);
      DecimalBounds(s[..|s| - 1]);
    }
  }

  /** The decimal rendering of a natural number, most significant digit
      first. */
  function Decimal(n: nat): (r: string)
    ensures r != [] && AllDigits(r)
  {
    var d := (n % 10 + '0' as int) as char;
    if n < 10 then [d] else Decimal(n / 10) + [d]
  }

  /** `to_number` reads back what `Decimal` renders. */
  lemma {:induction false} DecimalRoundTrip(n: nat)
    ensures DecimalValue(Decimal(n)) == n
  {
    var r := Decimal(n);
    if n >= 10 {
      DecimalRoundTrip(n / 10);
      assert r[..|r| - 1] == Decimal(n / 10);
    }
  }

  /** `to_string`: the characters of the span. */
  function ToText(s: string): Value {
    Text(s)
  }

  function ToNum(s: string): Value {
    Num(DecimalValue(s))
  }

  /* ---------------------------------------------------------------------
     Address grammars
     --------------------------------------------------------------------- */

  /** `p{digit} + p{'.'}`: a run of digits and a dot. */
  function DigitsDot(): Parser {
    Seq(Pred(Digit()), Chr('.'))
  }

  /** `IPv4`: exactly three digit runs followed by dots, then a digit run. */
  function IPv4(): Parser {
    Seq(Repeat(DigitsDot(), 3, 3), Pred(Digit()))
  }

  function Hex(): Parser {
    Pred(HexDigit())
  }

  function Hextet(): Parser {
    Seq(Hex(), Chr(':'))
  }

  /** `IPv6`: eight hex groups; or `::` and optionally groups; or groups, an
      empty group and optionally more groups. */
  function IPv6(): Parser {
    var v1 := Seq(Repeat(Hextet(), 7, 7), Hex());
    var v2 := Skip(Lit("::"), Optional(Seq(Repeat(Hextet(), 0, -1), Hex())));
    var v3 := Seq(Seq(Repeat(Hextet(), 0, -1), Chr(':')), Optional(Seq(Repeat(Hextet(), 0, -1), Hex())));
    Choice(Choice(v1, v2), v3)
  }

  /** `FQDN`: a run of letters, digits, dots and dashes. */
  function FQDN(): Parser {
    Pred(Alpha().Union(Digit()).Union(OfString(".-")))
  }

  /** `uri_schema`: a run of characters other than `:`, `/`, `?` and `#`. */
  function UriSchema(): Parser {
    Pred(AllBut(":/?#"))
  }

  /** `p{digit} + p{'.'}` matches a non-empty digit run and the dot right
      after it. */
  lemma DigitsDotMatches(s: string, pos: nat, end: nat)
    requires pos <= end <= |s| && Bytes(s)
    ensures var q := DigitsEnd(s, pos, end);
      Parse(DigitsDot(), s, pos, end)
        == if q > pos && q < end && s[q] == '.' then Returned(q + 1, Success()) else Returned(pos, Fail)
  {
    var q := DigitsEnd(s, pos, end);
    DigitRun(s, pos, end);
    assert Parse(DigitsDot(), s, pos, end) == ParseSeq(Pred(Digit()), Chr('.'), s, pos, end);
    if q > pos {
      assert Parse(Chr('.'), s, q, end) == ChrMatch('.', s, q, end);
    }
    var none: seq<Event> := [];
    assert none + none == none;
  }

  /** `DigitsEnd` is where the digit run ends. */
  lemma DigitsEndAt(s: string, pos: nat, q: nat, end: nat)
    requires pos <= q <= end <= |s|
    requires forall i | pos <= i < q :: IsDigit(s[i])
    requires q == end || !IsDigit(s[q])
    ensures DigitsEnd(s, pos, end) == q
  {
  }

  /** Where a group of digits and a dot starting at `pos` ends, if there is
      one; and where `n` such groups in a row end. */
  datatype Groups = GroupsAt(pos: nat) | NoGroups

  function DotGroups(s: string, pos: nat, end: nat, n: nat): (g: Groups)
    requires pos <= end <= |s|
    ensures g.GroupsAt? ==> pos <= g.pos <= end
    decreases n
  {
    if n == 0 then GroupsAt(pos)
    else
      var r := DotGroup(s, pos, end);
      if r.Ok() then DotGroups(s, r.pos, end, n - 1) else NoGroups
  }

  /** `IPv4` succeeds iff three groups of digits and a dot come first,
      followed by a digit run that is not itself followed by a dot (which
      `repeat(3, 3)` would take as a fourth group); it then consumes all of
      it and reports nothing. Otherwise the cursor stays. */
  lemma IPv4Matches(s: string, pos: nat, end: nat)
    requires pos <= end <= |s| && Bytes(s)
    ensures Parse(IPv4(), s, pos, end)
      == match DotGroups(s, pos, end, 3)
         case NoGroups => Returned(pos, Fail)
         case GroupsAt(p) =>
           var q := DigitsEnd(s, p, end);
           if q > p && (q == end || s[q] != '.') then Returned(q, Success()) else Returned(pos, Fail)
  {
    var groups := Repeat(DigitsDot(), 3, 3);
    var r1 := Parse(groups, s, pos, end);
    var r2 := if r1.Ok() then Parse(Pred(Digit()), s, r1.pos, end) else Diverges;
    GroupsRepeat(s, pos, end);
    SeqUnfold(groups, Pred(Digit()), s, pos, end, r1, r2);
    SequencedFacts(pos, r1, r2, true);
    if r1.Ok() {
      DigitRun(s, r1.pos, end);
    }
  }

  /** `repeat(3, 3)` of `p{digit} + p{'.'}` succeeds iff exactly three
      groups come first: a fourth group makes it fail. */
  lemma GroupsRepeat(s: string, pos: nat, end: nat)
    requires pos <= end <= |s| && Bytes(s)
    ensures Parse(Repeat(DigitsDot(), 3, 3), s, pos, end)
      == match DotGroups(s, pos, end, 3)
         case NoGroups => Returned(pos, Fail)
         case GroupsAt(p) => if DotGroup(s, p, end).Ok() then Returned(pos, Fail) else Returned(p, Success())
  {
    forall p | pos <= p <= end
      ensures Parse(DigitsDot(), s, p, end) == DotGroup(s, p, end)
    {
      DigitsDotMatches(s, p, end);
    }
    GroupsRepeatBy(DigitsDot(), s, pos, end);
  }

  /** `GroupsRepeat` for any operand that behaves like `p{digit} + p{'.'}`
      from `pos` on. */
  lemma GroupsRepeatBy(body: Parser, s: string, pos: nat, end: nat)
    requires pos <= end <= |s| && Total(body)
    requires forall p | pos <= p <= end :: Parse(body, s, p, end) == DotGroup(s, p, end)
    ensures Parse(Repeat(body, 3, 3), s, pos, end)
      == match DotGroups(s, pos, end, 3)
         case NoGroups => Returned(pos, Fail)
         case GroupsAt(p) => if DotGroup(s, p, end).Ok() then Returned(pos, Fail) else Returned(p, Success())
  {
    RepeatTerminates(body, 3, s, pos, end, 0, []);
    assert Parse(Repeat(body, 3, 3), s, pos, end) == ParseRepeat(body, 3, 3, s, pos, end);
    var n := RepeatCount(body, 3, 3, s, pos, end);
    var c := Iterate(body, s, pos, end, n);
    GroupsIterateBy(body, s, pos, end, n);
    DotGroupsSplit(s, pos, end, n, 3);
    DotGroupsSplit(s, pos, end, 3, n);
    if c.pos < end {
      assert Parse(body, s, c.pos, end) == DotGroup(s, c.pos, end);
    }
  }

  /** `n` groups in a row are `k` groups and then `n - k` more. */
  lemma {:induction false} DotGroupsSplit(s: string, pos: nat, end: nat, k: nat, n: nat)
    requires pos <= end <= |s|
    ensures k <= n ==>
      DotGroups(s, pos, end, n)
        == match DotGroups(s, pos, end, k)
           case NoGroups => NoGroups
           case GroupsAt(p) => DotGroups(s, p, end, n - k)
    ensures n < k && DotGroups(s, pos, end, k).GroupsAt? ==>
      var p := DotGroups(s, pos, end, n);
      p.GroupsAt? && DotGroups(s, p.pos, end, k - n).GroupsAt?
    decreases k
  {
    if k > 0 && n > 0 {
      var r := DotGroup(s, pos, end);
      if r.Ok() {
        DotGroupsSplit(s, r.pos, end, k - 1, n - 1);
      }
    }
  }

  /** What `p{digit} + p{'.'}` returns at `pos`. */
  function DotGroup(s: string, pos: nat, end: nat): (r: Outcome)
    requires pos <= end <= |s|
    ensures r.Returned? && (r.Ok() ==> pos < r.pos <= end)
  {
    var q := DigitsEnd(s, pos, end);
    if q > pos && q < end && s[q] == '.' then Returned(q + 1, Success()) else Returned(pos, Fail)
  }

  /** `n` iterations of an operand that behaves like `p{digit} + p{'.'}`
      from `pos` on are `n` groups. */
  lemma {:induction false} GroupsIterateBy(body: Parser, s: string, pos: nat, end: nat, n: nat)
    requires pos <= end <= |s|
    requires forall p | pos <= p <= end :: Parse(body, s, p, end) == DotGroup(s, p, end)
    ensures Iterate(body, s, pos, end, n)
      == match DotGroups(s, pos, end, n)
         case NoGroups => Broken
         case GroupsAt(p) => Chain(p, [])
    decreases n
  {
    if n > 0 && pos != end {
      var r := DotGroup(s, pos, end);
      assert Parse(body, s, pos, end) == r;
      if r.Ok() {
        IterateStep(body, s, pos, end, n - 1);
        GroupsIterateBy(body, s, r.pos, end, n - 1);
        var none: seq<Event> := [];
        assert none + none == none;
      } else {
        IterateBroken(body, s, pos, end, n);
      }
    }
  }

  /** A dotted quad is matched to its end. */
  lemma IPv4Accepts()
    ensures Parse(IPv4(), "192.168.1.1", 0, 11) == Returned(11, Success())
  {
    var s := "192.168.1.1";
    assert Bytes(s);
    DigitsEndAt(s, 0, 3, 11);
    DigitsEndAt(s, 4, 7, 11);
    DigitsEndAt(s, 8, 9, 11);
    DigitsEndAt(s, 10, 11, 11);
    assert DotGroups(s, 0, 11, 3) == GroupsAt(10);
    IPv4Matches(s, 0, 11);
  }

  /** Three groups are too few: the match fails and the cursor stays. */
  lemma IPv4TooShort()
    ensures Parse(IPv4(), "1.2.3", 0, 5) == Returned(0, Fail)
  {
    var s := "1.2.3";
    assert Bytes(s);
    DigitsEndAt(s, 0, 1, 5);
    DigitsEndAt(s, 2, 3, 5);
    DigitsEndAt(s, 4, 5, 5);
    assert DotGroups(s, 0, 5, 3) == NoGroups;
    IPv4Matches(s, 0, 5);
  }

  /** Five groups are too many: after three groups the digit run is
      followed by a dot, so `repeat(3, 3)` collects a fourth group and then
      rejects the count. */
  lemma IPv4TooLong()
    ensures Parse(IPv4(), "1.2.3.4.5", 0, 9) == Returned(0, Fail)
  {
    var s := "1.2.3.4.5";
    assert Bytes(s);
    DigitsEndAt(s, 0, 1, 9);
    DigitsEndAt(s, 2, 3, 9);
    DigitsEndAt(s, 4, 5, 9);
    DigitsEndAt(s, 6, 7, 9);
    assert DotGroups(s, 0, 9, 3) == GroupsAt(6);
    IPv4Matches(s, 0, 9);
  }
}
