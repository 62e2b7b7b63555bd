/**
 * The URI grammar that `UriParser` in `test.cpp` builds:
 *
 *   uri = [schema ':'] ["//" authority] [path] ['?' params] ['#' fragment]
 *
 * Seven of the nine callbacks it is given become `Span` events named after
 * them ("authority", "path_item", "param_name", "param_value", "param_flag",
 * "params", "fragment"). The other two, `schema_cb` and `port_cb`, are never
 * called: the schema and port handlers print the converted value instead,
 * and become `Emitted` events named "schema" and "port".
 */
module UriParser {
  import opened Charsets
  import opened CombParser
  import opened Laws
  import opened Termination
  import opened Grammar

  /* ---------------------------------------------------------------------
     The grammar
     --------------------------------------------------------------------- */

  /** The handler given to `to_string` in `schema`. */
  function SchemaHandler(v: Value): Effect {
    Run([Emitted("schema", v)])
  }

  /** The handler given to `to_number` in `port`: ports 1 to 65535 only. */
  function PortHandler(v: Value): Effect {
    if v.Num? && 0 < v.n < 65536 then Run([Emitted("port", v)]) else Fail
  }

  function Schema(): Parser {
    Attach(Attach(UriSchema(), Choice(Choice(Lit("http"), Lit("https")), Lit("ftp"))),
           Convert(ToText, SchemaHandler))
  }

  function Port(): Parser {
    Attach(Pred(Digit()), Convert(ToNum, PortHandler))
  }

  function Host(): Parser {
    Attach(Choice(Choice(Seq(Seq(Chr('['), IPv6()), Chr(']')), IPv4()), FQDN()), Act("authority"))
  }

  function HostPort(): Parser {
    Seq(Host(), Optional(Skip(Chr(':'), Port())))
  }

  function Authority(): Parser {
    Attach(Pred(AllBut("/?#")), Seq(HostPort(), End))
  }

  function PathItem(): Parser {
    Attach(Pred(AllBut("/?#")), Act("path_item"))
  }

  function Path(): Parser {
    Repeat(Skip(Chr('/'), Optional(PathItem())), 0, -1)
  }

  function ParamVar(): Parser {
    Attach(Pred(AllBut("&=;#")), Act("param_name"))
  }

  function ParamValue(): Parser {
    Attach(Pred(AllBut("&;=#")), Act("param_value"))
  }

  function ParamPair(): Parser {
    Seq(ParamVar(), Skip(Chr('='), ParamValue()))
  }

  function ParamFlag(): Parser {
    Attach(Pred(AllBut("&=;#")), Act("param_flag"))
  }

  function Param(): Parser {
    Attach(Pred(AllBut("&#;")), Seq(Choice(ParamPair(), ParamFlag()), End))
  }

  function Params(): Parser {
    Attach(Repeat(Seq(Param(), Optional(Choice(Chr('&'), Chr(';')))), 0, -1), Act("params"))
  }

  function Fragment(): Parser {
    Attach(Pred(Empty().Complement()), Act("fragment"))
  }

  function Uri(): Parser {
    Seq(Seq(Seq(Seq(Optional(Seq(Schema(), Chr(':'))),
                    Optional(Skip(Lit("//"), Optional(Authority())))),
                Optional(Path())),
            Optional(Skip(Chr('?'), Params()))),
        Optional(Skip(Chr('#'), Optional(Fragment()))))
  }

  /* ---------------------------------------------------------------------
     Delimited chunks
     --------------------------------------------------------------------- */

  /** The end of the maximal run from `pos` of characters not in `stops`:
      `RunEnd` for a membership test on the character itself, stated without
      the charset; `ChunkRun` ties the two together. */
  function ChunkEnd(s: string, pos: nat, end: nat, stops: string): (q: nat)
    requires pos <= end <= |s|
    ensures pos <= q <= end
    ensures forall i | pos <= i < q :: s[i] !in stops
    ensures q == end || s[q] in stops
    decreases end - pos
  {
    if pos != end && s[pos] !in stops then ChunkEnd(s, pos + 1, end, stops) else pos
  }

  /** On byte input, `p{!cs{stops}}` matches exactly the chunk up to the
      first stop character. */
  lemma ChunkRun(stops: string, s: string, pos: nat, end: nat)
    requires pos <= end <= |s| && Bytes(s) && SevenBit(stops)
    ensures var q := ChunkEnd(s, pos, end, stops);
      Parse(Pred(AllBut(stops)), s, pos, end)
        == if q > pos then Returned(q, Success()) else Returned(pos, Fail)
  {
    var pred := c => AllBut(stops).Contains(ByteOf(c));
    var q := ChunkEnd(s, pos, end, stops);
    forall i | pos <= i <= q && i < end ensures pred(s[i]) <==> s[i] !in stops {
      assert ByteOf(s[i]) as char == s[i];
    }
    RunEndAt(pred, s, pos, q, end);
  }

  /** The authority matches iff the host and port grammar matches the whole
      chunk before the first `/`, `?` or `#`, not just a prefix of it. */
  lemma AuthorityConfined(s: string, pos: nat, end: nat)
    requires pos <= end <= |s| && Bytes(s)
    ensures var q := ChunkEnd(s, pos, end, "/?#");
      (Parse(Authority(), s, pos, end).Ok()
       <==> q > pos && Parse(HostPort(), s, pos, q).Ok() && Parse(HostPort(), s, pos, q).pos == q)
  {
    ChunkRun("/?#", s, pos, end);
    if ChunkEnd(s, pos, end, "/?#") > pos {
      Confined(Pred(AllBut("/?#")), HostPort(), s, pos, end);
    }
  }

  /** A parameter matches iff a `name=value` pair or a flag covers the whole
      chunk before the first `&`, `#` or `;`. */
  lemma ParamConfined(s: string, pos: nat, end: nat)
    requires pos <= end <= |s| && Bytes(s)
    ensures var q := ChunkEnd(s, pos, end, "&#;");
      var inner := Choice(ParamPair(), ParamFlag());
      (Parse(Param(), s, pos, end).Ok()
       <==> q > pos && Parse(inner, s, pos, q).Ok() && Parse(inner, s, pos, q).pos == q)
  {
    ChunkRun("&#;", s, pos, end);
    if ChunkEnd(s, pos, end, "&#;") > pos {
      Confined(Pred(AllBut("&#;")), Choice(ParamPair(), ParamFlag()), s, pos, end);
    }
  }

  /* ---------------------------------------------------------------------
     Port and schema
     --------------------------------------------------------------------- */

  /** `port` succeeds iff a non-empty digit run starts at the cursor and its
      decimal value is between 1 and 65535; it then stands after the run and
      reports the value. Otherwise the handler's `fail` makes `%` put the
      cursor back. */
  lemma PortMatches(s: string, pos: nat, end: nat)
    requires pos <= end <= |s| && Bytes(s)
    ensures var q := DigitsEnd(s, pos, end);
      var v := DecimalValue(s[pos..q]);
      Parse(Port(), s, pos, end)
        == if q > pos && 0 < v < 65536 then Returned(q, Run([Emitted("port", Num(v))]))
           else Returned(pos, Fail)
  {
    ConvertedPort(ToNum, s, pos, end);
  }

  /** `p{digit} % (conv % port handler)` for any converter `conv`. */
  lemma ConvertedPort(conv: string -> Value, s: string, pos: nat, end: nat)
    requires pos <= end <= |s| && Bytes(s)
    ensures var q := DigitsEnd(s, pos, end);
      var v := conv(s[pos..q]);
      Parse(Attach(Pred(Digit()), Convert(conv, PortHandler)), s, pos, end)
        == if q > pos && v.Num? && 0 < v.n < 65536 then Returned(q, Run([Emitted("port", v)]))
           else Returned(pos, Fail)
  {
    var q := DigitsEnd(s, pos, end);
    DigitRun(s, pos, end);
    if q > pos {
      AttachMatches(Pred(Digit()), Convert(conv, PortHandler), s, pos, end);
      ConvertMatches(conv, PortHandler, s, pos, q);
    } else {
      AttachUnfold(Pred(Digit()), Convert(conv, PortHandler), s, pos, end, Parse(Pred(Digit()), s, pos, end), Diverges);
    }
  }

  /** A port number never has more than five digits, leading zeros apart. */
  lemma PortDigits(s: string, pos: nat, end: nat)
    requires pos <= end <= |s| && Bytes(s)
    requires Parse(Port(), s, pos, end).Ok()
    ensures Parse(Port(), s, pos, end).pos - pos <= 5 || s[pos] == '0'
  {
    PortMatches(s, pos, end);
    var q := DigitsEnd(s, pos, end);
    if q - pos > 5 && s[pos] != '0' {
      TooManyDigits(s[pos..q]);
    }
  }

  /** Six or more digits without a leading zero make at least 100000. */
  lemma TooManyDigits(t: string)
    requires |t| > 5 && AllDigits(t) && t[0] != '0'
    ensures DecimalValue(t) >= 65536
  {
    LeadingDigit(t);
    assert Pow10(5) == 100000;
    PowMonotone(5, |t| - 1);
  }

  /** A digit string that does not start with `0` has a value of at least
      `10^(n-1)`, `n` its length. */
  lemma {:induction false} LeadingDigit(s: string)
    requires |s| >= 1 && AllDigits(s) && s[0] != '0'
    ensures DecimalValue(s) >= Pow10(|s| - 1)
  {
    if |s| > 1 {
      var init := s[..|s| - 1];
      assert AllDigits(init) && init[0] == s[0];
      LeadingDigit(init);
    }
  }

  lemma {:induction false} PowMonotone(m: nat, n: nat)
    requires m <= n
    ensures Pow10(m) <= Pow10(n)
    decreases n
  {
    if m < n {
      PowMonotone(m, n - 1);
    }
  }

  /** The schema names: "http", "https" or "ftp", tried in that order, each
      from the start of the span. Since "http" is a prefix of "https", the
      second alternative is never the one that matches. */
  lemma NamesMatch(s: string, pos: nat, q: nat)
    requires pos <= q <= |s|
    ensures var r := Parse(Choice(Choice(Lit("http"), Lit("https")), Lit("ftp")), s, pos, q);
      && r.Returned?
      && (r.Ok() <==> "http" <= s[pos..q] || "ftp" <= s[pos..q])
      && (r.Ok() ==> r.result.events == [])
  {
    LitPrefix("http", s, pos, q);
    LitPrefix("https", s, pos, q);
    LitPrefix("ftp", s, pos, q);
    LitQuiet("http", s, pos, q);
    LitQuiet("https", s, pos, q);
    LitQuiet("ftp", s, pos, q);
    ChoiceLeftBiased(Lit("http"), Lit("https"), s, pos, q);
    ChoiceLeftBiased(Choice(Lit("http"), Lit("https")), Lit("ftp"), s, pos, q);
    if "https" <= s[pos..q] {
      assert s[pos..q][..4] == "http";
    }
  }

  /** `schema` succeeds iff the chunk before the first `:`, `/`, `?` or `#`
      is non-empty and starts with "http" or "ftp"; it then stands after the
      whole chunk and reports all of it, so "httpx" passes as well. */
  lemma SchemaMatches(s: string, pos: nat, end: nat)
    requires pos <= end <= |s| && Bytes(s)
    ensures var q := ChunkEnd(s, pos, end, ":/?#");
      var chunk := s[pos..q];
      Parse(Schema(), s, pos, end)
        == if chunk != [] && ("http" <= chunk || "ftp" <= chunk)
           then Returned(q, Run([Emitted("schema", Text(chunk))]))
           else Returned(pos, Fail)
  {
    var q := ChunkEnd(s, pos, end, ":/?#");
    var names := Choice(Choice(Lit("http"), Lit("https")), Lit("ftp"));
    ChunkRun(":/?#", s, pos, end);
    if q > pos {
      NamesMatch(s, pos, q);
      SchemaHead(s, pos, end, q);
      if Parse(names, s, pos, q).Ok() {
        SchemaTail(s, pos, end, q);
      }
    }
  }

  /** The inner `uri_schema % names` of `schema`. */
  lemma SchemaHead(s: string, pos: nat, end: nat, q: nat)
    requires pos < q <= end <= |s|
    requires Parse(UriSchema(), s, pos, end) == Returned(q, Success())
    requires var r := Parse(Choice(Choice(Lit("http"), Lit("https")), Lit("ftp")), s, pos, q);
      r.Returned? && (r.Ok() ==> r.result.events == [])
    ensures var names := Choice(Choice(Lit("http"), Lit("https")), Lit("ftp"));
      Parse(Attach(UriSchema(), names), s, pos, end)
        == if Parse(names, s, pos, q).Ok() then Returned(q, Success()) else Returned(pos, Fail)
  {
    var none: seq<Event> := [];
    assert none + none == none;
  }

  /** The converter of `schema` reports the whole span. */
  lemma SchemaTail(s: string, pos: nat, end: nat, q: nat)
    requires pos < q <= end <= |s|
    requires Parse(Attach(UriSchema(), Choice(Choice(Lit("http"), Lit("https")), Lit("ftp"))), s, pos, end)
               == Returned(q, Success())
    ensures Parse(Schema(), s, pos, end) == Returned(q, Run([Emitted("schema", Text(s[pos..q]))]))
  {
    ConvertMatches(ToText, SchemaHandler, s, pos, q);
    var none: seq<Event> := [];
    assert none + [Emitted("schema", Text(s[pos..q]))] == [Emitted("schema", Text(s[pos..q]))];
  }

  /* ---------------------------------------------------------------------
     The whole grammar
     --------------------------------------------------------------------- */

  lemma IPv6Total()
    ensures Total(IPv6())
  {
    assert Total(Repeat(Hextet(), 0, -1));
  }

  lemma IPv4Total()
    ensures Total(IPv4())
  {
  }

  lemma FQDNTotal()
    ensures Total(FQDN())
  {
  }

  lemma PortTotal()
    ensures Total(Port())
  {
  }

  /** `p{cs}` always returns and consumes when it succeeds. */
  lemma PredTotal(cs: Charset)
    ensures Total(Pred(cs)) && Consuming(Pred(cs))
  {
  }

  lemma HostTotal()
    ensures Total(Host())
  {
    var bracketed := Seq(Seq(Chr('['), IPv6()), Chr(']'));
    IPv6Total();
    IPv4Total();
    FQDNTotal();
    ChrTotal('[');
    ChrTotal(']');
    ActTotal("authority");
    TotalCompose(Chr('['), IPv6());
    TotalCompose(Seq(Chr('['), IPv6()), Chr(']'));
    TotalCompose(bracketed, IPv4());
    TotalCompose(Choice(bracketed, IPv4()), FQDN());
    TotalCompose(Choice(Choice(bracketed, IPv4()), FQDN()), Act("authority"));
  }

  lemma HostPortTotal()
    ensures Total(HostPort())
  {
    HostTotal();
    PortTotal();
    ChrTotal(':');
    TotalCompose(Chr(':'), Port());
    OptionalTotal(Skip(Chr(':'), Port()));
    TotalCompose(Host(), Optional(Skip(Chr(':'), Port())));
  }

  lemma AuthorityTotal()
    ensures Total(Authority())
  {
    HostPortTotal();
    PredTotal(AllBut("/?#"));
    EndTotal();
    TotalCompose(HostPort(), End);
    TotalCompose(Pred(AllBut("/?#")), Seq(HostPort(), End));
  }

  lemma ParamPairTotal()
    ensures Total(ParamPair()) && Total(ParamFlag())
  {
    PredTotal(AllBut("&=;#"));
    PredTotal(AllBut("&;=#"));
    ChrTotal('=');
    ActTotal("param_name");
    ActTotal("param_value");
    ActTotal("param_flag");
    TotalCompose(Pred(AllBut("&=;#")), Act("param_name"));
    TotalCompose(Pred(AllBut("&;=#")), Act("param_value"));
    TotalCompose(Pred(AllBut("&=;#")), Act("param_flag"));
    TotalCompose(Chr('='), ParamValue());
    TotalCompose(ParamVar(), Skip(Chr('='), ParamValue()));
  }

  lemma ParamTotal()
    ensures Total(Param()) && Consuming(Param())
  {
    ParamPairTotal();
    PredTotal(AllBut("&#;"));
    EndTotal();
    TotalCompose(ParamPair(), ParamFlag());
    TotalCompose(Choice(ParamPair(), ParamFlag()), End);
    TotalCompose(Pred(AllBut("&#;")), Seq(Choice(ParamPair(), ParamFlag()), End));
  }

  lemma ParamsTotal()
    ensures Total(Params())
  {
    var sep := Choice(Chr('&'), Chr(';'));
    var round := Seq(Param(), Optional(sep));
    ParamTotal();
    ChrTotal('&');
    ChrTotal(';');
    ActTotal("params");
    TotalCompose(Chr('&'), Chr(';'));
    OptionalTotal(sep);
    TotalCompose(Param(), Optional(sep));
    RepeatTotal(round, 0);
    TotalCompose(Repeat(round, 0, -1), Act("params"));
  }

  /** An unbounded `repeat` of a total, consuming parser is total. */
  lemma RepeatTotal(body: Parser, from: int)
    requires Total(body) && Consuming(body)
    ensures Total(Repeat(body, from, -1))
  {
  }

  lemma PathTotal()
    ensures Total(Path())
  {
    var round := Skip(Chr('/'), Optional(PathItem()));
    PredTotal(AllBut("/?#"));
    ChrTotal('/');
    ActTotal("path_item");
    TotalCompose(Pred(AllBut("/?#")), Act("path_item"));
    OptionalTotal(PathItem());
    TotalCompose(Chr('/'), Optional(PathItem()));
    assert Consuming(round);
    RepeatTotal(round, 0);
  }

  lemma SchemaTotal()
    ensures Total(Schema())
  {
  }

  lemma FragmentTotal()
    ensures Total(Fragment())
  {
  }

  /** Every unbounded `repeat` in the URI grammar consumes input on each
      round (the `hextet` repeats of `IPv6`, `path` and `params`), so a call
      of the grammar always returns. */
  lemma UriTotal()
    ensures Total(Uri())
  {
    var schema := Optional(Seq(Schema(), Chr(':')));
    var authority := Optional(Skip(Lit("//"), Optional(Authority())));
    var path := Optional(Path());
    var query := Optional(Skip(Chr('?'), Params()));
    var fragment := Optional(Skip(Chr('#'), Optional(Fragment())));
    AuthorityTotal();
    ParamsTotal();
    PathTotal();
    SchemaTotal();
    FragmentTotal();
    ChrTotal(':');
    LitTotal("//");
    ChrTotal('?');
    ChrTotal('#');
    TotalCompose(Schema(), Chr(':'));
    OptionalTotal(Seq(Schema(), Chr(':')));
    OptionalTotal(Authority());
    TotalCompose(Lit("//"), Optional(Authority()));
    OptionalTotal(Skip(Lit("//"), Optional(Authority())));
    OptionalTotal(Path());
    TotalCompose(Chr('?'), Params());
    OptionalTotal(Skip(Chr('?'), Params()));
    OptionalTotal(Fragment());
    TotalCompose(Chr('#'), Optional(Fragment()));
    OptionalTotal(Skip(Chr('#'), Optional(Fragment())));
    TotalCompose(schema, authority);
    TotalCompose(Seq(schema, authority), path);
    TotalCompose(Seq(Seq(schema, authority), path), query);
    TotalCompose(Seq(Seq(Seq(schema, authority), path), query), fragment);
  }

  /** Each part of a URI is optional. */
  lemma UriInfallible()
    ensures Infallible(Uri())
  {
    OptionalsInfallible(Seq(Schema(), Chr(':')), Skip(Lit("//"), Optional(Authority())), Path(),
                        Skip(Chr('?'), Params()), Skip(Chr('#'), Optional(Fragment())));
  }

  /** The grammar accepts every input, matching some prefix of it. */
  lemma UriAlwaysMatches(s: string, pos: nat, end: nat)
    requires pos <= end <= |s|
    ensures Parse(Uri(), s, pos, end).Ok()
  {
    UriTotal();
    UriInfallible();
    Terminates(Uri(), s, pos, end);
    NeverFails(Uri(), s, pos, end);
  }

  /** `path` accepts empty items: on "//p2" the first `/` is followed by no
      item, and only "p2" is reported. */
  lemma PathEmptyItem()
    ensures Parse(Path(), "//p2", 0, 4) == Returned(4, Run([Span("path_item", 2, 4)]))
  {
    var s := "//p2";
    var body := Skip(Chr('/'), Optional(PathItem()));
    PathFirstStep();
    PathSecondStep();
    assert RepeatLoop(body, -1, s, 4, 4, 2, [Span("path_item", 2, 4)]) == Tally(4, 2, [Span("path_item", 2, 4)]);
    assert RepeatLoop(body, -1, s, 1, 4, 1, []) == Tally(4, 2, [Span("path_item", 2, 4)]);
    assert RepeatLoop(body, -1, s, 0, 4, 0, []) == Tally(4, 2, [Span("path_item", 2, 4)]);
  }

  /** The first round of `path` over "//p2": a `/` and no item. */
  lemma PathFirstStep()
    ensures Parse(Skip(Chr('/'), Optional(PathItem())), "//p2", 0, 4) == Returned(1, Success())
  {
    var s := "//p2";
    assert Bytes(s);
    ChunkRun("/?#", s, 1, 4);
    assert ChunkEnd(s, 1, 4, "/?#") == 1;
  }

  /** The item "p2" of "//p2". */
  lemma PathItemP2()
    ensures Parse(PathItem(), "//p2", 2, 4) == Returned(4, Run([Span("path_item", 2, 4)]))
  {
    var s := "//p2";
    assert Bytes(s);
    ChunkRun("/?#", s, 2, 4);
    assert ChunkEnd(s, 2, 4, "/?#") == 4;
  }

  /** The second round of `path` over "//p2": a `/` and the item "p2". */
  lemma PathSecondStep()
    ensures Parse(Skip(Chr('/'), Optional(PathItem())), "//p2", 1, 4) == Returned(4, Run([Span("path_item", 2, 4)]))
  {
    PathItemP2();
  }
}
