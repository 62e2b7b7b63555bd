# comb_parser in Dafny

A model of `comb_parser`, a small backtracking parser-combinator library in C++
(`comb_parser.h`), of its 256-bit byte-class bitmap (`charset.h`), and of the
grammars written with it in `test.cpp` (IPv4, IPv6, host names, URI schema,
the `to_number`/`to_string` converters and the URI grammar built in
`UriParser`).

A C++ parser is a closure `result(Iter& pos, Iter end)`: it returns either an
empty `std::function` (`fail`) or a deferred action, and moves the cursor
`pos` it receives by reference. Here a parser is a value of the datatype
`CombParser.Parser`, one constructor per matcher and combinator, and
`CombParser.Parse(p, s, pos, end)` is its interpreter. It returns
`Returned(newPos, Fail)` or `Returned(newPos, Run(events))`, or `Diverges`
for the one way a call can fail to return. The deferred actions become the
sequence of events they would perform, in order. `%` with an action becomes
`Act(name)`, which records a `Span(name, start, stop)`. A converter handler
records `Emitted(name, value)`. Matching and effects stay separate: a parse
only builds the event list and never runs it.

`Parse` sets the returned cursor exactly where each C++ body leaves `pos`.
For example, `|` passes the leftover cursor of its first operand to the
second. So cursor restoration on failure and forward-only progress on
success are proved as postconditions, not built into the definitions.

Modules:

- `Charsets` (`charset.dfy`): the bitmap as four 64-bit words, each a
  sequence of 64 bits. It has membership, union, difference and complement.
  The predicate and string constructors are loops over a fresh array.
- `CombParser` (`combparser.dfy`): the `Parser` datatype, the outcome types,
  the matchers and `Parse`, including the loops of `repeat` and `somewhere`.
- `Interpreter` (`interpreter.dfy`): the imperative matching bodies. These
  are the predicate run, the literal, and the `repeat` and `somewhere`
  loops, written as methods with `while` loops. `Match` handles the other
  combinators inline, with no loop, by recursive calls. Each method is
  proved to return what `Parse` returns.
- `Laws` (`laws.dfy`): what each combinator promises, and a few algebraic
  laws.
- `Termination` (`termination.dfy`): when a call returns.
- `Locality` (`locality.dfy`): a parser reads nothing at or past `end`.
- `Grammar` (`grammar.dfy`): the charsets, converters and address grammars
  of `test.cpp`, with the IPv4 examples.
- `UriParser` (`uri.dfy`): the URI grammar: schema, port, host, authority,
  path, params, fragment.
- `Overflow` (`overflow.dfy`): `to_number` with 32-bit wrap-around, and what
  it does to `port`.

The loop of `somewhere` (comb_parser.h:179) never tries the position `end`
itself, so a body that could only match there, such as `end()`, is never
found. `Laws.SomewhereSkipsEnd` states this.

## Model

| member | source | states |
|---|---|---|
| Charsets.Charset.Contains | charset.h:12-14 | membership: the bit `b & 63` of word `b >> 6`; every charset row below is stated through it |
| Charsets.Charset.Union | charset.h:32-41 | a byte is in `X + Y` iff it is in `X` or in `Y` |
| Charsets.Charset.Minus | charset.h:43-52 | a byte is in `X - Y` iff it is in `X` and not in `Y` |
| Charsets.Charset.Complement | charset.h:54-61 | a byte is in `!X` iff it is not in `X` |
| Charsets.Empty | charset.h:16 | the default charset (all words zero) contains no byte |
| Charsets.SetByteMember | charset.h:21 | setting bit `b & 63` of word `b >> 6` adds exactly byte `b` |
| Charsets.StringBitmapMember | charset.h:26-30 | after the pass over a 7-bit string, the bitmap holds exactly the string's characters |
| Charsets.OfString | charset.h:26-30 | the string charset contains byte `b` iff `b` occurs in the string |
| Charsets.ScannedMember | charset.h:19-23 | after the first `n` steps of the predicate loop, exactly the bytes below `n` that the predicate accepts are members |
| Charsets.FromPredicate | charset.h:18-24 | the loop over the 256 byte values gives a charset whose members are exactly the bytes the predicate accepts |
| Charsets.FromString | charset.h:26-30 | the loop over the string builds the same bitmap as `OfString` |
| Charsets.ComplementInvolutive | charset.h:54-61 | a double complement is the identity, word for word |
| CombParser.RunEnd | comb_parser.h:40 | the run loop stops at the first character past `pos` that fails the predicate, or at `end` |
| CombParser.LitStop | comb_parser.h:49 | the literal loop stops at the first mismatch, at `end` or at the end of the text |
| CombParser.EndMatch | comb_parser.h:31-35 | `end()` never moves the cursor and succeeds, with no events, iff `pos == end` |
| CombParser.ManyMatch | comb_parser.h:37-43 | the predicate matcher succeeds iff the first character matches; it then consumes a non-empty run of matching characters, and on failure leaves the cursor in place |
| CombParser.LitMatch | comb_parser.h:45-54 | a literal succeeds iff the text lies at `pos` within the span, and then advances exactly its length (so the empty literal consumes nothing); on failure the cursor is restored |
| CombParser.ChrMatch | comb_parser.h:56-62 | a char matcher succeeds iff `pos < end` and the character matches, and then advances exactly one |
| CombParser.Parse | comb_parser.h:31-205 | every parser that fails leaves the cursor where it started, and every success leaves it between `pos` and `end` |
| CombParser.ParseAttach | comb_parser.h:66-78 | `p % process` fails with the cursor back at its start, or succeeds within the span |
| CombParser.ParseChoice | comb_parser.h:81-87 | `p1 \| p2` fails with the cursor back at its start, or succeeds within the span |
| CombParser.ParseSeq | comb_parser.h:90-99 | `p1 + p2` fails with the cursor back at its start, or succeeds within the span |
| CombParser.ParseSkip | comb_parser.h:102-111 | `p1 >> p2` fails with the cursor back at its start, or succeeds within the span |
| CombParser.ParseLookahead | comb_parser.h:114-125 | `p1 << p2` fails with the cursor back at its start, or succeeds within the span |
| CombParser.ParseNot | comb_parser.h:129-136 | `!p` fails with the cursor back at its start, or succeeds within the span |
| CombParser.ParseOptional | comb_parser.h:139-145 | `~p` fails with the cursor back at its start, or succeeds within the span |
| CombParser.ParseRepeat | comb_parser.h:151-174 | `repeat` fails with the cursor back at its start, or succeeds within the span |
| CombParser.Attached | comb_parser.h:71-77 | `%` succeeds only when both parts do, at the outer part's cursor; a failure of the processor puts the cursor back |
| CombParser.Sequenced | comb_parser.h:93-98 | `+` and `>>` succeed only when both parts do, at the second part's cursor; a failure of the second part puts the cursor back |
| CombParser.LookedAhead | comb_parser.h:117-124 | `<<` succeeds only when both parts do, at the first part's cursor; a failure of the second part puts the cursor back |
| CombParser.RepeatLoop | comb_parser.h:156-161 | the loop of `repeat` only moves forward, within the span, and never lowers the count |
| CombParser.SomewhereLoop | comb_parser.h:176-187 | the scan of `somewhere` restores the cursor to its start on failure, and a success ends at or after the current position |
| Interpreter.MatchMany | comb_parser.h:37-43 | the `for` loop of the predicate matcher returns the cursor and result of `ManyMatch` |
| Interpreter.MatchLit | comb_parser.h:45-54 | the `for` loop of the literal matcher, with its restore on mismatch, returns the cursor and result of `LitMatch` |
| Interpreter.MatchRepeat | comb_parser.h:151-174 | the `while` loop of `repeat`, collecting each match's events in a list and flattening them, returns what `Parse` returns |
| Interpreter.MatchSomewhere | comb_parser.h:176-187 | the `while` loop of `somewhere` returns what `Parse` returns |
| Interpreter.Match | comb_parser.h:27-29 | calling a parser whose parse returns gives the cursor and result of `Parse` |
| Laws.SeqMatches | comb_parser.h:90-99 | `p1 + p2` succeeds iff `p1` succeeds and then `p2` succeeds from `p1`'s end; the events are `p1`'s followed by `p2`'s, and the cursor is `p2`'s |
| Laws.SkipMatches | comb_parser.h:102-111 | `p1 >> p2` succeeds iff `p1` succeeds and then `p2` succeeds from `p1`'s end, and its result and cursor are then `p2`'s alone |
| Laws.ChoiceLeftBiased | comb_parser.h:81-87 | if `p1` succeeds its outcome is the outcome of `p1 \| p2`; if it fails, `p2` runs from the original position |
| Laws.LookaheadMatches | comb_parser.h:114-125 | `p1 << p2` succeeds iff `p1` and then `p2` succeed; the cursor is where `p1` stopped and the events are `p1`'s |
| Laws.NotMatches | comb_parser.h:129-136 | `!p` never moves the cursor and succeeds, with no events, iff `p` fails |
| Laws.OptionalNeverFails | comb_parser.h:139-145 | `~p` never fails: when `p` succeeds its outcome is `p`'s, cursor and events included; when `p` fails it succeeds in place with no events; it diverges only when `p` does |
| Laws.NeverFails | comb_parser.h:90-145 | a parser built from `~`, actions, sequences, skips, choices with an infallible side and unbounded zero-minimum repeats succeeds whenever it returns |
| Laws.OptionalsInfallible | comb_parser.h:139-145 | five optional parts in sequence form an infallible parser |
| Laws.LitPrefix | comb_parser.h:45-54 | a literal matches iff it is a prefix of the rest of the span |
| Laws.AttachMatches | comb_parser.h:66-78 | `p % process` runs `process` on exactly the span `p` matched; it succeeds iff both do, at `p`'s cursor, with `p`'s events then the processor's; if the processor fails the cursor goes back to the start |
| Laws.ConvertMatches | comb_parser.h:201-205 | `converter % handler` does not move the cursor and its result is exactly `handler(conv(span))` |
| Laws.Confined | comb_parser.h:66-78 | the idiom `outer % (inner + end())` succeeds iff `inner` matches the whole span `outer` matched |
| Laws.Iterate | comb_parser.h:156-161 | `n` successive matches of the body stay within the span |
| Laws.IterateStep | comb_parser.h:156-161 | after a success of the body, one more round continues from its cursor and puts its events first |
| Laws.IterateBroken | comb_parser.h:156-161 | a round at a position where the body does not succeed breaks the chain |
| Laws.LoopCount | comb_parser.h:156-161 | the loop of `repeat` ends after `n` successive matches, stopped by a failure of the operand, by reaching `end` or by reaching the bound, and its events are theirs in match order |
| Laws.RepeatCount | comb_parser.h:151-174 | `repeat(from, to)` collects `n` successive matches and succeeds iff `from <= n` and (`to == -1` or `n <= to`), at the last match's cursor with their events in order; otherwise it fails and restores the cursor |
| Laws.LoopTooMany | comb_parser.h:156 | with `to + 1` matches available, the loop collects exactly `to + 1` |
| Laws.RepeatTooMany | comb_parser.h:156-172 | when more than `to` successive matches are available, `repeat(from, to)` fails and restores the cursor |
| Laws.RepeatOfEmptyDiverges | comb_parser.h:156-161 | for every operand and input: an unbounded `repeat` whose operand succeeds without consuming at a position before `end` never returns |
| Laws.OptionalRepeatDiverges | comb_parser.h:156-161 | `~p{'a'}` repeated without bound on "b" never returns |
| Laws.LoopFound | comb_parser.h:179-183 | a success of the scan is the body's success at the first position where it matches |
| Laws.LoopFirst | comb_parser.h:179-183 | the scan returns the body's success at the first position where the body does not fail |
| Laws.LoopNone | comb_parser.h:179-185 | the scan fails iff the body fails at every position before `end` |
| Laws.SomewhereFound | comb_parser.h:176-187 | a success of `p.somewhere()` is `p`'s success at some `k < end`, with `p` failing at every position before `k` |
| Laws.SomewhereFirst | comb_parser.h:176-187 | conversely, the first position `k < end` where `p` succeeds gives `somewhere`'s result |
| Laws.SomewhereFails | comb_parser.h:176-187 | `p.somewhere()` fails iff `p` fails at every position from `pos` to `end - 1` |
| Laws.SomewhereSkipsEnd | comb_parser.h:179 | `somewhere` never tries position `end`, so `end().somewhere()` always fails |
| Laws.SeqAssociative | comb_parser.h:90-99 | `(a + b) + c` and `a + (b + c)` have the same outcome, cursor and events included |
| Laws.ChoiceAssociative | comb_parser.h:81-87 | `(a \| b) \| c` and `a \| (b \| c)` have the same outcome |
| Laws.NotNot | comb_parser.h:129-136 | `!!p` succeeds iff `p` does, without moving the cursor and with no events |
| Laws.OptionalIdempotent | comb_parser.h:139-145 | `~~p` has the outcome of `~p` |
| Termination.Progress | comb_parser.h:37-43 | a success of a consuming parser moves the cursor forward |
| Termination.Terminates | comb_parser.h:156-161 | a call of a parser whose unbounded repeats all have consuming operands always returns |
| Termination.RepeatTerminates | comb_parser.h:156-161 | the loop of such a `repeat` always ends |
| Termination.SomewhereTerminates | comb_parser.h:179-183 | the scan of `somewhere` over a total body always ends |
| Locality.Local | comb_parser.h:27-29 | the outcome of any parser depends only on the characters below `end` |
| Locality.ProcessorSeesSpan | comb_parser.h:71-72 | the processor of `%` sees only the span the outer parser matched: cutting the input at the span's end changes nothing |
| Grammar.Alpha | test.cpp:26 | `alpha` contains exactly the letters `a-z` and `A-Z` |
| Grammar.Digit | test.cpp:27 | `digit` contains exactly `0-9` |
| Grammar.HexDigit | test.cpp:28 | `hexdigit` contains exactly `0-9`, `A-F` and `a-f` |
| Grammar.AllBut | test.cpp:42 | `!cs{chars}` contains exactly the bytes not in `chars` |
| Grammar.Pred | comb_parser.h:37-43 | `p{cs}`: the run matcher over the characters whose byte is in `cs`; its behaviour is `Grammar.DigitRun`, `UriParser.ChunkRun` and `CombParser.ManyMatch` |
| Grammar.IPv4 | test.cpp:30 | three `digits '.'` groups and a digit run; characterised for every input by `Grammar.IPv4Matches` |
| Grammar.IPv6 | test.cpp:31-39 | the three alternatives `v1 \| v2 \| v3` of the IPv6 grammar; proved total by `UriParser.IPv6Total` |
| Grammar.FQDN | test.cpp:41 | a run of letters, digits, `.` and `-`; proved total by `UriParser.FQDNTotal` |
| Grammar.UriSchema | test.cpp:42 | a non-empty run outside `:/?#`; its behaviour is `UriParser.ChunkRun` |
| Grammar.DecimalValue | test.cpp:44-48 | the value `to_number` accumulates, a left fold over the digits; computed by `Grammar.ToNumber`, bounded by `Grammar.DecimalBounds`, inverted by `Grammar.DecimalRoundTrip` |
| Grammar.ToNum | test.cpp:44-48 | the `to_number` converter: the span's `DecimalValue` as a number; used by `UriParser.PortMatches` |
| Grammar.ToText | test.cpp:50-52 | the `to_string` converter: the span's characters as text; used by `UriParser.SchemaTail` |
| Grammar.DigitRun | test.cpp:30 | `p{digit}` succeeds iff there is at least one digit at `pos`, and consumes the maximal run of digits |
| Grammar.ToNumber | test.cpp:44-48 | the loop of `to_number` computes the left-to-right fold `num*10 + (d - '0')` |
| Grammar.DecimalBounds | test.cpp:44-48 | the value of an `n`-digit string lies in `[0, 10^n)` |
| Grammar.DecimalRoundTrip | test.cpp:44-48 | `to_number` reads back every natural number from its decimal digits |
| Grammar.DigitsDotMatches | test.cpp:30 | `p{digit} + p{'.'}` succeeds iff a non-empty digit run is followed by a dot, and consumes both |
| Grammar.DotGroup | test.cpp:30 | what one `p{digit} + p{'.'}` returns, without the combinators: a success past a non-empty digit run and its dot, a failure otherwise |
| Grammar.DotGroups | test.cpp:30 | where `n` digit-and-dot groups in a row end, if they are there; its cursor stays within the span |
| Grammar.DotGroupsSplit | test.cpp:30 | `n` groups in a row are `k` groups followed by `n - k` more, and fewer groups exist wherever more do |
| Grammar.GroupsIterateBy | comb_parser.h:156-161 | `n` rounds of `repeat`'s loop over an operand that behaves like `p{digit} + p{'.'}` end where `n` groups end, with no events, and break where the groups do not exist |
| Grammar.GroupsRepeat | comb_parser.h:151-174 | `repeat(3, 3)` of `p{digit} + p{'.'}` succeeds iff three groups come first and no fourth follows, ending after the third; otherwise it fails with the cursor unchanged |
| Grammar.GroupsRepeatBy | comb_parser.h:151-174 | the same for any operand that behaves like `p{digit} + p{'.'}` at every position of the span |
| Grammar.IPv4Matches | test.cpp:30 | for every input, `IPv4` succeeds iff three groups come first, followed by a non-empty digit run that is not followed by a dot; it then ends after that run with no events; otherwise it fails with the cursor unchanged |
| Grammar.IPv4Accepts | test.cpp:30 | `IPv4` accepts `192.168.1.1` and consumes all of it |
| Grammar.IPv4TooShort | test.cpp:30 | `IPv4` rejects `1.2.3` with the cursor unchanged |
| Grammar.IPv4TooLong | test.cpp:30 | `IPv4` rejects `1.2.3.4.5`, because `repeat(3,3)` collects a fourth `d.` |
| UriParser.SchemaHandler | test.cpp:72-77 | the schema handler accepts every text and reports it; see `UriParser.SchemaTail` |
| UriParser.PortHandler | test.cpp:82-88 | the port handler succeeds iff the number is in `1..65535` and reports it; see `UriParser.ConvertedPort` |
| UriParser.Schema | test.cpp:70-78 | `schema`; its behaviour is `UriParser.SchemaMatches` |
| UriParser.Port | test.cpp:80-89 | `port`; its behaviour is `UriParser.PortMatches` and `UriParser.PortDigits` |
| UriParser.Host | test.cpp:91-92 | `host`: a bracketed IPv6, an IPv4 or an FQDN, reported as an `authority` span; proved total by `UriParser.HostTotal` |
| UriParser.HostPort | test.cpp:94 | `host_port`: a host and an optional `:` port; proved total by `UriParser.HostPortTotal` |
| UriParser.Authority | test.cpp:96 | `authority`; its behaviour is `UriParser.AuthorityConfined` |
| UriParser.PathItem | test.cpp:98-99 | `path_item`: a chunk outside `/?#`, reported as a span; see `UriParser.PathEmptyItem` |
| UriParser.Path | test.cpp:101 | `path`: an unbounded repeat of `/` and an optional item; see `UriParser.PathEmptyItem` and `UriParser.PathTotal` |
| UriParser.ParamVar | test.cpp:104-105 | `param_var`: a chunk outside `&=;#`, reported as a `param_name` span |
| UriParser.ParamValue | test.cpp:107-108 | `param_value`: a chunk outside `&;=#`, reported as a `param_value` span |
| UriParser.ParamPair | test.cpp:110 | `param_pair`: a name, `=` and a value; proved total by `UriParser.ParamPairTotal` |
| UriParser.ParamFlag | test.cpp:112-113 | `param_flag`: a chunk outside `&=;#`, reported as a `param_flag` span |
| UriParser.Param | test.cpp:115 | `param`; its behaviour is `UriParser.ParamConfined` |
| UriParser.Params | test.cpp:116-117 | `params`: an unbounded repeat of a param and an optional separator, reported as a span; proved total by `UriParser.ParamsTotal` |
| UriParser.Fragment | test.cpp:119-120 | `fragment`: a non-empty run of any bytes, that is the rest of the span, reported as a `fragment` span; proved total by `UriParser.FragmentTotal` |
| UriParser.Uri | test.cpp:122 | `uri`, five optional parts in sequence; its behaviour is `UriParser.UriAlwaysMatches` and `UriParser.UriTotal` |
| UriParser.ChunkRun | test.cpp:96 | `p{!cs{stops}}` consumes the maximal non-empty run of characters outside `stops` |
| UriParser.AuthorityConfined | test.cpp:96 | `authority` succeeds iff `host_port` matches the whole chunk up to the next `/`, `?` or `#` |
| UriParser.ParamConfined | test.cpp:115 | `param` succeeds iff a pair or flag matches the whole chunk up to the next `&`, `#` or `;` |
| UriParser.PortMatches | test.cpp:80-89 | `port` succeeds iff it is at a non-empty digit run whose value `v` satisfies `0 < v < 65536`; it then consumes the run and reports `v`, otherwise it fails at `pos` |
| UriParser.ConvertedPort | test.cpp:80-89 | for any converter, `p{digit} % (conv % handler)` consumes a non-empty digit run iff the converted run is a number in `1..65535`, and reports it; otherwise it fails at `pos` |
| UriParser.PortDigits | test.cpp:80-89 | a port that `port` accepts has at most five digits, unless it starts with `0` |
| UriParser.NamesMatch | test.cpp:70 | `p{"http"} \| p{"https"} \| p{"ftp"}` succeeds iff the span starts with `http` or `ftp`, and reports nothing |
| UriParser.SchemaMatches | test.cpp:70-78 | `schema` succeeds iff the chunk up to the next `:`, `/`, `?` or `#` is non-empty and starts with `http` or `ftp`; it then consumes the chunk and reports it as text |
| UriParser.SchemaHead | test.cpp:70 | the names are tried on the chunk `uri_schema` matched, and `%` keeps the chunk's end |
| UriParser.SchemaTail | test.cpp:71-78 | the `to_string` converter reports exactly the characters of the span |
| UriParser.UriTotal | test.cpp:122 | the URI grammar has no unbounded repeat of a parser that can succeed without consuming |
| UriParser.UriInfallible | test.cpp:122 | every part of the URI grammar is optional |
| UriParser.UriAlwaysMatches | test.cpp:122 | the URI grammar returns and succeeds on every input |
| UriParser.PathEmptyItem | test.cpp:98-101 | `path` accepts `//p2`, with an empty first item and one `path_item` span for `p2` |
| Overflow.Wrap32 | test.cpp:46 | the 32-bit two's-complement value of an integer |
| Overflow.DecimalValue32 | test.cpp:44-48 | the value `to_number` accumulates in a 32-bit `int`, each operation wrapping; related to `DecimalValue` by `Overflow.Wraps` |
| Overflow.ToNumber32 | test.cpp:44-48 | the loop of `to_number` with 32-bit `int` arithmetic gives the decimal value modulo 2^32 |
| Overflow.Wraps | test.cpp:46 | wrapping at every step gives the true decimal value, wrapped once |
| Overflow.Port32 | test.cpp:80-89 | `port` with the 32-bit `to_number`; its behaviour is `Overflow.Port32Matches` |
| Overflow.Port32Matches | test.cpp:80-89 | `port` with 32-bit `to_number` accepts a digit run iff its value modulo 2^32 is in `1..65535` |
| Overflow.Port32AcceptsOverflow | test.cpp:80-89 | as written, `port` accepts the ten digits `4294967297` as port 1 |
| Overflow.PortRejectsOverflow | test.cpp:80-89 | with unbounded arithmetic, `port` rejects `4294967297` |

## Left out

- Closures and templates: the `std::function` boxing, closure capture and
  the `Char`/`Iter` template parameters are replaced by the `Parser`
  datatype and its interpreter, over `seq<char>` with `nat` indices. The
  converter's value type is one datatype `Value` (a number or a text).
- By-reference cursor: `Parse` returns the new cursor with the result,
  instead of updating a caller's variable.
- Effects are event lists. An action records its span and a handler
  records the value it would print. The model never invokes them, so the
  `new`/`delete` of `result*` in `repeat`, and the use-after-free when a
  repeat effect is invoked twice, are not modelled.
- Non-termination is the outcome `Diverges`, given by an unbounded `repeat`
  whose operand succeeds without moving the cursor. The methods of
  `Interpreter` require that the parse returns.
- Charset bit arithmetic: `1 << (c & 0x3F)` shifts a 32-bit `int` by up to
  63 places, which C++ leaves undefined. The model uses the intended
  one-bit-per-byte semantics, with each 64-bit word a sequence of 64 bits.
- Charsets.OfString and Charsets.FromString require characters below 128,
  because `c >> 6` on a negative `char` indexes outside the bitmap.
- Grammar.DigitRun, UriParser.PortMatches, UriParser.SchemaMatches and the
  other grammar lemmas assume input characters below 256, the byte input
  the `uint8_t` charsets are written for.
- The literal matcher's text is modelled as the characters before its
  terminating NUL; a literal containing NUL is not modelled.
- I/O: `print_s`, the `std::cout` inside the handlers, the demo strings and
  `main` are left out. Seven of the nine callbacks passed to `UriParser`
  become labelled span events. The other two, `schema_cb` and `port_cb`,
  are never called: the schema and port handlers write to `std::cout`
  instead, and the model records what they would print as `Emitted`
  events.
- The IPv6, FQDN, host, params and fragment grammars are defined and proved
  total, but no concrete inputs are worked through for them.
- Integer width: apart from the `Overflow` module, `to_number` uses
  unbounded integers. The 32-bit behaviour is kept to the finding below.

## Findings

| source | as written | input that shows it | evidently intended | confidence | as-written member | corrected member |
|---|---|---|---|---|---|---|
| test.cpp:46 | `to_number` accumulates ten or more digits in a 32-bit `int`, which wraps (undefined in C++, two's-complement on common compilers), so the port check at test.cpp:84 sees the wrapped value | `4294967297` (2^32 + 1) is read as 1, and `port` accepts it as port 1 | only digit runs whose true value is in 1..65535 are ports | not executed | Overflow.Port32AcceptsOverflow | UriParser.PortMatches |
