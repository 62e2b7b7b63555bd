/**
 * The backtracking parser combinators of `comb_parser.h`.
 *
 * A C++ parser is a closure `result(Iter& pos, Iter end)`: it may move the
 * cursor `pos` it is given by reference, and it returns either `fail` (an
 * empty `std::function`) or an effect, a deferred action that is invoked only
 * after the whole match is over. Here a parser is a `Parser` value and
 * `Parse` interprets it. The cursor is an index into the input `s`, the
 * new cursor is part of the returned `Outcome`, and an effect is the list of
 * `Event`s that invoking it would produce.
 *
 * `Parse` assigns the cursor exactly where the C++ assigns it, also on
 * failure, so that restoring the cursor on failure is a proved property and
 * not part of the definition.
 */
module CombParser {

  /** The value a converter produces: `to_number` gives an `int`,
      `to_string` a `std::string`. */
  datatype Value = Num(n: int) | Text(s: string)

  /** What invoking an effect does. An attached action called with the
      span `[start, stop)` becomes `Span`; a converter handler that reports a
      converted value becomes `Emitted`. */
  datatype Event =
    | Span(name: string, start: nat, stop: nat)
    | Emitted(name: string, value: Value)

  /** `result`: `fail`, or an effect. `success`, the action that does
      nothing, is `Run([])`. */
  datatype Effect = Fail | Run(events: seq<Event>)

  /** The effect that does nothing. */
  function Success(): Effect {
    Run([])
  }

  /** The outcome of one call of a parser: the returned result and the cursor
      it left behind, or `Diverges` when the call never returns (an unbounded
      `repeat` whose operand succeeds without moving the cursor). */
  datatype Outcome = Returned(pos: nat, result: Effect) | Diverges {
    predicate Ok() {
      Returned? && result.Run?
    }
    predicate Failed() {
      Returned? && result.Fail?
    }
  }

  /** One constructor per matcher and per combinator. */
  datatype Parser =
      /** `parser::end()` */
    | End
      /** `parser(std::function<bool(Char)>)`: a non-empty run of matching
          characters */
    | Many(pred: char -> bool)
      /** `parser(const Char*)`: a literal; `text` holds the characters before
          the terminating NUL */
    | Lit(text: string)
      /** `parser(Char)`: one given character */
    | Chr(c: char)
      /** `p % process` */
    | Attach(p: Parser, process: Parser)
      /** `p1 | p2` */
    | Choice(p1: Parser, p2: Parser)
      /** `p1 + p2` */
    | Seq(p1: Parser, p2: Parser)
      /** `p1 >> p2` */
    | Skip(p1: Parser, p2: Parser)
      /** `p1 << p2` */
    | Lookahead(p1: Parser, p2: Parser)
      /** `!p` */
    | Not(p: Parser)
      /** `~p` */
    | Optional(p: Parser)
      /** `p.repeat(from, to)`; `to == -1` means no upper bound */
    | Repeat(p: Parser, from: int, to: int)
      /** `p.somewhere()` */
    | Somewhere(p: Parser)
      /** `make_converter(conv) % handler` */
    | Convert(conv: string -> Value, handler: Value -> Effect)
      /** An action given to `%`: the lambda `(s, e) -> [=]{ callback(s, e); }`,
          which leaves the cursor alone and records the span it was given */
    | Act(name: string)

  /** The cursor after the predicate matcher's loop
      `for (; pos != end && matcher(*pos); ++pos)`: the end of the maximal run
      of characters satisfying `pred` that starts at `pos`. */
  function RunEnd(pred: char -> bool, s: string, pos: nat, end: nat): (q: nat)
    requires pos <= end <= |s|
    ensures pos <= q <= end
    ensures forall i | pos <= i < q :: pred(s[i])
    ensures q == end || !pred(s[q])
    decreases end - pos
  {
    if pos != end && pred(s[pos]) then RunEnd(pred, s, pos + 1, end) else pos
  }

  /** How many characters of `text` the literal matcher's loop compares
      equal, given that the first `it` of them already agree with the input at
      `start`. */
  function LitStop(text: string, s: string, start: nat, end: nat, it: nat): (k: nat)
    requires start <= end <= |s| && it <= |text| && start + it <= end
    requires s[start..start + it] == text[..it]
    ensures it <= k <= |text| && start + k <= end
    ensures s[start..start + k] == text[..k]
    ensures k == |text| || start + k == end || text[k] != s[start + k]
    decreases |text| - it
  {
    if it < |text| && start + it != end && text[it] == s[start + it] then
      assert s[start..start + it + 1] == s[start..start + it] + [s[start + it]];
      assert text[..it + 1] == text[..it] + [text[it]];
      LitStop(text, s, start, end, it + 1)
    else
      it
  }

  /** `parser::end()`. */
  function EndMatch(pos: nat, end: nat): (r: Outcome)
    ensures r.Returned? && r.pos == pos
    ensures r.Ok() <==> pos == end
    ensures r.Ok() ==> r.result.events == []
  {
    Returned(pos, if pos == end then Success() else Fail)
  }

  /** The predicate matcher: succeeds iff at least one character matched, and
      then stands after the maximal run. */
  function ManyMatch(pred: char -> bool, s: string, pos: nat, end: nat): (r: Outcome)
    requires pos <= end <= |s|
    ensures r.Returned?
    ensures r.Ok() <==> pos < end && pred(s[pos])
    ensures r.Failed() ==> r.pos == pos
    ensures r.Ok() ==> r.result.events == [] && pos < r.pos <= end
    ensures r.Ok() ==> (forall i | pos <= i < r.pos :: pred(s[i]))
                         && (r.pos == end || !pred(s[r.pos]))
  {
    var q := RunEnd(pred, s, pos, end);
    Returned(q, if q != pos then Success() else Fail)
  }

  /** The literal matcher: succeeds iff `text` is a prefix of the input at
      `pos` within `end`, and then stands after it; on failure the cursor is
      put back. */
  function LitMatch(text: string, s: string, pos: nat, end: nat): (r: Outcome)
    requires pos <= end <= |s|
    ensures r.Returned?
    ensures r.Ok() <==> pos + |text| <= end && s[pos..pos + |text|] == text
    ensures r.Failed() ==> r.pos == pos
    ensures r.Ok() ==> r.pos == pos + |text| && r.result.events == []
  {
    var k := LitStop(text, s, pos, end, 0);
    if k == |text| then Returned(pos + k, Success()) else Returned(pos, Fail)
  }

  /** The single-character matcher. */
  function ChrMatch(c: char, s: string, pos: nat, end: nat): (r: Outcome)
    requires pos <= end <= |s|
    ensures r.Returned?
    ensures r.Ok() <==> pos < end && s[pos] == c
    ensures r.Failed() ==> r.pos == pos
    ensures r.Ok() ==> r.pos == pos + 1 && r.result.events == []
  {
    if pos == end then Returned(pos, Fail)
    else if s[pos] == c then Returned(pos + 1, Success())
    else Returned(pos, Fail)
  }

  /** Does `repeat(_, to)` go round its loop again after `times` matches? */
  predicate Below(to: int, times: nat) {
    to == -1 || times <= to
  }

  /** The state in which `repeat`'s loop ends: the cursor, the number of
      matches collected and their events in match order, or `Endless` when the
      loop never ends. */
  datatype Tally = Tally(pos: nat, count: nat, events: seq<Event>) | Endless

  /** Runs `p` against `s[pos..end]`, starting with the cursor at `pos`.
      Whatever `p` is, a failure leaves the cursor at `pos` and a success
      leaves it between `pos` and `end`. */
  function Parse(p: Parser, s: string, pos: nat, end: nat): (r: Outcome)
    requires pos <= end <= |s|
    ensures r.Failed() ==> r.pos == pos
    ensures r.Ok() ==> pos <= r.pos <= end
    decreases p, 2
  {
    match p
    case End => EndMatch(pos, end)
    case Many(pred) => ManyMatch(pred, s, pos, end)
    case Lit(text) => LitMatch(text, s, pos, end)
    case Chr(c) => ChrMatch(c, s, pos, end)
    case Attach(p1, process) => ParseAttach(p1, process, s, pos, end)
    case Choice(p1, p2) => ParseChoice(p1, p2, s, pos, end)
    case Seq(p1, p2) => ParseSeq(p1, p2, s, pos, end)
    case Skip(p1, p2) => ParseSkip(p1, p2, s, pos, end)
    case Lookahead(p1, p2) => ParseLookahead(p1, p2, s, pos, end)
    case Not(p1) => ParseNot(p1, s, pos, end)
    case Optional(p1) => ParseOptional(p1, s, pos, end)
    case Repeat(body, from, to) => ParseRepeat(body, from, to, s, pos, end)
    case Somewhere(body) => SomewhereLoop(body, s, pos, pos, end)
    case Convert(conv, handler) => Returned(pos, handler(conv(s[pos..end])))
    case Act(name) => Returned(pos, Run([Span(name, pos, end)]))
  }

  /** `p % process`: `process` runs on the span `p` matched. */
  function ParseAttach(p1: Parser, process: Parser, s: string, pos: nat, end: nat): (r: Outcome)
    requires pos <= end <= |s|
    ensures r.Failed() ==> r.pos == pos
    ensures r.Ok() ==> pos <= r.pos <= end
    decreases Attach(p1, process), 1
  {
    var r1 := Parse(p1, s, pos, end);
    Attached(pos, r1, if r1.Ok() then Parse(process, s, pos, r1.pos) else Diverges)
  }

  /** `p1 | p2`: `p2` runs from where a failed `p1` left the cursor. */
  function ParseChoice(p1: Parser, p2: Parser, s: string, pos: nat, end: nat): (r: Outcome)
    requires pos <= end <= |s|
    ensures r.Failed() ==> r.pos == pos
    ensures r.Ok() ==> pos <= r.pos <= end
    decreases Choice(p1, p2), 1
  {
    var r1 := Parse(p1, s, pos, end);
    if r1.Failed() then Parse(p2, s, r1.pos, end) else r1
  }

  /** `p1 + p2`. */
  function ParseSeq(p1: Parser, p2: Parser, s: string, pos: nat, end: nat): (r: Outcome)
    requires pos <= end <= |s|
    ensures r.Failed() ==> r.pos == pos
    ensures r.Ok() ==> pos <= r.pos <= end
    decreases Seq(p1, p2), 1
  {
    var r1 := Parse(p1, s, pos, end);
    Sequenced(pos, r1, if r1.Ok() then Parse(p2, s, r1.pos, end) else Diverges, true)
  }

  /** `p1 >> p2`. */
  function ParseSkip(p1: Parser, p2: Parser, s: string, pos: nat, end: nat): (r: Outcome)
    requires pos <= end <= |s|
    ensures r.Failed() ==> r.pos == pos
    ensures r.Ok() ==> pos <= r.pos <= end
    decreases Skip(p1, p2), 1
  {
    var r1 := Parse(p1, s, pos, end);
    Sequenced(pos, r1, if r1.Ok() then Parse(p2, s, r1.pos, end) else Diverges, false)
  }

  /** `p1 << p2`. */
  function ParseLookahead(p1: Parser, p2: Parser, s: string, pos: nat, end: nat): (r: Outcome)
    requires pos <= end <= |s|
    ensures r.Failed() ==> r.pos == pos
    ensures r.Ok() ==> pos <= r.pos <= end
    decreases Lookahead(p1, p2), 1
  {
    var r1 := Parse(p1, s, pos, end);
    LookedAhead(pos, r1, if r1.Ok() then Parse(p2, s, r1.pos, end) else Diverges)
  }

  /** `!p`: succeeds, without moving the cursor, iff `p` fails. */
  function ParseNot(p1: Parser, s: string, pos: nat, end: nat): (r: Outcome)
    requires pos <= end <= |s|
    ensures r.Failed() ==> r.pos == pos
    ensures r.Ok() ==> pos <= r.pos <= end
    decreases Not(p1), 1
  {
    match Parse(p1, s, pos, end)
    case Diverges => Diverges
    case Returned(q, Fail) => Returned(q, Success())
    case Returned(_, Run(_)) => Returned(pos, Fail)
  }

  /** `~p`: a failure of `p` becomes a success. */
  function ParseOptional(p1: Parser, s: string, pos: nat, end: nat): (r: Outcome)
    requires pos <= end <= |s|
    ensures r.Failed() ==> r.pos == pos
    ensures r.Ok() ==> pos <= r.pos <= end
    decreases Optional(p1), 1
  {
    match Parse(p1, s, pos, end)
    case Diverges => Diverges
    case Returned(q, Fail) => Returned(q, Success())
    case Returned(q, Run(e)) => Returned(q, Run(e))
  }

  /** `p.repeat(from, to)`: the loop, then the count check. */
  function ParseRepeat(body: Parser, from: int, to: int, s: string, pos: nat, end: nat): (r: Outcome)
    requires pos <= end <= |s|
    ensures r.Failed() ==> r.pos == pos
    ensures r.Ok() ==> pos <= r.pos <= end
    decreases Repeat(body, from, to), 1
  {
    match RepeatLoop(body, to, s, pos, end, 0, [])
    case Endless => Diverges
    case Tally(q, n, events) =>
      if n >= from && Below(to, n) then Returned(q, Run(events)) else Returned(pos, Fail)
  }

  /** `p % process` once both have run: `r1` is the outcome of `p` and `r2`
      that of `process` on the span `p` matched. A failure of the processor
      puts the cursor back to `pos`. */
  function Attached(pos: nat, r1: Outcome, r2: Outcome): (r: Outcome)
    requires r1.Failed() ==> r1.pos == pos
    ensures r.Failed() ==> r.pos == pos
    ensures r.Ok() ==> r1.Ok() && r2.Ok() && r.pos == r1.pos
  {
    match r1
    case Diverges => Diverges
    case Returned(_, Fail) => r1
    case Returned(q, Run(e1)) =>
      (match r2
      case Diverges => Diverges
      case Returned(_, Fail) => Returned(pos, Fail)
      case Returned(_, Run(e2)) => Returned(q, Run(e1 + e2)))
  }

  /** `p1 + p2` (when `keep`) or `p1 >> p2` once both have run: `r2` is the
      outcome of `p2` from where `p1` stopped. */
  function Sequenced(pos: nat, r1: Outcome, r2: Outcome, keep: bool): (r: Outcome)
    requires r1.Failed() ==> r1.pos == pos
    ensures r.Failed() ==> r.pos == pos
    ensures r.Ok() ==> r1.Ok() && r2.Ok() && r.pos == r2.pos
  {
    match r1
    case Diverges => Diverges
    case Returned(_, Fail) => r1
    case Returned(_, Run(e1)) =>
      (match r2
      case Diverges => Diverges
      case Returned(_, Fail) => Returned(pos, Fail)
      case Returned(q2, Run(e2)) => Returned(q2, Run(if keep then e1 + e2 else e2)))
  }

  /** `p1 << p2` once both have run: the cursor goes back to where `p1`
      stopped. */
  function LookedAhead(pos: nat, r1: Outcome, r2: Outcome): (r: Outcome)
    requires r1.Failed() ==> r1.pos == pos
    ensures r.Failed() ==> r.pos == pos
    ensures r.Ok() ==> r1.Ok() && r2.Ok() && r.pos == r1.pos
  {
    match r1
    case Diverges => Diverges
    case Returned(_, Fail) => r1
    case Returned(q, Run(e1)) =>
      (match r2
      case Diverges => Diverges
      case Returned(_, Fail) => Returned(pos, Fail)
      case Returned(_, Run(_)) => Returned(q, Run(e1)))
  }

  /** The loop of `repeat`: `times` matches have been collected so far, with
      events `acc`, and the cursor is at `pos`. The loop goes on while
      `pos != end` and fewer than `to + 1` matches were collected; it stops at
      the first failure of `body`, and never ends when `body` succeeds without
      moving the cursor and there is no upper bound. */
  function RepeatLoop(body: Parser, to: int, s: string, pos: nat, end: nat,
                      times: nat, acc: seq<Event>): (t: Tally)
    requires pos <= end <= |s|
    ensures t.Tally? ==> pos <= t.pos <= end && times <= t.count
    decreases body, 3, end - pos, if to >= 0 then to + 1 - times else 0
  {
    if pos != end && Below(to, times) then
      match Parse(body, s, pos, end)
      case Diverges => Endless
      case Returned(q, Fail) => Tally(q, times, acc)
      case Returned(q, Run(e)) =>
        if to == -1 && q == pos then Endless
        else RepeatLoop(body, to, s, q, end, times + 1, acc + e)
    else
      Tally(pos, times, acc)
  }

  /** The loop of `somewhere`: tries `body` at `pos`, `pos + 1`, ... up to but
      not including `end` and returns the first success; when none succeeds the
      cursor goes back to `start`. */
  function SomewhereLoop(body: Parser, s: string, start: nat, pos: nat, end: nat): (r: Outcome)
    requires start <= pos <= end <= |s|
    ensures r.Failed() ==> r.pos == start
    ensures r.Ok() ==> pos <= r.pos <= end
    decreases body, 3, end - pos, 0
  {
    if pos != end then
      match Parse(body, s, pos, end)
      case Diverges => Diverges
      case Returned(q, Run(e)) => Returned(q, Run(e))
      case Returned(q, Fail) => SomewhereLoop(body, s, start, q + 1, end)
    else
      Returned(start, Fail)
  }
}
