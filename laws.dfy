/**
 * What the combinators of `comb_parser.h` promise, proved about `Parse`.
 */
module Laws {
  import opened CombParser

  // ---------------------------------------------------------------------
  // One combinator at a time

  /** `p1 + p2` succeeds iff `p1` succeeds and then `p2` succeeds from where
      `p1` stopped; its effect runs `p1`'s events and then `p2`'s. When `p2`
      fails the cursor goes back to where `p1` started. */
  lemma SeqMatches(p1: Parser, p2: Parser, s: string, pos: nat, end: nat)
    requires pos <= end <= |s|
    ensures var r1 := Parse(p1, s, pos, end);
      Parse(Seq(p1, p2), s, pos, end).Ok() <==> r1.Ok() && Parse(p2, s, r1.pos, end).Ok()
    ensures var r1 := Parse(p1, s, pos, end);
      r1.Ok() && Parse(p2, s, r1.pos, end).Ok() ==>
        var r2 := Parse(p2, s, r1.pos, end);
        Parse(Seq(p1, p2), s, pos, end) == Returned(r2.pos, Run(r1.result.events + r2.result.events))
  {
    var r1 := Parse(p1, s, pos, end);
    var r2 := if r1.Ok() then Parse(p2, s, r1.pos, end) else Diverges;
    SeqUnfold(p1, p2, s, pos, end, r1, r2);
    SequencedFacts(pos, r1, r2, true);
  }

  /** One step of `Parse` on `p1 + p2`, `p1 >> p2` and `p1 << p2`, given
      the outcomes `r1` of `p1` and `r2` of `p2` after it. */
  lemma SeqUnfold(p1: Parser, p2: Parser, s: string, pos: nat, end: nat, r1: Outcome, r2: Outcome)
    requires pos <= end <= |s|
    requires r1 == Parse(p1, s, pos, end)
    requires r2 == if r1.Ok() then Parse(p2, s, r1.pos, end) else Diverges
    ensures Parse(Seq(p1, p2), s, pos, end) == Sequenced(pos, r1, r2, true)
  {
    assert Parse(Seq(p1, p2), s, pos, end) == ParseSeq(p1, p2, s, pos, end);
  }

  lemma SkipUnfold(p1: Parser, p2: Parser, s: string, pos: nat, end: nat, r1: Outcome, r2: Outcome)
    requires pos <= end <= |s|
    requires r1 == Parse(p1, s, pos, end)
    requires r2 == if r1.Ok() then Parse(p2, s, r1.pos, end) else Diverges
    ensures Parse(Skip(p1, p2), s, pos, end) == Sequenced(pos, r1, r2, false)
  {
    assert Parse(Skip(p1, p2), s, pos, end) == ParseSkip(p1, p2, s, pos, end);
  }

  lemma LookaheadUnfold(p1: Parser, p2: Parser, s: string, pos: nat, end: nat, r1: Outcome, r2: Outcome)
    requires pos <= end <= |s|
    requires r1 == Parse(p1, s, pos, end)
    requires r2 == if r1.Ok() then Parse(p2, s, r1.pos, end) else Diverges
    ensures Parse(Lookahead(p1, p2), s, pos, end) == LookedAhead(pos, r1, r2)
  {
    assert Parse(Lookahead(p1, p2), s, pos, end) == ParseLookahead(p1, p2, s, pos, end);
  }

  /** How the result of a sequence is made of its two parts' results. */
  lemma SequencedFacts(pos: nat, r1: Outcome, r2: Outcome, keep: bool)
    requires r1.Failed() ==> r1.pos == pos
    ensures Sequenced(pos, r1, r2, keep).Ok() <==> r1.Ok() && r2.Ok()
    ensures r1.Ok() && r2.Ok() ==>
      Sequenced(pos, r1, r2, keep)
        == Returned(r2.pos, Run(if keep then r1.result.events + r2.result.events else r2.result.events))
  {
  }

  /** `p1 >> p2` matches like `p1 + p2`: it succeeds iff `p1` succeeds and
      then `p2` succeeds from where `p1` stopped, but its result is `p2`'s
      alone. */
  lemma SkipMatches(p1: Parser, p2: Parser, s: string, pos: nat, end: nat)
    requires pos <= end <= |s|
    ensures var r1 := Parse(p1, s, pos, end);
      Parse(Skip(p1, p2), s, pos, end).Ok() <==> r1.Ok() && Parse(p2, s, r1.pos, end).Ok()
    ensures var r1 := Parse(p1, s, pos, end);
      Parse(Skip(p1, p2), s, pos, end).Ok() ==> Parse(Skip(p1, p2), s, pos, end) == Parse(p2, s, r1.pos, end)
  {
    var r1 := Parse(p1, s, pos, end);
    var r2 := if r1.Ok() then Parse(p2, s, r1.pos, end) else Diverges;
    SkipUnfold(p1, p2, s, pos, end, r1, r2);
    SequencedFacts(pos, r1, r2, false);
  }

  /** Choice is left-biased: a success of `p1` is the answer and `p2` is not
      tried; otherwise the answer is `p2` run from the original position. */
  lemma ChoiceLeftBiased(p1: Parser, p2: Parser, s: string, pos: nat, end: nat)
    requires pos <= end <= |s|
    ensures Parse(p1, s, pos, end).Ok() ==> Parse(Choice(p1, p2), s, pos, end) == Parse(p1, s, pos, end)
    ensures Parse(p1, s, pos, end).Failed() ==> Parse(Choice(p1, p2), s, pos, end) == Parse(p2, s, pos, end)
  {
  }

  /** `p1 << p2` succeeds iff `p1` and then `p2` succeed; the cursor stays
      where `p1` stopped and the effect is `p1`'s. */
  lemma LookaheadMatches(p1: Parser, p2: Parser, s: string, pos: nat, end: nat)
    requires pos <= end <= |s|
    ensures var r1 := Parse(p1, s, pos, end);
      Parse(Lookahead(p1, p2), s, pos, end).Ok() <==> r1.Ok() && Parse(p2, s, r1.pos, end).Ok()
    ensures Parse(Lookahead(p1, p2), s, pos, end).Ok() ==>
      Parse(Lookahead(p1, p2), s, pos, end) == Parse(p1, s, pos, end)
  {
    var r1 := Parse(p1, s, pos, end);
    var r2 := if r1.Ok() then Parse(p2, s, r1.pos, end) else Diverges;
    LookaheadUnfold(p1, p2, s, pos, end, r1, r2);
    LookedAheadFacts(pos, r1, r2);
  }

  /** How the result of a lookahead is made of its two parts' results. */
  lemma LookedAheadFacts(pos: nat, r1: Outcome, r2: Outcome)
    requires r1.Failed() ==> r1.pos == pos
    ensures LookedAhead(pos, r1, r2).Ok() <==> r1.Ok() && r2.Ok()
    ensures LookedAhead(pos, r1, r2).Ok() ==> LookedAhead(pos, r1, r2) == r1
  {
  }

  /** `!p` never moves the cursor, and succeeds with no events iff `p` fails. */
  lemma NotMatches(p: Parser, s: string, pos: nat, end: nat)
    requires pos <= end <= |s|
    requires Parse(p, s, pos, end).Returned?
    ensures Parse(Not(p), s, pos, end).Returned? && Parse(Not(p), s, pos, end).pos == pos
    ensures Parse(Not(p), s, pos, end).Ok() <==> Parse(p, s, pos, end).Failed()
    ensures Parse(Not(p), s, pos, end).Ok() ==> Parse(Not(p), s, pos, end).result.events == []
  {
  }

  /** `~p` never fails: it is `p`'s outcome when `p` succeeds, and an empty
      success in place when `p` fails. */
  lemma OptionalNeverFails(p: Parser, s: string, pos: nat, end: nat)
    requires pos <= end <= |s|
    ensures !Parse(Optional(p), s, pos, end).Failed()
    ensures Parse(p, s, pos, end).Returned? ==> Parse(Optional(p), s, pos, end).Ok()
    ensures Parse(p, s, pos, end).Ok() ==> Parse(Optional(p), s, pos, end) == Parse(p, s, pos, end)
    ensures Parse(p, s, pos, end).Failed() ==> Parse(Optional(p), s, pos, end) == Returned(pos, Success())
  {
  }

  /** Parsers built from `~`, actions, sequences, skips, choices with an
      infallible alternative and unbounded `repeat(0)` cannot fail. */
  predicate Infallible(p: Parser) {
    match p
    case Optional(_) => true
    case Act(_) => true
    case Seq(p1, p2) => Infallible(p1) && Infallible(p2)
    case Skip(p1, p2) => Infallible(p1) && Infallible(p2)
    case Choice(p1, p2) => Infallible(p1) || Infallible(p2)
    case Repeat(_, from, to) => from <= 0 && to == -1
    case _ => false
  }

  /** An optional parser is infallible, and so is a sequence of two
      infallible parsers. */
  lemma InfallibleOptional(p: Parser)
    ensures Infallible(Optional(p))
  {
  }

  lemma InfallibleSeq(p1: Parser, p2: Parser)
    requires Infallible(p1) && Infallible(p2)
    ensures Infallible(Seq(p1, p2))
  {
  }

  /** Five optional parts in a row cannot fail. */
  lemma OptionalsInfallible(a: Parser, b: Parser, c: Parser, d: Parser, e: Parser)
    ensures Infallible(Seq(Seq(Seq(Seq(Optional(a), Optional(b)), Optional(c)), Optional(d)), Optional(e)))
  {
    InfallibleOptional(a);
    InfallibleOptional(b);
    InfallibleOptional(c);
    InfallibleOptional(d);
    InfallibleOptional(e);
    var ab := Seq(Optional(a), Optional(b));
    InfallibleSeq(Optional(a), Optional(b));
    InfallibleSeq(ab, Optional(c));
    InfallibleSeq(Seq(ab, Optional(c)), Optional(d));
    InfallibleSeq(Seq(Seq(ab, Optional(c)), Optional(d)), Optional(e));
  }

  /** A call of an infallible parser that returns succeeds. */
  lemma {:induction false} NeverFails(p: Parser, s: string, pos: nat, end: nat)
    requires pos <= end <= |s|
    requires Infallible(p)
    ensures Parse(p, s, pos, end).Returned? ==> Parse(p, s, pos, end).Ok()
    decreases p
  {
    match p
    case Seq(p1, p2) =>
      NeverFails(p1, s, pos, end);
      var r1 := Parse(p1, s, pos, end);
      if r1.Ok() {
        NeverFails(p2, s, r1.pos, end);
      }
    case Skip(p1, p2) =>
      NeverFails(p1, s, pos, end);
      var r1 := Parse(p1, s, pos, end);
      if r1.Ok() {
        NeverFails(p2, s, r1.pos, end);
      }
    case Choice(p1, p2) =>
      var r1 := Parse(p1, s, pos, end);
      if Infallible(p1) {
        NeverFails(p1, s, pos, end);
      } else if r1.Returned? {
        NeverFails(p2, s, r1.pos, end);
      }
    case Repeat(body, from, to) =>
      var t := RepeatLoop(body, to, s, pos, end, 0, []);
      if t.Tally? {
        assert Parse(p, s, pos, end) == Returned(t.pos, Run(t.events));
      }
    case _ =>
  }

  /** A literal matches iff it is a prefix of the rest of the span. */
  lemma LitPrefix(text: string, s: string, pos: nat, end: nat)
    requires pos <= end <= |s|
    ensures Parse(Lit(text), s, pos, end).Ok() <==> text <= s[pos..end]
  {
    assert Parse(Lit(text), s, pos, end) == LitMatch(text, s, pos, end);
    PrefixWindow(text, s, pos, end);
  }

  /** A literal returns, and reports nothing when it matches. */
  lemma LitQuiet(text: string, s: string, pos: nat, q: nat)
    requires pos <= q <= |s|
    ensures Parse(Lit(text), s, pos, q).Returned?
    ensures Parse(Lit(text), s, pos, q).Ok() ==> Parse(Lit(text), s, pos, q).result.events == []
  {
    assert Parse(Lit(text), s, pos, q) == LitMatch(text, s, pos, q);
  }

  /** `text` lies at `pos` within the span iff it is a prefix of the rest of
      the span. */
  lemma PrefixWindow(text: string, s: string, pos: nat, end: nat)
    requires pos <= end <= |s|
    ensures (pos + |text| <= end && s[pos..pos + |text|] == text) <==> text <= s[pos..end]
  {
    if pos + |text| <= end {
      assert s[pos..end][..|text|] == s[pos..pos + |text|];
    }
  }

  /** `p % process`: the processor is run on exactly the span `[pos, q)` that
      `p` matched, with `q` as its end; both must succeed, the cursor ends at
      `q` whatever the processor consumed, and the events are `p`'s followed
      by the processor's. When the processor fails the cursor goes back. */
  lemma AttachMatches(p: Parser, process: Parser, s: string, pos: nat, end: nat)
    requires pos <= end <= |s|
    requires Parse(p, s, pos, end).Ok()
    ensures var r1 := Parse(p, s, pos, end);
      var rp := Parse(process, s, pos, r1.pos);
      && (rp.Ok() ==> Parse(Attach(p, process), s, pos, end)
                        == Returned(r1.pos, Run(r1.result.events + rp.result.events)))
      && (rp.Failed() ==> Parse(Attach(p, process), s, pos, end) == Returned(pos, Fail))
  {
    var r1 := Parse(p, s, pos, end);
    var r2 := Parse(process, s, pos, r1.pos);
    AttachUnfold(p, process, s, pos, end, r1, r2);
    AttachedFacts(pos, r1, r2);
  }

  /** One step of `Parse` on `p % process`. */
  lemma AttachUnfold(p: Parser, process: Parser, s: string, pos: nat, end: nat, r1: Outcome, r2: Outcome)
    requires pos <= end <= |s|
    requires r1 == Parse(p, s, pos, end)
    requires r2 == if r1.Ok() then Parse(process, s, pos, r1.pos) else Diverges
    ensures Parse(Attach(p, process), s, pos, end) == Attached(pos, r1, r2)
  {
    assert Parse(Attach(p, process), s, pos, end) == ParseAttach(p, process, s, pos, end);
  }

  /** How the result of `%` is made of its two parts' results. */
  lemma AttachedFacts(pos: nat, r1: Outcome, r2: Outcome)
    requires r1.Ok()
    ensures r2.Ok() ==> Attached(pos, r1, r2) == Returned(r1.pos, Run(r1.result.events + r2.result.events))
    ensures r2.Failed() ==> Attached(pos, r1, r2) == Returned(pos, Fail)
  {
  }

  /** `converter % handler` does not move the cursor, and its result is the
      handler applied to the converted rest of the input. */
  lemma ConvertMatches(conv: string -> Value, handler: Value -> Effect, s: string, pos: nat, end: nat)
    requires pos <= end <= |s|
    ensures Parse(Convert(conv, handler), s, pos, end) == Returned(pos, handler(conv(s[pos..end])))
  {
  }

  /** The idiom `outer % (inner + end())`: it succeeds iff `inner` matches
      the whole span that `outer` matched, not just a prefix of it. */
  lemma Confined(outer: Parser, inner: Parser, s: string, pos: nat, end: nat)
    requires pos <= end <= |s|
    requires Parse(outer, s, pos, end).Ok()
    ensures var q := Parse(outer, s, pos, end).pos;
      Parse(Attach(outer, Seq(inner, End)), s, pos, end).Ok()
      <==> (Parse(inner, s, pos, q).Ok() && Parse(inner, s, pos, q).pos == q)
  {
    var q := Parse(outer, s, pos, end).pos;
    AttachOk(outer, Seq(inner, End), s, pos, end);
    WholeSpan(inner, s, pos, q);
  }

  lemma AttachOk(p: Parser, process: Parser, s: string, pos: nat, end: nat)
    requires pos <= end <= |s|
    requires Parse(p, s, pos, end).Ok()
    ensures Parse(Attach(p, process), s, pos, end).Ok()
            <==> Parse(process, s, pos, Parse(p, s, pos, end).pos).Ok()
  {
    var r1 := Parse(p, s, pos, end);
    var r2 := Parse(process, s, pos, r1.pos);
    AttachUnfold(p, process, s, pos, end, r1, r2);
    AttachedFacts(pos, r1, r2);
  }

  lemma WholeSpan(inner: Parser, s: string, pos: nat, q: nat)
    requires pos <= q <= |s|
    ensures Parse(Seq(inner, End), s, pos, q).Ok()
            <==> (Parse(inner, s, pos, q).Ok() && Parse(inner, s, pos, q).pos == q)
  {
    var r := Parse(inner, s, pos, q);
    assert Parse(Seq(inner, End), s, pos, q) == ParseSeq(inner, End, s, pos, q);
    if r.Ok() {
      assert Parse(End, s, r.pos, q) == EndMatch(r.pos, q);
    }
  }

  // ---------------------------------------------------------------------
  // repeat

  /** The result of `n` successive matches of `body`, each attempted at a
      position other than `end`, starting at `pos`. */
  datatype Chained = Chain(pos: nat, events: seq<Event>) | Broken

  function Iterate(body: Parser, s: string, pos: nat, end: nat, n: nat): (c: Chained)
    requires pos <= end <= |s|
    ensures c.Chain? ==> pos <= c.pos <= end
    decreases n
  {
    if n == 0 then Chain(pos, [])
    else if pos == end then Broken
    else
      match Parse(body, s, pos, end)
      case Returned(q, Run(e)) =>
        (match Iterate(body, s, q, end, n - 1)
         case Chain(q2, e2) => Chain(q2, e + e2)
         case Broken => Broken)
      case _ => Broken
  }

  /** After `n` matches with the cursor at `q`, `repeat`'s loop does not try
      again: the input is used up, `to + 1` matches were collected, or `body`
      fails at `q`. */
  predicate Stops(body: Parser, to: int, s: string, q: nat, end: nat, n: nat)
    requires q <= end <= |s|
  {
    q == end || !Below(to, n) || Parse(body, s, q, end).Failed()
  }

  /** After a success that moves the cursor or leaves a bound in force,
      `repeat`'s loop goes round again from the new cursor. */
  lemma LoopGoesOn(body: Parser, to: int, s: string, pos: nat, end: nat, times: nat, acc: seq<Event>)
    requires pos < end <= |s| && Below(to, times)
    requires Parse(body, s, pos, end).Ok()
    requires RepeatLoop(body, to, s, pos, end, times, acc).Tally?
    ensures var r := Parse(body, s, pos, end);
      RepeatLoop(body, to, s, pos, end, times, acc)
        == RepeatLoop(body, to, s, r.pos, end, times + 1, acc + r.result.events)
  {
  }

  /** Iterating `n + 1` times is a success followed by `n` more. */
  lemma IterateStep(body: Parser, s: string, pos: nat, end: nat, n: nat)
    requires pos < end <= |s|
    requires Parse(body, s, pos, end).Ok()
    ensures var r := Parse(body, s, pos, end);
      var c := Iterate(body, s, r.pos, end, n);
      Iterate(body, s, pos, end, n + 1) == if c.Chain? then Chain(c.pos, r.result.events + c.events) else Broken
  {
  }

  /** Iterating stops at a position where `body` does not succeed. */
  lemma IterateBroken(body: Parser, s: string, pos: nat, end: nat, n: nat)
    requires pos <= end <= |s| && n > 0
    requires !Parse(body, s, pos, end).Ok()
    ensures Iterate(body, s, pos, end, n) == Broken
  {
  }

  lemma {:induction false} LoopCount(body: Parser, to: int, s: string, pos: nat, end: nat,
                                     times: nat, acc: seq<Event>) returns (n: nat)
    requires pos <= end <= |s|
    requires RepeatLoop(body, to, s, pos, end, times, acc).Tally?
    ensures Iterate(body, s, pos, end, n).Chain?
    ensures var c := Iterate(body, s, pos, end, n);
      && RepeatLoop(body, to, s, pos, end, times, acc) == Tally(c.pos, times + n, acc + c.events)
      && Stops(body, to, s, c.pos, end, times + n)
    ensures n == 0 || Below(to, times + n - 1)
    decreases end - pos, if to >= 0 then to + 1 - times else 0
  {
    if pos != end && Below(to, times) && Parse(body, s, pos, end).Ok() {
      var r := Parse(body, s, pos, end);
      LoopGoesOn(body, to, s, pos, end, times, acc);
      var m := LoopCount(body, to, s, r.pos, end, times + 1, acc + r.result.events);
      LoopCountStep(body, to, s, pos, end, times, acc, m);
      n := m + 1;
    } else {
      LoopStops(body, to, s, pos, end, times, acc);
      n := 0;
    }
  }

  /** Where `repeat`'s loop does not go on, it ends with what it has. */
  lemma LoopStops(body: Parser, to: int, s: string, pos: nat, end: nat, times: nat, acc: seq<Event>)
    requires pos <= end <= |s|
    requires RepeatLoop(body, to, s, pos, end, times, acc).Tally?
    requires !(pos != end && Below(to, times) && Parse(body, s, pos, end).Ok())
    ensures RepeatLoop(body, to, s, pos, end, times, acc) == Tally(pos, times, acc + [])
    ensures Stops(body, to, s, pos, end, times)
  {
    assert acc + [] == acc;
  }

  /** One step of `LoopCount`: `m` matches after a first one are `m + 1`
      matches. */
  lemma LoopCountStep(body: Parser, to: int, s: string, pos: nat, end: nat,
                      times: nat, acc: seq<Event>, m: nat)
    requires pos < end <= |s| && Below(to, times)
    requires Parse(body, s, pos, end).Ok()
    requires RepeatLoop(body, to, s, pos, end, times, acc).Tally?
    requires var r := Parse(body, s, pos, end);
      var c := Iterate(body, s, r.pos, end, m);
      && c.Chain?
      && RepeatLoop(body, to, s, r.pos, end, times + 1, acc + r.result.events)
           == Tally(c.pos, times + 1 + m, acc + r.result.events + c.events)
      && Stops(body, to, s, c.pos, end, times + 1 + m)
    ensures Iterate(body, s, pos, end, m + 1).Chain?
    ensures var c := Iterate(body, s, pos, end, m + 1);
      && RepeatLoop(body, to, s, pos, end, times, acc) == Tally(c.pos, times + m + 1, acc + c.events)
      && Stops(body, to, s, c.pos, end, times + m + 1)
  {
    var r := Parse(body, s, pos, end);
    LoopGoesOn(body, to, s, pos, end, times, acc);
    IterateStep(body, s, pos, end, m);
    var c := Iterate(body, s, r.pos, end, m);
    assert acc + r.result.events + c.events == acc + (r.result.events + c.events);
  }

  /** `repeat(from, to)` collects some number `n` of matches: `n` successive
      matches exist, the loop stopped for one of its three reasons, no more
      than `to + 1` were attempted, and the repeat succeeds, with the events of
      the matches in match order, iff `from <= n` and (`to == -1` or
      `n <= to`); otherwise it fails and the cursor is put back. */
  lemma RepeatCount(body: Parser, from: int, to: int, s: string, pos: nat, end: nat)
      returns (n: nat)
    requires pos <= end <= |s|
    requires Parse(Repeat(body, from, to), s, pos, end).Returned?
    ensures Iterate(body, s, pos, end, n).Chain?
    ensures Stops(body, to, s, Iterate(body, s, pos, end, n).pos, end, n)
    ensures n == 0 || Below(to, n - 1)
    ensures var c := Iterate(body, s, pos, end, n);
      Parse(Repeat(body, from, to), s, pos, end)
        == if from <= n && Below(to, n) then Returned(c.pos, Run(c.events)) else Returned(pos, Fail)
  {
    n := LoopCount(body, to, s, pos, end, 0, []);
    assert [] + Iterate(body, s, pos, end, n).events == Iterate(body, s, pos, end, n).events;
  }

  lemma {:induction false} LoopTooMany(body: Parser, to: int, s: string, pos: nat, end: nat,
                                       times: nat, acc: seq<Event>)
    requires pos <= end <= |s| && 0 <= to && times <= to + 1
    requires Iterate(body, s, pos, end, to + 1 - times).Chain?
    ensures RepeatLoop(body, to, s, pos, end, times, acc).Tally?
    ensures RepeatLoop(body, to, s, pos, end, times, acc).count == to + 1
    decreases (to + 1) - times
  {
    if times <= to {
      match Parse(body, s, pos, end)
      case Returned(q, Run(e)) =>
        LoopTooMany(body, to, s, q, end, times + 1, acc + e);
    }
  }

  /** When `to + 1` successive matches are available, `repeat(from, to)`
      collects all of them and then fails, putting the cursor back. */
  lemma RepeatTooMany(body: Parser, from: int, to: int, s: string, pos: nat, end: nat)
    requires pos <= end <= |s| && 0 <= to
    requires Iterate(body, s, pos, end, to + 1).Chain?
    ensures Parse(Repeat(body, from, to), s, pos, end) == Returned(pos, Fail)
  {
    LoopTooMany(body, to, s, pos, end, 0, []);
  }

  /** An unbounded `repeat` whose operand succeeds without consuming, at a
      position before `end`, never returns. */
  lemma RepeatOfEmptyDiverges(body: Parser, from: int, s: string, pos: nat, end: nat, e: seq<Event>)
    requires pos < end <= |s|
    requires Parse(body, s, pos, end) == Returned(pos, Run(e))
    ensures Parse(Repeat(body, from, -1), s, pos, end) == Diverges
  {
    assert RepeatLoop(body, -1, s, pos, end, 0, []) == Endless;
    assert Parse(Repeat(body, from, -1), s, pos, end) == ParseRepeat(body, from, -1, s, pos, end);
  }

  /** For instance, `~p{'a'}` repeated on "b". */
  lemma OptionalRepeatDiverges()
    ensures Parse(Repeat(Optional(Chr('a')), 0, -1), "b", 0, 1) == Diverges
  {
    assert Parse(Optional(Chr('a')), "b", 0, 1) == ParseOptional(Chr('a'), "b", 0, 1);
    assert Parse(Chr('a'), "b", 0, 1) == ChrMatch('a', "b", 0, 1);
    RepeatOfEmptyDiverges(Optional(Chr('a')), 0, "b", 0, 1, []);
  }

  // ---------------------------------------------------------------------
  // somewhere

  /** Does `body` fail at every position in `[from, to)`? */
  predicate FailsThroughout(body: Parser, s: string, from: nat, to: nat)
    requires from <= to <= |s|
  {
    forall i | from <= i < to :: Parse(body, s, i, to).Failed()
  }

  lemma {:induction false} LoopFound(body: Parser, s: string, start: nat, pos: nat, end: nat)
      returns (k: nat)
    requires start <= pos <= end <= |s|
    requires SomewhereLoop(body, s, start, pos, end).Ok()
    ensures pos <= k < end
    ensures forall i | pos <= i < k :: Parse(body, s, i, end).Failed()
    ensures Parse(body, s, k, end) == SomewhereLoop(body, s, start, pos, end)
    decreases end - pos
  {
    match Parse(body, s, pos, end)
    case Returned(q, Run(e)) =>
      k := pos;
    case Returned(q, Fail) =>
      assert SomewhereLoop(body, s, start, pos, end) == SomewhereLoop(body, s, start, pos + 1, end);
      k := LoopFound(body, s, start, pos + 1, end);
  }

  lemma {:induction false} LoopFirst(body: Parser, s: string, start: nat, pos: nat, end: nat, k: nat)
    requires start <= pos <= k < end <= |s|
    requires forall i | pos <= i < k :: Parse(body, s, i, end).Failed()
    requires Parse(body, s, k, end).Returned?
    ensures Parse(body, s, k, end).Ok() ==> SomewhereLoop(body, s, start, pos, end) == Parse(body, s, k, end)
    decreases k - pos
  {
    if pos < k {
      assert Parse(body, s, pos, end).Failed();
      LoopSkips(body, s, start, pos, end);
      LoopFirst(body, s, start, pos + 1, end, k);
    }
  }

  /** Past a failure, `somewhere`'s loop goes on at the next position. */
  lemma LoopSkips(body: Parser, s: string, start: nat, pos: nat, end: nat)
    requires start <= pos < end <= |s|
    requires Parse(body, s, pos, end).Failed()
    ensures SomewhereLoop(body, s, start, pos, end) == SomewhereLoop(body, s, start, pos + 1, end)
  {
  }

  lemma FailsThroughoutStep(body: Parser, s: string, pos: nat, end: nat)
    requires pos < end <= |s|
    ensures FailsThroughout(body, s, pos, end)
            <==> Parse(body, s, pos, end).Failed() && FailsThroughout(body, s, pos + 1, end)
  {
  }

  lemma {:induction false} LoopNone(body: Parser, s: string, start: nat, pos: nat, end: nat)
    requires start <= pos <= end <= |s|
    ensures FailsThroughout(body, s, pos, end) <==> SomewhereLoop(body, s, start, pos, end).Failed()
    decreases end - pos
  {
    if pos != end {
      LoopNone(body, s, start, pos + 1, end);
      FailsThroughoutStep(body, s, pos, end);
      if Parse(body, s, pos, end).Failed() {
        LoopSkips(body, s, start, pos, end);
      }
    }
  }

  /** A success of `p.somewhere()` is the success of `p` at the first
      position `k` before `end` where `p` does not fail. */
  lemma SomewhereFound(body: Parser, s: string, pos: nat, end: nat) returns (k: nat)
    requires pos <= end <= |s|
    requires Parse(Somewhere(body), s, pos, end).Ok()
    ensures pos <= k < end
    ensures forall i | pos <= i < k :: Parse(body, s, i, end).Failed()
    ensures Parse(Somewhere(body), s, pos, end) == Parse(body, s, k, end)
  {
    k := LoopFound(body, s, pos, pos, end);
  }

  /** Conversely, when `p` fails at `pos ... k - 1` and succeeds at `k < end`,
      `p.somewhere()` returns that success. */
  lemma SomewhereFirst(body: Parser, s: string, pos: nat, end: nat, k: nat)
    requires pos <= k < end <= |s|
    requires forall i | pos <= i < k :: Parse(body, s, i, end).Failed()
    requires Parse(body, s, k, end).Ok()
    ensures Parse(Somewhere(body), s, pos, end) == Parse(body, s, k, end)
  {
    assert Parse(Somewhere(body), s, pos, end) == SomewhereLoop(body, s, pos, pos, end);
    LoopFirst(body, s, pos, pos, end, k);
  }

  /** `p.somewhere()` fails iff `p` fails at every position before `end`,
      and then the cursor is put back. */
  lemma SomewhereFails(body: Parser, s: string, pos: nat, end: nat)
    requires pos <= end <= |s|
    ensures Parse(Somewhere(body), s, pos, end).Failed() <==> FailsThroughout(body, s, pos, end)
  {
    LoopNone(body, s, pos, pos, end);
    assert Parse(Somewhere(body), s, pos, end) == SomewhereLoop(body, s, pos, pos, end);
  }

  /** `somewhere` never tries the position `end` itself: `end().somewhere()`
      fails although `end()` would succeed there. */
  lemma SomewhereSkipsEnd(s: string, pos: nat, end: nat)
    requires pos <= end <= |s|
    ensures Parse(Somewhere(End), s, pos, end) == Returned(pos, Fail)
  {
    SomewhereFails(End, s, pos, end);
  }

  // ---------------------------------------------------------------------
  // Algebra

  /** Sequence is associative, cursor and events included. */
  lemma SeqAssociative(a: Parser, b: Parser, c: Parser, s: string, pos: nat, end: nat)
    requires pos <= end <= |s|
    ensures Parse(Seq(Seq(a, b), c), s, pos, end) == Parse(Seq(a, Seq(b, c)), s, pos, end)
  {
    assert Parse(Seq(Seq(a, b), c), s, pos, end) == ParseSeq(Seq(a, b), c, s, pos, end);
    assert Parse(Seq(a, b), s, pos, end) == ParseSeq(a, b, s, pos, end);
    assert Parse(Seq(a, Seq(b, c)), s, pos, end) == ParseSeq(a, Seq(b, c), s, pos, end);
    match Parse(a, s, pos, end)
    case Diverges =>
    case Returned(q1, Fail) =>
    case Returned(q1, Run(e1)) =>
      assert Parse(Seq(b, c), s, q1, end) == ParseSeq(b, c, s, q1, end);
      match Parse(b, s, q1, end)
      case Diverges =>
      case Returned(q2, Fail) =>
      case Returned(q2, Run(e2)) =>
        match Parse(c, s, q2, end)
        case Diverges =>
        case Returned(q3, Fail) =>
        case Returned(q3, Run(e3)) =>
          assert e1 + e2 + e3 == e1 + (e2 + e3);
  }

  /** Choice is associative. */
  lemma ChoiceAssociative(a: Parser, b: Parser, c: Parser, s: string, pos: nat, end: nat)
    requires pos <= end <= |s|
    ensures Parse(Choice(Choice(a, b), c), s, pos, end) == Parse(Choice(a, Choice(b, c)), s, pos, end)
  {
    assert Parse(Choice(Choice(a, b), c), s, pos, end) == ParseChoice(Choice(a, b), c, s, pos, end);
    assert Parse(Choice(a, b), s, pos, end) == ParseChoice(a, b, s, pos, end);
    assert Parse(Choice(a, Choice(b, c)), s, pos, end) == ParseChoice(a, Choice(b, c), s, pos, end);
    match Parse(a, s, pos, end)
    case Diverges =>
    case Returned(q1, Run(_)) =>
    case Returned(q1, Fail) =>
      assert Parse(Choice(b, c), s, q1, end) == ParseChoice(b, c, s, q1, end);
  }

  /** `!!p` succeeds iff `p` does, without moving the cursor and with no
      events: a pure lookahead. */
  lemma NotNot(p: Parser, s: string, pos: nat, end: nat)
    requires pos <= end <= |s|
    requires Parse(p, s, pos, end).Returned?
    ensures Parse(Not(Not(p)), s, pos, end)
              == Returned(pos, if Parse(p, s, pos, end).Ok() then Success() else Fail)
  {
    assert Parse(Not(Not(p)), s, pos, end) == ParseNot(Not(p), s, pos, end);
    assert Parse(Not(p), s, pos, end) == ParseNot(p, s, pos, end);
  }

  /** `~~p` is `~p`. */
  lemma OptionalIdempotent(p: Parser, s: string, pos: nat, end: nat)
    requires pos <= end <= |s|
    ensures Parse(Optional(Optional(p)), s, pos, end) == Parse(Optional(p), s, pos, end)
  {
  }
}
