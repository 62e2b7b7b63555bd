/**
 * A parser never looks at the input at or beyond `end`: two inputs that agree
 * below `end` give the same outcome. Since `%` passes the end of the outer
 * match as the processor's `end`, the processor sees the matched span and
 * nothing after it.
 */
module Locality {
  import opened CombParser

  /** `s` and `t` hold the same characters below `end`. */
  predicate Agree(s: string, t: string, end: nat) {
    end <= |s| && end <= |t| && forall i | 0 <= i < end :: s[i] == t[i]
  }

  lemma {:induction false} RunEndLocal(pred: char -> bool, s: string, t: string, pos: nat, end: nat)
    requires pos <= end && Agree(s, t, end)
    ensures RunEnd(pred, s, pos, end) == RunEnd(pred, t, pos, end)
    decreases end - pos
  {
    if pos != end {
      RunEndLocal(pred, s, t, pos + 1, end);
    }
  }

  lemma {:induction false} LitStopLocal(text: string, s: string, t: string, start: nat, end: nat, it: nat)
    requires start <= end && Agree(s, t, end) && it <= |text| && start + it <= end
    requires s[start..start + it] == text[..it]
    ensures t[start..start + it] == text[..it]
    ensures LitStop(text, s, start, end, it) == LitStop(text, t, start, end, it)
    decreases |text| - it
  {
    assert s[start..start + it] == t[start..start + it];
    if it < |text| && start + it != end && text[it] == s[start + it] {
      assert s[start..start + it + 1] == s[start..start + it] + [s[start + it]];
      assert text[..it + 1] == text[..it] + [text[it]];
      LitStopLocal(text, s, t, start, end, it + 1);
    }
  }

  /** The outcome of `p` depends only on the input below `end`. */
  lemma {:induction false} Local(p: Parser, s: string, t: string, pos: nat, end: nat)
    requires pos <= end && Agree(s, t, end)
    ensures Parse(p, s, pos, end) == Parse(p, t, pos, end)
    decreases p, 2, 0, 0
  {
    match p
    case Attach(_, _) => BinaryLocal(p, s, t, pos, end);
    case Choice(_, _) => BinaryLocal(p, s, t, pos, end);
    case Seq(_, _) => BinaryLocal(p, s, t, pos, end);
    case Skip(_, _) => BinaryLocal(p, s, t, pos, end);
    case Lookahead(_, _) => BinaryLocal(p, s, t, pos, end);
    case Not(p1) =>
      Local(p1, s, t, pos, end);
    case Optional(p1) =>
      Local(p1, s, t, pos, end);
    case Repeat(body, _, to) =>
      RepeatLocal(body, to, s, t, pos, end, 0, []);
    case Somewhere(body) =>
      SomewhereLocal(body, s, t, pos, pos, end);
    case _ =>
      LeafLocal(p, s, t, pos, end);
  }

  lemma LeafLocal(p: Parser, s: string, t: string, pos: nat, end: nat)
    requires pos <= end && Agree(s, t, end)
    requires p.End? || p.Many? || p.Lit? || p.Chr? || p.Convert? || p.Act?
    ensures Parse(p, s, pos, end) == Parse(p, t, pos, end)
  {
    match p
    case Many(pred) =>
      RunEndLocal(pred, s, t, pos, end);
    case Lit(text) =>
      LitStopLocal(text, s, t, pos, end, 0);
    case Convert(_, _) =>
      assert s[pos..end] == t[pos..end];
    case _ =>
  }

  lemma {:induction false} BinaryLocal(p: Parser, s: string, t: string, pos: nat, end: nat)
    requires pos <= end && Agree(s, t, end)
    requires p.Attach? || p.Choice? || p.Seq? || p.Skip? || p.Lookahead?
    ensures Parse(p, s, pos, end) == Parse(p, t, pos, end)
    decreases p, 1, 0, 0
  {
    match p
    case Attach(p1, process) =>
      Local(p1, s, t, pos, end);
      var r1 := Parse(p1, s, pos, end);
      if r1.Ok() {
        Local(process, s, t, pos, r1.pos);
      }
    case Choice(p1, p2) =>
      Local(p1, s, t, pos, end);
      Local(p2, s, t, pos, end);
    case Seq(p1, p2) =>
      Local(p1, s, t, pos, end);
      var r1 := Parse(p1, s, pos, end);
      if r1.Ok() {
        Local(p2, s, t, r1.pos, end);
      }
    case Skip(p1, p2) =>
      Local(p1, s, t, pos, end);
      var r1 := Parse(p1, s, pos, end);
      if r1.Ok() {
        Local(p2, s, t, r1.pos, end);
      }
    case Lookahead(p1, p2) =>
      Local(p1, s, t, pos, end);
      var r1 := Parse(p1, s, pos, end);
      if r1.Ok() {
        Local(p2, s, t, r1.pos, end);
      }
  }

  lemma {:induction false} RepeatLocal(body: Parser, to: int, s: string, t: string, pos: nat, end: nat,
                                       times: nat, acc: seq<Event>)
    requires pos <= end && Agree(s, t, end)
    ensures RepeatLoop(body, to, s, pos, end, times, acc) == RepeatLoop(body, to, t, pos, end, times, acc)
    decreases body, 3, end - pos, if to >= 0 then to + 1 - times else 0
  {
    if pos != end && Below(to, times) {
      Local(body, s, t, pos, end);
      var r := Parse(body, s, pos, end);
      if r.Ok() && !(to == -1 && r.pos == pos) {
        RepeatLocal(body, to, s, t, r.pos, end, times + 1, acc + r.result.events);
      }
    }
  }

  lemma {:induction false} SomewhereLocal(body: Parser, s: string, t: string, start: nat, pos: nat, end: nat)
    requires start <= pos <= end && Agree(s, t, end)
    ensures SomewhereLoop(body, s, start, pos, end) == SomewhereLoop(body, t, start, pos, end)
    decreases body, 3, end - pos, 0
  {
    if pos != end {
      Local(body, s, t, pos, end);
      if Parse(body, s, pos, end).Failed() {
        SomewhereLocal(body, s, t, start, pos + 1, end);
      }
      SomewhereLocalStep(body, s, t, start, pos, end);
    }
  }

  /** One step of `somewhere()`: equal outcomes here and equal outcomes of
      the rest of the scan give equal outcomes of the scan from here. */
  lemma SomewhereLocalStep(body: Parser, s: string, t: string, start: nat, pos: nat, end: nat)
    requires start <= pos < end && Agree(s, t, end)
    requires Parse(body, s, pos, end) == Parse(body, t, pos, end)
    requires Parse(body, s, pos, end).Failed() ==>
      SomewhereLoop(body, s, start, pos + 1, end) == SomewhereLoop(body, t, start, pos + 1, end)
    ensures SomewhereLoop(body, s, start, pos, end) == SomewhereLoop(body, t, start, pos, end)
  {
  }

  /** The processor of `p % process` sees only the span `p` matched: its
      outcome is the same on the input cut off at the end of that span. */
  lemma ProcessorSeesSpan(p: Parser, process: Parser, s: string, pos: nat, end: nat)
    requires pos <= end <= |s|
    requires Parse(p, s, pos, end).Ok()
    ensures var q := Parse(p, s, pos, end).pos;
      Parse(process, s, pos, q) == Parse(process, s[..q], pos, q)
  {
    var q := Parse(p, s, pos, end).pos;
    Local(process, s, s[..q], pos, q);
  }
}
