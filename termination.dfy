/**
 * When does a call of a parser return? Only an unbounded `repeat` can loop
 * forever, and only when its operand can succeed without moving the cursor.
 * `Total` is a sufficient syntactic condition for every call to return, and
 * `Consuming` one for every success to move the cursor forward.
 */
module Termination {
  import opened CombParser
  import opened Laws

  /** Every success of `p` moves the cursor forward. */
  predicate Consuming(p: Parser) {
    match p
    case Many(_) => true
    case Chr(_) => true
    case Lit(text) => text != []
    case Attach(p1, _) => Consuming(p1)
    case Choice(p1, p2) => Consuming(p1) && Consuming(p2)
    case Seq(p1, p2) => Consuming(p1) || Consuming(p2)
    case Skip(p1, p2) => Consuming(p1) || Consuming(p2)
    case Lookahead(p1, _) => Consuming(p1)
    case Repeat(body, from, _) => from >= 1 && Consuming(body)
    case Somewhere(body) => Consuming(body)
    case _ => false
  }

  /** Every unbounded `repeat` inside `p` has a consuming operand. */
  predicate Total(p: Parser) {
    match p
    case Attach(p1, p2) => Total(p1) && Total(p2)
    case Choice(p1, p2) => Total(p1) && Total(p2)
    case Seq(p1, p2) => Total(p1) && Total(p2)
    case Skip(p1, p2) => Total(p1) && Total(p2)
    case Lookahead(p1, p2) => Total(p1) && Total(p2)
    case Not(p1) => Total(p1)
    case Optional(p1) => Total(p1)
    case Repeat(body, _, to) => Total(body) && (to != -1 || Consuming(body))
    case Somewhere(body) => Total(body)
    case _ => true
  }

  /** `end()` is total. */
  lemma EndTotal()
    ensures Total(End)
  {
  }

  /** The character matcher is total and consumes. */
  lemma ChrTotal(c: char)
    ensures Total(Chr(c)) && Consuming(Chr(c))
  {
  }

  /** The literal matcher is total. */
  lemma LitTotal(text: string)
    ensures Total(Lit(text))
  {
  }

  /** An action is total. */
  lemma ActTotal(name: string)
    ensures Total(Act(name))
  {
  }

  /** `~p` of a total parser is total. */
  lemma OptionalTotal(p: Parser)
    requires Total(p)
    ensures Total(Optional(p))
  {
  }

  /** Combining two total parsers with a binary combinator gives a total
      parser. */
  lemma TotalCompose(p1: Parser, p2: Parser)
    requires Total(p1) && Total(p2)
    ensures Total(Attach(p1, p2)) && Total(Choice(p1, p2)) && Total(Seq(p1, p2))
    ensures Total(Skip(p1, p2)) && Total(Lookahead(p1, p2))
  {
  }

  /** A success of a consuming parser leaves the cursor past where it
      started. */
  lemma {:induction false} Progress(p: Parser, s: string, pos: nat, end: nat)
    requires pos <= end <= |s|
    requires Consuming(p)
    ensures Parse(p, s, pos, end).Ok() ==> Parse(p, s, pos, end).pos > pos
    decreases p, 0
  {
    if Parse(p, s, pos, end).Ok() {
      match p
      case Attach(p1, _) =>
        Progress(p1, s, pos, end);
      case Choice(p1, p2) =>
        Progress(p1, s, pos, end);
        Progress(p2, s, pos, end);
      case Seq(p1, p2) =>
        if Consuming(p1) {
          Progress(p1, s, pos, end);
        } else {
          Progress(p2, s, Parse(p1, s, pos, end).pos, end);
        }
      case Skip(p1, p2) =>
        if Consuming(p1) {
          Progress(p1, s, pos, end);
        } else {
          Progress(p2, s, Parse(p1, s, pos, end).pos, end);
        }
      case Lookahead(p1, _) =>
        Progress(p1, s, pos, end);
      case Repeat(body, from, to) =>
        var n := RepeatCount(body, from, to, s, pos, end);
        IterateProgress(body, s, pos, end, n);
      case Somewhere(body) =>
        var k := SomewhereFound(body, s, pos, end);
        Progress(body, s, k, end);
      case _ =>
    }
  }

  /** A chain of at least one match of a consuming parser moves the cursor. */
  lemma IterateProgress(body: Parser, s: string, pos: nat, end: nat, n: nat)
    requires pos <= end <= |s|
    requires Consuming(body) && n >= 1 && Iterate(body, s, pos, end, n).Chain?
    ensures Iterate(body, s, pos, end, n).pos > pos
    decreases body, 1
  {
    Progress(body, s, pos, end);
  }

  /** A call of a total parser always returns. */
  lemma {:induction false} Terminates(p: Parser, s: string, pos: nat, end: nat)
    requires pos <= end <= |s|
    requires Total(p)
    ensures Parse(p, s, pos, end).Returned?
    decreases p, 0, 0, 0
  {
    match p
    case Attach(p1, p2) =>
      Terminates(p1, s, pos, end);
      if Parse(p1, s, pos, end).Ok() {
        Terminates(p2, s, pos, Parse(p1, s, pos, end).pos);
      }
    case Choice(p1, p2) =>
      Terminates(p1, s, pos, end);
      Terminates(p2, s, pos, end);
    case Seq(p1, p2) =>
      Terminates(p1, s, pos, end);
      if Parse(p1, s, pos, end).Ok() {
        Terminates(p2, s, Parse(p1, s, pos, end).pos, end);
      }
    case Skip(p1, p2) =>
      Terminates(p1, s, pos, end);
      if Parse(p1, s, pos, end).Ok() {
        Terminates(p2, s, Parse(p1, s, pos, end).pos, end);
      }
    case Lookahead(p1, p2) =>
      Terminates(p1, s, pos, end);
      if Parse(p1, s, pos, end).Ok() {
        Terminates(p2, s, Parse(p1, s, pos, end).pos, end);
      }
    case Not(p1) =>
      Terminates(p1, s, pos, end);
    case Optional(p1) =>
      Terminates(p1, s, pos, end);
    case Repeat(body, _, to) =>
      RepeatTerminates(body, to, s, pos, end, 0, []);
    case Somewhere(body) =>
      SomewhereTerminates(body, s, pos, pos, end);
    case _ =>
  }

  lemma {:induction false} RepeatTerminates(body: Parser, to: int, s: string, pos: nat, end: nat,
                                            times: nat, acc: seq<Event>)
    requires pos <= end <= |s|
    requires Total(body) && (to != -1 || Consuming(body))
    ensures RepeatLoop(body, to, s, pos, end, times, acc).Tally?
    decreases body, 1, end - pos, if to >= 0 then to + 1 - times else 0
  {
    if pos != end && Below(to, times) {
      Terminates(body, s, pos, end);
      var r := Parse(body, s, pos, end);
      if r.Ok() {
        if to == -1 {
          Progress(body, s, pos, end);
        }
        RepeatTerminates(body, to, s, r.pos, end, times + 1, acc + r.result.events);
      }
    }
  }

  lemma {:induction false} SomewhereTerminates(body: Parser, s: string, start: nat, pos: nat, end: nat)
    requires start <= pos <= end <= |s|
    requires Total(body)
    ensures SomewhereLoop(body, s, start, pos, end).Returned?
    decreases body, 1, end - pos, 0
  {
    if pos != end {
      Terminates(body, s, pos, end);
      if Parse(body, s, pos, end).Failed() {
        SomewhereTerminates(body, s, start, pos + 1, end);
      }
    }
  }
}
