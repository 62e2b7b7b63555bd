/**
 * The matching bodies of `comb_parser.h` as the imperative code they are: a
 * cursor that the loops advance and that failures put back by assignment.
 * Each method is proved to return exactly what `Parse` (or the helper that
 * specifies its loop) says, so every property proved about `Parse` holds of
 * the loops too. A call that never returns in C++ (`Parse` gives
 * `Diverges`) is excluded by the precondition, since a method must end.
 */
module Interpreter {
  import opened CombParser

  /** The predicate matcher (comb_parser.h, the `std::function<bool(Char)>`
      constructor). */
  method MatchMany(pred: char -> bool, s: string, pos: nat, end: nat) returns (q: nat, r: Effect)
    requires pos <= end <= |s|
    ensures ManyMatch(pred, s, pos, end) == Returned(q, r)
  {
    q := pos;
    while q != end && pred(s[q])
      invariant pos <= q <= end
      invariant RunEnd(pred, s, q, end) == RunEnd(pred, s, pos, end)
      decreases end - q
    {
      q := q + 1;
    }
    r := if q != pos then Success() else Fail;
  }

  /** The literal matcher (the `const Char*` constructor): `it` walks the
      literal and `q` the input until the literal ends, the input ends or the
      two differ. */
  method MatchLit(text: string, s: string, pos: nat, end: nat) returns (q: nat, r: Effect)
    requires pos <= end <= |s|
    ensures LitMatch(text, s, pos, end) == Returned(q, r)
  {
    var it := 0;
    q := pos;
    while it < |text| && q != end && text[it] == s[q]
      invariant it <= |text| && q == pos + it <= end
      invariant s[pos..q] == text[..it]
      invariant LitStop(text, s, pos, end, it) == LitStop(text, s, pos, end, 0)
      decreases |text| - it
    {
      PrefixStep(text, s, pos, it);
      it := it + 1;
      q := q + 1;
    }
    if it == |text| {
      r := Success();
      return;
    }
    q := pos;
    r := Fail;
  }

  /** One more equal character extends the agreeing prefix. */
  lemma PrefixStep(text: string, s: string, pos: nat, it: nat)
    requires it < |text| && pos + it < |s|
    requires s[pos..pos + it] == text[..it] && text[it] == s[pos + it]
    ensures s[pos..pos + it + 1] == text[..it + 1]
  {
    assert s[pos..pos + it + 1] == s[pos..pos + it] + [s[pos + it]];
    assert text[..it + 1] == text[..it] + [text[it]];
  }

  /** The events of the collected results, in collection order. */
  function Flatten(results: seq<seq<Event>>): seq<Event> {
    if results == [] then []
    else Flatten(results[..|results| - 1]) + results[|results| - 1]
  }

  /** `repeat(from, to)`: collects matches of `body` in `results` while the
      input lasts and fewer than `to + 1` were collected, then accepts the
      count or puts the cursor back. */
  method MatchRepeat(body: Parser, from: int, to: int, s: string, pos: nat, end: nat)
      returns (q: nat, r: Effect)
    requires pos <= end <= |s|
    requires Parse(Repeat(body, from, to), s, pos, end).Returned?
    ensures Parse(Repeat(body, from, to), s, pos, end) == Returned(q, r)
    decreases body, 2
  {
    ghost var final := RepeatLoop(body, to, s, pos, end, 0, []);
    var times := 0;
    q := pos;
    var results: seq<seq<Event>> := [];
    while q != end && Below(to, times)
      invariant pos <= q <= end
      invariant RepeatLoop(body, to, s, q, end, times, Flatten(results)) == final
      decreases end - q, if to >= 0 then to + 1 - times else 0
    {
      var r1;
      q, r1 := Match(body, s, q, end);
      if r1.Fail? {
        break;
      }
      times := times + 1;
      assert (results + [r1.events])[..|results|] == results;
      results := results + [r1.events];
    }
    assert final == Tally(q, times, Flatten(results));
    if times >= from && Below(to, times) {
      r := Run(Flatten(results));
      return;
    }
    q := pos;
    r := Fail;
  }

  /** `somewhere()`: tries `body` at each position from `pos` up to but not
      including `end`, and puts the cursor back when none succeeds. */
  method MatchSomewhere(body: Parser, s: string, pos: nat, end: nat) returns (q: nat, r: Effect)
    requires pos <= end <= |s|
    requires Parse(Somewhere(body), s, pos, end).Returned?
    ensures Parse(Somewhere(body), s, pos, end) == Returned(q, r)
    decreases body, 2
  {
    q := pos;
    while q != end
      invariant pos <= q <= end
      invariant SomewhereLoop(body, s, pos, q, end) == SomewhereLoop(body, s, pos, pos, end)
      decreases end - q
    {
      var r1;
      q, r1 := Match(body, s, q, end);
      if r1.Run? {
        r := r1;
        return;
      }
      q := q + 1;
    }
    q := pos;
    r := Fail;
  }

  /** Calls parser `p` with the cursor at `pos`, as `p(pos, end)` does. */
  method Match(p: Parser, s: string, pos: nat, end: nat) returns (q: nat, r: Effect)
    requires pos <= end <= |s|
    requires Parse(p, s, pos, end).Returned?
    ensures Parse(p, s, pos, end) == Returned(q, r)
    decreases p, 1
  {
    match p
    case End =>
      q, r := pos, if pos == end then Success() else Fail;
    case Many(pred) =>
      q, r := MatchMany(pred, s, pos, end);
    case Lit(text) =>
      q, r := MatchLit(text, s, pos, end);
    case Chr(c) =>
      q := pos;
      if q == end {
        r := Fail;
      } else if s[q] == c {
        q, r := q + 1, Success();
      } else {
        r := Fail;
      }
    case Attach(p1, process) =>
      var r1;
      q, r1 := Match(p1, s, pos, end);
      if r1.Run? {
        var _, rp := Match(process, s, pos, q);
        if rp.Run? {
          r := Run(r1.events + rp.events);
          return;
        }
        q := pos;
      }
      r := Fail;
    case Choice(p1, p2) =>
      q, r := Match(p1, s, pos, end);
      if r.Run? {
        return;
      }
      q, r := Match(p2, s, q, end);
    case Seq(p1, p2) =>
      var r1, r2;
      q, r1 := Match(p1, s, pos, end);
      if r1.Fail? {
        r := Fail;
        return;
      }
      q, r2 := Match(p2, s, q, end);
      if r2.Fail? {
        q, r := pos, Fail;
        return;
      }
      r := Run(r1.events + r2.events);
    case Skip(p1, p2) =>
      var r1;
      q, r1 := Match(p1, s, pos, end);
      if r1.Fail? {
        r := Fail;
        return;
      }
      q, r := Match(p2, s, q, end);
      if r.Fail? {
        q := pos;
      }
    case Lookahead(p1, p2) =>
      var r1, r2, beforeP2;
      q, r1 := Match(p1, s, pos, end);
      if r1.Fail? {
        r := Fail;
        return;
      }
      beforeP2 := q;
      q, r2 := Match(p2, s, q, end);
      if r2.Fail? {
        q, r := pos, Fail;
        return;
      }
      q, r := beforeP2, r1;
    case Not(p1) =>
      var r1;
      q, r1 := Match(p1, s, pos, end);
      if r1.Run? {
        q, r := pos, Fail;
        return;
      }
      r := Success();
    case Optional(p1) =>
      q, r := Match(p1, s, pos, end);
      if r.Fail? {
        r := Success();
      }
    case Repeat(body, from, to) =>
      q, r := MatchRepeat(body, from, to, s, pos, end);
    case Somewhere(body) =>
      q, r := MatchSomewhere(body, s, pos, end);
    case Convert(conv, handler) =>
      q, r := pos, handler(conv(s[pos..end]));
    case Act(name) =>
      q, r := pos, Run([Span(name, pos, end)]);
  }
}
