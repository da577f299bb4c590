/**
  Regular-expression operator units and the pattern parser of Week6/regex.cc.

  An operator is a value: its kind (one of the four single-character matcher
  classes), its repeat bounds, and its stack of recorded match ranges.  The
  parser is the source's character-by-character state machine written as a
  left fold (`Step` for one character, `Run` for a string).
 */
module Regex {

  /** A half-open range [start, end) of offsets into the subject string. */
  datatype Range = Range(start: int, end: int)

  /** The four concrete operator classes of the source. */
  datatype Kind =
    | MatchChar(toMatch: char)
    | MatchAny
    | MatchFromSubset(subset: string)
    | ExcludeFromSubset(subset: string)

  /** One regex operator: what it matches, how often, and its match history. */
  datatype Operator = Operator(kind: Kind, minRepeat: int, maxRepeat: int, matches: seq<Range>)

  /** The repeat bounds the setters' assertions guarantee. */
  predicate ValidBounds(op: Operator)
  {
    op.minRepeat >= 0 && op.maxRepeat >= -1
  }

  // ---------------------------------------------------------------------------
  // Construction, repeat bounds and the match stack
  // ---------------------------------------------------------------------------

  /** A fresh operator applies exactly once and has an empty match history. */
  function NewOperator(k: Kind): (op: Operator)
    ensures op.kind == k
    ensures op.minRepeat == 1 && op.maxRepeat == 1
    ensures NumMatches(op) == 0
  {
    Operator(k, 1, 1, [])
  }

  function SetMinRepeat(op: Operator, n: int): (r: Operator)
    requires n >= 0
    ensures r.minRepeat == n
    ensures r.maxRepeat == op.maxRepeat && r.kind == op.kind && r.matches == op.matches
  {
    op.(minRepeat := n)
  }

  /** `-1` stands for an unbounded maximum. */
  function SetMaxRepeat(op: Operator, n: int): (r: Operator)
    requires n >= -1
    ensures r.maxRepeat == n
    ensures r.minRepeat == op.minRepeat && r.kind == op.kind && r.matches == op.matches
  {
    op.(maxRepeat := n)
  }

  /** numMatches: how many ranges are on the match stack; zero exactly when it is empty. */
  function NumMatches(op: Operator): (n: int)
    ensures n >= 0
    ensures n == 0 <==> op.matches == []
  {
    |op.matches|
  }

  function ClearMatches(op: Operator): (r: Operator)
    ensures NumMatches(r) == 0
    ensures r.kind == op.kind && r.minRepeat == op.minRepeat && r.maxRepeat == op.maxRepeat
  {
    op.(matches := [])
  }

  function PushMatch(op: Operator, rg: Range): (r: Operator)
    ensures NumMatches(r) == NumMatches(op) + 1
    ensures r.matches[..|op.matches|] == op.matches && r.matches[|op.matches|] == rg
    ensures r.kind == op.kind && r.minRepeat == op.minRepeat && r.maxRepeat == op.maxRepeat
  {
    op.(matches := op.matches + [rg])
  }

  /** Removes and returns the most recent match; the history must be non-empty. */
  function PopMatch(op: Operator): (res: (Operator, Range))
    requires NumMatches(op) > 0
    ensures NumMatches(res.0) == NumMatches(op) - 1
    ensures PushMatch(res.0, res.1) == op
  {
    (op.(matches := op.matches[..|op.matches| - 1]), op.matches[|op.matches| - 1])
  }

  /** Pushing a range and popping it again gives back the range and the operator. */
  lemma PushThenPop(op: Operator, rg: Range)
    ensures NumMatches(PushMatch(op, rg)) > 0
    ensures PopMatch(PushMatch(op, rg)) == (op, rg)
  {
    assert (op.matches + [rg])[..|op.matches|] == op.matches;
  }

  // ---------------------------------------------------------------------------
  // Single-character matchers
  // ---------------------------------------------------------------------------

  /** The outcome of one match attempt: the verdict and the (possibly extended) range. */
  datatype MatchResult = MatchResult(matched: bool, range: Range)

  /** Which subject characters each operator kind accepts. */
  predicate Accepts(k: Kind, c: char)
  {
    match k
    case MatchChar(t) => c == t
    case MatchAny => true
    case MatchFromSubset(set_) => c in set_
    case ExcludeFromSubset(set_) => c !in set_
  }

  function MatchCharAt(toMatch: char, s: string, r: Range): (res: MatchResult)
    requires r.start >= 0
    ensures r.start >= |s| ==> !res.matched
    ensures r.start < |s| ==> (res.matched <==> s[r.start] == toMatch)
    ensures res.matched ==> res.range == Range(r.start, r.start + 1)
    ensures !res.matched ==> res.range == r
  {
    if r.start >= |s| then MatchResult(false, r)
    else if toMatch == s[r.start] then MatchResult(true, r.(end := r.start + 1))
    else MatchResult(false, r)
  }

  function MatchAnyAt(s: string, r: Range): (res: MatchResult)
    requires r.start >= 0
    ensures res.matched <==> r.start < |s|
    ensures res.matched ==> res.range == Range(r.start, r.start + 1)
    ensures !res.matched ==> res.range == r
  {
    if r.start >= |s| then MatchResult(false, r)
    else MatchResult(true, r.(end := r.start + 1))
  }

  /** The source's scan of the subset, from index `i` on. */
  function FindInSubset(subset: string, c: char, i: nat): (found: bool)
    requires i <= |subset|
    ensures found <==> c in subset[i..]
    decreases |subset| - i
  {
    if i == |subset| then false
    else if subset[i] == c then true
    else
      assert subset[i..] == [subset[i]] + subset[i + 1..];
      FindInSubset(subset, c, i + 1)
  }

  function MatchFromSubsetAt(subset: string, s: string, r: Range): (res: MatchResult)
    requires r.start >= 0
    ensures r.start >= |s| ==> !res.matched
    ensures r.start < |s| ==> (res.matched <==> s[r.start] in subset)
    ensures res.matched ==> res.range == Range(r.start, r.start + 1)
    ensures !res.matched ==> res.range == r
  {
    if r.start >= |s| then MatchResult(false, r)
    else if FindInSubset(subset, s[r.start], 0) then MatchResult(true, r.(end := r.start + 1))
    else MatchResult(false, r)
  }

  function ExcludeFromSubsetAt(subset: string, s: string, r: Range): (res: MatchResult)
    requires r.start >= 0
    ensures r.start >= |s| ==> !res.matched
    ensures r.start < |s| ==> (res.matched <==> !MatchFromSubsetAt(subset, s, r).matched)
    ensures r.start < |s| ==> (res.matched <==> s[r.start] !in subset)
    ensures res.matched ==> res.range == Range(r.start, r.start + 1)
    ensures !res.matched ==> res.range == r
  {
    if r.start >= |s| then MatchResult(false, r)
    else if FindInSubset(subset, s[r.start], 0) then MatchResult(false, r)
    else MatchResult(true, r.(end := r.start + 1))
  }

  /** The virtual `match` of an operator, dispatched on its kind. */
  function MatchAt(op: Operator, s: string, r: Range): (res: MatchResult)
    requires r.start >= 0
    ensures res.matched <==> r.start < |s| && Accepts(op.kind, s[r.start])
    ensures res.matched ==> res.range == Range(r.start, r.start + 1)
    ensures !res.matched ==> res.range == r
  {
    match op.kind
    case MatchChar(t) => MatchCharAt(t, s, r)
    case MatchAny => MatchAnyAt(s, r)
    case MatchFromSubset(set_) => MatchFromSubsetAt(set_, s, r)
    case ExcludeFromSubset(set_) => ExcludeFromSubsetAt(set_, s, r)
  }

  // ---------------------------------------------------------------------------
  // The parser
  // ---------------------------------------------------------------------------

  datatype ParseError = DanglingQuantifier(quantifier: char)

  datatype Result<T> = Ok(value: T) | Err(error: ParseError)

  /** The parser's loop state: the operators so far and its four local variables. */
  datatype ParseState = ParseState(
    result: seq<Operator>,
    escape: bool,
    bracket: bool,
    negateBracket: bool,
    inBracket: string)

  const Initial: ParseState := ParseState([], false, false, false, "")

  /** The state outside brackets and escapes, holding `ops`. */
  function Settle(ops: seq<Operator>): ParseState
  {
    ParseState(ops, false, false, false, "")
  }

  /** The bounds every parsed operator has: min in {0, 1}, max in {1, -1}, no history. */
  predicate Compiled(op: Operator)
  {
    && (op.minRepeat == 0 || op.minRepeat == 1)
    && (op.maxRepeat == 1 || op.maxRepeat == -1)
    && op.matches == []
  }

  /** While an escape is pending, the escaping backslash operator is on the list. */
  predicate WellFormed(st: ParseState)
  {
    && (st.escape ==> |st.result| > 0)
    && forall i :: 0 <= i < |st.result| ==> Compiled(st.result[i])
  }

  predicate IsQuantifier(c: char)
  {
    c == '?' || c == '*' || c == '+'
  }

  /** Characters with a meaning outside brackets. */
  predicate IsSpecial(c: char)
  {
    c == '\\' || c == '.' || IsQuantifier(c) || c == '['
  }

  /** What a quantifier does to the operator it follows. */
  function Quantify(op: Operator, q: char): Operator
    requires IsQuantifier(q)
  {
    if q == '?' then SetMinRepeat(op, 0)
    else if q == '*' then SetMaxRepeat(SetMinRepeat(op, 0), -1)
    else SetMaxRepeat(op, -1)
  }

  function Last(ops: seq<Operator>): Operator
    requires |ops| > 0
  {
    ops[|ops| - 1]
  }

  function DropLast(ops: seq<Operator>): seq<Operator>
    requires |ops| > 0
  {
    ops[..|ops| - 1]
  }

  /** One iteration of the parser loop outside brackets. */
  function StepOutside(st: ParseState, c: char): (r: Result<ParseState>)
    requires WellFormed(st) && !st.bracket
    ensures r.Ok? ==> WellFormed(r.value)
    ensures r.Err? <==> !st.escape && st.result == [] && IsQuantifier(c)
  {
    if c == '\\' then
      if !st.escape then
        Ok(st.(escape := true, result := st.result + [NewOperator(MatchChar('\\'))]))
      else
        Ok(st.(escape := false))
    else if c == '.' then
      if !st.escape then
        Ok(st.(result := st.result + [NewOperator(MatchAny)]))
      else
        Ok(st.(escape := false, result := DropLast(st.result) + [NewOperator(MatchChar('.'))]))
    else if IsQuantifier(c) then
      if !st.escape then
        if |st.result| == 0 then Err(DanglingQuantifier(c))
        else Ok(st.(result := DropLast(st.result) + [Quantify(Last(st.result), c)]))
      else
        Ok(st.(escape := false, result := DropLast(st.result) + [NewOperator(MatchChar(c))]))
    else if c == '[' then
      Ok(st.(bracket := true))
    else
      Ok(st.(escape := false, result := st.result + [NewOperator(MatchChar(c))]))
  }

  /** One iteration of the parser loop inside brackets; it never fails. */
  function StepInside(st: ParseState, c: char): (r: ParseState)
    requires WellFormed(st) && st.bracket
    ensures WellFormed(r)
  {
    if c == ']' then
      var k := if st.negateBracket then ExcludeFromSubset(st.inBracket) else MatchFromSubset(st.inBracket);
      st.(result := st.result + [NewOperator(k)], bracket := false, negateBracket := false, inBracket := "")
    else if c == '^' then
      st.(negateBracket := true)
    else
      st.(inBracket := st.inBracket + [c])
  }

  /** One iteration of the parser loop, on character `c`. */
  function Step(st: ParseState, c: char): (r: Result<ParseState>)
    requires WellFormed(st)
    ensures r.Ok? ==> WellFormed(r.value)
    ensures r.Err? <==> !st.bracket && !st.escape && st.result == [] && IsQuantifier(c)
  {
    if !st.bracket then StepOutside(st, c) else Ok(StepInside(st, c))
  }

  /** The parser loop over the characters `cs`, stopping at the first error. */
  function Run(st: ParseState, cs: string): (r: Result<ParseState>)
    requires WellFormed(st)
    ensures r.Ok? ==> WellFormed(r.value)
    decreases |cs|
  {
    if cs == [] then Ok(st)
    else
      match Step(st, cs[0])
      case Err(e) => Err(e)
      case Ok(next) => Run(next, cs[1..])
  }

  /**
    parseRegex: every operator it returns has min in {0, 1}, max in {1, -1} and
    an empty history, so min <= max whenever max is bounded.  A pattern left
    inside brackets simply ends; the pending class is dropped.
   */
  function ParseRegex(expr: string): (r: Result<seq<Operator>>)
    ensures r.Ok? ==> forall i :: 0 <= i < |r.value| ==> Compiled(r.value[i]) && ValidBounds(r.value[i])
    ensures r.Ok? ==> forall i :: 0 <= i < |r.value| ==> r.value[i].maxRepeat != -1 ==> r.value[i].minRepeat <= r.value[i].maxRepeat
  {
    match Run(Initial, expr)
    case Ok(st) => Ok(st.result)
    case Err(e) => Err(e)
  }

  /**
    clearRegex pops every element of its argument, which C++ passes by value:
    only the local copy is emptied.  The copy is never handed back, so the
    call has no effect a caller can see: the caller's list is unchanged and
    the operators it points to are never freed.  `local` is that copy.
   */
  method ClearRegex(regex: seq<Operator>) returns (local: seq<Operator>)
    ensures |local| == 0
  {
    local := regex;
    while |local| > 0
      decreases |local|
    {
      local := local[..|local| - 1];
    }
  }

  // ---------------------------------------------------------------------------
  // Properties of the parser
  // ---------------------------------------------------------------------------

  /** Parsing a concatenation is parsing the first part, then the second from there. */
  lemma {:induction false} RunAppend(st: ParseState, a: string, b: string)
    requires WellFormed(st)
    ensures Run(st, a + b) == (match Run(st, a) case Err(e) => Err(e) case Ok(mid) => Run(mid, b))
    decreases |a|
  {
    if a == [] {
      assert a + b == b;
    } else {
      assert (a + b)[0] == a[0];
      assert (a + b)[1..] == a[1..] + b;
      match Step(st, a[0])
      case Err(e) =>
      case Ok(next) => RunAppend(next, a[1..], b);
    }
  }

  /** One `MatchChar` per character, in order. */
  function Literals(p: string): (ops: seq<Operator>)
  {
    seq(|p|, i requires 0 <= i < |p| => NewOperator(MatchChar(p[i])))
  }

  lemma {:induction false} RunLiterals(ops: seq<Operator>, p: string)
    requires forall i :: 0 <= i < |ops| ==> Compiled(ops[i])
    requires forall i :: 0 <= i < |p| ==> !IsSpecial(p[i])
    ensures Run(Settle(ops), p) == Ok(Settle(ops + Literals(p)))
    decreases |p|
  {
    if p == [] {
      assert ops + Literals(p) == ops;
    } else {
      var ops' := ops + [NewOperator(MatchChar(p[0]))];
      assert Step(Settle(ops), p[0]) == Ok(Settle(ops'));
      RunLiterals(ops', p[1..]);
      assert ops' + Literals(p[1..]) == ops + Literals(p);
    }
  }

  /** A pattern without special characters parses to one `MatchChar` per character. */
  lemma LiteralPattern(p: string)
    requires forall i :: 0 <= i < |p| ==> !IsSpecial(p[i])
    ensures ParseRegex(p) == Ok(Literals(p))
  {
    RunLiterals([], p);
    assert Initial == Settle([]);
    assert [] + Literals(p) == Literals(p);
  }

  /** An unescaped `.` adds one `MatchAny` operator. */
  lemma DotIsAny(p: string, ops: seq<Operator>)
    requires Run(Initial, p) == Ok(Settle(ops))
    ensures ParseRegex(p + ['.']) == Ok(ops + [NewOperator(MatchAny)])
  {
    RunAppend(Initial, p, ['.']);
  }

  /** A quantifier after a complete operator changes that last operator only. */
  lemma QuantifierOnLast(p: string, ops: seq<Operator>, q: char)
    requires Run(Initial, p) == Ok(Settle(ops))
    requires |ops| > 0
    requires IsQuantifier(q)
    ensures ParseRegex(p + [q]).Ok?
    ensures var r := ParseRegex(p + [q]).value;
      && |r| == |ops|
      && r[..|ops| - 1] == ops[..|ops| - 1]
      && r[|ops| - 1].kind == ops[|ops| - 1].kind
      && (q == '?' ==> r[|ops| - 1].minRepeat == 0 && r[|ops| - 1].maxRepeat == ops[|ops| - 1].maxRepeat)
      && (q == '*' ==> r[|ops| - 1].minRepeat == 0 && r[|ops| - 1].maxRepeat == -1)
      && (q == '+' ==> r[|ops| - 1].minRepeat == ops[|ops| - 1].minRepeat && r[|ops| - 1].maxRepeat == -1)
  {
    RunAppend(Initial, p, [q]);
    var r := DropLast(ops) + [Quantify(Last(ops), q)];
    assert Run(Settle(ops), [q]) == Ok(Settle(r));
    assert r[..|ops| - 1] == ops[..|ops| - 1];
  }

  /** A quantifier with no operator before it is rejected, whatever follows. */
  lemma DanglingQuantifierRejected(p: string, q: char, rest: string)
    requires Run(Initial, p) == Ok(Settle([]))
    requires IsQuantifier(q)
    ensures ParseRegex(p + [q] + rest) == Err(DanglingQuantifier(q))
  {
    RunAppend(Initial, p + [q], rest);
    RunAppend(Initial, p, [q]);
    assert Step(Settle([]), q) == Err(DanglingQuantifier(q));
  }

  /** `\.`, `\?`, `\*`, `\+` and `\\` each add exactly one literal operator. */
  lemma EscapedSpecial(p: string, ops: seq<Operator>, c: char)
    requires Run(Initial, p) == Ok(Settle(ops))
    requires c == '.' || IsQuantifier(c) || c == '\\'
    ensures Run(Initial, p + ['\\', c]) == Ok(Settle(ops + [NewOperator(MatchChar(c))]))
    ensures ParseRegex(p + ['\\', c]) == Ok(ops + [NewOperator(MatchChar(c))])
  {
    RunAppend(Initial, p, ['\\', c]);
    var esc := Settle(ops).(escape := true, result := ops + [NewOperator(MatchChar('\\'))]);
    assert Step(Settle(ops), '\\') == Ok(esc);
    assert DropLast(esc.result) == ops;
    var done := Settle(ops + [NewOperator(MatchChar(c))]);
    assert Step(esc, c) == Ok(done);
    assert ['\\', c][1..] == [c];
    assert Run(done, []) == Ok(done);
    assert Run(esc, [c]) == Ok(done);
    assert Run(Settle(ops), ['\\', c]) == Ok(done);
  }

  /** `\a` for an ordinary `a` keeps the backslash: two literal operators. */
  lemma EscapedOrdinary(p: string, ops: seq<Operator>, c: char)
    requires Run(Initial, p) == Ok(Settle(ops))
    requires !IsSpecial(c)
    ensures Run(Initial, p + ['\\', c]) ==
      Ok(Settle(ops + [NewOperator(MatchChar('\\')), NewOperator(MatchChar(c))]))
    ensures ParseRegex(p + ['\\', c]) ==
      Ok(ops + [NewOperator(MatchChar('\\')), NewOperator(MatchChar(c))])
  {
    RunAppend(Initial, p, ['\\', c]);
    var esc := Settle(ops).(escape := true, result := ops + [NewOperator(MatchChar('\\'))]);
    assert Step(Settle(ops), '\\') == Ok(esc);
    var done := Settle(ops + [NewOperator(MatchChar('\\')), NewOperator(MatchChar(c))]);
    assert esc.result + [NewOperator(MatchChar(c))] == done.result;
    assert Step(esc, c) == Ok(done);
    assert ['\\', c][1..] == [c];
    assert Run(done, []) == Ok(done);
    assert Run(esc, [c]) == Ok(done);
    assert Run(Settle(ops), ['\\', c]) == Ok(done);
  }

  /** A pattern ending in an unescaped `\` keeps the backslash as a literal operator. */
  lemma TrailingBackslashKept(p: string, ops: seq<Operator>)
    requires Run(Initial, p) == Ok(Settle(ops))
    ensures ParseRegex(p + ['\\']) == Ok(ops + [NewOperator(MatchChar('\\'))])
  {
    RunAppend(Initial, p, ['\\']);
  }

  /** The members of a bracket body: every `^` is dropped, the rest kept in order. */
  function WithoutCaret(m: string): (r: string)
    ensures forall c :: c in r <==> c in m && c != '^'
    ensures '^' !in m ==> r == m
    ensures |r| <= |m|
    decreases |m|
  {
    if m == [] then []
    else
      assert m == [m[0]] + m[1..];
      (if m[0] == '^' then [] else [m[0]]) + WithoutCaret(m[1..])
  }

  /**
    Concatenation is associative.  Stated apart so that its extensionality
    proof runs outside the large context of RunInBracket.
   */
  lemma SeqAssoc(a: string, b: string, c: string)
    ensures a + b + c == a + (b + c)
  {
  }

  lemma {:induction false} RunInBracket(st: ParseState, m: string)
    requires WellFormed(st) && st.bracket
    requires forall i :: 0 <= i < |m| ==> m[i] != ']'
    ensures Run(st, m) == Ok(st.(negateBracket := st.negateBracket || '^' in m,
                                 inBracket := st.inBracket + WithoutCaret(m)))
    decreases |m|
  {
    if m == [] {
      assert st.inBracket + WithoutCaret(m) == st.inBracket;
    } else {
      assert m == [m[0]] + m[1..];
      assert m[0] != ']';
      var next := StepInside(st, m[0]);
      assert Step(st, m[0]) == Ok(next);
      RunInBracket(next, m[1..]);
      var head: string := if m[0] == '^' then [] else [m[0]];
      assert next.inBracket == st.inBracket + head;
      assert next.negateBracket == (st.negateBracket || m[0] == '^');
      var rest := WithoutCaret(m[1..]);
      assert WithoutCaret(m) == head + rest;
      SeqAssoc(st.inBracket, head, rest);
      assert ('^' in m) == (m[0] == '^' || '^' in m[1..]);
    }
  }

  /**
    `[m]` adds one subset operator: `MatchFromSubset(m)`, or, when `^` occurs
    anywhere in `m`, `ExcludeFromSubset` of `m` without its `^` characters.
   */
  lemma BracketClass(p: string, ops: seq<Operator>, m: string)
    requires Run(Initial, p) == Ok(Settle(ops))
    requires forall i :: 0 <= i < |m| ==> m[i] != ']'
    ensures '^' !in m ==>
      Run(Initial, p + ['['] + m + [']']) == Ok(Settle(ops + [NewOperator(MatchFromSubset(m))]))
    ensures '^' in m ==>
      Run(Initial, p + ['['] + m + [']']) == Ok(Settle(ops + [NewOperator(ExcludeFromSubset(WithoutCaret(m)))]))
    ensures '^' !in m ==>
      ParseRegex(p + ['['] + m + [']']) == Ok(ops + [NewOperator(MatchFromSubset(m))])
    ensures '^' in m ==>
      ParseRegex(p + ['['] + m + [']']) == Ok(ops + [NewOperator(ExcludeFromSubset(WithoutCaret(m)))])
  {
    var open := Settle(ops).(bracket := true);
    RunAppend(Initial, p, ['[']);
    assert Run(Initial, p + ['[']) == Ok(open);
    RunAppend(Initial, p + ['['], m);
    RunInBracket(open, m);
    assert "" + WithoutCaret(m) == WithoutCaret(m);
    var filled := open.(negateBracket := '^' in m, inBracket := WithoutCaret(m));
    assert Run(Initial, p + ['['] + m) == Ok(filled);
    var k := if '^' in m then ExcludeFromSubset(WithoutCaret(m)) else MatchFromSubset(m);
    var done := Settle(ops + [NewOperator(k)]);
    assert Step(filled, ']') == Ok(done);
    assert Run(done, []) == Ok(done);
    assert Run(filled, [']']) == Ok(done);
    RunAppend(Initial, p + ['['] + m, [']']);
  }

  /** A `[` that is never closed contributes nothing. */
  lemma UnterminatedBracketDropped(p: string, ops: seq<Operator>, m: string)
    requires Run(Initial, p) == Ok(Settle(ops))
    requires forall i :: 0 <= i < |m| ==> m[i] != ']'
    ensures ParseRegex(p + ['['] + m) == Ok(ops)
  {
    var open := Settle(ops).(bracket := true);
    RunAppend(Initial, p, ['[']);
    assert Run(Initial, p + ['[']) == Ok(open);
    RunAppend(Initial, p + ['['], m);
    RunInBracket(open, m);
  }
}
