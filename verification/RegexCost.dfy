/**
 * `isRegexTooComplex`: a one-pass estimate, with a stack of group costs, of how large a pattern
 * becomes when its bounded repetitions are written out.
 */
module RegexCost {
  import opened Base
  import opened Bytes
  import Decimal

  const MAX_LENGTH: nat := 1024
  const MAX_DEPTH: nat := 32
  const MAX_STATES: nat := 100000

  // ------------------------------------------------------- the scan, as a function

  /** Position of the first `c` at or after `i`; None for npos. */
  function Find(s: string, c: char, i: nat): (r: Option<nat>)
    ensures r.Some? ==> i <= r.value < |s| && s[r.value] == c
    ensures r.Some? ==> forall j :: i <= j < r.value ==> s[j] != c
    ensures r.None? ==> forall j :: i <= j < |s| ==> s[j] != c
    decreases |s| - i
  {
    if i >= |s| then None else if s[i] == c then Some(i) else Find(s, c, i + 1)
  }

  /** The first number of a comma-separated list and the rest behind its comma. */
  function FirstBound(bounds: string): (r: Option<(nat, string)>)
    requires bounds != ""
    ensures r.Some? ==> r.value.0 <= MAX_STATES && |r.value.1| < |bounds|
  {
    var comma := Find(bounds, ',', 0);
    var part := if comma.Some? then bounds[..comma.value] else bounds;
    var value := if part == "" then Some((0, 0)) else Decimal.FromChars(part, POW64);
    if value.None? || value.value.0 > MAX_STATES then None
    else Some((value.value.0, if comma.Some? then bounds[comma.value + 1..] else ""))
  }

  /** The largest number in a comma-separated list; None when a part is unreadable or too large. */
  function Repeat(bounds: string): (r: Option<nat>)
    ensures r.Some? ==> r.value <= MAX_STATES
    decreases |bounds|
  {
    if bounds == "" then Some(0)
    else
      var first := FirstBound(bounds);
      if first.None? then None
      else
        var rest := Repeat(first.value.1);
        if rest.None? then None else Some(Max(first.value.0, rest.value))
  }

  /** What follows the bracket that closes a class, from inside the class. */
  function AfterItems(s: string): (r: string)
    ensures |r| <= |s|
    decreases |s|
  {
    if s == "" then "" else if s[0] == ']' then s[1..]
    else if s[0] == '\\' then AfterItems(Drop(s, 2))
    else AfterItems(s[1..])
  }

  function Drop(s: string, n: nat): (r: string)
    ensures |r| == Max(0, |s| - n)
  {
    if n >= |s| then "" else s[n..]
  }

  function SkipOne(s: string, c: char): (r: string)
    ensures |r| <= |s|
  {
    if s != "" && s[0] == c then s[1..] else s
  }

  /** What follows a class whose opening bracket was just read: `^` and a leading `]` belong to it. */
  function AfterClass(s: string): (r: string)
    ensures |r| <= |s|
  {
    AfterItems(SkipOne(SkipOne(s, '^'), ']'))
  }

  /** The cost stack, innermost group last, and the cost of the last atom. */
  datatype Costs = Costs(stack: seq<nat>, lastAtom: nat)

  ghost predicate Inv(c: Costs) {
    c.stack != [] && (forall i :: 0 <= i < |c.stack| ==> c.stack[i] <= MAX_STATES) && c.lastAtom <= MAX_STATES + 1
  }

  function Top(c: Costs): nat
    requires c.stack != []
  {
    c.stack[|c.stack| - 1]
  }

  /** Adds to the innermost group. */
  function Charge(c: Costs, amount: nat, lastAtom: nat): (r: Costs)
    requires c.stack != []
    ensures |r.stack| == |c.stack|
  {
    Costs(c.stack[|c.stack| - 1 := Top(c) + amount], lastAtom)
  }

  /** The new costs, or None for rejected, and the new rest. */
  type Next = (Option<Costs>, string)

  /** A closing bracket: the group becomes one atom of the group around it. */
  function Close(c: Costs): (r: Costs)
    requires |c.stack| > 1
    ensures |r.stack| == |c.stack| - 1
  {
    var atom := Top(c) + 1;
    Charge(Costs(c.stack[..|c.stack| - 1], 0), atom, atom)
  }

  /** A bounded repetition: the last atom is charged once more for each further copy. */
  function Repeated(c: Costs, repeat: Option<nat>): (r: Option<Costs>)
    requires c.stack != []
    ensures r.Some? ==> |r.value.stack| == |c.stack|
  {
    if repeat.None? then None
    else Some(Charge(c, c.lastAtom * (if repeat.value > 0 then repeat.value - 1 else 0), c.lastAtom))
  }

  /** One round on anything but an opening bracket, before the cap. */
  function Charged(s: string, c: Costs): (r: Next)
    requires s != "" && c.stack != []
    ensures |r.1| < |s| && (r.0.Some? ==> r.0.value.stack != [])
  {
    if s[0] == ')' && |c.stack| > 1 then (Some(Close(c)), s[1..])
    else if s[0] == '{' && Find(s, '}', 0).Some? then
      var close := Find(s, '}', 0).value;
      (Repeated(c, Repeat(s[1..close])), s[close + 1..])
    else (Some(Charge(c, 1, 1)),
          if s[0] == '[' then AfterClass(s[1..]) else if s[0] == '\\' then Drop(s, 2) else s[1..])
  }

  /** One round of the loop on a non-empty rest: rejected, or the new costs and the new rest. */
  function Round(s: string, c: Costs): (r: Option<(Costs, string)>)
    requires s != "" && c.stack != []
    ensures r.Some? ==> |r.value.1| < |s| && r.value.0.stack != []
  {
    if s[0] == '(' then
      if |c.stack| > MAX_DEPTH then None else Some((Costs(c.stack + [0], 0), s[1..]))
    else
      var (c', rest) := Charged(s, c);
      if c'.None? || Top(c'.value) > MAX_STATES then None else Some((c'.value, rest))
  }

  /** Whether the loop rejects. */
  predicate Rejects(s: string, c: Costs)
    requires c.stack != []
    decreases |s|
  {
    s != "" && var r := Round(s, c); r.None? || Rejects(r.value.1, r.value.0)
  }

  predicate TooComplex(pattern: string) {
    |pattern| > MAX_LENGTH || Rejects(pattern, Costs([0], 0))
  }

  /** The stack is never empty, and every number stays at most 100001. */
  lemma {:induction false} RoundSafe(s: string, c: Costs)
    requires s != "" && Inv(c)
    ensures Round(s, c).Some? ==> Inv(Round(s, c).value.0)
  {
  }

  lemma ProductFits(top: nat, atom: nat, times: nat)
    requires top <= MAX_STATES && atom <= MAX_STATES + 1 && times <= MAX_STATES
    ensures top + atom * times < POW64
  {
    MulMonotone(atom, MAX_STATES + 1, times, MAX_STATES);
  }

  lemma MulMonotone(a: nat, a': nat, b: nat, b': nat)
    requires a <= a' && b <= b'
    ensures a * b <= a' * b'
  {
    assert a' * b' - a * b == (a' - a) * b' + a * (b' - b);
  }

  // ------------------------------------------------------------ the loop itself

  lemma {:induction false} FindShift(s: string, c: char, i: nat, j: nat)
    requires i <= j <= |s|
    ensures var f := Find(s[i..], c, j - i);
            Find(s, c, j) == if f.Some? then Some(f.value + i) else None
    decreases |s| - j
  {
    if j < |s| && s[j] != c {
      FindShift(s, c, i, j + 1);
    }
  }

  /** The inner loop over the comma-separated numbers between the braces. */
  method LargestBound(text: string) returns (r: Option<nat>)
    ensures r == Repeat(text)
  {
    var bounds, repeat: nat := text, 0;
    while bounds != ""
      invariant Repeat(text) == if Repeat(bounds).None? then None else Some(Max(repeat, Repeat(bounds).value))
      decreases |bounds|
    {
      hide FirstBound;
      var first := FirstBound(bounds);
      if first.None? {
        return None;
      }
      repeat := Max(repeat, first.value.0);
      bounds := first.value.1;
    }
    return Some(repeat);
  }

  lemma SkipOneAt(s: string, j: nat, c: char)
    requires j <= |s|
    ensures SkipOne(Drop(s, j), c) == Drop(s, if j < |s| && s[j] == c then j + 1 else j)
  {
  }

  lemma AfterItemsStep(s: string, j: nat)
    requires j < |s| && s[j] != ']'
    ensures AfterItems(Drop(s, j)) == AfterItems(Drop(s, j + if s[j] == '\\' then 2 else 1))
  {
    assert Drop(Drop(s, j), 2) == Drop(s, j + 2) && Drop(s, j)[1..] == Drop(s, j + 1);
  }

  lemma AfterItemsEnd(s: string, j: nat)
    requires j < |s| ==> s[j] == ']'
    ensures AfterItems(Drop(s, j)) == Drop(s, j + 1)
  {
  }

  /** Position of the first item of a class opened just before `i`. */
  function FirstItem(s: string, i: nat): (j: nat)
    requires i <= |s|
    ensures i <= j <= |s|
  {
    var j := if i < |s| && s[i] == '^' then i + 1 else i;
    if j < |s| && s[j] == ']' then j + 1 else j
  }

  lemma {:induction false} FirstItemAt(s: string, i: nat)
    requires i <= |s|
    ensures AfterClass(s[i..]) == AfterItems(Drop(s, FirstItem(s, i)))
  {
    SkipOneAt(s, i, '^');
    SkipOneAt(s, if i < |s| && s[i] == '^' then i + 1 else i, ']');
    assert Drop(s, i) == s[i..];
    hide AfterItems, SkipOne, Drop;
  }

  /** The inner loop over a class opened at `i`; stops at its closing bracket or behind the end. */
  method SkipClass(pattern: string, i: nat) returns (j: nat)
    requires i < |pattern|
    ensures i < j <= |pattern| + 1
    ensures Drop(pattern, j + 1) == AfterClass(pattern[i + 1..])
  {
    hide AfterItems, AfterClass, Drop;
    j := i + 1;
    if j < |pattern| && pattern[j] == '^' {
      j := j + 1;
    }
    if j < |pattern| && pattern[j] == ']' {
      j := j + 1;
    }
    FirstItemAt(pattern, i + 1);
    while j < |pattern| && pattern[j] != ']'
      invariant i < j <= |pattern| + 1
      invariant AfterItems(Drop(pattern, j)) == AfterClass(pattern[i + 1..])
    {
      AfterItemsStep(pattern, j);
      j := j + if pattern[j] == '\\' then 2 else 1;
    }
    AfterItemsEnd(pattern, j);
  }

  lemma DropTwice(s: string, i: nat)
    ensures Drop(Drop(s, i), 2) == Drop(s, i + 2)
  {
  }

  lemma DropOne(s: string, i: nat)
    requires i < |s|
    ensures Drop(s, i) == s[i..] && Drop(s, i)[0] == s[i] && Drop(s, i)[1..] == Drop(s, i + 1)
  {
  }

  /** What a round does at position `i` of the whole pattern. */
  lemma {:induction false} ChargedAt(s: string, i: nat, c: Costs)
    requires i < |s| && c.stack != []
    ensures var close := Find(s, '}', i);
            Charged(Drop(s, i), c) ==
            if s[i] == ')' && |c.stack| > 1 then (Some(Close(c)), Drop(s, i + 1))
            else if s[i] == '{' && close.Some? then (Repeated(c, Repeat(s[i + 1..close.value])), Drop(s, close.value + 1))
            else (Some(Charge(c, 1, 1)),
                  if s[i] == '[' then AfterClass(s[i + 1..]) else if s[i] == '\\' then Drop(s, i + 2) else Drop(s, i + 1))
  {
    hide Rejects, Round, Find, Repeat, AfterClass, Close, Repeated, Charge, Drop;
    DropOne(s, i);
    DropTwice(s, i);
    if s[i] == '{' {
      BraceAt(s, i);
    }
  }

  /** The new costs of each kind of round, spelled out, and that they fit 64 bits. */
  lemma Fits(c: Costs)
    requires Inv(c)
    ensures c.stack != []
    ensures var top := |c.stack| - 1; var atom := c.stack[top] + 1;
            && Charge(c, 1, 1) == Costs(c.stack[top := atom], 1)
            && c.stack[top] <= MAX_STATES && c.lastAtom <= MAX_STATES + 1
            && (top > 0 ==> Close(c) == Costs(c.stack[..top][top - 1 := c.stack[top - 1] + atom], atom)
                            && c.stack[top - 1] + atom < POW64)
  {
  }

  lemma RepeatedIs(c: Costs, repeat: nat)
    requires c.stack != []
    ensures var top, times := |c.stack| - 1, if repeat > 0 then repeat - 1 else 0;
            Repeated(c, Some(repeat)) == Some(Costs(c.stack[top := c.stack[top] + c.lastAtom * times], c.lastAtom))
    ensures Repeated(c, None) == None
  {
  }

  lemma BraceAt(s: string, i: nat)
    requires i < |s| && s[i] == '{'
    ensures var f, g := Find(Drop(s, i), '}', 0), Find(s, '}', i);
            && f.Some? == g.Some?
            && (g.Some? ==>
                  && i < g.value < |s| && f.value == g.value - i
                  && Drop(s, i)[1..f.value] == s[i + 1..g.value]
                  && Drop(s, i)[f.value + 1..] == Drop(s, g.value + 1))
  {
    FindShift(s, '}', i, i);
  }

  /**
   * The loop body on anything but an opening bracket. Every 64-bit number is in range, and the
   * stack that is popped and charged is never empty.
   */
  method ChargeRound(pattern: string, i: nat, cost: seq<nat>, lastAtom: nat)
    returns (ok: bool, cost': seq<nat>, lastAtom': nat, i': nat)
    requires i < |pattern| && Inv(Costs(cost, lastAtom))
    ensures i' > i
    ensures var (c', rest) := Charged(Drop(pattern, i), Costs(cost, lastAtom));
            if ok then c' == Some(Costs(cost', lastAtom')) && rest == Drop(pattern, i') else c' == None
  {
    hide *;
    cost', lastAtom', i' := cost, lastAtom, i;
    ghost var c := Costs(cost, lastAtom);
    Fits(c);
    ChargedAt(pattern, i, c);
    var ch, top := pattern[i], |cost| - 1;
    if ch == ')' && |cost| > 1 {
      lastAtom' := cost[top] + 1;
      cost' := cost[..top];
      assert cost'[top - 1] + lastAtom' < POW64;
      cost' := cost'[top - 1 := cost'[top - 1] + lastAtom'];
    } else if ch == '{' && Find(pattern, '}', i).Some? {
      var close := Find(pattern, '}', i).value;
      var repeat := LargestBound(pattern[i + 1..close]);
      RepeatedIs(c, if repeat.Some? then repeat.value else 0);
      if repeat.None? {
        return false, cost, lastAtom, i + 1;
      }
      var times := if repeat.value > 0 then repeat.value - 1 else 0;
      ProductFits(cost[top], lastAtom, times);
      assert cost[top] + lastAtom * times < POW64;
      cost' := cost[top := cost[top] + lastAtom * times];
      i' := close;
    } else if ch == '[' {
      i' := SkipClass(pattern, i);
      lastAtom' := 1;
      cost' := cost[top := cost[top] + 1];
    } else {
      if ch == '\\' {
        i' := i + 1;
      }
      lastAtom' := 1;
      cost' := cost[top := cost[top] + 1];
    }
    return true, cost', lastAtom', i' + 1;
  }

  method IsRegexTooComplex(pattern: string) returns (r: bool)
    ensures r == TooComplex(pattern)
  {
    if |pattern| > MAX_LENGTH {
      return true;
    }
    var cost: seq<nat>, lastAtom: nat, i := [0], 0, 0;
    assert Drop(pattern, 0) == pattern;
    hide Rejects, Charged, Drop, Inv, TooComplex;
    assert TooComplex(pattern) == Rejects(Drop(pattern, i), Costs(cost, lastAtom));
    while i < |pattern|
      invariant Inv(Costs(cost, lastAtom))
      invariant TooComplex(pattern) == Rejects(Drop(pattern, i), Costs(cost, lastAtom))
      decreases |pattern| - i
    {
      ghost var c, s := Costs(cost, lastAtom), Drop(pattern, i);
      RejectsRound(s, c);
      RoundSafe(s, c);
      DropOne(pattern, i);
      if pattern[i] == '(' {
        if |cost| > MAX_DEPTH {
          return true;
        }
        cost, lastAtom := cost + [0], 0;
        i := i + 1;
        continue;
      }
      var ok;
      ok, cost, lastAtom, i := ChargeRound(pattern, i, cost, lastAtom);
      if !ok || cost[|cost| - 1] > MAX_STATES {
        return true;
      }
    }
    return false;
  }

  // ---------------------------------------------------------- pattern trees

  datatype Item = Plain(c: char) | Escaped(c: char)

  datatype Atom =
    | Char(c: char)
    | Esc(c: char)
    | Class(negated: bool, leadingBracket: bool, items: seq<Item>)
    | Group(body: Re)

  datatype Bound = Exactly | AtLeast | UpTo(hi: nat)

  datatype Quant = Simple(op: char) | Bounds(lo: nat, bound: Bound)

  /** An atom may have any number of quantifiers; `?` behind another one also makes that one lazy. */
  datatype Re =
    | Empty
    | Cat(l: Re, r: Re)
    | Alt(l: Re, r: Re)
    | Rep(atom: Atom, quants: seq<Quant>)

  predicate ItemOk(i: Item) {
    i.Plain? ==> i.c != ']' && i.c != '\\'
  }

  predicate AtomOk(a: Atom) {
    match a
    case Char(c) => c !in "([{\\)*+?|"
    case Esc(_) => true
    case Class(negated, leading, items) =>
      // printed so that neither a circumflex nor a bracket is read as something else
      && (forall i :: i in items ==> ItemOk(i))
      && (!leading ==> items != [] && (!negated ==> items[0] != Plain('^')))
    case Group(body) => WellFormed(body)
  }

  predicate QuantsOk(qs: seq<Quant>) {
    forall q :: q in qs && q.Simple? ==> q.op in "*+?"
  }

  predicate WellFormed(t: Re) {
    match t
    case Empty => true
    case Cat(l, r) => WellFormed(l) && WellFormed(r)
    case Alt(l, r) => WellFormed(l) && WellFormed(r)
    case Rep(a, qs) => AtomOk(a) && QuantsOk(qs)
  }

  function PrintItems(items: seq<Item>): string {
    if items == [] then ""
    else (match items[0] case Plain(c) => [c] case Escaped(c) => ['\\', c]) + PrintItems(items[1..])
  }

  function PrintAtom(a: Atom): string {
    match a
    case Char(c) => [c]
    case Esc(c) => ['\\', c]
    case Class(negated, leading, items) =>
      "[" + (if negated then "^" else "") + (if leading then "]" else "") + PrintItems(items) + "]"
    case Group(body) => "(" + PrintRe(body) + ")"
  }

  function BoundsText(lo: nat, bound: Bound): string {
    Decimal.Print(lo) + (match bound
                         case Exactly => ""
                         case AtLeast => ","
                         case UpTo(hi) => "," + Decimal.Print(hi))
  }

  function PrintQuant(q: Quant): string {
    match q
    case Simple(op) => [op]
    case Bounds(lo, bound) => "{" + BoundsText(lo, bound) + "}"
  }

  function PrintQuants(qs: seq<Quant>): string {
    if qs == [] then "" else PrintQuants(qs[..|qs| - 1]) + PrintQuant(qs[|qs| - 1])
  }

  function PrintRe(t: Re): string {
    match t
    case Empty => ""
    case Cat(l, r) => PrintRe(l) + PrintRe(r)
    case Alt(l, r) => PrintRe(l) + "|" + PrintRe(r)
    case Rep(a, qs) => PrintAtom(a) + PrintQuants(qs)
  }

  function Depth(t: Re): nat {
    match t
    case Empty => 0
    case Cat(l, r) => Max(Depth(l), Depth(r))
    case Alt(l, r) => Max(Depth(l), Depth(r))
    case Rep(a, _) => AtomDepth(a)
  }

  function AtomDepth(a: Atom): nat {
    if a.Group? then 1 + Depth(a.body) else 0
  }

  // ------------------------------------ the reference: repetitions written out

  /** How often a bounded repetition's atom is written out. */
  function Times(q: Quant): (n: nat)
    ensures n >= 1
  {
    match q
    case Bounds(lo, UpTo(hi)) => Max(1, Max(lo, hi))
    case Bounds(lo, _) => Max(1, lo)
    case _ => 1
  }

  /** A pattern without bounded repetitions. */
  datatype Tree =
    | Nothing
    | Leaf
    | Both(l: Tree, r: Tree)
    | Either(l: Tree, r: Tree)
    | Nested(body: Tree)
    | Marked(body: Tree)  // with `*`, `+` or `?`

  function Copies(t: Tree, n: nat): Tree {
    if n == 0 then Nothing else Both(t, Copies(t, n - 1))
  }

  /** Every quantifier applies to all that stands before it. */
  function Quantified(t: Tree, qs: seq<Quant>): Tree {
    if qs == [] then t
    else
      var inner, q := Quantified(t, qs[..|qs| - 1]), qs[|qs| - 1];
      if q.Simple? then Marked(inner) else Copies(inner, Times(q))
  }

  function ExpandAtom(a: Atom): Tree {
    if a.Group? then Nested(Expand(a.body)) else Leaf
  }

  /** The pattern with every bounded repetition replaced by copies. */
  function Expand(t: Re): Tree {
    match t
    case Empty => Nothing
    case Cat(l, r) => Both(Expand(l), Expand(r))
    case Alt(l, r) => Either(Expand(l), Expand(r))
    case Rep(a, qs) => Quantified(ExpandAtom(a), qs)
  }

  /** One state per character, class, group, alternation bar and operator. */
  function States(t: Tree): nat {
    match t
    case Nothing => 0
    case Leaf => 1
    case Both(l, r) => States(l) + States(r)
    case Either(l, r) => States(l) + 1 + States(r)
    case Nested(body) => States(body) + 1
    case Marked(body) => States(body) + 1
  }

  /** `{n}` and `{n,}` are n copies, `{n,m}` the larger number of them, and never less than one; an operator is one state. */
  lemma QuantifierStates(q: Quant, t: Tree)
    ensures States(Quantified(t, [q])) ==
              match q
              case Simple(_) => States(t) + 1
              case Bounds(lo, UpTo(hi)) => (if lo > hi && lo > 1 then lo else if hi > 1 then hi else 1) * States(t)
              case Bounds(lo, _) => (if lo > 1 then lo else 1) * States(t)
    ensures PrintQuants([q]) ==
              match q
              case Simple(op) => [op]
              case Bounds(lo, Exactly) => "{" + Decimal.Print(lo) + "}"
              case Bounds(lo, AtLeast) => "{" + Decimal.Print(lo) + ",}"
              case Bounds(lo, UpTo(hi)) => "{" + Decimal.Print(lo) + "," + Decimal.Print(hi) + "}"
  {
    OneQuantifier(q, t);
    CopiesStates(t, Times(q));
    hide Copies, Decimal.Print, Quantified, PrintQuants;
    match q
    case Simple(_) =>
    case Bounds(lo, Exactly) => assert Decimal.Print(lo) + "" == Decimal.Print(lo);
    case Bounds(lo, AtLeast) =>
    case Bounds(lo, UpTo(hi)) =>
  }

  lemma OneQuantifier(q: Quant, t: Tree)
    ensures Quantified(t, [q]) == (if q.Simple? then Marked(t) else Copies(t, Times(q))) && PrintQuants([q]) == PrintQuant(q)
  {
    assert [q][..0] == [];
    hide Copies, Times, PrintQuant;
  }

  // ------------------------------------------------- what the scan charges

  /** The charge of an atom with quantifiers, and of the last atom then: bounds add copies of that one only. */
  function Charges(n: nat, qs: seq<Quant>): (r: (nat, nat)) {
    if qs == [] then (n, n)
    else
      var (total, last) := Charges(n, qs[..|qs| - 1]);
      var q := qs[|qs| - 1];
      if q.Simple? then (total + 1, 1) else (total + last * (Times(q) - 1), last)
  }

  function Cost(t: Re): nat {
    match t
    case Empty => 0
    case Cat(l, r) => Cost(l) + Cost(r)
    case Alt(l, r) => Cost(l) + 1 + Cost(r)
    case Rep(a, qs) => Charges(AtomCost(a), qs).0
  }

  function AtomCost(a: Atom): (n: nat)
    ensures n >= 1
  {
    if a.Group? then Cost(a.body) + 1 else 1
  }

  /** A bound that repeats stands behind another one that does, or behind an operator. */
  predicate Stacked(qs: seq<Quant>) {
    exists i, j :: 0 <= i < j < |qs| && Counts(qs[i]) && Repeats(qs[j])
  }

  predicate Repeats(q: Quant) {
    q.Bounds? && Times(q) > 1
  }

  predicate Counts(q: Quant) {
    q.Simple? || Times(q) > 1
  }

  predicate HasStacked(t: Re) {
    match t
    case Empty => false
    case Cat(l, r) => HasStacked(l) || HasStacked(r)
    case Alt(l, r) => HasStacked(l) || HasStacked(r)
    case Rep(a, qs) => (a.Group? && HasStacked(a.body)) || Stacked(qs)
  }

  lemma {:induction false} CopiesStates(t: Tree, n: nat)
    ensures States(Copies(t, n)) == n * States(t)
  {
    if n > 0 {
      CopiesStates(t, n - 1);
      assert n * States(t) == (n - 1) * States(t) + States(t);
    }
  }

  lemma {:induction false} ChargesOk(n: nat, qs: seq<Quant>)
    requires n >= 1
    ensures 1 <= Charges(n, qs).1 <= Charges(n, qs).0 && n <= Charges(n, qs).0
  {
    if qs != [] {
      ChargesOk(n, qs[..|qs| - 1]);
    }
  }

  /** A larger atom is charged more. */
  lemma {:induction false} ChargesGrow(n: nat, m: nat, qs: seq<Quant>)
    requires 1 <= n < m
    ensures Charges(n, qs).0 < Charges(m, qs).0 && Charges(n, qs).1 <= Charges(m, qs).1
  {
    if qs != [] {
      var front, q := qs[..|qs| - 1], qs[|qs| - 1];
      ChargesGrow(n, m, front);
      MulMonotone(Charges(n, front).1, Charges(m, front).1, Times(q) - 1, Times(q) - 1);
    }
  }

  lemma StackedAppend(front: seq<Quant>, q: Quant)
    ensures Stacked(front + [q]) <==> Stacked(front) || (Repeats(q) && exists i :: 0 <= i < |front| && Counts(front[i]))
  {
    var qs := front + [q];
    if Stacked(qs) {
      var i, j :| 0 <= i < j < |qs| && Counts(qs[i]) && Repeats(qs[j]);
      assert qs[i] == front[i] && (j < |front| ==> qs[j] == front[j]);
    }
    if Stacked(front) {
      var i, j :| 0 <= i < j < |front| && Counts(front[i]) && Repeats(front[j]);
      assert qs[i] == front[i] && qs[j] == front[j];
    }
    if i :| Repeats(q) && 0 <= i < |front| && Counts(front[i]) {
      assert qs[i] == front[i] && qs[|front|] == q;
    }
  }

  /** Against the written-out form: the charge, what the last atom is taken for, and when either falls short. */
  lemma {:induction false} QuantifiedStates(t: Tree, qs: seq<Quant>)
    requires States(t) >= 1
    ensures var (total, last) := Charges(States(t), qs); var size := States(Quantified(t, qs));
            && 1 <= last <= total <= size
            && (last < size <==> exists i :: 0 <= i < |qs| && Counts(qs[i]))
            && (total < size <==> Stacked(qs))
  {
    if qs != [] {
      var front, q := qs[..|qs| - 1], qs[|qs| - 1];
      QuantifiedStates(t, front);
      assert qs == front + [q];
      StackedAppend(front, q);
      var (total, last) := Charges(States(t), front);
      var size := States(Quantified(t, front));
      CopiesStates(Quantified(t, front), Times(q));
      QuantifiedStep(total, last, size, Times(q));
      assert (exists i :: 0 <= i < |qs| && Counts(qs[i])) <==> (exists i :: 0 <= i < |front| && Counts(front[i])) || Counts(q) by {
        assert forall i :: 0 <= i < |front| ==> qs[i] == front[i];
        assert qs[|front|] == q;
      }
      hide Quantified, Stacked, Times;
    }
  }

  lemma QuantifiedStep(total: nat, last: nat, size: nat, times: nat)
    requires 1 <= last <= total <= size && times >= 1
    ensures last <= total + last * (times - 1) <= times * size
    ensures total + last * (times - 1) < times * size <==> total < size || (last < size && times > 1)
    ensures last < times * size <==> last < size || times > 1
  {
    var d := times - 1;
    Zero(size - last, d);
    Zero(size, d);
    Sums(size, last, d);
  }

  lemma Zero(a: nat, b: nat)
    ensures a * b == 0 <==> a == 0 || b == 0
  {
  }

  lemma Sums(size: nat, last: nat, d: nat)
    requires last <= size
    ensures (d + 1) * size == size + size * d && size * d == last * d + (size - last) * d
  {
  }

  /**
   * The charge never exceeds the states written out, and falls short of them if and only if bounds
   * are stacked somewhere: `a{1000}{1000}` is charged 1999 of 1000000 states, and `(...)*{1000}`
   * 999 further ones, whatever the group costs.
   */
  lemma {:induction false} CostUndercounts(t: Re)
    ensures Cost(t) <= States(Expand(t))
    ensures Cost(t) < States(Expand(t)) <==> HasStacked(t)
  {
    match t
    case Empty =>
    case Cat(l, r) => CostUndercounts(l); CostUndercounts(r);
    case Alt(l, r) => CostUndercounts(l); CostUndercounts(r);
    case Rep(a, qs) =>
      if a.Group? {
        CostUndercounts(a.body);
      }
      var x := ExpandAtom(a);
      assert AtomCost(a) <= States(x) && (AtomCost(a) < States(x) <==> a.Group? && HasStacked(a.body));
      QuantifiedStates(x, qs);
      if AtomCost(a) < States(x) {
        ChargesGrow(AtomCost(a), States(x), qs);
      }
  }

  // --------------------------------------------- the scan follows the tree

  /** The scan passes text worth `size`: rejected if that is too much, else charged. */
  ghost predicate Passes(text: string, post: string, c: Costs, depth: nat, size: nat, last: nat)
    requires c.stack != []
  {
    Rejects(text + post, c)
    == (|c.stack| - 1 + depth > MAX_DEPTH || Top(c) + size > MAX_STATES || Rejects(post, Charge(c, size, last)))
  }

  lemma {:induction false} ItemsSkipped(items: seq<Item>, post: string)
    requires forall i :: i in items ==> ItemOk(i)
    ensures AfterItems(PrintItems(items) + "]" + post) == post
  {
    var s := PrintItems(items) + "]" + post;
    if items == [] {
      assert s == "]" + post;
    } else {
      ItemsSkipped(items[1..], post);
      var rest := PrintItems(items[1..]) + "]" + post;
      assert items[0] in items && ItemOk(items[0]);
      match items[0]
      case Plain(ch) => assert s == [ch] + rest; assert s[1..] == rest;
      case Escaped(ch) => assert s == ['\\', ch] + rest; assert Drop(s, 2) == rest;
    }
  }

  lemma ItemsStart(items: seq<Item>)
    requires items != []
    ensures PrintItems(items) != ""
    ensures PrintItems(items)[0] == match items[0] case Plain(c) => c case Escaped(_) => '\\'
  {
  }

  lemma {:induction false} ClassSkipped(negated: bool, leading: bool, items: seq<Item>, post: string)
    requires AtomOk(Class(negated, leading, items))
    ensures AfterClass((PrintAtom(Class(negated, leading, items)) + post)[1..]) == post
  {
    var body := PrintItems(items) + "]" + post;
    ItemsSkipped(items, post);
    var s1 := if leading then "]" + body else body;
    var s := if negated then "^" + s1 else s1;
    ClassStart(negated, leading, items, post);
    SkipOneOf(leading, ']', body);
    SkipOneOf(negated, '^', s1);
    ClassText(negated, leading, items, post);
    hide AfterItems, SkipOne, PrintItems, PrintAtom, AtomOk;
  }

  lemma {:induction false} ClassText(negated: bool, leading: bool, items: seq<Item>, post: string)
    ensures var body := PrintItems(items) + "]" + post;
            var s1 := if leading then "]" + body else body;
            (PrintAtom(Class(negated, leading, items)) + post)[1..] == if negated then "^" + s1 else s1
  {
    hide PrintItems;
  }

  lemma SkipOneOf(present: bool, c: char, s: string)
    requires present || s == "" || s[0] != c
    ensures SkipOne(if present then [c] + s else s, c) == s
  {
  }

  lemma {:induction false} ClassStart(negated: bool, leading: bool, items: seq<Item>, post: string)
    requires AtomOk(Class(negated, leading, items))
    ensures var body := PrintItems(items) + "]" + post;
            !leading ==> body[0] != ']' && (!negated ==> body[0] != '^')
  {
    if items != [] {
      ItemsStart(items);
      assert items[0] in items && ItemOk(items[0]);
    }
    hide PrintItems;
  }

  lemma {:induction false} SimpleAtomPasses(a: Atom, post: string, c: Costs)
    requires c.stack != [] && |c.stack| - 1 <= MAX_DEPTH && AtomOk(a) && !a.Group?
    ensures Passes(PrintAtom(a), post, c, 0, 1, 1)
  {
    var s := PrintAtom(a) + post;
    match a
    case Char(ch) => assert s[1..] == post;
    case Esc(ch) => assert Drop(s, 2) == post;
    case Class(negated, leading, items) => ClassSkipped(negated, leading, items, post);
  }

  lemma FindIs(s: string, c: char, i: nat, n: nat)
    requires i <= n < |s| && s[n] == c && forall j :: i <= j < n ==> s[j] != c
    ensures Find(s, c, i) == Some(n)
  {
  }

  /** The first number of a list, and the rest behind its comma. */
  lemma {:induction false} RepeatNumber(n: nat, rest: string)
    requires rest == "" || rest[0] == ','
    ensures var s := Decimal.Print(n) + rest; var tail := Repeat(if rest == "" then "" else rest[1..]);
            Repeat(s) == if n > MAX_STATES || tail.None? then None else Some(Max(n, tail.value))
  {
    var low := Decimal.Print(n);
    var s := low + rest;
    Decimal.ReadPrinted(n, POW64);
    if rest == "" {
      assert s == low;
      assert Repeat("") == Some(0);
    } else {
      FindIs(s, ',', 0, |low|);
      assert s[..|low|] == low && s[|low| + 1..] == rest[1..];
    }
  }

  /** The numbers of a printed bound are read back; one above the limit refuses the pattern. */
  lemma {:induction false} BoundsRead(lo: nat, bound: Bound)
    ensures var hi := if bound.UpTo? then bound.hi else 0;
            Repeat(BoundsText(lo, bound)) == if lo > MAX_STATES || hi > MAX_STATES then None else Some(Max(lo, hi))
    ensures '}' !in BoundsText(lo, bound)
  {
    assert Repeat("") == Some(0);
    match bound
    case Exactly => RepeatNumber(lo, "");
    case AtLeast => RepeatNumber(lo, ",");
    case UpTo(hi) =>
      var high := Decimal.Print(hi);
      RepeatNumber(hi, "");
      assert high + "" == high;
      RepeatNumber(lo, "," + high);
      assert ("," + high)[1..] == high;
  }

  /** What a quantifier adds to the cost of its atom. */
  function Extra(atom: nat, q: Quant): nat {
    if q.Simple? then 1 else atom * (Times(q) - 1)
  }

  /** One round of the scan on a printed bound. */
  lemma {:induction false} BoundsRound(lo: nat, bound: Bound, post: string, c: Costs)
    requires c.stack != []
    ensures var q := Bounds(lo, bound); var s := PrintQuant(q) + post; var repeat := Repeat(BoundsText(lo, bound));
            && s != ""
            && var c' := Charge(c, Extra(c.lastAtom, q), c.lastAtom);
               Round(s, c) == if repeat.None? || Top(c') > MAX_STATES then None else Some((c', post))
  {
    hide *;
    var text, q := BoundsText(lo, bound), Bounds(lo, bound);
    BoundsTimes(lo, bound, c.lastAtom);
    var s := PrintQuant(q) + post;
    BraceCharged(s, text, post, c);
    BraceRound(s, post, c, Repeat(text), Times(q) - 1, Extra(c.lastAtom, q));
  }

  lemma {:induction false} BraceCharged(s: string, text: string, post: string, c: Costs)
    requires s == "{" + text + "}" + post && '}' !in text && c.stack != []
    ensures s != "" && s[0] == '{' && Charged(s, c) == (Repeated(c, Repeat(text)), post)
  {
    hide Find, Repeat, AfterClass, Close, Repeated, Charge, Drop;
    BraceText(text, post);
  }

  lemma BraceRound(s: string, post: string, c: Costs, repeat: Option<nat>, times: nat, extra: nat)
    requires c.stack != [] && s != "" && s[0] == '{' && Charged(s, c) == (Repeated(c, repeat), post)
    requires repeat.Some? ==> times == if repeat.value > 0 then repeat.value - 1 else 0
    requires extra == c.lastAtom * times
    ensures var c' := Charge(c, extra, c.lastAtom);
            Round(s, c) == if repeat.None? || Top(c') > MAX_STATES then None else Some((c', post))
  {
    hide Charged, Charge, Top;
  }

  lemma {:induction false} BoundsTimes(lo: nat, bound: Bound, atom: nat)
    ensures var text, q := BoundsText(lo, bound), Bounds(lo, bound);
            && PrintQuant(q) == "{" + text + "}" && '}' !in text && Extra(atom, q) == atom * (Times(q) - 1)
            && (Repeat(text).Some? ==> Times(q) - 1 == if Repeat(text).value > 0 then Repeat(text).value - 1 else 0)
  {
    BoundsRead(lo, bound);
    hide BoundsText, Repeat;
  }

  lemma BraceText(text: string, post: string)
    requires '}' !in text
    ensures var s := "{" + text + "}" + post;
            Find(s, '}', 0) == Some(|text| + 1) && s[1..|text| + 1] == text && s[|text| + 2..] == post
  {
    var s := "{" + text + "}" + post;
    assert s[1..|text| + 1] == text && s[|text| + 2..] == post;
    assert forall j :: 1 <= j < |text| + 1 ==> s[j] == text[j - 1];
    FindIs(s, '}', 0, |text| + 1);
  }

  lemma BoundsPasses(lo: nat, bound: Bound, post: string, c: Costs)
    requires c.stack != [] && |c.stack| - 1 <= MAX_DEPTH && 1 <= c.lastAtom <= Top(c) <= MAX_STATES
    ensures var q := Bounds(lo, bound); Passes(PrintQuant(q), post, c, 0, Extra(c.lastAtom, q), c.lastAtom)
  {
    hide Round, Repeat, PrintQuant, BoundsText, Rejects, Charge, Top;
    var q := Bounds(lo, bound);
    BoundsRound(lo, bound, post, c);
    BoundsRead(lo, bound);
    MulAtLeastOne(c.lastAtom, Times(q) - 1);
    ChargeTwice(c, Extra(c.lastAtom, q), 0, c.lastAtom, c.lastAtom);
    RejectsRound(PrintQuant(q) + post, c);
  }

  lemma RejectsRound(s: string, c: Costs)
    requires s != "" && c.stack != []
    ensures var r := Round(s, c); Rejects(s, c) == (r.None? || Rejects(r.value.1, r.value.0))
  {
  }

  lemma {:induction false} QuantPasses(q: Quant, post: string, c: Costs)
    requires c.stack != [] && |c.stack| - 1 <= MAX_DEPTH && 1 <= c.lastAtom <= Top(c) <= MAX_STATES
    requires q.Simple? ==> q.op in "*+?"
    ensures Passes(PrintQuant(q), post, c, 0, Extra(c.lastAtom, q), if q.Simple? then 1 else c.lastAtom)
  {
    match q
    case Simple(op) =>
      assert (PrintQuant(q) + post)[1..] == post;
    case Bounds(lo, bound) =>
      hide Round, Repeat, PrintQuant, Rejects, Passes;
      BoundsPasses(lo, bound, post, c);
  }

  lemma MulAtLeastOne(a: nat, n: nat)
    requires a >= 1
    ensures a * n >= n
  {
    assert a * n == (a - 1) * n + n;
  }

  lemma ChargeTwice(c: Costs, x: nat, y: nat, l: nat, m: nat)
    requires c.stack != []
    ensures Charge(Charge(c, x, l), y, m) == Charge(c, x + y, m)
    ensures Top(Charge(c, x, l)) == Top(c) + x && |Charge(c, x, l).stack| == |c.stack|
    ensures Charge(c, x, l).lastAtom == l
  {
  }

  /** Two pieces of text that pass one after the other pass together. */
  lemma {:induction false} PassesBoth(a: string, b: string, post: string, c: Costs, d1: nat, x: nat, l: nat, d2: nat, y: nat, m: nat)
    requires c.stack != [] && Passes(a, b + post, c, d1, x, l)
    requires Top(c) + x <= MAX_STATES && |c.stack| - 1 + d1 <= MAX_DEPTH ==> Passes(b, post, Charge(c, x, l), d2, y, m)
    ensures Passes(a + b, post, c, Max(d1, d2), x + y, m)
  {
    assert a + b + post == a + (b + post);
    ChargeTwice(c, x, y, l, m);
  }

  /** The cost of the last atom after a tree. */
  function LastAfter(t: Re, last: nat): nat {
    match t
    case Empty => last
    case Cat(l, r) => LastAfter(r, LastAfter(l, last))
    case Alt(_, r) => LastAfter(r, 1)
    case Rep(a, qs) => Charges(AtomCost(a), qs).1
  }

  /** An opening and a closing bracket around text that passes. */
  lemma {:induction false} GroupPasses(text: string, post: string, c: Costs, depth: nat, size: nat, last: nat)
    requires c.stack != [] && |c.stack| - 1 <= MAX_DEPTH && Top(c) <= MAX_STATES
    requires |c.stack| <= MAX_DEPTH ==> Passes(text, ")" + post, Costs(c.stack + [0], 0), depth, size, last)
    ensures Passes("(" + text + ")", post, c, 1 + depth, size + 1, size + 1)
  {
    var inner := Costs(c.stack + [0], 0);
    assert "(" + text + ")" + post == "(" + (text + (")" + post));
    OpenRound(text + (")" + post), c);
    CloseRound(post, c, size, last);
    hide Round, Charge, Top;
    ChargeTwice(inner, size, 0, last, last);
    ChargeTwice(c, size + 1, 0, size + 1, size + 1);
    RejectsRound("(" + (text + (")" + post)), c);
    RejectsRound(")" + post, Charge(inner, size, last));
  }

  lemma OpenRound(rest: string, c: Costs)
    requires c.stack != []
    ensures Round("(" + rest, c) == if |c.stack| > MAX_DEPTH then None else Some((Costs(c.stack + [0], 0), rest))
  {
    assert ("(" + rest)[1..] == rest;
  }

  lemma CloseRound(post: string, c: Costs, size: nat, last: nat)
    requires c.stack != []
    ensures Round(")" + post, Charge(Costs(c.stack + [0], 0), size, last))
         == if Top(c) + size + 1 > MAX_STATES then None else Some((Charge(c, size + 1, size + 1), post))
  {
    var closed := Charge(Costs(c.stack + [0], 0), size, last);
    assert (")" + post)[1..] == post;
    assert closed.stack[..|closed.stack| - 1] == c.stack;
  }

  lemma {:induction false} AtomPasses(a: Atom, post: string, c: Costs)
    requires c.stack != [] && |c.stack| - 1 <= MAX_DEPTH && Top(c) <= MAX_STATES && AtomOk(a)
    ensures Passes(PrintAtom(a), post, c, AtomDepth(a), AtomCost(a), AtomCost(a))
    decreases a, 0
  {
    hide Passes, Rejects, PrintRe, PrintItems, Depth, Cost;
    if a.Group? {
      if |c.stack| <= MAX_DEPTH {
        RePasses(a.body, ")" + post, Costs(c.stack + [0], 0));
      }
      GroupPasses(PrintRe(a.body), post, c, Depth(a.body), Cost(a.body), LastAfter(a.body, 0));
    } else {
      SimpleAtomPasses(a, post, c);
    }
  }

  /** An atom with any number of quantifiers. */
  lemma {:induction false} RepPasses(a: Atom, qs: seq<Quant>, post: string, c: Costs)
    requires c.stack != [] && |c.stack| - 1 <= MAX_DEPTH && Top(c) <= MAX_STATES && AtomOk(a) && QuantsOk(qs)
    ensures var (total, last) := Charges(AtomCost(a), qs);
            Passes(PrintAtom(a) + PrintQuants(qs), post, c, AtomDepth(a), total, last)
    decreases a, 1 + |qs|
  {
    hide Passes, Rejects, PrintAtom, PrintQuant, AtomOk, AtomCost, AtomDepth, Charge, Top, Times;
    if qs == [] {
      AtomPasses(a, post, c);
      assert PrintAtom(a) + PrintQuants(qs) == PrintAtom(a);
    } else {
      var front, q := qs[..|qs| - 1], qs[|qs| - 1];
      var (total, last) := Charges(AtomCost(a), front);
      RepPasses(a, front, PrintQuant(q) + post, c);
      ChargesOk(AtomCost(a), front);
      RepStep(PrintAtom(a) + PrintQuants(front), q, post, c, AtomDepth(a), total, last);
      assert PrintAtom(a) + PrintQuants(front) + PrintQuant(q) == PrintAtom(a) + PrintQuants(qs);
    }
  }

  lemma RepStep(text: string, q: Quant, post: string, c: Costs, depth: nat, total: nat, last: nat)
    requires c.stack != [] && |c.stack| - 1 <= MAX_DEPTH && Top(c) <= MAX_STATES && 1 <= last <= total
    requires q.Simple? ==> q.op in "*+?"
    requires Passes(text, PrintQuant(q) + post, c, depth, total, last)
    ensures Passes(text + PrintQuant(q), post, c, depth, total + Extra(last, q), if q.Simple? then 1 else last)
  {
    hide Passes, Rejects, PrintQuant, Charge, Top, Extra;
    ChargeTwice(c, total, 0, last, last);
    if Top(c) + total <= MAX_STATES {
      QuantPasses(q, post, Charge(c, total, last));
    }
    PassesBoth(text, PrintQuant(q), post, c, depth, total, last, 0, Extra(last, q), if q.Simple? then 1 else last);
  }

  lemma {:induction false} RePasses(t: Re, post: string, c: Costs)
    requires c.stack != [] && |c.stack| - 1 <= MAX_DEPTH && Top(c) <= MAX_STATES && WellFormed(t)
    ensures Passes(PrintRe(t), post, c, Depth(t), Cost(t), LastAfter(t, c.lastAtom))
    decreases t
  {
    hide Rejects, PrintAtom, PrintQuant;
    match t
    case Empty =>
      assert "" + post == post;
      assert Charge(c, 0, c.lastAtom) == c;
    case Cat(l, r) =>
      CatPasses(l, r, post, c);
    case Alt(l, r) =>
      AltPasses(l, r, post, c);
    case Rep(a, qs) =>
      RepPasses(a, qs, post, c);
  }

  lemma {:induction false} CatPasses(l: Re, r: Re, post: string, c: Costs)
    requires c.stack != [] && |c.stack| - 1 <= MAX_DEPTH && Top(c) <= MAX_STATES && WellFormed(l) && WellFormed(r)
    ensures Passes(PrintRe(l) + PrintRe(r), post, c, Max(Depth(l), Depth(r)), Cost(l) + Cost(r),
                   LastAfter(r, LastAfter(l, c.lastAtom)))
    decreases Cat(l, r), 0
  {
    hide Passes, Rejects, PrintRe, WellFormed, Depth, Cost, LastAfter, Charge, Top;
    RePasses(l, PrintRe(r) + post, c);
    var last := LastAfter(l, c.lastAtom);
    ChargeTwice(c, Cost(l), 0, last, last);
    if Top(c) + Cost(l) <= MAX_STATES {
      RePasses(r, post, Charge(c, Cost(l), last));
    }
    PassesBoth(PrintRe(l), PrintRe(r), post, c, Depth(l), Cost(l), last, Depth(r), Cost(r), LastAfter(r, last));
  }

  lemma {:induction false} AltPasses(l: Re, r: Re, post: string, c: Costs)
    requires c.stack != [] && |c.stack| - 1 <= MAX_DEPTH && Top(c) <= MAX_STATES && WellFormed(l) && WellFormed(r)
    ensures Passes(PrintRe(l) + "|" + PrintRe(r), post, c, Max(Depth(l), Depth(r)), Cost(l) + 1 + Cost(r),
                   LastAfter(r, 1))
    decreases Alt(l, r), 0
  {
    hide Passes, Rejects, PrintRe, WellFormed, Depth, Cost, LastAfter, Charge, Top;
    RePasses(l, "|" + (PrintRe(r) + post), c);
    var last := LastAfter(l, c.lastAtom);
    ChargeTwice(c, Cost(l), 0, last, last);
    ChargeTwice(c, Cost(l) + 1, 0, 1, 1);
    if Top(c) + Cost(l) <= MAX_STATES {
      BarPasses(PrintRe(r) + post, Charge(c, Cost(l), last));
    }
    PassesBoth(PrintRe(l), "|", PrintRe(r) + post, c, Depth(l), Cost(l), last, 0, 1, 1);
    if Top(c) + Cost(l) + 1 <= MAX_STATES {
      RePasses(r, post, Charge(c, Cost(l) + 1, 1));
    }
    PassesBoth(PrintRe(l) + "|", PrintRe(r), post, c, Depth(l), Cost(l) + 1, 1, Depth(r), Cost(r), LastAfter(r, 1));
  }

  lemma BarPasses(post: string, c: Costs)
    requires c.stack != [] && |c.stack| - 1 <= MAX_DEPTH && Top(c) <= MAX_STATES
    ensures Passes("|", post, c, 0, 1, 1)
  {
    assert ("|" + post)[1..] == post;
  }

  /**
   * A pattern is refused if and only if it is too long, nested too deep, or charged more than
   * 100000. Unless bounds are stacked, that is if and only if it has more than 100000 states once
   * its bounded repetitions are written out.
   */
  lemma RegexCostExact(t: Re)
    requires WellFormed(t)
    ensures TooComplex(PrintRe(t))
       <==> |PrintRe(t)| > 1024 || Depth(t) > 32 || Cost(t) > 100000
    ensures !HasStacked(t) ==>
              (TooComplex(PrintRe(t)) <==> |PrintRe(t)| > 1024 || Depth(t) > 32 || States(Expand(t)) > 100000)
  {
    RePasses(t, "", Costs([0], 0));
    CostUndercounts(t);
    assert PrintRe(t) + "" == PrintRe(t);
  }

  // --------------------------------------------------------- malformed patterns

  /** A closing bracket outside all groups, and an opening brace that is never closed, count as characters. */
  lemma StrayPasses(post: string, c: Costs)
    requires c.stack != [] && |c.stack| - 1 <= MAX_DEPTH && Top(c) <= MAX_STATES
    ensures |c.stack| == 1 ==> Passes(")", post, c, 0, 1, 1)
    ensures '}' !in post ==> Passes("{", post, c, 0, 1, 1)
  {
    assert (")" + post)[1..] == post && ("{" + post)[1..] == post;
    assert '}' !in post ==> Find("{" + post, '}', 0) == None;
    hide Find;
  }

  /** A class that is never closed swallows the rest; so does a backslash at the end. */
  lemma {:induction false} UnclosedPasses(text: string, c: Costs)
    requires c.stack != [] && |c.stack| - 1 <= MAX_DEPTH && Top(c) <= MAX_STATES && ']' !in text
    ensures Rejects("[" + text, c) <==> Top(c) + 1 > 100000
    ensures Rejects("\\", c) <==> Top(c) + 1 > 100000
  {
    assert ("[" + text)[1..] == text;
    NeverClosed(SkipOne(SkipOne(text, '^'), ']'));
    hide AfterItems;
  }

  lemma {:induction false} NeverClosed(s: string)
    requires ']' !in s
    ensures AfterItems(s) == ""
    decreases |s|
  {
    if s != "" {
      NeverClosed(Drop(s, 2));
      NeverClosed(s[1..]);
    }
  }

  /**
   * The numbers between braces, one after the other: an empty one counts 0, digits at the front
   * count, whatever follows them; no digits, or more than 100000, and the pattern is refused.
   */
  lemma RepeatExactly(part: string, rest: string)
    requires ',' !in part && (rest == "" || rest[0] == ',')
    ensures Repeat("") == Some(0)
    ensures var digits := Decimal.DigitPrefix(part); var tail := Repeat(if rest == "" then "" else rest[1..]);
            Repeat(part + rest) ==
              if part + rest == "" then Some(0)
              else if part != "" && (digits == "" || Decimal.ValueOf(digits) > 100000) then None
              else if tail.None? then None
              else Some(Max(if part == "" then 0 else Decimal.ValueOf(digits), tail.value))
  {
    if part + rest != "" {
      FirstBoundIs(part, rest);
    }
    hide FirstBound, Find, Decimal.DigitPrefix, Decimal.ValueOf;
  }

  lemma FirstBoundIs(part: string, rest: string)
    requires ',' !in part && (rest == "" || rest[0] == ',') && part + rest != ""
    ensures var digits := Decimal.DigitPrefix(part);
            FirstBound(part + rest) ==
              if part != "" && (digits == "" || Decimal.ValueOf(digits) > 100000) then None
              else Some((if part == "" then 0 else Decimal.ValueOf(digits), if rest == "" then "" else rest[1..]))
  {
    var s := part + rest;
    if rest != "" {
      FindIs(s, ',', 0, |part|);
      assert s[..|part|] == part && s[|part| + 1..] == rest[1..];
    } else {
      assert s == part;
      NoComma(s, 0);
    }
    hide Find, Decimal.DigitPrefix, Decimal.ValueOf;
  }

  lemma {:induction false} NoComma(s: string, i: nat)
    requires ',' !in s
    ensures Find(s, ',', i) == None
    decreases |s| - i
  {
    if i < |s| {
      NoComma(s, i + 1);
    }
  }
}
