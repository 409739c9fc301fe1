/** The recursive-descent evaluator: what it computes, and the parser over a moving cursor. */
module Evaluator {
  import opened Grammar

  /** A value, the cursor behind it, and the sticky success flag. */
  datatype Res = Res(v: int, pos: nat, ok: bool)

  const NUL: char := '\0'

  function At(s: string, i: nat): (c: char) { if i < |s| then s[i] else NUL }

  function Skip(s: string, i: nat): (j: nat)
    requires i <= |s|
    ensures i <= j <= |s| && !IsSpace(At(s, j)) && AllSpace(s[i..j])
    decreases |s| - i
  {
    if i < |s| && IsSpace(s[i]) then Skip(s, i + 1) else i
  }

  function NumLoop(s: string, i: nat, v: nat): (r: (nat, nat))
    requires i <= |s|
    ensures i <= r.1 <= |s| && !IsDigit(At(s, r.1)) && AllDigits(s[i..r.1])
    decreases |s| - i
  {
    if IsDigit(At(s, i)) then NumLoop(s, i + 1, v * 10 + (s[i] - '0') as nat) else (v, i)
  }

  function ParseNum(s: string, i: nat, ok: bool): (r: Res)
    requires i <= |s|
    ensures i <= r.pos <= |s| && (!ok ==> !r.ok)
  {
    var j := Skip(s, i);
    var n := NumLoop(s, j, 0);
    Res(n.0, n.1, ok && n.1 > j)
  }

  function ParseFactor(s: string, i: nat, ok: bool): (r: Res)
    requires i <= |s|
    ensures i <= r.pos <= |s| && (!ok ==> !r.ok)
    decreases |s| - i, 1
  {
    var j := Skip(s, i);
    if At(s, j) == '(' then
      var r := ParseSum(s, j + 1, ok);
      var k := Skip(s, r.pos);
      if At(s, k) != ')' then Res(r.v, k, false) else Res(r.v, k + 1, r.ok)
    else if At(s, j) == '-' then
      var r := ParseFactor(s, j + 1, ok);
      Res(-r.v, r.pos, r.ok)
    else
      ParseNum(s, j, ok)
  }

  function ProductLoop(s: string, i: nat, v: int, ok: bool): (r: Res)
    requires i <= |s|
    ensures i <= r.pos <= |s| && (!ok ==> !r.ok)
    decreases |s| - i, 2
  {
    var j := Skip(s, i);
    var op := At(s, j);
    if !IsMulOp(op) then Res(v, j, ok)
    else
      var r := ParseFactor(s, j + 1, ok);
      if !r.ok then Res(0, r.pos, false)
      else if op == '*' then ProductLoop(s, r.pos, v * r.v, true)
      else if r.v == 0 then ProductLoop(s, r.pos, v, false)
      else if op == '/' then ProductLoop(s, r.pos, Quot(v, r.v), true)
      else ProductLoop(s, r.pos, Rem(v, r.v), true)
  }

  function ParseProduct(s: string, i: nat, ok: bool): (r: Res)
    requires i <= |s|
    ensures i <= r.pos <= |s| && (!ok ==> !r.ok)
    decreases |s| - i, 3
  {
    var r := ParseFactor(s, i, ok);
    ProductLoop(s, r.pos, r.v, r.ok)
  }

  function SumLoop(s: string, i: nat, v: int, ok: bool): (r: Res)
    requires i <= |s|
    ensures i <= r.pos <= |s| && (!ok ==> !r.ok)
    decreases |s| - i, 4
  {
    var j := Skip(s, i);
    var op := At(s, j);
    if !IsAddOp(op) then Res(v, j, ok)
    else
      var r := ParseProduct(s, j + 1, ok);
      if !r.ok then Res(0, r.pos, false)
      else SumLoop(s, r.pos, if op == '+' then v + r.v else v - r.v, true)
  }

  function ParseSum(s: string, i: nat, ok: bool): (r: Res)
    requires i <= |s|
    ensures i <= r.pos <= |s| && (!ok ==> !r.ok)
    decreases |s| - i, 5
  {
    var r := ParseProduct(s, i, ok);
    SumLoop(s, r.pos, r.v, r.ok)
  }

  function Evaluate(s: string): (r: Res) {
    var r := ParseSum(s, 0, true);
    var k := Skip(s, r.pos);
    Res(r.v, k, r.ok && k == |s|)
  }

  // ----- completeness: the parser runs through every text of the grammar

  /** `t` stands in `s` at `i`. */
  predicate Seg(s: string, i: nat, t: string) { i + |t| <= |s| && s[i..i + |t|] == t }

  lemma {:induction false} SegSplit(s: string, i: nat, a: string, b: string)
    requires Seg(s, i, a + b)
    ensures Seg(s, i, a) && Seg(s, i + |a|, b)
  {
    assert s[i..i + |a|] == s[i..i + |a + b|][..|a|];
    assert s[i + |a|..i + |a| + |b|] == s[i..i + |a + b|][|a|..];
  }

  lemma {:induction false} SegChar(s: string, i: nat, c: char)
    requires Seg(s, i, [c])
    ensures At(s, i) == c && i < |s|
  {
    assert s[i] == s[i..i + 1][0];
  }

  lemma {:induction false} SkipOver(s: string, i: nat, ws: string)
    requires Seg(s, i, ws) && AllSpace(ws) && !IsSpace(At(s, i + |ws|))
    ensures Skip(s, i) == i + |ws|
    decreases |ws|
  {
    if ws != [] {
      SegSplit(s, i, ws[..1], ws[1..]) by { assert ws == ws[..1] + ws[1..]; }
      assert s[i] == s[i..i + |ws|][0] == ws[0];
      SkipOver(s, i + 1, ws[1..]);
    }
  }

  lemma {:induction false} NumOver(s: string, i: nat, d: string, v: nat)
    requires Seg(s, i, d) && AllDigits(d) && !IsDigit(At(s, i + |d|))
    ensures NumLoop(s, i, v) == (v * Pow10(|d|) + DigitsValue(d), i + |d|)
    decreases |d|
  {
    hide Pow10, DigitsValue;
    if d == [] {
      NoDigits(v);
      assert d == "";
    } else {
      var c, rest := d[..1], d[1..];
      assert d == c + rest;
      SegSplit(s, i, c, rest);
      assert s[i] == d[0] by { SegChar(s, i, d[0]); }
      var k := (d[0] - '0') as nat;
      NumOver(s, i + 1, rest, v * 10 + k);
      FirstDigit(d);
      ShiftDigit(v, k, |rest|);
    }
  }

  lemma {:induction false} NoDigits(v: nat)
    ensures v * Pow10(0) + DigitsValue("") == v
  {
  }

  lemma {:induction false} ShiftDigit(v: nat, k: nat, n: nat)
    ensures (v * 10 + k) * Pow10(n) == v * Pow10(n + 1) + k * Pow10(n)
  {
    var p := Pow10(n);
    assert Pow10(n + 1) == 10 * p;
    assert (v * 10 + k) * p == v * (10 * p) + k * p;
  }

  function Pow10(n: nat): (p: nat)
    ensures p > 0
  {
    if n == 0 then 1 else 10 * Pow10(n - 1)
  }

  lemma {:induction false} FirstDigit(d: string)
    requires AllDigits(d) && d != []
    ensures DigitsValue(d) == (d[0] - '0') as nat * Pow10(|d| - 1) + DigitsValue(d[1..])
    decreases |d|
  {
    if |d| == 1 {
      assert d[..0] == [] && d[1..] == [];
    } else {
      hide Pow10, DigitsValue;
      var m, c := d[1..|d| - 1], d[|d| - 1];
      assert d == d[..|d| - 1] + [c] && d[1..] == m + [c] && d[..|d| - 1][1..] == m;
      DigitsLast(d[..|d| - 1], c);
      DigitsLast(m, c);
      FirstDigit(d[..|d| - 1]);
      TenTimes((d[0] - '0') as nat, |m|);
    }
  }

  lemma {:induction false} TenTimes(k: nat, n: nat)
    ensures k * Pow10(n + 1) == 10 * (k * Pow10(n))
  {
    assert Pow10(n + 1) == 10 * Pow10(n);
  }

  lemma {:induction false} DigitsLast(d: string, c: char)
    requires AllDigits(d) && IsDigit(c)
    ensures AllDigits(d + [c]) && DigitsValue(d + [c]) == 10 * DigitsValue(d) + (c - '0') as nat
  {
    assert (d + [c])[..|d|] == d;
  }

  lemma {:induction false} Regroup(a: string, b: string, c: string, d: string)
    ensures a + b + c + d == a + (b + (c + d)) && a + (b + c + d) == a + b + c + d
            && a + (b + (c + d)) == a + b + (c + d)
  {
  }

  /** What stands in `s` where an operand, spaces, an operator and an operand do. */
  lemma {:induction false} OperatorAt(s: string, i: nat, a: string, ws: string, op: char, b: string)
    requires Seg(s, i, a + ws + [op] + b) && AllSpace(ws) && !IsSpace(op) && !IsDigit(op)
    ensures Seg(s, i, a) && !IsDigit(At(s, i + |a|))
    ensures var j := i + |a| + |ws|;
            Skip(s, i + |a|) == j && Skip(s, j) == j && At(s, j) == op && Seg(s, j + 1, b) && j + 1 + |b| <= |s|
  {
    hide Skip, IsSpace, IsDigit, AllSpace, At, Seg;
    Regroup(a, ws, [op], b);
    SegSplit(s, i, a, ws + ([op] + b));
    var k := i + |a|;
    SegSplit(s, k, ws, [op] + b);
    SegSplit(s, k + |ws|, [op], b);
    SegChar(s, k + |ws|, op);
    SkipOver(s, k, ws);
    SkipOver(s, k + |ws|, "");
    AfterSpace(s, k, ws, op);
  }

  /** What follows an operand is a space or the next token, never a digit. */
  lemma {:induction false} AfterSpace(s: string, k: nat, ws: string, c: char)
    requires AllSpace(ws) && Seg(s, k, ws) && At(s, k + |ws|) == c && !IsDigit(c)
    ensures !IsDigit(At(s, k))
  {
    if ws != [] {
      assert s[k] == s[k..k + |ws|][0];
    }
  }

  /** `r` is what reading a text of value `x` that ends at `k` gives. */
  predicate Reads(r: Res, x: Value, k: nat) {
    if x.Undefined? then !r.ok else r == Res(x.v, k, true)
  }

  lemma {:induction false} NumRuns(s: string, i: nat, ws: string, d: string)
    requires AllSpace(ws) && d != [] && AllDigits(d) && Seg(s, i, ws + d) && !IsDigit(At(s, i + |ws + d|))
    ensures ParseFactor(s, i, true) == Res(DigitsValue(d), i + |ws + d|, true)
  {
    hide ParseSum, Skip, NumLoop, DigitsValue, Pow10;
    SegSplit(s, i, ws, d);
    var j := i + |ws|;
    assert s[j] == s[j..j + |d|][0] == d[0];
    SkipOver(s, i, ws);
    SkipOver(s, j, "");
    NumOver(s, j, d, 0);
  }

  lemma {:induction false} FactorRuns(s: string, i: nat, f: Factor)
    requires GoodFactor(f) && Seg(s, i, FactorText(f)) && !IsDigit(At(s, i + |FactorText(f)|))
    ensures Reads(ParseFactor(s, i, true), FactorValue(f), i + |FactorText(f)|)
    decreases f, 0
  {
    match f
    case Num(ws, d) => NumRuns(s, i, ws, d);
    case Neg(ws, g) => NegRuns(s, i, ws, g);
    case Par(ws, e, c) => ParRuns(s, i, ws, e, c);
  }

  lemma {:induction false} NegRuns(s: string, i: nat, ws: string, g: Factor)
    requires AllSpace(ws) && GoodFactor(g) && Seg(s, i, ws + ['-'] + FactorText(g))
    requires !IsDigit(At(s, i + |ws| + 1 + |FactorText(g)|))
    ensures Reads(ParseFactor(s, i, true), Negate(FactorValue(g)), i + |ws| + 1 + |FactorText(g)|)
    decreases g, 6
  {
    hide Skip, FactorText, FactorValue, GoodFactor, ParseSum, Seg;
    var t := FactorText(g);
    Regroup("", ws, ['-'], t);
    assert "" + (ws + ['-'] + t) == ws + ['-'] + t;
    OperatorAt(s, i, "", ws, '-', t);
    FactorRuns(s, i + |ws| + 1, g);
  }

  lemma {:induction false} ParRuns(s: string, i: nat, ws: string, e: Sum, c: string)
    requires AllSpace(ws) && GoodSum(e) && AllSpace(c) && Seg(s, i, ws + ['('] + SumText(e) + c + [')'])
    ensures Reads(ParseFactor(s, i, true), SumValue(e), i + |ws| + |SumText(e)| + |c| + 2)
    decreases e, 5
  {
    hide Skip, SumText, SumValue, GoodSum, ParseSum, Seg;
    var t := SumText(e);
    var a := ws + ['('] + t;
    assert a + c + [')'] + "" == ws + ['('] + t + c + [')'];
    OperatorAt(s, i, a, c, ')', "");
    assert "" + ws + ['('] + t == a;
    OperatorAt(s, i, "", ws, '(', t);
    SumRuns(s, i + |ws| + 1, e);
    SumEnds(s, i + |a|, if SumValue(e).Is? then SumValue(e).v else 0);
  }

  /** Before a token that is no additive operator the summing loop stops at once. */
  lemma {:induction false} SumEnds(s: string, k: nat, v: int)
    requires k <= |s| && !IsAddOp(At(s, Skip(s, k)))
    ensures SumLoop(s, k, v, true) == Res(v, Skip(s, k), true)
  {
  }

  lemma {:induction false} ProductRuns(s: string, i: nat, p: Product)
    requires GoodProduct(p) && Seg(s, i, ProductText(p)) && !IsDigit(At(s, i + |ProductText(p)|))
    ensures ReadsProduct(s, i, ProductValue(p), i + |ProductText(p)|)
    decreases p, 1
  {
    match p
    case One(f) =>
      FactorRuns(s, i, f);
    case More(q, ws, op, f) =>
      MoreRuns(s, i, q, ws, op, f);
  }

  lemma {:induction false} MoreRuns(s: string, i: nat, q: Product, ws: string, op: char, f: Factor)
    requires GoodProduct(q) && AllSpace(ws) && IsMulOp(op) && GoodFactor(f)
    requires Seg(s, i, ProductText(q) + ws + [op] + FactorText(f))
    requires !IsDigit(At(s, i + |ProductText(q)| + |ws| + 1 + |FactorText(f)|))
    ensures ReadsProduct(s, i, Apply(op, ProductValue(q), FactorValue(f)),
                         i + |ProductText(q)| + |ws| + 1 + |FactorText(f)|)
    decreases Product.More(q, ws, op, f), 0
  {
    hide Skip, ProductText, FactorText, ProductValue, FactorValue, GoodProduct, GoodFactor, Reads, ReadsProduct, Apply,
         ParseFactor, Seg;
    var a, b := ProductText(q), FactorText(f);
    OperatorAt(s, i, a, ws, op, b);
    var j := i + |a| + |ws|;
    ProductRuns(s, i, q);
    FactorRuns(s, j + 1, f);
    ProductStep(s, i, ProductValue(q), i + |a|, op, FactorValue(f), j + 1 + |b|);
  }

  /** Behind a product of value `x` that ends at `k` the multiplying loop goes on from `x` at `k`. */
  predicate ReadsProduct(s: string, i: nat, x: Value, k: nat)
    requires i <= k <= |s|
  {
    if x.Undefined? then !ParseProduct(s, i, true).ok else ParseProduct(s, i, true) == ProductLoop(s, k, x.v, true)
  }

  predicate ReadsSum(s: string, i: nat, x: Value, k: nat)
    requires i <= k <= |s|
  {
    if x.Undefined? then !ParseSum(s, i, true).ok else ParseSum(s, i, true) == SumLoop(s, k, x.v, true)
  }

  lemma {:induction false} ProductStep(s: string, i: nat, x: Value, k: nat, op: char, y: Value, m: nat)
    requires i <= k < |s| && ReadsProduct(s, i, x, k) && IsMulOp(op) && At(s, Skip(s, k)) == op
    requires Skip(s, k) < m <= |s| && Reads(ParseFactor(s, Skip(s, k) + 1, true), y, m)
    ensures ReadsProduct(s, i, Apply(op, x, y), m)
  {
    hide ParseFactor, ParseProduct, ParseSum, Skip;
  }

  lemma {:induction false} SumRuns(s: string, i: nat, e: Sum)
    requires GoodSum(e) && Seg(s, i, SumText(e))
    requires !IsDigit(At(s, i + |SumText(e)|)) && !IsMulOp(At(s, Skip(s, i + |SumText(e)|)))
    ensures ReadsSum(s, i, SumValue(e), i + |SumText(e)|)
    decreases e, 2
  {
    match e
    case Term(t) =>
      ProductRuns(s, i, t);
      SumStart(s, i, ProductValue(t), i + |ProductText(t)|);
    case Plus(d, ws, op, t) =>
      PlusRuns(s, i, d, ws, op, t);
  }

  lemma {:induction false} PlusRuns(s: string, i: nat, d: Sum, ws: string, op: char, t: Product)
    requires GoodSum(d) && AllSpace(ws) && IsAddOp(op) && GoodProduct(t)
    requires Seg(s, i, SumText(d) + ws + [op] + ProductText(t))
    requires var m := i + |SumText(d)| + |ws| + 1 + |ProductText(t)|;
             !IsDigit(At(s, m)) && !IsMulOp(At(s, Skip(s, m)))
    ensures ReadsSum(s, i, Apply(op, SumValue(d), ProductValue(t)), i + |SumText(d)| + |ws| + 1 + |ProductText(t)|)
    decreases Plus(d, ws, op, t), 0
  {
    hide Skip, SumText, ProductText, SumValue, ProductValue, GoodSum, GoodProduct, ReadsSum, ReadsProduct, Apply, Seg;
    var a, b := SumText(d), ProductText(t);
    OperatorAt(s, i, a, ws, op, b);
    var j := i + |a| + |ws|;
    SumRuns(s, i, d);
    ProductRuns(s, j + 1, t);
    SumStep(s, i, SumValue(d), i + |a|, op, ProductValue(t), j + 1 + |b|);
  }

  /** Reading a product, or a sum, from behind its text or from behind the spaces there is the same. */
  lemma {:induction false} SkipTwice(s: string, i: nat)
    requires i <= |s|
    ensures Skip(s, Skip(s, i)) == Skip(s, i)
  {
    SkipOver(s, Skip(s, i), "");
  }

  lemma {:induction false} ProductEnds(s: string, k: nat, v: int)
    requires k <= |s| && !IsMulOp(At(s, Skip(s, k)))
    ensures ProductLoop(s, k, v, true) == Res(v, Skip(s, k), true)
  {
  }

  lemma {:induction false} SumSkips(s: string, k: nat, v: int)
    requires k <= |s|
    ensures SumLoop(s, Skip(s, k), v, true) == SumLoop(s, k, v, true)
  {
    hide Skip;
    SkipTwice(s, k);
  }

  lemma {:induction false} SumStart(s: string, i: nat, x: Value, k: nat)
    requires i <= k <= |s| && ReadsProduct(s, i, x, k) && !IsMulOp(At(s, Skip(s, k)))
    ensures ReadsSum(s, i, x, k)
  {
    hide ParseProduct, Skip, ProductLoop;
    if x.Is? {
      ProductEnds(s, k, x.v);
      SumSkips(s, k, x.v);
    }
  }

  lemma {:induction false} SumStep(s: string, i: nat, x: Value, k: nat, op: char, y: Value, m: nat)
    requires i <= k < |s| && ReadsSum(s, i, x, k) && IsAddOp(op) && At(s, Skip(s, k)) == op
    requires Skip(s, k) < m <= |s| && ReadsProduct(s, Skip(s, k) + 1, y, m) && !IsMulOp(At(s, Skip(s, m)))
    ensures ReadsSum(s, i, Apply(op, x, y), m)
  {
    hide ParseProduct, ParseSum, Skip, ProductLoop;
    if y.Is? {
      ProductEnds(s, m, y.v);
      if x.Is? {
        SumSkips(s, m, Apply(op, x, y).v);
      }
    }
  }

  /**
   * Completeness: on every text of the grammar, whatever its spacing and extra parentheses, the
   * evaluator succeeds exactly when no division or remainder by zero occurs, with the tree's value.
   */
  lemma {:induction false} EvaluatesText(e: Sum, w: string)
    requires GoodSum(e) && AllSpace(w)
    ensures var r := Evaluate(SumText(e) + w);
            match Eval(SumTree(e))
            case Undefined => !r.ok
            case Is(v) => r.ok && r.v == v
  {
    var t := SumText(e);
    var s := t + w;
    assert s[0..|t|] == t && s[|t|..|t| + |w|] == w;
    SkipOver(s, |t|, w);
    SkipOver(s, |s|, "");
    assert !IsDigit(At(s, |t|)) by { if w != [] { assert s[|t|] == w[0]; } }
    SumRuns(s, 0, e);
    SumTreeValue(e);
  }

  // ----- soundness: what the parser accepts is text of the grammar

  /** `s[i..k]` is the text `t`. */
  predicate Spans(s: string, i: nat, k: nat, t: string) { i <= k <= |s| && s[i..k] == t }

  predicate IsFactor(s: string, i: nat, r: Res, f: Factor) {
    GoodFactor(f) && Spans(s, i, r.pos, FactorText(f)) && FactorValue(f) == Is(r.v)
  }

  predicate IsProduct(s: string, i: nat, k: nat, v: int, p: Product, w: string) {
    GoodProduct(p) && AllSpace(w) && Spans(s, i, k, ProductText(p) + w) && ProductValue(p) == Is(v)
  }

  predicate IsSum(s: string, i: nat, k: nat, v: int, e: Sum, w: string) {
    GoodSum(e) && AllSpace(w) && Spans(s, i, k, SumText(e) + w) && SumValue(e) == Is(v)
  }

  lemma {:induction false} Join(s: string, i: nat, k: nat, m: nat, a: string, b: string)
    requires Spans(s, i, k, a) && Spans(s, k, m, b)
    ensures Spans(s, i, m, a + b)
  {
    assert s[i..m] == s[i..k] + s[k..m];
  }

  /** Operand, spaces, operator, operand standing one behind the other. */
  lemma {:induction false} JoinOperator(s: string, i: nat, a: string, w: string, k: nat, op: char, b: string, m: nat)
    requires Spans(s, i, k, a + w) && AllSpace(w) && k <= |s|
    requires At(s, Skip(s, k)) == op != NUL && Spans(s, Skip(s, k) + 1, m, b)
    ensures var ws := w + s[k..Skip(s, k)]; AllSpace(ws) && Spans(s, i, m, a + ws + [op] + b)
  {
    hide Skip;
    var j := Skip(s, k);
    var x := s[k..j];
    Join(s, i, k, j, a + w, x);
    assert a + w + x == a + (w + x);
    assert s[j..j + 1] == [op];
    Join(s, i, j, j + 1, a + (w + x), [op]);
    Join(s, i, j + 1, m, a + (w + x) + [op], b);
  }

  /** Digits read behind digits: what the accumulator holds. */
  lemma {:induction false} NumLoopReads(s: string, j: nat, i: nat, v: nat)
    requires j <= i <= |s| && AllDigits(s[j..i]) && v == DigitsValue(s[j..i])
    ensures var n := NumLoop(s, i, v); AllDigits(s[j..n.1]) && n.0 == DigitsValue(s[j..n.1])
    decreases |s| - i
  {
    if IsDigit(At(s, i)) {
      var d := s[j..i + 1];
      assert d[..|d| - 1] == s[j..i] && d[|d| - 1] == s[i];
      NumLoopReads(s, j, i + 1, v * 10 + (s[i] - '0') as nat);
    }
  }

  lemma {:induction false} NumSound(s: string, i: nat) returns (f: Factor)
    requires i <= |s| && ParseNum(s, Skip(s, i), true).ok
    ensures IsFactor(s, i, ParseNum(s, Skip(s, i), true), f)
  {
    hide Skip, NumLoop, DigitsValue;
    var j := Skip(s, i);
    SkipTwice(s, i);
    assert s[j..j] == "";
    assert DigitsValue("") == 0 by { NoDigits(0); }
    NumLoopReads(s, j, j, 0);
    var k := NumLoop(s, j, 0).1;
    f := Num(s[i..j], s[j..k]);
    Join(s, i, j, k, s[i..j], s[j..k]);
  }

  lemma {:induction false} FactorSound(s: string, i: nat) returns (f: Factor)
    requires i <= |s| && ParseFactor(s, i, true).ok
    ensures IsFactor(s, i, ParseFactor(s, i, true), f)
    decreases |s| - i, 1
  {
    hide Skip, ParseSum, ParseNum, IsFactor;
    var j := Skip(s, i);
    if At(s, j) == '(' {
      f := ParSound(s, i);
    } else if At(s, j) == '-' {
      var g := FactorSound(s, j + 1);
      f := Neg(s[i..j], g);
      NegSound(s, i, ParseFactor(s, j + 1, true), g);
    } else {
      f := NumSound(s, i);
    }
  }

  lemma {:induction false} NegSound(s: string, i: nat, r: Res, g: Factor)
    requires i <= |s| && At(s, Skip(s, i)) == '-' && IsFactor(s, Skip(s, i) + 1, r, g)
    ensures IsFactor(s, i, Res(-r.v, r.pos, r.ok), Neg(s[i..Skip(s, i)], g))
  {
    hide Skip;
    assert s[i..i] == "" + "";
    JoinOperator(s, i, "", "", i, '-', FactorText(g), r.pos);
    var ws := s[i..Skip(s, i)];
    assert "" + ("" + ws) + ['-'] + FactorText(g) == ws + ['-'] + FactorText(g);
  }

  lemma {:induction false} ParSound(s: string, i: nat) returns (f: Factor)
    requires i <= |s| && At(s, Skip(s, i)) == '(' && ParseFactor(s, i, true).ok
    ensures IsFactor(s, i, ParseFactor(s, i, true), f)
    decreases |s| - i, 0
  {
    hide Skip, ParseSum, IsSum, IsFactor;
    var j := Skip(s, i);
    var r := ParseSum(s, j + 1, true);
    var e, w := SumSound(s, j + 1);
    f := Par(s[i..j], e, w + s[r.pos..Skip(s, r.pos)]);
    ParText(s, i, r.v, r.pos, e, w);
  }

  lemma {:induction false} ParText(s: string, i: nat, v: int, k: nat, e: Sum, w: string)
    requires i <= |s| && At(s, Skip(s, i)) == '(' && IsSum(s, Skip(s, i) + 1, k, v, e, w)
    requires k <= |s| && At(s, Skip(s, k)) == ')'
    ensures IsFactor(s, i, Res(v, Skip(s, k) + 1, true), Par(s[i..Skip(s, i)], e, w + s[k..Skip(s, k)]))
  {
    hide Skip, SumText, SumValue, GoodSum;
    var t, ws, m := SumText(e), s[i..Skip(s, i)], Skip(s, k) + 1;
    JoinOperator(s, Skip(s, i) + 1, t, w, k, ')', "", m);
    var c := w + s[k..Skip(s, k)];
    assert s[i..i] == "" + "";
    JoinOperator(s, i, "", "", i, '(', t + c + [')'] + "", m);
    assert "" + ("" + ws) + ['('] + (t + c + [')'] + "") == ws + ['('] + t + c + [')'];
  }

  lemma {:induction false} ProductLoopSound(s: string, i: nat, k: nat, v: int, p: Product, w: string)
    returns (q: Product, u: string)
    requires IsProduct(s, i, k, v, p, w) && i <= k <= |s| && ProductLoop(s, k, v, true).ok
    ensures var r := ProductLoop(s, k, v, true); IsProduct(s, i, r.pos, r.v, q, u)
    decreases |s| - k, 2
  {
    hide Skip, IsProduct, ParseFactor;
    var j := Skip(s, k);
    if IsMulOp(At(s, j)) {
      var r := ParseFactor(s, j + 1, true);
      var f := FactorSound(s, j + 1);
      ProductGrows(s, i, k, v, p, w, r, f);
      var p' := More(p, w + s[k..j], At(s, j), f);
      q, u := ProductLoopSound(s, i, r.pos, Apply(At(s, j), Is(v), Is(r.v)).v, p', "");
    } else {
      q, u := p, w + s[k..j];
      ProductStops(s, i, k, v, p, w);
    }
  }

  lemma {:induction false} ProductStops(s: string, i: nat, k: nat, v: int, p: Product, w: string)
    requires IsProduct(s, i, k, v, p, w) && k <= |s|
    ensures IsProduct(s, i, Skip(s, k), v, p, w + s[k..Skip(s, k)])
  {
    hide Skip, ProductText, GoodProduct, ProductValue;
    var j := Skip(s, k);
    Join(s, i, k, j, ProductText(p) + w, s[k..j]);
    assert ProductText(p) + w + s[k..j] == ProductText(p) + (w + s[k..j]);
  }

  lemma {:induction false} ProductGrows(s: string, i: nat, k: nat, v: int, p: Product, w: string, r: Res, f: Factor)
    requires IsProduct(s, i, k, v, p, w) && k <= |s| && IsMulOp(At(s, Skip(s, k)))
    requires IsFactor(s, Skip(s, k) + 1, r, f) && Apply(At(s, Skip(s, k)), Is(v), Is(r.v)).Is?
    ensures var op := At(s, Skip(s, k));
            IsProduct(s, i, r.pos, Apply(op, Is(v), Is(r.v)).v, More(p, w + s[k..Skip(s, k)], op, f), "")
  {
    hide Skip, Apply, FactorText, FactorValue, GoodFactor;
    var op := At(s, Skip(s, k));
    var ws := w + s[k..Skip(s, k)];
    JoinOperator(s, i, ProductText(p), w, k, op, FactorText(f), r.pos);
    assert ProductText(More(p, ws, op, f)) + "" == ProductText(p) + ws + [op] + FactorText(f);
  }

  lemma {:induction false} ProductSound(s: string, i: nat) returns (p: Product, w: string)
    requires i <= |s| && ParseProduct(s, i, true).ok
    ensures var r := ParseProduct(s, i, true); IsProduct(s, i, r.pos, r.v, p, w)
    decreases |s| - i, 3
  {
    hide FactorText, FactorValue, GoodFactor, ParseFactor, ProductLoop;
    var f := FactorSound(s, i);
    var r := ParseFactor(s, i, true);
    assert FactorText(f) + "" == FactorText(f);
    p, w := ProductLoopSound(s, i, r.pos, r.v, One(f), "");
  }

  lemma {:induction false} SumLoopSound(s: string, i: nat, k: nat, v: int, e: Sum, w: string)
    returns (d: Sum, u: string)
    requires IsSum(s, i, k, v, e, w) && i <= k <= |s| && SumLoop(s, k, v, true).ok
    ensures var r := SumLoop(s, k, v, true); IsSum(s, i, r.pos, r.v, d, u)
    decreases |s| - k, 4
  {
    hide Skip, IsSum, ParseProduct;
    var j := Skip(s, k);
    if IsAddOp(At(s, j)) {
      var r := ParseProduct(s, j + 1, true);
      var t, x := ProductSound(s, j + 1);
      SumGrows(s, i, k, v, e, w, r.pos, r.v, t, x);
      var e' := Plus(e, w + s[k..j], At(s, j), t);
      d, u := SumLoopSound(s, i, r.pos, Apply(At(s, j), Is(v), Is(r.v)).v, e', x);
    } else {
      d, u := e, w + s[k..j];
      SumStops(s, i, k, v, e, w);
    }
  }

  lemma {:induction false} SumStops(s: string, i: nat, k: nat, v: int, e: Sum, w: string)
    requires IsSum(s, i, k, v, e, w) && k <= |s|
    ensures IsSum(s, i, Skip(s, k), v, e, w + s[k..Skip(s, k)])
  {
    hide Skip, SumText, GoodSum, SumValue;
    var j := Skip(s, k);
    Join(s, i, k, j, SumText(e) + w, s[k..j]);
    assert SumText(e) + w + s[k..j] == SumText(e) + (w + s[k..j]);
  }

  lemma {:induction false} SumGrows(s: string, i: nat, k: nat, v: int, e: Sum, w: string, m: nat, y: int, t: Product,
                                    x: string)
    requires IsSum(s, i, k, v, e, w) && k <= |s| && IsAddOp(At(s, Skip(s, k)))
    requires IsProduct(s, Skip(s, k) + 1, m, y, t, x)
    ensures var op := At(s, Skip(s, k));
            IsSum(s, i, m, Apply(op, Is(v), Is(y)).v, Plus(e, w + s[k..Skip(s, k)], op, t), x)
  {
    hide Skip, ProductText, ProductValue, GoodProduct;
    var op := At(s, Skip(s, k));
    var ws := w + s[k..Skip(s, k)];
    JoinOperator(s, i, SumText(e), w, k, op, ProductText(t) + x, m);
    assert SumText(e) + ws + [op] + (ProductText(t) + x) == SumText(Plus(e, ws, op, t)) + x;
  }

  lemma {:induction false} SumSound(s: string, i: nat) returns (e: Sum, w: string)
    requires i <= |s| && ParseSum(s, i, true).ok
    ensures var r := ParseSum(s, i, true); IsSum(s, i, r.pos, r.v, e, w)
    decreases |s| - i, 5
  {
    hide ProductText, ProductValue, GoodProduct, ParseProduct, SumLoop;
    var t, x := ProductSound(s, i);
    var r := ParseProduct(s, i, true);
    e, w := SumLoopSound(s, i, r.pos, r.v, Term(t), x);
  }

  /** `s` is, but for spaces at its end, a text of the grammar with value `v`. */
  ghost predicate Denotes(s: string, v: int) {
    exists e: Sum, w: string :: GoodSum(e) && AllSpace(w) && s == SumText(e) + w && Eval(SumTree(e)) == Is(v)
  }

  /** Soundness and completeness together: the evaluator accepts exactly the expressions that have a value. */
  lemma {:induction false} EvaluatesExactly(s: string, v: int)
    ensures Evaluate(s).ok && Evaluate(s).v == v <==> Denotes(s, v)
  {
    hide SumText, SumValue, GoodSum, ParseSum, Skip, SumTree;
    if Evaluate(s).ok && Evaluate(s).v == v {
      var e, w := SumSound(s, 0);
      var k := ParseSum(s, 0, true).pos;
      SumStops(s, 0, k, v, e, w);
      var u := w + s[k..Skip(s, k)];
      assert s[0..|s|] == s;
      SumTreeValue(e);
      assert s == SumText(e) + u;
    }
    forall e: Sum, w: string | GoodSum(e) && AllSpace(w) && s == SumText(e) + w && Eval(SumTree(e)) == Is(v)
      ensures Evaluate(s).ok && Evaluate(s).v == v
    {
      EvaluatesText(e, w);
    }
  }

  /** The grammar is unambiguous in value: however a text is read, it denotes one number. */
  lemma {:induction false} OneValue(s: string, v: int, u: int)
    requires Denotes(s, v) && Denotes(s, u)
    ensures v == u
  {
    EvaluatesExactly(s, v);
    EvaluatesExactly(s, u);
  }
}
