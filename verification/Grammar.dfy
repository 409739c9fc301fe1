/** Integer expressions: their concrete syntax, their text, and their value. */
module Grammar {
  predicate IsSpace(c: char) { c == ' ' || c == '\t' }
  predicate IsDigit(c: char) { '0' <= c <= '9' }
  predicate IsMulOp(c: char) { c == '*' || c == '/' || c == '%' }
  predicate IsAddOp(c: char) { c == '+' || c == '-' }

  predicate AllSpace(s: string) { forall i :: 0 <= i < |s| ==> IsSpace(s[i]) }
  predicate AllDigits(s: string) { forall i :: 0 <= i < |s| ==> IsDigit(s[i]) }

  // ----- division that rounds toward zero

  function Quot(a: int, b: int): (q: int)
    requires b != 0
  {
    if a >= 0 then (if b > 0 then a / b else -(a / -b))
    else if b > 0 then -(-a / b) else -a / -b
  }

  function Rem(a: int, b: int): (r: int)
    requires b != 0
  {
    a - b * Quot(a, b)
  }

  function Abs(a: int): nat { if a < 0 then -a else a }

  /** The remainder is smaller than the divisor and has the sign of the dividend. */
  lemma {:induction false} RemBounds(a: int, b: int)
    requires b != 0
    ensures Abs(Rem(a, b)) < Abs(b) && (a >= 0 ==> Rem(a, b) >= 0) && (a <= 0 ==> Rem(a, b) <= 0)
  {
    DivisionParts(Abs(a), Abs(b));
    SignedProducts(Abs(b), Abs(a) / Abs(b));
  }

  lemma {:induction false} DivisionParts(x: nat, y: nat)
    requires y > 0
    ensures 0 <= x - y * (x / y) < y
  {
    assert x == y * (x / y) + x % y;
  }

  lemma {:induction false} SignedProducts(y: int, q: int)
    ensures (-y) * (-q) == y * q && (-y) * q == -(y * q) && y * (-q) == -(y * q)
  {
  }

  // ----- syntax trees that keep spaces and parentheses

  datatype Factor =
    | Num(ws: string, digits: string)
    | Neg(ws: string, f: Factor)
    | Par(ws: string, e: Sum, close: string)

  datatype Product = One(f: Factor) | More(p: Product, ws: string, op: char, f: Factor)

  datatype Sum = Term(t: Product) | Plus(e: Sum, ws: string, op: char, t: Product)

  predicate GoodFactor(f: Factor) {
    match f
    case Num(ws, d) => AllSpace(ws) && d != [] && AllDigits(d)
    case Neg(ws, g) => AllSpace(ws) && GoodFactor(g)
    case Par(ws, e, c) => AllSpace(ws) && GoodSum(e) && AllSpace(c)
  }

  predicate GoodProduct(p: Product) {
    match p
    case One(f) => GoodFactor(f)
    case More(q, ws, op, f) => GoodProduct(q) && AllSpace(ws) && IsMulOp(op) && GoodFactor(f)
  }

  predicate GoodSum(e: Sum) {
    match e
    case Term(t) => GoodProduct(t)
    case Plus(d, ws, op, t) => GoodSum(d) && AllSpace(ws) && IsAddOp(op) && GoodProduct(t)
  }

  function FactorText(f: Factor): string {
    match f
    case Num(ws, d) => ws + d
    case Neg(ws, g) => ws + ['-'] + FactorText(g)
    case Par(ws, e, c) => ws + ['('] + SumText(e) + c + [')']
  }

  function ProductText(p: Product): string {
    match p
    case One(f) => FactorText(f)
    case More(q, ws, op, f) => ProductText(q) + ws + [op] + FactorText(f)
  }

  function SumText(e: Sum): string {
    match e
    case Term(t) => ProductText(t)
    case Plus(d, ws, op, t) => SumText(d) + ws + [op] + ProductText(t)
  }

  // ----- values

  datatype Value = Undefined | Is(v: int)

  function DigitsValue(d: string): (n: nat)
    requires AllDigits(d)
  {
    if d == [] then 0 else 10 * DigitsValue(d[..|d| - 1]) + (d[|d| - 1] - '0') as nat
  }

  function Apply(op: char, a: Value, b: Value): Value {
    if a.Undefined? || b.Undefined? then Undefined
    else if op == '*' then Is(a.v * b.v)
    else if op == '+' then Is(a.v + b.v)
    else if op == '-' then Is(a.v - b.v)
    else if b.v == 0 then Undefined
    else if op == '/' then Is(Quot(a.v, b.v))
    else Is(Rem(a.v, b.v))
  }

  function Negate(a: Value): Value {
    if a.Undefined? then Undefined else Is(-a.v)
  }

  function FactorValue(f: Factor): Value
    requires GoodFactor(f)
  {
    match f
    case Num(_, d) => Is(DigitsValue(d))
    case Neg(_, g) => Negate(FactorValue(g))
    case Par(_, e, _) => SumValue(e)
  }

  function ProductValue(p: Product): Value
    requires GoodProduct(p)
  {
    match p
    case One(f) => FactorValue(f)
    case More(q, _, op, f) => Apply(op, ProductValue(q), FactorValue(f))
  }

  function SumValue(e: Sum): Value
    requires GoodSum(e)
  {
    match e
    case Term(t) => ProductValue(t)
    case Plus(d, _, op, t) => Apply(op, SumValue(d), ProductValue(t))
  }

  // ----- plain expression trees, and their printings

  datatype Tree = Lit(n: nat) | Minus(t: Tree) | Bin(op: char, l: Tree, r: Tree)

  predicate GoodTree(t: Tree) {
    match t
    case Lit(_) => true
    case Minus(u) => GoodTree(u)
    case Bin(op, l, r) => (IsMulOp(op) || IsAddOp(op)) && GoodTree(l) && GoodTree(r)
  }

  function Eval(t: Tree): Value {
    match t
    case Lit(n) => Is(n)
    case Minus(u) => Negate(Eval(u))
    case Bin(op, l, r) => Apply(op, Eval(l), Eval(r))
  }

  /** The tree a text stands for: spaces and parentheses forgotten. */
  function FactorTree(f: Factor): Tree
    requires GoodFactor(f)
  {
    match f
    case Num(_, d) => Lit(DigitsValue(d))
    case Neg(_, g) => Minus(FactorTree(g))
    case Par(_, e, _) => SumTree(e)
  }

  function ProductTree(p: Product): Tree
    requires GoodProduct(p)
  {
    match p
    case One(f) => FactorTree(f)
    case More(q, _, op, f) => Bin(op, ProductTree(q), FactorTree(f))
  }

  function SumTree(e: Sum): Tree
    requires GoodSum(e)
  {
    match e
    case Term(t) => ProductTree(t)
    case Plus(d, _, op, t) => Bin(op, SumTree(d), ProductTree(t))
  }

  lemma {:induction false} FactorTreeValue(f: Factor)
    requires GoodFactor(f)
    ensures Eval(FactorTree(f)) == FactorValue(f)
  {
    match f
    case Num(_, _) =>
    case Neg(_, g) => FactorTreeValue(g);
    case Par(_, e, _) => SumTreeValue(e);
  }

  lemma {:induction false} ProductTreeValue(p: Product)
    requires GoodProduct(p)
    ensures Eval(ProductTree(p)) == ProductValue(p)
  {
    match p
    case One(f) => FactorTreeValue(f);
    case More(q, _, _, f) => ProductTreeValue(q); FactorTreeValue(f);
  }

  lemma {:induction false} SumTreeValue(e: Sum)
    requires GoodSum(e)
    ensures Eval(SumTree(e)) == SumValue(e)
  {
    match e
    case Term(t) => ProductTreeValue(t);
    case Plus(d, _, _, t) => SumTreeValue(d); ProductTreeValue(t);
  }

  // ----- decimal digits

  /** Digits of `u`, lowest first; none for 0. */
  function DigitsRev(u: nat): (r: string)
    ensures AllDigits(r)
  {
    if u == 0 then [] else [('0' as int + u % 10) as char] + DigitsRev(u / 10)
  }

  function Reverse(s: string): (r: string)
    ensures |r| == |s|
  {
    if s == [] then [] else Reverse(s[1..]) + [s[0]]
  }

  function Digits(u: nat): (r: string) {
    if u == 0 then "0" else Reverse(DigitsRev(u))
  }

  lemma {:induction false} ReverseDigits(s: string)
    requires AllDigits(s)
    ensures AllDigits(Reverse(s))
    decreases |s|
  {
    if s != [] {
      ReverseDigits(s[1..]);
    }
  }

  /** Writing a number out and reading its digits gives it back. */
  lemma {:induction false} DigitsRoundTrip(u: nat)
    ensures AllDigits(Digits(u)) && Digits(u) != [] && DigitsValue(Digits(u)) == u
  {
    if u == 0 {
      assert "0"[..0] == [];
      assert DigitsValue([]) == 0;
    } else {
      RevRoundTrip(u);
    }
  }

  /** The last digit is the number's units, and the digits before it are those of its tens. */
  lemma {:induction false} DigitsInOrder(n: nat)
    ensures Digits(n) ==
            (if n < 10 then "" else Digits(n / 10)) + ["0123456789"[n % 10]]
  {
    var c := ('0' as int + n % 10) as char;
    assert c == "0123456789"[n % 10];
    if n > 0 {
      assert DigitsRev(n) == [c] + DigitsRev(n / 10);
      assert DigitsRev(n)[1..] == DigitsRev(n / 10);
    }
  }

  lemma {:induction false} RevRoundTrip(u: nat)
    requires u > 0
    ensures var d := Reverse(DigitsRev(u)); AllDigits(d) && d != [] && DigitsValue(d) == u
  {
    var c, rest := ('0' as int + u % 10) as char, DigitsRev(u / 10);
    var d := Reverse(DigitsRev(u));
    assert DigitsRev(u) == [c] + rest;
    assert DigitsRev(u)[1..] == rest;
    ReverseDigits(DigitsRev(u));
    ReverseDigits(rest);
    assert d == Reverse(rest) + [c];
    assert d[..|d| - 1] == Reverse(rest);
    if u / 10 > 0 {
      RevRoundTrip(u / 10);
    }
  }

  // ----- every tree has a printing

  function PrintFactor(t: Tree): (f: Factor)
    decreases t, if t.Bin? then 3 else 0
  {
    match t
    case Lit(n) => Num("", Digits(n))
    case Minus(u) => Neg("", PrintFactor(u))
    case Bin(_, _, _) => Par("", PrintSum(t), "")
  }

  function PrintProduct(t: Tree): (p: Product)
    decreases t, 1
  {
    if t.Bin? && IsMulOp(t.op) then More(PrintProduct(t.l), "", t.op, PrintFactor(t.r))
    else if t.Bin? && !IsAddOp(t.op) then One(Num("", "0"))
    else if t.Bin? then One(Par("", Plus(PrintSum(t.l), "", t.op, PrintProduct(t.r)), ""))
    else One(PrintFactor(t))
  }

  function PrintSum(t: Tree): (e: Sum)
    decreases t, 2
  {
    if t.Bin? && IsAddOp(t.op) then Plus(PrintSum(t.l), "", t.op, PrintProduct(t.r)) else Term(PrintProduct(t))
  }

  /** With parentheses only where precedence and left association need them, the tree comes back. */
  lemma {:induction false} PrintedTree(t: Tree)
    requires GoodTree(t)
    ensures GoodFactor(PrintFactor(t)) && FactorTree(PrintFactor(t)) == t
    ensures GoodProduct(PrintProduct(t)) && ProductTree(PrintProduct(t)) == t
    ensures GoodSum(PrintSum(t)) && SumTree(PrintSum(t)) == t
  {
    match t
    case Lit(n) => DigitsRoundTrip(n);
    case Minus(u) => PrintedTree(u);
    case Bin(_, l, r) =>
      PrintedTree(l);
      PrintedTree(r);
      var e := PrintSum(t);
      assert GoodSum(e) && SumTree(e) == t by {
        if IsMulOp(t.op) {
          var p := PrintProduct(t);
          assert p == More(PrintProduct(l), "", t.op, PrintFactor(r));
          assert GoodProduct(p) && ProductTree(p) == t;
        }
      }
      assert PrintFactor(t) == Par("", e, "");
  }
}
