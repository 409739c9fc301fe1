/** What the evaluator answers, said of texts and numbers: operators, precedence, parentheses, blanks. */
module ExpressionLaws {
  import opened Grammar
  import opened Evaluator
  import opened Calculator

  /** `s` is one factor, and its value is `v`: a number, a factor behind a minus, or anything in parentheses. */
  ghost predicate Stands(s: string, v: int) {
    exists f :: GoodFactor(f) && FactorText(f) == s && Eval(FactorTree(f)) == Is(v)
  }

  lemma {:induction false} PrintedStands(v: int)
    ensures Stands(Decimal(v), v)
  {
    var f := PrintedFactor(v);
    assert GoodFactor(f) && FactorText(f) == Decimal(v) && Eval(FactorTree(f)) == Is(v);
  }

  /** Parentheses make a factor of every text, a minus negates, and blanks in front do not count. */
  lemma {:induction false} FactorLaws(s: string, v: int, c: char)
    ensures Denotes(s, v) ==> Stands("(" + s + ")", v)
    ensures Stands(s, v) ==> Stands("-" + s, -v) && Denotes(s, v)
    ensures Stands(s, v) && (c == ' ' || c == '\t') ==> Stands([c] + s, v)
    ensures Denotes(s, v) && (c == ' ' || c == '\t') ==> Denotes(s + [c], v)
  {
    hide SumText, FactorText, GoodSum, GoodFactor, SumTree, FactorTree, Eval;
    if Denotes(s, v) { ParenLaw(s, v); }
    if Stands(s, v) { MinusLaw(s, v); }
    if c == ' ' || c == '\t' {
      if Stands(s, v) { BlankFront(s, v, c); }
      if Denotes(s, v) { BlankEnd(s, v, c); }
    }
  }

  lemma {:induction false} ParenLaw(s: string, v: int)
    requires Denotes(s, v)
    ensures Stands("(" + s + ")", v)
  {
    hide SumText, GoodSum, SumTree;
    var e: Sum, w: string :| GoodSum(e) && AllSpace(w) && s == SumText(e) + w && Eval(SumTree(e)) == Is(v);
    var f := Par("", e, w);
    assert FactorText(f) == "" + ['('] + SumText(e) + w + [')'] == "(" + s + ")";
    assert GoodFactor(f) && FactorTree(f) == SumTree(e);
  }

  lemma {:induction false} MinusLaw(s: string, v: int)
    requires Stands(s, v)
    ensures Stands("-" + s, -v) && Denotes(s, v)
  {
    var f :| GoodFactor(f) && FactorText(f) == s && Eval(FactorTree(f)) == Is(v);
    var g := Neg("", f);
    assert FactorText(g) == "" + ['-'] + s == "-" + s;
    assert GoodFactor(g) && Eval(FactorTree(g)) == Is(-v);
    FactorAlone(f);
    var e := Term(One(f));
    assert s == SumText(e) + "" && AllSpace("");
  }

  lemma {:induction false} BlankFront(s: string, v: int, c: char)
    requires Stands(s, v) && (c == ' ' || c == '\t')
    ensures Stands([c] + s, v)
  {
    var f :| GoodFactor(f) && FactorText(f) == s && Eval(FactorTree(f)) == Is(v);
    var g :=
      match f
      case Num(ws, d) => Num([c] + ws, d)
      case Neg(ws, h) => Neg([c] + ws, h)
      case Par(ws, e, x) => Par([c] + ws, e, x);
    assert GoodFactor(g) && Eval(FactorTree(g)) == Is(v);
    assert FactorText(g) == [c] + s by {
      match f
      case Num(ws, d) => assert [c] + ws + d == [c] + (ws + d);
      case Neg(ws, h) => assert [c] + ws + ['-'] + FactorText(h) == [c] + (ws + ['-'] + FactorText(h));
      case Par(ws, e, x) =>
        assert [c] + ws + ['('] + SumText(e) + x + [')'] == [c] + (ws + ['('] + SumText(e) + x + [')']);
    }
  }

  lemma {:induction false} BlankEnd(s: string, v: int, c: char)
    requires Denotes(s, v) && (c == ' ' || c == '\t')
    ensures Denotes(s + [c], v)
  {
    hide SumText, GoodSum, SumTree, Eval;
    var e: Sum, w: string :| GoodSum(e) && AllSpace(w) && s == SumText(e) + w && Eval(SumTree(e)) == Is(v);
    assert s + [c] == SumText(e) + (w + [c]) && AllSpace(w + [c]);
  }

  /** A text of the grammar denotes the value of its tree, or nothing when that has none. */
  lemma {:induction false} TextDenotes(e: Sum, s: string)
    requires GoodSum(e) && SumText(e) == s
    ensures match Eval(SumTree(e)) case Is(v) => Denotes(s, v) case Undefined => forall n :: !Denotes(s, n)
  {
    hide SumText, GoodSum, SumTree;
    assert s == SumText(e) + "" && AllSpace("");
    if Eval(SumTree(e)).Undefined? {
      EvaluatesText(e, "");
      SumTreeValue(e);
      forall n ensures !Denotes(s, n) { EvaluatesExactly(s, n); }
    }
  }

  /** Quotient and remainder, with the quotient rounded toward zero. */
  predicate Divides(a: int, b: int, q: int, r: int) {
    && a == q * b + r
    && (a >= 0 ==> 0 <= r) && (a <= 0 ==> r <= 0)
    && (if b > 0 then -b < r < b else b < r < -b)
  }

  /** The five operators between two factors. */
  lemma {:induction false} Operations(s: string, a: int, t: string, b: int)
    requires Stands(s, a) && Stands(t, b)
    ensures Denotes(s + "+" + t, a + b) && Denotes(s + "-" + t, a - b) && Denotes(s + "*" + t, a * b)
    ensures b != 0 ==> exists q, r :: Divides(a, b, q, r) && Denotes(s + "/" + t, q) && Denotes(s + "%" + t, r)
    ensures b == 0 ==> forall n :: !Denotes(s + "/" + t, n) && !Denotes(s + "%" + t, n)
  {
    hide Denotes, SumText, SumTree, Quot, Rem, Divides;
    var f :| GoodFactor(f) && FactorText(f) == s && Eval(FactorTree(f)) == Is(a);
    var g :| GoodFactor(g) && FactorText(g) == t && Eval(FactorTree(g)) == Is(b);
    AddedText(f, '+', g);
    AddedText(f, '-', g);
    ScaledText(f, '*', g);
    ScaledText(f, '/', g);
    ScaledText(f, '%', g);
    TextDenotes(Plus(Term(One(f)), "", '+', One(g)), s + "+" + t);
    TextDenotes(Plus(Term(One(f)), "", '-', One(g)), s + "-" + t);
    TextDenotes(Term(More(One(f), "", '*', g)), s + "*" + t);
    TextDenotes(Term(More(One(f), "", '/', g)), s + "/" + t);
    TextDenotes(Term(More(One(f), "", '%', g)), s + "%" + t);
    if b != 0 {
      QuotRemDivides(a, b);
      assert Divides(a, b, Quot(a, b), Rem(a, b));
      assert Denotes(s + "/" + t, Quot(a, b)) && Denotes(s + "%" + t, Rem(a, b));
    }
  }

  lemma {:induction false} QuotRemDivides(a: int, b: int)
    requires b != 0
    ensures Divides(a, b, Quot(a, b), Rem(a, b))
  {
    hide Quot;
    var q := Quot(a, b);
    RemBounds(a, b);
    assert b * q == q * b;
  }

  lemma {:induction false} AddedText(f: Factor, op: char, g: Factor)
    requires GoodFactor(f) && GoodFactor(g) && IsAddOp(op)
    ensures var e := Plus(Term(One(f)), "", op, One(g));
            && GoodSum(e) && SumText(e) == FactorText(f) + [op] + FactorText(g)
            && Eval(SumTree(e)) == Apply(op, Eval(FactorTree(f)), Eval(FactorTree(g)))
  {
    hide FactorText, FactorTree, GoodFactor;
    FactorAlone(f);
    assert ProductText(One(g)) == FactorText(g) && ProductTree(One(g)) == FactorTree(g) && GoodProduct(One(g));
    assert FactorText(f) + "" == FactorText(f);
  }

  lemma {:induction false} ScaledText(f: Factor, op: char, g: Factor)
    requires GoodFactor(f) && GoodFactor(g) && IsMulOp(op)
    ensures var p := More(One(f), "", op, g);
            && GoodProduct(p) && ProductText(p) == FactorText(f) + [op] + FactorText(g)
            && Eval(ProductTree(p)) == Apply(op, Eval(FactorTree(f)), Eval(FactorTree(g)))
    ensures var e := Term(More(One(f), "", op, g));
            && GoodSum(e) && SumText(e) == FactorText(f) + [op] + FactorText(g)
            && Eval(SumTree(e)) == Apply(op, Eval(FactorTree(f)), Eval(FactorTree(g)))
  {
    hide FactorText, FactorTree, GoodFactor;
    assert ProductText(One(f)) == FactorText(f) && ProductTree(One(f)) == FactorTree(f) && GoodProduct(One(f));
    assert FactorText(f) + "" == FactorText(f);
  }

  /** Products bind tighter than sums, and sums associate to the left. */
  lemma {:induction false} Precedence(s: string, a: int, t: string, b: int, u: string, c: int)
    requires Stands(s, a) && Stands(t, b) && Stands(u, c)
    ensures Denotes(s + "+" + t + "*" + u, a + b * c) && Denotes(s + "*" + t + "+" + u, a * b + c)
    ensures Denotes(s + "-" + t + "-" + u, a - b - c) && Denotes(s + "-" + t + "+" + u, a - b + c)
  {
    hide Denotes, SumText, SumTree, GoodSum, FactorText, FactorTree, GoodFactor;
    var f :| GoodFactor(f) && FactorText(f) == s && Eval(FactorTree(f)) == Is(a);
    var g :| GoodFactor(g) && FactorText(g) == t && Eval(FactorTree(g)) == Is(b);
    var h :| GoodFactor(h) && FactorText(h) == u && Eval(FactorTree(h)) == Is(c);
    SumOfProduct(f, g, h);
    SumOfThree(f, '-', g, '-', h);
    SumOfThree(f, '-', g, '+', h);
    TextDenotes(Plus(Term(One(f)), "", '+', More(One(g), "", '*', h)), s + "+" + t + "*" + u);
    TextDenotes(Plus(Term(More(One(f), "", '*', g)), "", '+', One(h)), s + "*" + t + "+" + u);
    TextDenotes(Plus(Plus(Term(One(f)), "", '-', One(g)), "", '-', One(h)), s + "-" + t + "-" + u);
    TextDenotes(Plus(Plus(Term(One(f)), "", '-', One(g)), "", '+', One(h)), s + "-" + t + "+" + u);
  }

  /** A product associates to the left: what was divided is multiplied, not the divisor. */
  lemma {:induction false} LeftProducts(s: string, a: int, t: string, b: int, u: string, c: int, q: int, r: int)
    requires Stands(s, a) && Stands(t, b) && Stands(u, c) && b != 0 && Divides(a, b, q, r)
    ensures Denotes(s + "/" + t + "*" + u, q * c) && Denotes(s + "%" + t + "*" + u, r * c)
  {
    hide Denotes, SumText, SumTree, GoodSum, FactorText, FactorTree, GoodFactor, Divides, Quot, Rem;
    var f :| GoodFactor(f) && FactorText(f) == s && Eval(FactorTree(f)) == Is(a);
    var g :| GoodFactor(g) && FactorText(g) == t && Eval(FactorTree(g)) == Is(b);
    var h :| GoodFactor(h) && FactorText(h) == u && Eval(FactorTree(h)) == Is(c);
    QuotRemDivides(a, b);
    OneDivision(a, b, q, r, Quot(a, b), Rem(a, b));
    ProductOfThree(f, '/', g, h);
    ProductOfThree(f, '%', g, h);
    TextDenotes(Term(More(More(One(f), "", '/', g), "", '*', h)), s + "/" + t + "*" + u);
    TextDenotes(Term(More(More(One(f), "", '%', g), "", '*', h)), s + "%" + t + "*" + u);
  }

  /** There is one quotient and one remainder. */
  lemma {:induction false} OneDivision(a: int, b: int, q: int, r: int, p: int, x: int)
    requires b != 0 && Divides(a, b, q, r) && Divides(a, b, p, x)
    ensures q == p && r == x
  {
    assert (q - p) * b == x - r;
    if q > p { SmallMultiple(q - p, b); } else if q < p { SmallMultiple(p - q, b); }
  }

  lemma {:induction false} SmallMultiple(k: int, b: int)
    requires k >= 1 && b != 0
    ensures if b > 0 then k * b >= b else k * b <= b
    decreases k
  {
    if k > 1 {
      SmallMultiple(k - 1, b);
      assert k * b == (k - 1) * b + b;
    }
  }

  lemma {:induction false} SumOfProduct(f: Factor, g: Factor, h: Factor)
    requires GoodFactor(f) && GoodFactor(g) && GoodFactor(h)
    ensures var e := Plus(Term(One(f)), "", '+', More(One(g), "", '*', h));
            && GoodSum(e) && SumText(e) == FactorText(f) + "+" + FactorText(g) + "*" + FactorText(h)
            && Eval(SumTree(e)) == Apply('+', Eval(FactorTree(f)), Apply('*', Eval(FactorTree(g)), Eval(FactorTree(h))))
    ensures var e := Plus(Term(More(One(f), "", '*', g)), "", '+', One(h));
            && GoodSum(e) && SumText(e) == FactorText(f) + "*" + FactorText(g) + "+" + FactorText(h)
            && Eval(SumTree(e)) == Apply('+', Apply('*', Eval(FactorTree(f)), Eval(FactorTree(g))), Eval(FactorTree(h)))
  {
    hide FactorText, FactorTree, GoodFactor, Apply;
    ScaledText(g, '*', h);
    ScaledText(f, '*', g);
    FactorAlone(f);
    FactorAlone(h);
    assert ProductText(One(h)) == FactorText(h) && ProductTree(One(h)) == FactorTree(h);
    var x, y, z := FactorText(f), FactorText(g), FactorText(h);
    assert x + "" + ['+'] + (y + ['*'] + z) == x + "+" + y + "*" + z;
    assert (x + ['*'] + y) + "" + ['+'] + z == x + "*" + y + "+" + z;
  }

  lemma {:induction false} SumOfThree(f: Factor, o: char, g: Factor, p: char, h: Factor)
    requires GoodFactor(f) && GoodFactor(g) && GoodFactor(h) && IsAddOp(o) && IsAddOp(p)
    ensures var e := Plus(Plus(Term(One(f)), "", o, One(g)), "", p, One(h));
            && GoodSum(e) && SumText(e) == FactorText(f) + [o] + FactorText(g) + [p] + FactorText(h)
            && Eval(SumTree(e)) == Apply(p, Apply(o, Eval(FactorTree(f)), Eval(FactorTree(g))), Eval(FactorTree(h)))
  {
    hide FactorText, FactorTree, GoodFactor, Apply;
    AddedText(f, o, g);
    var x := FactorText(f) + [o] + FactorText(g);
    assert x + "" == x;
  }

  lemma {:induction false} ProductOfThree(f: Factor, o: char, g: Factor, h: Factor)
    requires GoodFactor(f) && GoodFactor(g) && GoodFactor(h) && IsMulOp(o)
    ensures var e := Term(More(More(One(f), "", o, g), "", '*', h));
            && GoodSum(e) && SumText(e) == FactorText(f) + [o] + FactorText(g) + "*" + FactorText(h)
            && Eval(SumTree(e)) == Apply('*', Apply(o, Eval(FactorTree(f)), Eval(FactorTree(g))), Eval(FactorTree(h)))
  {
    hide FactorText, FactorTree, GoodFactor, Apply;
    ScaledText(f, o, g);
    var x := FactorText(f) + [o] + FactorText(g);
    assert x + "" == x;
  }

  /** The operators on printed numbers: what the program answers for `a` op `b`. */
  lemma {:induction false} PrintedOperations(a: int, b: int)
    ensures var s, t := Decimal(a), Decimal(b);
            && Evaluate(s + "+" + t).ok && Evaluate(s + "+" + t).v == a + b
            && Evaluate(s + "-" + t).ok && Evaluate(s + "-" + t).v == a - b
            && Evaluate(s + "*" + t).ok && Evaluate(s + "*" + t).v == a * b
            && (Evaluate(s + "/" + t).ok <==> b != 0) && (Evaluate(s + "%" + t).ok <==> b != 0)
            && (b != 0 ==> Divides(a, b, Evaluate(s + "/" + t).v, Evaluate(s + "%" + t).v))
  {
    hide Denotes, Decimal, Evaluate, Divides, Stands;
    var s, t := Decimal(a), Decimal(b);
    PrintedStands(a);
    PrintedStands(b);
    Operations(s, a, t, b);
    EvaluatesExactly(s + "+" + t, a + b);
    EvaluatesExactly(s + "-" + t, a - b);
    EvaluatesExactly(s + "*" + t, a * b);
    EvaluatesExactly(s + "/" + t, Evaluate(s + "/" + t).v);
    EvaluatesExactly(s + "%" + t, Evaluate(s + "%" + t).v);
    if b != 0 {
      var q, r :| Divides(a, b, q, r) && Denotes(s + "/" + t, q) && Denotes(s + "%" + t, r);
      EvaluatesExactly(s + "/" + t, q);
      EvaluatesExactly(s + "%" + t, r);
    }
  }

  // ----- what is no expression

  predicate InAlphabet(s: string) {
    forall i :: 0 <= i < |s| ==> s[i] in "0123456789 \t+-*/%()"
  }

  lemma {:induction false} FactorAlphabet(f: Factor)
    requires GoodFactor(f)
    ensures InAlphabet(FactorText(f)) && FactorText(f) != ""
  {
    match f
    case Num(ws, d) =>
    case Neg(ws, g) => FactorAlphabet(g);
    case Par(ws, e, c) => SumAlphabet(e);
  }

  lemma {:induction false} ProductAlphabet(p: Product)
    requires GoodProduct(p)
    ensures InAlphabet(ProductText(p)) && ProductText(p) != ""
  {
    match p
    case One(f) => FactorAlphabet(f);
    case More(q, ws, op, f) => ProductAlphabet(q); FactorAlphabet(f);
  }

  lemma {:induction false} SumAlphabet(e: Sum)
    requires GoodSum(e)
    ensures InAlphabet(SumText(e)) && SumText(e) != ""
  {
    match e
    case Term(t) => ProductAlphabet(t);
    case Plus(d, ws, op, t) => SumAlphabet(d); ProductAlphabet(t);
  }

  /** Every accepted text is made of digits, blanks, operators and parentheses, and is not empty. */
  lemma {:induction false} AcceptedAlphabet(s: string)
    requires Evaluate(s).ok
    ensures InAlphabet(s) && s != ""
  {
    hide SumText, GoodSum, Evaluate;
    EvaluatesExactly(s, Evaluate(s).v);
    var e: Sum, w: string :|
      GoodSum(e) && AllSpace(w) && s == SumText(e) + w && Eval(SumTree(e)) == Is(Evaluate(s).v);
    SumAlphabet(e);
  }
}
