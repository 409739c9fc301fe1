/** The parser as the source runs it, over a cursor that moves through one text, and the decimal printer. */
module Calculator {
  import opened Grammar
  import opened Evaluator

  class Parser {
    var text: string
    var pos: nat
    var ok: bool

    ghost predicate Valid()
      reads this
    {
      pos <= |text| && NUL !in text
    }

    /** The state is the text untouched and `r`, all but its value. */
    twostate predicate Reached(r: Res)
      reads this
    {
      text == old(text) && pos == r.pos && ok == r.ok && pos <= |text| && NUL !in text
    }

    constructor ()
      ensures Valid()
    {
      text, pos, ok := "", 0, true;
    }

    /** The character at the cursor, the terminator behind the last one. */
    method Peek() returns (c: char)
      requires Valid()
      ensures c == At(text, pos) && (c == NUL <==> pos == |text|)
    {
      c := if pos < |text| then text[pos] else NUL;
    }

    method SkipSpaces()
      requires Valid()
      modifies `pos
      ensures Valid() && pos == Skip(text, old(pos))
    {
      var c := Peek();
      while c == ' ' || c == '\t'
        invariant Valid() && c == At(text, pos)
        invariant Skip(text, pos) == Skip(text, old(pos))
        decreases |text| - pos
      {
        pos := pos + 1;
        c := Peek();
      }
    }

    method ReadNumber() returns (v: nat)
      requires Valid()
      modifies `pos, `ok
      ensures Reached(ParseNum(text, old(pos), old(ok))) && v == ParseNum(text, old(pos), old(ok)).v
    {
      v := 0;
      SkipSpaces();
      var digits := 0;
      var c := Peek();
      ghost var start := pos;
      while '0' <= c <= '9'
        invariant Valid() && ok == old(ok) && c == At(text, pos) && digits == pos - start
        invariant NumLoop(text, pos, v) == NumLoop(text, start, 0)
        decreases |text| - pos
      {
        v := v * 10 + (c - '0') as nat;
        pos := pos + 1;
        digits := digits + 1;
        c := Peek();
      }
      if digits == 0 {
        ok := false;
      }
    }

    method ReadFactor() returns (v: int)
      requires Valid()
      modifies `pos, `ok
      ensures Reached(ParseFactor(text, old(pos), old(ok))) && v == ParseFactor(text, old(pos), old(ok)).v
      decreases |text| - pos, 1
    {
      hide ParseSum, ParseNum, Skip;
      SkipSpaces();
      var c := Peek();
      if c == '(' {
        pos := pos + 1;
        v := ReadSum();
        SkipSpaces();
        c := Peek();
        if c != ')' {
          ok := false;
        } else {
          pos := pos + 1;
        }
      } else if c == '-' {
        pos := pos + 1;
        var w := ReadFactor();
        v := -w;
      } else {
        v := ReadNumber();
      }
    }

    method ReadProduct() returns (v: int)
      requires Valid()
      modifies `pos, `ok
      ensures Reached(ParseProduct(text, old(pos), old(ok))) && v == ParseProduct(text, old(pos), old(ok)).v
      decreases |text| - pos, 2
    {
      hide ParseFactor, ParseSum, Skip, At, Quot, Rem;
      ghost var whole := ParseProduct(text, pos, ok);
      v := ReadFactor();
      while true
        invariant Valid() && pos >= old(pos)
        invariant ProductLoop(text, pos, v, ok) == whole
        decreases |text| - pos
      {
        SkipSpaces();
        var op := Peek();
        if op != '*' && op != '/' && op != '%' {
          return;
        }
        pos := pos + 1;
        var r := ReadFactor();
        if !ok {
          return 0;
        }
        if op == '*' {
          v := v * r;
        } else if r == 0 {
          ok := false;
        } else if op == '/' {
          v := Quot(v, r);
        } else {
          v := Rem(v, r);
        }
      }
    }

    method ReadSum() returns (v: int)
      requires Valid()
      modifies `pos, `ok
      ensures Reached(ParseSum(text, old(pos), old(ok))) && v == ParseSum(text, old(pos), old(ok)).v
      decreases |text| - pos, 3
    {
      hide ParseFactor, ParseProduct, Skip, At, ProductLoop;
      ghost var whole := ParseSum(text, pos, ok);
      v := ReadProduct();
      while true
        invariant Valid() && pos >= old(pos)
        invariant SumLoop(text, pos, v, ok) == whole
        decreases |text| - pos
      {
        SkipSpaces();
        var op := Peek();
        if op != '+' && op != '-' {
          return;
        }
        pos := pos + 1;
        var r := ReadProduct();
        if !ok {
          return 0;
        }
        v := if op == '+' then v + r else v - r;
      }
    }

    /**
     * Evaluates `s`: from a raised flag, the flag stays up exactly when `s` denotes a number, and
     * that number is the result; a lowered flag is never raised.
     */
    method Eval(s: string) returns (v: int)
      requires NUL !in s
      modifies this
      ensures text == s && pos <= |s| && (ok ==> pos == |s| && old(ok))
      ensures old(ok) ==> (ok <==> exists n :: Denotes(s, n))
      ensures ok ==> Denotes(s, v)
    {
      ghost var before := ok;
      text, pos := s, 0;
      v := ReadSum();
      SkipSpaces();
      var c := Peek();
      if c != NUL {
        ok := false;
      }
      EvaluatesExactly(s, Evaluate(s).v);
      forall n | Denotes(s, n)
        ensures Evaluate(s).ok
      {
        EvaluatesExactly(s, n);
      }
      assert before ==> ok == Evaluate(s).ok && v == Evaluate(s).v;
    }
  }

  // ----- the decimal printer

  const MIN64: int := -0x8000_0000_0000_0000
  const MAX64: int := 0x7FFF_FFFF_FFFF_FFFF

  function Decimal(v: int): (t: string) {
    (if v < 0 then "-" else "") + Digits(Abs(v))
  }

  lemma {:induction false} DigitsFit(u: nat, n: nat)
    requires u < Pow10(n)
    ensures |DigitsRev(u)| <= n
    decreases n
  {
    if u > 0 {
      assert u / 10 < Pow10(n - 1);
      DigitsFit(u / 10, n - 1);
    }
  }

  lemma {:induction false} NineteenDigits()
    ensures Pow10(19) == 10_000_000_000_000_000_000
  {
    assert Pow10(5) == 100_000;
    assert Pow10(10) == 10_000_000_000;
    assert Pow10(15) == 1_000_000_000_000_000;
  }

  /** The bytes written for `v`: its decimal form and a newline; twenty characters of buffer are enough. */
  method PutDec(v: int) returns (out: string)
    requires MIN64 <= v <= MAX64
    ensures out == Decimal(v) + "\n"
  {
    var tmp := new char[20];
    var i, u := 0, 0;
    out := "";
    if v < 0 {
      out := "-";
      u := -(v + 1) + 1;
    } else {
      u := v;
    }
    i := FillDigits(tmp, u);
    while i > 0
      invariant 0 <= i <= 20
      invariant out + Reverse(tmp[..i]) == Decimal(v)
    {
      i := i - 1;
      ReverseLast(tmp[..i], tmp[i]);
      assert tmp[..i + 1] == tmp[..i] + [tmp[i]];
      out := out + [tmp[i]];
    }
    out := out + "\n";
  }

  /** The printer's first loop: the digits of `n`, lowest first, at the front of the buffer. */
  method FillDigits(tmp: array<char>, n: nat) returns (i: nat)
    requires tmp.Length == 20 && n <= MAX64 + 1
    modifies tmp
    ensures i <= 20 && Reverse(tmp[..i]) == Digits(n)
  {
    hide AllDigits, Digits, DigitsRev;
    var u: nat := n;
    i := 0;
    if u == 0 {
      tmp[i] := '0';
      i := i + 1;
      assert tmp[..1] == "0";
      DigitsAre(n, tmp[..1]);
      return;
    }
    NineteenDigits();
    DigitsFit(u, 19);
    while u != 0
      invariant i + |DigitsRev(u)| <= 19
      invariant tmp[..i] + DigitsRev(u) == DigitsRev(n)
    {
      ghost var was := tmp[..i];
      var c := ('0' as int + u % 10) as char;
      tmp[i] := c;
      i := i + 1;
      assert tmp[..i] == was + [c];
      NextDigit(was, u);
      u := u / 10;
    }
    DigitsAre(n, tmp[..i]);
  }

  lemma {:induction false} NextDigit(r: string, u: nat)
    requires u > 0
    ensures var c := ('0' as int + u % 10) as char;
            r + [c] + DigitsRev(u / 10) == r + DigitsRev(u) && |DigitsRev(u)| == 1 + |DigitsRev(u / 10)|
  {
    assert r + ([('0' as int + u % 10) as char] + DigitsRev(u / 10)) == r + DigitsRev(u);
  }

  lemma {:induction false} DigitsAre(n: nat, r: string)
    requires if n == 0 then r == "0" else r + DigitsRev(0) == DigitsRev(n)
    ensures Reverse(r) == Digits(n)
  {
    assert r + "" == r;
  }

  lemma {:induction false} ReverseLast(s: string, c: char)
    ensures Reverse(s + [c]) == [c] + Reverse(s)
    decreases |s|
  {
    if s != [] {
      ReverseLast(s[1..], c);
      assert (s + [c])[1..] == s[1..] + [c];
    } else {
      assert (s + [c])[1..] == [];
    }
  }

  /** What the printer writes for `v`, without the newline, evaluates back to `v`. */
  lemma {:induction false} PrintedEvaluates(v: int)
    ensures Evaluate(Decimal(v)).ok && Evaluate(Decimal(v)).v == v
  {
    hide Digits, FactorText, FactorTree, GoodFactor, Eval;
    var f := PrintedFactor(v);
    FactorAlone(f);
    EvaluatesText(Term(One(f)), "");
    assert Decimal(v) + "" == Decimal(v);
  }

  lemma {:induction false} PrintedFactor(v: int) returns (f: Factor)
    ensures GoodFactor(f) && FactorText(f) == Decimal(v) && Eval(FactorTree(f)) == Is(v)
  {
    hide Digits, AllDigits, DigitsValue;
    var d := Digits(Abs(v));
    DigitsRoundTrip(Abs(v));
    var n := Num("", d);
    assert FactorText(n) == d && FactorTree(n) == Lit(Abs(v));
    if v < 0 {
      f := Neg("", n);
      assert "" + ['-'] + d == "-" + d;
      assert FactorTree(f) == Minus(Lit(Abs(v)));
    } else {
      f := n;
      assert "" + d == d;
    }
  }

  lemma {:induction false} FactorAlone(f: Factor)
    requires GoodFactor(f)
    ensures var e := Term(One(f));
            GoodSum(e) && SumText(e) == FactorText(f) && SumTree(e) == FactorTree(f)
  {
    hide FactorText, FactorTree, GoodFactor;
    assert ProductText(One(f)) == FactorText(f) && GoodProduct(One(f));
  }
}
