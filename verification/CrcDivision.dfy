/**
  What a CRC is: the remainder of polynomial division over the field of two elements. A polynomial is the
  set of the exponents whose coefficient is one, so that adding is taking the symmetric difference and
  multiplying by x^n is moving every exponent up by n.
 */
module CrcDivision {
  import opened Common
  import opened Crc

  type Polynomial = set<nat>

  function Plus(a: Polynomial, b: Polynomial): Polynomial { (a - b) + (b - a) }

  function Moved(a: Polynomial, n: nat): Polynomial { set i | i in a :: i + n }

  lemma MovedAt(a: Polynomial, n: nat, x: nat)
    ensures x in Moved(a, n) <==> x >= n && x - n in a
  {
    if x >= n && x - n in a {
      var i: nat := x - n;
      assert i + n in Moved(a, n);
    }
  }

  function Shifted(a: Polynomial, n: nat): (r: Polynomial)
    ensures forall x :: x in r <==> x >= n && x - n in a
  {
    assert forall x: nat :: x in Moved(a, n) <==> x >= n && x - n in a by {
      forall x: nat ensures x in Moved(a, n) <==> x >= n && x - n in a { MovedAt(a, n, x); }
    }
    Moved(a, n)
  }

  /** The polynomial whose coefficients are given from the highest to the lowest. */
  function OfBits(bits: seq<bool>): Polynomial { set i: nat | i < |bits| && Reverse<bool>(bits)[i] }

  /** The product of a polynomial, given by its coefficients from the highest on, and another (Horner's rule). */
  function Times(q: seq<bool>, p: Polynomial): Polynomial {
    if q == [] then {}
    else Plus(Shifted(Times(q[..|q| - 1], p), 1), if q[|q| - 1] then p else {})
  }

  predicate Below(a: Polynomial, n: nat) { forall i :: i in a ==> i < n }

  // ---------- the ring ----------

  lemma PlusRules(a: Polynomial, b: Polynomial, c: Polynomial)
    ensures Plus(a, b) == Plus(b, a) && Plus(Plus(a, b), c) == Plus(a, Plus(b, c))
    ensures Plus(a, {}) == a && Plus(a, a) == {}
  {
  }

  lemma ShiftRules(a: Polynomial, b: Polynomial, m: nat, n: nat)
    ensures Shifted(Plus(a, b), n) == Plus(Shifted(a, n), Shifted(b, n))
    ensures Shifted(Shifted(a, m), n) == Shifted(a, m + n)
    ensures Shifted({}, n) == {} && Shifted(a, 0) == a
  {
    assert forall x :: x in Shifted(Shifted(a, m), n) <==> x in Shifted(a, m + n);
    assert forall x :: x in Shifted(Plus(a, b), n) <==> x in Plus(Shifted(a, n), Shifted(b, n));
  }

  /** Four summands in another order. */
  lemma Regroup(a: Polynomial, b: Polynomial, c: Polynomial, d: Polynomial)
    ensures Plus(Plus(a, b), Plus(c, d)) == Plus(Plus(a, c), Plus(b, d))
  {
  }

  lemma {:induction false} TimesAppend(a: seq<bool>, b: seq<bool>, p: Polynomial)
    ensures Times(a + b, p) == Plus(Shifted(Times(a, p), |b|), Times(b, p))
    decreases |b|
  {
    hide Shifted, Plus;
    if b == [] {
      assert a + b == a;
      ShiftRules(Times(a, p), {}, 0, 0);
      PlusRules(Times(a, p), {}, {});
    } else {
      var front, last := b[..|b| - 1], if b[|b| - 1] then p else {};
      var x, y := Shifted(Times(a, p), |front|), Times(front, p);
      TimesAppend(a, front, p);
      assert (a + b)[..|a + b| - 1] == a + front;
      ShiftRules(x, y, 0, 1);
      ShiftRules(Times(a, p), {}, |front|, 1);
      PlusRules(Shifted(x, 1), Shifted(y, 1), last);
    }
  }

  /** Multiplying by one: the coefficients from the highest on are the polynomial. */
  lemma {:induction false} TimesOne(q: seq<bool>)
    ensures Times(q, {0}) == OfBits(q)
  {
    if q != [] {
      var front := q[..|q| - 1];
      TimesOne(front);
      forall x ensures x in Times(q, {0}) <==> x in OfBits(q) {
        if x > 0 { assert x in Shifted(OfBits(front), 1) <==> x - 1 in OfBits(front); }
      }
    }
  }

  lemma BitsAppend(a: seq<bool>, b: seq<bool>)
    ensures OfBits(a + b) == Plus(Shifted(OfBits(a), |b|), OfBits(b))
  {
    forall x ensures x in OfBits(a + b) <==> x in Plus(Shifted(OfBits(a), |b|), OfBits(b)) {
      assert x >= |b| ==> (x in Shifted(OfBits(a), |b|) <==> x - |b| in OfBits(a));
    }
  }

  // ---------- one bit, one byte, a message ----------

  /** The low bits of a word, bit i the coefficient of x^i. */
  function Low(s: Word, width: nat): Polynomial
    requires width <= 64
  {
    set i: nat | i < width && s[i]
  }

  /** The generator: x^width and the model's polynomial. */
  function Generator(m: Model): Polynomial
    requires m.Valid()
  {
    Low(m.polynomial, m.width) + {m.width}
  }

  /** One step multiplies by x and takes away the generator when that makes the degree too high. */
  lemma StepDivides(s: Word, m: Model)
    requires m.Valid() && !m.refin
    ensures Low(Step(s, m), m.width) ==
            Plus(Shifted(Low(s, m.width), 1), if s[m.width - 1] then Generator(m) else {})
  {
    var w := m.width;
    var after, sum := Step(s, m), Plus(Shifted(Low(s, w), 1), if s[w - 1] then Generator(m) else {});
    forall x ensures x in Low(after, w) <==> x in sum {
      assert x in Shifted(Low(s, w), 1) <==> 1 <= x <= w && s[x - 1];
    }
  }

  lemma {:induction false} StepsDivide(s: Word, m: Model, n: nat) returns (q: seq<bool>)
    requires m.Valid() && !m.refin
    ensures |q| == n
    ensures Low(Steps(s, m, n), m.width) == Plus(Shifted(Low(s, m.width), n), Times(q, Generator(m)))
    decreases n
  {
    hide Step, Shifted, Plus, Low, Generator;
    var a, p := Low(s, m.width), Generator(m);
    if n == 0 {
      q := [];
      ShiftRules(a, {}, 0, 0);
      PlusRules(a, {}, {});
    } else {
      var t := s[m.width - 1];
      var first := if t then p else {};
      var rest := StepsDivide(Step(s, m), m, n - 1);
      q := [t] + rest;
      StepDivides(s, m);
      ShiftRules(Shifted(a, 1), first, 0, n - 1);
      ShiftRules(a, {}, 1, n - 1);
      TimesFirst(t, rest, p);
      PlusRules(Shifted(a, n), Shifted(first, n - 1), Times(rest, p));
    }
  }

  lemma TimesFirst(t: bool, rest: seq<bool>, p: Polynomial)
    ensures Times([t] + rest, p) == Plus(Shifted(if t then p else {}, |rest|), Times(rest, p))
  {
    hide Shifted, Plus;
    TimesAppend([t], rest, p);
    assert [t][..0] == [];
    ShiftRules({}, {}, 0, 1);
    PlusRules(if t then p else {}, {}, {});
    PlusRules({}, if t then p else {}, {});
  }

  lemma XorAdds(s: Word, b: Octet, width: nat)
    requires 8 <= width <= 64
    ensures Low(Xor(s, Placed(b, width - 8)), width) == Plus(Low(s, width), Shifted(OfBits(Mirror(b)), width - 8))
  {
    var sum := Plus(Low(s, width), Shifted(OfBits(Mirror(b)), width - 8));
    forall x ensures x in Low(Xor(s, Placed(b, width - 8)), width) <==> x in sum {
      assert x >= width - 8 ==>
          (x in Shifted(OfBits(Mirror(b)), width - 8) <==> x - (width - 8) in OfBits(Mirror(b)));
    }
  }

  lemma MaskKeeps(s: Word, width: nat)
    requires width <= 64
    ensures Low(Masked(s, width), width) == Low(s, width)
  {
  }

  lemma ByteDivides(s: Word, m: Model, b: Octet) returns (q: seq<bool>)
    requires m.Valid() && !m.refin
    ensures |q| == 8
    ensures Low(ByteStep(s, m, b), m.width) ==
            Plus(Plus(Shifted(Low(s, m.width), 8), Shifted(OfBits(Mirror(b)), m.width)), Times(q, Generator(m)))
  {
    hide Steps, Shifted, Plus, Low, OfBits, Times, Generator, Xor, Placed, Masked, Mirror;
    var w := m.width;
    var x := Xor(s, Placed(b, w - 8));
    q := StepsDivide(x, m, 8);
    MaskKeeps(Steps(x, m, 8), w);
    XorAdds(s, b, w);
    ShiftRules(Low(s, w), Shifted(OfBits(Mirror(b)), w - 8), 0, 8);
    ShiftRules(OfBits(Mirror(b)), {}, w - 8, 8);
  }

  /** The bits of a message, most significant bit of each byte first. */
  function MessageBits(bytes: seq<Octet>): (bits: seq<bool>)
    ensures |bits| == 8 * |bytes|
  {
    if bytes == [] then [] else Mirror(bytes[0]) + MessageBits(bytes[1..])
  }

  lemma {:induction false} UpdateDivides(s: Word, m: Model, bytes: seq<Octet>) returns (q: seq<bool>)
    requires m.Valid() && !m.refin
    ensures |q| == 8 * |bytes|
    ensures Low(Updated(s, m, bytes), m.width) ==
            Plus(Plus(Shifted(Low(s, m.width), 8 * |bytes|), Shifted(OfBits(MessageBits(bytes)), m.width)),
                 Times(q, Generator(m)))
    decreases |bytes|
  {
    hide ByteStep, Shifted, Plus, Low, OfBits, Times, Generator, Mirror;
    var w, a := m.width, Low(s, m.width);
    if bytes == [] {
      q := [];
      NoMessage(a, w, Generator(m));
    } else {
      var n := 8 * (|bytes| - 1);
      var first := ByteDivides(s, m, bytes[0]);
      var rest := UpdateDivides(ByteStep(s, m, bytes[0]), m, bytes[1..]);
      q := first + rest;
      TimesAppend(first, rest, Generator(m));
      BitsAppend(Mirror(bytes[0]), MessageBits(bytes[1..]));
      Combine(a, OfBits(Mirror(bytes[0])), Times(first, Generator(m)), OfBits(MessageBits(bytes[1..])),
              Times(rest, Generator(m)), w, n);
    }
  }

  lemma NoMessage(a: Polynomial, w: nat, p: Polynomial)
    ensures Plus(Plus(Shifted(a, 0), Shifted(OfBits([]), w)), Times([], p)) == a
  {
    assert OfBits([]) == {};
    ShiftRules(a, {}, 0, w);
  }

  /** The first byte and the rest: (a x^8 + b x^w + f) x^n + r x^w + g, sorted by what is multiplied. */
  lemma Combine(a: Polynomial, b: Polynomial, f: Polynomial, r: Polynomial, g: Polynomial, w: nat, n: nat)
    ensures Plus(Plus(Shifted(Plus(Plus(Shifted(a, 8), Shifted(b, w)), f), n), Shifted(r, w)), g)
            == Plus(Plus(Shifted(a, 8 + n), Shifted(Plus(Shifted(b, n), r), w)), Plus(Shifted(f, n), g))
  {
    var x, y := Shifted(a, 8 + n), Shifted(b, w + n);
    assert Shifted(Plus(Plus(Shifted(a, 8), Shifted(b, w)), f), n) == Plus(Plus(x, y), Shifted(f, n)) by {
      ShiftRules(Plus(Shifted(a, 8), Shifted(b, w)), f, 0, n);
      ShiftRules(Shifted(a, 8), Shifted(b, w), 0, n);
      ShiftRules(a, b, 8, n);
      ShiftRules(b, a, w, n);
    }
    assert Shifted(Plus(Shifted(b, n), r), w) == Plus(y, Shifted(r, w)) by {
      ShiftRules(Shifted(b, n), r, 0, w);
      ShiftRules(b, r, n, w);
    }
    hide Shifted;
    SortSum(x, y, Shifted(f, n), Shifted(r, w), g);
  }

  lemma SortSum(x: Polynomial, y: Polynomial, f: Polynomial, r: Polynomial, g: Polynomial)
    ensures Plus(Plus(Plus(Plus(x, y), f), r), g) == Plus(Plus(x, Plus(y, r)), Plus(f, g))
  {
  }

  // ---------- the theorem ----------

  /** The register as a polynomial: the reflected loop keeps the highest coefficient in bit zero. */
  function Register(s: Word, m: Model): Polynomial
    requires m.Valid()
  {
    Low(if m.refin then Reflected(s, m.width) else s, m.width)
  }

  /** The message as a polynomial: the reflected loop takes the least significant bit of each byte first. */
  function Message(bytes: seq<Octet>, m: Model): Polynomial {
    OfBits(MessageBits(if m.refin then MirrorAll(bytes) else bytes))
  }

  /** Dividing `a` by `p` with this quotient leaves the remainder. */
  predicate Divides(a: Polynomial, p: Polynomial, q: seq<bool>, remainder: Polynomial) {
    a == Plus(Times(q, p), remainder)
  }

  /**
    For every model, state and message: the register, multiplied by x^(8n) for a message of n bytes, plus the
    message multiplied by x^width, leaves the updated register when divided by the generator.
   */
  lemma RegisterIsRemainder(s: Word, m: Model, bytes: seq<Octet>)
    requires m.Valid() && s == Masked(s, m.width)
    ensures Below(Register(Updated(s, m, bytes), m), m.width)
    ensures exists q ::
              Divides(Plus(Shifted(Register(s, m), 8 * |bytes|), Shifted(Message(bytes, m), m.width)), Generator(m), q,
                      Register(Updated(s, m, bytes), m))
  {
    hide Updated, Shifted, Plus, OfBits, Times, Generator, MessageBits;
    var w := m.width;
    if m.refin {
      var r, left := Reflected(s, w), Left(m);
      ReflectedTwice(s, w);
      Duality(r, s, m, MirrorAll(bytes));
      MirrorTwice(bytes);
      assert Right(m) == m;
      UpdatedReflected(s, m, bytes);
      Generated(m);
      var q := UpdateDivides(r, left, MirrorAll(bytes));
      Turn(Plus(Shifted(Low(r, w), 8 * |bytes|), Shifted(OfBits(MessageBits(MirrorAll(bytes))), w)),
           Times(q, Generator(m)));
      assert Divides(Plus(Shifted(Register(s, m), 8 * |bytes|), Shifted(Message(bytes, m), w)), Generator(m), q,
                     Register(Updated(s, m, bytes), m));
    } else {
      var q := UpdateDivides(s, m, bytes);
      Turn(Plus(Shifted(Low(s, w), 8 * |bytes|), Shifted(OfBits(MessageBits(bytes)), w)), Times(q, Generator(m)));
      assert Divides(Plus(Shifted(Register(s, m), 8 * |bytes|), Shifted(Message(bytes, m), w)), Generator(m), q,
                     Register(Updated(s, m, bytes), m));
    }
  }

  /** Subtracting is adding. */
  lemma Turn(a: Polynomial, b: Polynomial)
    ensures a == Plus(b, Plus(a, b))
  {
  }

  lemma ReflectedTwice(s: Word, w: nat)
    requires w <= 64
    ensures Reflected(Reflected(s, w), w) == Masked(s, w)
  {
  }

  lemma MirrorTwice(bytes: seq<Octet>)
    ensures MirrorAll(MirrorAll(bytes)) == bytes
  {
    forall i | 0 <= i < |bytes| ensures Mirror(Mirror(bytes[i])) == bytes[i] {
    }
  }

  lemma Generated(m: Model)
    requires m.Valid()
    ensures Generator(Left(m)) == Generator(m)
  {
  }

  /** The reflected register, read as a polynomial, is that of the other loop on mirrored bytes. */
  lemma UpdatedReflected(s: Word, m: Model, bytes: seq<Octet>)
    requires m.Valid() && m.refin && s == Masked(s, m.width)
    ensures Register(Updated(s, m, bytes), m) ==
            Low(Updated(Reflected(s, m.width), Left(m), MirrorAll(bytes)), m.width)
  {
    hide Updated;
    var w, r := m.width, Reflected(s, m.width);
    ReflectedTwice(s, w);
    Duality(r, s, m, MirrorAll(bytes));
    MirrorTwice(bytes);
    assert Right(m) == m;
    var t := Updated(r, Left(m), MirrorAll(bytes));
    ReflectedTwice(t, w);
    MaskKeeps(t, w);
  }

  // ---------- there is one remainder ----------

  lemma {:induction false} ProductBelow(q: seq<bool>, p: Polynomial, w: nat)
    requires Below(p, w + 1)
    ensures Below(Times(q, p), |q| + w)
  {
    if q != [] {
      ProductBelow(q[..|q| - 1], p, w);
    }
  }

  lemma LeadingTerm(rest: seq<bool>, p: Polynomial, w: nat)
    requires Below(p, w + 1) && w in p
    ensures w + |rest| in Plus(Shifted(p, |rest|), Times(rest, p))
  {
    ProductBelow(rest, p, w);
    assert w + |rest| in Shifted(p, |rest|);
  }

  /** A nonzero multiple of the generator has degree at least its own. */
  lemma {:induction false} MultipleIsHigh(q: seq<bool>, p: Polynomial, w: nat)
    requires Below(p, w + 1) && w in p && Below(Times(q, p), w)
    ensures Times(q, p) == {}
    decreases |q|
  {
    if q != [] {
      var rest := q[1..];
      assert q == [q[0]] + rest;
      TimesFirst(q[0], rest, p);
      LeadingTerm(rest, p, w);
      if !q[0] {
        ShiftRules({}, {}, 0, |rest|);
        PlusRules({}, Times(rest, p), {});
        PlusRules(Times(rest, p), {}, {});
        MultipleIsHigh(rest, p, w);
      }
    }
  }

  function XorBits(a: seq<bool>, b: seq<bool>): (r: seq<bool>)
    requires |a| == |b|
    ensures |r| == |a|
  {
    seq(|a|, i requires 0 <= i < |a| => a[i] != b[i])
  }

  lemma {:induction false} TimesXor(a: seq<bool>, b: seq<bool>, p: Polynomial)
    requires |a| == |b|
    ensures Times(XorBits(a, b), p) == Plus(Times(a, p), Times(b, p))
  {
    hide Shifted, Plus;
    if a == [] {
      PlusRules({}, {}, {});
    } else {
      var x, y := a[..|a| - 1], b[..|b| - 1];
      var u, v := if a[|a| - 1] then p else {}, if b[|b| - 1] then p else {};
      TimesXor(x, y, p);
      assert XorBits(a, b)[..|a| - 1] == XorBits(x, y);
      ShiftRules(Times(x, p), Times(y, p), 0, 1);
      Regroup(Shifted(Times(x, p), 1), Shifted(Times(y, p), 1), u, v);
      PlusRules(p, {}, {});
      PlusRules({}, p, {});
      PlusRules({}, {}, {});
    }
  }

  lemma {:induction false} LeadingZeros(q: seq<bool>, n: nat, p: Polynomial)
    ensures Times(Repeat(false, n) + q, p) == Times(q, p)
    decreases n
  {
    hide Shifted, Plus;
    if n == 0 {
      assert Repeat(false, 0) + q == q;
    } else {
      var rest := Repeat(false, n - 1) + q;
      LeadingZeros(q, n - 1, p);
      assert Repeat(false, n) + q == [false] + rest;
      TimesFirst(false, rest, p);
      ShiftRules({}, {}, 0, |rest|);
      PlusRules({}, Times(rest, p), {});
      PlusRules(Times(rest, p), {}, {});
    }
  }

  /** A polynomial has one remainder of degree below the divisor's. */
  lemma RemainderIsUnique(a: Polynomial, p: Polynomial, w: nat, q: seq<bool>, r: Polynomial, q': seq<bool>,
        r': Polynomial)
    requires Below(p, w + 1) && w in p && Below(r, w) && Below(r', w)
    requires Divides(a, p, q, r) && Divides(a, p, q', r')
    ensures r == r'
  {
    var x, y := Repeat(false, |q'|) + q, Repeat(false, |q|) + q';
    LeadingZeros(q, |q'|, p);
    LeadingZeros(q', |q|, p);
    TimesXor(x, y, p);
    hide Times;
    SameSum(Times(x, p), r, Times(y, p), r');
    assert Below(Times(XorBits(x, y), p), w);
    MultipleIsHigh(XorBits(x, y), p, w);
  }

  lemma SameSum(a: Polynomial, r: Polynomial, b: Polynomial, r': Polynomial)
    requires Plus(a, r) == Plus(b, r')
    ensures Plus(a, b) == Plus(r, r') && (Plus(a, b) == {} ==> r == r')
  {
    assert Plus(a, b) == Plus(Plus(Plus(a, r), r), b);
    forall x ensures x in Plus(a, b) <==> x in Plus(r, r') {
      assert x in Plus(a, r) <==> x in Plus(b, r');
    }
  }
}
