// Finite sums of real terms, discount factors and the monotonicity facts the pension engine rests on.
module Sumas {

  // Sum of f(m) for desde <= m < hasta; an empty slice sums to 0, as numpy's does.
  function Suma(f: nat -> real, desde: nat, hasta: nat): real
    decreases hasta
  {
    if hasta <= desde then 0.0 else Suma(f, desde, hasta - 1) + f(hasta - 1)
  }

  lemma {:induction false} SumaMonotona(f: nat -> real, h: nat -> real, desde: nat, hasta: nat)
    requires forall m: nat | desde <= m < hasta :: f(m) <= h(m)
    ensures Suma(f, desde, hasta) <= Suma(h, desde, hasta)
    decreases hasta
  {
    if desde < hasta {
      SumaMonotona(f, h, desde, hasta - 1);
    }
  }

  lemma {:induction false} SumaIgual(f: nat -> real, h: nat -> real, desde: nat, hasta: nat)
    requires forall m: nat | desde <= m < hasta :: f(m) == h(m)
    ensures Suma(f, desde, hasta) == Suma(h, desde, hasta)
    decreases hasta
  {
    if desde < hasta {
      SumaIgual(f, h, desde, hasta - 1);
    }
  }

  lemma {:induction false} SumaNoNegativa(f: nat -> real, desde: nat, hasta: nat)
    requires forall m: nat | desde <= m < hasta :: 0.0 <= f(m)
    ensures 0.0 <= Suma(f, desde, hasta)
    decreases hasta
  {
    if desde < hasta {
      SumaNoNegativa(f, desde, hasta - 1);
    }
  }

  // Of two sums, one pointwise below the other, equality means equality of every term.
  lemma {:induction false} SumasIguales(f: nat -> real, h: nat -> real, desde: nat, hasta: nat)
    requires forall m: nat | desde <= m < hasta :: f(m) <= h(m)
    ensures Suma(f, desde, hasta) == Suma(h, desde, hasta) <==> forall m: nat | desde <= m < hasta :: f(m) == h(m)
    decreases hasta
  {
    if desde < hasta {
      SumaMonotona(f, h, desde, hasta - 1);
      SumasIguales(f, h, desde, hasta - 1);
    }
  }

  lemma {:induction false} SumaNula(f: nat -> real, desde: nat, hasta: nat)
    requires forall m: nat | desde <= m < hasta :: f(m) == 0.0
    ensures Suma(f, desde, hasta) == 0.0
    decreases hasta
  {
    if desde < hasta {
      SumaNula(f, desde, hasta - 1);
    }
  }

  lemma {:induction false} SumaDiferencia(f: nat -> real, h: nat -> real, d: nat -> real, desde: nat, hasta: nat)
    requires forall m: nat | desde <= m < hasta :: f(m) - h(m) == d(m)
    ensures Suma(f, desde, hasta) - Suma(h, desde, hasta) == Suma(d, desde, hasta)
    decreases hasta
  {
    if desde < hasta {
      SumaDiferencia(f, h, d, desde, hasta - 1);
    }
  }

  lemma {:induction false} SumaPartida(f: nat -> real, desde: nat, medio: nat, hasta: nat)
    requires desde <= medio <= hasta
    ensures Suma(f, desde, hasta) == Suma(f, desde, medio) + Suma(f, medio, hasta)
    decreases hasta
  {
    if medio < hasta {
      SumaPartida(f, desde, medio, hasta - 1);
    }
  }

  // g^-m, the monthly discount factor.
  function Desc(g: real, m: nat): (d: real)
    requires g > 0.0
    ensures d > 0.0
  {
    if m == 0 then 1.0 else Desc(g, m - 1) / g
  }

  lemma {:induction false} DescDecrece(g: real, m: nat, n: nat)
    requires g >= 1.0 && m <= n
    ensures Desc(g, n) <= Desc(g, m) <= 1.0
    decreases n
  {
    if m < n {
      DescDecrece(g, m, n - 1);
      CocienteMenor(Desc(g, n - 1), g);
    } else if n > 0 {
      DescDecrece(g, m - 1, n - 1);
      CocienteMenor(Desc(g, n - 1), g);
    }
  }

  lemma CocienteMenor(a: real, g: real)
    requires a >= 0.0 && g >= 1.0
    ensures 0.0 <= a / g <= a
  {
    var c := a / g;
    assert c * g == a;
    assert c >= 0.0;
    Producto(1.0, g, c);
  }

  lemma Producto(a: real, b: real, c: real)
    requires a <= b && 0.0 <= c
    ensures a * c <= b * c && c * a <= c * b
  {
  }

  lemma ProductoUnidad(a: real, b: real)
    requires 0.0 <= a <= 1.0 && 0.0 <= b <= 1.0
    ensures 0.0 <= a * b <= a && a * b <= b
  {
  }

  // The quotient order, by cross multiplication.
  lemma Cruz(a: real, b: real, c: real, d: real)
    requires b > 0.0 && d > 0.0
    ensures a / b <= c / d <==> a * d <= c * b
  {
    var x, y := a / b, c / d;
    assert a == x * b && c == y * d;
    assert a * d == x * (b * d) && c * b == y * (b * d);
    assert b * d > 0.0;
    if x <= y { assert x * (b * d) <= y * (b * d); }
    if x > y { assert x * (b * d) > y * (b * d); }
  }

  // ------------------------------------------------------------------ products

  // Product of f(0), ..., f(n - 1).
  function Prod(f: nat -> real, n: nat): real {
    if n == 0 then 1.0 else Prod(f, n - 1) * f(n - 1)
  }

  lemma {:induction false} ProdMonotono(f: nat -> real, h: nat -> real, n: nat)
    requires forall i: nat | i < n :: 0.0 <= f(i) <= h(i)
    ensures 0.0 <= Prod(f, n) <= Prod(h, n)
  {
    if n > 0 {
      ProdMonotono(f, h, n - 1);
      ProductosOrdenados(Prod(f, n), Prod(h, n), Prod(f, n - 1), Prod(h, n - 1), f(n - 1), h(n - 1));
    }
  }

  lemma ProductosOrdenados(p: real, q: real, a: real, b: real, x: real, y: real)
    requires p == a * x && q == b * y && 0.0 <= a <= b && 0.0 <= x <= y
    ensures 0.0 <= p <= q
  {
    Producto(0.0, a, x);
    Producto(x, y, a);
    Producto(a, b, y);
  }

  lemma {:induction false} ProdEntre(f: nat -> real, n: nat)
    requires forall i: nat | i < n :: 0.0 <= f(i) <= 1.0
    ensures 0.0 <= Prod(f, n) <= 1.0
  {
    if n > 0 {
      ProdEntre(f, n - 1);
      ProductoUnidad(Prod(f, n - 1), f(n - 1));
    }
  }

  // A product splits at k when h continues f from k on.
  lemma {:induction false} ProdPartido(f: nat -> real, h: nat -> real, k: nat, n: nat)
    requires forall i: nat | i < n :: f(k + i) == h(i)
    ensures Prod(f, k + n) == Prod(f, k) * Prod(h, n)
    decreases n
  {
    if n > 0 {
      ProdPartido(f, h, k, n - 1);
      assert f(k + (n - 1)) == h(n - 1);
      assert Prod(f, k + n) == Prod(f, k + n - 1) * f(k + n - 1);
      assert Prod(f, k) * Prod(h, n - 1) * h(n - 1) == Prod(f, k) * (Prod(h, n - 1) * h(n - 1));
    }
  }

  lemma {:induction false} ProdNulo(f: nat -> real, i: nat, n: nat)
    requires i < n && f(i) == 0.0
    ensures Prod(f, n) == 0.0
    decreases n
  {
    if i < n - 1 {
      ProdNulo(f, i, n - 1);
    }
  }

  // ------------------------------------------------------------------ summation by parts

  // Discounted survivals and discounted deaths of a curve s.
  function Vivos(g: real, s: nat -> real): nat -> real
    requires g > 0.0
  {
    (m: nat) => Desc(g, m) * s(m)
  }

  function Muerte(g: real, s: nat -> real, m: nat): real
    requires g > 0.0
  {
    (s(m) - s(m + 1)) * Desc(g, m)
  }

  function Muertes(g: real, s: nat -> real): nat -> real
    requires g > 0.0
  {
    (m: nat) => Muerte(g, s, m)
  }

  // Abel summation over the months k <= m < n.
  lemma {:induction false} Abel(g: real, s: nat -> real, k: nat, n: nat)
    requires g > 0.0 && k <= n
    ensures Suma(Muertes(g, s), k, n) ==
            g * (s(k) * Desc(g, k) - s(n) * Desc(g, n)) - (g - 1.0) * Suma(Vivos(g, s), k, n)
    decreases n
  {
    hide Suma, Vivos, Muertes, Desc;
    SumaPaso(Muertes(g, s), k, n);
    SumaPaso(Vivos(g, s), k, n);
    if k < n {
      Abel(g, s, k, n - 1);
      TerminosEn(g, s, n - 1);
      DescPaso(g, n - 1);
      var x, y, d, d' := s(n - 1), s(n), Desc(g, n - 1), Desc(g, n);
      PasoAbel(g, x, y, d, d', s(k) * Desc(g, k), Suma(Vivos(g, s), k, n - 1));
    }
  }

  lemma SumaPaso(f: nat -> real, k: nat, n: nat)
    ensures k < n ==> Suma(f, k, n) == Suma(f, k, n - 1) + f(n - 1)
    ensures n <= k ==> Suma(f, k, n) == 0.0
  {
  }

  lemma TerminosEn(g: real, s: nat -> real, m: nat)
    requires g > 0.0
    ensures Vivos(g, s)(m) == Desc(g, m) * s(m)
    ensures Muertes(g, s)(m) == (s(m) - s(m + 1)) * Desc(g, m)
  {
    hide Desc;
  }

  // One month more of both sums.
  lemma SumasPaso(g: real, s: nat -> real, k: nat, n: nat)
    requires g > 0.0 && k <= n
    ensures Suma(Vivos(g, s), k, n + 1) == Suma(Vivos(g, s), k, n) + Desc(g, n) * s(n)
    ensures Suma(Muertes(g, s), k, n + 1) == Suma(Muertes(g, s), k, n) + (s(n) - s(n + 1)) * Desc(g, n)
  {
    hide Suma, Vivos, Muertes, Desc;
    SumaPaso(Vivos(g, s), k, n + 1);
    SumaPaso(Muertes(g, s), k, n + 1);
    TerminosEn(g, s, n);
  }

  lemma DescPaso(g: real, m: nat)
    requires g > 0.0
    ensures Desc(g, m + 1) == Desc(g, m) / g
  {
  }

  lemma PasoAbel(g: real, x: real, y: real, d: real, d': real, inicio: real, v: real)
    requires g > 0.0 && d' == d / g
    ensures g * (inicio - x * d) - (g - 1.0) * v + (x - y) * d == g * (inicio - y * d') - (g - 1.0) * (v + d * x)
  {
    assert g * d' == d;
    assert g * (y * d') == y * (g * d') == y * d;
  }
}
