// The in-memory request limiter: per client, a queue of the accepted requests still inside the window.
module Limitador {

  // How many instants of h are later than desde.
  function Contar(h: seq<real>, desde: real): (n: nat)
    ensures n <= |h|
  {
    if h == [] then 0 else Contar(h[..|h| - 1], desde) + (if h[|h| - 1] > desde then 1 else 0)
  }

  // How many instants of h lie in (desde, hasta].
  function EnVentana(h: seq<real>, desde: real, hasta: real): nat {
    if h == [] then 0
    else EnVentana(h[..|h| - 1], desde, hasta) + (if desde < h[|h| - 1] <= hasta then 1 else 0)
  }

  ghost predicate Ordenada(h: seq<real>) { forall i, j | 0 <= i < j < |h| :: h[i] <= h[j] }

  // When each request of h was accepted, fewer than tope earlier ones were inside the window.
  ghost predicate Limitada(h: seq<real>, tope: int, ventana: real) {
    forall i | 0 <= i < |h| :: Contar(h[..i], h[i] - ventana) < tope
  }

  // The queue is what is left of the full history after dropping instants at or before a limit.
  ghost predicate Podada(cola: seq<real>, h: seq<real>, limite: real) {
    |cola| <= |h| && cola == h[|h| - |cola|..] && forall i | 0 <= i < |h| - |cola| :: h[i] <= limite
  }

  // What holds of one client at time reloj: cola is his queue, h all his accepted requests.
  ghost predicate Fiel(cola: seq<real>, h: seq<real>, tope: int, ventana: real, reloj: real) {
    && Ordenada(h) && (forall i | 0 <= i < |h| :: h[i] <= reloj)
    && Limitada(h, tope, ventana) && Podada(cola, h, reloj - ventana)
  }

  function De(m: map<string, seq<real>>, k: string): seq<real> { if k in m then m[k] else [] }

  class InMemoryRateLimiter {
    const maxRequests: int
    const windowSeconds: int
    var attempts: map<string, seq<real>>
    // Every accepted request of each client, and the last reading of the clock.
    ghost var historia: map<string, seq<real>>
    ghost var reloj: real

    ghost predicate Valid()
      reads this
    {
      forall k: string :: Fiel(De(attempts, k), De(historia, k), maxRequests, windowSeconds as real, reloj)
    }

    constructor (maxRequests: int, windowSeconds: int, now: real)
      ensures Valid() && this.maxRequests == maxRequests && this.windowSeconds == windowSeconds
      ensures historia == map[] && reloj == now
    {
      this.maxRequests, this.windowSeconds := maxRequests, windowSeconds;
      attempts, historia, reloj := map[], map[], now;
    }

    // The pruned queue decides exactly as counting over the whole history would; a refusal leaves no trace in it.
    method Allow(clientKey: string, now: real) returns (ok: bool)
      requires Valid() && reloj <= now
      modifies this
      ensures Valid() && reloj == now
      ensures ok <==> Contar(De(old(historia), clientKey), now - windowSeconds as real) < maxRequests
      ensures ok <==> |Dentro(De(old(historia), clientKey), now - windowSeconds as real, now)| < maxRequests
      ensures De(historia, clientKey) == De(old(historia), clientKey) + if ok then [now] else []
      ensures forall k | k != clientKey ::
                De(historia, k) == De(old(historia), k) && De(attempts, k) == De(old(attempts), k)
      ensures |De(attempts, clientKey)|
              == Contar(De(old(historia), clientKey), now - windowSeconds as real) + if ok then 1 else 0
    {
      hide Fiel, Podada, Contar, Dentro;
      ghost var w, h := windowSeconds as real, De(historia, clientKey);
      FielHasta(De(attempts, clientKey), h, maxRequests, w, reloj, now);
      forall k: string ensures Fiel(De(attempts, k), De(historia, k), maxRequests, w, now) {
        FielDespues(De(attempts, k), De(historia, k), maxRequests, w, reloj, now);
      }
      var windowStart := now - windowSeconds as real;
      var cola := De(attempts, clientKey);
      while cola != [] && cola[0] <= windowStart
        invariant Fiel(cola, h, maxRequests, w, now)
        modifies {}
        decreases |cola|
      {
        FielSinPrimero(cola, h, maxRequests, w, now);
        cola := cola[1..];
      }
      FielCuenta(cola, h, maxRequests, w, now);
      if |cola| >= maxRequests {
        attempts, reloj := attempts[clientKey := cola], now;
        assert h + [] == h;
        return false;
      }
      FielAcepta(cola, h, maxRequests, w, now);
      attempts := attempts[clientKey := cola + [now]];
      historia, reloj := historia[clientKey := h + [now]], now;
      ok := true;
      forall k: string ensures Fiel(De(attempts, k), De(historia, k), maxRequests, w, now) {
        if k != clientKey { assert De(attempts, k) == De(old(attempts), k) && De(historia, k) == De(old(historia), k); }
      }
    }
  }

  // In every reachable state and for every instant t, past or future, (t - W, t] holds at most the limit.
  lemma VentanaSiempre(r: InMemoryRateLimiter, clientKey: string, t: real)
    requires r.Valid()
    ensures EnVentana(De(r.historia, clientKey), t - r.windowSeconds as real, t)
            <= if r.maxRequests > 0 then r.maxRequests else 0
  {
    assert Fiel(De(r.attempts, clientKey), De(r.historia, clientKey), r.maxRequests, r.windowSeconds as real, r.reloj);
    VentanaAcotada(De(r.historia, clientKey), r.maxRequests, r.windowSeconds as real, t);
  }

  // The indices of the requests accepted in (desde, hasta].
  ghost function Dentro(h: seq<real>, desde: real, hasta: real): set<nat> {
    set i: nat | i < |h| && desde < h[i] <= hasta
  }

  lemma {:induction false} CuantosDentro(h: seq<real>, desde: real, hasta: real)
    ensures |Dentro(h, desde, hasta)| == EnVentana(h, desde, hasta)
  {
    if h != [] {
      var n := |h| - 1;
      CuantosDentro(h[..n], desde, hasta);
      var antes := Dentro(h[..n], desde, hasta);
      assert n !in antes;
      assert Dentro(h, desde, hasta) == antes + if desde < h[n] <= hasta then {n} else {};
    }
  }

  lemma CuentaEsDentro(h: seq<real>, desde: real, hasta: real)
    requires forall i | 0 <= i < |h| :: h[i] <= hasta
    ensures Contar(h, desde) == |Dentro(h, desde, hasta)|
  {
    CuantosDentro(h, desde, hasta);
    ContarHasta(h, desde, hasta);
  }

  lemma {:induction false} ContarHasta(h: seq<real>, desde: real, hasta: real)
    requires forall i | 0 <= i < |h| :: h[i] <= hasta
    ensures Contar(h, desde) == EnVentana(h, desde, hasta)
  {
    if h != [] { ContarHasta(h[..|h| - 1], desde, hasta); }
  }

  // A client is never served more than the limit within any window of that length.
  lemma NuncaMas(r: InMemoryRateLimiter, clientKey: string, t: real)
    requires r.Valid() && r.maxRequests >= 0
    ensures |Dentro(De(r.historia, clientKey), t - r.windowSeconds as real, t)| <= r.maxRequests
  {
    hide Fiel;
    VentanaSiempre(r, clientKey, t);
    CuantosDentro(De(r.historia, clientKey), t - r.windowSeconds as real, t);
  }

  lemma FielHasta(cola: seq<real>, h: seq<real>, tope: int, ventana: real, antes: real, ahora: real)
    requires Fiel(cola, h, tope, ventana, antes) && antes <= ahora
    ensures Contar(h, ahora - ventana) == |Dentro(h, ahora - ventana, ahora)|
  {
    CuentaEsDentro(h, ahora - ventana, ahora);
  }

  lemma FielDespues(cola: seq<real>, h: seq<real>, tope: int, ventana: real, antes: real, ahora: real)
    requires Fiel(cola, h, tope, ventana, antes) && antes <= ahora
    ensures Fiel(cola, h, tope, ventana, ahora)
  {
    hide Limitada;
  }

  lemma FielSinPrimero(cola: seq<real>, h: seq<real>, tope: int, ventana: real, ahora: real)
    requires Fiel(cola, h, tope, ventana, ahora) && cola != [] && cola[0] <= ahora - ventana
    ensures Fiel(cola[1..], h, tope, ventana, ahora)
  {
    hide Limitada, Ordenada;
    var n := |h| - |cola|;
    assert h[n] == cola[0] && cola[1..] == h[n + 1..];
  }

  lemma FielCuenta(cola: seq<real>, h: seq<real>, tope: int, ventana: real, ahora: real)
    requires Fiel(cola, h, tope, ventana, ahora) && (cola != [] ==> cola[0] > ahora - ventana)
    ensures |cola| == Contar(h, ahora - ventana)
  {
    ColaCuenta(cola, h, ahora - ventana);
  }

  lemma FielAcepta(cola: seq<real>, h: seq<real>, tope: int, ventana: real, ahora: real)
    requires Fiel(cola, h, tope, ventana, ahora) && Contar(h, ahora - ventana) < tope
    ensures Fiel(cola + [ahora], h + [ahora], tope, ventana, ahora)
  {
    hide Limitada;
    LimitadaCrece(h, tope, ventana, ahora);
    assert cola + [ahora] == (h + [ahora])[|h| - |cola|..];
  }

  lemma {:induction false} ContarTodos(h: seq<real>, desde: real)
    requires forall i | 0 <= i < |h| :: h[i] > desde
    ensures Contar(h, desde) == |h|
  {
    if h != [] { ContarTodos(h[..|h| - 1], desde); }
  }

  lemma {:induction false} ContarNinguno(h: seq<real>, desde: real)
    requires forall i | 0 <= i < |h| :: h[i] <= desde
    ensures Contar(h, desde) == 0
  {
    if h != [] { ContarNinguno(h[..|h| - 1], desde); }
  }

  lemma {:induction false} ContarSuma(a: seq<real>, b: seq<real>, desde: real)
    ensures Contar(a + b, desde) == Contar(a, desde) + Contar(b, desde)
  {
    if b == [] {
      assert a + b == a;
    } else {
      assert (a + b)[..|a + b| - 1] == a + b[..|b| - 1];
      ContarSuma(a, b[..|b| - 1], desde);
    }
  }

  // Once its stale front is gone, the length of the queue is the count over the whole history.
  lemma ColaCuenta(cola: seq<real>, h: seq<real>, desde: real)
    requires Ordenada(h) && Podada(cola, h, desde) && (cola != [] ==> cola[0] > desde)
    ensures |cola| == Contar(h, desde)
  {
    hide Contar;
    var n := |h| - |cola|;
    assert h == h[..n] + cola;
    ContarSuma(h[..n], cola, desde);
    ContarNinguno(h[..n], desde);
    forall i | 0 <= i < |cola| ensures cola[i] > desde {
      assert cola[i] == h[n + i] && cola[0] == h[n] && h[n] <= h[n + i];
    }
    ContarTodos(cola, desde);
  }

  lemma LimitadaCrece(h: seq<real>, tope: int, ventana: real, now: real)
    requires Limitada(h, tope, ventana) && Contar(h, now - ventana) < tope
    ensures Limitada(h + [now], tope, ventana)
  {
    hide Contar;
    var g := h + [now];
    forall i | 0 <= i < |g| ensures Contar(g[..i], g[i] - ventana) < tope {
      Prefijo(h, now, i);
    }
  }

  lemma Prefijo(h: seq<real>, x: real, i: nat)
    requires i <= |h|
    ensures (h + [x])[..i] == h[..i] && (h + [x])[i] == (if i < |h| then h[i] else x)
    ensures i == |h| ==> h[..i] == h
  {
  }

  lemma {:induction false} ContarBaja(h: seq<real>, desde: real, antes: real)
    requires antes <= desde
    ensures Contar(h, desde) <= Contar(h, antes)
  {
    if h != [] { ContarBaja(h[..|h| - 1], desde, antes); }
  }

  lemma LimitadaPrefijo(h: seq<real>, u: nat, tope: int, ventana: real)
    requires Limitada(h, tope, ventana) && u <= |h|
    ensures Limitada(h[..u], tope, ventana)
  {
    assert forall i | 0 <= i < u :: h[..u][..i] == h[..i];
  }

  // Sliding window: whatever the instant t, of the requests accepted in (t - W, t] there are never more than the limit.
  lemma {:induction false} VentanaAcotada(h: seq<real>, tope: int, ventana: real, t: real)
    requires Ordenada(h) && Limitada(h, tope, ventana)
    ensures EnVentana(h, t - ventana, t) <= if tope > 0 then tope else 0
  {
    if h != [] {
      var u := |h| - 1;
      if h[u] > t {
        LimitadaPrefijo(h, u, tope, ventana);
        VentanaAcotada(h[..u], tope, ventana, t);
      } else {
        VentanaEsCuenta(h[..u], t - ventana, t);
        ContarBaja(h[..u], t - ventana, h[u] - ventana);
      }
    }
  }

  lemma {:induction false} VentanaEsCuenta(h: seq<real>, desde: real, hasta: real)
    ensures EnVentana(h, desde, hasta) <= Contar(h, desde)
  {
    if h != [] { VentanaEsCuenta(h[..|h| - 1], desde, hasta); }
  }
}
