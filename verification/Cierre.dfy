// Which tables depend, directly or not, on the tables the reset script empties.
module Cierre {

  datatype Fk = Fk(tabla: string, referencia: string)

  const RAICES: set<string> := {"tpi.leads", "tpi.personas"}

  ghost predicate Cerrado(d: set<string>, fks: seq<Fk>) {
    forall i | 0 <= i < |fks| :: fks[i].referencia in d ==> fks[i].tabla in d
  }

  // A chain of foreign keys that leads from a table back to a root, one key a step.
  ghost predicate Cadena(c: seq<Fk>, tabla: string, fks: seq<Fk>) {
    if c == [] then tabla in RAICES
    else c[0] in fks && c[0].tabla == tabla && Cadena(c[1..], c[0].referencia, fks)
  }

  ghost predicate Depende(tabla: string, fks: seq<Fk>) { exists c: seq<Fk> :: Cadena(c, tabla, fks) }

  function Tablas(fks: seq<Fk>): set<string> { set i | 0 <= i < |fks| :: fks[i].tabla }

  // The fixpoint loop ends with exactly the roots and the tables some chain of keys ties to them.
  method CierreDependientes(fks: seq<Fk>) returns (dependen: set<string>)
    ensures forall t: string :: t in dependen <==> Depende(t, fks)
  {
    hide Depende;
    ghost var todo := RAICES + Tablas(fks);
    dependen := RAICES;
    RaicesDependen(fks);
    var crecio := true;
    while crecio
      invariant RAICES <= dependen <= todo
      invariant forall t | t in dependen :: Depende(t, fks)
      invariant !crecio ==> Cerrado(dependen, fks)
      decreases |todo - dependen|, crecio
    {
      ghost var antes := dependen;
      dependen, crecio := Vuelta(fks, dependen);
      if crecio {
        Contenido(todo - dependen, todo - antes);
      }
    }
    forall t | Depende(t, fks) ensures t in dependen {
      CerradoContiene(dependen, fks, t);
    }
  }

  // One turn of the outer loop: over every key, in order.
  method Vuelta(fks: seq<Fk>, antes: set<string>) returns (dependen: set<string>, crecio: bool)
    requires RAICES <= antes <= RAICES + Tablas(fks) && forall t | t in antes :: Depende(t, fks)
    ensures antes <= dependen <= RAICES + Tablas(fks) && forall t | t in dependen :: Depende(t, fks)
    ensures if crecio then antes < dependen else antes == dependen && Cerrado(dependen, fks)
  {
    hide Depende;
    dependen, crecio := antes, false;
    for i := 0 to |fks|
      invariant antes <= dependen <= RAICES + Tablas(fks)
      invariant forall t | t in dependen :: Depende(t, fks)
      invariant if crecio then antes < dependen else antes == dependen
      invariant !crecio ==> forall j | 0 <= j < i :: fks[j].referencia in dependen ==> fks[j].tabla in dependen
    {
      if fks[i].referencia in dependen && fks[i].tabla !in dependen {
        DependePaso(fks, i);
        dependen := dependen + {fks[i].tabla};
        crecio := true;
      }
    }
  }

  // Without keys only the two tables themselves; and every table with a key to either.
  lemma TablasRaiz(fks: seq<Fk>, t: string)
    ensures Depende(t, []) <==> t == "tpi.leads" || t == "tpi.personas"
    ensures Fk(t, "tpi.leads") in fks || Fk(t, "tpi.personas") in fks ==> Depende(t, fks)
  {
    RaicesDependen(fks);
    RaicesDependen([]);
    if i :| 0 <= i < |fks| && fks[i].tabla == t && fks[i].referencia in RAICES {
      DependePaso(fks, i);
    }
  }

  lemma RaicesDependen(fks: seq<Fk>)
    ensures forall t | t in RAICES :: Depende(t, fks)
  {
    forall t | t in RAICES ensures Depende(t, fks) {
      assert Cadena([], t, fks);
    }
  }

  lemma DependePaso(fks: seq<Fk>, i: nat)
    requires i < |fks| && Depende(fks[i].referencia, fks)
    ensures Depende(fks[i].tabla, fks)
  {
    var c: seq<Fk> :| Cadena(c, fks[i].referencia, fks);
    assert ([fks[i]] + c)[1..] == c;
    assert Cadena([fks[i]] + c, fks[i].tabla, fks);
  }

  lemma Contenido(a: set<string>, b: set<string>)
    requires a < b
    ensures |a| < |b|
  {
    assert b == a + (b - a);
  }

  // Any set that holds the roots and is closed under the keys holds every dependent table: theirs is the least.
  lemma CerradoContiene(d: set<string>, fks: seq<Fk>, tabla: string)
    requires RAICES <= d && Cerrado(d, fks) && Depende(tabla, fks)
    ensures tabla in d
  {
    var c: seq<Fk> :| Cadena(c, tabla, fks);
    CadenaDentro(d, fks, c, tabla);
  }

  lemma {:induction false} CadenaDentro(d: set<string>, fks: seq<Fk>, c: seq<Fk>, tabla: string)
    requires RAICES <= d && Cerrado(d, fks) && Cadena(c, tabla, fks)
    ensures tabla in d
  {
    if c != [] { CadenaDentro(d, fks, c[1..], c[0].referencia); }
  }
}
