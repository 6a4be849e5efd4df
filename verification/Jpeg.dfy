// Reading the dimensions of a JPEG from its first frame header (sections B.1.1 and B.2.2 of ITU-T T.81).
module Jpeg {
  import opened Opcion

  type Byte = b: int | 0 <= b < 256

  predicate EsSof(m: Byte) { m in {0xC0, 0xC1, 0xC2, 0xC3, 0xC5, 0xC6, 0xC7, 0xC9, 0xCA, 0xCB, 0xCD, 0xCE, 0xCF} }

  // Markers without a length: TEM and RST0 to RST7; a repeated SOI is skipped too.
  predicate SinLongitud(m: Byte) { m == 0xD8 || m == 0x01 || 0xD0 <= m <= 0xD7 }

  predicate Corta(m: Byte) { m == 0xD9 || m == 0xDA }

  function Grande(a: Byte, b: Byte): nat { a * 256 + b }

  // First index at or after i whose byte is (or is not) 0xFF.
  function Hasta(s: seq<Byte>, i: nat, relleno: bool): (r: nat)
    requires i <= |s|
    ensures i <= r <= |s|
    ensures r < |s| ==> ((s[r] == 0xFF) != relleno)
    ensures forall j | i <= j < r :: (s[j] == 0xFF) == relleno
    decreases |s| - i
  {
    if i < |s| && ((s[i] == 0xFF) == relleno) then Hasta(s, i + 1, relleno) else i
  }

  // What one turn of the walk does: it ends with a result, or goes on at a later index.
  datatype Avance = Fin(r: Option<(nat, nat)>) | Sigue(i: nat)

  // The marker at index k.
  function Marcador(s: seq<Byte>, k: nat): (p: Avance)
    requires k < |s|
    ensures p.Sigue? ==> p.i > k
  {
    var m := s[k];
    if SinLongitud(m) then Sigue(k + 1)
    else if Corta(m) || k + 3 > |s| then Fin(None)
    else
      var largo := Grande(s[k + 1], s[k + 2]);
      if largo < 2 then Fin(None)
      else if !EsSof(m) then Sigue(k + 1 + largo)
      else if k + 8 > |s| then Fin(None)
      else Fin(Some((Grande(s[k + 6], s[k + 7]), Grande(s[k + 4], s[k + 5]))))
  }

  // Index of the marker at or after i: past anything that is not 0xFF, and past the fill bytes.
  function Siguiente(s: seq<Byte>, i: nat): (k: nat)
    requires i <= |s|
    ensures i <= k <= |s|
  {
    Hasta(s, Hasta(s, i, false), true)
  }

  // The walk from index i: width and height of the first frame header.
  function Recorrer(s: seq<Byte>, i: nat): Option<(nat, nat)>
    decreases |s| - i
  {
    if i >= |s| then None
    else
      var k := Siguiente(s, i);
      if k >= |s| then None
      else
        match Marcador(s, k)
        case Fin(r) => r
        case Sigue(j) => Recorrer(s, j)
  }

  function Dimensiones(s: seq<Byte>): Option<(nat, nat)> {
    if |s| < 4 || s[0] != 0xFF || s[1] != 0xD8 then None else Recorrer(s, 2)
  }

  // The two inner loops: past the bytes that are (or are not) 0xFF.
  method Saltar(content: seq<Byte>, inicio: nat, relleno: bool) returns (index: nat)
    requires inicio <= |content|
    ensures index == Hasta(content, inicio, relleno)
  {
    index := inicio;
    while index < |content| && (content[index] == 0xFF) == relleno
      invariant inicio <= index <= |content|
      invariant Hasta(content, inicio, relleno) == Hasta(content, index, relleno)
    {
      index := index + 1;
    }
  }

  method BuscarMarcador(content: seq<Byte>, inicio: nat) returns (index: nat)
    requires inicio <= |content|
    ensures index == Siguiente(content, inicio)
  {
    index := Saltar(content, inicio, false);
    index := Saltar(content, index, true);
  }

  // The loop of _jpeg_dimensions; every read is in bounds and the walk ends.
  method JpegDimensions(content: seq<Byte>) returns (r: Option<(nat, nat)>)
    ensures r == Dimensiones(content)
  {
    hide Siguiente;
    if |content| < 4 || content[0] != 0xFF || content[1] != 0xD8 {
      return None;
    }
    var index := 2;
    while index < |content|
      invariant 2 <= index
      invariant Recorrer(content, 2) == Recorrer(content, index)
      decreases |content| - index
    {
      index := BuscarMarcador(content, index);
      if index >= |content| {
        return None;
      }
      ghost var paso := Marcador(content, index);
      var marker := content[index];
      index := index + 1;
      if marker == 0xD8 {
        continue;
      }
      if marker == 0xD9 || marker == 0xDA {
        return None;
      }
      if marker == 0x01 || 0xD0 <= marker <= 0xD7 {
        continue;
      }
      if index + 2 > |content| {
        return None;
      }
      var largo := Grande(content[index], content[index + 1]);
      if largo < 2 {
        return None;
      }
      if EsSof(marker) {
        if index + 7 > |content| {
          return None;
        }
        r := Some((Grande(content[index + 5], content[index + 6]), Grande(content[index + 3], content[index + 4])));
        assert paso == Fin(r);
        return r;
      }
      index := index + largo;
      assert paso == Sigue(index);
    }
    r := None;
  }

  // ------------------------------------------------------------------ well-formed files

  // The start-of-frame markers: SOF0 to SOF15 but for DHT, JPG and DAC.
  predicate AbreCuadro(m: Byte) { 0xC0 <= m <= 0xCF && m != 0xC4 && m != 0xC8 && m != 0xCC }

  lemma MarcadoresDe(m: Byte)
    ensures EsSof(m) <==> AbreCuadro(m)
    ensures SinLongitud(m) <==> m == 0x01 || 0xD0 <= m <= 0xD8
    ensures Corta(m) <==> m == 0xD9 || m == 0xDA
  {
  }

  // What may precede the frame header: fill bytes, a marker, and for most markers a counted segment.
  datatype Segmento =
    | Suelto(relleno: nat, marca: Byte)
    | Contado(relleno: nat, marca: Byte, datos: seq<Byte>)
  {
    predicate Valido() {
      match this
      case Suelto(_, m) => m == 0x01 || 0xD0 <= m <= 0xD8
      case Contado(_, m, datos) =>
        m != 0xFF && m != 0x01 && !(0xD0 <= m <= 0xDA) && !AbreCuadro(m) && |datos| + 2 < 0x1_0000
    }
  }

  function Relleno(n: nat): (r: seq<Byte>)
    ensures |r| == n + 1 && forall i | 0 <= i < |r| :: r[i] == 0xFF
  {
    seq(n + 1, _ => 0xFF)
  }

  function Bytes2(n: nat): (r: seq<Byte>)
    requires n < 0x1_0000
    ensures |r| == 2 && Grande(r[0], r[1]) == n
  {
    [n / 256, n % 256]
  }

  function Texto(g: Segmento): seq<Byte>
    requires g.Valido()
  {
    match g
    case Suelto(n, m) => Relleno(n) + [m]
    case Contado(n, m, datos) => Relleno(n) + [m] + Bytes2(|datos| + 2) + datos
  }

  // Precision, height and width open the parameters of a frame header.
  function Cuadro(relleno: nat, marca: Byte, precision: Byte, alto: nat, ancho: nat, resto: seq<Byte>)
    : (r: seq<Byte>)
    requires AbreCuadro(marca) && alto < 0x1_0000 && ancho < 0x1_0000 && |resto| + 7 < 0x1_0000
    ensures |r| == relleno + 9 + |resto|
  {
    Relleno(relleno) + [marca] + Bytes2(|resto| + 7) + [precision] + Bytes2(alto) + Bytes2(ancho) + resto
  }

  lemma {:induction false} HastaEs(s: seq<Byte>, i: nat, relleno: bool, k: nat)
    requires i <= k <= |s| && (k < |s| ==> (s[k] == 0xFF) != relleno)
    requires forall j | i <= j < k :: (s[j] == 0xFF) == relleno
    ensures Hasta(s, i, relleno) == k
    decreases k - i
  {
    if i < k { HastaEs(s, i + 1, relleno, k); }
  }

  // The marker after some fill bytes is the next one.
  lemma SiguienteRelleno(a: seq<Byte>, n: nat, b: seq<Byte>)
    requires b != [] && b[0] != 0xFF
    ensures Siguiente(a + Relleno(n) + b, |a|) == |a| + n + 1
    ensures forall i | 0 <= i < |b| :: (a + Relleno(n) + b)[|a| + n + 1 + i] == b[i]
  {
    var s := a + Relleno(n) + b;
    assert s[|a|] == Relleno(n)[0];
    HastaEs(s, |a|, false, |a|);
    HastaEs(s, |a|, true, |a| + n + 1);
  }

  // A turn of the walk that starts before a marker reads that marker.
  lemma UnaVuelta(a: seq<Byte>, n: nat, b: seq<Byte>)
    requires b != [] && b[0] != 0xFF
    ensures var s := a + Relleno(n) + b;
            Recorrer(s, |a|) == (match Marcador(s, |a| + n + 1)
                                 case Fin(r) => r
                                 case Sigue(j) => Recorrer(s, j))
  {
    hide Siguiente, Marcador;
    SiguienteRelleno(a, n, b);
  }

  // The bytes of a segment after its fill bytes.
  lemma PartesDelSegmento(a: seq<Byte>, g: Segmento, b: seq<Byte>) returns (cola: seq<Byte>)
    requires g.Valido()
    ensures a + Texto(g) + b == a + Relleno(g.relleno) + cola && cola != [] && cola[0] == g.marca
    ensures g.Contado? ==> |cola| >= 3 && Grande(cola[1], cola[2]) == |g.datos| + 2
    ensures |Texto(g)| == g.relleno + 2 + if g.Suelto? then 0 else |g.datos| + 2
  {
    hide EsSof, SinLongitud, Corta;
    if g.Suelto? {
      cola := [g.marca] + b;
    } else {
      var l := Bytes2(|g.datos| + 2);
      cola := [g.marca] + l + g.datos + b;
      assert cola[1] == l[0] && cola[2] == l[1];
    }
  }

  // A segment other than a frame header is stepped over.
  lemma PasoSegmento(a: seq<Byte>, g: Segmento, b: seq<Byte>)
    requires g.Valido()
    ensures Recorrer(a + Texto(g) + b, |a|) == Recorrer(a + Texto(g) + b, |a| + |Texto(g)|)
  {
    hide Siguiente, Recorrer, Texto, Grande, Marcador, AbreCuadro;
    var cola := PartesDelSegmento(a, g, b);
    UnaVuelta(a, g.relleno, cola);
    SiguienteRelleno(a, g.relleno, cola);
    var s, k := a + Relleno(g.relleno) + cola, |a| + g.relleno + 1;
    assert s[k] == cola[0];
    if g.Contado? {
      assert s[k + 1] == cola[1] && s[k + 2] == cola[2];
    }
    MarcadorDelSegmento(s, k, g);
  }

  lemma MarcadorDelSegmento(s: seq<Byte>, k: nat, g: Segmento)
    requires g.Valido() && k < |s| && s[k] == g.marca
    requires g.Contado? ==> k + 2 < |s| && Grande(s[k + 1], s[k + 2]) == |g.datos| + 2
    ensures Marcador(s, k) == Sigue(k + 1 + if g.Suelto? then 0 else |g.datos| + 2)
  {
    hide Grande, EsSof, SinLongitud, Corta, AbreCuadro;
    MarcadoresDe(g.marca);
  }

  // Where the parameters of a frame header lie after its fill bytes.
  lemma PartesDelCuadro(a: seq<Byte>, relleno: nat, marca: Byte, precision: Byte, alto: nat, ancho: nat,
                        resto: seq<Byte>, b: seq<Byte>)
    returns (cola: seq<Byte>)
    requires AbreCuadro(marca) && alto < 0x1_0000 && ancho < 0x1_0000 && |resto| + 7 < 0x1_0000
    ensures a + Cuadro(relleno, marca, precision, alto, ancho, resto) + b == a + Relleno(relleno) + cola
    ensures |cola| >= 8 && cola[0] == marca && Grande(cola[1], cola[2]) == |resto| + 7
    ensures Grande(cola[4], cola[5]) == alto && Grande(cola[6], cola[7]) == ancho
  {
    hide EsSof;
    var l, h, w := Bytes2(|resto| + 7), Bytes2(alto), Bytes2(ancho);
    cola := [marca] + l + [precision] + h + w + resto + b;
    assert cola[1] == l[0] && cola[2] == l[1];
    assert cola[4] == h[0] && cola[5] == h[1] && cola[6] == w[0] && cola[7] == w[1];
  }

  lemma LeeCuadro(a: seq<Byte>, relleno: nat, marca: Byte, precision: Byte, alto: nat, ancho: nat,
                  resto: seq<Byte>, b: seq<Byte>)
    requires AbreCuadro(marca) && alto < 0x1_0000 && ancho < 0x1_0000 && |resto| + 7 < 0x1_0000
    ensures Recorrer(a + Cuadro(relleno, marca, precision, alto, ancho, resto) + b, |a|) == Some((ancho, alto))
  {
    hide Siguiente, Recorrer, Cuadro, Grande, EsSof, SinLongitud, Corta;
    MarcadoresDe(marca);
    var cola := PartesDelCuadro(a, relleno, marca, precision, alto, ancho, resto, b);
    UnaVuelta(a, relleno, cola);
    SiguienteRelleno(a, relleno, cola);
    var s, k := a + Relleno(relleno) + cola, |a| + relleno + 1;
    assert s[k] == cola[0] && s[k + 1] == cola[1] && s[k + 2] == cola[2];
    assert s[k + 4] == cola[4] && s[k + 5] == cola[5] && s[k + 6] == cola[6] && s[k + 7] == cola[7];
  }

  ghost predicate Validos(gs: seq<Segmento>) { forall i | 0 <= i < |gs| :: gs[i].Valido() }

  ghost function Textos(gs: seq<Segmento>): seq<Byte>
    requires Validos(gs)
  {
    if gs == [] then [] else Texto(gs[0]) + Textos(gs[1..])
  }

  lemma {:induction false} RecorreSegmentos(a: seq<Byte>, gs: seq<Segmento>, b: seq<Byte>)
    requires Validos(gs)
    ensures Recorrer(a + Textos(gs) + b, |a|) == Recorrer(a + Textos(gs) + b, |a| + |Textos(gs)|)
    decreases |gs|
  {
    hide Recorrer, Texto;
    if gs != [] {
      var t, r := Texto(gs[0]), Textos(gs[1..]);
      assert a + Textos(gs) + b == a + t + (r + b);
      PasoSegmento(a, gs[0], r + b);
      assert a + Textos(gs) + b == (a + t) + r + b;
      RecorreSegmentos(a + t, gs[1..], b);
    }
  }

  // SOI, any well-formed segments, and one frame header: exactly its width and height, whatever follows.
  lemma DimensionesDelCuadro(gs: seq<Segmento>, relleno: nat, marca: Byte, precision: Byte, alto: nat, ancho: nat,
                             resto: seq<Byte>, cola: seq<Byte>)
    requires Validos(gs)
    requires AbreCuadro(marca) && alto < 0x1_0000 && ancho < 0x1_0000 && |resto| + 7 < 0x1_0000
    ensures Dimensiones(SOI + Textos(gs) + Cuadro(relleno, marca, precision, alto, ancho, resto) + cola)
            == Some((ancho, alto))
  {
    hide Recorrer, Cuadro, EsSof, Dimensiones, Validos;
    var ts, c := Textos(gs), Cuadro(relleno, marca, precision, alto, ancho, resto);
    RecorreSegmentos(SOI, gs, c + cola);
    LeeCuadro(SOI + ts, relleno, marca, precision, alto, ancho, resto, cola);
    Encadenar(ts, c, cola);
  }

  // Conversely, dimensions are only ever read from a frame header whose bytes are all there.
  lemma {:induction false} CuadroLeido(s: seq<Byte>, i: nat) returns (k: nat)
    requires Recorrer(s, i).Some?
    ensures i < k && k + 7 < |s| && s[k - 1] == 0xFF && AbreCuadro(s[k])
    ensures Recorrer(s, i)
            == Some((256 * (s[k + 6] as int) + s[k + 7] as int, 256 * (s[k + 4] as int) + s[k + 5] as int))
    decreases |s| - i
  {
    hide Recorrer, EsSof, SinLongitud, Corta, Hasta;
    RecorrerPaso(s, i);
    k := Siguiente(s, i);
    MarcadoresDe(s[k]);
    if Marcador(s, k).Sigue? {
      k := CuadroLeido(s, Marcador(s, k).i);
    } else {
      RellenoAntes(s, i);
    }
  }

  lemma RecorrerPaso(s: seq<Byte>, i: nat)
    requires Recorrer(s, i).Some?
    ensures i < |s| && Siguiente(s, i) < |s|
    ensures Recorrer(s, i) == (match Marcador(s, Siguiente(s, i)) case Fin(r) => r case Sigue(j) => Recorrer(s, j))
  {
    hide Siguiente, Marcador;
  }

  lemma RellenoAntes(s: seq<Byte>, i: nat)
    requires i < |s| && Siguiente(s, i) < |s|
    ensures i < Siguiente(s, i) && s[Siguiente(s, i) - 1] == 0xFF
  {
    var j := Hasta(s, i, false);
    assert s[j] == 0xFF;
    assert Hasta(s, j, true) > j;
    assert s[Hasta(s, j, true) - 1] == 0xFF;
  }

  // An end of image or a start of scan before any frame header: no dimensions.
  lemma SinCuadro(gs: seq<Segmento>, relleno: nat, marca: Byte, cola: seq<Byte>)
    requires Validos(gs) && (marca == 0xD9 || marca == 0xDA)
    ensures Dimensiones(SOI + Textos(gs) + (Relleno(relleno) + [marca]) + cola) == None
  {
    hide Recorrer, Siguiente, EsSof, SinLongitud, Corta, Dimensiones, Validos, Grande;
    var ts, c := Textos(gs), Relleno(relleno) + [marca];
    RecorreSegmentos(SOI, gs, c + cola);
    Encadenar(ts, c, cola);
    MarcadoresDe(marca);
    var a, b := SOI + ts, [marca] + cola;
    assert a + c + cola == a + Relleno(relleno) + b;
    UnaVuelta(a, relleno, b);
    SiguienteRelleno(a, relleno, b);
    assert (a + Relleno(relleno) + b)[|a| + relleno + 1] == b[0] == marca;
  }

  const SOI: seq<Byte> := [0xFF, 0xD8]

  lemma Encadenar(ts: seq<Byte>, c: seq<Byte>, cola: seq<Byte>)
    requires |c| >= 2
    requires Recorrer(SOI + ts + (c + cola), |SOI|) == Recorrer(SOI + ts + (c + cola), |SOI| + |ts|)
    ensures Dimensiones(SOI + ts + c + cola) == Recorrer(SOI + ts + c + cola, |SOI + ts|)
  {
    hide Recorrer;
    Asociar(SOI, ts, c, cola);
  }

  lemma Asociar(x: seq<Byte>, y: seq<Byte>, z: seq<Byte>, w: seq<Byte>)
    ensures x + y + z + w == x + y + (z + w)
  {
  }
}
