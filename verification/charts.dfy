/** `prepara_dati_grafici`: the municipality list, the reference day, one
    daily time series per municipality and pollutant, the value shown for
    "today", and the pollutants available in each municipality. */
module Charts {
  import opened Wrappers
  import opened Lex
  import opened Seqs
  import opened Stations
  import opened Readings

  /** One point of a time series: a day and its (rounded) mean. */
  datatype Punto = Punto(data: string, valore: real)

  /** The chart document, without the generation timestamp and the constant
      threshold table. */
  datatype DatiGrafici = DatiGrafici(
    comuni: seq<string>,
    dataRiferimento: string,
    serieTemporali: map<string, map<string, seq<Punto>>>,
    datiOggi: map<string, map<string, real>>,
    inquinantiDisponibili: map<string, seq<string>>)

  /** Rounding to one decimal, `round(x, 1)`, left abstract. */
  type Arrotonda = real -> real

  /** `sorted(set(s["comune_formatted"] for s in stazioni))` */
  function ElencoComuni(stazioni: seq<Sensor>): (r: seq<string>)
    ensures StrictlyAscending(r)
    ensures forall c :: c in r <==> exists i :: 0 <= i < |stazioni| && stazioni[i].comuneFormatted == c
  {
    var nomi := seq(|stazioni|, i requires 0 <= i < |stazioni| => stazioni[i].comuneFormatted);
    assert forall c :: c in nomi <==> exists i :: 0 <= i < |stazioni| && stazioni[i].comuneFormatted == c by {
      forall c | c in nomi ensures exists i :: 0 <= i < |stazioni| && stazioni[i].comuneFormatted == c {
        var i :| 0 <= i < |nomi| && nomi[i] == c;
      }
      forall c | exists i :: 0 <= i < |stazioni| && stazioni[i].comuneFormatted == c ensures c in nomi {
        var i :| 0 <= i < |stazioni| && stazioni[i].comuneFormatted == c;
        assert nomi[i] == c;
      }
    }
    SortedSet(nomi)
  }

  /** `date_disponibili`: the non-empty day of every record, used or not. */
  function DateDisponibili(dati: seq<Reading>): seq<string> {
    FilterMap((r: Reading) => if Giorno(r) != "" then Some(Giorno(r)) else None, dati)
  }

  /** `max(date_disponibili)`, or `oggi` (the run's own date) when no record
      has a day. Days are ISO `YYYY-MM-DD` strings, whose string order is
      their chronological order. */
  function DataRiferimento(dati: seq<Reading>, oggi: string): (d: string)
    ensures (forall i :: 0 <= i < |dati| ==> Giorno(dati[i]) == "") ==> d == oggi
    ensures (exists i :: 0 <= i < |dati| && Giorno(dati[i]) != "") ==>
      exists i :: 0 <= i < |dati| && Giorno(dati[i]) == d && d != ""
    ensures forall i :: 0 <= i < |dati| && Giorno(dati[i]) != "" ==> LessEq(Giorno(dati[i]), d)
  {
    var ds := DateDisponibili(dati);
    var m := Max(ds);
    forall i | 0 <= i < |dati| && Giorno(dati[i]) != "" ensures Giorno(dati[i]) in ds {
    }
    m.GetOr(oggi)
  }

  /** The pollutant of each of `c`'s usable readings, in order. */
  function InquinantiDi(es: seq<Entry>, c: string): seq<string> {
    FilterMap((e: Entry) => if e.comune == c then Some(e.inquinante) else None, es)
  }

  /** The keys of `dati_per_comune[c]`: the pollutants of `c`'s usable
      readings, in order of first reading. */
  function Inquinanti(es: seq<Entry>, c: string): (r: seq<string>)
    ensures Distinct(r)
    ensures forall p :: p in r <==> exists e :: e in es && e.comune == c && e.inquinante == p
    ensures forall p :: p in r <==> p in InquinantiDi(es, c)
    ensures forall i, j :: 0 <= i < j < |r| ==>
      FirstIndex(InquinantiDi(es, c), r[i]) < FirstIndex(InquinantiDi(es, c), r[j])
  {
    var ps := InquinantiDi(es, c);
    forall p ensures p in ps <==> exists e :: e in es && e.comune == c && e.inquinante == p {
      if exists e :: e in es && e.comune == c && e.inquinante == p {
        var e :| e in es && e.comune == c && e.inquinante == p;
        var i :| 0 <= i < |es| && es[i] == e;
      }
    }
    Dedup(ps)
  }

  /** `sorted(date_valori)`: the days of `c`'s readings of `p`, ascending. */
  function DateDi(es: seq<Entry>, c: string, p: string): (r: seq<string>)
    ensures StrictlyAscending(r)
    ensures forall d :: d in r <==> d in Giorni(es, c, p)
  {
    var ds := FilterMap((e: Entry) => if e.comune == c && e.inquinante == p then Some(e.data) else None, es);
    forall d ensures d in ds <==> d in Giorni(es, c, p) {
      if d in Giorni(es, c, p) {
        var e :| e in es && e.comune == c && e.inquinante == p && e.data == d;
        var i :| 0 <= i < |es| && es[i] == e;
      }
    }
    SortedSet(ds)
  }

  /** Every group present holds at least one value. */
  predicate GruppiNonVuoti(b: map<Key, seq<real>>) {
    forall k :: k in b ==> |b[k]| > 0
  }

  /** The series loop: one point per day, carrying that day's mean. */
  function Punti(b: map<Key, seq<real>>, c: string, p: string, days: seq<string>, round1: Arrotonda): (r: seq<Punto>)
    requires GruppiNonVuoti(b)
    requires forall d :: d in days ==> Key(c, p, d) in b
    ensures |r| == |days|
    ensures forall i :: 0 <= i < |r| ==> r[i].data == days[i]
    ensures forall i :: 0 <= i < |r| ==> r[i].valore == round1(Mean(b[Key(c, p, days[i])]))
  {
    if days == [] then []
    else [Punto(days[0], round1(Mean(b[Key(c, p, days[0])])))] + Punti(b, c, p, days[1..], round1)
  }

  function DateDiSerie(s: seq<Punto>): seq<string> {
    seq(|s|, i requires 0 <= i < |s| => s[i].data)
  }

  /** The points' days are the days they were built from. */
  lemma PuntiDate(b: map<Key, seq<real>>, c: string, p: string, days: seq<string>, round1: Arrotonda)
    requires GruppiNonVuoti(b)
    requires forall d :: d in days ==> Key(c, p, d) in b
    ensures DateDiSerie(Punti(b, c, p, days, round1)) == days
  {
  }

  /** When every group of `b` holds the values `vs` gives for its key, each
      point carries the rounded mean of `vs` on its day. */
  lemma PuntiMedie(b: map<Key, seq<real>>, vs: Key -> seq<real>, c: string, p: string, days: seq<string>, round1: Arrotonda)
    requires GruppiNonVuoti(b)
    requires forall k :: k in b ==> b[k] == vs(k)
    requires forall d :: d in days ==> Key(c, p, d) in b
    ensures var r := Punti(b, c, p, days, round1);
      forall i :: 0 <= i < |r| ==>
        |vs(Key(c, p, r[i].data))| > 0 && r[i].valore == round1(Mean(vs(Key(c, p, r[i].data))))
  {
    var r := Punti(b, c, p, days, round1);
    forall i | 0 <= i < |r|
      ensures |vs(Key(c, p, r[i].data))| > 0 && r[i].valore == round1(Mean(vs(Key(c, p, r[i].data))))
    {
      assert r[i].data == days[i];
      assert Key(c, p, days[i]) in b;
    }
  }

  /** The time series of municipality `c` and pollutant `p`: strictly
      ascending by day, one point for each day on which the pair has a usable
      reading and no other, each carrying the rounded mean of that day's
      values. */
  function SerieDi(es: seq<Entry>, c: string, p: string, round1: Arrotonda): (r: seq<Punto>)
    ensures StrictlyAscending(DateDiSerie(r))
    ensures forall d :: d in DateDiSerie(r) <==> d in Giorni(es, c, p)
    ensures forall i :: 0 <= i < |r| ==>
      |ValuesAt(es, Key(c, p, r[i].data))| > 0
      && r[i].valore == round1(Mean(ValuesAt(es, Key(c, p, r[i].data))))
  {
    var b := Buckets(es);
    var days := DateDi(es, c, p);
    forall d | d in days ensures Key(c, p, d) in b {
      GruppoDelGiorno(es, c, p, d);
    }
    PuntiDate(b, c, p, days, round1);
    PuntiMedie(b, k => ValuesAt(es, k), c, p, days, round1);
    Punti(b, c, p, days, round1)
  }

  /** The "today" value of a pair with readings: the rounded mean on the
      reference day when the pair has readings that day, otherwise the value
      of the last point of its series. */
  function Oggi(es: seq<Entry>, c: string, p: string, rif: string, round1: Arrotonda): (v: real)
    requires p in Inquinanti(es, c)
    ensures var serie := SerieDi(es, c, p, round1);
      && |serie| > 0
      && v == if rif in Giorni(es, c, p)
              then round1(Mean(ValuesAt(es, Key(c, p, rif))))
              else serie[|serie| - 1].valore
  {
    var b := Buckets(es);
    var k := Key(c, p, rif);
    var serie := SerieDi(es, c, p, round1);
    SerieNonVuota(es, c, p, round1);
    GruppoDelGiorno(es, c, p, rif);
    if k in b then round1(Mean(b[k]))
    else serie[|serie| - 1].valore
  }

  /** A day has a group of values for a pair exactly when the pair has a
      usable reading on that day. */
  lemma GruppoDelGiorno(es: seq<Entry>, c: string, p: string, d: string)
    ensures Key(c, p, d) in Buckets(es) <==> d in Giorni(es, c, p)
  {
    if d in Giorni(es, c, p) {
      var e :| e in es && e.comune == c && e.inquinante == p && e.data == d;
      var i :| 0 <= i < |es| && es[i] == e;
      assert KeyOf(es[i]) == Key(c, p, d);
    }
  }

  /** `serie_temporali`: for every municipality with a usable reading, one
      series per pollutant it has readings of. */
  function SerieTemporali(es: seq<Entry>, round1: Arrotonda): (m: map<string, map<string, seq<Punto>>>)
    ensures forall c :: c in m <==> c in Comuni(es)
    ensures forall c :: c in m ==> forall p :: p in m[c] <==> p in Inquinanti(es, c)
  {
    map c | c in Comuni(es) :: map p | p in Inquinanti(es, c) :: SerieDi(es, c, p, round1)
  }

  /** `dati_oggi`: the "today" value of every pair that has a series. */
  function DatiOggi(es: seq<Entry>, rif: string, round1: Arrotonda): (m: map<string, map<string, real>>)
    ensures forall c :: c in m <==> c in Comuni(es)
    ensures forall c :: c in m ==> forall p :: p in m[c] <==> p in Inquinanti(es, c)
  {
    map c | c in Comuni(es) :: map p | p in Inquinanti(es, c) :: Oggi(es, c, p, rif, round1)
  }

  /** `inquinanti_disponibili`: the keys of `dati_per_comune[c]`, as a list. */
  function InquinantiDisponibili(es: seq<Entry>): (m: map<string, seq<string>>)
    ensures forall c :: c in m <==> c in Comuni(es)
  {
    map c | c in Comuni(es) :: Inquinanti(es, c)
  }

  /** `prepara_dati_grafici(dati, stazioni)`, with the run's own date `oggi`
      standing for `datetime.now()`. */
  function PreparaDatiGrafici(dati: seq<Reading>, stazioni: seq<Sensor>, parse: Parser, round1: Arrotonda, oggi: string): (g: DatiGrafici)
    ensures g.serieTemporali.Keys == g.datiOggi.Keys == g.inquinantiDisponibili.Keys
    ensures StrictlyAscending(g.comuni)
    ensures forall c :: c in g.comuni <==> exists i :: 0 <= i < |stazioni| && stazioni[i].comuneFormatted == c
    ensures forall i :: 0 <= i < |dati| && Giorno(dati[i]) != "" ==> LessEq(Giorno(dati[i]), g.dataRiferimento)
    ensures (exists i :: 0 <= i < |dati| && Giorno(dati[i]) != "") ==>
      exists i :: 0 <= i < |dati| && Giorno(dati[i]) == g.dataRiferimento
    ensures (forall i :: 0 <= i < |dati| ==> Giorno(dati[i]) == "") ==> g.dataRiferimento == oggi
  {
    var es := Validi(dati, stazioni, parse);
    var rif := DataRiferimento(dati, oggi);
    DatiGrafici(ElencoComuni(stazioni), rif, SerieTemporali(es, round1), DatiOggi(es, rif, round1), InquinantiDisponibili(es))
  }

  /** A pair with a usable reading has a non-empty series, so the source's
      `if serie:` guard always holds. */
  lemma SerieNonVuota(es: seq<Entry>, c: string, p: string, round1: Arrotonda)
    requires p in Inquinanti(es, c)
    ensures |SerieDi(es, c, p, round1)| > 0
  {
    var e :| e in es && e.comune == c && e.inquinante == p;
    assert e.data in Giorni(es, c, p);
    assert e.data in DateDiSerie(SerieDi(es, c, p, round1));
  }

  // ---------------------------------------------------------------------
  // Properties of the chart document

  /** A municipality is in the document exactly when it has a usable
      reading. */
  lemma ComuniNelDocumento(es: seq<Entry>, c: string)
    ensures c in Comuni(es) <==> exists e :: e in es && e.comune == c
  {
    if exists e :: e in es && e.comune == c {
      var e :| e in es && e.comune == c;
      var k :| 0 <= k < |es| && es[k] == e;
      assert ComuniDi(es)[k] == c;
    }
    if c in Comuni(es) {
      assert c in ComuniDi(es);
      var k :| 0 <= k < |es| && ComuniDi(es)[k] == c;
      assert es[k] in es;
    }
  }

  /** The document's keys, by municipality: a municipality has a series
      map, a "today" map and a list of pollutants exactly when it has a
      usable reading. */
  lemma ComuniDelDocumento(es: seq<Entry>, rif: string, round1: Arrotonda, c: string)
    ensures c in SerieTemporali(es, round1) <==> exists e :: e in es && e.comune == c
    ensures c in DatiOggi(es, rif, round1) <==> c in SerieTemporali(es, round1)
    ensures c in InquinantiDisponibili(es) <==> c in SerieTemporali(es, round1)
  {
    ComuniNelDocumento(es, c);
  }

  /** The document's keys, by pollutant: within a municipality, a pollutant
      has a series exactly when the municipality has a usable reading of it,
      and it then also has a "today" value and is listed among the
      municipality's pollutants. */
  lemma InquinantiChiavi(es: seq<Entry>, rif: string, round1: Arrotonda, c: string, p: string)
    requires c in SerieTemporali(es, round1)
    ensures c in DatiOggi(es, rif, round1) && c in InquinantiDisponibili(es)
    ensures p in SerieTemporali(es, round1)[c] <==> exists e :: e in es && e.comune == c && e.inquinante == p
    ensures p in DatiOggi(es, rif, round1)[c] <==> p in SerieTemporali(es, round1)[c]
    ensures p in InquinantiDisponibili(es)[c] <==> p in SerieTemporali(es, round1)[c]
  {
  }

  /** Each series is strictly ascending by day and non-empty; it has exactly
      one point per day on which the pair has a usable reading, carrying the
      rounded mean of that day's values. */
  lemma SerieDelDocumento(es: seq<Entry>, round1: Arrotonda, c: string, p: string)
    requires c in SerieTemporali(es, round1) && p in SerieTemporali(es, round1)[c]
    ensures var serie := SerieTemporali(es, round1)[c][p];
      && |serie| > 0
      && StrictlyAscending(DateDiSerie(serie))
      && (forall d :: d in DateDiSerie(serie) <==> d in Giorni(es, c, p))
      && (forall i :: 0 <= i < |serie| ==>
            |ValuesAt(es, Key(c, p, serie[i].data))| > 0
            && serie[i].valore == round1(Mean(ValuesAt(es, Key(c, p, serie[i].data)))))
  {
    SerieNonVuota(es, c, p, round1);
  }

  /** `inquinanti_disponibili[c]` lists the pollutants that have a series in
      `c`, each once, in order of `c`'s first reading of each. */
  lemma InquinantiDelDocumento(es: seq<Entry>, round1: Arrotonda, c: string)
    requires c in InquinantiDisponibili(es)
    ensures var ps := InquinantiDisponibili(es)[c];
      && c in SerieTemporali(es, round1)
      && Distinct(ps)
      && (forall p :: p in ps <==> p in SerieTemporali(es, round1)[c])
      && (forall i, j :: 0 <= i < j < |ps| ==>
            FirstIndex(InquinantiDi(es, c), ps[i]) < FirstIndex(InquinantiDi(es, c), ps[j]))
  {
  }

  /** When no usable reading is dated after `rif`, the "today" value of a
      pair is the last point of its series. */
  lemma {:induction false} OggiUltimaSerie(es: seq<Entry>, rif: string, round1: Arrotonda, c: string, p: string)
    requires forall e :: e in es ==> LessEq(e.data, rif)
    requires p in Inquinanti(es, c)
    ensures var serie := SerieDi(es, c, p, round1);
      |serie| > 0 && Oggi(es, c, p, rif, round1) == serie[|serie| - 1].valore
  {
    var serie := SerieDi(es, c, p, round1);
    SerieNonVuota(es, c, p, round1);
    if rif in Giorni(es, c, p) {
      var ds := DateDiSerie(serie);
      var last := ds[|ds| - 1];
      // the last day of the series is the latest of the pair's days ...
      AscendingLast(ds, rif);
      // ... and no usable reading is dated after `rif`
      assert last in ds;
      var e :| e in es && e.comune == c && e.inquinante == p && e.data == last;
      LessEqAntisymmetric(rif, last);
      assert serie[|serie| - 1].data == rif;
    }
  }

  /** The same, stated on the document's maps. */
  lemma OggiUltimo(es: seq<Entry>, rif: string, round1: Arrotonda, c: string, p: string)
    requires forall e :: e in es ==> LessEq(e.data, rif)
    requires c in SerieTemporali(es, round1) && p in SerieTemporali(es, round1)[c]
    ensures var serie := SerieTemporali(es, round1)[c][p];
      && |serie| > 0 && c in DatiOggi(es, rif, round1) && p in DatiOggi(es, rif, round1)[c]
      && DatiOggi(es, rif, round1)[c][p] == serie[|serie| - 1].valore
  {
    OggiUltimaSerie(es, rif, round1, c, p);
  }

  /** Every usable reading is dated no later than the reference day, which is
      the latest day of all records. */
  lemma ValidiPrimaDelRiferimento(dati: seq<Reading>, stazioni: seq<Sensor>, parse: Parser, oggi: string, e: Entry)
    requires e in Validi(dati, stazioni, parse)
    ensures LessEq(e.data, DataRiferimento(dati, oggi))
  {
    ValidiSpec(dati, stazioni, parse, e);
  }

  /** In the document, the "today" value of every pair is always the value
      of the last point of its series: the reference day is the latest day
      of all records, so a pair with readings on that day has it as the last
      day of its series. */
  lemma OggiUltimoPunto(dati: seq<Reading>, stazioni: seq<Sensor>, parse: Parser, round1: Arrotonda, oggi: string, c: string, p: string)
    requires var g := PreparaDatiGrafici(dati, stazioni, parse, round1, oggi);
      c in g.serieTemporali && p in g.serieTemporali[c]
    ensures var g := PreparaDatiGrafici(dati, stazioni, parse, round1, oggi);
      var serie := g.serieTemporali[c][p];
      && |serie| > 0 && c in g.datiOggi && p in g.datiOggi[c]
      && g.datiOggi[c][p] == serie[|serie| - 1].valore
  {
    var es := Validi(dati, stazioni, parse);
    var rif := DataRiferimento(dati, oggi);
    forall e | e in es ensures LessEq(e.data, rif) {
      ValidiPrimaDelRiferimento(dati, stazioni, parse, oggi, e);
    }
    OggiUltimo(es, rif, round1, c, p);
  }
}
