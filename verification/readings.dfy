/** Readings as the measurements endpoint returns them, the test that makes
    a reading usable for aggregation, and the grouping of usable readings by
    municipality, pollutant and day. */
module Readings {
  import opened Wrappers
  import opened Text
  import opened Config
  import opened Seqs
  import opened Stations

  /** A measurement record; an absent field is None. `valore` is the raw
      text that `float()` is applied to. */
  datatype Reading = Reading(idsensore: Option<string>, data: Option<string>, valore: Option<string>)

  /** A usable reading, resolved through the directory. */
  datatype Entry = Entry(comune: string, inquinante: string, data: string, valore: real)

  /** A group of readings: one municipality, one pollutant, one day. */
  datatype Key = Key(comune: string, inquinante: string, data: string)

  /** A number parser standing for Python's `float(text)`: None where it raises. */
  type Parser = string -> Option<real>

  /** The day of a reading: `record.get("data", "")[:10]`. */
  function Giorno(r: Reading): string {
    Prefix(r.data.GetOr(""), LunghezzaData)
  }

  /** The loop body shared by both aggregations: a reading is used when its
      sensor is in the directory, its value is present and parses, and its
      day is non-empty. */
  function Contributo(sm: map<Option<string>, Sensor>, parse: Parser, r: Reading): Option<Entry> {
    if r.idsensore !in sm then None
    else if r.valore.None? then None
    else
      match parse(r.valore.value)
      case None => None
      case Some(v) =>
        if Giorno(r) == "" then None
        else Some(Entry(sm[r.idsensore].comuneFormatted, sm[r.idsensore].inquinante, Giorno(r), v))
  }

  /** The usable readings, in input order. */
  function Validi(dati: seq<Reading>, stazioni: seq<Sensor>, parse: Parser): seq<Entry> {
    var sm := SensorMap(stazioni);
    FilterMap((r: Reading) => Contributo(sm, parse, r), dati)
  }

  /** A reading is used exactly when all of the following hold: its sensor id
      is in the directory, its value is present and parses, and its day is
      non-empty. It is then filed under the display name and the pollutant
      the directory lookup gives for that id. */
  lemma ValidiSpec(dati: seq<Reading>, stazioni: seq<Sensor>, parse: Parser, e: Entry)
    ensures var sm := SensorMap(stazioni);
      e in Validi(dati, stazioni, parse) <==>
      exists i :: 0 <= i < |dati|
        && dati[i].idsensore in sm
        && dati[i].valore.Some? && parse(dati[i].valore.value) == Some(e.valore)
        && Giorno(dati[i]) != "" && Giorno(dati[i]) == e.data
        && e.comune == sm[dati[i].idsensore].comuneFormatted
        && e.inquinante == sm[dati[i].idsensore].inquinante
  {
  }

  /** A reading that fails any of the tests leaves the usable readings,
      and so everything computed from them, unchanged. */
  lemma ScartoIgnorato(a: seq<Reading>, r: Reading, b: seq<Reading>, stazioni: seq<Sensor>, parse: Parser)
    requires r.idsensore !in SensorMap(stazioni) || r.valore.None?
      || parse(r.valore.value).None? || Giorno(r) == ""
    ensures Validi(a + [r] + b, stazioni, parse) == Validi(a + b, stazioni, parse)
  {
    var sm := SensorMap(stazioni);
    FilterMapSkips((r: Reading) => Contributo(sm, parse, r), a, r, b);
  }

  /** A reading that passes the tests contributes exactly one entry, at its
      own position: the usable readings before it, its entry, then the
      usable readings after it. With `ScartoIgnorato` this fixes the usable
      readings completely, multiplicity and order included. */
  lemma ValidiUno(a: seq<Reading>, r: Reading, b: seq<Reading>, stazioni: seq<Sensor>, parse: Parser)
    requires Contributo(SensorMap(stazioni), parse, r).Some?
    ensures Validi(a + [r] + b, stazioni, parse)
         == Validi(a, stazioni, parse) + [Contributo(SensorMap(stazioni), parse, r).value] + Validi(b, stazioni, parse)
  {
    var sm := SensorMap(stazioni);
    var f := (r: Reading) => Contributo(sm, parse, r);
    assert Validi(a + [r] + b, stazioni, parse) == FilterMap(f, a + [r] + b);
    assert Validi(a, stazioni, parse) == FilterMap(f, a);
    assert Validi(b, stazioni, parse) == FilterMap(f, b);
    FilterMapKeeps(f, a, r, b);
  }

  function KeyOf(e: Entry): Key {
    Key(e.comune, e.inquinante, e.data)
  }

  /** The values of the readings in group `k`, in input order. */
  function ValuesAt(es: seq<Entry>, k: Key): (vs: seq<real>)
    ensures |vs| <= |es|
    ensures vs == [] <==> forall i :: 0 <= i < |es| ==> KeyOf(es[i]) != k
  {
    if es == [] then []
    else
      assert forall i :: 1 <= i < |es| ==> es[i] == es[1..][i - 1];
      (if KeyOf(es[0]) == k then [es[0].valore] else []) + ValuesAt(es[1..], k)
  }

  lemma ValuesAtCons(e: Entry, es: seq<Entry>, k: Key)
    ensures ValuesAt([e] + es, k) == (if KeyOf(e) == k then [e.valore] else []) + ValuesAt(es, k)
  {
    assert ([e] + es)[1..] == es;
  }

  /** Filing one more reading extends its own group's values only. */
  lemma {:induction false} ValuesAtSnoc(es: seq<Entry>, e: Entry, k: Key)
    ensures ValuesAt(es + [e], k) == ValuesAt(es, k) + (if KeyOf(e) == k then [e.valore] else [])
  {
    if es == [] {
      assert es + [e] == [e] + [];
      ValuesAtCons(e, [], k);
    } else {
      var t := es[1..];
      assert es == [es[0]] + t;
      assert es + [e] == [es[0]] + (t + [e]);
      ValuesAtCons(es[0], t + [e], k);
      ValuesAtCons(es[0], t, k);
      ValuesAtSnoc(t, e, k);
    }
  }

  /** The days on which municipality `c` has a reading of pollutant `p`. */
  function Giorni(es: seq<Entry>, c: string, p: string): set<string> {
    set e | e in es && e.comune == c && e.inquinante == p :: e.data
  }

  /** The loop that files every usable reading under its group, as
      `dati_per_comune[comune][inquinante][data].append(valore)` does: each
      group with at least one reading holds that group's values, in input
      order, and no other group is present. */
  function Buckets(es: seq<Entry>): (b: map<Key, seq<real>>)
    ensures forall k :: k in b <==> ValuesAt(es, k) != []
    ensures forall k :: k in b ==> b[k] == ValuesAt(es, k)
  {
    if es == [] then map[]
    else
      var init := es[..|es| - 1];
      var e := es[|es| - 1];
      var b := Buckets(init);
      var k := KeyOf(e);
      assert es == init + [e];
      BucketsSnoc(init, e, b);
      b[k := (if k in b then b[k] else []) + [e.valore]]
  }

  /** Filing one more reading appends its value to its own group only. */
  lemma BucketsSnoc(init: seq<Entry>, e: Entry, b: map<Key, seq<real>>)
    requires forall k :: k in b <==> ValuesAt(init, k) != []
    requires forall k :: k in b ==> b[k] == ValuesAt(init, k)
    ensures var k := KeyOf(e);
      var b' := b[k := (if k in b then b[k] else []) + [e.valore]];
      && (forall k' :: k' in b' <==> ValuesAt(init + [e], k') != [])
      && (forall k' :: k' in b' ==> b'[k'] == ValuesAt(init + [e], k'))
  {
    var k := KeyOf(e);
    var b' := b[k := (if k in b then b[k] else []) + [e.valore]];
    forall k' ensures (k' in b' <==> ValuesAt(init + [e], k') != []) && (k' in b' ==> b'[k'] == ValuesAt(init + [e], k')) {
      ValuesAtSnoc(init, e, k');
    }
  }

  /** The municipality of every reading, in order. */
  function ComuniDi(es: seq<Entry>): seq<string> {
    seq(|es|, i requires 0 <= i < |es| => es[i].comune)
  }

  /** The keys of a dict keyed by municipality and filled by a loop over
      `es`: each municipality once, in order of first reading. */
  function Comuni(es: seq<Entry>): seq<string> {
    Dedup(ComuniDi(es))
  }

  function Sum(vs: seq<real>): real {
    if vs == [] then 0.0 else vs[0] + Sum(vs[1..])
  }

  /** When every value is above `lo`, so is their sum, `|vs|` times over. */
  lemma {:induction false} SumAbove(vs: seq<real>, lo: real)
    requires |vs| > 0
    requires forall i :: 0 <= i < |vs| ==> vs[i] > lo
    ensures Sum(vs) > lo * (|vs| as real)
  {
    if |vs| == 1 {
      assert vs[1..] == [];
    } else {
      SumAbove(vs[1..], lo);
    }
  }

  /** When every value is below `hi`, so is their sum, `|vs|` times over. */
  lemma {:induction false} SumBelow(vs: seq<real>, hi: real)
    requires |vs| > 0
    requires forall i :: 0 <= i < |vs| ==> vs[i] < hi
    ensures Sum(vs) < hi * (|vs| as real)
  {
    if |vs| == 1 {
      assert vs[1..] == [];
    } else {
      SumBelow(vs[1..], hi);
    }
  }

  /** A value whose `|vs|` multiples make up the sum lies between the
      smallest and the largest value. */
  lemma MeanBetween(vs: seq<real>, m: real)
    requires |vs| > 0 && m * (|vs| as real) == Sum(vs)
    ensures exists i :: 0 <= i < |vs| && vs[i] <= m
    ensures exists j :: 0 <= j < |vs| && m <= vs[j]
  {
    if forall i :: 0 <= i < |vs| ==> vs[i] > m {
      SumAbove(vs, m);
    }
    if forall j :: 0 <= j < |vs| ==> vs[j] < m {
      SumBelow(vs, m);
    }
  }

  /** `sum(valori) / len(valori)`, over exact reals: the value that, taken
      once per reading, gives the same total, so it is no smaller than some
      reading and no larger than some reading. */
  function Mean(vs: seq<real>): (m: real)
    requires |vs| > 0
    ensures m * (|vs| as real) == Sum(vs)
    ensures exists i :: 0 <= i < |vs| && vs[i] <= m
    ensures exists j :: 0 <= j < |vs| && m <= vs[j]
  {
    var m := Sum(vs) / (|vs| as real);
    MeanBetween(vs, m);
    m
  }
}
