/** The station directory: normalisation of sensor types, the exclusion of
    inactive municipalities, display names of municipalities, and the
    id-to-sensor lookup built from the directory. */
module Stations {
  import opened Wrappers
  import opened Text
  import opened Config
  import opened Seqs

  /** A station/sensor record as the metadata endpoint returns it; an absent
      field is None. */
  datatype RawStation = RawStation(
    idsensore: Option<string>,
    idstazione: Option<string>,
    nomestazione: Option<string>,
    comune: Option<string>,
    provincia: Option<string>,
    nometiposensore: Option<string>,
    unitamisura: Option<string>,
    lat: Option<string>,
    lng: Option<string>)

  /** A directory entry: one monitored pollutant at one station. */
  datatype Sensor = Sensor(
    idsensore: Option<string>,
    idstazione: Option<string>,
    nomestazione: Option<string>,
    comune: string,
    comuneFormatted: string,
    provincia: Option<string>,
    inquinante: string,
    unitamisura: string,
    lat: Option<string>,
    lng: Option<string>)

  /** The value of the first key of `table` that occurs in `tipo`. */
  function FirstMatch(table: seq<(string, string)>, tipo: string): (r: Option<string>)
    ensures r.None? <==> forall i :: 0 <= i < |table| ==> !Contains(tipo, table[i].0)
    ensures r.Some? ==>
      exists i :: 0 <= i < |table| && Contains(tipo, table[i].0) && r.value == table[i].1
        && forall j :: 0 <= j < i ==> !Contains(tipo, table[j].0)
  {
    if table == [] then None
    else if Contains(tipo, table[0].0) then
      Some(table[0].1)
    else
      var r := FirstMatch(table[1..], tipo);
      assert forall i :: 1 <= i < |table| ==> table[i] == table[1..][i - 1];
      if r.Some? then
        var i :| 0 <= i < |table[1..]| && Contains(tipo, table[1..][i].0) && r.value == table[1..][i].1
          && forall j :: 0 <= j < i ==> !Contains(tipo, table[1..][j].0);
        assert forall j :: 0 <= j < i + 1 ==> !Contains(tipo, table[j].0) by {
          forall j | 0 <= j < i + 1 ensures !Contains(tipo, table[j].0) {
            if j > 0 { assert table[j] == table[1..][j - 1]; }
          }
        }
        r
      else
        r
  }

  /** The pollutant code of a sensor type, or None when no key occurs in it. */
  function Normalizza(tipo: string): (r: Option<string>)
    ensures r.None? <==>
      forall i :: 0 <= i < |InquinantiNormalizzati| ==> !Contains(tipo, InquinantiNormalizzati[i].0)
    ensures r.Some? ==>
      exists i :: 0 <= i < |InquinantiNormalizzati|
        && Contains(tipo, InquinantiNormalizzati[i].0)
        && r.value == InquinantiNormalizzati[i].1
        && forall j :: 0 <= j < i ==> !Contains(tipo, InquinantiNormalizzati[j].0)
    ensures r.Some? ==> r.value in {"PM10", "PM2.5", "NO2"}
  {
    FirstMatch(InquinantiNormalizzati, tipo)
  }

  /** The type string need only contain a key: the illustrative type string
      "Particelle sospese PM10" normalises to PM10. */
  lemma NormalizzaEsempio()
    ensures Normalizza("Particelle sospese PM10") == Some("PM10")
  {
    assert OccursAt("Particelle sospese PM10", "PM10", 19);
    ContainsOccurs("Particelle sospese PM10", "PM10");
  }

  /** A key that contains an earlier key is shadowed: wherever it occurs,
      the earlier key occurs too. */
  lemma OccorrenzaInterna(hay: string, lunga: string, corta: string, k: nat, p: nat)
    requires k + |corta| <= |lunga| && lunga[k..k + |corta|] == corta
    requires OccursAt(hay, lunga, p)
    ensures OccursAt(hay, corta, p + k)
  {
    forall i | 0 <= i < |corta| ensures hay[p + k + i] == corta[i] {
      assert hay[p..p + |lunga|][k + i] == lunga[k + i];
    }
  }

  /** An entry whose key's presence implies an earlier neighbour's never
      decides: dropping it leaves the first match unchanged. */
  lemma {:induction false} FirstMatchOmbra(a: seq<(string, string)>, e1: (string, string), e2: (string, string),
                                           b: seq<(string, string)>, tipo: string)
    requires Contains(tipo, e2.0) ==> Contains(tipo, e1.0)
    ensures FirstMatch(a + [e1, e2] + b, tipo) == FirstMatch(a + [e1] + b, tipo)
  {
    if a == [] {
      assert a + [e1, e2] + b == [e1] + ([e2] + b);
      assert a + [e1] + b == [e1] + b;
      assert ([e1] + ([e2] + b))[1..] == [e2] + b;
      assert ([e2] + b)[1..] == b;
      assert ([e1] + b)[1..] == b;
    } else {
      assert (a + [e1, e2] + b)[0] == a[0] && (a + [e1] + b)[0] == a[0];
      assert (a + [e1, e2] + b)[1..] == a[1..] + [e1, e2] + b;
      assert (a + [e1] + b)[1..] == a[1..] + [e1] + b;
      FirstMatchOmbra(a[1..], e1, e2, b, tipo);
    }
  }

  /** The third table entry, "Particelle sospese PM2.5", contains the second
      key "PM2.5", so it never decides a pollutant: normalising with the
      table without it gives the same result for every type string. */
  lemma NormalizzaSenzaTerzaVoce(tipo: string)
    ensures Normalizza(tipo) == FirstMatch(InquinantiNormalizzati[..2] + InquinantiNormalizzati[3..], tipo)
  {
    var t := InquinantiNormalizzati;
    if Contains(tipo, t[2].0) {
      ContainsOccurs(tipo, t[2].0);
      var p :| OccursAt(tipo, t[2].0, p);
      assert t[2].0[19..24] == t[1].0;
      OccorrenzaInterna(tipo, t[2].0, t[1].0, 19, p);
      ContainsOccurs(tipo, t[1].0);
    }
    assert t == [t[0]] + [t[1], t[2]] + t[3..];
    assert t[..2] + t[3..] == [t[0]] + [t[1]] + t[3..];
    FirstMatchOmbra([t[0]], t[1], t[2], t[3..], tipo);
  }

  /** Every entry of the display-name table is what the title-case fallback
      gives for its key, so the table changes no name. */
  lemma NomiComuniCoerenti()
    ensures forall k :: k in NomiComuni ==> NomiComuni[k] == JoinSpace(CapitalizeAll(Words(k)))
  {
    assert NomiComuni.Keys == {"VARESE", "BUSTO ARSIZIO", "SARONNO", "FERNO"};
    forall k | k in NomiComuni ensures NomiComuni[k] == JoinSpace(CapitalizeAll(Words(k))) {
      if k == "VARESE" {
        VareseCoerente();
      } else if k == "SARONNO" {
        SaronnoCoerente();
      } else if k == "FERNO" {
        FernoCoerente();
      } else {
        assert k == "BUSTO ARSIZIO";
        BustoArsizioCoerente();
      }
    }
  }

  lemma VareseCoerente()
    ensures JoinSpace(CapitalizeAll(Words("VARESE"))) == "Varese" == NomiComuni["VARESE"]
  {
    MaiuscoleVarese();
    ParolaCoerente("VARESE", "Varese");
  }

  lemma SaronnoCoerente()
    ensures JoinSpace(CapitalizeAll(Words("SARONNO"))) == "Saronno" == NomiComuni["SARONNO"]
  {
    MaiuscoleSaronno();
    ParolaCoerente("SARONNO", "Saronno");
  }

  lemma FernoCoerente()
    ensures JoinSpace(CapitalizeAll(Words("FERNO"))) == "Ferno" == NomiComuni["FERNO"]
  {
    MaiuscoleFerno();
    ParolaCoerente("FERNO", "Ferno");
  }

  /** A one-word name is capitalised as a whole. */
  lemma ParolaCoerente(w: string, nome: string)
    requires IsWord(w) && Capitalize(w) == nome
    ensures JoinSpace(CapitalizeAll(Words(w))) == nome
  {
    WordsJoinSpace([w]);
  }

  lemma MaiuscoleVarese()
    ensures Capitalize("VARESE") == "Varese"
  {
    assert Lower("E") == "e";
    assert Lower("SE") == "se";
    assert Lower("ESE") == "ese";
    assert Lower("RESE") == "rese";
    assert Lower("ARESE") == "arese";
  }

  lemma MaiuscoleSaronno()
    ensures Capitalize("SARONNO") == "Saronno"
  {
    assert Lower("O") == "o";
    assert Lower("NO") == "no";
    assert Lower("NNO") == "nno";
    assert Lower("ONNO") == "onno";
    assert Lower("RONNO") == "ronno";
    assert Lower("ARONNO") == "aronno";
  }

  lemma MaiuscoleFerno()
    ensures Capitalize("FERNO") == "Ferno"
  {
    assert Lower("O") == "o";
    assert Lower("NO") == "no";
    assert Lower("RNO") == "rno";
    assert Lower("ERNO") == "erno";
  }

  lemma MaiuscoleBusto()
    ensures Capitalize("BUSTO") == "Busto"
  {
    assert Lower("O") == "o";
    assert Lower("TO") == "to";
    assert Lower("STO") == "sto";
    assert Lower("USTO") == "usto";
  }

  lemma MaiuscoleArsizio()
    ensures Capitalize("ARSIZIO") == "Arsizio"
  {
    assert Lower("O") == "o";
    assert Lower("IO") == "io";
    assert Lower("ZIO") == "zio";
    assert Lower("IZIO") == "izio";
    assert Lower("SIZIO") == "sizio";
    assert Lower("RSIZIO") == "rsizio";
  }

  /** A two-word name is capitalised word by word and rejoined. */
  lemma DueParoleCoerenti(k: string, a: string, b: string, nome: string, na: string, nb: string)
    requires IsWord(a) && IsWord(b) && Capitalize(a) == na && Capitalize(b) == nb
    requires k == a + " " + b && nome == na + " " + nb
    ensures JoinSpace(CapitalizeAll(Words(k))) == nome
  {
    var ws := [a, b];
    assert JoinSpace(ws[1..]) == b;
    WordsJoinSpace(ws);
    var cs := CapitalizeAll(ws);
    assert cs[1..] == [nb];
    assert JoinSpace(cs[1..]) == nb;
  }

  lemma BustoArsizioCoerente()
    ensures JoinSpace(CapitalizeAll(Words("BUSTO ARSIZIO"))) == "Busto Arsizio" == NomiComuni["BUSTO ARSIZIO"]
  {
    MaiuscoleBusto();
    MaiuscoleArsizio();
    assert IsWord("BUSTO") && IsWord("ARSIZIO");
    DueParoleCoerenti("BUSTO ARSIZIO", "BUSTO", "ARSIZIO", "Busto Arsizio", "Busto", "Arsizio");
  }

  /** A municipality's display name: the table entry for its upper-cased
      form, otherwise its words, each capitalised, joined by single spaces. */
  function FormattaComune(nome: string): (r: string)
    ensures Upper(nome) in NomiComuni ==> r == NomiComuni[Upper(nome)]
    ensures Upper(nome) !in NomiComuni ==> Words(r) == CapitalizeAll(Words(nome))
    ensures Upper(nome) !in NomiComuni ==> r == JoinSpace(Words(r))
  {
    if Upper(nome) in NomiComuni then NomiComuni[Upper(nome)]
    else
      var ws := CapitalizeAll(Words(nome));
      forall i | 0 <= i < |ws| ensures IsWord(ws[i]) {
        CapitalizeWord(Words(nome)[i]);
      }
      WordsJoinSpace(ws);
      JoinSpace(ws)
  }

  /** One pass of the directory loop: the entry a raw record contributes,
      or None when its municipality is excluded or its type is unknown. */
  function Ammetti(s: RawStation): Option<Sensor> {
    var comune := Upper(s.comune.GetOr(""));
    if comune in ComuniEsclusi then None
    else
      match Normalizza(s.nometiposensore.GetOr(""))
      case None => None
      case Some(inquinante) =>
        Some(Sensor(
          s.idsensore, s.idstazione, s.nomestazione, comune, FormattaComune(comune),
          s.provincia, inquinante, s.unitamisura.GetOr(UnitaPredefinita), s.lat, s.lng))
  }

  /** A record is admitted exactly when its upper-cased municipality is not
      excluded and its sensor type contains some key of the normalisation
      table; the entry then carries the upper-cased municipality, its display
      name, the value of the first key that occurs, and the record's other
      fields, with the default unit when none is given. */
  lemma AmmettiSpec(s: RawStation)
    ensures Ammetti(s).Some? <==>
      && Upper(s.comune.GetOr("")) !in ComuniEsclusi
      && exists i :: 0 <= i < |InquinantiNormalizzati|
           && Contains(s.nometiposensore.GetOr(""), InquinantiNormalizzati[i].0)
    ensures Ammetti(s).Some? ==>
      var x := Ammetti(s).value;
      && x.comune == Upper(s.comune.GetOr(""))
      && x.comuneFormatted == FormattaComune(x.comune)
      && (exists i :: 0 <= i < |InquinantiNormalizzati|
           && Contains(s.nometiposensore.GetOr(""), InquinantiNormalizzati[i].0)
           && x.inquinante == InquinantiNormalizzati[i].1
           && forall j :: 0 <= j < i ==> !Contains(s.nometiposensore.GetOr(""), InquinantiNormalizzati[j].0))
      && x.idsensore == s.idsensore && x.idstazione == s.idstazione
      && x.nomestazione == s.nomestazione && x.provincia == s.provincia
      && x.unitamisura == s.unitamisura.GetOr(UnitaPredefinita)
      && x.lat == s.lat && x.lng == s.lng
  {
    var n := Normalizza(s.nometiposensore.GetOr(""));
  }

  /** The directory: the admitted records, in their original order. */
  function FiltraStazioni(raw: seq<RawStation>): (r: seq<Sensor>)
    ensures |r| <= |raw|
    ensures forall x :: x in r <==> exists i :: 0 <= i < |raw| && Ammetti(raw[i]) == Some(x)
  {
    FilterMap(Ammetti, raw)
  }

  /** `{s["idsensore"]: s for s in stazioni}`: each id maps to the last
      directory entry carrying it. */
  function SensorMap(stazioni: seq<Sensor>): (m: map<Option<string>, Sensor>)
    ensures forall id :: id in m <==> exists i :: 0 <= i < |stazioni| && stazioni[i].idsensore == id
    ensures forall id :: id in m ==>
      m[id].idsensore == id && IsLastWithKey((s: Sensor) => s.idsensore, stazioni, m[id])
  {
    IndexBy((s: Sensor) => s.idsensore, stazioni)
  }

  /** The directory of a concatenation is the concatenation of the
      directories: admitted records keep their input order. */
  lemma FiltraStazioniAppend(a: seq<RawStation>, b: seq<RawStation>)
    ensures FiltraStazioni(a + b) == FiltraStazioni(a) + FiltraStazioni(b)
  {
    FilterMapAppend(Ammetti, a, b);
  }
}
