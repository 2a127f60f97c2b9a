/** `calcola_superamenti`: for every municipality with usable PM10 readings
    in the year-to-date window, the number of days whose mean exceeds the
    threshold, listed by decreasing count. */
module Exceedance {
  import opened Wrappers
  import opened Config
  import opened Seqs
  import opened Stations
  import opened Readings

  datatype Superamento = Superamento(comune: string, giorni: nat)

  /** A day whose readings average strictly above the threshold; a mean of
      exactly 50 does not exceed. */
  predicate Supera(vs: seq<real>) {
    |vs| > 0 && Mean(vs) > SogliaPm10
  }

  /** The threshold test without division: a day exceeds exactly when its
      values sum to more than 50 per reading, so a mean of exactly 50 does
      not count. */
  lemma SuperaSomma(vs: seq<real>)
    ensures Supera(vs) <==> |vs| > 0 && Sum(vs) > SogliaPm10 * (|vs| as real)
  {
    if |vs| > 0 {
      ScalaPositiva(Mean(vs), SogliaPm10, |vs| as real, Sum(vs));
    }
  }

  /** For a positive `n`, `a` exceeds `b` exactly when `a * n` exceeds `b * n`. */
  lemma ScalaPositiva(a: real, b: real, n: real, s: real)
    requires n > 0.0 && a * n == s
    ensures a > b <==> s > b * n
  {
    if a > b {
      assert (a - b) * n > 0.0;
    } else {
      assert (b - a) * n >= 0.0;
    }
  }

  /** The days on which municipality `c`'s PM10 readings average above the
      threshold, read off the usable readings directly. */
  function GiorniSuperamento(es: seq<Entry>, c: string): set<string> {
    set d | d in Giorni(es, c, InquinanteSoglia) && Supera(ValuesAt(es, Key(c, InquinanteSoglia, d)))
  }

  /** The check `info["inquinante"] != "PM10"`. */
  function SoloPm10(es: seq<Entry>): (r: seq<Entry>)
    ensures forall e :: e in r <==> e in es && e.inquinante == InquinanteSoglia
  {
    FilterMap((e: Entry) => if e.inquinante == InquinanteSoglia then Some(e) else None, es)
  }

  /** The PM10 filter keeps each PM10 entry once, at its own position, and
      drops every other entry. */
  lemma SoloPm10Uno(a: seq<Entry>, e: Entry, b: seq<Entry>)
    ensures SoloPm10(a + [e] + b)
         == SoloPm10(a) + (if e.inquinante == InquinanteSoglia then [e] else []) + SoloPm10(b)
  {
    var f := (e: Entry) => if e.inquinante == InquinanteSoglia then Some(e) else None;
    assert SoloPm10(a + [e] + b) == FilterMap(f, a + [e] + b);
    assert SoloPm10(a) == FilterMap(f, a);
    assert SoloPm10(b) == FilterMap(f, b);
    FilterMapAppend(f, a + [e], b);
    FilterMapAppend(f, a, [e]);
    FilterMapCons(f, e, []);
    assert [e] + [] == [e];
  }

  /** The keys of `valori_giornalieri` for municipality `c`. */
  function GiorniDi(es: seq<Entry>, c: string): seq<string> {
    Dedup(FilterMap((e: Entry) => if e.comune == c then Some(e.data) else None, es))
  }

  /** The inner loop: how many of `days` have a mean above the threshold;
      none exactly when no day exceeds, and never more than there are days. */
  function ContaGiorni(b: map<Key, seq<real>>, c: string, days: seq<string>): (n: nat)
    requires forall d :: d in days ==> Key(c, InquinanteSoglia, d) in b
    ensures n <= |days|
    ensures n == 0 <==> forall d :: d in days ==> !Supera(b[Key(c, InquinanteSoglia, d)])
  {
    if days == [] then 0
    else (if Supera(b[Key(c, InquinanteSoglia, days[0])]) then 1 else 0) + ContaGiorni(b, c, days[1..])
  }

  /** Counting over distinct days counts the set of exceeding days. */
  lemma {:induction false} ContaGiorniCard(b: map<Key, seq<real>>, c: string, days: seq<string>)
    requires Distinct(days)
    requires forall d :: d in days ==> Key(c, InquinanteSoglia, d) in b
    ensures ContaGiorni(b, c, days) == |set d | d in days && Supera(b[Key(c, InquinanteSoglia, d)])|
  {
    var s := set d | d in days && Supera(b[Key(c, InquinanteSoglia, d)]);
    if days == [] {
      assert s == {};
    } else {
      var rest := days[1..];
      assert forall d :: d in days <==> d == days[0] || d in rest;
      assert days[0] !in rest;
      ContaGiorniCard(b, c, rest);
      var t := set d | d in rest && Supera(b[Key(c, InquinanteSoglia, d)]);
      if Supera(b[Key(c, InquinanteSoglia, days[0])]) {
        assert s == t + {days[0]};
      } else {
        assert s == t;
      }
    }
  }

  /** The days filed for `c` are its PM10 days. */
  lemma GiorniDiSpec(es: seq<Entry>, c: string)
    requires forall e :: e in es ==> e.inquinante == InquinanteSoglia
    ensures forall d :: d in GiorniDi(es, c) <==> d in Giorni(es, c, InquinanteSoglia)
  {
    forall d | d in Giorni(es, c, InquinanteSoglia) ensures d in GiorniDi(es, c) {
      var e :| e in es && e.comune == c && e.inquinante == InquinanteSoglia && e.data == d;
      var i :| 0 <= i < |es| && es[i] == e;
    }
  }

  /** Every PM10 day of `c` has a group in the grouped readings. */
  lemma GiorniInBuckets(es: seq<Entry>, c: string)
    ensures forall d :: d in Giorni(es, c, InquinanteSoglia) ==> Key(c, InquinanteSoglia, d) in Buckets(es)
  {
    forall d | d in Giorni(es, c, InquinanteSoglia) ensures Key(c, InquinanteSoglia, d) in Buckets(es) {
      var e :| e in es && e.comune == c && e.inquinante == InquinanteSoglia && e.data == d;
      var i :| 0 <= i < |es| && es[i] == e;
      assert KeyOf(es[i]) == Key(c, InquinanteSoglia, d);
    }
  }

  /** Counting over a duplicate-free list of days counts the set `g` of
      those whose group exceeds. */
  lemma ContaGiorniGenerico(b: map<Key, seq<real>>, c: string, days: seq<string>, g: set<string>)
    requires Distinct(days)
    requires forall d :: d in days ==> Key(c, InquinanteSoglia, d) in b
    requires forall d :: d in g <==> d in days && Supera(b[Key(c, InquinanteSoglia, d)])
    ensures ContaGiorni(b, c, days) == |g|
  {
    ContaGiorniCard(b, c, days);
    assert g == set d | d in days && Supera(b[Key(c, InquinanteSoglia, d)]);
  }

  /** The inner loop over `c`'s filed days counts its exceeding days. */
  lemma ContaGiorniSpec(es: seq<Entry>, c: string)
    requires forall e :: e in es ==> e.inquinante == InquinanteSoglia
    requires forall d :: d in GiorniDi(es, c) ==> Key(c, InquinanteSoglia, d) in Buckets(es)
    ensures ContaGiorni(Buckets(es), c, GiorniDi(es, c)) == |GiorniSuperamento(es, c)|
  {
    var b := Buckets(es);
    var days := GiorniDi(es, c);
    var g := GiorniSuperamento(es, c);
    GiorniDiSpec(es, c);
    forall d ensures d in g <==> d in days && Supera(b[Key(c, InquinanteSoglia, d)]) {
      if d in days {
        assert b[Key(c, InquinanteSoglia, d)] == ValuesAt(es, Key(c, InquinanteSoglia, d));
      }
    }
    ContaGiorniGenerico(b, c, days, g);
  }

  /** One result row, built from the grouped readings `b` of `es`. */
  function Voce(es: seq<Entry>, b: map<Key, seq<real>>, c: string): (v: Superamento)
    requires forall e :: e in es ==> e.inquinante == InquinanteSoglia
    requires b == Buckets(es)
    ensures v.comune == c
    ensures v.giorni == |GiorniSuperamento(es, c)|
  {
    GiorniInBuckets(es, c);
    GiorniDiSpec(es, c);
    ContaGiorniSpec(es, c);
    Superamento(c, ContaGiorni(b, c, GiorniDi(es, c)))
  }

  /** The list `risultati` before sorting: one row per municipality, in
      order of first reading. */
  function Riepilogo(es: seq<Entry>): (r: seq<Superamento>)
    requires forall e :: e in es ==> e.inquinante == InquinanteSoglia
    ensures |r| == |Comuni(es)|
    ensures forall i :: 0 <= i < |r| ==> r[i] == Superamento(Comuni(es)[i], |GiorniSuperamento(es, Comuni(es)[i])|)
  {
    var b := Buckets(es);
    var cs := Comuni(es);
    seq(|cs|, i requires 0 <= i < |cs| => Voce(es, b, cs[i]))
  }

  // ---------------------------------------------------------------------
  // Stable sort by decreasing count

  predicate NonIncreasing(s: seq<Superamento>) {
    forall i, j :: 0 <= i < j < |s| ==> s[i].giorni >= s[j].giorni
  }

  /** The rows of `s` whose count is `k`, in order. */
  function ConGiorni(s: seq<Superamento>, k: nat): seq<Superamento> {
    if s == [] then []
    else (if s[0].giorni == k then [s[0]] else []) + ConGiorni(s[1..], k)
  }

  /** A list's rows of count `k`: its head's, then its tail's. */
  lemma ConGiorniCons(y: Superamento, s: seq<Superamento>, k: nat)
    ensures ConGiorni([y] + s, k) == (if y.giorni == k then [y] else []) + ConGiorni(s, k)
  {
    assert ([y] + s)[1..] == s;
  }

  lemma {:induction false} ConGiorniAppend(a: seq<Superamento>, b: seq<Superamento>, k: nat)
    ensures ConGiorni(a + b, k) == ConGiorni(a, k) + ConGiorni(b, k)
  {
    if a == [] {
      assert a + b == b;
    } else {
      var t := a[1..];
      assert a == [a[0]] + t;
      assert a + b == [a[0]] + (t + b);
      ConGiorniCons(a[0], t + b, k);
      ConGiorniCons(a[0], t, k);
      ConGiorniAppend(t, b, k);
    }
  }

  lemma {:induction false} ConGiorniNone(s: seq<Superamento>, k: nat)
    requires forall i :: 0 <= i < |s| ==> s[i].giorni != k
    ensures ConGiorni(s, k) == []
  {
    if s != [] {
      ConGiorniNone(s[1..], k);
    }
  }

  lemma NonIncreasingCoda(s: seq<Superamento>)
    requires NonIncreasing(s) && s != []
    ensures NonIncreasing(s[1..])
  {
    forall i, j | 0 <= i < j < |s| - 1 ensures s[1..][i].giorni >= s[1..][j].giorni {
      assert s[1..][i] == s[i + 1] && s[1..][j] == s[j + 1];
    }
  }

  /** A row at least as large as every count of a sorted list can head it. */
  lemma NonIncreasingCons(y: Superamento, r: seq<Superamento>)
    requires NonIncreasing(r)
    requires forall i :: 0 <= i < |r| ==> r[i].giorni <= y.giorni
    ensures NonIncreasing([y] + r)
  {
    forall i, j | 0 <= i < j < |r| + 1 ensures ([y] + r)[i].giorni >= ([y] + r)[j].giorni {
      assert ([y] + r)[j] == r[j - 1];
      if i > 0 { assert ([y] + r)[i] == r[i - 1]; }
    }
  }

  /** Every row of a multiset drawn from rows no larger than `m` is no
      larger than `m`. */
  lemma SottoLimite(r: seq<Superamento>, t: seq<Superamento>, x: Superamento, m: nat)
    requires multiset(r) == multiset(t) + multiset{x}
    requires forall i :: 0 <= i < |t| ==> t[i].giorni <= m
    requires x.giorni <= m
    ensures forall i :: 0 <= i < |r| ==> r[i].giorni <= m
  {
    forall i | 0 <= i < |r| ensures r[i].giorni <= m {
      assert r[i] in multiset(r);
      if r[i] != x {
        assert r[i] in multiset(t);
        var j :| 0 <= j < |t| && t[j] == r[i];
      }
    }
  }

  /** Inserts `x` after every row whose count is at least its own. */
  function Inserisci(s: seq<Superamento>, x: Superamento): (r: seq<Superamento>)
    requires NonIncreasing(s)
    ensures NonIncreasing(r)
    ensures multiset(r) == multiset(s) + multiset{x}
  {
    if s == [] then [x]
    else if s[0].giorni < x.giorni then
      NonIncreasingCons(x, s);
      [x] + s
    else
      var t := s[1..];
      NonIncreasingCoda(s);
      var rest := Inserisci(t, x);
      assert forall i :: 0 <= i < |t| ==> t[i].giorni <= s[0].giorni;
      SottoLimite(rest, t, x, s[0].giorni);
      NonIncreasingCons(s[0], rest);
      assert s == [s[0]] + t;
      [s[0]] + rest
  }

  /** A row whose count exceeds every count of a sorted list has no
      equal-count companions in it. */
  lemma ConGiorniSopra(s: seq<Superamento>, x: Superamento)
    requires NonIncreasing(s) && s != [] && s[0].giorni < x.giorni
    ensures ConGiorni(s, x.giorni) == []
  {
    forall i | 0 <= i < |s| ensures s[i].giorni != x.giorni {
      if i > 0 { assert s[0].giorni >= s[i].giorni; }
    }
    ConGiorniNone(s, x.giorni);
  }

  /** Inserting `x` puts it after every row with the same count and moves
      no other row relative to those of its count. */
  lemma {:induction false} InserisciConGiorni(s: seq<Superamento>, x: Superamento, k: nat)
    requires NonIncreasing(s)
    ensures ConGiorni(Inserisci(s, x), k) == ConGiorni(s, k) + (if x.giorni == k then [x] else [])
  {
    var tail := if x.giorni == k then [x] else [];
    if s == [] {
      ConGiorniCons(x, [], k);
      assert [x] + [] == [x];
    } else if s[0].giorni < x.giorni {
      ConGiorniCons(x, s, k);
      if x.giorni == k {
        ConGiorniSopra(s, x);
        assert ConGiorni(s, k) + tail == tail + ConGiorni(s, k);
      } else {
        assert tail + ConGiorni(s, k) == ConGiorni(s, k) + tail;
      }
    } else {
      var t := s[1..];
      NonIncreasingCoda(s);
      InserisciConGiorni(t, x, k);
      InserisciDopoTesta(s, x, k);
    }
  }

  /** The step of `InserisciConGiorni` where `x` goes after the head. */
  lemma InserisciDopoTesta(s: seq<Superamento>, x: Superamento, k: nat)
    requires NonIncreasing(s) && s != [] && s[0].giorni >= x.giorni
    requires NonIncreasing(s[1..])
    requires ConGiorni(Inserisci(s[1..], x), k) == ConGiorni(s[1..], k) + (if x.giorni == k then [x] else [])
    ensures ConGiorni(Inserisci(s, x), k) == ConGiorni(s, k) + (if x.giorni == k then [x] else [])
  {
    var tail := if x.giorni == k then [x] else [];
    var t := s[1..];
    var rest := Inserisci(t, x);
    assert Inserisci(s, x) == [s[0]] + rest;
    var head := if s[0].giorni == k then [s[0]] else [];
    ConGiorniCons(s[0], rest, k);
    assert ConGiorni(Inserisci(s, x), k) == head + (ConGiorni(t, k) + tail);
    ConGiorniCons(s[0], t, k);
    assert s == [s[0]] + t;
    assert ConGiorni(s, k) == head + ConGiorni(t, k);
    AppendAssoc(head, ConGiorni(t, k), tail);
  }

  /** `risultati.sort(key=giorni_superamento, reverse=True)`, which Python
      keeps stable. */
  function OrdinaStabile(s: seq<Superamento>): (r: seq<Superamento>)
    ensures NonIncreasing(r)
    ensures multiset(r) == multiset(s)
    ensures forall k :: ConGiorni(r, k) == ConGiorni(s, k)
  {
    if s == [] then []
    else
      var init := s[..|s| - 1];
      var x := s[|s| - 1];
      assert s == init + [x];
      var sorted := OrdinaStabile(init);
      forall k ensures ConGiorni(Inserisci(sorted, x), k) == ConGiorni(s, k) {
        ConGiorniAppend(init, [x], k);
        InserisciConGiorni(sorted, x, k);
      }
      Inserisci(sorted, x)
  }

  // ---------------------------------------------------------------------
  // The whole computation

  /** The rows for a list of usable readings: PM10 only, grouped, counted,
      sorted. */
  function Superamenti(vs: seq<Entry>): (r: seq<Superamento>)
    ensures NonIncreasing(r)
    ensures multiset(r) == multiset(Riepilogo(SoloPm10(vs)))
    ensures forall k :: ConGiorni(r, k) == ConGiorni(Riepilogo(SoloPm10(vs)), k)
  {
    OrdinaStabile(Riepilogo(SoloPm10(vs)))
  }

  /** `calcola_superamenti(dati_anno, stazioni)`: the rows are by
      non-increasing count, they are the unsorted rows rearranged, and rows
      with equal counts come in the same order as before sorting. */
  function CalcolaSuperamenti(dati: seq<Reading>, stazioni: seq<Sensor>, parse: Parser): (r: seq<Superamento>)
    ensures NonIncreasing(r)
    ensures multiset(r) == multiset(Riepilogo(SoloPm10(Validi(dati, stazioni, parse))))
    ensures forall k :: ConGiorni(r, k) == ConGiorni(Riepilogo(SoloPm10(Validi(dati, stazioni, parse))), k)
  {
    Superamenti(Validi(dati, stazioni, parse))
  }

  /** Dropping the readings of other pollutants leaves every municipality's
      PM10 groups, and so its exceeding days, as they were. */
  lemma SoloPm10Superamento(vs: seq<Entry>, c: string)
    ensures GiorniSuperamento(SoloPm10(vs), c) == GiorniSuperamento(vs, c)
  {
    var es := SoloPm10(vs);
    assert Giorni(es, c, InquinanteSoglia) == Giorni(vs, c, InquinanteSoglia);
    forall d ensures ValuesAt(es, Key(c, InquinanteSoglia, d)) == ValuesAt(vs, Key(c, InquinanteSoglia, d)) {
      SoloPm10Values(vs, Key(c, InquinanteSoglia, d));
    }
  }

  lemma {:induction false} SoloPm10Values(vs: seq<Entry>, k: Key)
    requires k.inquinante == InquinanteSoglia
    ensures ValuesAt(SoloPm10(vs), k) == ValuesAt(vs, k)
  {
    if vs != [] {
      var f := (e: Entry) => if e.inquinante == InquinanteSoglia then Some(e) else None;
      assert SoloPm10(vs) == FilterMap(f, vs);
      SoloPm10Values(vs[1..], k);
      if vs[0].inquinante == InquinanteSoglia {
        assert SoloPm10(vs) == [vs[0]] + SoloPm10(vs[1..]);
      } else {
        assert SoloPm10(vs) == SoloPm10(vs[1..]);
      }
    }
  }

  /** The exceeding days are among the municipality's PM10 days. */
  lemma GiorniSuperamentoLimite(vs: seq<Entry>, c: string)
    ensures GiorniSuperamento(vs, c) <= Giorni(vs, c, InquinanteSoglia)
    ensures |GiorniSuperamento(vs, c)| <= |Giorni(vs, c, InquinanteSoglia)|
  {
    var g := Giorni(vs, c, InquinanteSoglia);
    var s := GiorniSuperamento(vs, c);
    assert g == s + (g - s);
  }

  lemma RigaConteggio(vs: seq<Entry>, x: Superamento)
    requires x in Riepilogo(SoloPm10(vs))
    ensures x.giorni == |GiorniSuperamento(vs, x.comune)|
  {
    var u := Riepilogo(SoloPm10(vs));
    var j :| 0 <= j < |u| && u[j] == x;
    SoloPm10Superamento(vs, x.comune);
  }

  /** Each row's count is the number of distinct days on which that
      municipality's usable PM10 readings average strictly above 50, and so
      at most the number of its distinct days. */
  lemma SuperamentiConteggio(vs: seq<Entry>)
    ensures var r := Superamenti(vs);
      && (forall i :: 0 <= i < |r| ==> r[i].giorni == |GiorniSuperamento(vs, r[i].comune)|)
      && (forall i :: 0 <= i < |r| ==> r[i].giorni <= |Giorni(vs, r[i].comune, InquinanteSoglia)|)
  {
    var u := Riepilogo(SoloPm10(vs));
    var r := Superamenti(vs);
    forall i | 0 <= i < |r|
      ensures r[i].giorni == |GiorniSuperamento(vs, r[i].comune)|
      ensures r[i].giorni <= |Giorni(vs, r[i].comune, InquinanteSoglia)|
    {
      assert r[i] in multiset(u);
      RigaConteggio(vs, r[i]);
      GiorniSuperamentoLimite(vs, r[i].comune);
    }
  }

  // ---------------------------------------------------------------------
  // Which municipalities appear, and in which order ties come

  /** Position of a row's municipality among the first readings `firsts`. */
  function Rango(firsts: seq<string>, v: Superamento): int {
    if v.comune in firsts then FirstIndex(firsts, v.comune) else -1
  }

  /** Rows whose municipalities come in order of first reading. */
  predicate InOrdine(s: seq<Superamento>, firsts: seq<string>) {
    forall i, j :: 0 <= i < j < |s| ==> Rango(firsts, s[i]) < Rango(firsts, s[j])
  }

  lemma {:induction false} ConGiorniSubset(s: seq<Superamento>, k: nat)
    ensures forall y :: y in ConGiorni(s, k) ==> y in s
  {
    if s != [] {
      ConGiorniSubset(s[1..], k);
    }
  }

  /** The tail of rows in order is in order, and comes after the head. */
  lemma InOrdineCoda(s: seq<Superamento>, firsts: seq<string>)
    requires InOrdine(s, firsts) && s != []
    ensures InOrdine(s[1..], firsts)
    ensures forall j :: 0 <= j < |s| - 1 ==> Rango(firsts, s[0]) < Rango(firsts, s[1..][j])
  {
    forall i, j | 0 <= i < j < |s| - 1 ensures Rango(firsts, s[1..][i]) < Rango(firsts, s[1..][j]) {
      assert s[1..][i] == s[i + 1] && s[1..][j] == s[j + 1];
    }
    forall j | 0 <= j < |s| - 1 ensures Rango(firsts, s[0]) < Rango(firsts, s[1..][j]) {
      assert s[1..][j] == s[j + 1];
    }
  }

  /** A row ranked before every row of an ordered list can head it. */
  lemma InOrdineCons(y: Superamento, r: seq<Superamento>, firsts: seq<string>)
    requires InOrdine(r, firsts)
    requires forall z :: z in r ==> Rango(firsts, y) < Rango(firsts, z)
    ensures InOrdine([y] + r, firsts)
  {
    forall i, j | 0 <= i < j < |r| + 1 ensures Rango(firsts, ([y] + r)[i]) < Rango(firsts, ([y] + r)[j]) {
      assert ([y] + r)[j] == r[j - 1];
      if i > 0 { assert ([y] + r)[i] == r[i - 1]; }
    }
  }

  lemma {:induction false} ConGiorniInOrdine(s: seq<Superamento>, firsts: seq<string>, k: nat)
    requires InOrdine(s, firsts)
    ensures InOrdine(ConGiorni(s, k), firsts)
  {
    if s != [] {
      var t := s[1..];
      InOrdineCoda(s, firsts);
      ConGiorniInOrdine(t, firsts, k);
      ConGiorniSubset(t, k);
      var rest := ConGiorni(t, k);
      assert s == [s[0]] + t;
      ConGiorniCons(s[0], t, k);
      if s[0].giorni == k {
        forall z | z in rest ensures Rango(firsts, s[0]) < Rango(firsts, z) {
          var j :| 0 <= j < |t| && t[j] == z;
        }
        InOrdineCons(s[0], rest, firsts);
      }
    }
  }

  lemma {:induction false} ConGiorniMember(s: seq<Superamento>, k: nat, i: nat)
    requires i < |s| && s[i].giorni == k
    ensures exists q :: 0 <= q < |ConGiorni(s, k)| && ConGiorni(s, k)[q] == s[i]
  {
    if i > 0 {
      assert s[1..][i - 1] == s[i];
      ConGiorniMember(s[1..], k, i - 1);
      var q :| 0 <= q < |ConGiorni(s[1..], k)| && ConGiorni(s[1..], k)[q] == s[i];
      if s[0].giorni == k {
        assert ConGiorni(s, k)[q + 1] == s[i];
      } else {
        assert ConGiorni(s, k) == ConGiorni(s[1..], k);
      }
    } else {
      assert ConGiorni(s, k)[0] == s[0];
    }
  }

  /** Two rows of count `k` keep their relative order in `ConGiorni(s, k)`. */
  lemma {:induction false} ConGiorniPosizioni(s: seq<Superamento>, k: nat, i: nat, j: nat)
    requires i < j < |s| && s[i].giorni == k && s[j].giorni == k
    ensures exists p, q :: 0 <= p < q < |ConGiorni(s, k)| && ConGiorni(s, k)[p] == s[i] && ConGiorni(s, k)[q] == s[j]
  {
    var rest := ConGiorni(s[1..], k);
    assert s[1..][j - 1] == s[j];
    if i == 0 {
      ConGiorniMember(s[1..], k, j - 1);
      var q :| 0 <= q < |rest| && rest[q] == s[j];
      assert ConGiorni(s, k) == [s[0]] + rest;
      assert ConGiorni(s, k)[0] == s[i] && ConGiorni(s, k)[q + 1] == s[j];
    } else {
      assert s[1..][i - 1] == s[i];
      ConGiorniPosizioni(s[1..], k, i - 1, j - 1);
      var p, q :| 0 <= p < q < |rest| && rest[p] == s[i] && rest[q] == s[j];
      if s[0].giorni == k {
        assert ConGiorni(s, k) == [s[0]] + rest;
        assert ConGiorni(s, k)[p + 1] == s[i] && ConGiorni(s, k)[q + 1] == s[j];
      } else {
        assert ConGiorni(s, k) == rest;
      }
    }
  }

  /** The unsorted rows name the municipalities of the PM10 readings, each
      once, in order of first reading. */
  lemma RiepilogoComuni(es: seq<Entry>)
    requires forall e :: e in es ==> e.inquinante == InquinanteSoglia
    ensures forall p :: 0 <= p < |Riepilogo(es)| ==> Riepilogo(es)[p].comune in ComuniDi(es)
    ensures InOrdine(Riepilogo(es), ComuniDi(es))
  {
  }

  lemma RiepilogoCopre(es: seq<Entry>, e: Entry)
    requires forall e :: e in es ==> e.inquinante == InquinanteSoglia
    requires e in es
    ensures exists p :: 0 <= p < |Riepilogo(es)| && Riepilogo(es)[p].comune == e.comune
  {
    var u := Riepilogo(es);
    var cs := Comuni(es);
    var k :| 0 <= k < |es| && es[k] == e;
    var firsts := ComuniDi(es);
    assert firsts[k] == e.comune;
    assert e.comune in firsts;
    assert e.comune in cs;
    var p :| 0 <= p < |cs| && cs[p] == e.comune;
    assert u[p].comune == e.comune;
  }

  /** Municipalities with the same count appear in the order of their first
      usable PM10 reading: the sort is stable and the unsorted list follows
      first encounter. */
  lemma SuperamentiStabile(vs: seq<Entry>)
    ensures var r := Superamenti(vs);
      var firsts := ComuniDi(SoloPm10(vs));
      && (forall i :: 0 <= i < |r| ==> r[i].comune in firsts)
      && forall i, j :: 0 <= i < j < |r| && r[i].giorni == r[j].giorni ==>
           FirstIndex(firsts, r[i].comune) < FirstIndex(firsts, r[j].comune)
  {
    var es := SoloPm10(vs);
    var firsts := ComuniDi(es);
    var u := Riepilogo(es);
    var r := Superamenti(vs);
    RiepilogoComuni(es);
    forall i | 0 <= i < |r| ensures r[i].comune in firsts {
      assert r[i] in multiset(u);
    }
    forall i, j | 0 <= i < j < |r| && r[i].giorni == r[j].giorni
      ensures FirstIndex(firsts, r[i].comune) < FirstIndex(firsts, r[j].comune)
    {
      var k := r[i].giorni;
      ConGiorniPosizioni(r, k, i, j);
      ConGiorniInOrdine(u, firsts, k);
      var p, q :| 0 <= p < q < |ConGiorni(r, k)| && ConGiorni(r, k)[p] == r[i] && ConGiorni(r, k)[q] == r[j];
      assert ConGiorni(r, k) == ConGiorni(u, k);
      assert Rango(firsts, r[i]) < Rango(firsts, r[j]);
    }
  }

  /** No municipality has two rows. */
  lemma SuperamentiDistinti(vs: seq<Entry>)
    ensures var r := Superamenti(vs);
      forall i, j :: 0 <= i < j < |r| ==> r[i].comune != r[j].comune
  {
    var r := Superamenti(vs);
    SuperamentiConteggio(vs);
    SuperamentiStabile(vs);
    forall i, j | 0 <= i < j < |r| ensures r[i].comune != r[j].comune {
      var gi, gj := r[i].giorni, r[j].giorni;
      assert r[i].comune == r[j].comune ==> gi == gj;
    }
  }

  /** Every row belongs to a municipality with a usable PM10 reading. */
  lemma SuperamentiDaLetture(vs: seq<Entry>, i: nat)
    requires i < |Superamenti(vs)|
    ensures exists e :: e in vs && e.comune == Superamenti(vs)[i].comune && e.inquinante == InquinanteSoglia
  {
    var es := SoloPm10(vs);
    var u := Riepilogo(es);
    var r := Superamenti(vs);
    RiepilogoComuni(es);
    assert r[i] in multiset(u);
    var p :| 0 <= p < |u| && u[p] == r[i];
    assert r[i].comune in ComuniDi(es);
    var k :| 0 <= k < |es| && es[k].comune == r[i].comune;
    assert es[k] in es;
  }

  /** Every municipality with a usable PM10 reading has a row. */
  lemma SuperamentiCompleti(vs: seq<Entry>, e: Entry)
    requires e in vs && e.inquinante == InquinanteSoglia
    ensures exists i :: 0 <= i < |Superamenti(vs)| && Superamenti(vs)[i].comune == e.comune
  {
    var es := SoloPm10(vs);
    var u := Riepilogo(es);
    var r := Superamenti(vs);
    assert e in es;
    RiepilogoCopre(es, e);
    var p :| 0 <= p < |u| && u[p].comune == e.comune;
    assert u[p] in multiset(r);
    var i :| 0 <= i < |r| && r[i] == u[p];
  }

  /** The result has exactly one row per municipality with at least one
      usable PM10 reading. */
  lemma SuperamentiComuni(vs: seq<Entry>)
    ensures var r := Superamenti(vs);
      && (forall i, j :: 0 <= i < j < |r| ==> r[i].comune != r[j].comune)
      && (forall i :: 0 <= i < |r| ==>
            exists e :: e in vs && e.comune == r[i].comune && e.inquinante == InquinanteSoglia)
      && (forall e :: e in vs && e.inquinante == InquinanteSoglia ==>
            exists i :: 0 <= i < |r| && r[i].comune == e.comune)
  {
    SuperamentiDistinti(vs);
    forall i | 0 <= i < |Superamenti(vs)|
      ensures exists e :: e in vs && e.comune == Superamenti(vs)[i].comune && e.inquinante == InquinanteSoglia
    {
      SuperamentiDaLetture(vs, i);
    }
    forall e | e in vs && e.inquinante == InquinanteSoglia
      ensures exists i :: 0 <= i < |Superamenti(vs)| && Superamenti(vs)[i].comune == e.comune
    {
      SuperamentiCompleti(vs, e);
    }
  }
}
