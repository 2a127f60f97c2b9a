# Air quality in the province of Varese: the data-shaping core

`scripts/fetch_data.py` downloads the station directory and the readings from
the Lombardy open-data API. It then shapes them into two documents:

- the yearly count of PM10 exceedance days per municipality;
- the chart data of the web page.

This project models the pure part of that pipeline in Dafny. It covers the
filter that builds the sensor directory, the municipality display names,
`calcola_superamenti` and `prepara_dati_grafici`. It proves what each of them
promises.

Modules follow the program's structure:

- `Wrappers`: `Option`.
- `Text`: ASCII models of the Python string operations used. These are
  `upper`, `lower`, `capitalize`, `split`, `' '.join`, substring `in` and
  slicing `[:n]`.
- `Seqs`: filtering, Python-dict idioms (last-wins comprehension,
  first-encounter key order) and first-occurrence indices.
- `Lex`: Python's string order, `sorted(set(...))` and `max`.
- `Config`: the module-level tables `COMUNI_ESCLUSI`,
  `INQUINANTI_NORMALIZZATI` and `NOMI_COMUNI`, the default unit and the
  threshold.
- `Stations`: `formatta_comune`, the directory loop of `fetch_stazioni`, and
  the id-to-sensor map.
- `Readings`: the test that makes a reading usable, and grouping by
  municipality, pollutant and day.
- `Exceedance`: `calcola_superamenti`.
- `Charts`: `prepara_dati_grafici`.

Three outside facts are parameters:

- `float(text)`: a partial parser `string -> Option<real>`;
- `round(x, 1)`: a function `real -> real`;
- the run's own date, used when no record has a day.

Averages are taken over exact reals. Days are the first ten characters of the
API timestamps, i.e. ISO `YYYY-MM-DD` dates (the `full-date` form of section
5.6 of RFC 3339). They are compared as strings, in Python's code-point order.
Section 5.1 of RFC 3339 makes that order chronological.

Facts about the code that the proofs bring out:

- `sensore_map` is a dict comprehension, so when two directory entries share
  a sensor id the last one wins (`Stations.SensorMap`).
- A reading without `idsensore` looks up the key `None`. It therefore matches
  a directory entry that also lacks an id. The model keeps ids as
  `Option<string>` so that this stays visible.
- The `if serie:` guard (line 293) always holds, because every grouped pair
  has at least one day (`Charts.SerieNonVuota`). The `elif serie:` branch
  (line 301) is reached exactly when the reference day is not among the
  pair's days.
- Each entry of `NOMI_COMUNI` is what the title-case fallback produces for
  its key anyway (`Stations.NomiComuniCoerenti`). Likewise the
  `INQUINANTI_NORMALIZZATI` key "Particelle sospese PM2.5" never decides,
  because the earlier key "PM2.5" occurs wherever it does
  (`Stations.NormalizzaSenzaTerzaVoce`).
- `data_riferimento` is the latest day of *all* records, used or not. So a
  pair that has readings on that day has it as the last day of its series.
  The "today" value therefore always equals the last point of the series
  (`Charts.OggiUltimoPunto`).

## Model

| member | source | states |
|---|---|---|
| Stations.FormattaComune | scripts/fetch_data.py:56-61 | a name whose upper-case form is in `NOMI_COMUNI` gets the table's spelling; otherwise the words of the result are the words of the name, each capitalised, and the result is those words joined by single spaces |
| Text.WordsJoinSpace | scripts/fetch_data.py:61 | splitting on whitespace undoes joining with single spaces: the fallback's words survive the join unchanged |
| Text.WordsKeepContent | scripts/fetch_data.py:61 | `split()` drops exactly the whitespace: the words, concatenated, are the non-space characters of the name in order |
| Text.CapitalizeWord | scripts/fetch_data.py:61 | `capitalize()` turns a word into a word (non-empty, no whitespace), so the capitalised words are what the join receives |
| Text.ContainsOccurs | scripts/fetch_data.py:89 | the substring test `key in tipo_sensore` holds exactly when the key occurs at some position of the type string |
| Stations.Normalizza | scripts/fetch_data.py:85-93 | a type string yields a pollutant exactly when it contains some key of `INQUINANTI_NORMALIZZATI`; the pollutant is the value of the first such key in table order, and it is PM10, PM2.5 or NO2 |
| Stations.NormalizzaEsempio | scripts/fetch_data.py:26-32 | an illustrative type string, "Particelle sospese PM10", normalises to PM10: containing a key is enough |
| Stations.NormalizzaSenzaTerzaVoce | scripts/fetch_data.py:26-32 | the entry "Particelle sospese PM2.5" contains the earlier key "PM2.5", so it never decides: dropping it from the table changes no type string's pollutant |
| Stations.NomiComuniCoerenti | scripts/fetch_data.py:35-40 | every entry of `NOMI_COMUNI` is exactly what the title-case fallback gives for its key |
| Stations.AmmettiSpec | scripts/fetch_data.py:78-105 | the contract of `Stations.Ammetti`, one pass of the loop: a raw record enters the directory exactly when its upper-cased municipality is not excluded and its type contains a key; the entry carries the upper-cased municipality, its display name, the first key's pollutant, the default unit when none is given, and the record's other fields |
| Stations.FiltraStazioni | scripts/fetch_data.py:77-105 | the directory holds exactly the entries admitted records produce, and is no longer than the input |
| Stations.FiltraStazioniAppend | scripts/fetch_data.py:77-105 | the directory of a concatenation is the concatenation of the directories, so entries keep their input order |
| Stations.SensorMap | scripts/fetch_data.py:162 | the lookup has a key exactly for each id of the directory, and maps it to the last entry carrying that id |
| Seqs.IndexBy | scripts/fetch_data.py:216 | a dict comprehension keyed by `key` has exactly the keys of the items and maps each to the last item with that key |
| Seqs.LastWithKeyUnique | scripts/fetch_data.py:216 | the last item with a given key is unique |
| Readings.ValidiSpec | scripts/fetch_data.py:247-267 | the contract of `Readings.Contributo` and `Readings.Validi`, the three tests shared with lines 165-185: a reading is used exactly when its id is in the lookup, its value is present and parses, and its ten-character day is non-empty; it is filed under the display name and pollutant of the looked-up entry, with that day and the parsed value |
| Readings.ValidiUno | scripts/fetch_data.py:247-275 | a reading that passes the tests contributes exactly one entry, at its own position among the usable readings; with `Readings.ScartoIgnorato` this fixes the usable readings, how often each occurs and their order |
| Readings.ScartoIgnorato | scripts/fetch_data.py:165-185 | a reading failing any test leaves the usable readings, and everything computed from them, unchanged |
| Readings.Buckets | scripts/fetch_data.py:269-275 | the grouping has a group exactly for each (municipality, pollutant, day) with a usable reading, holding that group's values in input order |
| Readings.ValuesAtSnoc | scripts/fetch_data.py:273-275 | filing one more reading appends its value to its own group and leaves every other group as it was |
| Seqs.Dedup | scripts/fetch_data.py:187-191 | the keys of a dict filled by a loop: each distinct element once, ordered by first occurrence |
| Readings.Mean | scripts/fetch_data.py:201 | the mean, taken once per value, adds up to the values' sum, and lies between the smallest and the largest value |
| Exceedance.SuperaSomma | scripts/fetch_data.py:201-202 | a day exceeds exactly when its values sum to more than 50 per reading; a mean of exactly 50 does not count |
| Exceedance.SoloPm10 | scripts/fetch_data.py:170-172 | the PM10 test keeps exactly the usable readings of PM10 |
| Exceedance.SoloPm10Uno | scripts/fetch_data.py:170-195 | the PM10 test keeps each PM10 entry once, at its own position, and drops every other entry |
| Exceedance.ContaGiorni | scripts/fetch_data.py:199-203 | the count is at most the number of days, and zero exactly when no day's mean is above 50 |
| Exceedance.ContaGiorniCard | scripts/fetch_data.py:199-203 | counting over distinct days equals the size of the set of exceeding days |
| Exceedance.ContaGiorniSpec | scripts/fetch_data.py:199-203 | the loop over a municipality's filed days counts exactly its days whose PM10 mean is strictly above 50 |
| Exceedance.Voce | scripts/fetch_data.py:198-208 | a row carries its municipality and the number of its distinct PM10 days whose mean is strictly above 50 |
| Exceedance.Riepilogo | scripts/fetch_data.py:197-208 | before sorting, there is one row per municipality, in order of first reading, with its exceedance-day count |
| Exceedance.Inserisci | scripts/fetch_data.py:210 | inserting a row into a list sorted by non-increasing count keeps it sorted and adds exactly that row |
| Exceedance.InserisciConGiorni | scripts/fetch_data.py:210 | inserting a row after every row of at least its count puts it after the rows of its own count and moves none of them |
| Exceedance.OrdinaStabile | scripts/fetch_data.py:210 | the sort yields non-increasing counts, is a permutation, and keeps the relative order of rows with equal counts |
| Exceedance.Superamenti | scripts/fetch_data.py:187-210 | the sorted rows of the usable readings are by non-increasing count, a rearrangement of the per-municipality rows of the PM10 readings, with equal counts in their unsorted order |
| Exceedance.CalcolaSuperamenti | scripts/fetch_data.py:160-211 | the result is by non-increasing count, is a permutation of the unsorted rows, and rows with equal counts keep their unsorted order |
| Exceedance.SoloPm10Superamento | scripts/fetch_data.py:170-172 | dropping other pollutants leaves each municipality's exceeding PM10 days as they were |
| Exceedance.GiorniSuperamentoLimite | scripts/fetch_data.py:198-203 | the exceeding days are among the municipality's PM10 days, so there are no more of them |
| Exceedance.SuperamentiConteggio | scripts/fetch_data.py:198-203 | every row's count is the number of distinct days whose mean of usable PM10 readings is strictly above 50, and at most the number of its distinct days |
| Exceedance.SuperamentiStabile | scripts/fetch_data.py:187-210 | rows with equal counts come in the order of their municipality's first usable PM10 reading |
| Exceedance.SuperamentiComuni | scripts/fetch_data.py:187-208 | exactly one row per municipality with a usable PM10 reading: no municipality twice, none without a reading, none missing |
| Lex.LessTransitive | scripts/fetch_data.py:232 | Python's string order is transitive |
| Lex.LessTotal | scripts/fetch_data.py:232 | Python's string order is total |
| Lex.SortedSet | scripts/fetch_data.py:232 | `sorted(set(xs))` is strictly ascending and has exactly the elements of `xs` |
| Lex.AscendingUnique | scripts/fetch_data.py:232 | two strictly ascending lists with the same elements are equal, so the sorted list is determined by the set |
| Lex.Max | scripts/fetch_data.py:244 | `max` of a non-empty collection is a member and no member is greater; an empty collection has none |
| Charts.ElencoComuni | scripts/fetch_data.py:227-232 | `comuni` is strictly ascending and lists exactly the display names of the directory |
| Charts.DataRiferimento | scripts/fetch_data.py:237-245 | the reference day is the day of some record and no record's non-empty day is later; with no such day it is the run's own date |
| Charts.PreparaDatiGrafici | scripts/fetch_data.py:214-305 | the document's three per-municipality maps share their keys; `comuni` and `data_riferimento` are as above |
| Charts.Inquinanti | scripts/fetch_data.py:269-272 | a municipality's pollutants are those of its usable readings, each once, in order of first reading |
| Charts.DateDi | scripts/fetch_data.py:286 | a pair's days, ascending, are exactly the days on which it has a usable reading |
| Charts.GruppoDelGiorno | scripts/fetch_data.py:273-275 | a day has a group of values for a pair exactly when the pair has a usable reading that day, which is the `data_oggi in date_valori` test |
| Charts.SerieDi | scripts/fetch_data.py:285-291 | a series is strictly ascending by day, has exactly the pair's days, and each point carries the rounded mean of that day's values |
| Charts.Punti | scripts/fetch_data.py:286-291 | one point per given day, in the days' order, each carrying the rounded mean of that day's group |
| Charts.SerieNonVuota | scripts/fetch_data.py:293 | every grouped pair has a non-empty series, so the guard always holds |
| Charts.Oggi | scripts/fetch_data.py:298-303 | the "today" value is the rounded mean on the reference day when the pair has readings that day, otherwise the last point of its series |
| Charts.SerieTemporali | scripts/fetch_data.py:278-294 | `serie_temporali` has a key exactly for each municipality with a usable reading, and within it a key exactly for each of that municipality's pollutants |
| Charts.DatiOggi | scripts/fetch_data.py:278-303 | `dati_oggi` has the same municipalities and, within each, the same pollutants as `serie_temporali` |
| Charts.InquinantiDisponibili | scripts/fetch_data.py:278-295 | `inquinanti_disponibili` has a key exactly for each municipality with a usable reading |
| Charts.ComuniDelDocumento | scripts/fetch_data.py:269-281 | a municipality has a series map, a "today" map and a pollutant list exactly when it has a usable reading |
| Charts.InquinantiChiavi | scripts/fetch_data.py:283-303 | within a municipality, a pollutant has a series exactly when there is a usable reading of it, and then also a "today" value and a place in the list |
| Charts.SerieDelDocumento | scripts/fetch_data.py:283-295 | each series in the document is non-empty, strictly ascending, has exactly the pair's days, and carries each day's rounded mean |
| Charts.InquinantiDelDocumento | scripts/fetch_data.py:281-295 | `inquinanti_disponibili[c]` lists exactly the pollutants with a series in `c`, each once, in order of first reading |
| Charts.OggiUltimaSerie | scripts/fetch_data.py:298-303 | when no usable reading is dated after the reference day, the "today" value is the last point of the series |
| Charts.ValidiPrimaDelRiferimento | scripts/fetch_data.py:238-267 | every usable reading is dated no later than the reference day |
| Charts.OggiUltimoPunto | scripts/fetch_data.py:244-303 | in the document, the "today" value of every pair equals the last point of its series |

## Left out

- The HTTP calls of `fetch_stazioni`, `fetch_dati_sensore` and `fetch_tutti_dati` are network I/O. So are their time-window computation and their per-request error handling.
- `salva_dati`, the directory creation and `main` are file writes, JSON serialisation and console output.
- The `ultimo_aggiornamento` timestamp is the wall clock. The fallback date, used when no record has a non-empty ten-character day, is a parameter.
- The `SOGLIE` table is only copied into the output.
- Floating point is not modelled: averages are exact reals. `float()` and `round(x, 1)` are abstract parameters. Non-finite values are out of reach: `float()` accepts "nan", "inf" and overflowing literals, and a NaN reading makes its day's mean NaN, so the day never exceeds and its series point is NaN. A parser returning `Option<real>` can neither keep nor drop such a reading faithfully.
- Text is ASCII only. `upper`, `capitalize` and `split` ignore Unicode case mappings and Unicode whitespace.
- JSON `null` fields are not distinguished from missing ones. Both are `None`. The source would raise on a `null` `comune`, `nometiposensore` (the substring test of line 89) or `data`. A `null` `unitamisura` stays `null` in the source, whereas the model gives it the default unit.
- A reading's `valore` is modelled as text given to `float()`. Numeric JSON values are taken to reach the parser in the same way.
- The key order of the JSON objects `serie_temporali`, `dati_oggi` and `inquinanti_disponibili` is not modelled: they are Dafny maps. The order of the lists `comuni` and `inquinanti_disponibili[c]` and of the exceedance list is modelled.
- Stations.FiltraStazioni: the insertion order of the directory is stated through `Stations.FiltraStazioniAppend`, not in the function's own contract.
