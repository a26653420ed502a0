/** The filter engine and the stats aggregator of the dashboard (src/App.tsx). */
module App {
  import opened Wrappers
  import opened Sequences
  import opened Text
  import opened Calendar
  import opened ConvenioTypes

  // ---------------------------------------------------------------- filter

  /** One conjunct of the filter. `Search` holds the already lower-cased term. */
  datatype Criterion = Search(term: string) | AmbitoIs(ambito: string) | EstadoIs(estado: string)

  /** `field?.toLowerCase().includes(term)`: a null field never matches. */
  predicate FieldContains(field: Option<string>, term: string) {
    field.Some? && Contains(Lower(field.value), term)
  }

  predicate Satisfies(c: Convenio, k: Criterion) {
    match k
    case Search(term) =>
      Contains(Lower(c.nombre), term) || FieldContains(c.codigo, term) || FieldContains(c.sector, term)
    case AmbitoIs(a) => c.ambito == a
    case EstadoIs(e) => c.estado == e
  }

  predicate SatisfiesAll(c: Convenio, ks: seq<Criterion>) {
    forall i :: 0 <= i < |ks| ==> Satisfies(c, ks[i])
  }

  /** The criteria `filterConvenios` applies, in its order: one for each
      non-empty (truthy) input. */
  function ActiveCriteria(searchTerm: string, ambito: string, estado: string): seq<Criterion> {
    (if searchTerm != "" then [Search(Lower(searchTerm))] else [])
    + (if ambito != "" then [AmbitoIs(ambito)] else [])
    + (if estado != "" then [EstadoIs(estado)] else [])
  }

  /** A criterion is active exactly when its input is non-empty; there is no
      other criterion, and the search criterion holds the lower-cased term. */
  lemma ActiveCriteriaSpec(searchTerm: string, ambito: string, estado: string)
    ensures |ActiveCriteria(searchTerm, ambito, estado)| <= 3
    ensures Search(Lower(searchTerm)) in ActiveCriteria(searchTerm, ambito, estado) <==> searchTerm != ""
    ensures AmbitoIs(ambito) in ActiveCriteria(searchTerm, ambito, estado) <==> ambito != ""
    ensures EstadoIs(estado) in ActiveCriteria(searchTerm, ambito, estado) <==> estado != ""
    ensures forall k :: k in ActiveCriteria(searchTerm, ambito, estado) ==>
      k == Search(Lower(searchTerm)) || k == AmbitoIs(ambito) || k == EstadoIs(estado)
  {
  }

  /** One conjunctive, order-preserving pass: the records satisfying every
      criterion of `ks`, in their original order (see FilterAllSpec). */
  function FilterAll(cs: seq<Convenio>, ks: seq<Criterion>): (r: seq<Convenio>)
    ensures |r| <= |cs|
  {
    if cs == [] then []
    else (if SatisfiesAll(cs[0], ks) then [cs[0]] else []) + FilterAll(cs[1..], ks)
  }

  /** The filtered list is a subsequence of the input (order kept, nothing
      added), every kept record meets all criteria, and every record that meets
      them is kept. */
  lemma {:induction false} FilterAllSpec(cs: seq<Convenio>, ks: seq<Criterion>)
    ensures IsSubsequence(FilterAll(cs, ks), cs)
    ensures forall i :: 0 <= i < |FilterAll(cs, ks)| ==> FilterAll(cs, ks)[i] in cs && SatisfiesAll(FilterAll(cs, ks)[i], ks)
    ensures forall i :: 0 <= i < |cs| && SatisfiesAll(cs[i], ks) ==> cs[i] in FilterAll(cs, ks)
  {
    if cs != [] {
      FilterAllSpec(cs[1..], ks);
      var r := FilterAll(cs, ks);
      var rest := FilterAll(cs[1..], ks);
      if SatisfiesAll(cs[0], ks) {
        assert r == [cs[0]] + rest;
        assert r[1..] == rest;
        forall i | 0 <= i < |r| ensures r[i] in cs && SatisfiesAll(r[i], ks) {
          if i > 0 { assert r[i] == rest[i - 1]; }
        }
      } else {
        assert r == rest;
      }
      forall i | 0 <= i < |cs| && SatisfiesAll(cs[i], ks) ensures cs[i] in r {
        if i > 0 { assert cs[i] == cs[1..][i - 1]; }
      }
    }
  }

  /** With no criterion nothing is dropped. */
  lemma {:induction false} FilterAllNone(cs: seq<Convenio>)
    ensures FilterAll(cs, []) == cs
  {
    if cs != [] {
      FilterAllNone(cs[1..]);
    }
  }

  /** Filtering again by one more criterion is the same as one pass with it
      added: successive `filter` calls compose into a conjunction. */
  lemma {:induction false} FilterAllSnoc(cs: seq<Convenio>, ks: seq<Criterion>, k: Criterion)
    ensures FilterAll(FilterAll(cs, ks), [k]) == FilterAll(cs, ks + [k])
  {
    if cs != [] {
      FilterAllSnoc(cs[1..], ks, k);
      var c := cs[0];
      assert SatisfiesAll(c, ks + [k]) <==> SatisfiesAll(c, ks) && Satisfies(c, k) by {
        if SatisfiesAll(c, ks) && Satisfies(c, k) {
          forall i | 0 <= i < |ks + [k]| ensures Satisfies(c, (ks + [k])[i]) {
            if i < |ks| { assert (ks + [k])[i] == ks[i]; }
          }
        }
        if SatisfiesAll(c, ks + [k]) {
          assert (ks + [k])[|ks|] == k;
          forall i | 0 <= i < |ks| ensures Satisfies(c, ks[i]) {
            assert (ks + [k])[i] == ks[i];
          }
        }
      }
      assert SatisfiesAll(c, [k]) <==> Satisfies(c, k) by {
        assert [k][0] == k;
      }
      var r := FilterAll(cs, ks);
      var rest := FilterAll(cs[1..], ks);
      if SatisfiesAll(c, ks) {
        assert r == [c] + rest;
        assert r != [] && r[0] == c && r[1..] == rest;
        assert FilterAll(r, [k]) == (if SatisfiesAll(c, [k]) then [c] else []) + FilterAll(rest, [k]);
      } else {
        assert r == rest;
      }
    }
  }

  /** `filterConvenios`: starting from a copy of the list, narrows it by the
      lower-cased search term, then by ambito, then by estado, each step only
      when its input is non-empty. The result is the single conjunctive pass. */
  method FilterConvenios(convenios: seq<Convenio>, searchTerm: string, selectedAmbito: string, selectedEstado: string)
    returns (filtered: seq<Convenio>)
    ensures filtered == FilterAll(convenios, ActiveCriteria(searchTerm, selectedAmbito, selectedEstado))
  {
    ghost var applied: seq<Criterion> := [];
    filtered := convenios;
    FilterAllNone(convenios);

    if searchTerm != "" {
      var term := Lower(searchTerm);
      filtered := FilterAll(filtered, [Search(term)]);
    }
    NarrowStep(convenios, applied, searchTerm != "", Search(Lower(searchTerm)));
    applied := applied + (if searchTerm != "" then [Search(Lower(searchTerm))] else []);

    if selectedAmbito != "" {
      filtered := FilterAll(filtered, [AmbitoIs(selectedAmbito)]);
    }
    NarrowStep(convenios, applied, selectedAmbito != "", AmbitoIs(selectedAmbito));
    applied := applied + (if selectedAmbito != "" then [AmbitoIs(selectedAmbito)] else []);

    if selectedEstado != "" {
      filtered := FilterAll(filtered, [EstadoIs(selectedEstado)]);
    }
    NarrowStep(convenios, applied, selectedEstado != "", EstadoIs(selectedEstado));
    applied := applied + (if selectedEstado != "" then [EstadoIs(selectedEstado)] else []);

    assert applied == ActiveCriteria(searchTerm, selectedAmbito, selectedEstado);
  }

  /** One step of `filterConvenios`: narrowing by `k` when its input is active. */
  lemma NarrowStep(cs: seq<Convenio>, ks: seq<Criterion>, active: bool, k: Criterion)
    ensures (if active then FilterAll(FilterAll(cs, ks), [k]) else FilterAll(cs, ks))
            == FilterAll(cs, ks + (if active then [k] else []))
  {
    if active {
      FilterAllSnoc(cs, ks, k);
    } else {
      assert ks + [] == ks;
    }
  }

  /** With empty searchTerm, ambito and estado the filtered list is the full list. */
  lemma FilterIdentity(cs: seq<Convenio>)
    ensures FilterAll(cs, ActiveCriteria("", "", "")) == cs
  {
    FilterAllNone(cs);
  }

  /** A record is kept iff it meets every active criterion: a non-empty term
      occurs, case-insensitively, in the name, the code or the sector; a
      non-empty ambito or estado is matched exactly. */
  lemma KeptIff(c: Convenio, searchTerm: string, ambito: string, estado: string)
    ensures SatisfiesAll(c, ActiveCriteria(searchTerm, ambito, estado)) <==>
      && (searchTerm != "" ==>
            var term := Lower(searchTerm);
            Contains(Lower(c.nombre), term) || FieldContains(c.codigo, term) || FieldContains(c.sector, term))
      && (ambito != "" ==> c.ambito == ambito)
      && (estado != "" ==> c.estado == estado)
  {
    var s := if searchTerm != "" then [Search(Lower(searchTerm))] else [];
    var a := if ambito != "" then [AmbitoIs(ambito)] else [];
    var e := if estado != "" then [EstadoIs(estado)] else [];
    var ks := ActiveCriteria(searchTerm, ambito, estado);
    assert ks == s + a + e;
    if SatisfiesAll(c, ks) {
      if searchTerm != "" { assert ks[0] == Search(Lower(searchTerm)); }
      if ambito != "" { assert ks[|s|] == AmbitoIs(ambito); }
      if estado != "" { assert ks[|s| + |a|] == EstadoIs(estado); }
    }
  }

  /** A record without code or sector is still found by its name: a null field
      never matches but does not exclude. */
  lemma NullFieldsDoNotExclude(c: Convenio, term: string)
    requires c.codigo.None? && c.sector.None?
    ensures Satisfies(c, Search(term)) <==> Contains(Lower(c.nombre), term)
  {
  }

  lemma LowerRetail()
    ensures Lower("RETAIL") == "retail" && Lower("Retail") == "retail"
  {
    var term := Lower("RETAIL");
    assert term[0] == 'r' && term[1] == 'e' && term[2] == 't' && term[3] == 'a' && term[4] == 'i' && term[5] == 'l';
    var sector := Lower("Retail");
    assert sector[0] == 'r' && sector[1] == 'e' && sector[2] == 't' && sector[3] == 'a' && sector[4] == 'i' && sector[5] == 'l';
  }

  /** Searching "RETAIL" keeps a record whose sector is "Retail", whatever its
      name and code. */
  lemma SearchIsCaseInsensitive(c: Convenio)
    requires c.sector == Some("Retail")
    ensures FilterAll([c], ActiveCriteria("RETAIL", "", "")) == [c]
  {
    LowerRetail();
    var term := Lower("RETAIL");
    var sector := Lower("Retail");
    assert Contains(sector, term);
    assert Satisfies(c, Search(term));
    assert ActiveCriteria("RETAIL", "", "") == [Search(term)];
    assert SatisfiesAll(c, [Search(term)]) by {
      assert [Search(term)][0] == Search(term);
    }
    assert [c][1..] == [];
  }

  // ---------------------------------------------------------------- stats

  /** `data.filter(c => c.estado === estado).length`. */
  function CountEstado(cs: seq<Convenio>, estado: string): (n: nat)
    ensures n <= |cs|
  {
    if cs == [] then 0
    else CountEstado(cs[..|cs| - 1], estado) + (if cs[|cs| - 1].estado == estado then 1 else 0)
  }

  /** `if (convenio.sector)`: a sector is counted only when present and non-empty. */
  predicate HasSector(c: Convenio) {
    c.sector.Some? && c.sector.value != ""
  }

  /** The `porSector` histogram after the `forEach` has seen every record of `cs`. */
  function SectorHistogram(cs: seq<Convenio>): (h: map<string, nat>)
    ensures forall s :: s in h ==> s != "" && 1 <= h[s] <= |cs|
  {
    if cs == [] then map[]
    else
      var h := SectorHistogram(cs[..|cs| - 1]);
      var c := cs[|cs| - 1];
      if HasSector(c) then
        var s := c.sector.value;
        h[s := (if s in h then h[s] else 0) + 1]
      else h
  }

  /** Number of records whose sector is exactly `s`. */
  function CountSector(cs: seq<Convenio>, s: string): (n: nat)
    ensures n <= |cs|
  {
    if cs == [] then 0
    else CountSector(cs[..|cs| - 1], s) + (if cs[|cs| - 1].sector == Some(s) then 1 else 0)
  }

  /** Number of records with a non-empty sector. */
  function CountWithSector(cs: seq<Convenio>): (n: nat)
    ensures n <= |cs|
  {
    if cs == [] then 0
    else CountWithSector(cs[..|cs| - 1]) + (if HasSector(cs[|cs| - 1]) then 1 else 0)
  }

  /** The histogram has a key exactly for each non-empty sector seen, and its
      value is the number of records with that sector. */
  lemma {:induction false} HistogramCounts(cs: seq<Convenio>, s: string)
    ensures s in SectorHistogram(cs) <==> s != "" && CountSector(cs, s) > 0
    ensures s in SectorHistogram(cs) ==> SectorHistogram(cs)[s] == CountSector(cs, s)
  {
    if cs != [] {
      HistogramCounts(cs[..|cs| - 1], s);
    }
  }

  /** Sum of the values of `m` over the keys `ks`. */
  ghost function SumOver(m: map<string, nat>, ks: set<string>): nat
    requires ks <= m.Keys
    decreases ks
  {
    if ks == {} then 0
    else
      var k :| k in ks;
      m[k] + SumOver(m, ks - {k})
  }

  /** The sum does not depend on which key is taken first. */
  lemma {:induction false} SumOverRemove(m: map<string, nat>, ks: set<string>, k: string)
    requires ks <= m.Keys && k in ks
    ensures SumOver(m, ks) == m[k] + SumOver(m, ks - {k})
    decreases ks
  {
    var j :| j in ks && SumOver(m, ks) == m[j] + SumOver(m, ks - {j});
    if j != k {
      SumOverRemove(m, ks - {j}, k);
      SumOverRemove(m, ks - {k}, j);
      assert ks - {j} - {k} == ks - {k} - {j};
    }
  }

  /** Two maps that agree on `ks` have the same sum over `ks`. */
  lemma {:induction false} SumOverAgree(m: map<string, nat>, m': map<string, nat>, ks: set<string>)
    requires ks <= m.Keys && ks <= m'.Keys
    requires forall k :: k in ks ==> m[k] == m'[k]
    ensures SumOver(m, ks) == SumOver(m', ks)
    decreases ks
  {
    if ks != {} {
      var k :| k in ks && SumOver(m, ks) == m[k] + SumOver(m, ks - {k});
      SumOverRemove(m', ks, k);
      SumOverAgree(m, m', ks - {k});
    }
  }

  /** Incrementing one counter (or creating it at 1) raises the sum by one. */
  lemma BumpSum(m: map<string, nat>, s: string, m': map<string, nat>)
    requires m' == m[s := (if s in m then m[s] else 0) + 1]
    ensures SumOver(m', m'.Keys) == SumOver(m, m.Keys) + 1
  {
    if s in m {
      BumpExisting(m, s, m');
    } else {
      BumpNew(m, s, m');
    }
  }

  lemma BumpExisting(m: map<string, nat>, s: string, m': map<string, nat>)
    requires s in m && m' == m[s := m[s] + 1]
    ensures SumOver(m', m'.Keys) == SumOver(m, m.Keys) + 1
  {
    assert m'.Keys == m.Keys;
    SumOverRemove(m', m.Keys, s);
    SumOverRemove(m, m.Keys, s);
    SumOverAgree(m, m', m.Keys - {s});
  }

  lemma BumpNew(m: map<string, nat>, s: string, m': map<string, nat>)
    requires s !in m && m' == m[s := 1]
    ensures SumOver(m', m'.Keys) == SumOver(m, m.Keys) + 1
  {
    assert m'.Keys == m.Keys + {s};
    SumOverRemove(m', m'.Keys, s);
    assert m'.Keys - {s} == m.Keys;
    SumOverAgree(m, m', m.Keys);
  }

  /** The histogram's values add up to the number of records with a non-empty sector. */
  lemma {:induction false} HistogramSum(cs: seq<Convenio>)
    ensures SumOver(SectorHistogram(cs), SectorHistogram(cs).Keys) == CountWithSector(cs)
  {
    if cs != [] {
      var init := cs[..|cs| - 1];
      HistogramSum(init);
      var c := cs[|cs| - 1];
      if HasSector(c) {
        var h := SectorHistogram(init);
        var s := c.sector.value;
        BumpSum(h, s, h[s := (if s in h then h[s] else 0) + 1]);
      }
    }
  }

  /** `!c.fecha_vigencia_fin` skips null and empty end dates, `new Date(...)`
      (here `parse`, `None` for an invalid date) must give a date, and the end
      must be strictly after `now` and no later than `limit`. */
  predicate ExpiresWithin(c: Convenio, now: DateTime, limit: DateTime, parse: string -> Option<DateTime>)
    ensures ExpiresWithin(c, now, limit, parse) ==> HasEndDate(c)
    ensures ExpiresWithin(c, now, limit, parse) ==> Before(now, limit)
  {
    && c.fechaVigenciaFin.Some?
    && c.fechaVigenciaFin.value != ""
    && parse(c.fechaVigenciaFin.value).Some?
    && Before(now, parse(c.fechaVigenciaFin.value).value)
    && !Before(limit, parse(c.fechaVigenciaFin.value).value)
  }

  predicate HasEndDate(c: Convenio) {
    c.fechaVigenciaFin.Some? && c.fechaVigenciaFin.value != ""
  }

  /** `data.filter(c => ...).length` for the expiring-soon window. */
  function CountExpiring(cs: seq<Convenio>, now: DateTime, limit: DateTime, parse: string -> Option<DateTime>): (n: nat)
    ensures n <= |cs|
  {
    if cs == [] then 0
    else CountExpiring(cs[..|cs| - 1], now, limit, parse)
         + (if ExpiresWithin(cs[|cs| - 1], now, limit, parse) then 1 else 0)
  }

  function CountWithEndDate(cs: seq<Convenio>): (n: nat)
    ensures n <= |cs|
  {
    if cs == [] then 0
    else CountWithEndDate(cs[..|cs| - 1]) + (if HasEndDate(cs[|cs| - 1]) then 1 else 0)
  }

  /** The records with a (non-empty) end date, in their order. */
  function WithEndDate(cs: seq<Convenio>): (r: seq<Convenio>)
    ensures |r| == CountWithEndDate(cs)
    ensures forall i :: 0 <= i < |r| ==> HasEndDate(r[i])
  {
    if cs == [] then []
    else WithEndDate(cs[..|cs| - 1]) + (if HasEndDate(cs[|cs| - 1]) then [cs[|cs| - 1]] else [])
  }

  /** Records without an end date never count as expiring soon: the count over
      the list is the count over its end-dated records alone, so it is bounded
      by their number. */
  lemma {:induction false} ExpiringNeedsEndDate(cs: seq<Convenio>, now: DateTime, limit: DateTime, parse: string -> Option<DateTime>)
    ensures CountExpiring(cs, now, limit, parse) == CountExpiring(WithEndDate(cs), now, limit, parse)
    ensures CountExpiring(cs, now, limit, parse) <= CountWithEndDate(cs)
  {
    if cs != [] {
      var init := cs[..|cs| - 1];
      var last := cs[|cs| - 1];
      ExpiringNeedsEndDate(init, now, limit, parse);
      var w := WithEndDate(init);
      if HasEndDate(last) {
        assert WithEndDate(cs) == w + [last];
        assert (w + [last])[..|w|] == w;
      } else {
        assert WithEndDate(cs) == w;
      }
    }
  }

  /** `calculateStats`: the total, the `vigente` count, the sector histogram
      built by the `forEach` loop, and the count of end dates in
      (now, threeMonthsFromNow], where the bound is `now` moved three months on
      by `setMonth`. The clock reading `now` and the date parser are inputs. */
  method CalculateStats(data: seq<Convenio>, now: DateTime, parse: string -> Option<DateTime>)
    returns (stats: ConvenioStats)
    ensures stats.total == |data|
    ensures stats.vigentes == CountEstado(data, "vigente") && stats.vigentes <= stats.total
    ensures stats.porSector == SectorHistogram(data)
    ensures stats.proximosVencer == CountExpiring(data, now, ThreeMonthsAfter(now), parse)
    ensures stats.proximosVencer <= stats.total
  {
    var vigentes := CountEstado(data, "vigente");
    var porSector: map<string, nat> := map[];

    var i := 0;
    while i < |data|
      invariant 0 <= i <= |data|
      invariant porSector == SectorHistogram(data[..i])
    {
      var convenio := data[i];
      assert data[..i + 1][..i] == data[..i];
      if convenio.sector.Some? && convenio.sector.value != "" {
        var s := convenio.sector.value;
        porSector := porSector[s := (if s in porSector then porSector[s] else 0) + 1];
      }
      i := i + 1;
    }
    assert data[..|data|] == data;

    var threeMonthsFromNow := now;
    threeMonthsFromNow := SetMonth(threeMonthsFromNow, now.month + 3);

    var proximosVencer := CountExpiring(data, now, threeMonthsFromNow, parse);

    stats := ConvenioStats(|data|, vigentes, porSector, proximosVencer);
  }

  /** An empty list has an empty histogram and zero counts. */
  lemma StatsOfEmpty(now: DateTime, parse: string -> Option<DateTime>)
    ensures SectorHistogram([]) == map[]
    ensures CountEstado([], "vigente") == 0 && CountExpiring([], now, ThreeMonthsAfter(now), parse) == 0
  {
  }

  /** Two records, one `vigente` in "Retail" and one `derogado` without sector
      or end date: total 2, one vigente, {"Retail": 1}, none expiring. */
  lemma StatsScenario(now: DateTime, parse: string -> Option<DateTime>)
    ensures
      var a := Convenio("a", "A", None, "nacional", Some("Retail"), None, "vigente");
      var b := Convenio("b", "B", None, "nacional", None, None, "derogado");
      && CountEstado([a, b], "vigente") == 1
      && SectorHistogram([a, b]) == map["Retail" := 1]
      && CountExpiring([a, b], now, ThreeMonthsAfter(now), parse) == 0
  {
    var a := Convenio("a", "A", None, "nacional", Some("Retail"), None, "vigente");
    var b := Convenio("b", "B", None, "nacional", None, None, "derogado");
    assert [a, b][..1] == [a];
    assert [a][..0] == [];
    assert SectorHistogram([a]) == map["Retail" := 1];
  }
}
