/** The three summary cards and their click-to-filter behaviour
    (src/components/StatsCards.tsx). */
module StatsCards {
  import opened Wrappers
  import opened ConvenioTypes
  import opened App

  /** "Caducados" is everything that is not `vigente`. */
  function Caducados(stats: ConvenioStats): (n: int)
    ensures stats.vigentes <= stats.total ==> 0 <= n <= stats.total
  {
    stats.total - stats.vigentes
  }

  datatype Card = TotalCard | VigenteCard | CaducadosCard

  predicate Clickable(card: Card) {
    !card.TotalCard?
  }

  /** The estado a card filters by; the total card has none. */
  function FilterValue(card: Card): Option<string> {
    match card
    case TotalCard => None
    case VigenteCard => Some("vigente")
    case CaducadosCard => Some("derogado")
  }

  /** The optional `currentFilter` prop: absent, null, or an estado. */
  datatype CurrentFilter = Undefined | Null | Value(estado: string)

  /** `card.filterValue || null`. */
  function OrNull(v: Option<string>): CurrentFilter {
    if v.Some? && v.value != "" then Value(v.value) else Null
  }

  /** `currentFilter === (card.filterValue || null)`. */
  predicate IsActive(card: Card, current: CurrentFilter)
    ensures IsActive(card, current) ==> !current.Undefined?
    ensures Clickable(card) ==> (IsActive(card, current) <==> current == Value(FilterValue(card).value))
  {
    current == OrNull(FilterValue(card))
  }

  /** The card's `onClick`: `None` when no callback runs, `Some(arg)` when
      `onFilterChange(arg)` is called, `arg` being `None` for null. */
  function OnClick(card: Card, current: CurrentFilter, hasCallback: bool): (call: Option<Option<string>>)
    ensures call.Some? <==> Clickable(card) && hasCallback
    ensures call.Some? && IsActive(card, current) ==> call.value.None?
    ensures call.Some? && !IsActive(card, current) ==> call.value == FilterValue(card) && call.value.Some?
  {
    if Clickable(card) && hasCallback then
      if IsActive(card, current) then Some(None) else Some(FilterValue(card))
    else None
  }

  /** The filter the parent holds after handling a call. */
  function AfterCall(current: CurrentFilter, call: Option<Option<string>>): CurrentFilter {
    match call
    case None => current
    case Some(None) => Null
    case Some(Some(v)) => Value(v)
  }

  /** The total card never calls back, and it is active exactly when the
      current filter is null (not when it is absent). */
  lemma TotalCardInert(current: CurrentFilter, hasCallback: bool)
    ensures OnClick(TotalCard, current, hasCallback).None?
    ensures IsActive(TotalCard, current) <==> current == Null
  {
  }

  /** Clicking a clickable card sets its filter, and clicking it again clears it. */
  lemma ClickTwiceClears(card: Card, current: CurrentFilter)
    requires Clickable(card) && !IsActive(card, current)
    ensures var once := AfterCall(current, OnClick(card, current, true));
      && once == Value(FilterValue(card).value)
      && IsActive(card, once)
      && AfterCall(once, OnClick(card, once, true)) == Null
  {
  }

  /** Whenever the stats are those of `data`, the caducados card counts every
      record that is not `vigente`, so `prorrogado` records as well as
      `derogado` ones, and it is never negative. */
  lemma {:induction false} CaducadosCountsNonVigentes(data: seq<Convenio>, stats: ConvenioStats)
    requires stats.total == |data| && stats.vigentes == CountEstado(data, "vigente")
    ensures Caducados(stats) >= CountEstado(data, "derogado") + CountEstado(data, "prorrogado")
    ensures Caducados(stats) >= 0
  {
    NonVigentesBound(data);
  }

  lemma {:induction false} NonVigentesBound(data: seq<Convenio>)
    ensures |data| - CountEstado(data, "vigente") >= CountEstado(data, "derogado") + CountEstado(data, "prorrogado")
  {
    if data != [] {
      NonVigentesBound(data[..|data| - 1]);
    }
  }

  /** With one `prorrogado` record the caducados card shows 1, yet the filter it
      sets, estado `derogado`, keeps no record: the card's count and its filter
      disagree. */
  lemma CaducadosFilterMismatch(c: Convenio)
    requires c.estado == "prorrogado"
    ensures Caducados(ConvenioStats(1, CountEstado([c], "vigente"), map[], 0)) == 1
    ensures FilterAll([c], ActiveCriteria("", "", FilterValue(CaducadosCard).value)) == []
  {
    assert [c][..0] == [];
    assert ActiveCriteria("", "", "derogado") == [EstadoIs("derogado")];
    assert !SatisfiesAll(c, [EstadoIs("derogado")]) by {
      assert [EstadoIs("derogado")][0] == EstadoIs("derogado");
    }
  }
}
