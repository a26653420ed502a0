/** The publications list: load-and-join, seen filter, mark-as-viewed and the
    type badge colour (src/components/LatestUpdates.tsx). */
module LatestUpdates {
  import opened Wrappers
  import opened Sequences
  import opened ConvenioTypes

  /** A publication with the agreement it refers to, `{ ...pub, convenio }`. */
  datatype Entry = Entry(pub: Publicacion, convenio: Option<Convenio>)

  /** `convenios.find(c => c.id === id)`: the first agreement with that id. */
  function FindConvenio(convenios: seq<Convenio>, id: string): (r: Option<Convenio>)
    ensures r.None? <==> forall i :: 0 <= i < |convenios| ==> convenios[i].id != id
    ensures r.Some? ==> exists i :: 0 <= i < |convenios| && convenios[i] == r.value
                                    && FirstWithId(convenios, id, i)
  {
    if convenios == [] then None
    else if convenios[0].id == id then
      assert FirstWithId(convenios, id, 0);
      Some(convenios[0])
    else
      var r := FindConvenio(convenios[1..], id);
      if r.Some? then
        var i :| 0 <= i < |convenios[1..]| && convenios[1..][i] == r.value && FirstWithId(convenios[1..], id, i);
        assert FirstWithId(convenios, id, i + 1);
        r
      else r
  }

  /** `convenios[i]` is the earliest agreement whose id is `id`. */
  predicate FirstWithId(convenios: seq<Convenio>, id: string, i: int)
    requires 0 <= i < |convenios|
  {
    convenios[i].id == id && forall j :: 0 <= j < i ==> convenios[j].id != id
  }

  /** `(data || []).map(pub => ({ ...pub, convenio: convenios.find(...) }))`. */
  function Attach(pubs: seq<Publicacion>, convenios: seq<Convenio>): (r: seq<Entry>)
    ensures |r| == |pubs|
    ensures forall i :: 0 <= i < |pubs| ==> r[i].pub == pubs[i]
  {
    seq(|pubs|, i requires 0 <= i < |pubs| => Entry(pubs[i], FindConvenio(convenios, pubs[i].convenioId)))
  }

  /** Every publication is joined to the first agreement with its `convenio_id`,
      or to none when no agreement has it. Since the store is asked only for
      publications of the listed agreements, each one is then found. */
  lemma AttachJoinsFirstMatch(pubs: seq<Publicacion>, convenios: seq<Convenio>, i: nat)
    requires i < |pubs|
    ensures var e := Attach(pubs, convenios)[i];
      && (e.convenio.None? <==> forall j :: 0 <= j < |convenios| ==> convenios[j].id != pubs[i].convenioId)
      && (e.convenio.Some? ==> e.convenio.value.id == pubs[i].convenioId)
      && ((exists j :: 0 <= j < |convenios| && convenios[j].id == pubs[i].convenioId) ==> e.convenio.Some?)
  {
  }

  /** The publications shown after a load: none (and no query) when there are no
      agreements; the old list when the call threw; otherwise the returned rows,
      or none for a null payload, each joined to its agreement. */
  function LoadPublicaciones(prev: seq<Entry>, convenios: seq<Convenio>, response: Response<seq<Publicacion>>): (r: seq<Entry>)
    ensures |convenios| == 0 ==> r == []
    ensures |convenios| > 0 && response.Threw? ==> r == prev
    ensures |convenios| > 0 && response.Answered? ==>
      |r| == |response.data.GetOr([])| && forall i :: 0 <= i < |r| ==> r[i].pub == response.data.GetOr([])[i]
  {
    if |convenios| == 0 then []
    else match response
      case Threw(_) => prev
      case Answered(data) => Attach(data.GetOr([]), convenios)
  }

  /** Without agreements the list is empty, whatever the store would answer. */
  lemma LoadWithoutConvenios(prev: seq<Entry>, response: Response<seq<Publicacion>>)
    ensures LoadPublicaciones(prev, [], response) == []
  {
  }

  /** A successful load keeps the store's order and joins each row. */
  lemma LoadKeepsRows(prev: seq<Entry>, convenios: seq<Convenio>, pubs: seq<Publicacion>)
    requires |convenios| > 0
    ensures |LoadPublicaciones(prev, convenios, Answered(Some(pubs)))| == |pubs|
    ensures forall i :: 0 <= i < |pubs| ==>
      LoadPublicaciones(prev, convenios, Answered(Some(pubs)))[i] == Entry(pubs[i], FindConvenio(convenios, pubs[i].convenioId))
  {
  }

  /** The three filter buttons. */
  datatype SeenFilter = Todas | NoVistas | Vistas

  predicate Shown(e: Entry, f: SeenFilter) {
    match f
    case Vistas => e.pub.visto
    case NoVistas => !e.pub.visto
    case Todas => true
  }

  /** `filteredPublicaciones`: the entries the selected button shows, in order. */
  function FilterPublicaciones(entries: seq<Entry>, f: SeenFilter): (r: seq<Entry>)
    ensures |r| <= |entries|
    ensures IsSubsequence(r, entries)
    ensures forall i :: 0 <= i < |r| ==> r[i] in entries && Shown(r[i], f)
    ensures forall i :: 0 <= i < |entries| && Shown(entries[i], f) ==> entries[i] in r
  {
    if entries == [] then []
    else
      var rest := FilterPublicaciones(entries[1..], f);
      if Shown(entries[0], f) then
        assert ([entries[0]] + rest)[1..] == rest;
        [entries[0]] + rest
      else rest
  }

  /** 'todas' shows the whole list. */
  lemma {:induction false} FilterTodas(entries: seq<Entry>)
    ensures FilterPublicaciones(entries, Todas) == entries
  {
    if entries != [] {
      FilterTodas(entries[1..]);
    }
  }

  /** 'vistas' and 'no-vistas' split the list: together they hold every entry once. */
  lemma {:induction false} SeenFiltersPartition(entries: seq<Entry>)
    ensures |FilterPublicaciones(entries, Vistas)| + |FilterPublicaciones(entries, NoVistas)| == |entries|
  {
    if entries != [] {
      SeenFiltersPartition(entries[1..]);
    }
  }

  /** The local update after marking `pubId` viewed: every entry with that id
      gets `visto` true, every other entry is left as it was. */
  function MarkAsViewed(entries: seq<Entry>, pubId: string): (r: seq<Entry>)
    ensures |r| == |entries|
    ensures forall i :: 0 <= i < |entries| && entries[i].pub.id == pubId ==>
      r[i].pub.visto && r[i] == entries[i].(pub := entries[i].pub.(visto := true))
    ensures forall i :: 0 <= i < |entries| && entries[i].pub.id != pubId ==> r[i] == entries[i]
  {
    seq(|entries|, i requires 0 <= i < |entries| =>
      if entries[i].pub.id == pubId then entries[i].(pub := entries[i].pub.(visto := true)) else entries[i])
  }

  /** Marking twice is marking once. */
  lemma MarkAsViewedIdempotent(entries: seq<Entry>, pubId: string)
    ensures MarkAsViewed(MarkAsViewed(entries, pubId), pubId) == MarkAsViewed(entries, pubId)
  {
  }

  /** A marked publication is no longer listed under 'no-vistas'. */
  lemma MarkedLeavesNoVistas(entries: seq<Entry>, pubId: string)
    ensures forall i :: 0 <= i < |FilterPublicaciones(MarkAsViewed(entries, pubId), NoVistas)| ==>
      FilterPublicaciones(MarkAsViewed(entries, pubId), NoVistas)[i].pub.id != pubId
  {
    var marked := MarkAsViewed(entries, pubId);
    var shown := FilterPublicaciones(marked, NoVistas);
    forall i | 0 <= i < |shown| ensures shown[i].pub.id != pubId {
      var j :| 0 <= j < |marked| && marked[j] == shown[i];
    }
  }

  /** `handleMarkAsViewed`: the store's answer to the update is not inspected,
      so the local change is made unless the awaited call threw. */
  function HandleMarkAsViewed(entries: seq<Entry>, pubId: string, threw: bool): (r: seq<Entry>)
    ensures threw ==> r == entries
    ensures !threw ==> r == MarkAsViewed(entries, pubId)
  {
    if threw then entries else MarkAsViewed(entries, pubId)
  }

  const TablasSalarialesColor := "bg-green-100 text-green-800 dark:bg-green-900/30 dark:text-green-300"
  const RevisionColor := "bg-blue-100 text-blue-800 dark:bg-blue-900/30 dark:text-blue-300"
  const ModificacionColor := "bg-amber-100 text-amber-800 dark:bg-amber-900/30 dark:text-amber-300"
  const ActualizacionColor := "bg-gray-100 text-gray-800 dark:bg-gray-900/30 dark:text-gray-300"

  /** The badge colours keyed by publication type. */
  const TypeColors: map<string, string> := map[
    "tablas_salariales" := TablasSalarialesColor,
    "revision" := RevisionColor,
    "modificacion" := ModificacionColor,
    "actualizacion" := ActualizacionColor]

  /** `colors[tipo] || colors.actualizacion`. */
  function GetTypeColor(tipo: string): (r: string)
    ensures r in TypeColors.Values
    ensures tipo in TypeColors ==> r == TypeColors[tipo]
  {
    if tipo in TypeColors && TypeColors[tipo] != "" then TypeColors[tipo] else TypeColors["actualizacion"]
  }

  /** The four known types get their own class; any other type falls back to
      the `actualizacion` class. */
  lemma TypeColorTable(tipo: string)
    ensures GetTypeColor("tablas_salariales") == TablasSalarialesColor
    ensures GetTypeColor("revision") == RevisionColor
    ensures GetTypeColor("modificacion") == ModificacionColor
    ensures GetTypeColor("actualizacion") == ActualizacionColor
    ensures tipo !in {"tablas_salariales", "revision", "modificacion", "actualizacion"} ==>
      GetTypeColor(tipo) == ActualizacionColor
  {
  }
}
