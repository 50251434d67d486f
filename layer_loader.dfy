/**
 * `carregar_camada` of both Flask apps: a one-hour cache over two
 * dictionaries keyed by layer id (the datasets and the moments they were
 * loaded), in front of a fixed transform pipeline, and the layer loop of
 * `criar_mapa_customizado` that counts the layers it adds.
 *
 * The clock is passed in: `now` is the reading taken for the freshness test,
 * `later` the one stored with a freshly loaded dataset. The shapefile
 * directory is a map from file name to what reading it (and reprojecting it)
 * yields; `simplify` stands for the GEOS simplification at tolerance 0.0005.
 */
module LayerLoader {
  import opened Common
  import opened Geometry
  import opened Frames

  /** The two Flask apps: `app_gerador_mapas.py` and `app_gerador_mapas_final.py`. */
  datatype App = Original | Final

  /** One entry of `LAYER_MAPPING`, without its colour and style values. */
  datatype Descriptor = Descriptor(shapefile: string, filter: Option<string>)

  /** What reading a source file yields: a dataset, or an exception from the reader or the reprojection. */
  datatype SourceFile = Readable(frame: GeoFrame) | Unreadable

  const TTL: real := 3600.0
  const Decimals: nat := 5
  const Jurisdicao := "jurisdicao"

  const OriginalLayers: map<string, Descriptor> := map[
    "rodovias-federais" := Descriptor("fed_trecho_rodoviario_l.shp", None),
    "rodovias-estaduais" := Descriptor("est_trecho_rodoviario_l.shp", None),
    "ferrovias" := Descriptor("fer_trecho_ferrovia_l.shp", None),
    "pontes" := Descriptor("bnm_ponte_p.shp", None),
    "tuneis" := Descriptor("bnm_tunel_l.shp", None),
    "viadutos" := Descriptor("bnm_viaduto_l.shp", None),
    "hidrovias" := Descriptor("hhi_trecho_hidrovia_l.shp", None),
    "dutos" := Descriptor("dut_trecho_duto_l.shp", None),
    "terminais" := Descriptor("tte_terminal_ponto_a.shp", None),
    "helipontos" := Descriptor("aer_pista_ponto_pouso_p.shp", None),
    "construcoes-aero" := Descriptor("edf_edif_constr_aeroportuaria_a.shp", None),
    "limite-uf" := Descriptor("lml_unidade_federacao_a.shp", None),
    "municipios" := Descriptor("lml_municipio_a.shp", None)
  ]

  const FinalLayers: map<string, Descriptor> := map[
    "rodovias-federais" := Descriptor("rod_via_deslocamento_l.shp", Some("Federal")),
    "rodovias-estaduais" := Descriptor("rod_via_deslocamento_l.shp", Some("Estadual/Distrital")),
    "ferrovias" := Descriptor("fer_trecho_ferroviario_l.shp", None),
    "pontes" := Descriptor("tra_ponte_l.shp", None),
    "tuneis" := Descriptor("tra_tunel_l.shp", None),
    "viadutos" := Descriptor("tra_passagem_elevada_viaduto_l.shp", None),
    "hidrovias" := Descriptor("hdv_trecho_hidroviario_l.shp", None),
    "dutos" := Descriptor("dut_trecho_duto_l.shp", None),
    "terminais" := Descriptor("hdv_atracadouro_terminal_p.shp", None),
    "helipontos" := Descriptor("aer_pista_ponto_pouso_p.shp", None),
    "construcoes-aero" := Descriptor("edf_edif_constr_aeroportuaria_p.shp", None),
    "limite-uf" := Descriptor("lml_unidade_federacao_a.shp", None),
    "municipios" := Descriptor("lml_municipio_a.shp", None)
  ]

  const OriginalColumns := ["nome", "tipotrecho", "bitola", "categoria", "tipo"]
  const FinalColumns := ["nome", "tipotrecho", "bitola", "categoria", "tipo", "jurisdicao", "revestimen", "operaciona"]

  function LayerTable(app: App): map<string, Descriptor>
  {
    if app == Final then FinalLayers else OriginalLayers
  }

  function EssentialColumns(app: App): seq<string>
  {
    if app == Final then FinalColumns else OriginalColumns
  }

  /** The final app's `if filtro and 'jurisdicao' in gdf.columns`. */
  predicate FilterApplies(filter: Option<string>, gdf: GeoFrame)
  {
    filter.Some? && filter.value != "" && Jurisdicao in gdf.columns
  }

  /** Only the two road layers of the final app carry a filter. */
  lemma OnlyRoadLayersFiltered(app: App, id: string)
    requires id in LayerTable(app) && LayerTable(app)[id].filter.Some?
    ensures app == Final && (id == "rodovias-federais" || id == "rodovias-estaduais")
  {
  }

  /** The filter step: `gdf[gdf['jurisdicao'] == filtro]` when it applies. */
  function FilterStep(gdf: GeoFrame, filter: Option<string>): (r: GeoFrame)
    ensures r.columns == gdf.columns && |r.rows| <= |gdf.rows|
    ensures FilterApplies(filter, gdf) ==>
      && (forall f :: f in r.rows <==> f in gdf.rows && Get(f, Jurisdicao) == Text(filter.value))
      && (forall f :: multiset(r.rows)[f] == if Get(f, Jurisdicao) == Text(filter.value) then multiset(gdf.rows)[f] else 0)
      && IsSubseq(r.rows, gdf.rows)
    ensures !FilterApplies(filter, gdf) ==> r == gdf
  {
    if FilterApplies(filter, gdf) then WhereEqual(gdf, Jurisdicao, filter.value) else gdf
  }

  /**
   * Everything after reading: filter (final app only), the simplify gate on
   * the first feature, rounding to five places, column pruning. `None` is the
   * IndexError that `gdf.geometry.iloc[0]` raises on an empty dataset.
   */
  function Transform(app: App, filter: Option<string>, gdf: GeoFrame, simplify: Geometry -> Geometry): (r: Option<GeoFrame>)
    ensures var filtered := if app == Final then FilterStep(gdf, filter) else gdf;
      && (r.None? <==> IsEmptyFrame(filtered))
      && (r.Some? ==>
        && r.value.columns == ExistingColumns(EssentialColumns(app), gdf.columns) + [GeometryColumn]
        && |r.value.rows| == |filtered.rows| > 0
        && forall i :: 0 <= i < |r.value.rows| ==>
          && r.value.rows[i].attrs == Restrict(filtered.rows[i].attrs, ExistingColumns(EssentialColumns(app), gdf.columns))
          && (IsPointLike(filtered.rows[0].geometry) ==> r.value.rows[i].geometry == Rounded(filtered.rows[i].geometry, Decimals))
          && (!IsPointLike(filtered.rows[0].geometry) ==> r.value.rows[i].geometry == Rounded(simplify(filtered.rows[i].geometry), Decimals))
          && (IsRoundedKind(r.value.rows[i].geometry) ==> OnGrid(r.value.rows[i].geometry, Decimals)))
  {
    var filtered := if app == Final then FilterStep(gdf, filter) else gdf;
    if IsEmptyFrame(filtered) then None
    else
      var simplified := if !IsPointLike(filtered.rows[0].geometry) then Simplificar(filtered, simplify) else filtered;
      var rounded := ReduzirPrecisao(simplified, Decimals);
      ReduzirOnGrid(simplified, Decimals);
      Some(PruneColumns(rounded, EssentialColumns(app)))
  }

  /** With the jurisdiction filter active, every kept feature carries the filter value. */
  lemma FilteredRowsMatch(gdf: GeoFrame, filter: Option<string>, simplify: Geometry -> Geometry)
    requires FilterApplies(filter, gdf)
    ensures var r := Transform(Final, filter, gdf, simplify);
      r.Some? ==> (|r.value.rows| <= |gdf.rows| &&
        forall i :: 0 <= i < |r.value.rows| ==> Get(r.value.rows[i], Jurisdicao) == Text(filter.value))
  {
    var r := Transform(Final, filter, gdf, simplify);
    if r.Some? {
      var filtered := FilterStep(gdf, filter);
      var kept := ExistingColumns(FinalColumns, gdf.columns);
      JurisdicaoKept(gdf.columns);
      forall i | 0 <= i < |r.value.rows| ensures Get(r.value.rows[i], Jurisdicao) == Text(filter.value) {
        assert filtered.rows[i] in filtered.rows;
        GetRestricted(r.value.rows[i], filtered.rows[i], kept, Jurisdicao);
      }
    }
  }

  lemma JurisdicaoKept(columns: seq<string>)
    requires Jurisdicao in columns
    ensures Jurisdicao in ExistingColumns(FinalColumns, columns)
  {
    assert FinalColumns[5] == Jurisdicao;
  }

  /** A kept column reads the same after the attributes are restricted. */
  lemma GetRestricted(f: Feature, e: Feature, kept: seq<string>, c: string)
    requires c in kept && f.attrs == Restrict(e.attrs, kept)
    ensures Get(f, c) == Get(e, c)
  {
  }

  /** Without an active filter no feature is dropped: the load fails only on an empty file. */
  lemma UnfilteredKeepsAllRows(app: App, filter: Option<string>, gdf: GeoFrame, simplify: Geometry -> Geometry)
    requires app == Original || !FilterApplies(filter, gdf)
    ensures var r := Transform(app, filter, gdf, simplify);
      (r.Some? <==> |gdf.rows| > 0) && (r.Some? ==> |r.value.rows| == |gdf.rows|)
  {
  }

  // ---------------------------------------------------------------- the cache

  /** `CACHE_LAYERS` and `CACHE_TIMESTAMP`. */
  datatype CacheState = CacheState(layers: map<string, GeoFrame>, stamps: map<string, real>)

  /** `CACHE_TIMESTAMP.get(layer_id, 0)`. */
  function StampOf(st: CacheState, id: string): real
  {
    if id in st.stamps then st.stamps[id] else 0.0
  }

  /** The cache answers for `id` at `now`. */
  predicate IsFresh(st: CacheState, id: string, now: real)
  {
    id in st.layers && now - StampOf(st, id) < TTL
  }

  /** Every cached dataset is non-empty. */
  predicate NonEmptyEntries(st: CacheState)
  {
    forall id :: id in st.layers ==> |st.layers[id].rows| > 0
  }

  /** Reading the layer's file succeeds and its transform leaves at least one feature. */
  predicate FileLoads(app: App, files: map<string, SourceFile>, simplify: Geometry -> Geometry, id: string)
  {
    && id in LayerTable(app)
    && LayerTable(app)[id].shapefile in files
    && files[LayerTable(app)[id].shapefile].Readable?
    && Transform(app, LayerTable(app)[id].filter, files[LayerTable(app)[id].shapefile].frame, simplify).Some?
  }

  /** The dataset a successful read of the layer's file yields. */
  function LoadedFrame(app: App, files: map<string, SourceFile>, simplify: Geometry -> Geometry, id: string): GeoFrame
    requires FileLoads(app, files, simplify, id)
  {
    Transform(app, LayerTable(app)[id].filter, files[LayerTable(app)[id].shapefile].frame, simplify).value
  }

  /** One call of `carregar_camada`: the dataset returned and the cache afterwards. */
  function LoadStep(app: App, st: CacheState, files: map<string, SourceFile>, simplify: Geometry -> Geometry,
                    id: string, now: real, later: real): (res: (Option<GeoFrame>, CacheState))
    ensures IsFresh(st, id, now) ==> res == (Some(st.layers[id]), st)
    ensures !IsFresh(st, id, now) && id !in LayerTable(app) ==> res == (None, st)
    ensures !IsFresh(st, id, now) && id in LayerTable(app) && LayerTable(app)[id].shapefile !in files ==> res == (None, st)
    ensures !IsFresh(st, id, now) && FileLoads(app, files, simplify, id) ==>
      var loaded := LoadedFrame(app, files, simplify, id);
      res == (Some(loaded), CacheState(st.layers[id := loaded], st.stamps[id := later]))
    ensures !IsFresh(st, id, now) && !FileLoads(app, files, simplify, id) ==> res == (None, st)
    ensures res.0.None? ==> res.1 == st
    ensures !IsFresh(st, id, now) && res.0.Some? ==>
      && id in LayerTable(app)
      && LayerTable(app)[id].shapefile in files
      && files[LayerTable(app)[id].shapefile].Readable?
      && res.0 == Transform(app, LayerTable(app)[id].filter, files[LayerTable(app)[id].shapefile].frame, simplify)
      && res.1 == CacheState(st.layers[id := res.0.value], st.stamps[id := later])
    ensures res.1 == st || (res.0.Some? && res.1 == CacheState(st.layers[id := res.0.value], st.stamps[id := later]))
    ensures st.layers.Keys <= res.1.layers.Keys && st.stamps.Keys <= res.1.stamps.Keys
    ensures NonEmptyEntries(st) ==> NonEmptyEntries(res.1) && (res.0.Some? ==> |res.0.value.rows| > 0)
  {
    if IsFresh(st, id, now) then (Some(st.layers[id]), st)
    else if id !in LayerTable(app) then (None, st)
    else
      var desc := LayerTable(app)[id];
      if desc.shapefile !in files then (None, st)
      else match files[desc.shapefile]
        case Unreadable => (None, st)
        case Readable(gdf) =>
          var out := Transform(app, desc.filter, gdf, simplify);
          if out.None? then (None, st)
          else (out, CacheState(st.layers[id := out.value], st.stamps[id := later]))
  }

  /** A stale entry is not evicted: a failed reload leaves it, and its stamp, in place. */
  lemma StaleEntryKept(app: App, st: CacheState, files: map<string, SourceFile>, simplify: Geometry -> Geometry,
                       id: string, now: real, later: real)
    requires id in st.layers && !IsFresh(st, id, now)
    ensures var res := LoadStep(app, st, files, simplify, id, now, later);
      res.0.None? ==> id in res.1.layers && res.1.layers[id] == st.layers[id] && StampOf(res.1, id) == StampOf(st, id)
  {
  }

  /** A dataset loaded at `later` is served from the cache by every call before `later + 3600`. */
  lemma {:induction false} ServedUntilExpiry(app: App, st: CacheState, files: map<string, SourceFile>,
                                            files2: map<string, SourceFile>, simplify: Geometry -> Geometry,
                                            simplify2: Geometry -> Geometry, id: string,
                                            now: real, later: real, now2: real, later2: real)
    requires !IsFresh(st, id, now)
    requires LoadStep(app, st, files, simplify, id, now, later).0.Some?
    requires now2 < later + TTL
    ensures var first := LoadStep(app, st, files, simplify, id, now, later);
      LoadStep(app, first.1, files2, simplify2, id, now2, later2) == first
  {
    var first := LoadStep(app, st, files, simplify, id, now, later);
    assert first.1 == CacheState(st.layers[id := first.0.value], st.stamps[id := later]);
    assert StampOf(first.1, id) == later;
    assert IsFresh(first.1, id, now2);
  }

  /** From `later + 3600` on, the entry is stale and the file is read again. */
  lemma {:induction false} ReloadedAfterExpiry(app: App, st: CacheState, files: map<string, SourceFile>,
                                              simplify: Geometry -> Geometry, id: string,
                                              now: real, later: real, now2: real, later2: real)
    requires !IsFresh(st, id, now)
    requires LoadStep(app, st, files, simplify, id, now, later).0.Some?
    requires now2 >= later + TTL
    ensures var first := LoadStep(app, st, files, simplify, id, now, later);
      var second := LoadStep(app, first.1, files, simplify, id, now2, later2);
      second.0 == first.0 && second.1.stamps[id] == later2
  {
    var first := LoadStep(app, st, files, simplify, id, now, later);
    assert first.1 == CacheState(st.layers[id := first.0.value], st.stamps[id := later]);
    assert StampOf(first.1, id) == later;
    assert !IsFresh(first.1, id, now2);
  }

  /** The two cache dictionaries of one app, and its layer loop. */
  class LayerCache {
    const app: App
    var layers: map<string, GeoFrame>
    var stamps: map<string, real>

    function State(): CacheState
      reads this
    {
      CacheState(layers, stamps)
    }

    /** Both dictionaries have the same keys and hold only non-empty datasets. */
    ghost predicate Valid()
      reads this
    {
      layers.Keys == stamps.Keys && NonEmptyEntries(State())
    }

    constructor (app: App)
      ensures this.app == app && layers == map[] && stamps == map[]
      ensures Valid()
    {
      this.app := app;
      layers := map[];
      stamps := map[];
    }

    /** `carregar_camada(layer_id)`. */
    method Load(id: string, files: map<string, SourceFile>, simplify: Geometry -> Geometry, now: real, later: real)
      returns (r: Option<GeoFrame>)
      requires Valid()
      modifies this
      ensures Valid()
      ensures (r, State()) == LoadStep(app, old(State()), files, simplify, id, now, later)
    {
      if id in layers {
        var stamp := if id in stamps then stamps[id] else 0.0;
        if now - stamp < TTL {
          return Some(layers[id]);
        }
      }
      if id !in LayerTable(app) {
        return None;
      }
      var desc := LayerTable(app)[id];
      if desc.shapefile !in files {
        return None;
      }
      match files[desc.shapefile]
      case Unreadable =>
        return None;
      case Readable(gdf) =>
        r := Transform(app, desc.filter, gdf, simplify);
        if r.None? {
          return None;
        }
        layers := layers[id := r.value];
        stamps := stamps[id := later];
    }

    /**
     * The layer loop of `criar_mapa_customizado`: ids outside the layer
     * table are skipped, as are loads that give nothing and layers whose
     * rendering raises (`RenderFails`); every other id is counted once.
     */
    method Compose(selected: seq<string>, files: map<string, SourceFile>, simplify: Geometry -> Geometry,
                   now: real, renderFails: set<string>)
      returns (added: seq<string>, count: nat)
      requires Valid()
      modifies this
      ensures Valid()
      ensures count == |added|
      ensures (added, State()) == ComposeSpec(app, old(State()), selected, files, simplify, now, renderFails)
    {
      count := 0;
      added := [];
      ghost var spec := ComposeSpec(app, State(), selected, files, simplify, now, renderFails);
      assert selected[0..] == selected;
      assert added + spec.0 == spec.0;
      for i := 0 to |selected|
        invariant Valid()
        invariant count == |added|
        invariant spec.0 == added + ComposeSpec(app, State(), selected[i..], files, simplify, now, renderFails).0
        invariant spec.1 == ComposeSpec(app, State(), selected[i..], files, simplify, now, renderFails).1
      {
        ghost var before := State();
        ghost var prev := added;
        ghost var step := LayerStep(app, before, files, simplify, now, renderFails, selected[i]);
        ghost var rest := ComposeSpec(app, step.1, selected[i + 1..], files, simplify, now, renderFails);
        ComposeUnfold(app, before, selected[i..], files, simplify, now, renderFails);
        assert selected[i..][0] == selected[i] && selected[i..][1..] == selected[i + 1..];
        assert spec.0 == prev + (if step.0 then [selected[i]] + rest.0 else rest.0);
        var id := selected[i];
        if id in LayerTable(app) {
          var gdf := Load(id, files, simplify, now, now);
          assert step == (gdf.Some? && !IsEmptyFrame(gdf.value) && !RenderFails(app, id, gdf.value, renderFails), State());
          if gdf.Some? && !IsEmptyFrame(gdf.value) && !RenderFails(app, id, gdf.value, renderFails) {
            count := count + 1;
            added := added + [id];
            AppendAssoc(prev, [id], rest.0);
          }
        }
        assert State() == step.1;
      }
      assert selected[|selected|..] == [];
      assert added + [] == added;
    }
  }

  /** A circle marker can be placed at the geometry: a Point with coordinates. */
  predicate MarkerDrawable(g: Geometry)
  {
    g.Point? && g.at.Some?
  }

  /**
   * Adding a loaded layer to the map raises. `renderFails` are the ids for
   * which the map library raises; the final app also draws a layer whose
   * first feature is a Point or MultiPoint as one circle marker per row at
   * `row.geometry.y, row.geometry.x`, which raises for any row that is not
   * a non-empty Point (an empty Point has no coordinates, and the marker
   * refuses a location that is not a number).
   */
  function RenderFails(app: App, id: string, gdf: GeoFrame, renderFails: set<string>): (fails: bool)
    ensures id in renderFails ==> fails
    ensures app == Final && !IsEmptyFrame(gdf) && gdf.rows[0].geometry.MultiPoint? ==> fails
    ensures app == Final && !IsEmptyFrame(gdf) && IsPointLike(gdf.rows[0].geometry) && !MarkerDrawable(gdf.rows[|gdf.rows| - 1].geometry) ==> fails
    ensures fails && id !in renderFails ==>
      && app == Final && !IsEmptyFrame(gdf) && IsPointLike(gdf.rows[0].geometry)
      && exists i :: 0 <= i < |gdf.rows| && !MarkerDrawable(gdf.rows[i].geometry)
    ensures app == Final && !IsEmptyFrame(gdf) && IsPointLike(gdf.rows[0].geometry)
      && (exists i :: 0 <= i < |gdf.rows| && !MarkerDrawable(gdf.rows[i].geometry))
      ==> fails
    ensures app == Original ==> (fails <==> id in renderFails)
  {
    || id in renderFails
    || (app == Final && !IsEmptyFrame(gdf) && IsPointLike(gdf.rows[0].geometry)
        && exists i :: 0 <= i < |gdf.rows| && !MarkerDrawable(gdf.rows[i].geometry))
  }

  /** One id of the layer loop: whether it is added, and the cache after loading it. */
  function LayerStep(app: App, st: CacheState, files: map<string, SourceFile>, simplify: Geometry -> Geometry,
                     now: real, renderFails: set<string>, id: string): (res: (bool, CacheState))
    ensures res.0 ==> id in LayerTable(app) && id !in renderFails
    ensures id !in LayerTable(app) ==> res == (false, st)
    ensures id in LayerTable(app) ==>
      var load := LoadStep(app, st, files, simplify, id, now, now);
      && res.1 == load.1
      && (res.0 <==> load.0.Some? && !IsEmptyFrame(load.0.value) && !RenderFails(app, id, load.0.value, renderFails))
    ensures st.layers.Keys <= res.1.layers.Keys <= st.layers.Keys + {id}
  {
    if id !in LayerTable(app) then (false, st)
    else
      var load := LoadStep(app, st, files, simplify, id, now, now);
      (load.0.Some? && !IsEmptyFrame(load.0.value) && !RenderFails(app, id, load.0.value, renderFails), load.1)
  }

  /** The ids the layer loop adds, in order, and the cache it leaves. */
  function ComposeSpec(app: App, st: CacheState, selected: seq<string>, files: map<string, SourceFile>,
                       simplify: Geometry -> Geometry, now: real, renderFails: set<string>): (res: (seq<string>, CacheState))
    ensures |res.0| <= |selected|
    ensures forall id :: id in res.0 ==> id in selected && id in LayerTable(app) && id !in renderFails
    ensures IsSubseq(res.0, selected)
    ensures st.layers.Keys <= res.1.layers.Keys
    ensures res.1.layers.Keys <= st.layers.Keys + set id | id in selected
    decreases |selected|
  {
    if selected == [] then ([], st)
    else
      var step := LayerStep(app, st, files, simplify, now, renderFails, selected[0]);
      var rest := ComposeSpec(app, step.1, selected[1..], files, simplify, now, renderFails);
      if step.0 then ([selected[0]] + rest.0, rest.1) else rest
  }

  lemma AppendAssoc<T>(a: seq<T>, b: seq<T>, c: seq<T>)
    ensures a + (b + c) == (a + b) + c
  {
  }

  lemma ComposeUnfold(app: App, st: CacheState, selected: seq<string>, files: map<string, SourceFile>,
                      simplify: Geometry -> Geometry, now: real, renderFails: set<string>)
    requires selected != []
    ensures var step := LayerStep(app, st, files, simplify, now, renderFails, selected[0]);
      var rest := ComposeSpec(app, step.1, selected[1..], files, simplify, now, renderFails);
      ComposeSpec(app, st, selected, files, simplify, now, renderFails) == (if step.0 then ([selected[0]] + rest.0, rest.1) else rest)
  {
  }

  /** Running the loop over `a + b` is running it over `a`, then over `b` from the cache `a` leaves. */
  lemma {:induction false} ComposeAppend(app: App, st: CacheState, a: seq<string>, b: seq<string>,
                                        files: map<string, SourceFile>, simplify: Geometry -> Geometry,
                                        now: real, renderFails: set<string>)
    ensures var first := ComposeSpec(app, st, a, files, simplify, now, renderFails);
      var second := ComposeSpec(app, first.1, b, files, simplify, now, renderFails);
      ComposeSpec(app, st, a + b, files, simplify, now, renderFails) == (first.0 + second.0, second.1)
    decreases |a|
  {
    if a == [] {
      assert a + b == b;
      var second := ComposeSpec(app, st, b, files, simplify, now, renderFails);
      assert ComposeSpec(app, st, a, files, simplify, now, renderFails) == ([], st);
      assert [] + second.0 == second.0;
    } else {
      assert (a + b)[0] == a[0] && (a + b)[1..] == a[1..] + b;
      var step := LayerStep(app, st, files, simplify, now, renderFails, a[0]);
      ComposeAppend(app, step.1, a[1..], b, files, simplify, now, renderFails);
      var first := ComposeSpec(app, step.1, a[1..], files, simplify, now, renderFails);
      var second := ComposeSpec(app, first.1, b, files, simplify, now, renderFails);
      ComposeUnfold(app, st, a, files, simplify, now, renderFails);
      ComposeUnfold(app, st, a + b, files, simplify, now, renderFails);
      var whole := ComposeSpec(app, step.1, a[1..] + b, files, simplify, now, renderFails);
      assert whole == (first.0 + second.0, second.1);
      if step.0 {
        AppendAssoc([a[0]], first.0, second.0);
        assert ComposeSpec(app, st, a, files, simplify, now, renderFails) == ([a[0]] + first.0, first.1);
      } else {
        assert ComposeSpec(app, st, a, files, simplify, now, renderFails) == first;
      }
    }
  }

  /**
   * A layer that is not cached, whose file loads, and whose rendering does
   * not raise is added and counted, and its dataset is cached.
   */
  lemma LoadableLayerAdded(app: App, st: CacheState, files: map<string, SourceFile>, simplify: Geometry -> Geometry,
                           now: real, renderFails: set<string>, id: string)
    requires !IsFresh(st, id, now) && FileLoads(app, files, simplify, id)
    requires !RenderFails(app, id, LoadedFrame(app, files, simplify, id), renderFails)
    ensures var res := ComposeSpec(app, st, [id], files, simplify, now, renderFails);
      res.0 == [id] && res.1.layers == st.layers[id := LoadedFrame(app, files, simplify, id)]
  {
    LoadableStep(app, st, files, simplify, now, renderFails, id);
    assert [id][1..] == [];
  }

  /** The loop step for such a layer adds it and caches what was loaded. */
  lemma LoadableStep(app: App, st: CacheState, files: map<string, SourceFile>, simplify: Geometry -> Geometry,
                     now: real, renderFails: set<string>, id: string)
    requires !IsFresh(st, id, now) && FileLoads(app, files, simplify, id)
    requires !RenderFails(app, id, LoadedFrame(app, files, simplify, id), renderFails)
    ensures var step := LayerStep(app, st, files, simplify, now, renderFails, id);
      step.0 && step.1.layers == st.layers[id := LoadedFrame(app, files, simplify, id)]
  {
  }

  /** A layer whose load gives nothing is never counted, whatever else is requested. */
  lemma {:induction false} UnavailableNeverAdded(app: App, st: CacheState, selected: seq<string>,
                                                files: map<string, SourceFile>, simplify: Geometry -> Geometry,
                                                now: real, renderFails: set<string>, id: string)
    requires id !in st.layers
    requires !FileLoads(app, files, simplify, id)
    ensures id !in ComposeSpec(app, st, selected, files, simplify, now, renderFails).0
    ensures id !in ComposeSpec(app, st, selected, files, simplify, now, renderFails).1.layers
    decreases |selected|
  {
    if selected != [] {
      UnavailableStep(app, st, files, simplify, now, renderFails, selected[0], id);
      var step := LayerStep(app, st, files, simplify, now, renderFails, selected[0]);
      UnavailableNeverAdded(app, step.1, selected[1..], files, simplify, now, renderFails, id);
      ComposeUnfold(app, st, selected, files, simplify, now, renderFails);
    }
  }

  /** Whatever id the loop step handles, a layer whose load gives nothing is neither added nor cached. */
  lemma UnavailableStep(app: App, st: CacheState, files: map<string, SourceFile>, simplify: Geometry -> Geometry,
                        now: real, renderFails: set<string>, head: string, id: string)
    requires id !in st.layers
    requires !FileLoads(app, files, simplify, id)
    ensures var step := LayerStep(app, st, files, simplify, now, renderFails, head);
      id !in step.1.layers && (step.0 ==> head != id)
  {
  }
}
