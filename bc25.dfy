/**
 * The modellable parts of the two BC25 map scripts (`mapa_bc25.py` and
 * `mapa_bc25_otimizado.py`): the municipality size classes, the road and
 * heliport row filters, the optimised per-layer pipelines, and the
 * fallback rules of the tooltips and popups.
 */
module Bc25 {
  import opened Common
  import opened Text
  import opened Geometry
  import opened Frames

  // ---------------------------------------------------------------- municipality size

  /** `porte_area`: the class of a municipality by area, against the 0.33 and 0.66 quantiles. */
  datatype Porte = Pequeno | Medio | Grande

  /** `_porte(area)` with the quantiles `q1` and `q2` of the areas in km². */
  function PorteOf(area: real, q1: real, q2: real): (p: Porte)
    ensures p == Pequeno <==> area <= q1
    ensures p == Medio <==> q1 < area <= q2
    ensures p == Grande <==> q1 < area && q2 < area
  {
    if area <= q1 then Pequeno
    else if area <= q2 then Medio
    else Grande
  }

  function Rank(p: Porte): nat
  {
    match p
    case Pequeno => 0
    case Medio => 1
    case Grande => 2
  }

  /** With ordered thresholds, a larger municipality never gets a smaller class. */
  lemma PorteMonotone(a: real, b: real, q1: real, q2: real)
    requires q1 <= q2 && a <= b
    ensures Rank(PorteOf(a, q1, q2)) <= Rank(PorteOf(b, q1, q2))
  {
  }

  // ---------------------------------------------------------------- road filters

  const Jurisdicao := "jurisdicao"
  const Federal := "Federal"
  const Estadual := "Estadual/Distrital"

  predicate IsFederal(f: Feature) { Get(f, Jurisdicao) == Text(Federal) }
  predicate IsEstadual(f: Feature) { Get(f, Jurisdicao) == Text(Estadual) }
  predicate IsMainRoad(f: Feature) { IsFederal(f) || IsEstadual(f) }

  /** `roads[roads["jurisdicao"].isin(["Federal", "Estadual/Distrital"])]`. */
  function RoadsMain(roads: GeoFrame): (r: GeoFrame)
    requires Jurisdicao in roads.columns
    ensures r.columns == roads.columns && IsSubseq(r.rows, roads.rows)
    ensures forall f :: f in r.rows <==> f in roads.rows && (IsFederal(f) || IsEstadual(f))
    ensures forall f :: multiset(r.rows)[f] == if IsFederal(f) || IsEstadual(f) then multiset(roads.rows)[f] else 0
  {
    GeoFrame(roads.columns, Where(roads.rows, IsMainRoad))
  }

  /** `roads[roads["jurisdicao"] == "Federal"]`. */
  function RoadsFed(roads: GeoFrame): (r: GeoFrame)
    requires Jurisdicao in roads.columns
    ensures r.columns == roads.columns && IsSubseq(r.rows, roads.rows)
    ensures forall f :: f in r.rows <==> f in roads.rows && IsFederal(f)
    ensures forall f :: multiset(r.rows)[f] == if IsFederal(f) then multiset(roads.rows)[f] else 0
  {
    GeoFrame(roads.columns, Where(roads.rows, IsFederal))
  }

  /** `roads[roads["jurisdicao"] == "Estadual/Distrital"]`. */
  function RoadsEst(roads: GeoFrame): (r: GeoFrame)
    requires Jurisdicao in roads.columns
    ensures r.columns == roads.columns && IsSubseq(r.rows, roads.rows)
    ensures forall f :: f in r.rows <==> f in roads.rows && IsEstadual(f)
    ensures forall f :: multiset(r.rows)[f] == if IsEstadual(f) then multiset(roads.rows)[f] else 0
  {
    GeoFrame(roads.columns, Where(roads.rows, IsEstadual))
  }

  /** The federal and state subsets are disjoint and together are exactly the main roads, duplicates included. */
  lemma RoadSubsetsSplitMain(roads: GeoFrame)
    requires Jurisdicao in roads.columns
    ensures multiset(RoadsMain(roads).rows) == multiset(RoadsFed(roads).rows) + multiset(RoadsEst(roads).rows)
    ensures forall f :: !(f in RoadsFed(roads).rows && f in RoadsEst(roads).rows)
  {
    WhereSplit(roads.rows, IsFederal, IsEstadual, IsMainRoad);
  }

  // ---------------------------------------------------------------- heliports

  const Tipopista := "tipopista"

  /** `str.contains("Heliponto", case=False, na=False)` on one value. */
  predicate MentionsHeliponto(v: Value)
  {
    v.Text? && Contains(Lower(v.s), "heliponto")
  }

  /** `aerodromos[aerodromos["tipopista"].str.contains("Heliponto", case=False, na=False)]`. */
  function Helipontos(aerodromos: GeoFrame): (r: GeoFrame)
    requires Tipopista in aerodromos.columns
    ensures r.columns == aerodromos.columns && |r.rows| <= |aerodromos.rows|
    ensures forall f :: f in r.rows <==> f in aerodromos.rows && MentionsHeliponto(Get(f, Tipopista))
    ensures forall f :: multiset(r.rows)[f] == if MentionsHeliponto(Get(f, Tipopista)) then multiset(aerodromos.rows)[f] else 0
    ensures IsSubseq(r.rows, aerodromos.rows)
    ensures forall f :: f in r.rows ==> Get(f, Tipopista) != Null
  {
    GeoFrame(aerodromos.columns, Where(aerodromos.rows, f => MentionsHeliponto(Get(f, Tipopista))))
  }

  lemma LowerIdempotent(s: string)
    ensures Lower(Lower(s)) == Lower(s)
  {
  }

  /** The match ignores ASCII case: a value and its lower-cased form match alike. */
  lemma HelipontoIgnoresCase(s: string)
    ensures MentionsHeliponto(Text(s)) <==> MentionsHeliponto(Text(Lower(s)))
  {
    LowerIdempotent(s);
  }

  /** The word itself, in any of its usual spellings, matches. */
  lemma HelipontoSpellingsMatch()
    ensures MentionsHeliponto(Text("Heliponto"))
    ensures MentionsHeliponto(Text("HELIPONTO"))
    ensures !MentionsHeliponto(Text("Aeródromo"))
  {
    assert OccursAt(Lower("Heliponto"), "heliponto", 0);
    assert OccursAt(Lower("HELIPONTO"), "heliponto", 0);
    assert Lower("Aeródromo")[0] == 'a';
  }

  // ---------------------------------------------------------------- optimised pipelines

  const Decimals: nat := 5

  /** A line or area layer: simplify, round to five places, keep the listed columns. */
  function OptimizeLayer(gdf: GeoFrame, simplify: Geometry -> Geometry, keep: seq<string>): (r: GeoFrame)
    ensures |r.rows| == |gdf.rows|
    ensures !IsEmptyFrame(gdf) ==> r.columns == ExistingColumns(keep, gdf.columns) + [GeometryColumn]
    ensures !IsEmptyFrame(gdf) ==>
      var points := IsPointLike(gdf.rows[0].geometry);
      forall i :: 0 <= i < |r.rows| ==>
        && r.rows[i].geometry == Rounded(if points then gdf.rows[i].geometry else simplify(gdf.rows[i].geometry), Decimals)
        && r.rows[i].attrs == Restrict(gdf.rows[i].attrs, ExistingColumns(keep, gdf.columns))
    ensures IsEmptyFrame(gdf) ==> r == gdf
  {
    FiltrarColunas(ReduzirPrecisao(Simplificar(gdf, simplify), Decimals), keep)
  }

  /** A point layer (heliports, airport buildings, terminals): only rounded, never simplified. */
  function OptimizePointLayer(gdf: GeoFrame): (r: GeoFrame)
    ensures r.columns == gdf.columns && |r.rows| == |gdf.rows|
    ensures forall i :: 0 <= i < |r.rows| ==>
      r.rows[i].attrs == gdf.rows[i].attrs && r.rows[i].geometry == Rounded(gdf.rows[i].geometry, Decimals)
  {
    ReduzirPrecisao(gdf, Decimals)
  }

  /** A layer of points taken through the line pipeline would not be simplified either. */
  lemma PointLayerNeverSimplified(gdf: GeoFrame, simplify: Geometry -> Geometry, keep: seq<string>)
    requires !IsEmptyFrame(gdf) && IsPointLike(gdf.rows[0].geometry)
    ensures OptimizeLayer(gdf, simplify, keep) == FiltrarColunas(OptimizePointLayer(gdf), keep)
  {
  }

  /** The optimised federal roads: every kept feature is federal, its jurisdiction kept. */
  lemma OptimizedFederalRoads(roads: GeoFrame, simplify: Geometry -> Geometry)
    requires Jurisdicao in roads.columns
    ensures var r := OptimizeLayer(RoadsFed(roads), simplify, [Jurisdicao, "revestimen", "operaciona"]);
      forall i :: 0 <= i < |r.rows| ==> IsFederal(r.rows[i])
  {
    var fed := RoadsFed(roads);
    var keep := [Jurisdicao, "revestimen", "operaciona"];
    var r := OptimizeLayer(fed, simplify, keep);
    if !IsEmptyFrame(fed) {
      var rounded := ReduzirPrecisao(Simplificar(fed, simplify), Decimals);
      assert Jurisdicao in ExistingColumns(keep, rounded.columns);
      forall i | 0 <= i < |r.rows| ensures IsFederal(r.rows[i]) {
        assert fed.rows[i] in fed.rows;
      }
    }
  }

  // ---------------------------------------------------------------- tooltip and popup fallbacks

  /** Python truthiness of an attribute value: None and the empty string are false. */
  predicate Truthy(v: Value)
  {
    v.Text? && v.s != ""
  }

  /** `row.get(column) or fallback`. */
  function OrElse(v: Value, fallback: string): (r: string)
    ensures Truthy(v) ==> r == v.s
    ensures !Truthy(v) ==> r == fallback
    ensures r == [] ==> fallback == []
  {
    if Truthy(v) then v.s else fallback
  }

  const NotInformed := "Não informado"

  /** The texts of one terminal's tooltip and popup. */
  datatype TerminalLabel = TerminalLabel(nome: string, tipo: string, adm: string, oper: string, apt: string, situ: string)

  /** The fallbacks of the terminal layer; the name falls back on the berth type. */
  function TerminalLabelOf(row: Feature): (l: TerminalLabel)
    ensures l.nome != [] && l.tipo != [] && l.adm != [] && l.oper != [] && l.apt != [] && l.situ != []
    ensures l.tipo == OrElse(Get(row, "tipoatraca"), "Desconhecido")
    ensures l.nome == OrElse(Get(row, "nome"), "Terminal (" + l.tipo + ")")
    ensures l.adm == OrElse(Get(row, "administra"), NotInformed)
    ensures l.oper == OrElse(Get(row, "operaciona"), NotInformed)
    ensures l.apt == OrElse(Get(row, "aptidaoope"), NotInformed)
    ensures l.situ == OrElse(Get(row, "situacaofi"), NotInformed)
  {
    var tipo := OrElse(Get(row, "tipoatraca"), "Desconhecido");
    TerminalLabel(
      OrElse(Get(row, "nome"), "Terminal (" + tipo + ")"),
      tipo,
      OrElse(Get(row, "administra"), NotInformed),
      OrElse(Get(row, "operaciona"), NotInformed),
      OrElse(Get(row, "aptidaoope"), NotInformed),
      OrElse(Get(row, "situacaofi"), NotInformed))
  }

  /** A terminal with no attributes at all. */
  lemma BareTerminalLabel(g: Geometry)
    ensures TerminalLabelOf(Feature(g, map[])) ==
      TerminalLabel("Terminal (Desconhecido)", "Desconhecido", NotInformed, NotInformed, NotInformed, NotInformed)
  {
  }

  /**
   * A point layer's tooltip: the feature's name, else the layer's fallback
   * text (`Heliponto` for heliports, `Construção Aeroportuária` for airport
   * buildings).
   */
  function NamedTooltip(row: Feature, fallback: string): (t: string)
    requires fallback != []
    ensures t != []
    ensures Truthy(Get(row, "nome")) ==> t == Get(row, "nome").s
    ensures !Truthy(Get(row, "nome")) ==> t == fallback
  {
    OrElse(Get(row, "nome"), fallback)
  }

  /** The pipeline tooltip fields: the last is `operaciona` when that column exists, else `tipotrecho`. */
  function PipelineTooltipFields(columns: seq<string>): (fields: seq<string>)
    ensures |fields| == 4 && fields[..3] == ["nome", "mattransp", "setor"]
    ensures fields[3] == "operaciona" <==> "operaciona" in columns
    ensures fields[3] != "operaciona" ==> fields[3] == "tipotrecho"
  {
    ["nome", "mattransp", "setor", if "operaciona" in columns then "operaciona" else "tipotrecho"]
  }
}
