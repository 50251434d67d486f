/**
 * A layer's dataset (a GeoDataFrame): ordered column names and one feature per
 * row, each a geometry plus its attribute values. The operations are the
 * per-layer steps every script applies: the boolean-mask row filters, the
 * simplification gate of `simplificar_geometrias`, `reduzir_precisao`, and
 * the column pruning of the loaders and of `filtrar_colunas`.
 */
module Frames {
  import opened Common
  import opened Geometry

  /** An attribute value: a string, or a missing one (None). */
  datatype Value = Text(s: string) | Null

  datatype Feature = Feature(geometry: Geometry, attrs: map<string, Value>)

  /** `columns` lists the attribute columns and the `geometry` column, in order. */
  datatype GeoFrame = GeoFrame(columns: seq<string>, rows: seq<Feature>)

  const GeometryColumn := "geometry"

  /** `row.get(column)`: a missing column reads as None. */
  function Get(f: Feature, column: string): Value
  {
    if column in f.attrs then f.attrs[column] else Null
  }

  /** `gdf.empty`. */
  predicate IsEmptyFrame(gdf: GeoFrame)
  {
    |gdf.rows| == 0
  }

  // ---------------------------------------------------------------- row filters

  /** The rows a boolean mask keeps (`gdf[mask]`), in their order. */
  function Where(rows: seq<Feature>, keep: Feature -> bool): (r: seq<Feature>)
    ensures |r| <= |rows|
    ensures forall f :: f in r <==> f in rows && keep(f)
    ensures IsSubseq(r, rows)
    ensures forall f :: multiset(r)[f] == if keep(f) then multiset(rows)[f] else 0
    ensures (forall f :: f in rows ==> keep(f)) ==> r == rows
  {
    if rows == [] then []
    else
      var rest := Where(rows[1..], keep);
      Uncons(rows);
      if keep(rows[0]) then
        SubseqCons(rows[0], rest, rows[1..]);
        [rows[0]] + rest
      else
        rest
  }

  /** Keeping rows with `p` or `q`, for masks no row satisfies both, splits into the two selections. */
  lemma {:induction false} WhereSplit(rows: seq<Feature>, p: Feature -> bool, q: Feature -> bool, both: Feature -> bool)
    requires forall f :: f in rows ==> !(p(f) && q(f)) && (both(f) <==> p(f) || q(f))
    ensures multiset(Where(rows, both)) == multiset(Where(rows, p)) + multiset(Where(rows, q))
  {
    if rows != [] {
      WhereSplit(rows[1..], p, q, both);
    }
  }

  /** `gdf[gdf[column] == value]`: missing values never compare equal. */
  function WhereEqual(gdf: GeoFrame, column: string, value: string): (r: GeoFrame)
    ensures r.columns == gdf.columns
    ensures |r.rows| <= |gdf.rows|
    ensures forall f :: f in r.rows <==> f in gdf.rows && Get(f, column) == Text(value)
    ensures forall f :: multiset(r.rows)[f] == if Get(f, column) == Text(value) then multiset(gdf.rows)[f] else 0
    ensures IsSubseq(r.rows, gdf.rows)
  {
    GeoFrame(gdf.columns, Where(gdf.rows, f => Get(f, column) == Text(value)))
  }

  // ---------------------------------------------------------------- geometry steps

  /** `gdf['geometry'] = gdf['geometry'].<op>`: every geometry replaced, attributes kept. */
  function MapGeometry(rows: seq<Feature>, op: Geometry -> Geometry): (r: seq<Feature>)
    ensures |r| == |rows|
    ensures forall i :: 0 <= i < |r| ==> r[i] == Feature(op(rows[i].geometry), rows[i].attrs)
  {
    seq(|rows|, i requires 0 <= i < |rows| => Feature(op(rows[i].geometry), rows[i].attrs))
  }

  /**
   * `simplificar_geometrias`. `simplify` stands for shapely's
   * `simplify(tolerance, preserve_topology=True)` at the caller's tolerance.
   * Whether to simplify is judged on the first feature alone.
   */
  function Simplificar(gdf: GeoFrame, simplify: Geometry -> Geometry): (r: GeoFrame)
    ensures r.columns == gdf.columns && |r.rows| == |gdf.rows|
    ensures IsEmptyFrame(gdf) || IsPointLike(gdf.rows[0].geometry) ==> r == gdf
    ensures !IsEmptyFrame(gdf) && !IsPointLike(gdf.rows[0].geometry) ==>
      forall i :: 0 <= i < |r.rows| ==>
        r.rows[i].geometry == simplify(gdf.rows[i].geometry) && r.rows[i].attrs == gdf.rows[i].attrs
  {
    if IsEmptyFrame(gdf) || IsPointLike(gdf.rows[0].geometry) then gdf
    else GeoFrame(gdf.columns, MapGeometry(gdf.rows, simplify))
  }

  /** `reduzir_precisao`: `round_geom` applied to every geometry. */
  function ReduzirPrecisao(gdf: GeoFrame, decimals: nat): (r: GeoFrame)
    ensures r.columns == gdf.columns && |r.rows| == |gdf.rows|
    ensures forall i :: 0 <= i < |r.rows| ==>
      r.rows[i].attrs == gdf.rows[i].attrs &&
      r.rows[i].geometry == Rounded(gdf.rows[i].geometry, decimals) &&
      SameShape(gdf.rows[i].geometry, r.rows[i].geometry)
  {
    if IsEmptyFrame(gdf) then gdf
    else GeoFrame(gdf.columns, MapGeometry(gdf.rows, g => Rounded(g, decimals)))
  }

  /** Every coordinate of every rebuilt geometry is on the grid of `decimals` places. */
  lemma ReduzirOnGrid(gdf: GeoFrame, decimals: nat)
    ensures var r := ReduzirPrecisao(gdf, decimals);
      forall i :: 0 <= i < |r.rows| && IsRoundedKind(r.rows[i].geometry) ==> OnGrid(r.rows[i].geometry, decimals)
  {
  }

  /** Reducing precision a second time changes nothing. */
  lemma ReduzirIdempotent(gdf: GeoFrame, decimals: nat)
    ensures ReduzirPrecisao(ReduzirPrecisao(gdf, decimals), decimals) == ReduzirPrecisao(gdf, decimals)
  {
    var once := ReduzirPrecisao(gdf, decimals);
    var twice := ReduzirPrecisao(once, decimals);
    forall i | 0 <= i < |once.rows| ensures twice.rows[i] == once.rows[i] {
      RoundedIdempotent(gdf.rows[i].geometry, decimals);
    }
  }

  // ---------------------------------------------------------------- column pruning

  /** `[c for c in keep if c in columns]`. */
  function ExistingColumns(keep: seq<string>, columns: seq<string>): (r: seq<string>)
    ensures forall c :: c in r <==> c in keep && c in columns
    ensures IsSubseq(r, keep)
  {
    if keep == [] then []
    else
      var rest := ExistingColumns(keep[1..], columns);
      if keep[0] in columns then [keep[0]] + rest
      else
        assert rest == [] || rest[0] != keep[0];
        rest
  }

  /** Only membership in `columns` matters to `ExistingColumns`. */
  lemma {:induction false} ExistingColumnsByMembership(keep: seq<string>, columns: seq<string>, others: seq<string>)
    requires forall c :: c in keep ==> (c in columns <==> c in others)
    ensures ExistingColumns(keep, columns) == ExistingColumns(keep, others)
  {
    if keep != [] {
      ExistingColumnsByMembership(keep[1..], columns, others);
    }
  }

  /** The attributes of one row restricted to the kept columns. */
  function Restrict(attrs: map<string, Value>, kept: seq<string>): (r: map<string, Value>)
    ensures r.Keys == attrs.Keys * set c | c in kept
    ensures forall c :: c in r ==> r[c] == attrs[c]
  {
    map c | c in attrs && c in kept :: attrs[c]
  }

  /**
   * The loaders' column step: `gdf[existing + ['geometry']]`, or
   * `gdf[['geometry']]` when no listed column exists.
   */
  function PruneColumns(gdf: GeoFrame, keep: seq<string>): (r: GeoFrame)
    ensures r.columns == ExistingColumns(keep, gdf.columns) + [GeometryColumn]
    ensures (forall c :: c in keep ==> c !in gdf.columns) ==> r.columns == [GeometryColumn]
    ensures |r.rows| == |gdf.rows|
    ensures forall i :: 0 <= i < |r.rows| ==>
      r.rows[i].geometry == gdf.rows[i].geometry &&
      r.rows[i].attrs == Restrict(gdf.rows[i].attrs, ExistingColumns(keep, gdf.columns))
  {
    var existing := ExistingColumns(keep, gdf.columns);
    var columns := if existing != [] then existing + [GeometryColumn] else [GeometryColumn];
    assert existing != [] ==> existing[0] in keep && existing[0] in gdf.columns;
    GeoFrame(columns, MapAttrs(gdf.rows, existing))
  }

  function MapAttrs(rows: seq<Feature>, kept: seq<string>): (r: seq<Feature>)
    ensures |r| == |rows|
    ensures forall i :: 0 <= i < |r| ==> r[i] == Feature(rows[i].geometry, Restrict(rows[i].attrs, kept))
  {
    seq(|rows|, i requires 0 <= i < |rows| => Feature(rows[i].geometry, Restrict(rows[i].attrs, kept)))
  }

  /** Pruning twice with the same list is pruning once, for a list without `geometry`. */
  lemma PruneIdempotent(gdf: GeoFrame, keep: seq<string>)
    requires GeometryColumn !in keep
    ensures PruneColumns(PruneColumns(gdf, keep), keep) == PruneColumns(gdf, keep)
  {
    var once := PruneColumns(gdf, keep);
    var existing := ExistingColumns(keep, gdf.columns);
    ExistingColumnsByMembership(keep, once.columns, existing);
    ExistingColumnsByMembership(keep, existing, gdf.columns);
    assert ExistingColumns(keep, once.columns) == existing;
    var twice := PruneColumns(once, keep);
    forall i | 0 <= i < |once.rows| ensures twice.rows[i] == once.rows[i] {
      assert Restrict(once.rows[i].attrs, existing) == once.rows[i].attrs;
    }
  }

  /** `filtrar_colunas`: an empty dataset keeps all its columns. */
  function FiltrarColunas(gdf: GeoFrame, keep: seq<string>): (r: GeoFrame)
    ensures IsEmptyFrame(gdf) ==> r == gdf
    ensures !IsEmptyFrame(gdf) ==> r == PruneColumns(gdf, keep)
  {
    if IsEmptyFrame(gdf) then gdf else PruneColumns(gdf, keep)
  }
}
