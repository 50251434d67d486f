/**
 * The Flask routes' own logic: the map-name sanitiser shared by
 * `gerar_mapa` and `exportar_png`, the request check of `gerar_mapa`, and
 * the viewer `visualizar_mapa`, which in the final app serves generated
 * pages from the in-memory `MAPS_CACHE` and falls back to the saved file.
 */
module MapRoutes {
  import opened Common
  import opened Text

  const DefaultName := "mapa_customizado"

  /** `c.isalnum() or c in (' ', '-', '_')`. */
  predicate AllowedNameChar(c: char)
  {
    IsAlnum(c) || c == ' ' || c == '-' || c == '_'
  }

  /** `"".join(c for c in raw if <allowed>)`. */
  function KeepAllowed(raw: string): (r: string)
    ensures forall c :: c in r ==> AllowedNameChar(c)
    ensures forall c :: c in raw && AllowedNameChar(c) ==> c in r
    ensures IsSubseq(r, raw)
    ensures forall c :: multiset(r)[c] == if AllowedNameChar(c) then multiset(raw)[c] else 0
    ensures (forall c :: c in raw ==> AllowedNameChar(c)) ==> r == raw
  {
    if raw == [] then []
    else
      var rest := KeepAllowed(raw[1..]);
      Uncons(raw);
      if AllowedNameChar(raw[0]) then
        SubseqCons(raw[0], rest, raw[1..]);
        [raw[0]] + rest
      else
        rest
  }

  /** The sanitised file name: allowed characters only, stripped, never empty. */
  function SanitiseName(raw: string): (name: string)
    ensures name != []
    ensures forall c :: c in name ==> AllowedNameChar(c)
    ensures !IsSpace(name[0]) && !IsSpace(name[|name| - 1])
    ensures name == DefaultName || IsSubseq(name, raw)
    ensures Strip(KeepAllowed(raw)) == [] ==> name == DefaultName
    ensures Strip(KeepAllowed(raw)) != [] ==> name == Strip(KeepAllowed(raw))
  {
    var kept := Strip(KeepAllowed(raw));
    if kept != [] then
      SubseqTrans(kept, KeepAllowed(raw), raw);
      SubseqMembers(kept, KeepAllowed(raw));
      kept
    else
      DefaultNameClean();
      DefaultName
  }

  /** The fallback name is itself a sanitised name. */
  lemma DefaultNameClean()
    ensures DefaultName != [] && !IsSpace(DefaultName[0]) && !IsSpace(DefaultName[|DefaultName| - 1])
    ensures forall c :: c in DefaultName ==> AllowedNameChar(c)
  {
    forall c | c in DefaultName ensures AllowedNameChar(c) {
      var i :| 0 <= i < |DefaultName| && DefaultName[i] == c;
      assert IsAlnum(c) || c == '_';
    }
  }

  /** A name already in sanitised form is kept as it is. */
  lemma {:induction false} SanitiseKeepsCleanName(raw: string)
    requires raw != [] && (forall c :: c in raw ==> AllowedNameChar(c))
    requires !IsSpace(raw[0]) && !IsSpace(raw[|raw| - 1])
    ensures SanitiseName(raw) == raw
  {
    assert KeepAllowed(raw) == raw;
    StrippedUnchanged(raw);
  }

  /** Sanitising twice is sanitising once. */
  lemma SanitiseIdempotent(raw: string)
    ensures SanitiseName(SanitiseName(raw)) == SanitiseName(raw)
  {
    SanitiseKeepsCleanName(SanitiseName(raw));
  }

  /** What `gerar_mapa` answers, map generation itself aside. */
  datatype GenerateReply =
    | NoLayersSelected                                         // HTTP 400
    | Generated(name: string, url: string, layersCount: nat)

  /**
   * `gerar_mapa` on a JSON body with `layers` and an optional `nome`. The
   * reported count is the number of ids requested, not of layers added.
   */
  function Generate(layers: seq<string>, nome: Option<string>): (r: GenerateReply)
    ensures r.NoLayersSelected? <==> layers == []
    ensures r.Generated? ==>
      && r.layersCount == |layers|
      && r.name == SanitiseName(if nome.Some? then nome.value else DefaultName)
      && r.url == "/visualizar/" + r.name
  {
    if layers == [] then NoLayersSelected
    else
      var name := SanitiseName(if nome.Some? then nome.value else DefaultName);
      Generated(name, "/visualizar/" + name, |layers|)
  }

  /** With no `nome` in the request, the map is called `mapa_customizado`. */
  lemma DefaultRequestName(layers: seq<string>)
    requires layers != []
    ensures Generate(layers, None).name == DefaultName
  {
    SanitiseKeepsCleanName(DefaultName);
  }

  /** The original app's viewer: the saved file `<name>.html`, or 404 (`None`). */
  function ViewFromFile(files: map<string, string>, name: string): (page: Option<string>)
    ensures page.Some? <==> name + ".html" in files
    ensures page.Some? ==> page.value == files[name + ".html"]
  {
    if name + ".html" in files then Some(files[name + ".html"]) else None
  }

  /** One call of the final app's viewer: the page (or 404) and `MAPS_CACHE` afterwards. */
  function ViewStep(maps: map<string, string>, files: map<string, string>, name: string): (res: (Option<string>, map<string, string>))
    ensures name in maps ==> res == (Some(maps[name]), maps)
    ensures name !in maps ==> res.0 == ViewFromFile(files, name)
    ensures res.0.Some? ==> name in res.1 && res.1[name] == res.0.value
    ensures res.1.Keys == maps.Keys + (if res.0.Some? then {name} else {})
    ensures forall k :: k in maps ==> res.1[k] == maps[k]
  {
    if name in maps then (Some(maps[name]), maps)
    else
      var page := ViewFromFile(files, name);
      if page.Some? then (page, maps[name := page.value]) else (None, maps)
  }

  /** Once a page has been served, later views serve it from memory whatever the files hold. */
  lemma ServedPageSticks(maps: map<string, string>, files: map<string, string>, files2: map<string, string>, name: string)
    requires ViewStep(maps, files, name).0.Some?
    ensures var first := ViewStep(maps, files, name);
      ViewStep(first.1, files2, name) == first
  {
  }

  /** `MAPS_CACHE`: generated pages by sanitised name. */
  class MapStore {
    var maps: map<string, string>

    constructor ()
      ensures maps == map[]
    {
      maps := map[];
    }

    /** `MAPS_CACHE[nome_arquivo] = html_content` after a map is generated. */
    method Store(name: string, html: string)
      modifies this
      ensures maps == old(maps)[name := html]
    {
      maps := maps[name := html];
    }

    /** `visualizar_mapa(nome_arquivo)` in the final app. */
    method View(name: string, files: map<string, string>) returns (page: Option<string>)
      modifies this
      ensures (page, maps) == ViewStep(old(maps), files, name)
    {
      if name in maps {
        return Some(maps[name]);
      }
      if name + ".html" in files {
        var content := files[name + ".html"];
        maps := maps[name := content];
        return Some(content);
      }
      return None;
    }
  }
}
