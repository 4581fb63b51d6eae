/**
 * The KML layer list of the map: validation of KML URLs, the name a layer
 * gets from its URL, the ordered list of layer records with its add, remove,
 * show/hide and attach-map-layer updates, and the projection of that list
 * that is persisted under the storage key 'kml-layers'.
 */
module KmlLayers {
  import opened Wrappers

  // ---------------------------------------------------------------------------
  // Records

  /** Handle of a Google Maps KmlLayer object; the object itself is foreign. */
  datatype MapLayer = MapLayer(handle: nat)

  /** One layer of the list; `layer` is absent until the map attaches one. */
  datatype KmlLayerInfo = KmlLayerInfo(id: string, name: string, url: string, visible: bool, layer: Option<MapLayer>)

  /** What is persisted of a layer: everything but the map-layer handle. */
  datatype StoredLayer = StoredLayer(id: string, name: string, url: string, visible: bool)

  /** The components of a parsed URL that the rules below look at. */
  datatype UrlParts = UrlParts(protocol: string, pathname: string)

  /**
   * A URL as given by the user (`raw`) together with the result of parsing it:
   * `None` when the URL parser rejects the string.
   */
  datatype Url = Url(raw: string, parsed: Option<UrlParts>)

  const MyMapsMarker: string := "google.com/maps/d/"
  const MyMapsName: string := "Google My Maps"
  const DefaultLayerName: string := "KMLレイヤー"

  // ---------------------------------------------------------------------------
  // String helpers

  /** ASCII lower-casing of one character; every other character is kept. */
  function LowerChar(ch: char): char {
    if 'A' <= ch <= 'Z' then (ch as int + 32) as char else ch
  }

  function Lower(s: string): string {
    seq(|s|, i requires 0 <= i < |s| => LowerChar(s[i]))
  }

  predicate EndsWith(s: string, suffix: string) {
    |suffix| <= |s| && s[|s| - |suffix|..] == suffix
  }

  /** `t` occurs in `s`, searched from the left. */
  predicate Contains(s: string, t: string)
    ensures Contains(s, t) ==> |t| <= |s|
    decreases |s|
  {
    t <= s || (s != [] && Contains(s[1..], t))
  }

  /** `t` occurs in `s` at index `i`. */
  predicate OccursAt(s: string, t: string, i: nat) {
    i <= |s| && t <= s[i..]
  }

  /** Contains agrees with "`t` occurs at some index of `s`". */
  lemma {:induction false} ContainsIsSomeOccurrence(s: string, t: string)
    ensures Contains(s, t) <==> exists i: nat :: OccursAt(s, t, i)
    decreases |s|
  {
    if t <= s {
      assert OccursAt(s, t, 0);
    } else if s != [] {
      ContainsIsSomeOccurrence(s[1..], t);
      if Contains(s[1..], t) {
        var i: nat :| OccursAt(s[1..], t, i);
        assert s[1..][i..] == s[i + 1..];
        assert OccursAt(s, t, i + 1);
      }
      if exists i: nat :: OccursAt(s, t, i) {
        var i: nat :| OccursAt(s, t, i);
        assert i != 0;
        assert s[1..][i - 1..] == s[i..];
        assert OccursAt(s[1..], t, i - 1);
      }
    }
  }

  /**
   * The last '/'-separated component of `s` (the last element of
   * `s.split('/')`): the longest suffix of `s` without a '/'.
   */
  function LastComponent(s: string): (r: string)
    ensures |r| <= |s| && r == s[|s| - |r|..]
    ensures '/' !in r
    ensures |r| < |s| ==> s[|s| - |r| - 1] == '/'
  {
    if s == [] then []
    else if s[|s| - 1] == '/' then []
    else LastComponent(s[..|s| - 1]) + [s[|s| - 1]]
  }

  /** `e` is ".kml" or ".kmz", ignoring ASCII case. */
  predicate KmlExtension(e: string) {
    Lower(e) == ".kml" || Lower(e) == ".kmz"
  }

  /** `s` ends in ".kml" or ".kmz", ignoring ASCII case. */
  predicate HasKmlExtension(s: string) {
    |s| >= 4 && KmlExtension(s[|s| - 4..])
  }

  /** A KML extension holds no '/'. */
  lemma KmlExtensionHasNoSlash(e: string)
    requires KmlExtension(e)
    ensures |e| == 4 && '/' !in e
  {
    forall j | 0 <= j < |e| ensures e[j] != '/' {
      assert LowerChar(e[j]) == Lower(e)[j];
    }
  }

  /** The file name of a path with a KML extension carries that extension. */
  lemma LastComponentKeepsExtension(path: string)
    requires HasKmlExtension(path)
    ensures var file := LastComponent(path);
      |file| >= 4 && file[|file| - 4..] == path[|path| - 4..]
  {
    var file := LastComponent(path);
    var ext := path[|path| - 4..];
    KmlExtensionHasNoSlash(ext);
  }

  /**
   * Removal of a trailing ".kml" or ".kmz", case-insensitively (the
   * replacement of /\.(kml|kmz)$/i by the empty string).
   */
  function StripKmlExtension(s: string): (r: string)
    ensures HasKmlExtension(s) ==> r + s[|s| - 4..] == s
    ensures !HasKmlExtension(s) ==> r == s
  {
    if HasKmlExtension(s) then s[..|s| - 4] else s
  }

  /** Testing the lower-cased text for the extensions is testing its last four characters. */
  lemma LowerEndsWithKml(s: string)
    ensures EndsWith(Lower(s), ".kml") || EndsWith(Lower(s), ".kmz") <==> HasKmlExtension(s)
  {
    if |s| >= 4 {
      assert Lower(s)[|s| - 4..] == Lower(s[|s| - 4..]);
    }
  }

  // ---------------------------------------------------------------------------
  // URL rules

  predicate WebProtocol(protocol: string) {
    protocol == "http:" || protocol == "https:"
  }

  /**
   * isValidKmlUrl: a URL the parser accepts, with protocol http: or https:,
   * that is a Google My Maps URL or whose path ends in .kml or .kmz, ignoring
   * case. The checks run in this order and the first that decides wins.
   */
  function IsValidKmlUrl(u: Url): (ok: bool)
    ensures ok <==> u.parsed.Some? && WebProtocol(u.parsed.value.protocol)
                    && (Contains(u.raw, MyMapsMarker) || HasKmlExtension(u.parsed.value.pathname))
  {
    match u.parsed
    case None => false
    case Some(parts) =>
      LowerEndsWithKml(parts.pathname);
      if !WebProtocol(parts.protocol) then false
      else if Contains(u.raw, MyMapsMarker) then true
      else if EndsWith(Lower(parts.pathname), ".kml") then true
      else if EndsWith(Lower(parts.pathname), ".kmz") then true
      else false
  }

  /**
   * extractNameFromUrl: the fixed default when the URL does not parse, the
   * fixed My Maps name for a My Maps URL, and otherwise the file name of the
   * path (or the default when the path ends in '/') without its KML extension.
   */
  function ExtractNameFromUrl(u: Url): (name: string)
    ensures u.parsed.None? ==> name == DefaultLayerName
    ensures u.parsed.Some? && Contains(u.raw, MyMapsMarker) ==> name == MyMapsName
    ensures u.parsed.Some? && !Contains(u.raw, MyMapsMarker) && LastComponent(u.parsed.value.pathname) == "" ==>
      name == DefaultLayerName
    ensures u.parsed.Some? && !Contains(u.raw, MyMapsMarker) ==>
      var f := LastComponent(u.parsed.value.pathname);
      f != "" && !HasKmlExtension(f) ==> name == f
  {
    match u.parsed
    case None => DefaultLayerName
    case Some(parts) =>
      if Contains(u.raw, MyMapsMarker) then MyMapsName
      else
        DefaultNameHasNoExtension();
        var file := LastComponent(parts.pathname);
        StripKmlExtension(if file == "" then DefaultLayerName else file)
  }

  /** The default name does not end in a KML extension, so stripping keeps it. */
  lemma DefaultNameHasNoExtension()
    ensures !HasKmlExtension(DefaultLayerName)
  {
    assert DefaultLayerName[|DefaultLayerName| - 4..] == "レイヤー";
    assert Lower("レイヤー") == "レイヤー";
  }

  /** A derived name never holds a '/'. */
  lemma DerivedNameHasNoSlash(u: Url)
    ensures '/' !in ExtractNameFromUrl(u)
  {
  }

  /** The name addLayer gives a layer: the supplied name unless absent or empty. */
  function LayerName(name: Option<string>, u: Url): string {
    if name.Some? && name.value != "" then name.value else ExtractNameFromUrl(u)
  }

  /**
   * For an accepted URL that is not a My Maps URL, the derived name followed
   * by the extension the validation required is exactly the file name.
   */
  lemma ValidKmlNameDropsExtension(u: Url)
    requires IsValidKmlUrl(u) && !Contains(u.raw, MyMapsMarker)
    ensures var path := u.parsed.value.pathname;
      |path| >= 4 && ExtractNameFromUrl(u) + path[|path| - 4..] == LastComponent(path)
  {
    var path := u.parsed.value.pathname;
    LastComponentKeepsExtension(path);
    var file := LastComponent(path);
    assert HasKmlExtension(file);
  }

  // ---------------------------------------------------------------------------
  // The layer list

  function Ids(ls: seq<KmlLayerInfo>): set<string> {
    set l | l in ls :: l.id
  }

  /** No two records of the list share an id. */
  predicate UniqueIds(ls: seq<KmlLayerInfo>) {
    forall i, j | 0 <= i < j < |ls| :: ls[i].id != ls[j].id
  }

  /** removeLayer's filter: the list without the records carrying `id`. */
  function Removed(ls: seq<KmlLayerInfo>, id: string): (r: seq<KmlLayerInfo>)
    ensures |r| <= |ls|
  {
    if ls == [] then []
    else (if ls[0].id == id then [] else [ls[0]]) + Removed(ls[1..], id)
  }

  /** The records kept by removal are exactly those not carrying `id`. */
  lemma {:induction false} RemovedMembers(ls: seq<KmlLayerInfo>, id: string)
    ensures forall l :: l in Removed(ls, id) <==> l in ls && l.id != id
  {
    if ls != [] {
      RemovedMembers(ls[1..], id);
      assert ls == [ls[0]] + ls[1..];
    }
  }

  /** Removal keeps the order: it distributes over concatenation. */
  lemma {:induction false} RemovedAppend(a: seq<KmlLayerInfo>, b: seq<KmlLayerInfo>, id: string)
    ensures Removed(a + b, id) == Removed(a, id) + Removed(b, id)
  {
    if a != [] {
      var head := if a[0].id == id then [] else [a[0]];
      assert (a + b)[0] == a[0];
      assert (a + b)[1..] == a[1..] + b;
      assert Removed(a + b, id) == head + Removed(a[1..] + b, id);
      RemovedAppend(a[1..], b, id);
      assert head + (Removed(a[1..], id) + Removed(b, id)) == (head + Removed(a[1..], id)) + Removed(b, id);
    } else {
      assert a + b == b;
    }
  }

  /** Removing an id that no record carries changes nothing. */
  lemma {:induction false} RemovedAbsentId(ls: seq<KmlLayerInfo>, id: string)
    requires id !in Ids(ls)
    ensures Removed(ls, id) == ls
  {
    if ls != [] {
      assert ls[0] in ls;
      assert Ids(ls[1..]) <= Ids(ls);
      RemovedAbsentId(ls[1..], id);
    }
  }

  /** Removing a layer just added under a fresh id gives back the list before. */
  lemma RemoveUndoesAdd(ls: seq<KmlLayerInfo>, l: KmlLayerInfo)
    requires l.id !in Ids(ls)
    ensures Removed(ls + [l], l.id) == ls
  {
    RemovedAppend(ls, [l], l.id);
    RemovedAbsentId(ls, l.id);
    assert Removed([l], l.id) == [];
    assert ls + [] == ls;
  }

  /** toggleLayerVisibility's map: `visible` set on the records carrying `id`. */
  function Toggled(ls: seq<KmlLayerInfo>, id: string, visible: bool): (r: seq<KmlLayerInfo>)
    ensures |r| == |ls|
    ensures forall i | 0 <= i < |ls| ::
      r[i] == if ls[i].id == id then ls[i].(visible := visible) else ls[i]
  {
    if ls == [] then []
    else [if ls[0].id == id then ls[0].(visible := visible) else ls[0]] + Toggled(ls[1..], id, visible)
  }

  /** Only the `visible` field of matching records changes. */
  lemma ToggledChangesOnlyVisibility(ls: seq<KmlLayerInfo>, id: string, visible: bool)
    ensures Ids(Toggled(ls, id, visible)) == Ids(ls)
    ensures forall i | 0 <= i < |ls| ::
      var r := Toggled(ls, id, visible)[i];
      r.id == ls[i].id && r.name == ls[i].name && r.url == ls[i].url && r.layer == ls[i].layer
    ensures forall i | 0 <= i < |ls| && ls[i].id == id :: Toggled(ls, id, visible)[i].visible == visible
  {
  }

  /** Toggling twice is toggling once, with the later value. */
  lemma ToggledTwice(ls: seq<KmlLayerInfo>, id: string, v: bool, w: bool)
    ensures Toggled(Toggled(ls, id, v), id, w) == Toggled(ls, id, w)
  {
  }

  /** Toggling to the value every matching record already has changes nothing. */
  lemma ToggledNoOp(ls: seq<KmlLayerInfo>, id: string, v: bool)
    requires forall i | 0 <= i < |ls| && ls[i].id == id :: ls[i].visible == v
    ensures Toggled(ls, id, v) == ls
  {
  }

  /** setGoogleMapsLayer's map: `layer` set on the records carrying `id`. */
  function WithMapLayer(ls: seq<KmlLayerInfo>, id: string, layer: MapLayer): (r: seq<KmlLayerInfo>)
    ensures |r| == |ls|
    ensures forall i | 0 <= i < |ls| ::
      r[i] == if ls[i].id == id then ls[i].(layer := Some(layer)) else ls[i]
  {
    if ls == [] then []
    else [if ls[0].id == id then ls[0].(layer := Some(layer)) else ls[0]] + WithMapLayer(ls[1..], id, layer)
  }

  // ---------------------------------------------------------------------------
  // Persistence

  function Stored(l: KmlLayerInfo): StoredLayer {
    StoredLayer(l.id, l.name, l.url, l.visible)
  }

  /** saveToStorage's projection: each record without its map layer. */
  function Save(ls: seq<KmlLayerInfo>): (ss: seq<StoredLayer>)
    ensures |ss| == |ls|
    ensures forall i | 0 <= i < |ls| :: ss[i] == Stored(ls[i])
  {
    if ls == [] then [] else [Stored(ls[0])] + Save(ls[1..])
  }

  /** loadFromStorage's projection: each stored record with no map layer. */
  function Load(ss: seq<StoredLayer>): (ls: seq<KmlLayerInfo>)
    ensures |ls| == |ss|
    ensures forall i | 0 <= i < |ss| :: ls[i] == KmlLayerInfo(ss[i].id, ss[i].name, ss[i].url, ss[i].visible, None)
  {
    if ss == [] then []
    else [KmlLayerInfo(ss[0].id, ss[0].name, ss[0].url, ss[0].visible, None)] + Load(ss[1..])
  }

  /** The list with every map-layer handle dropped. */
  function Detached(ls: seq<KmlLayerInfo>): (r: seq<KmlLayerInfo>)
    ensures |r| == |ls|
    ensures forall i | 0 <= i < |ls| :: r[i] == ls[i].(layer := None)
  {
    if ls == [] then [] else [ls[0].(layer := None)] + Detached(ls[1..])
  }

  /** Loading what was saved gives the same records in the same order, without map layers. */
  lemma {:induction false} LoadSave(ls: seq<KmlLayerInfo>)
    ensures Load(Save(ls)) == Detached(ls)
  {
    if ls != [] {
      LoadSave(ls[1..]);
    }
  }

  /** Saving what was loaded gives back the stored records. */
  lemma {:induction false} SaveLoad(ss: seq<StoredLayer>)
    ensures Save(Load(ss)) == ss
  {
    if ss != [] {
      SaveLoad(ss[1..]);
    }
  }

  /** Attaching a map layer does not change what is persisted. */
  lemma {:induction false} SaveIgnoresMapLayer(ls: seq<KmlLayerInfo>, id: string, layer: MapLayer)
    ensures Save(WithMapLayer(ls, id, layer)) == Save(ls)
  {
    if ls != [] {
      assert WithMapLayer(ls, id, layer)[1..] == WithMapLayer(ls[1..], id, layer);
      SaveIgnoresMapLayer(ls[1..], id, layer);
    }
  }

  /** Appending a record under a fresh id keeps ids unique. */
  lemma AddFreshKeepsIdsUnique(ls: seq<KmlLayerInfo>, l: KmlLayerInfo)
    requires UniqueIds(ls) && l.id !in Ids(ls)
    ensures UniqueIds(ls + [l])
  {
  }

  /** Toggling keeps ids unique. */
  lemma ToggledKeepsIdsUnique(ls: seq<KmlLayerInfo>, id: string, v: bool)
    requires UniqueIds(ls)
    ensures UniqueIds(Toggled(ls, id, v))
  {
  }

  /** Attaching a map layer keeps ids unique. */
  lemma WithMapLayerKeepsIdsUnique(ls: seq<KmlLayerInfo>, id: string, layer: MapLayer)
    requires UniqueIds(ls)
    ensures UniqueIds(WithMapLayer(ls, id, layer))
  {
  }

  /** Removal keeps ids unique. */
  lemma {:induction false} RemovedKeepsIdsUnique(ls: seq<KmlLayerInfo>, id: string)
    requires UniqueIds(ls)
    ensures UniqueIds(Removed(ls, id))
  {
    if ls != [] {
      RemovedKeepsIdsUnique(ls[1..], id);
      RemovedMembers(ls[1..], id);
      var rest := Removed(ls[1..], id);
      if ls[0].id != id {
        forall j | 0 <= j < |rest| ensures rest[j].id != ls[0].id {
          assert rest[j] in ls[1..];
        }
      }
    }
  }

  // ---------------------------------------------------------------------------
  // The service

  /**
   * KmlLayerService: the current layer list (the value of its observable
   * subject) and the persisted entry, `None` while nothing is stored.
   */
  class KmlLayerService {
    var layers: seq<KmlLayerInfo>
    var storage: Option<seq<StoredLayer>>

    /** The persisted entry is the projection of the current list. */
    predicate Persisted()
      reads this
    {
      storage == Some(Save(layers))
    }

    /** Construction loads the list from the stored entry when there is one. */
    constructor(stored: Option<seq<StoredLayer>>)
      ensures storage == stored
      ensures layers == if stored.Some? then Load(stored.value) else []
      ensures stored.Some? ==> Persisted()
    {
      storage := stored;
      if stored.Some? {
        layers := Load(stored.value);
        SaveLoad(stored.value);
      } else {
        layers := [];
      }
    }

    /**
     * addLayer: rejects an invalid URL without any change; otherwise appends a
     * visible layer under the fresh `id` and persists the list.
     */
    method AddLayer(url: Url, name: Option<string>, id: string) returns (added: Option<KmlLayerInfo>)
      modifies this
      ensures !IsValidKmlUrl(url) ==> added == None && layers == old(layers) && storage == old(storage)
      ensures IsValidKmlUrl(url) ==>
        added == Some(KmlLayerInfo(id, LayerName(name, url), url.raw, true, None))
        && layers == old(layers) + [added.value]
        && Persisted()
      ensures IsValidKmlUrl(url) && name.Some? && name.value != "" ==> added.value.name == name.value
      ensures IsValidKmlUrl(url) && (name.None? || name.value == "") ==> added.value.name == ExtractNameFromUrl(url)
    {
      if !IsValidKmlUrl(url) {
        return None;
      }
      var layerName := LayerName(name, url);
      var newLayer := KmlLayerInfo(id, layerName, url.raw, true, None);
      layers := layers + [newLayer];
      storage := Some(Save(layers));
      return Some(newLayer);
    }

    /** removeLayer: drops every record carrying `id` and persists the list. */
    method RemoveLayer(id: string)
      modifies this
      ensures layers == Removed(old(layers), id)
      ensures Persisted()
    {
      layers := Removed(layers, id);
      storage := Some(Save(layers));
    }

    /** toggleLayerVisibility: sets `visible` on the records carrying `id` and persists the list. */
    method ToggleLayerVisibility(id: string, visible: bool)
      modifies this
      ensures layers == Toggled(old(layers), id, visible)
      ensures Persisted()
    {
      layers := Toggled(layers, id, visible);
      storage := Some(Save(layers));
    }

    /**
     * setGoogleMapsLayer: attaches `layer` to the records carrying `id`; the
     * stored entry is not rewritten, and stays the projection of the list.
     */
    method SetGoogleMapsLayer(id: string, layer: MapLayer)
      modifies this
      ensures layers == WithMapLayer(old(layers), id, layer)
      ensures storage == old(storage)
      ensures old(Persisted()) ==> Persisted()
    {
      SaveIgnoresMapLayer(layers, id, layer);
      layers := WithMapLayer(layers, id, layer);
    }

    /** getLayers: the current list. */
    method GetLayers() returns (r: seq<KmlLayerInfo>)
      ensures r == layers
    {
      return layers;
    }
  }

  // ---------------------------------------------------------------------------
  // URL shapes

  /** Any parsed web URL containing the My Maps marker is accepted and named after My Maps. */
  lemma MyMapsUrlAccepted(u: Url, before: string, after: string)
    requires u.parsed.Some? && WebProtocol(u.parsed.value.protocol)
    requires u.raw == before + MyMapsMarker + after
    ensures IsValidKmlUrl(u) && ExtractNameFromUrl(u) == MyMapsName
  {
    assert u.raw[|before|..] == MyMapsMarker + after;
    assert OccursAt(u.raw, MyMapsMarker, |before|);
    ContainsIsSomeOccurrence(u.raw, MyMapsMarker);
  }

  /**
   * A parsed web URL whose path is `dir/file.kml` (or .kmz, in any case) and
   * that is not a My Maps URL is accepted and named `file`.
   */
  lemma KmlFileUrlNamedAfterFile(u: Url, dir: string, file: string, ext: string)
    requires u.parsed.Some? && WebProtocol(u.parsed.value.protocol)
    requires !Contains(u.raw, MyMapsMarker)
    requires u.parsed.value.pathname == dir + "/" + file + ext
    requires '/' !in file && KmlExtension(ext)
    ensures IsValidKmlUrl(u) && ExtractNameFromUrl(u) == file
  {
    var path := u.parsed.value.pathname;
    KmlExtensionHasNoSlash(ext);
    assert path == (dir + "/") + (file + ext);
    assert path[|path| - 4..] == ext;
    assert HasKmlExtension(path);
    assert IsValidKmlUrl(u);
    LastComponentOfFile(dir, file + ext);
    ValidKmlNameDropsExtension(u);
    var name := ExtractNameFromUrl(u);
    assert name + ext == file + ext;
    assert name == (name + ext)[..|name|] == (file + ext)[..|file|] == file;
  }

  /** The last component of `dir/name` is `name` when `name` holds no '/'. */
  lemma {:induction false} LastComponentOfFile(dir: string, name: string)
    requires '/' !in name
    ensures LastComponent(dir + "/" + name) == name
    decreases |name|
  {
    var s := dir + "/" + name;
    if name == [] {
      assert s[|s| - 1] == '/';
    } else {
      var init := name[..|name| - 1];
      assert s[..|s| - 1] == dir + "/" + init;
      assert name[|name| - 1] in name;
      LastComponentOfFile(dir, init);
      assert init + [name[|name| - 1]] == name;
    }
  }
}
