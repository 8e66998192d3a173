/** The layer catalogue of the viewer: `get_available_layers` asks the EMODnet
    Seabed Habitats Web Map Service for its capabilities document and turns the
    `Layer` elements of the answer into `{name, title, description}` records,
    falling back to a fixed catalogue whenever that fails or finds nothing. */
module Capabilities {
  import opened Wrappers
  import opened ElementTree
  import opened Namespaces
  import opened Sequences

  /** One entry of the catalogue. `description` is None where the source yields
      Python's `None` (an `Abstract` element without text). */
  datatype LayerInfo = LayerInfo(name: string, title: string, description: Option<string>)

  /** The body of an answer, as `ET.fromstring` leaves it. */
  datatype ParseOutcome = ParseError | Parsed(root: Elem)

  /** What the `GetCapabilities` request came back with: a transport failure
      (connection error, timeout) or a response with its status code and body. */
  datatype FetchOutcome = TransportError | Response(status: int, body: ParseOutcome)

  /** At most this many live layers are offered. */
  const MaxLayers := 20

  /** `EMODNET_LAYERS`: the catalogue offered when the service cannot be used. */
  const EmodnetLayers: seq<LayerInfo> := [
    LayerInfo("all_eusm2021", "EUSeaMap 2021 - All Habitats",
              Some("Broad-scale seabed habitat map for Europe")),
    LayerInfo("be_eusm2021", "EUSeaMap 2021 - Benthic Habitats",
              Some("Benthic broad-scale habitat map")),
    LayerInfo("ospar_threatened", "OSPAR Threatened Habitats",
              Some("OSPAR threatened and/or declining habitats")),
    LayerInfo("substrate", "Seabed Substrate",
              Some("Seabed substrate types")),
    LayerInfo("confidence", "Confidence Assessment",
              Some("Confidence in habitat predictions")),
    LayerInfo("annexiMaps_all", "Annex I Habitats",
              Some("Habitats Directive Annex I habitat types"))
  ]

  /** A name the catalogue may offer: non-empty and not workspace-qualified. */
  predicate UsableName(name: string)
  {
    name != "" && ':' !in name
  }

  /** The text of the layer's `Name` child, when there is one and its text is
      present and non-empty (Python's `name_elem is not None and name_elem.text`). */
  function NameOf(layer: Elem): Option<string>
  {
    match Find(layer, "Name")
    case Some(n) => if n.text.Some? && n.text.value != "" then n.text else None
    case None => None
  }

  /** The entry a `Layer` element yields, if any: none without a usable name;
      otherwise the title falls back to the name when the `Title` child is
      missing or has no text, and the description is the `Abstract` child's
      text, or the empty string when there is no `Abstract` child. */
  function Entry(layer: Elem): Option<LayerInfo>
  {
    match NameOf(layer)
    case None => None
    case Some(name) =>
      if ':' in name then None
      else
        var title := match Find(layer, "Title")
                     case Some(t) => if t.text.Some? && t.text.value != "" then t.text.value else name
                     case None => name;
        var description := match Find(layer, "Abstract")
                           case Some(a) => a.text
                           case None => Some("");
        Some(LayerInfo(name, title, description))
  }

  /** The `Layer` descendants of a parsed document once its tags are stripped:
      `root.findall('.//Layer')` after the rewrite. */
  function LayerElems(root: Elem): seq<Elem>
  {
    FindAll(StripTree(root), "Layer")
  }

  /** The live catalogue of a parsed document, before truncation. */
  function LiveLayers(root: Elem): seq<LayerInfo>
  {
    KeepMap(LayerElems(root), Entry)
  }

  /** What `get_available_layers` returns for a given outcome of the request. */
  function Resolve(outcome: FetchOutcome): (r: seq<LayerInfo>)
    ensures 1 <= |r| <= MaxLayers
  {
    if outcome.Response? && outcome.status == 200 && outcome.body.Parsed? then
      var live := LiveLayers(outcome.body.root);
      if live != [] then live[..Min(MaxLayers, |live|)] else EmodnetLayers
    else
      EmodnetLayers
  }

  /** The relation between an entry and the `Layer` element it was made from. */
  ghost predicate Describes(info: LayerInfo, layer: Elem)
  {
    && Find(layer, "Name").Some?
    && Find(layer, "Name").value.text == Some(info.name)
    && UsableName(info.name)
    && (if Find(layer, "Title").Some? && Find(layer, "Title").value.text.Some?
           && Find(layer, "Title").value.text.value != ""
        then info.title == Find(layer, "Title").value.text.value
        else info.title == info.name)
    && info.description == (if Find(layer, "Abstract").Some? then Find(layer, "Abstract").value.text
                            else Some(""))
  }

  /** A layer yields an entry exactly when its `Name` child has a usable text,
      and the entry is then the one that layer describes. */
  lemma EntryDescribes(layer: Elem)
    ensures Entry(layer).Some? <==>
              Find(layer, "Name").Some? && Find(layer, "Name").value.text.Some?
              && UsableName(Find(layer, "Name").value.text.value)
    ensures Entry(layer).Some? ==> Describes(Entry(layer).value, layer)
  {
  }

  /** A failed request, a status other than 200 and an unparsable body all
      yield the fallback catalogue, unchanged. */
  lemma FailuresFallBack(outcome: FetchOutcome)
    requires || outcome.TransportError?
             || (outcome.Response? && outcome.status != 200)
             || (outcome.Response? && outcome.body.ParseError?)
    ensures Resolve(outcome) == EmodnetLayers
  {
  }

  /** For a parsed document: the fallback exactly when no `Layer` descendant
      yields an entry; otherwise the entries of the first `min(20, n)` layers
      that yield one, in document order, each described by its layer. */
  lemma ParsedDocument(root: Elem)
    ensures (forall k :: 0 <= k < |LayerElems(root)| ==> Entry(LayerElems(root)[k]).None?)
            <==> LiveLayers(root) == []
    ensures LiveLayers(root) == [] ==> Resolve(Response(200, Parsed(root))) == EmodnetLayers
    ensures LiveLayers(root) != [] ==>
              Resolve(Response(200, Parsed(root))) == LiveLayers(root)[..Min(MaxLayers, |LiveLayers(root)|)]
    ensures var found, idx := LayerElems(root), Kept(LayerElems(root), Entry);
            && (forall i :: 0 <= i < |idx| ==> Describes(LiveLayers(root)[i], found[idx[i]]))
            && (forall i, j :: 0 <= i < j < |idx| ==> idx[i] < idx[j])
            && (forall k :: 0 <= k < |found| && Entry(found[k]).Some? ==> k in idx)
  {
    var found, idx := LayerElems(root), Kept(LayerElems(root), Entry);
    KeepMapEmpty(found, Entry);
    KeptExact(found, Entry);
    forall i | 0 <= i < |idx|
      ensures Describes(LiveLayers(root)[i], found[idx[i]])
    {
      EntryDescribes(found[idx[i]]);
    }
  }

  /** An element of `LayerElems` is the stripped form of a descendant of the
      original root whose tag has the local name `Layer`, and every such
      descendant is found. */
  lemma LayerElemsOrigin(root: Elem)
    ensures forall d :: d in LayerElems(root) ==>
              exists d0 :: d0 in Descendants(root) && LocalName(d0.tag) == "Layer" && d == StripTree(d0)
    ensures forall d0 :: d0 in Descendants(root) && LocalName(d0.tag) == "Layer" ==>
              StripTree(d0) in LayerElems(root)
  {
    DescendantsStrip(root);
    var ds := Descendants(root);
    assert forall d :: d in Descendants(StripTree(root)) ==> exists i :: 0 <= i < |ds| && d == StripTree(ds[i]);
    forall d0 | d0 in ds && LocalName(d0.tag) == "Layer"
      ensures StripTree(d0) in LayerElems(root)
    {
      var i :| 0 <= i < |ds| && ds[i] == d0;
      assert StripAll(ds)[i] == StripTree(d0);
    }
  }

  /** The layers are found in document order, one per occurrence: the i-th is
      the rewritten form of the original descendant at the i-th kept position,
      the positions increase, and every descendant whose tag has the local name
      `Layer` is among them. */
  lemma LayersInDocumentOrder(root: Elem)
    ensures var ds, idx := Descendants(root), Kept(Descendants(StripTree(root)), IsTag("Layer"));
            && |LayerElems(root)| == |idx|
            && (forall i :: 0 <= i < |idx| ==> idx[i] < |ds| && LayerElems(root)[i] == StripTree(ds[idx[i]]))
            && (forall i, j :: 0 <= i < j < |idx| ==> idx[i] < idx[j])
            && (forall k :: 0 <= k < |ds| && LocalName(ds[k].tag) == "Layer" ==> k in idx)
  {
    var ds, idx := Descendants(root), Kept(Descendants(StripTree(root)), IsTag("Layer"));
    FindAllOrder(StripTree(root), "Layer");
    DescendantsStrip(root);
    assert forall k :: 0 <= k < |ds| ==> Descendants(StripTree(root))[k] == StripTree(ds[k]);
  }

  /** The i-th live entry is described by the stripped form of a descendant
      of the original root whose tag has the local name `Layer`. */
  lemma LiveEntryOrigin(root: Elem, i: nat)
    requires i < |LiveLayers(root)|
    ensures exists d0 :: d0 in Descendants(root) && LocalName(d0.tag) == "Layer"
                         && Describes(LiveLayers(root)[i], StripTree(d0))
  {
    var found := LayerElems(root);
    var k := Kept(found, Entry)[i];
    KeptAt(found, Entry, i);
    EntryDescribes(found[k]);
    LayerElemsOrigin(root);
    assert found[k] in found;
    var d0 :| d0 in Descendants(root) && LocalName(d0.tag) == "Layer" && found[k] == StripTree(d0);
  }

  /** Every entry the resolver returns from a document it parsed has a usable
      name that is the verbatim `Name` text of a `Layer` descendant of the
      root, with the title and the description that layer's children give;
      the layer is the stripped form of a descendant of the original root. */
  lemma LiveEntriesDescribeLayers(root: Elem)
    requires LiveLayers(root) != []
    ensures var r := Resolve(Response(200, Parsed(root)));
            forall i :: 0 <= i < |r| ==>
              exists d0 :: d0 in Descendants(root) && LocalName(d0.tag) == "Layer"
                           && Describes(r[i], StripTree(d0))
  {
    var r := Resolve(Response(200, Parsed(root)));
    var live := LiveLayers(root);
    assert r == live[..Min(MaxLayers, |live|)];
    forall i | 0 <= i < |r|
      ensures exists d0 :: d0 in Descendants(root) && LocalName(d0.tag) == "Layer"
                           && Describes(r[i], StripTree(d0))
    {
      assert r[i] == live[i];
      LiveEntryOrigin(root, i);
    }
  }

  /** A document whose `Layer` elements carry only namespace-qualified names
      (or none) gives the fallback catalogue. */
  lemma OnlyQualifiedNames(root: Elem)
    requires forall d :: d in LayerElems(root) && NameOf(d).Some? ==> ':' in NameOf(d).value
    ensures Resolve(Response(200, Parsed(root))) == EmodnetLayers
  {
    var found := LayerElems(root);
    ParsedDocument(root);
    assert forall k :: 0 <= k < |found| ==> found[k] in found;
  }

  /** An entry of the fallback catalogue a viewer can offer: a usable name, a
      non-empty title and a non-empty description. */
  predicate WellFormedEntry(info: LayerInfo)
  {
    UsableName(info.name) && info.title != "" && info.description.Some? && info.description.value != ""
  }

  /** Each entry of the fallback catalogue is well formed. */
  lemma CatalogueEntry(i: nat)
    requires i < |EmodnetLayers|
    ensures WellFormedEntry(EmodnetLayers[i])
  {
  }

  /** The fallback catalogue has six well-formed entries, no two with the same name. */
  lemma FallbackCatalogue()
    ensures |EmodnetLayers| == 6
    ensures forall i :: 0 <= i < |EmodnetLayers| ==> WellFormedEntry(EmodnetLayers[i])
    ensures forall i, j :: 0 <= i < j < |EmodnetLayers| ==> EmodnetLayers[i].name != EmodnetLayers[j].name
  {
    forall i | 0 <= i < |EmodnetLayers|
      ensures WellFormedEntry(EmodnetLayers[i])
    {
      CatalogueEntry(i);
    }
    assert |EmodnetLayers[0].name| == 12 && |EmodnetLayers[1].name| == 11;
    assert |EmodnetLayers[2].name| == 16 && |EmodnetLayers[3].name| == 9;
    assert |EmodnetLayers[4].name| == 10 && |EmodnetLayers[5].name| == 14;
  }

  /** The loop of `get_available_layers` over `root.findall('.//Layer')`:
      one entry appended per data layer, in document order. */
  method CollectLayers(found: seq<Elem>) returns (live: seq<LayerInfo>)
    ensures live == KeepMap(found, Entry)
  {
    live := [];
    for k := 0 to |found|
      invariant live == KeepMap(found[..k], Entry)
    {
      var layer := found[k];
      var nameElem := Find(layer, "Name");
      var titleElem := Find(layer, "Title");
      var abstractElem := Find(layer, "Abstract");
      if nameElem.Some? && nameElem.value.text.Some? && nameElem.value.text.value != "" {
        var name := nameElem.value.text.value;
        if ':' !in name {
          var title := if titleElem.Some? && titleElem.value.text.Some? && titleElem.value.text.value != ""
                       then titleElem.value.text.value else name;
          var description := if abstractElem.Some? then abstractElem.value.text else Some("");
          assert Entry(layer) == Some(LayerInfo(name, title, description));
          live := live + [LayerInfo(name, title, description)];
        }
      }
      KeepMapSnoc(found[..k], layer, Entry);
      assert found[..k + 1] == found[..k] + [layer];
    }
    assert found[..|found|] == found;
  }

  /** `get_available_layers`, given the outcome of its request: the tree that
      `ET.fromstring` returns is materialised, its tags are rewritten in place,
      its `Layer` descendants are collected, and the first twenty entries or
      the fallback catalogue are returned. */
  method GetAvailableLayers(outcome: FetchOutcome) returns (layers: seq<LayerInfo>)
    ensures layers == Resolve(outcome)
  {
    if outcome.TransportError? {
      return EmodnetLayers;
    }
    if outcome.status != 200 {
      return EmodnetLayers;
    }
    if outcome.body.ParseError? {
      return EmodnetLayers;
    }
    var root := Build(outcome.body.root);
    StripNamespaces(root);
    var found := FindAll(root.Value(), "Layer");
    var live := CollectLayers(found);
    if live != [] {
      layers := live[..Min(MaxLayers, |live|)];
    } else {
      layers := EmodnetLayers;
    }
  }
}
