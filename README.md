# EMODnet Seabed Habitats layer catalogue and legend addresses

This project models the two pieces of logic in the EMODnet Seabed Habitats map
viewer (`app_new.py`) that do not come from Flask or the browser.

- **The layer catalogue resolver**, `get_available_layers`. It asks the Web Map
  Service for its `GetCapabilities` document and parses the answer with
  ElementTree. It rewrites every namespaced tag `{uri}local` to `local`, in
  place. Then it walks the `Layer` descendants in document order and keeps
  those whose `Name` child has a non-empty text without `:`. Each kept layer
  becomes a `{name, title, description}` record:
  - the title falls back to the name;
  - the description is the `Abstract` text, or `""` when there is no `Abstract`.

  It returns the first twenty records. If anything fails, or nothing is kept,
  it returns the fixed catalogue `EMODNET_LAYERS`.
- **The legend endpoint**, which builds a `GetLegendGraphic` address for a layer
  name. The name is inserted into the address verbatim.

Modules:

- `Wrappers`: `Option` and `Min`.
- `Strings`: Python's `str.split` and `str.join` for a one-character separator,
  with their round trips.
- `ElementTree`: the parsed tree as a value, with `iter()`, `find` and
  `findall('.//tag')`. It also has a class `Element` for the objects whose
  `tag` the resolver overwrites.
- `Namespaces`: the tag rewrite, once as a function on values (`StripTree`)
  and once as the in-place walk the source performs (`StripNamespaces`). The
  walk is proved equal to the function.
- `Sequences`: the append-if-accepted loop, written as a generic filter-map
  `KeepMap`, together with the positions it keeps.
- `Capabilities`: the records, the fallback catalogue, the resolver as a
  function (`Resolve`) and as the method the source runs
  (`GetAvailableLayers`), and the properties.
- `Legend`: the legend address, its inverse, and the query it carries.

The request is not made. Its outcome is an input of type `FetchOutcome`:
- a transport error (connection failure, timeout);
- or a response with its status code and a body that either failed to parse or
  parsed to an element tree.

`abstract_elem.text` (app_new.py:81) is Python's `None` when the `Abstract`
element has no text, so `LayerInfo.description` is an `Option<string>`:
- `None` when an `Abstract` element is present without text;
- `Some("")` when there is no `Abstract` element at all.

## Model

| member | source | states |
|---|---|---|
| `Strings.Split` | app_new.py:67 | `str.split` with a one-character separator always gives at least one piece |
| `Strings.SplitPieces` | app_new.py:67 | no piece of a split holds the separator, and there is exactly one piece iff the separator does not occur |
| `Strings.SplitFirst` | app_new.py:67 | a split cuts at the first separator: the text before it, then the split of the text after it |
| `Strings.SplitCons` | app_new.py:67 | a separator-free piece in front of a separator is split off as the first piece |
| `Strings.IndexOfUnique` | app_new.py:67 | the first occurrence of a character is the only position that holds it with none before |
| `Strings.IndexOf` | app_new.py:67 | the position of the first occurrence of a character in a string that holds it |
| `Strings.Join` | app_new.py:67 | no contract of its own and no counterpart in the source: a specification helper, the inverse that pins down the `split` at this line (`Strings.JoinSplit`, `Strings.SplitJoin`), also used by `Legend.LegendQueryJoin` |
| `Strings.JoinSplit` | app_new.py:67 | joining the pieces of a split with the separator gives back the original string |
| `Strings.SplitJoin` | app_new.py:67 | splitting a join of separator-free pieces gives back the pieces |
| `ElementTree.Iter` | app_new.py:65 | no contract of its own; `root.iter()` as the preorder walk, characterised by `Namespaces.IterStrip` and `Namespaces.NoBraceLeft` |
| `ElementTree.Descendants` | app_new.py:70 | no contract of its own; the `.//` descendant axis, which excludes the element itself, characterised by `ElementTree.RootNotDescendant` and `ElementTree.FindAllOrder` |
| `ElementTree.Select` | app_new.py:70 | the elements with the tag are exactly the elements of the walk that have it, and there are no more of them than in the walk; order and multiplicity are stated by `ElementTree.SelectKeepMap` |
| `ElementTree.SelectKeepMap` | app_new.py:70 | selecting by tag is the filter-map that keeps each element with the tag, so the selected elements are those of the walk with the tag, once each, in walk order |
| `ElementTree.FindAll` | app_new.py:70 | `findall('.//tag')` selects exactly the descendants with that tag, never the element itself; order and multiplicity are stated by `ElementTree.FindAllOrder` |
| `ElementTree.FindAllOrder` | app_new.py:70 | the i-th element found is the descendant at the i-th of a strictly increasing list of positions, and every descendant with the tag is at one of them: one result per matching descendant, in document order |
| `ElementTree.RootNotDescendant` | app_new.py:70 | an element is never among its own descendants |
| `ElementTree.Find` | app_new.py:71-73 | no contract of its own; characterised by `ElementTree.FindFirst` |
| `ElementTree.FindFirst` | app_new.py:71-73 | `find(tag)` yields nothing iff no direct child has the tag, and otherwise yields the first child that has it |
| `ElementTree.Element.ValueShape` | app_new.py:62 | the value of an element object is its tag and text together with the values of its children, in order |
| `ElementTree.Element.constructor` | app_new.py:62 | a new element over disjoint well-formed children is a well-formed tree whose footprint is itself plus theirs |
| `ElementTree.Build` | app_new.py:62 | the objects allocated for a parsed document form a fresh, well-formed tree whose value is the document |
| `ElementTree.ChildrenSnoc` | app_new.py:62 | adding the object tree of the next child, with a footprint disjoint from the earlier ones, keeps the children well-formed, pairwise disjoint and holding the children's values |
| `ElementTree.BuildChildren` | app_new.py:62 | one fresh, well-formed object tree for each of the first `k` children, with pairwise disjoint footprints, each holding that child's value |
| `Namespaces.LocalName` | app_new.py:66-67 | a rewritten tag holds no `}`, and a tag without `}` is left as it is |
| `Namespaces.LocalNameSegment` | app_new.py:67 | the rewritten tag is the text between the first `}` and the next `}`, or the end of the tag |
| `Namespaces.ClarkNotation` | app_new.py:65-67 | `{uri}local` becomes `local` |
| `Namespaces.LocalNameIdempotent` | app_new.py:66-67 | rewriting a rewritten tag changes nothing |
| `Namespaces.StripTree` | app_new.py:65-67 | the rewrite keeps every text and the number of children of every element |
| `Namespaces.IterStrip` | app_new.py:65-67 | walking the rewritten tree meets the rewritten elements of the original walk, in the same order |
| `Namespaces.DescendantsStrip` | app_new.py:65-70 | the descendants of the rewritten tree are the rewritten descendants of the original |
| `Namespaces.NoBraceLeft` | app_new.py:65-67 | after the rewrite no tag anywhere in the tree contains `}` |
| `Namespaces.StripIdempotent` | app_new.py:65-67 | rewriting a rewritten tree changes nothing |
| `Namespaces.StripNamespaces` | app_new.py:65-67 | the in-place loop over `root.iter()` leaves the object tree holding exactly `StripTree` of its former value |
| `Namespaces.StripChild` | app_new.py:65-67 | one step of that walk rewrites the subtree of one child in place and leaves every other child's subtree as it was |
| `Sequences.KeepMap` | app_new.py:69-82 | no contract of its own; the append-if-accepted loop, characterised by `Sequences.KeptExact` and `Sequences.KeepMapSnoc` |
| `Sequences.KeepMapSnoc` | app_new.py:69-82 | one more layer in the loop appends its record if it has one, and appends nothing otherwise |
| `Sequences.KeepMapEmpty` | app_new.py:85 | the collected list is empty iff no layer yields a record |
| `Sequences.KeptAt` | app_new.py:69-82 | the i-th collected record is the record of the layer at the i-th kept position |
| `Sequences.KeptIncrease` | app_new.py:69-82 | kept positions are strictly increasing, so records keep document order |
| `Sequences.KeptCover` | app_new.py:69-82 | every layer that yields a record has its position among the kept ones |
| `Sequences.KeptExact` | app_new.py:69-82 | the collected records are exactly those of the accepting layers, in document order |
| `Capabilities.EmodnetLayers` | app_new.py:17-48 | the fixed catalogue; characterised by `Capabilities.FallbackCatalogue` and `Capabilities.CatalogueEntry` |
| `Capabilities.NameOf` | app_new.py:71-75 | no contract of its own; characterised by `Capabilities.EntryDescribes` |
| `Capabilities.Entry` | app_new.py:71-82 | no contract of its own; the record a layer yields, if any, characterised by `Capabilities.EntryDescribes` |
| `Capabilities.LayerElems` | app_new.py:65-70 | no contract of its own; characterised by `Capabilities.LayerElemsOrigin` and `Capabilities.LayersInDocumentOrder` |
| `Capabilities.LiveLayers` | app_new.py:69-82 | no contract of its own; the collected records, characterised by `Capabilities.ParsedDocument` and `Capabilities.CollectLayers` |
| `Capabilities.MaxLayers` | app_new.py:85 | the `20` of `layers[:20]`; characterised by `Capabilities.Resolve` and `Capabilities.ParsedDocument` |
| `Capabilities.Resolve` | app_new.py:50-90 | the resolver always returns between one and twenty layers |
| `Capabilities.EntryDescribes` | app_new.py:71-82 | a layer yields a record iff its `Name` child has a non-empty text without `:`; the name is then that text verbatim, the title is the `Title` text when non-empty and otherwise the name, and the description is the `Abstract` text or `""` without an `Abstract` |
| `Capabilities.FailuresFallBack` | app_new.py:58-90 | a transport error, a status other than 200 or an unparsable body gives exactly `EMODNET_LAYERS` |
| `Capabilities.ParsedDocument` | app_new.py:69-85 | for a parsed document: nothing is collected iff no `Layer` descendant yields a record, and then the result is the fallback; otherwise the result is the first `min(20, n)` collected records, which are those of the accepting layers, each described by its layer, in the order of the found layers (document order by `Capabilities.LayersInDocumentOrder`), none left out |
| `Capabilities.LayerElemsOrigin` | app_new.py:65-70 | the layers found after the rewrite are exactly the rewritten descendants whose tag has the local name `Layer` |
| `Capabilities.LayersInDocumentOrder` | app_new.py:65-70 | the layers are found one per descendant whose local name is `Layer`, in document order: the i-th is the rewritten descendant at the i-th of strictly increasing positions, and no such descendant is left out |
| `Capabilities.LiveEntryOrigin` | app_new.py:65-82 | the i-th collected record is described by the rewritten form of some descendant of the parsed root whose local name is `Layer` |
| `Capabilities.LiveEntriesDescribeLayers` | app_new.py:65-85 | every live record comes from some descendant of the parsed root whose local name is `Layer`, with that layer's verbatim name and its title and description |
| `Capabilities.OnlyQualifiedNames` | app_new.py:76-85 | a document whose layers have only workspace-qualified names, or none, gives the fallback catalogue |
| `Capabilities.CatalogueEntry` | app_new.py:17-48 | each fallback entry has a non-empty, colon-free name, a non-empty title and a non-empty description |
| `Capabilities.FallbackCatalogue` | app_new.py:17-48 | the fallback catalogue has six well-formed entries with pairwise distinct names |
| `Capabilities.CollectLayers` | app_new.py:69-82 | the loop over the found layers returns exactly the filter-map of their records |
| `Capabilities.GetAvailableLayers` | app_new.py:50-90 | building the tree, rewriting its tags in place, collecting and truncating returns what `Resolve` specifies for every outcome |
| `Legend.WmsBaseUrl` | app_new.py:13 | `WMS_BASE_URL`; characterised by `Legend.EndpointHasNoQuery` and `Legend.QueryAfterEndpoint` |
| `Legend.LegendQueryText` | app_new.py:490-491 | no contract of its own; the query part of the legend address, characterised by `Legend.LegendUrlQuery` and `Legend.LegendQueryJoin` |
| `Legend.LegendUrl` | app_new.py:488-492 | the address is the endpoint, `?`, `service=WMS&version=1.1.0&request=GetLegendGraphic&layer=`, the layer name verbatim, then `&format=image/png` |
| `Legend.LegendRoundTrip` | app_new.py:488-492 | the layer name is read back from its legend address |
| `Legend.LegendLayerExact` | app_new.py:488-492 | every address of the legend shape is the legend address of the layer it names |
| `Legend.LegendUrlInjective` | app_new.py:488-492 | different layer names give different legend addresses |
| `Legend.EndpointHasNoQuery` | app_new.py:13 | the service endpoint holds no `?` |
| `Legend.QueryAfterEndpoint` | app_new.py:13 | the query of an address on the endpoint is everything after the `?` |
| `Legend.FixedParameters` | app_new.py:490-491 | none of the fixed query parameters holds `&` |
| `Legend.LegendUrlQuery` | app_new.py:488-492 | the query of a legend address is the legend query of the layer |
| `Legend.LegendQueryJoin` | app_new.py:489-491 | the legend query is its five parameters joined by `&` |
| `Legend.LegendQuery` | app_new.py:488-492 | for a name without `&`, cutting the query at `&` gives `service=WMS`, `version=1.1.0`, `request=GetLegendGraphic`, `layer=<name>` and `format=image/png` |

## Left out

- The HTTP request (`requests.get` with its parameters and ten-second timeout) is not modelled. Its outcome is the `FetchOutcome` parameter. The parameters it sends (`WMS_VERSION` 1.3.0) are therefore not stated.
- XML parsing (`ET.fromstring`) is not modelled. Its result is the `ParseOutcome` of the response: a parse error or an element tree.
- The `except Exception` clause catches every exception. The model has one for each failure: a transport error, or a body that fails to parse. No step after parsing can raise: `split('}')[1]` is taken only when `}` occurs, so it always has a second piece.
- The `print` of the caught error is left out as logging.
- The Flask routes (`/`, `/api/layers`, `/api/capabilities`, `/test`) are left out. So are the JSON wrapping by `jsonify` and the HTML, CSS and JavaScript templates.
- The template's `updateLegend` (app_new.py:381-382) builds the same legend address in JavaScript. It is not modelled separately.
- `/api/capabilities` (app_new.py:471-483) returns the capabilities document as raw text. This is I/O only.
- The `__main__` block that starts the development server is left out.
- Python's string type is Unicode text. The model uses `seq<char>`, with no encoding or normalisation.

## Findings

None.
