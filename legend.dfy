/** The legend endpoint: for a layer name it answers with the address of the
    Web Map Service's `GetLegendGraphic` image for that layer, a version 1.1.0
    request asking for PNG. */
module Legend {
  import opened Wrappers
  import opened Strings

  /** `WMS_BASE_URL`: the service endpoint of the EMODnet Seabed Habitats view
      workspace, `https://ows.emodnet-seabedhabitats.eu/geoserver/emodnet_view/wms`,
      written as four pieces so that the verifier can see piece by piece that
      it holds no `?`. */
  const WmsBaseUrl := "https://" + "ows.emodnet-seabedhabitats.eu" + "/geoserver/" + "emodnet_view/wms"

  /** The query of the legend request for a layer: three fixed parameters, the
      layer and the image format, separated by `&`. */
  function LegendQueryText(layerName: string): string
  {
    "service=WMS" + "&" + "version=1.1.0" + "&" + "request=GetLegendGraphic" + "&"
    + "layer=" + layerName + "&" + "format=image/png"
  }

  /** Everything up to the layer name: the endpoint, `?`, the three fixed
      parameters and the key of the `layer` parameter. */
  const LegendPrefix := WmsBaseUrl + "?" + "service=WMS" + "&" + "version=1.1.0" + "&"
                        + "request=GetLegendGraphic" + "&" + "layer="

  /** Everything after the layer name. */
  const LegendSuffix := "&" + "format=image/png"

  /** The legend address for a layer: the endpoint, then the query, with the
      layer name inserted verbatim (it is neither checked nor escaped). */
  function LegendUrl(layerName: string): (url: string)
    ensures |url| == |LegendPrefix| + |layerName| + |LegendSuffix|
    ensures url[..|LegendPrefix|] == LegendPrefix
    ensures url[|LegendPrefix|..|LegendPrefix| + |layerName|] == layerName
    ensures url[|LegendPrefix| + |layerName|..] == LegendSuffix
  {
    assert LegendPrefix + layerName + LegendSuffix == WmsBaseUrl + "?" + LegendQueryText(layerName);
    WmsBaseUrl + "?" + LegendQueryText(layerName)
  }

  /** The layer named by a legend address, if the address has the legend
      endpoint's shape. */
  function LegendLayer(url: string): Option<string>
  {
    if |url| >= |LegendPrefix| + |LegendSuffix|
       && url[..|LegendPrefix|] == LegendPrefix
       && url[|url| - |LegendSuffix|..] == LegendSuffix
    then Some(url[|LegendPrefix|..|url| - |LegendSuffix|])
    else None
  }

  /** The layer name can be read back from its legend address. */
  lemma LegendRoundTrip(layerName: string)
    ensures LegendLayer(LegendUrl(layerName)) == Some(layerName)
  {
    var url := LegendUrl(layerName);
    assert |url| - |LegendSuffix| == |LegendPrefix| + |layerName|;
  }

  /** Every address of the legend shape is the legend address of the layer it names. */
  lemma LegendLayerExact(url: string)
    requires LegendLayer(url).Some?
    ensures LegendUrl(LegendLayer(url).value) == url
  {
    var name := LegendLayer(url).value;
    assert url == url[..|LegendPrefix|] + name + url[|url| - |LegendSuffix|..];
  }

  /** Different layers have different legend addresses. */
  lemma LegendUrlInjective(a: string, b: string)
    requires LegendUrl(a) == LegendUrl(b)
    ensures a == b
  {
    LegendRoundTrip(a);
    LegendRoundTrip(b);
  }

  /** The query of an address: what follows its first `?`, if it has one. */
  function QueryOf(url: string): Option<string>
  {
    if '?' in url then Some(url[IndexOf(url, '?') + 1..]) else None
  }

  /** The endpoint has no query of its own. */
  lemma EndpointHasNoQuery()
    ensures '?' !in WmsBaseUrl
  {
  }

  /** The fixed parameters of the legend request. */
  lemma FixedParameters()
    ensures '&' !in "service=WMS" && '&' !in "version=1.1.0"
    ensures '&' !in "request=GetLegendGraphic" && '&' !in "format=image/png"
    ensures '&' !in "layer="
  {
  }

  /** The query of an address on the endpoint is everything after its `?`. */
  lemma QueryAfterEndpoint(query: string)
    ensures QueryOf(WmsBaseUrl + "?" + query) == Some(query)
  {
    var url := WmsBaseUrl + "?" + query;
    var k := |WmsBaseUrl|;
    EndpointHasNoQuery();
    assert url[k] == '?' && url[..k] == WmsBaseUrl && url[k + 1..] == query;
    IndexOfUnique(url, '?', k);
  }

  /** The query of a legend address is the legend query of its layer. */
  lemma LegendUrlQuery(layerName: string)
    ensures QueryOf(LegendUrl(layerName)) == Some(LegendQueryText(layerName))
  {
    QueryAfterEndpoint(LegendQueryText(layerName));
  }

  /** The legend query is its five parameters joined by `&`. */
  lemma LegendQueryJoin(layerName: string)
    ensures LegendQueryText(layerName) ==
              Join(["service=WMS", "version=1.1.0", "request=GetLegendGraphic",
                    "layer=" + layerName, "format=image/png"], '&')
  {
    var p1, p2, p3, p4, p5 := "service=WMS", "version=1.1.0", "request=GetLegendGraphic",
                              "layer=" + layerName, "format=image/png";
    JoinCons(p4, [p5], '&');
    JoinCons(p3, [p4, p5], '&');
    JoinCons(p2, [p3, p4, p5], '&');
    JoinCons(p1, [p2, p3, p4, p5], '&');
    assert [p1] + [p2, p3, p4, p5] == [p1, p2, p3, p4, p5];
  }

  /** The query of a legend address, cut at `&`, gives the five parameters of
      the request, the layer name among them verbatim, provided the name
      itself holds no `&`. */
  lemma LegendQuery(layerName: string)
    requires '&' !in layerName
    ensures QueryOf(LegendUrl(layerName)).Some?
    ensures Split(QueryOf(LegendUrl(layerName)).value, '&') ==
              ["service=WMS", "version=1.1.0", "request=GetLegendGraphic",
               "layer=" + layerName, "format=image/png"]
  {
    var pieces := ["service=WMS", "version=1.1.0", "request=GetLegendGraphic",
                   "layer=" + layerName, "format=image/png"];
    LegendUrlQuery(layerName);
    LegendQueryJoin(layerName);
    FixedParameters();
    assert '&' !in pieces[3];
    SplitJoin(pieces, '&');
  }
}
