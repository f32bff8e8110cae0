/** Vector layers as the scripts see them through geopandas: features with
    attribute cells and an opaque geometry, the layer's column names, and
    its coordinate reference system, which may be unset. */
module Layers {
  import opened Results
  import opened Cells

  datatype Feature<G> = Feature(attributes: map<string, Cell>, geometry: G)

  datatype Layer<C, G> = Layer(columns: seq<string>, features: seq<Feature<G>>, crs: Option<C>)
}
