/** The local directed read graph: a graph of oriented reads near a start read, indexed by
    oriented read through a map, and the colour and shape choices of its Graphviz writer. */
module LocalDirectedReadGraphs {
  import opened Common

  /** LocalDirectedReadGraphVertex, as addVertex creates it. */
  datatype Vertex = Vertex(orientedReadId: OrientedReadId, baseCount: nat, markerCount: nat,
    distance: nat, isContained: bool)

  /** LocalDirectedReadGraphEdge between the vertices with indexes v0 and v1. The alignment
      information is only shown in tooltips and is not kept. */
  datatype Edge = Edge(v0: nat, v1: nat, involvesTwoContainedVertices: bool,
    involvesOneContainedVertex: bool, keep: bool, commonNeighborCount: nat)

  class LocalDirectedReadGraph {
    var vertices: seq<Vertex>
    var edges: seq<Edge>
    /** The vertex of each oriented read that has one. */
    var vertexMap: map<OrientedReadId, nat>

    /** The map indexes each vertex under its own oriented read, and edges join vertices. */
    ghost predicate Valid()
      reads this
    {
      (forall o :: o in vertexMap ==> vertexMap[o] < |vertices| && vertices[vertexMap[o]].orientedReadId == o)
      && (forall i :: 0 <= i < |vertices| ==>
            vertices[i].orientedReadId in vertexMap && vertexMap[vertices[i].orientedReadId] == i)
      && (forall e :: 0 <= e < |edges| ==> edges[e].v0 < |vertices| && edges[e].v1 < |vertices|)
    }

    constructor ()
      ensures Valid() && vertices == [] && edges == [] && vertexMap == map[]
    {
      vertices := [];
      edges := [];
      vertexMap := map[];
    }

    /** vertexExists. */
    predicate VertexExists(orientedReadId: OrientedReadId)
      reads this
    {
      orientedReadId in vertexMap
    }

    /** getDistance: the distance stored for the oriented read's vertex. */
    function GetDistance(orientedReadId: OrientedReadId): (distance: nat)
      reads this
      requires Valid() && VertexExists(orientedReadId)
      ensures forall i :: 0 <= i < |vertices| && vertices[i].orientedReadId == orientedReadId ==>
        distance == vertices[i].distance
    {
      vertices[vertexMap[orientedReadId]].distance
    }

    /** addVertex: the oriented read must not have a vertex yet. Afterwards it has one, holding
        the given distance, and every other oriented read keeps its vertex. */
    method AddVertex(orientedReadId: OrientedReadId, baseCount: nat, markerCount: nat,
        distance: nat, isContained: bool)
      requires Valid() && !VertexExists(orientedReadId)
      modifies this
      ensures Valid()
      ensures vertices == old(vertices) + [Vertex(orientedReadId, baseCount, markerCount, distance, isContained)]
      ensures vertexMap == old(vertexMap)[orientedReadId := |old(vertices)|]
      ensures edges == old(edges)
      ensures VertexExists(orientedReadId) && GetDistance(orientedReadId) == distance
      ensures forall o :: o != orientedReadId ==>
        (VertexExists(o) <==> old(VertexExists(o)))
    {
      vertexMap := vertexMap[orientedReadId := |vertices|];
      vertices := vertices + [Vertex(orientedReadId, baseCount, markerCount, distance, isContained)];
    }

    /** addEdge: both oriented reads must have vertices; one edge is added from the first's
        vertex to the second's. */
    method AddEdge(orientedReadId0: OrientedReadId, orientedReadId1: OrientedReadId,
        involvesTwoContainedVertices: bool, involvesOneContainedVertex: bool, keep: bool,
        commonNeighborCount: nat)
      requires Valid() && VertexExists(orientedReadId0) && VertexExists(orientedReadId1)
      modifies this
      ensures Valid()
      ensures vertices == old(vertices) && vertexMap == old(vertexMap)
      ensures |edges| == |old(edges)| + 1 && edges[..|old(edges)|] == old(edges)
      ensures var e := edges[|edges| - 1];
        vertices[e.v0].orientedReadId == orientedReadId0 && vertices[e.v1].orientedReadId == orientedReadId1
        && e == Edge(e.v0, e.v1, involvesTwoContainedVertices, involvesOneContainedVertex, keep, commonNeighborCount)
    {
      var v0 := vertexMap[orientedReadId0];
      var v1 := vertexMap[orientedReadId1];
      edges := edges + [Edge(v0, v1, involvesTwoContainedVertices, involvesOneContainedVertex, keep, commonNeighborCount)];
    }
  }

  /** In a valid graph, an oriented read has a vertex exactly when some vertex holds it. */
  lemma VertexExistsMeaning(graph: LocalDirectedReadGraph, orientedReadId: OrientedReadId)
    requires graph.Valid()
    ensures graph.VertexExists(orientedReadId) <==>
      exists i :: 0 <= i < |graph.vertices| && graph.vertices[i].orientedReadId == orientedReadId
  {
    if graph.VertexExists(orientedReadId) {
      var i := graph.vertexMap[orientedReadId];
      assert graph.vertices[i].orientedReadId == orientedReadId;
    }
  }

  // ----- The Graphviz writer -----

  /** What the conflict read graph and callers attach to a vertex for display; the absent
      cluster id is the largest uint64. */
  datatype VertexAnnotation = VertexAnnotation(clusterId: nat, isConflictingGreen: bool,
    isConflictingRed: bool, conflictCount: nat, additionalToolTipText: string)

  /** The writer's display options. */
  datatype WriterOptions = WriterOptions(maxDistance: nat, displayConflictInformation: bool,
    colorEdgeArrows: bool)

  /** The vertex colours: a Brewer set18 colour index, a named colour, or the blue hue whose
      value, in hundredths, grows with the number of conflicting vertices. */
  datatype VertexColor = Set18(index: nat) | Cyan | Green | Red | Black | ConflictShade(valueHundredths: nat)

  predicate HasClusterInformation(annotation: VertexAnnotation)
  {
    annotation.clusterId != UINT64_MAX
  }

  /** The colour the writer gives a vertex. */
  function VertexColorOf(options: WriterOptions, distance: nat, annotation: VertexAnnotation): (c: VertexColor)
    ensures c.Set18? <==> options.displayConflictInformation && HasClusterInformation(annotation)
    ensures c.Set18? ==> 1 <= c.index <= 8 && c.index == annotation.clusterId % 8 + 1
    ensures c == Cyan <==> distance == options.maxDistance && !c.Set18?
    ensures !options.displayConflictInformation ==> (c == Cyan || c == Black)
    ensures c.ConflictShade? ==> 50 < c.valueHundredths <= 80
  {
    if options.displayConflictInformation then
      if HasClusterInformation(annotation) then Set18(annotation.clusterId % 8 + 1)
      else if distance == options.maxDistance then Cyan
      else if annotation.isConflictingGreen then Green
      else if annotation.isConflictingRed then Red
      else if annotation.conflictCount == 0 then Black
      else ConflictShade(if 50 + 5 * annotation.conflictCount < 80 then 50 + 5 * annotation.conflictCount else 80)
    else if distance == options.maxDistance then Cyan
    else Black
  }

  /** A vertex with additional tooltip text is drawn as a filled diamond. */
  function IsDiamond(annotation: VertexAnnotation): (diamond: bool)
    ensures diamond <==> |annotation.additionalToolTipText| > 0
  {
    annotation.additionalToolTipText != []
  }

  /** The edge colours: Graphviz's default, partially transparent blue (with green and red ends
      and arrows at both ends when arrows are coloured), or partially transparent red. */
  datatype EdgeColor = DefaultColor | TransparentBlue | TransparentBlueGreenRedEnds | TransparentRed

  /** The colour the writer gives an edge whose vertices carry these annotations. */
  function EdgeColorOf(options: WriterOptions, edge: Edge, annotation0: VertexAnnotation,
      annotation1: VertexAnnotation): (c: EdgeColor)
    ensures (c == TransparentBlue || c == TransparentBlueGreenRedEnds) <==> !edge.keep
    ensures c == TransparentBlueGreenRedEnds <==> !edge.keep && options.colorEdgeArrows
    ensures c == TransparentRed <==>
      edge.keep && options.displayConflictInformation
      && HasClusterInformation(annotation0) && HasClusterInformation(annotation1)
      && annotation0.clusterId != annotation1.clusterId
  {
    if !edge.keep then
      if options.colorEdgeArrows then TransparentBlueGreenRedEnds else TransparentBlue
    else if options.displayConflictInformation
      && HasClusterInformation(annotation0) && HasClusterInformation(annotation1)
      && annotation0.clusterId != annotation1.clusterId
    then TransparentRed
    else DefaultColor
  }

  /** The vertex colour of an oriented read in the graph, looked up through the map. */
  function GraphVertexColor(graph: LocalDirectedReadGraph, options: WriterOptions,
      orientedReadId: OrientedReadId, annotation: VertexAnnotation): (c: VertexColor)
    reads graph
    requires graph.Valid() && graph.VertexExists(orientedReadId)
    ensures !options.displayConflictInformation ==>
      (c == Cyan <==> graph.GetDistance(orientedReadId) == options.maxDistance)
  {
    VertexColorOf(options, graph.GetDistance(orientedReadId), annotation)
  }
}
