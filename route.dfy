/**
 * The `GET /story-graph/:story_line_id` handler once its two queries have
 * answered: the storyline query decides between not-found and a graph, and
 * the node rows become the element list.
 */
module StoryGraphRoute {
  import opened StoryGraph

  /** The error text of the 404 answer. */
  const NotFoundMessage: string := "❌ 劇情線不存在"

  /** The two answers the handler gives once both queries succeed:
      404 `{error}` or 200 `{storyLine, elements}`. The storyline row is passed
      through untouched, whatever its columns. */
  datatype Response<L> = NotFound(error: string) | Found(storyLine: L, elements: seq<Element>)

  /** The HTTP status each answer is sent with. */
  function StatusCode<L>(r: Response<L>): int
  {
    match r
    case NotFound(_) => 404
    case Found(_, _) => 200
  }

  /** The answer for the rows the two queries return: not found when the
      storyline query returns no row; otherwise the first storyline row with
      the elements of the node rows, one node element per row in row order
      and one edge element per row with a truthy next id. */
  function Respond<L>(storyLineRows: seq<L>, nodeRows: seq<NodeRow>): (r: Response<L>)
    ensures r.NotFound? <==> |storyLineRows| == 0
    ensures r.NotFound? ==> r.error == NotFoundMessage && StatusCode(r) == 404
    ensures r.Found? ==>
      StatusCode(r) == 200 &&
      r.storyLine == storyLineRows[0] &&
      |r.elements| == |nodeRows| + |RowsWithNext(nodeRows)| &&
      NodesMatchRows(NodeElements(r.elements), nodeRows) &&
      EdgesFollowSources(r.elements)
  {
    if |storyLineRows| == 0 then NotFound(NotFoundMessage)
    else
      NodesInRowOrder(nodeRows);
      EdgeFollowsItsSource(nodeRows);
      Found(storyLineRows[0], ElementsOf(nodeRows))
  }

  /** The handler: answer not found before the node rows are looked at when
      the storyline query is empty; otherwise build the element list with the
      loop and pair it with the first storyline row. */
  method HandleStoryGraph<L>(storyLineRows: seq<L>, nodeRows: seq<NodeRow>) returns (r: Response<L>)
    ensures r == Respond(storyLineRows, nodeRows)
  {
    if |storyLineRows| == 0 {
      return NotFound(NotFoundMessage);
    }
    var elements := BuildElements(nodeRows);
    r := Found(storyLineRows[0], elements);
  }
}
