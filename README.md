# Story graph endpoint — a Dafny model

The story-graph server answers `GET /story-graph/:story_line_id` with the
graph of one storyline, ready for a Cytoscape client. It runs two SQL
queries: one for the storyline and one for the storyline's node rows. It
then builds the element list in one pass over the node rows. For each row,
in row order, it pushes a node element. The node element's id is
`N<store_node_id>`. Its label is `📌 <id>\n📝 <title>\n<description>`, and
its style is fixed. When the row's `next_story_node_id` is truthy, the pass
pushes an edge element `E<id>-<next>` from `N<id>` to `N<next>` straight
after that node element. If the storyline query returns no rows, the answer
is a 404. Otherwise it is `{storyLine: <first storyline row>, elements}`. A
CORS origin callback admits a request when its origin is absent or empty, or
equals the one allow-listed origin.

This project models that behaviour and proves its properties:

- `js_values.dfy` (module `JsValues`) models the JavaScript values a row
  hands the handler (`null`, `undefined`, integers, strings). It defines
  their truthiness and the text a template literal turns them into.
- `elements.dfy` (module `StoryGraph`) models the element-building loop. The
  loop is the method `BuildElements`, proved equal to the specification
  function `ElementsOf`. Lemmas about `ElementsOf` give the count, the
  order, the position of each row's elements, the id formats and when edges
  appear.
- `cors.dfy` (module `Cors`) models the origin check.
- `route.dfy` (module `StoryGraphRoute`) models the not-found decision and
  the response shape.

The handler in `story-graph/server/server.js` makes edges from
`next_story_node_id` alone (lines 80-88). It does no graph traversal, and it
emits one node element per row with no deduplication (lines 61-78). It never
checks that an edge's target is among the rows, so an edge may point at an id
that no node element has. It answers 404 only when the storyline query
returns no row (lines 50-51). Otherwise it returns the whole first storyline
row (line 91). The lemmas `DanglingEdgeExample`, `RepeatedRowRepeatsNode` and
`OnlyNextEdgesExample` show this behaviour on concrete rows.
`EdgeIdsCanCollide` shows that two different edges between text ids can get
the same id.

The node label field is called `nodeLabel` in the model, because `label` is
a Dafny keyword.

## Model

| member | source | states |
|---|---|---|
| `JsValues.FalsyValues` | story-graph/server/server.js:80 | Characterises the model's definition of truthiness: the values the `if` treats as false are exactly `null`, `undefined`, `0` and `""`; every other number or string is truthy. |
| `JsValues.NatToDecimal` | story-graph/server/server.js:64-65 | A template literal renders a non-negative integer as a non-empty run of decimal digits with no leading zero. |
| `JsValues.DecimalRoundTrip` | story-graph/server/server.js:64-65 | Reading the rendered digits of `n` back as a decimal number gives `n`. |
| `JsValues.SignAndDigits` | story-graph/server/server.js:64-65 | Unfolds the model's definition of integer rendering: a rendered integer is non-empty and starts with `-` exactly when it is negative; the rest is the decimal form of its absolute value. |
| `JsValues.RenderNumInjective` | story-graph/server/server.js:83-85 | Two integer ids render to the same text only when they are equal, so an `N…` id identifies the integer id it was made from. |
| `StoryGraph.RowsWithNextMembers` | story-graph/server/server.js:80-88 | The rows that emit an edge are exactly the rows whose next id is truthy. |
| `StoryGraph.ElementsOf` | story-graph/server/server.js:59-89 | After the loop has visited the rows, the list holds one element per row plus one more per row with a truthy next id. |
| `StoryGraph.BuildElements` | story-graph/server/server.js:59-89 | The loop, starting from an empty list and pushing per row, produces exactly `ElementsOf(rows)`; its length is the row count plus the count of rows with a truthy next id. |
| `StoryGraph.RowElementKinds` | story-graph/server/server.js:61-88 | One iteration pushes exactly one node element, the row's, and pushes one edge element, the row's, if and only if its next id is truthy. |
| `StoryGraph.ElementsOfAppend` | story-graph/server/server.js:59-89 | The elements of two batches of rows are the first batch's elements followed by the second's: no element is merged, dropped or reordered across rows. |
| `StoryGraph.NodesInRowOrder` | story-graph/server/server.js:61-78 | The node elements of the output are exactly one per row, and the i-th node element is the i-th row's. |
| `StoryGraph.EdgesInRowOrder` | story-graph/server/server.js:80-88 | The edge elements of the output are exactly one per row with a truthy next id, in row order. |
| `StoryGraph.RowLayout` | story-graph/server/server.js:61-89 | Row i's elements sit together: its node element (id `N` + id, label `📌 id\n📝 title\ndescription`, the fixed style) at its node index, then its edge element (id `E` + id + `-` + next, source `N` + id, target `N` + next) exactly when the next id is truthy, then row i+1's node element. The first row starts the list and the last row ends it. |
| `StoryGraph.EdgeFollowsItsSource` | story-graph/server/server.js:80-88 | Every edge element comes straight after a node element, and the edge's source equals that node element's id. |
| `StoryGraph.IdsTellKindsApart` | story-graph/server/server.js:64-85 | Every element id is non-empty and starts with `N` if it is a node element and with `E` if it is an edge element, so no edge id equals a node id. |
| `StoryGraph.EdgeIdsIdentifyIntegerEnds` | story-graph/server/server.js:83-85 | When both ids are integers, two rows get the same edge id `E<id>-<next>` only when they have the same id and the same next id. |
| `StoryGraph.EdgeIdsCanCollide` | story-graph/server/server.js:83-85 | When ids are text, the rows `a-b` → `c` and `a` → `b-c` get the same edge id `Ea-b-c`, though their sources and targets differ. |
| `StoryGraph.RepeatedRowRepeatsNode` | story-graph/server/server.js:61-78 | Two identical rows give two identical node elements: nothing is deduplicated. |
| `StoryGraph.DanglingEdgeExample` | story-graph/server/server.js:80-88 | A row 1 whose next id is 2 yields edge `E1-2` from `N1` to `N2` even though no node element `N2` is emitted: the target is never checked. |
| `StoryGraph.OnlyNextEdgesExample` | story-graph/server/server.js:59-89 | Rows 1→2, 2, 3, 4 yield `N1, E1-2, N2, N3, N4`: only next ids make edges. |
| `Cors.CheckOrigin` | story-graph/server/server.js:11-16 | The allowed origins are exactly `null`, `undefined`, `0`, `""` and `https://admin.spiritbrewgame.com`: the falsy values all get through the `!origin` test, and only that one string gets through the allow-list. Every other origin is refused with the fixed error message. |
| `Cors.AllowedStringOrigins` | story-graph/server/server.js:8-16 | Of the origin strings, exactly `""` and `https://admin.spiritbrewgame.com` are allowed, by exact comparison; every other string is refused. |
| `Cors.AbsentOriginAllowed` | story-graph/server/server.js:12-13 | A request with no origin is allowed. |
| `StoryGraphRoute.Respond` | story-graph/server/server.js:50-91 | The answer is not found, with the fixed message and status 404, exactly when the storyline query returned no row. Otherwise it has status 200 and carries the first storyline row and an element list with one node element per node row in row order, one more element per row with a truthy next id, and every edge right after its source node. |
| `StoryGraphRoute.HandleStoryGraph` | story-graph/server/server.js:50-91 | The handler's answer, built with the element loop, is exactly `Respond` of the two queries' rows. |

## Left out

- The Express application, routing, `app.listen` and the wiring of the `cors` middleware (server.js lines 1-6, 23, 41, 98-100). These are framework plumbing. The `methods`, `allowedHeaders` and `credentials` CORS options are left out too, as is what the middleware does with the callback's answer.
- The PostgreSQL client, its connection, `process.exit`, and both SQL queries (lines 25-39, 45-57). They are I/O against a database that is not part of this model. Their results are inputs: a sequence of storyline rows of any type, and a sequence of node rows. The route parameter `story_line_id` only feeds those queries, so it does not appear.
- `StoryGraphRoute.HandleStoryGraph`: the node rows are a parameter, so the model cannot express that the node query is never issued on the not-found path. It only shows that the rows are not read on that path.
- The `async`/`await` control flow, the `try`/`catch` that maps any failure to HTTP 500, and the `console` logging (lines 42, 92-95). These are transport and error plumbing.
- Column values other than `null`, `undefined`, integers and strings. Floating-point numbers, `NaN`, `-0`, booleans, dates and other objects are not modelled, so neither is their truthiness or their rendering in a template literal.
- `JsValues.Render`: integers are always rendered in plain decimal. JavaScript switches to exponent notation at 10^21, which ids do not reach. `Num` stands for integers that a JavaScript number holds exactly, with magnitude at most 2^53; the model does not bound them. An `int8` (`bigint`) column arrives from node-postgres as a string, which the model writes as `Str`.
- The style object is kept as one constant value. Nothing is proved about its contents.
