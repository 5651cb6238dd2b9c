/**
 * The `result` view of `explore/views.py`: dispatch of the submitted form or upload, and the
 * planning of the related images shown next to the submitted one (up to 7 from the query
 * node of the 10 x 10 self-organising map, then up to 10 in all from its grid neighbours).
 *
 * Django's ORM is modelled as an in-memory sequence of rows, `random.choice` with its
 * rejection loop as a choice among the rows not chosen yet, and the SOM prediction and
 * image encoding of an upload as parameters.
 */
module Views {
  import opened Common

  /** A row of the `ImageRetrieved` table; `id` is the primary key Django compares rows by. */
  datatype Record = Record(id: int, encodedImage: string, node: int)

  /** No two rows share a primary key. */
  predicate UniqueIds(store: seq<Record>) {
    forall i, j | 0 <= i < j < |store| :: store[i].id != store[j].id
  }

  /** No element occurs twice. */
  predicate Distinct<T(==)>(s: seq<T>) {
    forall i, j | 0 <= i < j < |s| :: s[i] != s[j]
  }

  // ---------------------------------------------------------------------------------------
  // Neighbouring nodes (views.py:77-87)
  // ---------------------------------------------------------------------------------------

  /** The sentinel for an absent neighbour. */
  const Absent := -1

  /**
   * The four neighbour slots (up, down, left, right) of a node, each `Absent` when its
   * boundary test fails.  Python's `%` floors, which Dafny's `%` by a positive divisor agrees with.
   */
  function Neighbours(node: int): seq<int> {
    [ if node > 10 then node - 10 else Absent,
      if node < 91 then node + 10 else Absent,
      if node % 10 != 1 then node - 1 else Absent,
      if node % 10 != 0 then node + 1 else Absent ]
  }

  /**
   * `neighbor_nodes` as the view builds it: four sentinels, overwritten slot by slot.  The
   * function `Neighbours` above is its specification, stated as one value.
   */
  method NeighbourNodes(node: int) returns (slots: seq<int>)
    ensures slots == Neighbours(node)
  {
    slots := [Absent, Absent, Absent, Absent];
    if node > 10 {
      slots := slots[0 := node - 10];
    }
    if node < 91 {
      slots := slots[1 := node + 10];
    }
    if node % 10 != 1 {
      slots := slots[2 := node - 1];
    }
    if node % 10 != 0 {
      slots := slots[3 := node + 1];
    }
  }

  /** The two corner examples: node 5 on the top row, node 100 in the bottom-right corner. */
  lemma NeighbourExamples()
    ensures Neighbours(5) == [-1, 15, 4, 6]
    ensures Neighbours(100) == [90, -1, 99, -1]
  {
  }

  /** A real neighbour is one row (10) or one column (1) away, so never the node itself. */
  lemma NeighbourOffsets(node: int, k: int)
    requires 0 <= k < 4 && Neighbours(node)[k] != Absent
    ensures var d := Neighbours(node)[k] - node; d == 10 || d == -10 || d == 1 || d == -1
    ensures Neighbours(node)[k] != node
  {
  }

  /** A node is among its own neighbour slots only as the sentinel. */
  lemma SelfNeighbourOnlySentinel(node: int)
    ensures node in Neighbours(node) <==> node == Absent
  {
    if node == Absent {
      assert Neighbours(node)[0] == node;
    }
  }

  /** Row and column of a node when the 100 nodes are numbered 1 to 100 row by row. */
  function Row(node: int): int { (node - 1) / 10 }
  function Col(node: int): int { (node - 1) % 10 }

  predicate OnGrid(node: int) { 1 <= node <= 100 }

  /** Two cells of the 10 x 10 grid share a side. */
  predicate GridAdjacent(a: int, b: int) {
    (Row(a) == Row(b) && (Col(a) - Col(b) == 1 || Col(b) - Col(a) == 1))
    || (Col(a) == Col(b) && (Row(a) - Row(b) == 1 || Row(b) - Row(a) == 1))
  }

  /**
   * With nodes numbered 1 to 100, the boundary tests keep exactly the cells that share a side
   * with the node: the slots hold the node's grid neighbours and nothing else.
   */
  lemma NeighboursAreGridAdjacent(node: int, other: int)
    requires OnGrid(node)
    ensures (other != Absent && other in Neighbours(node)) <==> (OnGrid(other) && GridAdjacent(node, other))
  {
    if OnGrid(other) && GridAdjacent(node, other) {
      if Row(node) == Row(other) {
        if Col(other) - Col(node) == 1 {
          assert other == node + 1 && Neighbours(node)[3] == other;
        } else {
          assert other == node - 1 && Neighbours(node)[2] == other;
        }
      } else if Row(other) - Row(node) == 1 {
        assert other == node + 10 && Neighbours(node)[1] == other;
      } else {
        assert other == node - 10 && Neighbours(node)[0] == other;
      }
    }
  }

  /**
   * Numbered from 0 as the map's own indices are, the tests are off by one: node 9 (end of the
   * first row) gets node 10 (start of the second) as its right neighbour, and node 10 gets no
   * upper neighbour although node 0 is above it.
   */
  lemma ZeroBasedNumberingExample()
    ensures Neighbours(9)[3] == 10
    ensures Neighbours(10)[0] == Absent
  {
  }

  // ---------------------------------------------------------------------------------------
  // Querysets (views.py:68, 90-93)
  // ---------------------------------------------------------------------------------------

  /** `ImageRetrieved.objects.filter(node__exact=n0) | ... `: the rows whose node is listed, in table order. */
  function AtNodes(store: seq<Record>, nodes: seq<int>): (rows: seq<Record>)
    ensures |rows| <= |store|
    ensures forall r :: r in rows <==> r in store && r.node in nodes
    ensures Distinct(store) ==> Distinct(rows)
  {
    if store == [] then []
    else if store[0].node in nodes then [store[0]] + AtNodes(store[1..], nodes)
    else AtNodes(store[1..], nodes)
  }

  /** Rows with different primary keys are different rows. */
  lemma UniqueIdsDistinct(store: seq<Record>)
    requires UniqueIds(store)
    ensures Distinct(store)
  {
  }

  /** The rows at the query node. */
  function NodePool(store: seq<Record>, node: int): seq<Record> {
    AtNodes(store, [node])
  }

  /** The rows at any of the four neighbour slots, sentinel included. */
  function NeighbourPool(store: seq<Record>, node: int): seq<Record> {
    AtNodes(store, Neighbours(node))
  }

  /** `node_sample_size`: 7 rows, or every row at the node when it holds fewer. */
  function NodeSampleSize(store: seq<Record>, node: int): (k: nat)
    ensures k <= 7 && k <= |NodePool(store, node)|
    ensures k == 7 || k == |NodePool(store, node)|
  {
    Min(7, |NodePool(store, node)|)
  }

  /** `neighbor_sample_size`: enough rows to make 10 in all, or every neighbour row when fewer. */
  function NeighbourSampleSize(store: seq<Record>, node: int): (k: nat)
    ensures k <= |NeighbourPool(store, node)| && NodeSampleSize(store, node) + k <= 10
    ensures NodeSampleSize(store, node) + k == 10 || k == |NeighbourPool(store, node)|
  {
    Min(10 - NodeSampleSize(store, node), |NeighbourPool(store, node)|)
  }

  /**
   * The pools share a row only when the node is the sentinel itself and rows are stored at it:
   * then the first phase draws from inside the neighbour pool.
   */
  predicate PoolsDisjoint(store: seq<Record>, node: int) {
    node == Absent ==> forall r | r in store :: r.node != Absent
  }

  /** The node pool and the neighbour pool share no row. */
  lemma PoolsShareNoRow(store: seq<Record>, node: int)
    requires PoolsDisjoint(store, node)
    ensures forall r | r in NodePool(store, node) :: r !in NeighbourPool(store, node)
  {
    SelfNeighbourOnlySentinel(node);
  }

  /**
   * The second rejection loop can find a fresh row for every draw it owes: the pools are
   * disjoint, or the neighbour pool holds 10 rows or more.
   */
  predicate SecondPhaseCanFinish(store: seq<Record>, node: int) {
    PoolsDisjoint(store, node) || |NeighbourPool(store, node)| >= 10
  }

  /**
   * Querying the sentinel while rows are stored at it: the neighbour slots of -1 are -1, 9, -2
   * and 0, so every row of the node pool is also in the neighbour pool, and the second phase
   * owes more draws than there are fresh rows exactly when fewer than 10 rows are stored at
   * those four nodes.  Then the loop at views.py:99-103 never ends.
   */
  lemma SentinelStarvesIff(store: seq<Record>)
    requires !PoolsDisjoint(store, Absent)
    ensures Neighbours(Absent) == [-1, 9, -2, 0]
    ensures forall r | r in NodePool(store, Absent) :: r in NeighbourPool(store, Absent)
    ensures NeighbourSampleSize(store, Absent) > |NeighbourPool(store, Absent)| - NodeSampleSize(store, Absent)
        <==> !SecondPhaseCanFinish(store, Absent)
  {
    var r :| r in store && r.node == Absent;
    assert r in NodePool(store, Absent);
  }

  /**
   * At the sentinel node with one row stored there, the first phase draws that row and the
   * second phase must draw one more from a pool holding only that row: its rejection loop
   * never ends.
   */
  lemma SentinelNodeStarves()
    ensures var store := [Record(0, "", Absent)];
      && NodeSampleSize(store, Absent) == 1
      && NeighbourSampleSize(store, Absent) == 1
      && NeighbourPool(store, Absent) == NodePool(store, Absent)
  {
    var store := [Record(0, "", Absent)];
    assert store[0].node in [Absent];
    assert store[0].node in Neighbours(Absent);
    assert store[1..] == [];
  }

  // ---------------------------------------------------------------------------------------
  // Sampling without repetition (views.py:69-75, 95-103)
  // ---------------------------------------------------------------------------------------

  /** A sequence without repeats has as many distinct elements as entries. */
  lemma {:induction false} DistinctCard<T>(s: seq<T>)
    requires Distinct(s)
    ensures |set x | x in s| == |s|
  {
    if s != [] {
      assert Distinct(s[1..]);
      DistinctCard(s[1..]);
      assert (set x | x in s) == {s[0]} + (set x | x in s[1..]);
      assert s[0] !in (set x | x in s[1..]);
    }
  }

  /** A sequence has at most as many distinct elements as entries. */
  lemma {:induction false} SetCardAtMost<T>(s: seq<T>)
    ensures |set x | x in s| <= |s|
  {
    if s != [] {
      SetCardAtMost(s[1..]);
      assert (set x | x in s) == {s[0]} + (set x | x in s[1..]);
    }
  }

  /** The rows of `drawn` that also belong to `pool`. */
  ghost function Overlap<T>(drawn: seq<T>, pool: seq<T>): set<T> {
    set x | x in drawn && x in pool
  }

  /** A sequence overlaps a pool in at most as many elements as it has entries. */
  lemma OverlapAtMost<T>(drawn: seq<T>, pool: seq<T>)
    ensures |Overlap(drawn, pool)| <= |drawn|
  {
    SetCardAtMost(drawn);
    SubsetCard(Overlap(drawn, pool), set x | x in drawn);
  }

  /** While fewer rows of the pool are drawn than it holds, some row of the pool is still undrawn. */
  lemma UndrawnRowExists<T>(pool: seq<T>, drawn: seq<T>)
    requires Distinct(pool) && |Overlap(drawn, pool)| < |pool|
    ensures exists r :: r in pool && r !in drawn
  {
    DistinctCard(pool);
    assert Overlap(drawn, pool) != set x | x in pool;
  }

  lemma SubsetCard<T>(a: set<T>, b: set<T>)
    requires a <= b
    ensures |a| <= |b|
  {
    assert b == a + (b - a);
  }

  /**
   * One phase of `result`: `count` times, draw a row of `pool` not yet in `related` and append
   * it.  The pool holds at least `count` rows besides those already in `related`, so each
   * rejection loop finds a fresh row.
   */
  method DrawPhase(pool: seq<Record>, count: nat, related: seq<Record>) returns (extended: seq<Record>)
    requires Distinct(pool) && Distinct(related)
    requires count + |Overlap(related, pool)| <= |pool|
    ensures |extended| == |related| + count
    ensures extended[..|related|] == related
    ensures forall k | |related| <= k < |extended| :: extended[k] in pool
    ensures Distinct(extended)
  {
    extended := related;
    for i := 0 to count
      invariant |extended| == |related| + i
      invariant extended[..|related|] == related
      invariant forall k | |related| <= k < |extended| :: extended[k] in pool
      invariant Distinct(extended)
      invariant |Overlap(extended, pool)| == |Overlap(related, pool)| + i
    {
      UndrawnRowExists(pool, extended);
      var candidate :| candidate in pool && candidate !in extended;
      assert Overlap(extended + [candidate], pool) == Overlap(extended, pool) + {candidate};
      extended := extended + [candidate];
    }
  }

  /**
   * The related images of `result`: up to 7 rows at the query node, then rows at the
   * neighbour slots until 10 are drawn or the neighbour pool is exhausted.
   */
  method RelatedImages(store: seq<Record>, node: int) returns (related: seq<Record>)
    requires UniqueIds(store) && SecondPhaseCanFinish(store, node)
    ensures |related| == NodeSampleSize(store, node) + NeighbourSampleSize(store, node) <= 10
    ensures Distinct(related)
    ensures forall k | 0 <= k < NodeSampleSize(store, node) :: related[k] in store && related[k].node == node
    ensures forall k | NodeSampleSize(store, node) <= k < |related| ::
      related[k] in store && related[k].node in Neighbours(node)
  {
    UniqueIdsDistinct(store);
    var retrieved := AtNodes(store, [node]);
    var nodeSampleSize := Min(7, |retrieved|);
    assert Overlap([], retrieved) == {};
    related := DrawPhase(retrieved, nodeSampleSize, []);
    var neighbourNodes := NeighbourNodes(node);
    var neighbourImages := AtNodes(store, neighbourNodes);
    var neighbourSampleSize := Min(10 - nodeSampleSize, |neighbourImages|);
    if PoolsDisjoint(store, node) {
      PoolsShareNoRow(store, node);
      assert Overlap(related, neighbourImages) == {};
    } else {
      OverlapAtMost(related, neighbourImages);
    }
    var firstPhase := related;
    related := DrawPhase(neighbourImages, neighbourSampleSize, related);
    assert forall k | 0 <= k < nodeSampleSize :: related[k] == firstPhase[k];
  }

  /** With no row at the node nor at its neighbours, nothing is related. */
  lemma EmptyPoolsGiveNothing(store: seq<Record>, node: int)
    requires NodePool(store, node) == [] && NeighbourPool(store, node) == []
    ensures NodeSampleSize(store, node) + NeighbourSampleSize(store, node) == 0
  {
  }

  // ---------------------------------------------------------------------------------------
  // Request dispatch (views.py:14-66, 105-110)
  // ---------------------------------------------------------------------------------------

  /** An uploaded file: Django treats it as false when it has no name. */
  datatype UploadedFile = UploadedFile(name: string, contentType: string)

  /**
   * The request as `result` reads it: the HTTP method, `request.FILES` and the `selection`
   * and `node` fields of `request.POST` (the node already parsed by `int`).
   */
  datatype Request = Request(httpMethod: string, files: map<string, UploadedFile>,
                             selection: Option<string>, node: Option<int>)

  /** What the view renders, or the exception it raises. */
  datatype Page =
    | Index(errorMessage: Option<string>)
    | ResultPage(submission: string, node: int, related: seq<Record>)
    | Raises(exception: string)

  /** Where the dispatch leads before any retrieval: a page at once, or a submission and its node. */
  datatype Route = Render(page: Page) | Retrieve(submission: string, node: int)

  const AllowedFileTypes: seq<string> := ["image/jpeg", "image/png", "image/bmp", "image/tiff"]

  /** The upload allow-list. */
  predicate AllowedFileType(contentType: string) {
    contentType in AllowedFileTypes
  }

  /**
   * The branches of `result` up to the retrieval.  `uploadUri` is `encode_image` of the
   * uploaded picture and `prediction` the SOM's node for it, or the error `preprocess`
   * raised on it (a crop that does not reshape to 784 pixels).
   */
  function Dispatch(request: Request, uploadUri: string, prediction: Result<int>): (route: Route)
    ensures route.Render? ==> route.page.Index? || route.page.Raises?
  {
    if request.httpMethod != "POST" then Render(Index(None))
    else if request.files == map[] then
      if request.selection.None? then Render(Index(Some("Invalid selection.")))
      else if request.node.Some? then Retrieve(request.selection.value, request.node.value)
      else Render(Raises("TypeError: decode_image slices the ImageSubmitted instance"))
    else if "image" !in request.files then Render(Raises("MultiValueDictKeyError: 'image'"))
    else if request.files["image"].name == "" then Render(Index(Some("No file selected.")))
    else if !AllowedFileType(request.files["image"].contentType) then Render(Index(Some("Invalid file type.")))
    else if prediction.Err? then Render(Raises(prediction.message))
    else Retrieve(uploadUri, prediction.value)
  }

  /** An upload outside the allow-list is refused with "Invalid file type." and nothing is retrieved. */
  lemma DisallowedUploadRefused(request: Request, uploadUri: string, prediction: Result<int>)
    requires request.httpMethod == "POST" && "image" in request.files && request.files["image"].name != ""
    ensures !AllowedFileType(request.files["image"].contentType)
        <==> Dispatch(request, uploadUri, prediction) == Render(Index(Some("Invalid file type.")))
  {
  }

  /** Only a POST carrying a selection with its node, or an allowed named upload, reaches retrieval. */
  lemma RetrievalNeedsValidSubmission(request: Request, uploadUri: string, prediction: Result<int>)
    ensures Dispatch(request, uploadUri, prediction).Retrieve? <==>
      request.httpMethod == "POST" &&
      (if request.files == map[] then request.selection.Some? && request.node.Some?
       else "image" in request.files && request.files["image"].name != ""
            && AllowedFileType(request.files["image"].contentType) && prediction.Ok?)
  {
  }

  /** The four allowed types are exactly JPEG, PNG, BMP and TIFF. */
  lemma AllowList()
    ensures AllowedFileType("image/png") && AllowedFileType("image/jpeg")
    ensures AllowedFileType("image/bmp") && AllowedFileType("image/tiff")
    ensures !AllowedFileType("image/gif") && !AllowedFileType("application/pdf")
  {
  }

  /** `result`: dispatch, then draw the related images for the submission's node. */
  method ResultView(request: Request, uploadUri: string, prediction: Result<int>, store: seq<Record>) returns (page: Page)
    requires UniqueIds(store)
    requires var route := Dispatch(request, uploadUri, prediction);
      route.Retrieve? ==> SecondPhaseCanFinish(store, route.node)
    ensures var route := Dispatch(request, uploadUri, prediction);
      && (route.Render? ==> page == route.page)
      && (route.Retrieve? ==>
            && page.ResultPage? && page.submission == route.submission && page.node == route.node
            && |page.related| == NodeSampleSize(store, route.node) + NeighbourSampleSize(store, route.node) <= 10
            && Distinct(page.related)
            && forall r | r in page.related :: r in store && (r.node == route.node || r.node in Neighbours(route.node)))
  {
    var route := Dispatch(request, uploadUri, prediction);
    if route.Render? {
      return route.page;
    }
    var related := RelatedImages(store, route.node);
    page := ResultPage(route.submission, route.node, related);
  }
}
