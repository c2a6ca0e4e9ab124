/**
 Searching the embeddings: a widened window of the global ranking, filtered to one connection and
 model, with an exact scoped search behind it.
 */
module LogicSearch {
  import opened LogicTable
  import opened Sorting

  const CANDIDATE_MULTIPLIER := 8

  datatype Hit = Hit(name: string, kind: string, score: real)

  /** A query: how similar its vector is to a stored one, and the scope of the search. */
  datatype Query = Query(similarity: Vector -> real, conn: string, model: string) {

    function InScope(): Row -> bool {
      (r: Row) => r.conn == conn && r.model == model
    }

    /** ORDER BY score DESC; equal scores keep the table's order. */
    function Better(): (Row, Row) -> bool {
      (a: Row, b: Row) => similarity(a.vector) >= similarity(b.vector)
    }

    function HitOf(r: Row): Hit { Hit(r.name, r.kind, similarity(r.vector)) }

    /** The nearest `candidates` rows of the whole table, then the scope predicates. */
    function VectorSearch(rows: seq<Row>, candidates: nat): seq<Row> {
      Filter(Take(StableSort(rows, Better()), candidates), InScope())
    }

    /** The scope predicates first, then the best `limit` rows. */
    function ExactSearch(rows: seq<Row>, limit: nat): seq<Row> {
      Take(StableSort(Filter(rows, InScope()), Better()), limit)
    }
  }

  function Take<T>(s: seq<T>, n: nat): seq<T> {
    if n < |s| then s[..n] else s
  }

  /** Reads hits off a result until there are enough of them. */
  method CollectHits(q: Query, ranked: seq<Row>, topK: nat) returns (hits: seq<Hit>)
    requires topK > 0
    ensures hits == Map(Take(ranked, topK), r => q.HitOf(r))
  {
    hits := [];
    for i := 0 to |ranked|
      invariant |hits| == i < topK || i == 0 == |hits|
      invariant forall j | 0 <= j < i :: hits[j] == q.HitOf(ranked[j])
    {
      hits := hits + [q.HitOf(ranked[i])];
      if |hits| == topK {
        break;
      }
    }
  }

  /** The rows a search must return: the best k of those in scope. */
  function TopK(q: Query, rows: seq<Row>, topK: int): seq<Row> {
    q.ExactSearch(rows, if topK <= 0 then 5 else topK)
  }

  /** One hit for each of the best rows in scope, in their order: the object, its kind and its score. */
  method SearchObjectLogic(q: Query, rows: seq<Row>, topK: int) returns (hits: seq<Hit>)
    ensures hits == Map(TopK(q, rows, topK), r => q.HitOf(r))
    ensures |hits| == |TopK(q, rows, topK)|
    ensures forall i | 0 <= i < |hits| ::
      var r := TopK(q, rows, topK)[i];
      hits[i].name == r.name && hits[i].kind == r.kind && hits[i].score == q.similarity(r.vector)
  {
    var k := if topK <= 0 then 5 else topK;
    var candidates := k * CANDIDATE_MULTIPLIER;
    if candidates < k + 32 {
      candidates := k + 32;
    }
    hits := CollectHits(q, q.VectorSearch(rows, candidates), k);
    if |hits| >= k {
      WindowIsExact(q, rows, candidates, k);
      return;
    }
    hits := CollectHits(q, q.ExactSearch(rows, k), k);
  }

  lemma BetterIsPreorder(q: Query)
    ensures TotalPreorder(q.Better())
  {
  }

  lemma FilterOfTake(s: seq<Row>, n: nat, keep: Row -> bool)
    ensures Filter(Take(s, n), keep) <= Filter(s, keep)
  {
    if n < |s| {
      assert s == s[..n] + s[n..];
      FilterAppend(s[..n], s[n..], keep);
    }
  }

  lemma ScopedRanking(q: Query, rows: seq<Row>)
    ensures Filter(StableSort(rows, q.Better()), q.InScope()) == StableSort(Filter(rows, q.InScope()), q.Better())
  {
    BetterIsPreorder(q);
    FilterSort(rows, q.Better(), q.InScope());
  }

  /** What the window finds in scope is the beginning of the exact scoped ranking. */
  lemma WindowIsPrefix(q: Query, rows: seq<Row>, candidates: nat)
    ensures q.VectorSearch(rows, candidates) <= StableSort(Filter(rows, q.InScope()), q.Better())
  {
    ScopedRanking(q, rows);
    FilterOfTake(StableSort(rows, q.Better()), candidates, q.InScope());
  }

  /** A window with enough hits agrees with the exact search. */
  lemma WindowIsExact(q: Query, rows: seq<Row>, candidates: nat, k: nat)
    requires |q.VectorSearch(rows, candidates)| >= k
    ensures Take(q.VectorSearch(rows, candidates), k) == q.ExactSearch(rows, k)
  {
    WindowIsPrefix(q, rows, candidates);
  }

  function ScopedRows(q: Query, rows: seq<Row>): (r: seq<Row>)
    ensures forall x :: x in r <==> x in rows && x.conn == q.conn && x.model == q.model
  {
    assert forall x :: q.InScope()(x) <==> x.conn == q.conn && x.model == q.model;
    Filter(rows, q.InScope())
  }

  lemma RankingIsOrdered(q: Query, scoped: seq<Row>)
    ensures var ranking := StableSort(scoped, q.Better());
      && (forall r :: r in ranking <==> r in scoped)
      && (forall i, j | 0 <= i < j < |ranking| :: q.similarity(ranking[i].vector) >= q.similarity(ranking[j].vector))
  {
    var ranking := StableSort(scoped, q.Better());
    SortMembers(scoped, q.Better());
    BetterIsPreorder(q);
    SortSorted(scoped, q.Better());
    forall i, j | 0 <= i < j < |ranking|
      ensures q.similarity(ranking[i].vector) >= q.similarity(ranking[j].vector)
    {
      assert q.Better()(ranking[i], ranking[j]);
    }
  }

  lemma TakenIsBetter(q: Query, ranking: seq<Row>, k: nat, r: Row, f: Row)
    requires SortedBy(ranking, q.Better())
    requires r in ranking && r !in Take(ranking, k) && f in Take(ranking, k)
    ensures q.similarity(f.vector) >= q.similarity(r.vector)
  {
    var i :| 0 <= i < |ranking| && ranking[i] == r;
    var j :| 0 <= j < |Take(ranking, k)| && Take(ranking, k)[j] == f;
    assert q.Better()(ranking[j], ranking[i]);
  }

  /** The search returns only rows in scope, best first, and leaves out no better one. */
  lemma TopKMeaning(q: Query, rows: seq<Row>, topK: int)
    ensures var k, scoped, found := if topK <= 0 then 5 else topK, ScopedRows(q, rows), TopK(q, rows, topK);
      && |found| == (if k < |scoped| then k else |scoped|)
      && (forall r | r in found :: r in scoped)
      && (forall i, j | 0 <= i < j < |found| :: q.similarity(found[i].vector) >= q.similarity(found[j].vector))
      && (forall r, f | r in scoped && r !in found && f in found :: q.similarity(f.vector) >= q.similarity(r.vector))
  {
    var k, scoped := if topK <= 0 then 5 else topK, ScopedRows(q, rows);
    var ranking := StableSort(scoped, q.Better());
    RankingIsOrdered(q, scoped);
    BetterIsPreorder(q);
    SortSorted(scoped, q.Better());
    forall r, f | r in scoped && r !in TopK(q, rows, topK) && f in TopK(q, rows, topK)
      ensures q.similarity(f.vector) >= q.similarity(r.vector)
    {
      TakenIsBetter(q, ranking, k, r, f);
    }
  }
}
