/**
 * What `generate_html` reads off the overlap matrix: the per-row overlap
 * count, the cell shown in the matrix table, and the five most connected
 * ideas.
 */
module Connectivity {
  import opened Wrappers
  import opened Ideas
  import opened OverlapMatrix

  /** `overlap_matrix.get(id, {})`. */
  function Row(m: Matrix, id: string): map<string, bool> {
    if id in m then m[id] else map[]
  }

  /** The ids marked True in the row of `id`, its own id included. */
  function Marked(m: Matrix, id: string): set<string> {
    var row := Row(m, id);
    set b | b in row && row[b]
  }

  /** `sum(1 for v in overlap_matrix.get(id, {}).values() if v)`. */
  function Degree(m: Matrix, id: string): nat {
    |Marked(m, id)|
  }

  /** `overlap_count`: the True cells of the row, not counting the diagonal. */
  function OverlapCount(m: Matrix, id: string): nat {
    |Marked(m, id) - {id}|
  }

  /** The diagonal cell is set. */
  predicate SelfMarked(m: Matrix, id: string) {
    id in Row(m, id) && Row(m, id)[id]
  }

  /**
   * The two counts differ exactly by the diagonal cell, and neither exceeds
   * the length of the row.
   */
  lemma DegreeSplitsDiagonal(m: Matrix, id: string)
    ensures Degree(m, id) == OverlapCount(m, id) + (if SelfMarked(m, id) then 1 else 0)
    ensures OverlapCount(m, id) <= Degree(m, id) <= |Row(m, id)|
  {
    var row := Row(m, id);
    var marked := Marked(m, id);
    if SelfMarked(m, id) {
      assert marked == (marked - {id}) + {id};
    } else {
      assert marked - {id} == marked;
    }
    assert marked <= row.Keys;
    Cardinality(marked, row.Keys);
  }

  lemma Cardinality(a: set<string>, b: set<string>)
    requires a <= b
    ensures |a| <= |b|
  {
    assert b == a + (b - a);
  }

  /**
   * On a matrix built from `ideas`, the overlap count of an idea is the
   * number of other ideas it overlaps with.
   */
  lemma CountIsOverlappingIdeas(ideas: seq<Idea>, ids: seq<string>, m: Matrix, a: string)
    requires ids == Ids(ideas)
    requires Holds(m, Elements(ids), AllLinks(ids, ideas, |ideas|))
    requires a in m
    ensures OverlapCount(m, a) == |set b | b in Elements(ids) && b != a && Overlap(ideas, a, b)|
  {
    var others := set b | b in Elements(ids) && b != a && Overlap(ideas, a, b);
    forall b
      ensures b in Marked(m, a) - {a} <==> b in others
    {
      if b in m {
        CellMeansOverlap(ideas, ids, m, a, b);
      }
    }
    assert Marked(m, a) - {a} == others;
  }

  /** The three kinds of cell in the matrix table. */
  datatype Cell = SelfCell | Yes | No

  /** The cell in row `rid`, column `col`. */
  function MatrixCell(m: Matrix, rid: string, col: string): (c: Cell)
    ensures c == SelfCell <==> rid == col
  {
    if col == rid then SelfCell
    else if col in Row(m, rid) && Row(m, rid)[col] then Yes
    else No
  }

  /**
   * On a matrix built from `ideas`, the diagonal always shows the self mark,
   * even where its cell is True; a check mark appears exactly where two
   * different ideas overlap, and the table is symmetric.
   */
  lemma MatrixCellMeaning(ideas: seq<Idea>, ids: seq<string>, m: Matrix, a: string, b: string)
    requires ids == Ids(ideas)
    requires Holds(m, Elements(ids), AllLinks(ids, ideas, |ideas|))
    requires a in m && b in m
    ensures MatrixCell(m, a, b) == Yes <==> a != b && Overlap(ideas, a, b)
    ensures MatrixCell(m, a, b) == MatrixCell(m, b, a)
  {
    CellMeansOverlap(ideas, ids, m, a, b);
    MatrixIsSymmetric(ideas, ids, m);
  }

  /** `next((i for i in ideas if i["id"] == rel), None)`, as an index. */
  function FindIdea(ideas: seq<Idea>, rel: string): (r: Option<nat>)
    ensures r.Some? ==> r.value < |ideas| && ideas[r.value].id == rel
    ensures r.Some? ==> forall p :: 0 <= p < r.value ==> ideas[p].id != rel
    ensures r.None? ==> forall p :: 0 <= p < |ideas| ==> ideas[p].id != rel
  {
    if ideas == [] then None
    else if ideas[0].id == rel then Some(0)
    else match FindIdea(ideas[1..], rel)
      case None => None
      case Some(p) => Some(p + 1)
  }

  /** A related entry gets a link exactly when it is the id of some idea. */
  lemma RelatedLinkIffKnown(ideas: seq<Idea>, rel: string)
    ensures FindIdea(ideas, rel).Some? <==> rel in Ids(ideas)
  {
    var ids := Ids(ideas);
    var r := FindIdea(ideas, rel);
    if r.Some? {
      IdsAt(ideas, r.value);
    }
    if rel in ids {
      var p :| 0 <= p < |ids| && ids[p] == rel;
      IdsAt(ideas, p);
    }
  }

  // ---------------------------------------------------------------------
  // `sorted(ideas, key=degree, reverse=True)[:5]`
  // ---------------------------------------------------------------------

  /**
   * Position `i` is listed before position `j` by a stable descending sort
   * on `keys`: a larger key first, and equal keys in input order.
   */
  predicate Before(keys: seq<nat>, i: nat, j: nat)
    requires i < |keys| && j < |keys|
  {
    keys[i] > keys[j] || (keys[i] == keys[j] && i < j)
  }

  predicate Ranked(keys: seq<nat>, order: seq<nat>) {
    && (forall p :: 0 <= p < |order| ==> order[p] < |keys|)
    && (forall p, q :: 0 <= p < q < |order| ==> Before(keys, order[p], order[q]))
  }

  /** Inserts index `i` into a ranked list. */
  function Insert(keys: seq<nat>, order: seq<nat>, i: nat): (r: seq<nat>)
    requires i < |keys| && Ranked(keys, order) && i !in order
    ensures Ranked(keys, r)
    ensures |r| == |order| + 1
    ensures forall x :: x in r <==> x in order || x == i
  {
    if order == [] then [i]
    else if Before(keys, i, order[0]) then
      assert forall q :: 0 <= q < |order| ==> Before(keys, i, order[q]);
      [i] + order
    else
      var rest := Insert(keys, order[1..], i);
      assert forall x :: x in rest ==> Before(keys, order[0], x);
      [order[0]] + rest
  }

  /** The indices `0 .. n-1` in ranking order, built one index at a time. */
  function Ranking(keys: seq<nat>, n: nat): (r: seq<nat>)
    requires n <= |keys|
    ensures Ranked(keys, r)
    ensures |r| == n
    ensures forall x :: x in r <==> 0 <= x < n
  {
    if n == 0 then [] else Insert(keys, Ranking(keys, n - 1), n - 1)
  }

  /** The first `min(5, n)` positions of the ranking. */
  function TopFive(keys: seq<nat>): (top: seq<nat>)
    ensures |top| == if |keys| < 5 then |keys| else 5
    ensures forall p :: 0 <= p < |top| ==> top[p] < |keys|
  {
    var r := Ranking(keys, |keys|);
    if |r| < 5 then r else r[..5]
  }

  /**
   * At most five ideas are shown (fewer only when there are fewer ideas),
   * each once, in descending order of key with ties in input order, and
   * every idea left out comes after every idea shown.
   */
  lemma TopFiveSpec(keys: seq<nat>)
    ensures |TopFive(keys)| == if |keys| < 5 then |keys| else 5
    ensures Ranked(keys, TopFive(keys))
    ensures forall p, q :: 0 <= p < q < |TopFive(keys)| ==> TopFive(keys)[p] != TopFive(keys)[q]
    ensures forall j, t :: 0 <= j < |keys| && j !in TopFive(keys) && t in TopFive(keys) ==>
      keys[t] > keys[j] || (keys[t] == keys[j] && t < j)
  {
    var r := Ranking(keys, |keys|);
    var top := TopFive(keys);
    forall j, t | 0 <= j < |keys| && j !in top && t in top
      ensures keys[t] > keys[j] || (keys[t] == keys[j] && t < j)
    {
      assert j in r;
      var pj :| 0 <= pj < |r| && r[pj] == j;
      var pt :| 0 <= pt < |top| && top[pt] == t;
      assert pj >= |top|;
      assert Before(keys, r[pt], r[pj]);
    }
  }

  /**
   * The sort key of each idea: its count of True cells, diagonal included,
   * which is its overlap count plus one when its diagonal cell is set, and
   * never more than the length of its row.
   */
  function Degrees(ideas: seq<Idea>, m: Matrix): (keys: seq<nat>)
    ensures |keys| == |ideas|
    ensures forall k :: 0 <= k < |ideas| ==> keys[k] == Degree(m, ideas[k].id)
    ensures forall k :: 0 <= k < |ideas| ==>
      keys[k] == OverlapCount(m, ideas[k].id) + (if SelfMarked(m, ideas[k].id) then 1 else 0)
    ensures forall k :: 0 <= k < |ideas| ==> OverlapCount(m, ideas[k].id) <= keys[k] <= |Row(m, ideas[k].id)|
  {
    forall k | 0 <= k < |ideas| {
      DegreeSplitsDiagonal(m, ideas[k].id);
    }
    seq(|ideas|, k requires 0 <= k < |ideas| => Degree(m, ideas[k].id))
  }

  /** `top_connected`: the ideas at the first five ranking positions. */
  function TopConnected(ideas: seq<Idea>, m: Matrix): (top: seq<Idea>)
    ensures |top| == if |ideas| < 5 then |ideas| else 5
    ensures forall k :: 0 <= k < |top| ==> top[k] == ideas[TopFive(Degrees(ideas, m))[k]]
  {
    var order := TopFive(Degrees(ideas, m));
    TopFiveSpec(Degrees(ideas, m));
    seq(|order|, k requires 0 <= k < |order| => ideas[order[k]])
  }

  /** The ideas listed as most connected come in non-increasing order of connections. */
  lemma TopConnectedDescending(ideas: seq<Idea>, m: Matrix)
    ensures var top := TopConnected(ideas, m);
      forall p, q :: 0 <= p < q < |top| ==> Degree(m, top[p].id) >= Degree(m, top[q].id)
  {
    var keys := Degrees(ideas, m);
    TopFiveSpec(keys);
    var order := TopFive(keys);
    assert forall k :: 0 <= k < |order| ==> TopConnected(ideas, m)[k] == ideas[order[k]];
  }
}
