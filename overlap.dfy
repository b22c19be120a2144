/**
 * `build_overlap_matrix`: a dictionary of dictionaries over the idea ids,
 * every cell first `False`, then set to `True` in both directions for every
 * reference an idea makes. A related entry that is itself an id marks that
 * one id; any other entry marks every id that is a prefix of it or that it
 * is a prefix of.
 */
module OverlapMatrix {
  import opened Ideas

  /** `matrix[a][b]`, keyed by idea id in both dimensions. */
  type Matrix = map<string, map<string, bool>>

  /** The ids as a set: the keys of both dimensions of the matrix. */
  function Elements(ids: seq<string>): set<string> {
    set b | b in ids
  }

  /** `target.startswith(other) or other.startswith(target)`. */
  predicate PrefixRelated(target: string, other: string) {
    other <= target || target <= other
  }

  /** The ids one related entry marks. */
  function Targets(ids: seq<string>, rel: string): (t: set<string>)
    ensures t <= Elements(ids)
    ensures rel in ids ==> t == {rel}
  {
    if rel in ids then {rel} else set b | b in ids && PrefixRelated(rel, b)
  }

  /** Reference `q` of `idea` marks cell `(a, b)` in the direction the text runs. */
  predicate Cites(ids: seq<string>, idea: Idea, q: nat, a: string, b: string)
    requires q < |idea.related|
  {
    idea.id == a && b in Targets(ids, idea.related[q])
  }

  /** One of the first `i` ideas makes a reference from `a` to `b`. */
  ghost predicate CitesWithin(ids: seq<string>, ideas: seq<Idea>, i: nat, a: string, b: string)
    requires i <= |ideas|
  {
    exists p, q :: 0 <= p < i && 0 <= q < |ideas[p].related| && Cites(ids, ideas[p], q, a, b)
  }

  /** Ideas `a` and `b` overlap: either one refers to the other. */
  ghost predicate Overlap(ideas: seq<Idea>, a: string, b: string) {
    CitesWithin(Ids(ideas), ideas, |ideas|, a, b) || CitesWithin(Ids(ideas), ideas, |ideas|, b, a)
  }

  /** The cells reference `q` of `idea` sets, both directions. */
  function RefLinks(ids: seq<string>, idea: Idea, q: nat): set<(string, string)>
    requires q < |idea.related|
  {
    var t := Targets(ids, idea.related[q]);
    (set b | b in t :: (idea.id, b)) + (set b | b in t :: (b, idea.id))
  }

  /** The cells set by the first `j` references of `idea`. */
  function IdeaLinks(ids: seq<string>, idea: Idea, j: nat): set<(string, string)>
    requires j <= |idea.related|
  {
    if j == 0 then {} else IdeaLinks(ids, idea, j - 1) + RefLinks(ids, idea, j - 1)
  }

  /** The cells set by all references of the first `i` ideas. */
  function AllLinks(ids: seq<string>, ideas: seq<Idea>, i: nat): set<(string, string)>
    requires i <= |ideas|
  {
    if i == 0 then {} else AllLinks(ids, ideas, i - 1) + IdeaLinks(ids, ideas[i - 1], |ideas[i - 1].related|)
  }

  /** `m` is square over `ids` and its `True` cells are exactly `links`. */
  ghost predicate Holds(m: Matrix, ids: set<string>, links: set<(string, string)>) {
    && (forall a :: a in m <==> a in ids)
    && (forall a, b :: a in m ==> (b in m[a] <==> b in ids))
    && (forall a, b :: a in m && b in m[a] ==> (m[a][b] <==> (a, b) in links))
  }

  lemma HoldsCell(m: Matrix, ids: set<string>, links: set<(string, string)>, a: string, b: string)
    requires Holds(m, ids, links) && a in m && b in m
    ensures b in m[a] && (m[a][b] <==> (a, b) in links)
  {
  }

  /** The initial matrix, every cell `False`, is square over the ids with no cell set. */
  lemma InitHolds(ids: seq<string>, idSet: set<string>, m: Matrix)
    requires idSet == Elements(ids)
    requires m == map a | a in ids :: map b | b in ids :: false
    ensures Holds(m, idSet, {})
  {
  }

  /** Setting `matrix[x][t]` adds that one cell to the set of `True` cells. */
  lemma SetCell(m: Matrix, ids: set<string>, links: set<(string, string)>, x: string, t: string)
    requires Holds(m, ids, links) && x in ids && t in ids
    ensures Holds(m[x := m[x][t := true]], ids, links + {(x, t)})
  {
  }

  /** Setting `matrix[x][t]` and then `matrix[t][x]` adds both cells to the set of `True` cells. */
  lemma MarkPair(m: Matrix, ids: set<string>, links: set<(string, string)>, x: string, t: string)
    requires Holds(m, ids, links) && x in ids && t in ids
    ensures var m1 := m[x := m[x][t := true]];
      Holds(m1[t := m1[t][x := true]], ids, links + {(x, t), (t, x)})
  {
    SetCell(m, ids, links, x, t);
    var m1 := m[x := m[x][t := true]];
    SetCell(m1, ids, links + {(x, t)}, t, x);
    assert links + {(x, t)} + {(t, x)} == links + {(x, t), (t, x)};
  }

  /** The cells set for `x` and the ids among `ids[..k]` that are prefix-related to `target`. */
  function PrefixLinks(ids: seq<string>, k: nat, x: string, target: string): set<(string, string)>
    requires k <= |ids|
  {
    var t := set b | b in ids[..k] && PrefixRelated(target, b);
    (set b | b in t :: (x, b)) + (set b | b in t :: (b, x))
  }

  lemma PrefixLinksStep(links: set<(string, string)>, ids: seq<string>, k: nat, x: string, target: string)
    requires k < |ids|
    ensures links + PrefixLinks(ids, k + 1, x, target)
      == links + PrefixLinks(ids, k, x, target) + (if PrefixRelated(target, ids[k]) then {(x, ids[k]), (ids[k], x)} else {})
  {
    assert ids[..k + 1] == ids[..k] + [ids[k]];
  }

  /**
   * The fallback loop over all ids for an entry `target` of idea `x` that is
   * not itself an id: every id prefix-related to `target` is marked with `x`.
   */
  method MarkPrefixRelated(m: Matrix, ids: seq<string>, ghost idSet: set<string>, ghost links: set<(string, string)>,
                           x: string, target: string) returns (m': Matrix)
    requires idSet == Elements(ids)
    requires x in idSet && Holds(m, idSet, links)
    ensures Holds(m', idSet, links + PrefixLinks(ids, |ids|, x, target))
  {
    m' := m;
    for k := 0 to |ids|
      invariant Holds(m', idSet, links + PrefixLinks(ids, k, x, target))
    {
      var other := ids[k];
      PrefixLinksStep(links, ids, k, x, target);
      if PrefixRelated(target, other) {
        MarkPair(m', idSet, links + PrefixLinks(ids, k, x, target), x, other);
        m' := m'[x := m'[x][other := true]];
        m' := m'[other := m'[other][x := true]];
      }
    }
  }

  /**
   * The body of the loop over `idea["related"]` for its entry `q`: the cells
   * of that reference are set, nothing else changes.
   */
  method MarkReference(m: Matrix, ids: seq<string>, ghost idSet: set<string>, ghost links: set<(string, string)>,
                       idea: Idea, q: nat) returns (m': Matrix)
    requires idSet == Elements(ids)
    requires idea.id in idSet && q < |idea.related|
    requires Holds(m, idSet, links)
    ensures Holds(m', idSet, links + RefLinks(ids, idea, q))
  {
    var x, target := idea.id, idea.related[q];
    if target in ids {
      m' := m[x := m[x][target := true]];
      m' := m'[target := m'[target][x := true]];
      MarkPair(m, idSet, links, x, target);
      assert Targets(ids, target) == {target};
      assert RefLinks(ids, idea, q) == {(x, target), (target, x)};
    } else {
      m' := MarkPrefixRelated(m, ids, idSet, links, x, target);
      assert ids[..|ids|] == ids;
      assert PrefixLinks(ids, |ids|, x, target) == RefLinks(ids, idea, q);
    }
  }

  lemma IdeaLinksStep(links: set<(string, string)>, ids: seq<string>, idea: Idea, q: nat)
    requires q < |idea.related|
    ensures links + IdeaLinks(ids, idea, q) + RefLinks(ids, idea, q) == links + IdeaLinks(ids, idea, q + 1)
  {
  }

  /** The loop over `idea["related"]`: the cells of all its references are set. */
  method MarkIdea(m: Matrix, ids: seq<string>, ghost idSet: set<string>, ghost links: set<(string, string)>,
                  idea: Idea) returns (m': Matrix)
    requires idSet == Elements(ids)
    requires idea.id in idSet && Holds(m, idSet, links)
    ensures Holds(m', idSet, links + IdeaLinks(ids, idea, |idea.related|))
  {
    m' := m;
    for q := 0 to |idea.related|
      invariant Holds(m', idSet, links + IdeaLinks(ids, idea, q))
    {
      IdeaLinksStep(links, ids, idea, q);
      m' := MarkReference(m', ids, idSet, links + IdeaLinks(ids, idea, q), idea, q);
    }
  }

  lemma AllLinksStep(ids: seq<string>, ideas: seq<Idea>, i: nat)
    requires i < |ideas|
    ensures AllLinks(ids, ideas, i) + IdeaLinks(ids, ideas[i], |ideas[i].related|) == AllLinks(ids, ideas, i + 1)
  {
  }

  /**
   * `build_overlap_matrix`: the matrix is square over the ids, and the cells
   * set are exactly those of the references the ideas make (see
   * `CellMeansOverlap` and `MatrixIsSymmetric` for what that means).
   */
  method BuildOverlapMatrix(ideas: seq<Idea>) returns (m: Matrix)
    ensures Holds(m, Elements(Ids(ideas)), AllLinks(Ids(ideas), ideas, |ideas|))
  {
    var ids := Ids(ideas);
    ghost var idSet := Elements(ids);
    m := map a | a in ids :: map b | b in ids :: false;
    InitHolds(ids, idSet, m);
    for i := 0 to |ideas|
      invariant Holds(m, idSet, AllLinks(ids, ideas, i))
    {
      IdsAt(ideas, i);
      AllLinksStep(ids, ideas, i);
      m := MarkIdea(m, ids, idSet, AllLinks(ids, ideas, i), ideas[i]);
    }
  }

  /**
   * What the built matrix says: a cell `(a, b)` over two ids is `True`
   * exactly when idea `a` refers to `b` or `b` refers to `a`.
   */
  lemma CellMeansOverlap(ideas: seq<Idea>, ids: seq<string>, m: Matrix, a: string, b: string)
    requires ids == Ids(ideas) && Holds(m, Elements(ids), AllLinks(ids, ideas, |ideas|))
    requires a in m && b in m
    ensures b in m[a] && (m[a][b] <==> Overlap(ideas, a, b))
  {
    HoldsCell(m, Elements(ids), AllLinks(ids, ideas, |ideas|), a, b);
    AllLinksMeaning(ids, ideas, |ideas|, a, b);
  }

  /** The built matrix is symmetric. */
  lemma MatrixIsSymmetric(ideas: seq<Idea>, ids: seq<string>, m: Matrix)
    requires Holds(m, Elements(ids), AllLinks(ids, ideas, |ideas|))
    ensures forall a, b :: a in m && b in m ==> b in m[a] && a in m[b] && m[a][b] == m[b][a]
  {
    var links := AllLinks(ids, ideas, |ideas|);
    forall a, b | a in m && b in m
      ensures b in m[a] && a in m[b] && m[a][b] == m[b][a]
    {
      HoldsCell(m, Elements(ids), links, a, b);
      HoldsCell(m, Elements(ids), links, b, a);
      AllLinksSymmetric(ids, ideas, |ideas|, a, b);
      AllLinksSymmetric(ids, ideas, |ideas|, b, a);
    }
  }

  lemma {:induction false} IdeaLinksSymmetric(ids: seq<string>, idea: Idea, j: nat, a: string, b: string)
    requires j <= |idea.related|
    ensures (a, b) in IdeaLinks(ids, idea, j) ==> (b, a) in IdeaLinks(ids, idea, j)
  {
    if j > 0 {
      IdeaLinksSymmetric(ids, idea, j - 1, a, b);
    }
  }

  /** Every reference sets its cell in both directions. */
  lemma {:induction false} AllLinksSymmetric(ids: seq<string>, ideas: seq<Idea>, i: nat, a: string, b: string)
    requires i <= |ideas|
    ensures (a, b) in AllLinks(ids, ideas, i) ==> (b, a) in AllLinks(ids, ideas, i)
  {
    if i > 0 {
      AllLinksSymmetric(ids, ideas, i - 1, a, b);
      IdeaLinksSymmetric(ids, ideas[i - 1], |ideas[i - 1].related|, a, b);
    }
  }

  lemma {:induction false} IdeaLinksMeaning(ids: seq<string>, idea: Idea, j: nat, a: string, b: string)
    requires j <= |idea.related|
    ensures (a, b) in IdeaLinks(ids, idea, j)
        <==> exists q :: 0 <= q < j && (Cites(ids, idea, q, a, b) || Cites(ids, idea, q, b, a))
  {
    if j > 0 {
      IdeaLinksMeaning(ids, idea, j - 1, a, b);
      if (a, b) in RefLinks(ids, idea, j - 1) {
        assert Cites(ids, idea, j - 1, a, b) || Cites(ids, idea, j - 1, b, a);
      }
    }
  }

  /** A cell is set after the first `i` ideas exactly when one of them refers from one end to the other. */
  lemma {:induction false} AllLinksMeaning(ids: seq<string>, ideas: seq<Idea>, i: nat, a: string, b: string)
    requires i <= |ideas|
    ensures (a, b) in AllLinks(ids, ideas, i) <==> CitesWithin(ids, ideas, i, a, b) || CitesWithin(ids, ideas, i, b, a)
  {
    if i > 0 {
      var idea := ideas[i - 1];
      AllLinksMeaning(ids, ideas, i - 1, a, b);
      IdeaLinksMeaning(ids, idea, |idea.related|, a, b);
      if CitesWithin(ids, ideas, i, a, b) && !CitesWithin(ids, ideas, i - 1, a, b) {
        var p, q :| 0 <= p < i && 0 <= q < |ideas[p].related| && Cites(ids, ideas[p], q, a, b);
        assert p == i - 1;
      }
      if CitesWithin(ids, ideas, i, b, a) && !CitesWithin(ids, ideas, i - 1, b, a) {
        var p, q :| 0 <= p < i && 0 <= q < |ideas[p].related| && Cites(ids, ideas[p], q, b, a);
        assert p == i - 1;
      }
      if (a, b) in IdeaLinks(ids, idea, |idea.related|) {
        var q :| 0 <= q < |idea.related| && (Cites(ids, idea, q, a, b) || Cites(ids, idea, q, b, a));
        assert CitesWithin(ids, ideas, i, a, b) || CitesWithin(ids, ideas, i, b, a) by {
          if Cites(ids, idea, q, a, b) {
            assert 0 <= i - 1 < i && Cites(ids, ideas[i - 1], q, a, b);
          } else {
            assert 0 <= i - 1 < i && Cites(ids, ideas[i - 1], q, b, a);
          }
        }
      }
    }
  }

  /** A related entry that is an id makes the two ideas overlap, in both directions. */
  lemma ReferenceIsMutual(ideas: seq<Idea>, p: nat, q: nat)
    requires p < |ideas| && q < |ideas[p].related| && ideas[p].related[q] in Ids(ideas)
    ensures Overlap(ideas, ideas[p].id, ideas[p].related[q]) && Overlap(ideas, ideas[p].related[q], ideas[p].id)
  {
    assert Cites(Ids(ideas), ideas[p], q, ideas[p].id, ideas[p].related[q]);
  }

  /**
   * A related entry that is not an id makes its idea overlap with every id
   * it starts with and every id that starts with it.
   */
  lemma PrefixFallback(ideas: seq<Idea>, p: nat, q: nat, b: string)
    requires p < |ideas| && q < |ideas[p].related| && ideas[p].related[q] !in Ids(ideas)
    requires b in Ids(ideas) && PrefixRelated(ideas[p].related[q], b)
    ensures Overlap(ideas, ideas[p].id, b) && Overlap(ideas, b, ideas[p].id)
  {
    assert Cites(Ids(ideas), ideas[p], q, ideas[p].id, b);
  }

  /**
   * A related entry that is not an id but extends the idea's own id makes the
   * idea overlap with itself: the diagonal cell is set. In ordinary text this
   * is a mention of an id that is not loaded, such as `L3` in idea `L`.
   */
  lemma SelfMentionMarksDiagonal(ideas: seq<Idea>, p: nat, q: nat)
    requires p < |ideas| && q < |ideas[p].related| && ideas[p].related[q] !in Ids(ideas)
    requires ideas[p].id <= ideas[p].related[q]
    ensures Overlap(ideas, ideas[p].id, ideas[p].id)
  {
    IdsAt(ideas, p);
    PrefixFallback(ideas, p, q, ideas[p].id);
  }

  /**
   * A reference that is neither an id nor prefix-related to one sets no
   * cell at all.
   */
  lemma UnmatchedReferenceMarksNothing(ids: seq<string>, idea: Idea, q: nat)
    requires q < |idea.related| && idea.related[q] !in ids
    requires forall b :: b in ids ==> !PrefixRelated(idea.related[q], b)
    ensures RefLinks(ids, idea, q) == {}
  {
    assert Targets(ids, idea.related[q]) == {};
  }

  /**
   * With ids `E`, `E.1` and `E.2`, the entry `E (Extended)` marks the cell of
   * `E` alone: the prefix rule, not a mapping to `E.2`, decides the target.
   */
  lemma ExtendedReferenceMarksLetter()
    ensures Targets(["E", "E.1", "E.2"], "E (Extended)") == {"E"}
  {
    var ids := ["E", "E.1", "E.2"];
    var rel := "E (Extended)";
    assert rel != ids[0] && rel != ids[1] && rel != ids[2];
    assert PrefixRelated(rel, "E");
    assert rel[1] != "E.1"[1] && rel[1] != "E.2"[1];
    assert !PrefixRelated(rel, "E.1") && !PrefixRelated(rel, "E.2");
  }

  /**
   * Idea `L` mentioning `L3`, which is not loaded, next to idea `L2`: the
   * prefix rule sets the diagonal cell of `L`.
   */
  lemma UnloadedMentionMarksDiagonal()
    ensures Overlap([Idea("L", "", ["L3"], [], []), Idea("L2", "", [], [], [])], "L", "L")
  {
    var ideas := [Idea("L", "", ["L3"], [], []), Idea("L2", "", [], [], [])];
    assert Ids(ideas) == ["L", "L2"] by {
      assert Ids(ideas[1..]) == ["L2"];
    }
    assert "L3" != "L2";
    SelfMentionMarksDiagonal(ideas, 0, 0);
  }
}
