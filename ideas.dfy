/**
 * The record `parse_idea_file` returns for one idea document, after
 * enrichment, restricted to the fields the modelled computations read.
 */
module Ideas {

  datatype Idea = Idea(
    id: string,
    oneLiner: string,
    related: seq<string>,
    gitContributors: seq<string>,
    discussionParticipants: seq<string>)

  /** `[i["id"] for i in ideas]`. */
  function Ids(ideas: seq<Idea>): (ids: seq<string>)
    ensures |ids| == |ideas|
  {
    if ideas == [] then [] else [ideas[0].id] + Ids(ideas[1..])
  }

  /** Position `p` of the id list holds the id of idea `p`. */
  lemma {:induction false} IdsAt(ideas: seq<Idea>, p: nat)
    requires p < |ideas|
    ensures Ids(ideas)[p] == ideas[p].id
    decreases p
  {
    if p > 0 {
      IdsAt(ideas[1..], p - 1);
    }
  }
}
