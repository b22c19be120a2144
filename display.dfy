/**
 * The text computations of one table row in `generate_html`: the shortened
 * one-liner and the contributor cell. The surrounding markup is not modelled.
 */
module RowDisplay {
  import opened PyStr
  import opened HtmlEscape
  import opened Ideas

  /** The number of one-liner characters shown before the ellipsis. */
  const MaxOneLiner := 120

  /** `MAX_DISPLAY_CONTRIBUTORS`. */
  const MaxDisplayContributors := 10

  /** The horizontal ellipsis appended to a shortened one-liner. */
  const Ellipsis := '\U{2026}'

  /** `s[:n]` in Python: the whole string when it is shorter than `n`. */
  function Head<T>(s: seq<T>, n: nat): (r: seq<T>)
    ensures |r| == if |s| < n then |s| else n
    ensures r == s[..|r|]
  {
    if |s| < n then s else s[..n]
  }

  /** `one_liner[:120] + ("…" if len(one_liner) > 120 else "")`. */
  function ShortOneLiner(s: string): (r: string)
    ensures |s| <= MaxOneLiner ==> r == s
    ensures |s| > MaxOneLiner ==> |r| == MaxOneLiner + 1 && r[..MaxOneLiner] == s[..MaxOneLiner] && r[MaxOneLiner] == Ellipsis
  {
    Head(s, MaxOneLiner) + (if |s| > MaxOneLiner then [Ellipsis] else [])
  }

  /** The one-liner cell of an idea: its shortened text, escaped; decoding it gives the shortened text back. */
  function OneLinerCell(idea: Idea): (cell: string)
    ensures Unescape(cell) == ShortOneLiner(idea.oneLiner)
  {
    UnescapeEscape(ShortOneLiner(idea.oneLiner));
    Escape(ShortOneLiner(idea.oneLiner))
  }

  /**
   * The shown one-liner is at most 121 characters long, and shortening it
   * again changes nothing.
   */
  lemma OneLinerShown(s: string)
    ensures |ShortOneLiner(s)| <= MaxOneLiner + 1
    ensures ShortOneLiner(ShortOneLiner(s)) == ShortOneLiner(s)
  {
    var r := ShortOneLiner(s);
    if |s| > MaxOneLiner {
      assert r == r[..MaxOneLiner] + [r[MaxOneLiner]];
    }
  }

  /** `sorted(set(idea["git_contributors"] + idea["discussion_participants"]))`. */
  function AllContributors(idea: Idea): (r: seq<string>)
    ensures StrictlySorted(r)
    ensures forall c :: c in r <==> c in idea.gitContributors || c in idea.discussionParticipants
  {
    SortSet(set c | c in idea.gitContributors + idea.discussionParticipants)
  }

  /** The contributor cell: the muted dash, or the shown names and how many were left out. */
  datatype ContributorCell = NoContributors | Names(shown: seq<string>, more: nat)

  /**
   * The first ten names, each escaped, and the count behind `(+N more)`,
   * which is 0 when no suffix is written.
   */
  function ContributorsCell(all: seq<string>): (c: ContributorCell)
    ensures all == [] <==> c.NoContributors?
    ensures c.Names? ==>
      && |c.shown| == (if |all| > MaxDisplayContributors then MaxDisplayContributors else |all|)
      && (forall k :: 0 <= k < |c.shown| ==> c.shown[k] == Escape(all[k]))
      && c.more == |all| - |c.shown|
  {
    if all == [] then NoContributors
    else
      var shown := Head(all, MaxDisplayContributors);
      Names(seq(|shown|, k requires 0 <= k < |shown| => Escape(shown[k])),
            if |all| > MaxDisplayContributors then |all| - MaxDisplayContributors else 0)
  }

  /**
   * The cell shows at most ten distinct names, in sorted order, from the
   * union of both lists; the suffix appears exactly when more than ten
   * people are involved and counts the ones not shown, so shown plus
   * hidden is everyone.
   */
  lemma ContributorsShown(idea: Idea)
    ensures var git, discussion := idea.gitContributors, idea.discussionParticipants;
      var all := AllContributors(idea);
      var c := ContributorsCell(all);
      && (c.NoContributors? <==> git == [] && discussion == [])
      && (c.Names? ==>
            && |c.shown| <= MaxDisplayContributors
            && (c.more > 0 <==> |all| > MaxDisplayContributors)
            && |c.shown| + c.more == |all|
            && (forall k :: 0 <= k < |c.shown| ==> Unescape(c.shown[k]) == all[k])
            && (forall k :: 0 <= k < |c.shown| ==> all[k] in git || all[k] in discussion))
  {
    var git, discussion := idea.gitContributors, idea.discussionParticipants;
    var all := AllContributors(idea);
    var c := ContributorsCell(all);
    if git != [] {
      assert git[0] in all;
    } else if discussion != [] {
      assert discussion[0] in all;
    }
    if c.Names? {
      forall k | 0 <= k < |c.shown|
        ensures Unescape(c.shown[k]) == all[k]
      {
        UnescapeEscape(all[k]);
      }
    }
  }
}
