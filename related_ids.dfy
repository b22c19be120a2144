/**
 * The cross-reference collection at the end of `parse_idea_file`: every
 * captured `Idea X` mention is stripped, an `(Extended)` suffix is moved to
 * the end of the stripped base id, the idea's own id is dropped, and what is
 * left is gathered in a set that is stored sorted. The regular expression
 * that produces the captures is not modelled: its captures are the input.
 */
module RelatedIds {
  import opened PyStr

  const Extended := "(Extended)"
  const ExtendedSuffix := " (Extended)"

  /** One captured mention, stripped, with a contained `(Extended)` moved to the end. */
  function Normalise(capture: string): (r: string)
    ensures !Contains(Strip(capture), Extended) ==> r == Strip(capture) && NoOuterSpace(r)
    ensures Contains(Strip(capture), Extended) ==> |r| >= |ExtendedSuffix| && r[|r| - |ExtendedSuffix|..] == ExtendedSuffix
  {
    var other := Strip(capture);
    if Contains(other, Extended) then Strip(Replace(other, Extended, "")) + ExtendedSuffix else other
  }

  /** Every normalised mention, before the idea's own id is dropped. */
  function Mentioned(captures: seq<string>): set<string> {
    set c | c in captures :: Normalise(c)
  }

  lemma MentionedSnoc(captures: seq<string>, k: nat)
    requires k < |captures|
    ensures Mentioned(captures[..k + 1]) == Mentioned(captures[..k]) + {Normalise(captures[k])}
  {
    assert captures[..k + 1] == captures[..k] + [captures[k]];
  }

  /**
   * The loop over the captures and the final `sorted(related)`: the result
   * is sorted without repetitions, never holds the idea's own id, and holds
   * exactly the other normalised mentions.
   */
  method CollectRelated(id: string, captures: seq<string>) returns (related: seq<string>)
    ensures StrictlySorted(related)
    ensures id !in related
    ensures forall x :: x in related <==> x in Mentioned(captures) && x != id
  {
    var found: set<string> := {};
    for k := 0 to |captures|
      invariant found == Mentioned(captures[..k]) - {id}
    {
      var other := Normalise(captures[k]);
      if other != id {
        found := found + {other};
      }
      MentionedSnoc(captures, k);
    }
    assert captures[..|captures|] == captures;
    related := SortSet(found);
  }

  /**
   * A base id followed by optional whitespace and `(Extended)` comes out as
   * the base, one space and `(Extended)`, whatever the whitespace was; the
   * base must not contain `(`, which no id the pattern admits does.
   */
  lemma NormaliseMovesSuffix(base: string, gap: string)
    requires base != [] && NoOuterSpace(base) && forall k :: 0 <= k < |base| ==> base[k] != '('
    requires forall k :: 0 <= k < |gap| ==> IsSpace(gap[k])
    ensures Normalise(base + gap + Extended) == base + ExtendedSuffix
  {
    var head := base + gap;
    var c := head + Extended;
    assert c[0] == base[0] && c[|c| - 1] == ')';
    assert NoOuterSpace(c);
    assert c[|head|..] == Extended;
    FoundBy(c, Extended, |head|);
    forall k | 0 <= k < |head|
      ensures head[k] != '('
    {
      if k >= |base| {
        assert head[k] == gap[k - |base|];
      }
    }
    ReplaceSkipsPrefix(head, Extended, Extended, "");
    ReplaceWhole(Extended, "");
    assert head + [] == head;
    assert Replace(c, Extended, "") == head;
    assert LStrip(head) == head;
    RStripSpaceSuffix(base, gap);
    assert Strip(head) == base;
  }
}
