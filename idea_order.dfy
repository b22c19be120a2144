/**
 * `sort_key`: the order in which idea files are listed. Three compound ids
 * are keyed under their base letter with a sub-rank, `RS` under itself, and
 * every other id under itself with sub-rank 0. Keys compare as Python tuples:
 * by the string first, then by the sub-rank.
 */
module IdeaOrder {
  import opened PyStr

  /** The `(letter, sub)` pair `sort_key` returns. */
  datatype Key = Key(letter: string, sub: int)

  function SortKey(id: string): (k: Key)
    ensures k.sub == 0 ==> k.letter == id
    ensures k.sub != 0 <==> id == "E.1" || id == "E.2" || id == "L2"
    ensures k.sub >= 0
    ensures id == "E.1" ==> k == Key("E", 1)
    ensures id == "E.2" ==> k == Key("E", 2)
    ensures id == "L2" ==> k == Key("L", 2)
  {
    if id == "E.1" then Key("E", 1)
    else if id == "E.2" then Key("E", 2)
    else if id == "L2" then Key("L", 2)
    else if id == "RS" then Key("RS", 0)
    else Key(id, 0)
  }

  /** Python's `<` on `(str, int)` tuples. */
  predicate KeyLess(a: Key, b: Key) {
    StrLess(a.letter, b.letter) || (a.letter == b.letter && a.sub < b.sub)
  }

  /** Idea `a` is listed before idea `b`. */
  predicate IdLess(a: string, b: string) {
    KeyLess(SortKey(a), SortKey(b))
  }

  /** No two ids share a key, so sorting by it never has to break a tie. */
  lemma SortKeyInjective(a: string, b: string)
    requires SortKey(a) == SortKey(b)
    ensures a == b
  {
  }

  /** The listing order is a strict total order on ids. */
  lemma IdOrderIsStrictTotal(a: string, b: string, c: string)
    ensures !IdLess(a, a)
    ensures IdLess(a, b) ==> !IdLess(b, a)
    ensures IdLess(a, b) && IdLess(b, c) ==> IdLess(a, c)
    ensures a == b || IdLess(a, b) || IdLess(b, a)
  {
    var ka, kb, kc := SortKey(a), SortKey(b), SortKey(c);
    StrLessIrreflexive(ka.letter);
    if StrLess(ka.letter, kb.letter) {
      StrLessAsymmetric(ka.letter, kb.letter);
    }
    if IdLess(a, b) && IdLess(b, c) {
      if StrLess(ka.letter, kb.letter) && StrLess(kb.letter, kc.letter) {
        StrLessTransitive(ka.letter, kb.letter, kc.letter);
      }
    }
    StrLessTotal(ka.letter, kb.letter);
    if ka == kb {
      SortKeyInjective(a, b);
    }
  }

  /** `b` comes right after `a`: no id at all is listed strictly between them. */
  ghost predicate Adjacent(a: string, b: string) {
    IdLess(a, b) && forall x :: !(IdLess(a, x) && IdLess(x, b))
  }

  /** Whatever lies strictly between a letter and a compound id keyed under it shares that letter. */
  lemma BetweenLetterAndCompound(base: string, compound: string, x: string)
    requires SortKey(base) == Key(base, 0) && SortKey(compound).letter == base
    requires IdLess(base, x) && IdLess(x, compound)
    ensures SortKey(x).letter == base && 0 < SortKey(x).sub < SortKey(compound).sub
  {
    var l := SortKey(x).letter;
    StrLessIrreflexive(base);
    if StrLess(base, l) {
      StrLessAsymmetric(base, l);
    }
  }

  /**
   * The compound ids sit immediately after their base letter, in sub-rank
   * order, and before the next letter; `RS` sorts by its own value.
   */
  lemma CompoundIdPlacement()
    ensures Adjacent("E", "E.1") && Adjacent("E.1", "E.2") && Adjacent("L", "L2")
    ensures IdLess("E.2", "F") && IdLess("L2", "M")
    ensures IdLess("R", "RS") && IdLess("RS", "S")
  {
    forall x
      ensures !(IdLess("E", x) && IdLess(x, "E.1"))
    {
      if IdLess("E", x) && IdLess(x, "E.1") {
        BetweenLetterAndCompound("E", "E.1", x);
      }
    }
    forall x
      ensures !(IdLess("E.1", x) && IdLess(x, "E.2"))
    {
      if IdLess("E.1", x) && IdLess(x, "E.2") {
        var k := SortKey(x);
        StrLessIrreflexive("E");
        if StrLess("E", k.letter) {
          StrLessAsymmetric("E", k.letter);
        }
        assert false;
      }
    }
    forall x
      ensures !(IdLess("L", x) && IdLess(x, "L2"))
    {
      if IdLess("L", x) && IdLess(x, "L2") {
        BetweenLetterAndCompound("L", "L2", x);
      }
    }
  }

  /** The listing order of the ids A to T together with E.1, E.2, L2 and RS. */
  lemma KnownIdsListing()
    ensures var listed := ["A", "B", "C", "D", "E", "E.1", "E.2", "F", "G", "H", "I", "J", "K",
                           "L", "L2", "M", "N", "O", "P", "Q", "R", "RS", "S", "T"];
            forall i :: 0 <= i < |listed| - 1 ==> IdLess(listed[i], listed[i + 1])
  {
  }
}
