/**
 * `html_escape`: four chained `str.replace` calls, `&` first and then `<`,
 * `>` and `"`. Replacing `&` first is what keeps the entities that the later
 * replacements introduce from being escaped a second time; the lemmas below
 * show that the chain therefore equals escaping each character on its own,
 * and that the result can be decoded back.
 */
module HtmlEscape {
  import opened PyStr

  /** The four characters the page generator escapes. */
  predicate IsReserved(c: char) {
    c == '&' || c == '<' || c == '>' || c == '"'
  }

  /** The text embedded for one character. */
  function EscapeChar(c: char): string {
    if c == '&' then "&amp;"
    else if c == '<' then "&lt;"
    else if c == '>' then "&gt;"
    else if c == '"' then "&quot;"
    else [c]
  }

  /** Reference definition: every character escaped on its own. */
  function EscapeEach(s: string): string {
    if s == [] then [] else EscapeChar(s[0]) + EscapeEach(s[1..])
  }

  /** `html_escape(s)` as written: the four replacements applied in order. */
  function Escape(s: string): string {
    Replace(Replace(Replace(Replace(s, "&", "&amp;"), "<", "&lt;"), ">", "&gt;"), "\"", "&quot;")
  }

  /** Decoder for the four entities; any other character stands for itself. */
  function Unescape(s: string): string
    decreases |s|
  {
    if s == [] then []
    else if "&amp;" <= s then "&" + Unescape(s[5..])
    else if "&lt;" <= s then "<" + Unescape(s[4..])
    else if "&gt;" <= s then ">" + Unescape(s[4..])
    else if "&quot;" <= s then "\"" + Unescape(s[6..])
    else [s[0]] + Unescape(s[1..])
  }

  /** One of the four entities starts at index `i` of `r`. */
  predicate EntityAt(r: string, i: nat)
    requires i <= |r|
  {
    "&amp;" <= r[i..] || "&lt;" <= r[i..] || "&gt;" <= r[i..] || "&quot;" <= r[i..]
  }

  /** No raw `<`, `>` or `"`, and every `&` opens an entity. */
  predicate WellEscaped(r: string) {
    && (forall i :: 0 <= i < |r| ==> r[i] != '<' && r[i] != '>' && r[i] != '"')
    && (forall i :: 0 <= i < |r| && r[i] == '&' ==> EntityAt(r, i))
  }

  lemma ReplaceCharCons(x: char, t: string, c: char, rep: string)
    ensures Replace([x] + t, [c], rep) == (if x == c then rep else [x]) + Replace(t, [c], rep)
  {
    var s := [x] + t;
    assert s[..1] == [x];
    assert s[1..] == t;
  }

  lemma {:induction false} ReplaceCharAbsent(s: string, c: char, rep: string)
    requires forall i :: 0 <= i < |s| ==> s[i] != c
    ensures Replace(s, [c], rep) == s
    decreases |s|
  {
    if s != [] {
      assert s == [s[0]] + s[1..];
      ReplaceCharCons(s[0], s[1..], c, rep);
      ReplaceCharAbsent(s[1..], c, rep);
    }
  }

  /** Replacing a single character distributes over concatenation. */
  lemma {:induction false} ReplaceCharAppend(a: string, b: string, c: char, rep: string)
    ensures Replace(a + b, [c], rep) == Replace(a, [c], rep) + Replace(b, [c], rep)
    decreases |a|
  {
    if a == [] {
      assert a + b == b;
    } else {
      var x, t := a[0], a[1..];
      var h := if x == c then rep else [x];
      assert a + b == [x] + (t + b);
      assert a == [x] + t;
      ReplaceCharCons(x, t + b, c, rep);
      ReplaceCharCons(x, t, c, rep);
      ReplaceCharAppend(t, b, c, rep);
      var rt, rb := Replace(t, [c], rep), Replace(b, [c], rep);
      assert h + (rt + rb) == (h + rt) + rb;
    }
  }

  /** The chain applied to a single character gives that character's entity. */
  lemma ReplaceCharSingle(x: char, c: char, rep: string)
    ensures Replace([x], [c], rep) == if x == c then rep else [x]
  {
    assert [x][..1] == [x] && [x][1..] == [];
  }

  /** A character that is not reserved passes through all four replacements. */
  lemma EscapePlain(x: char)
    requires !IsReserved(x)
    ensures Escape([x]) == [x]
  {
    ReplaceCharSingle(x, '&', "&amp;");
    ReplaceCharSingle(x, '<', "&lt;");
    ReplaceCharSingle(x, '>', "&gt;");
    ReplaceCharSingle(x, '"', "&quot;");
  }

  /** An entity produced by one replacement is left alone by the later ones. */
  lemma EscapeReserved(x: char)
    requires IsReserved(x)
    ensures Escape([x]) == EscapeChar(x)
  {
    var e := EscapeChar(x);
    ReplaceCharSingle(x, '&', "&amp;");
    if x == '&' {
      ReplaceCharAbsent(e, '<', "&lt;");
      ReplaceCharAbsent(e, '>', "&gt;");
      ReplaceCharAbsent(e, '"', "&quot;");
    } else {
      ReplaceCharSingle(x, '<', "&lt;");
      if x == '<' {
        ReplaceCharAbsent(e, '>', "&gt;");
        ReplaceCharAbsent(e, '"', "&quot;");
      } else {
        ReplaceCharSingle(x, '>', "&gt;");
        if x == '>' {
          ReplaceCharAbsent(e, '"', "&quot;");
        } else {
          ReplaceCharSingle(x, '"', "&quot;");
        }
      }
    }
  }

  lemma EscapeSingle(x: char)
    ensures Escape([x]) == EscapeChar(x)
  {
    if IsReserved(x) {
      EscapeReserved(x);
    } else {
      EscapePlain(x);
    }
  }

  /** `html_escape` distributes over concatenation. */
  lemma EscapeAppend(a: string, b: string)
    ensures Escape(a + b) == Escape(a) + Escape(b)
  {
    ReplaceCharAppend(a, b, '&', "&amp;");
    var a1, b1 := Replace(a, "&", "&amp;"), Replace(b, "&", "&amp;");
    ReplaceCharAppend(a1, b1, '<', "&lt;");
    var a2, b2 := Replace(a1, "<", "&lt;"), Replace(b1, "<", "&lt;");
    ReplaceCharAppend(a2, b2, '>', "&gt;");
    var a3, b3 := Replace(a2, ">", "&gt;"), Replace(b2, ">", "&gt;");
    ReplaceCharAppend(a3, b3, '"', "&quot;");
  }

  /** The chained replacements equal per-character substitution. */
  lemma {:induction false} EscapeIsPerCharacter(s: string)
    ensures Escape(s) == EscapeEach(s)
    decreases |s|
  {
    if s == [] {
      assert Escape(s) == [];
    } else {
      assert s == [s[0]] + s[1..];
      EscapeAppend([s[0]], s[1..]);
      EscapeSingle(s[0]);
      EscapeIsPerCharacter(s[1..]);
    }
  }

  lemma UnescapeCons(x: char, t: string)
    ensures Unescape(EscapeChar(x) + t) == [x] + Unescape(t)
  {
    var s := EscapeChar(x) + t;
    if x == '&' {
      assert "&amp;" <= s && s[5..] == t;
    } else if x == '<' {
      assert s[1] == 'l';
      assert "&lt;" <= s && s[4..] == t;
    } else if x == '>' {
      assert s[1] == 'g';
      assert "&gt;" <= s && s[4..] == t;
    } else if x == '"' {
      assert s[1] == 'q';
      assert "&quot;" <= s && s[6..] == t;
    } else {
      assert s[0] == x && s[1..] == t;
    }
  }

  /** Decoding undoes `html_escape`. */
  lemma {:induction false} UnescapeEscape(s: string)
    ensures Unescape(Escape(s)) == s
  {
    EscapeIsPerCharacter(s);
    UnescapeEach(s);
  }

  lemma {:induction false} UnescapeEach(s: string)
    ensures Unescape(EscapeEach(s)) == s
    decreases |s|
  {
    if s != [] {
      UnescapeCons(s[0], EscapeEach(s[1..]));
      UnescapeEach(s[1..]);
    }
  }

  /** Distinct inputs give distinct escaped text. */
  lemma EscapeInjective(a: string, b: string)
    requires Escape(a) == Escape(b)
    ensures a == b
  {
    UnescapeEscape(a);
    UnescapeEscape(b);
  }

  lemma WellEscapedCons(x: char, t: string)
    requires WellEscaped(t)
    ensures WellEscaped(EscapeChar(x) + t)
  {
    var e := EscapeChar(x);
    var r := e + t;
    forall i | |e| <= i < |r|
      ensures r[i] != '<' && r[i] != '>' && r[i] != '"'
      ensures r[i] == '&' ==> EntityAt(r, i)
    {
      assert r[i] == t[i - |e|];
      assert r[i..] == t[i - |e|..];
    }
    if IsReserved(x) {
      assert r[0] == '&' && r[0..] == e + t;
      assert forall i :: 1 <= i < |e| ==> e[i] != '&' && e[i] != '<' && e[i] != '>' && e[i] != '"';
    } else {
      assert e == [x];
    }
  }

  /** The output holds no raw `<`, `>` or `"`, and every `&` in it begins an entity. */
  lemma {:induction false} EscapeWellEscaped(s: string)
    ensures WellEscaped(Escape(s))
  {
    EscapeIsPerCharacter(s);
    EachWellEscaped(s);
  }

  lemma {:induction false} EachWellEscaped(s: string)
    ensures WellEscaped(EscapeEach(s))
    decreases |s|
  {
    if s != [] {
      EachWellEscaped(s[1..]);
      WellEscapedCons(s[0], EscapeEach(s[1..]));
    }
  }

  lemma {:induction false} EachLength(s: string)
    ensures |EscapeEach(s)| >= |s|
    ensures |EscapeEach(s)| == |s| <==> forall i :: 0 <= i < |s| ==> !IsReserved(s[i])
    ensures (forall i :: 0 <= i < |s| ==> !IsReserved(s[i])) ==> EscapeEach(s) == s
    decreases |s|
  {
    if s != [] {
      EachLength(s[1..]);
      assert forall i :: 1 <= i < |s| ==> s[i] == s[1..][i - 1];
      assert s == [s[0]] + s[1..];
    }
  }

  /** A string comes back unchanged exactly when it holds none of `&`, `<`, `>`, `"`. */
  lemma EscapeUnchangedIff(s: string)
    ensures Escape(s) == s <==> forall i :: 0 <= i < |s| ==> !IsReserved(s[i])
  {
    EscapeIsPerCharacter(s);
    EachLength(s);
  }
}
