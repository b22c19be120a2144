/**
 * The stdout loop of `get_file_contributors`: each `git log` line has the
 * form `email|||name`; a line is split at its first `|||`, both halves are
 * stripped, and a line with no separator or with an empty half is skipped.
 * Names are kept in a dictionary keyed by email, so a later line for the
 * same email replaces the name while the email keeps the position where it
 * was first seen; the result is the dictionary's values in that order.
 * Running `git` and splitting its output into lines are not modelled: the
 * lines are the input.
 */
module GitLog {
  import opened PyStr
  import opened Wrappers

  const Separator := "|||"

  /** A usable line: the author's email and display name. */
  datatype Entry = Entry(email: string, name: string)

  /** One line as `(email, name)`, or `None` when the loop skips it. */
  function ParseLine(line: string): (r: Option<Entry>)
    ensures r.Some? ==> r.value.email != [] && r.value.name != []
  {
    var i := Find(line, Separator);
    if i < 0 then None
    else
      var email := Strip(line[..i]);
      var name := Strip(line[i + |Separator|..]);
      if email != [] && name != [] then Some(Entry(email, name)) else None
  }

  /** A line without the separator is skipped; the two parts kept are stripped. */
  lemma ParseLineSkipsAndStrips(line: string)
    ensures !Contains(line, Separator) ==> ParseLine(line).None?
    ensures ParseLine(line).Some? ==> NoOuterSpace(ParseLine(line).value.email) && NoOuterSpace(ParseLine(line).value.name)
  {
  }

  /** The split happens at the first separator: the email never contains one. */
  lemma EmailHasNoSeparator(line: string)
    requires ParseLine(line).Some?
    ensures !Contains(ParseLine(line).value.email, Separator)
  {
    var i := Find(line, Separator);
    assert ParseLine(line).value.email == Strip(line[..i]);
    HeadLacksPattern(line, Separator, i);
  }

  /** The stripped text before the first occurrence of `pat` does not contain `pat`. */
  lemma HeadLacksPattern(line: string, pat: string, i: int)
    requires pat != [] && i == Find(line, pat) && i >= 0
    ensures !Contains(Strip(line[..i]), pat)
  {
    var email := Strip(line[..i]);
    HeadStripIsSlice(line, i);
    var a := i - |LStrip(line[..i])|;
    NotBeforeFirst(line, pat, a, a + |email|);
  }

  lemma HeadStripIsSlice(line: string, i: nat)
    requires i <= |line|
    ensures var a := i - |LStrip(line[..i])|;
      a + |Strip(line[..i])| <= i && Strip(line[..i]) == line[a..a + |Strip(line[..i])|]
  {
    var h := line[..i];
    StripIsSlice(h);
    var a := i - |LStrip(h)|;
    assert h[a..a + |Strip(h)|] == line[a..a + |Strip(h)|];
  }

  /**
   * The line `git log --format=%ae|||%an` prints for an author is read back
   * as that author, provided the email holds no `|` and neither part has
   * surrounding whitespace.
   */
  lemma ParseFormatted(email: string, name: string)
    requires email != [] && NoOuterSpace(email) && forall k :: 0 <= k < |email| ==> email[k] != '|'
    requires name != [] && NoOuterSpace(name)
    ensures ParseLine(email + Separator + name) == Some(Entry(email, name))
  {
    var line := email + Separator + name;
    assert line[|email|..|email| + 3] == Separator;
    FoundBy(line, Separator, |email|);
    var i := Find(line, Separator);
    FindOccurs(line, Separator);
    assert line[i..i + 3][0] == '|';
    assert i == |email|;
    assert line[..i] == email;
    assert line[i + 3..] == name;
  }

  /** The distinct emails of the usable lines, in the order they first appear. */
  function Emails(lines: seq<string>): seq<string>
    decreases |lines|
  {
    if lines == [] then []
    else
      var prev := Emails(lines[..|lines| - 1]);
      var entry := ParseLine(lines[|lines| - 1]);
      if entry.Some? && entry.value.email !in prev then prev + [entry.value.email] else prev
  }

  /** The name on the last usable line for `email`, if any. */
  function LastName(lines: seq<string>, email: string): Option<string>
    decreases |lines|
  {
    if lines == [] then None
    else
      var entry := ParseLine(lines[|lines| - 1]);
      if entry.Some? && entry.value.email == email then Some(entry.value.name)
      else LastName(lines[..|lines| - 1], email)
  }

  /** Each email is listed once, and exactly the emails that have a name are listed. */
  lemma {:induction false} EmailsDistinctAndNamed(lines: seq<string>)
    ensures forall p, q :: 0 <= p < q < |Emails(lines)| ==> Emails(lines)[p] != Emails(lines)[q]
    ensures forall e :: e in Emails(lines) <==> LastName(lines, e).Some?
    decreases |lines|
  {
    if lines != [] {
      EmailsDistinctAndNamed(lines[..|lines| - 1]);
    }
  }

  lemma EmailsStep(lines: seq<string>, i: nat)
    requires i < |lines|
    ensures var entry := ParseLine(lines[i]);
      Emails(lines[..i + 1])
        == if entry.Some? && entry.value.email !in Emails(lines[..i])
           then Emails(lines[..i]) + [entry.value.email] else Emails(lines[..i])
  {
    var next := lines[..i + 1];
    assert next[..|next| - 1] == lines[..i] && next[|next| - 1] == lines[i];
  }

  lemma LastNameStep(lines: seq<string>, i: nat, e: string)
    requires i < |lines|
    ensures var entry := ParseLine(lines[i]);
      LastName(lines[..i + 1], e)
        == if entry.Some? && entry.value.email == e then Some(entry.value.name) else LastName(lines[..i], e)
  {
    var next := lines[..i + 1];
    assert next[..|next| - 1] == lines[..i] && next[|next| - 1] == lines[i];
  }

  /** The loop's state after the first `i` lines: emails in first-seen order, each with its latest name. */
  ghost predicate Tracks(lines: seq<string>, i: nat, order: seq<string>, byEmail: map<string, string>)
    requires i <= |lines|
  {
    && order == Emails(lines[..i])
    && (forall e :: e in byEmail <==> e in order)
    && (forall e :: e in byEmail ==> LastName(lines[..i], e) == Some(byEmail[e]))
  }

  /** A skipped line leaves the loop's state as it was. */
  lemma AdvanceSkip(lines: seq<string>, i: nat, order: seq<string>, byEmail: map<string, string>)
    requires i < |lines| && Tracks(lines, i, order, byEmail) && ParseLine(lines[i]).None?
    ensures Tracks(lines, i + 1, order, byEmail)
  {
    EmailsStep(lines, i);
    forall e {
      LastNameStep(lines, i, e);
    }
  }

  /** A usable line appends a new email and overwrites the name stored for it. */
  lemma AdvanceKeep(lines: seq<string>, i: nat, order: seq<string>, byEmail: map<string, string>, email: string, name: string)
    requires i < |lines| && Tracks(lines, i, order, byEmail) && ParseLine(lines[i]) == Some(Entry(email, name))
    ensures Tracks(lines, i + 1, if email in byEmail then order else order + [email], byEmail[email := name])
  {
    EmailsStep(lines, i);
    forall e {
      LastNameStep(lines, i, e);
    }
  }

  /**
   * `get_file_contributors` after the subprocess has run: one name per
   * distinct email, in first-seen order, namely the last name given for it.
   */
  method ContributorNames(lines: seq<string>) returns (names: seq<string>)
    ensures |names| == |Emails(lines)|
    ensures forall k :: 0 <= k < |names| ==> LastName(lines, Emails(lines)[k]) == Some(names[k])
  {
    var order: seq<string> := [];
    var byEmail: map<string, string> := map[];
    for i := 0 to |lines|
      invariant Tracks(lines, i, order, byEmail)
    {
      var entry := ParseLine(lines[i]);
      if entry.Some? {
        var email, name := entry.value.email, entry.value.name;
        AdvanceKeep(lines, i, order, byEmail, email, name);
        if email !in byEmail {
          order := order + [email];
        }
        byEmail := byEmail[email := name];
      } else {
        AdvanceSkip(lines, i, order, byEmail);
      }
    }
    assert lines[..|lines|] == lines;
    names := seq(|order|, k requires 0 <= k < |order| => byEmail[order[k]]);
  }

  /** Every name the loop keeps is non-empty and stripped. */
  lemma {:induction false} LastNameStripped(lines: seq<string>, email: string)
    requires LastName(lines, email).Some?
    ensures LastName(lines, email).value != [] && NoOuterSpace(LastName(lines, email).value)
    decreases |lines|
  {
    var entry := ParseLine(lines[|lines| - 1]);
    ParseLineSkipsAndStrips(lines[|lines| - 1]);
    if !(entry.Some? && entry.value.email == email) {
      LastNameStripped(lines[..|lines| - 1], email);
    }
  }
}
