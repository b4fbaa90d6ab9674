/**
 * The dashboard's list logic: the case-insensitive search over recipient
 * and subject, the failed-only toggle on the sent list, and the avatar
 * initials drawn from the user's name.
 */
module Dashboard {
  import Text
  import Seqs

  /** The fields of a listed e-mail the dashboard filters on. */
  datatype EmailItem = EmailItem(id: int, recipient: string, subject: string, status: string)

  // ---------------------------------------------------------------------
  // Search and the failed-only toggle
  // ---------------------------------------------------------------------

  /** `normalizeText`: lower-casing. */
  function NormalizeText(s: string): (r: string)
    ensures |r| == |s| && Text.IsLowerString(r)
    ensures forall i :: 0 <= i < |s| ==> r[i] == Text.LowerChar(s[i])
  {
    Text.LowerIsLowerAndIdempotent(s);
    Text.Lower(s)
  }

  /**
   * The search predicate: the lower-cased recipient or subject contains the
   * lower-cased search term. The term itself is not trimmed.
   */
  predicate Matches(e: EmailItem, search: string) {
    Text.Contains(NormalizeText(e.recipient), NormalizeText(search))
    || Text.Contains(NormalizeText(e.subject), NormalizeText(search))
  }

  /** The failed-only predicate: `status === "failed"`. */
  predicate IsFailed(e: EmailItem) {
    e.status == "failed"
  }

  /** `!search.trim()`: the search box holds nothing but whitespace. */
  predicate SearchInactive(search: string) {
    Text.Trim(search) == ""
  }

  /** `filteredScheduled`. */
  function FilteredScheduled(emails: seq<EmailItem>, search: string): (r: seq<EmailItem>)
    ensures |r| <= |emails|
  {
    if SearchInactive(search) then emails
    else Seqs.Filter(emails, e => Matches(e, search))
  }

  /** `filteredSent`: the search filter when the box is not blank, then the failed-only filter when it is on. */
  function FilteredSent(emails: seq<EmailItem>, search: string, failedOnly: bool): (r: seq<EmailItem>)
    ensures |r| <= |emails|
  {
    var afterSearch := if SearchInactive(search) then emails else Seqs.Filter(emails, e => Matches(e, search));
    if failedOnly then Seqs.Filter(afterSearch, IsFailed) else afterSearch
  }

  /** A match is an occurrence of the lower-cased term inside the lower-cased recipient or subject. */
  lemma MatchesIffOccurs(e: EmailItem, search: string)
    ensures Matches(e, search) <==>
      (exists i :: Text.SliceAt(Text.Lower(e.recipient), i, Text.Lower(search)))
      || (exists i :: Text.SliceAt(Text.Lower(e.subject), i, Text.Lower(search)))
  {
    Text.ContainsIffOccurs(Text.Lower(e.recipient), Text.Lower(search));
    Text.ContainsIffOccurs(Text.Lower(e.subject), Text.Lower(search));
  }

  /** A blank or whitespace-only search leaves the scheduled list exactly as it is. */
  lemma BlankSearchKeepsScheduled(emails: seq<EmailItem>, search: string)
    requires Text.IsBlank(search)
    ensures FilteredScheduled(emails, search) == emails
  {
    Text.TrimEmptyIffBlank(search);
  }

  /**
   * With a non-blank search the scheduled list keeps exactly the matching
   * rows, in their original order.
   */
  lemma ScheduledSearchSpec(emails: seq<EmailItem>, search: string)
    requires !Text.IsBlank(search)
    ensures var r := FilteredScheduled(emails, search);
      && (forall e :: e in r <==> e in emails && Matches(e, search))
      && Seqs.IsSubsequence(r, emails)
      && (forall e :: multiset(r)[e] == if Matches(e, search) then multiset(emails)[e] else 0)
  {
    Text.TrimEmptyIffBlank(search);
    Seqs.FilterSpec(emails, e => Matches(e, search));
  }

  /**
   * The search term is used untrimmed: a term with a space (a leading or
   * trailing one included) matches no row whose recipient and subject are
   * free of spaces.
   */
  lemma SpaceInTermMustOccur(e: EmailItem, search: string)
    requires ' ' in search
    requires ' ' !in e.recipient && ' ' !in e.subject
    ensures !Matches(e, search)
  {
    MatchesIffOccurs(e, search);
    var k :| 0 <= k < |search| && search[k] == ' ';
    var term := Text.Lower(search);
    assert term[k] == ' ';
    forall field, i | (field == e.recipient || field == e.subject) && Text.SliceAt(Text.Lower(field), i, term)
      ensures false
    {
    }
  }

  /** The predicate the sent list keeps: matching when the search is active, failed when the toggle is on. */
  predicate SentKeeps(e: EmailItem, search: string, failedOnly: bool) {
    (SearchInactive(search) || Matches(e, search)) && (!failedOnly || IsFailed(e))
  }

  /**
   * `filteredSent` is a single filter by the conjunction of the two
   * conditions: the rows it keeps are exactly those satisfying both, in
   * their original order.
   */
  lemma FilteredSentIsOneFilter(emails: seq<EmailItem>, search: string, failedOnly: bool)
    ensures FilteredSent(emails, search, failedOnly) == Seqs.Filter(emails, e => SentKeeps(e, search, failedOnly))
  {
    var keep := e => SentKeeps(e, search, failedOnly);
    var afterSearch := if SearchInactive(search) then emails else Seqs.Filter(emails, e => Matches(e, search));
    var searchKeep := e => SearchInactive(search) || Matches(e, search);
    assert afterSearch == Seqs.Filter(emails, searchKeep) by {
      if SearchInactive(search) {
        Seqs.FilterAll(emails, searchKeep);
      } else {
        FilterSame(emails, e => Matches(e, search), searchKeep);
      }
    }
    if failedOnly {
      Seqs.FilterFilter(emails, searchKeep, IsFailed, keep);
    } else {
      FilterSame(emails, searchKeep, keep);
    }
  }

  /** Filters by two predicates that agree on every element give the same list. */
  lemma {:induction false} FilterSame(xs: seq<EmailItem>, p: EmailItem -> bool, q: EmailItem -> bool)
    requires forall e :: p(e) == q(e)
    ensures Seqs.Filter(xs, p) == Seqs.Filter(xs, q)
  {
    if xs != [] {
      FilterSame(xs[1..], p, q);
    }
  }

  /**
   * The sent list keeps exactly the rows satisfying both conditions, in
   * their original order; with the toggle on, only `failed` rows remain.
   */
  lemma FilteredSentSpec(emails: seq<EmailItem>, search: string, failedOnly: bool)
    ensures var r := FilteredSent(emails, search, failedOnly);
      && (forall e :: e in r <==> e in emails && SentKeeps(e, search, failedOnly))
      && Seqs.IsSubsequence(r, emails)
      && (forall e :: multiset(r)[e] == if SentKeeps(e, search, failedOnly) then multiset(emails)[e] else 0)
      && (failedOnly ==> forall i :: 0 <= i < |r| ==> r[i].status == "failed")
  {
    FilteredSentIsOneFilter(emails, search, failedOnly);
    Seqs.FilterSpec(emails, e => SentKeeps(e, search, failedOnly));
  }

  // ---------------------------------------------------------------------
  // Initials
  // ---------------------------------------------------------------------

  /** `s.split(" ")`: the pieces between single spaces, empty pieces included. */
  function Split(s: string): (parts: seq<string>)
    ensures |parts| >= 1
    ensures forall i :: 0 <= i < |parts| ==> ' ' !in parts[i]
  {
    if s == [] then [""]
    else
      var rest := Split(s[1..]);
      if s[0] == ' ' then [""] + rest
      else [[s[0]] + rest[0]] + rest[1..]
  }

  /** `parts.join(" ")`. */
  function Join(parts: seq<string>): (s: string)
    requires |parts| >= 1
  {
    if |parts| == 1 then parts[0] else parts[0] + " " + Join(parts[1..])
  }

  /** Splitting at spaces and joining with spaces gives the name back. */
  lemma {:induction false} JoinSplit(s: string)
    ensures Join(Split(s)) == s
  {
    if s != [] {
      JoinSplit(s[1..]);
      var rest := Split(s[1..]);
      if s[0] == ' ' {
        assert ([""] + rest)[1..] == rest;
      } else {
        var parts := [[s[0]] + rest[0]] + rest[1..];
        if |rest| == 1 {
          assert Join(parts) == [s[0]] + rest[0];
        } else {
          assert parts[1..] == rest[1..];
          assert Join(rest) == rest[0] + " " + Join(rest[1..]);
        }
        assert s == [s[0]] + s[1..];
      }
    }
  }

  /** `parts.map(part => part[0]).join("")`: an empty part contributes nothing. */
  function Heads(parts: seq<string>): string {
    if parts == [] then ""
    else (if parts[0] == "" then "" else [parts[0][0]]) + Heads(parts[1..])
  }

  /**
   * The characters of `s` that start a word: not a space, and first or
   * right after a space (`atStart` says whether the position before is a
   * word boundary).
   */
  function WordStarts(s: string, atStart: bool): string {
    if s == [] then ""
    else (if s[0] != ' ' && atStart then [s[0]] else "") + WordStarts(s[1..], s[0] == ' ')
  }

  /**
   * The heads of the split are the word starts; the heads of all parts but
   * the first are the word starts after the first character.
   */
  lemma {:induction false} HeadsAreWordStarts(s: string)
    ensures Heads(Split(s)) == WordStarts(s, true)
    ensures Heads(Split(s)[1..]) == WordStarts(s, false)
  {
    if s != [] {
      HeadsAreWordStarts(s[1..]);
      var rest := Split(s[1..]);
      if s[0] == ' ' {
        assert ([""] + rest)[1..] == rest;
      } else {
        var parts := [[s[0]] + rest[0]] + rest[1..];
        assert parts[1..] == rest[1..];
        assert Heads(parts) == [s[0]] + Heads(rest[1..]);
      }
    }
  }

  /** The first `n` characters, or all of them when there are fewer: `slice(0, n)`. */
  function Take(s: string, n: nat): (r: string)
    ensures |r| <= n && |r| <= |s| && r == s[..|r|]
    ensures |s| >= n ==> |r| == n
    ensures |s| < n ==> r == s
  {
    if |s| <= n then s else s[..n]
  }

  /** The avatar initials: the first letters of the first two words of the name, upper-cased. */
  function Initials(name: string): (r: string)
    ensures |r| <= 2
  {
    Text.Upper(Take(Heads(Split(name)), 2))
  }

  /**
   * The initials are at most two characters, each the upper-cased first
   * character of one of the name's first two words, in order.
   */
  lemma InitialsSpec(name: string)
    ensures var r := Initials(name);
      var starts := WordStarts(name, true);
      && |r| <= 2
      && |r| == (if |starts| < 2 then |starts| else 2)
      && forall i :: 0 <= i < |r| ==> r[i] == Text.UpperChar(starts[i])
  {
    HeadsAreWordStarts(name);
  }

}
