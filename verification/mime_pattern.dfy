/** The regular expression `/:(.*?);/` applied with `String.prototype.match`
    (no `g` flag): the search tries start positions from left to right and
    takes the first one where the pattern matches; at that position the lazy
    `.*?` takes as few characters as it can. `.` matches every character
    except a LineTerminator. The result is the span of the match: the
    position of its `:` and of its `;`; group 1 is the text between them.
 */
module MimePattern {
  import opened Wrappers
  import opened JsString

  /** Positions of the `:` and the `;` that delimit a match. */
  datatype Span = Span(colon: nat, semi: nat)

  /** `s[p..q+1]` is a string of the language `:.*;` — the matches the
      pattern admits before laziness and leftmost selection choose one. */
  ghost predicate PatternAt(s: string, p: nat, q: nat) {
    && p < q < |s|
    && s[p] == ':'
    && s[q] == ';'
    && NoLineTerminatorIn(s, p + 1, q)
  }

  /** `(p, q)` is the match `match` reports: the leftmost start position that
      admits any match, and from it the shortest match (laziness). */
  ghost predicate IsSelectedMatch(s: string, p: nat, q: nat) {
    && PatternAt(s, p, q)
    && (forall q': nat | p < q' < q :: !PatternAt(s, p, q'))
    && (forall p': nat, q': nat | p' < p :: !PatternAt(s, p', q'))
  }

  /** The lazy `.*?;` tail of the pattern, tried from position `from`: the
      first `;` at or after `from`, provided no line terminator comes before
      it (the `.` cannot step over one). */
  function LazyEnd(s: string, from: nat): (r: Option<nat>)
    requires from <= |s|
    ensures r.Some? ==>
      && from <= r.value < |s|
      && s[r.value] == ';'
      && NoLineTerminatorIn(s, from, r.value)
      && forall k | from <= k < r.value :: s[k] != ';'
    ensures r.None? ==>
      forall q: nat | from <= q < |s| && s[q] == ';' :: !NoLineTerminatorIn(s, from, q)
    decreases |s| - from
  {
    if from == |s| then None
    else if s[from] == ';' then Some(from)
    else if IsLineTerminator(s[from]) then None
    else LazyEnd(s, from + 1)
  }

  /** The search loop of `match`: the selected match among start positions
      `p` and later. */
  function MatchFrom(s: string, p: nat): (r: Option<Span>)
    requires p <= |s|
    ensures r.Some? ==>
      && p <= r.value.colon
      && PatternAt(s, r.value.colon, r.value.semi)
      && (forall q': nat | r.value.colon < q' < r.value.semi :: !PatternAt(s, r.value.colon, q'))
      && (forall p': nat, q': nat | p <= p' < r.value.colon :: !PatternAt(s, p', q'))
    ensures r.None? ==> forall p': nat, q': nat | p <= p' :: !PatternAt(s, p', q')
    decreases |s| - p
  {
    if p == |s| then None
    else if s[p] == ':' && LazyEnd(s, p + 1).Some? then
      Some(Span(p, LazyEnd(s, p + 1).value))
    else
      MatchFrom(s, p + 1)
  }

  /** `s.match(/:(.*?);/)`: the selected match, or `None` (JavaScript `null`)
      when the pattern matches nowhere in `s`. */
  function Match(s: string): (r: Option<Span>)
    ensures r.Some? ==> IsSelectedMatch(s, r.value.colon, r.value.semi)
    ensures r.None? <==> forall p: nat, q: nat :: !PatternAt(s, p, q)
  {
    MatchFrom(s, 0)
  }

  /** Group 1 of the match: the text strictly between its `:` and `;`. */
  function Capture(s: string, m: Span): string
    requires m.colon < m.semi <= |s|
  {
    s[m.colon + 1..m.semi]
  }

  /** The selected match is unique: any two spans meeting the description
      are the same span. */
  lemma SelectedMatchUnique(s: string, p: nat, q: nat, p': nat, q': nat)
    requires IsSelectedMatch(s, p, q) && IsSelectedMatch(s, p', q')
    ensures p == p' && q == q'
  {
  }

  /** `Match` reports exactly the selected match whenever there is one. */
  lemma MatchIsSelected(s: string, p: nat, q: nat)
    requires IsSelectedMatch(s, p, q)
    ensures Match(s) == Some(Span(p, q))
  {
  }
}
