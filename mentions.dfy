/** The mention extractor of src/utils/index.ts: every non-overlapping match of
    the global pattern `@([a-zA-Z0-9._%+-]+@[a-zA-Z0-9.-]+\.[a-zA-Z]{2,})`,
    scanned left to right as `String.prototype.match` does, with the leading
    `@` stripped and repeats removed in order of first occurrence.

    The pattern is modelled twice: `IsMention` says declaratively what a
    matched address looks like, and `MatchEnd` computes where the greedy,
    backtracking match that starts at a given position ends. */
module Mentions {
  import opened Wrappers
  import opened Seqs

  // ---------------------------------------------------------------------------
  // Character classes of the pattern

  predicate IsAsciiLetter(c: char) {
    'a' <= c <= 'z' || 'A' <= c <= 'Z'
  }

  predicate IsDigit(c: char) {
    '0' <= c <= '9'
  }

  /** `[a-zA-Z0-9._%+-]`, the local part before the inner `@`. */
  predicate IsLocalChar(c: char) {
    IsAsciiLetter(c) || IsDigit(c) || c == '.' || c == '_' || c == '%' || c == '+' || c == '-'
  }

  /** `[a-zA-Z0-9.-]`, the domain before the last dot. */
  predicate IsDomainChar(c: char) {
    IsAsciiLetter(c) || IsDigit(c) || c == '.' || c == '-'
  }

  predicate AllChars(s: string, p: char -> bool) {
    forall i :: 0 <= i < |s| ==> p(s[i])
  }

  /** An address of the pattern's shape: local part, `@`, domain, `.`, and a
      top-level label of two or more ASCII letters. */
  ghost predicate IsMention(w: string) {
    exists a: nat, d: nat :: IsMentionAt(w, a, d)
  }

  /** `w` splits as local part `w[..a]`, `@`, domain `w[a + 1..d]`, `.` and label `w[d + 1..]`. */
  ghost predicate IsMentionAt(w: string, a: nat, d: nat) {
    0 < a && a + 1 < d && d + 2 < |w| && w[a] == '@' && w[d] == '.'
    && AllChars(w[..a], IsLocalChar) && AllChars(w[a + 1..d], IsDomainChar)
    && AllChars(w[d + 1..], IsAsciiLetter)
  }

  /** `w` follows an `@` at position `p` of `text`. */
  ghost predicate MentionedAt(text: string, p: nat, w: string) {
    p + 1 + |w| <= |text| && text[p] == '@' && text[p + 1..p + 1 + |w|] == w
  }

  /** Somewhere in `text` an `@` is followed by an address of the pattern's shape. */
  ghost predicate ContainsMention(text: string) {
    exists p: nat, w :: MentionedAt(text, p, w) && IsMention(w)
  }

  // ---------------------------------------------------------------------------
  // The greedy matcher

  /** End of the longest run of characters satisfying `p` that starts at `i`:
      what a greedy `[...]+` consumes before it backtracks. */
  function RunEnd(s: string, i: nat, p: char -> bool): (j: nat)
    requires i <= |s|
    ensures i <= j <= |s|
    ensures forall k :: i <= k < j ==> p(s[k])
    ensures j < |s| ==> !p(s[j])
    decreases |s| - i
  {
    if i == |s| || !p(s[i]) then i else RunEnd(s, i + 1, p)
  }

  /** A run that is followed by a character outside the class ends exactly there. */
  lemma RunEndAt(s: string, i: nat, p: char -> bool, x: nat)
    requires i <= x <= |s|
    requires forall k :: i <= k < x ==> p(s[k])
    requires x < |s| ==> !p(s[x])
    ensures RunEnd(s, i, p) == x
  {
  }

  /** A dot at `k` that can close the domain: `\.[a-zA-Z]{2,}` matches after it. */
  predicate DotBeforeTld(s: string, k: nat) {
    k < |s| && s[k] == '.' && RunEnd(s, k + 1, IsAsciiLetter) >= k + 3
  }

  /** The dot the backtracking of `[a-zA-Z0-9.-]+\.[a-zA-Z]{2,}` settles on,
      for a domain run starting at `q` and searched below `d`: the greedy
      domain part gives back one character at a time, so the last suitable
      dot wins. A dot needs at least one domain character before it. */
  function LastTldDot(s: string, q: nat, d: nat): (r: Option<nat>)
    requires q <= d <= |s|
    ensures r.Some? ==> q < r.value < d && DotBeforeTld(s, r.value)
    ensures r.Some? ==> forall k :: r.value < k < d ==> !DotBeforeTld(s, k)
    ensures r.None? ==> forall k :: q < k < d ==> !DotBeforeTld(s, k)
    decreases d - q
  {
    if d <= q + 1 then None
    else if DotBeforeTld(s, d - 1) then Some(d - 1)
    else LastTldDot(s, q, d - 1)
  }

  /** End of the match of the pattern that starts at position `p`, if any. The
      local part cannot contain `@`, so the only way for `[a-zA-Z0-9._%+-]+@`
      to match is with the whole run before the next `@`. */
  function MatchEnd(s: string, p: nat): (r: Option<nat>)
    requires p <= |s|
    ensures r.Some? ==> p + 7 <= r.value <= |s|
  {
    if p < |s| && s[p] == '@' then
      var a := RunEnd(s, p + 1, IsLocalChar);
      if a > p + 1 && a < |s| && s[a] == '@' then
        var e := RunEnd(s, a + 1, IsDomainChar);
        match LastTldDot(s, a + 1, e)
        case Some(k) => Some(RunEnd(s, k + 1, IsAsciiLetter))
        case None => None
      else None
    else None
  }

  /** `text.match(regex)` from position `i` on, each match without its leading `@`. */
  function MatchesFrom(s: string, i: nat): (r: seq<string>)
    requires i <= |s|
    ensures forall k :: 0 <= k < |r| ==> |r[k]| >= 6
    ensures 7 * |r| <= |s| - i
    decreases |s| - i
  {
    if i == |s| then []
    else
      match MatchEnd(s, i)
      case Some(m) => [s[i + 1..m]] + MatchesFrom(s, m)
      case None => MatchesFrom(s, i + 1)
  }

  /** `extractMentionedEmails(text)`. */
  function ExtractMentionedEmails(text: string): (r: seq<string>)
    ensures text == "" ==> r == []
    ensures NoDup(r)
    ensures forall e :: e in r <==> e in MatchesFrom(text, 0)
  {
    if text == "" then []
    else
      var matches := MatchesFrom(text, 0);
      if matches == [] then [] else Dedup(matches)
  }

  // ---------------------------------------------------------------------------
  // The matcher agrees with the pattern

  lemma AllCharsOfSlice(s: string, i: nat, j: nat, p: char -> bool)
    requires i <= j <= |s|
    ensures AllChars(s[i..j], p) <==> forall k :: i <= k < j ==> p(s[k])
  {
    if AllChars(s[i..j], p) {
      forall k | i <= k < j ensures p(s[k]) {
        assert s[k] == s[i..j][k - i];
      }
    }
  }

  /** The positions of the pattern's pieces inside `s`, for the address `s[p + 1..m]`
      with its inner `@` at `a` and its last dot at `k`. */
  ghost predicate PiecesAt(s: string, p: nat, a: nat, k: nat, m: nat) {
    p + 1 < a && a + 1 < k && k + 3 <= m <= |s| && s[a] == '@' && s[k] == '.'
    && (forall j :: p + 1 <= j < a ==> IsLocalChar(s[j]))
    && (forall j :: a + 1 <= j < k ==> IsDomainChar(s[j]))
    && (forall j :: k + 1 <= j < m ==> IsAsciiLetter(s[j]))
  }

  lemma PiecesAtIsMention(s: string, p: nat, a: nat, k: nat, m: nat)
    requires PiecesAt(s, p, a, k, m)
    ensures IsMentionAt(s[p + 1..m], a - (p + 1), k - (p + 1))
  {
    var w := s[p + 1..m];
    var a', d' := a - (p + 1), k - (p + 1);
    assert w[..a'] == s[p + 1..a];
    assert w[a' + 1..d'] == s[a + 1..k] by {
      var dw, ds := w[a' + 1..d'], s[a + 1..k];
      forall i | 0 <= i < |dw| ensures dw[i] == ds[i] {
        assert dw[i] == w[a' + 1 + i] == s[p + 1 + a' + 1 + i];
      }
    }
    assert w[d' + 1..] == s[k + 1..m];
    AllCharsOfSlice(s, p + 1, a, IsLocalChar);
    AllCharsOfSlice(s, a + 1, k, IsDomainChar);
    AllCharsOfSlice(s, k + 1, m, IsAsciiLetter);
  }

  lemma IsMentionAtPieces(s: string, p: nat, w: string, a': nat, d': nat)
    requires MentionedAt(s, p, w) && IsMentionAt(w, a', d')
    ensures PiecesAt(s, p, p + 1 + a', p + 1 + d', p + 1 + |w|)
  {
    var m := p + 1 + |w|;
    var a, k := p + 1 + a', p + 1 + d';
    assert w[..a'] == s[p + 1..a];
    assert w[a' + 1..d'] == s[a + 1..k] by {
      var dw, ds := w[a' + 1..d'], s[a + 1..k];
      forall i | 0 <= i < |dw| ensures dw[i] == ds[i] {
        assert dw[i] == w[a' + 1 + i] == s[p + 1 + a' + 1 + i];
      }
    }
    assert w[d' + 1..] == s[k + 1..m];
    AllCharsOfSlice(s, p + 1, a, IsLocalChar);
    AllCharsOfSlice(s, a + 1, k, IsDomainChar);
    AllCharsOfSlice(s, k + 1, m, IsAsciiLetter);
    assert s[a] == w[a'] && s[k] == w[d'];
  }

  /** Every match the scanner reports is an address of the pattern's shape
      following an `@` at the position where it starts. */
  lemma MatchEndSound(s: string, p: nat)
    requires p <= |s| && MatchEnd(s, p).Some?
    ensures MentionedAt(s, p, s[p + 1..MatchEnd(s, p).value])
    ensures IsMention(s[p + 1..MatchEnd(s, p).value])
  {
    var a := RunEnd(s, p + 1, IsLocalChar);
    var e := RunEnd(s, a + 1, IsDomainChar);
    var k := LastTldDot(s, a + 1, e).value;
    var m := RunEnd(s, k + 1, IsAsciiLetter);
    assert MatchEnd(s, p) == Some(m);
    assert PiecesAt(s, p, a, k, m);
    PiecesAtIsMention(s, p, a, k, m);
  }

  /** Whenever an address of the pattern's shape follows the `@` at `p`, the
      scanner finds a match at `p` (possibly a different one: the greedy
      domain part prefers the last suitable dot). */
  lemma MatchEndComplete(s: string, p: nat, w: string)
    requires MentionedAt(s, p, w) && IsMention(w)
    ensures MatchEnd(s, p).Some?
  {
    var a': nat, d': nat :| IsMentionAt(w, a', d');
    var m := p + 1 + |w|;
    var a, k := p + 1 + a', p + 1 + d';
    IsMentionAtPieces(s, p, w, a', d');
    RunEndAt(s, p + 1, IsLocalChar, a);
    var e := RunEnd(s, a + 1, IsDomainChar);
    assert k < e by {
      assert forall j :: a + 1 <= j <= k ==> IsDomainChar(s[j]);
    }
    assert DotBeforeTld(s, k);
  }

  /** Every scanned match is a mention in the text. */
  lemma {:induction false} MatchesFromSound(s: string, i: nat, w: string)
    requires i <= |s| && w in MatchesFrom(s, i)
    ensures IsMention(w) && exists p: nat :: i <= p && MentionedAt(s, p, w)
    decreases |s| - i
  {
    if i < |s| {
      match MatchEnd(s, i)
      case Some(m) =>
        if w == s[i + 1..m] {
          MatchEndSound(s, i);
        } else {
          MatchesFromSound(s, m, w);
        }
      case None =>
        MatchesFromSound(s, i + 1, w);
    }
  }

  /** A mention after position `i` leaves the scan from `i` with something to report. */
  lemma {:induction false} MatchesFromComplete(s: string, i: nat, p: nat, w: string)
    requires i <= p && MentionedAt(s, p, w) && IsMention(w)
    ensures MatchesFrom(s, i) != []
    decreases p - i
  {
    if MatchEnd(s, i).None? {
      if i == p {
        MatchEndComplete(s, p, w);
      } else {
        MatchesFromComplete(s, i + 1, p, w);
      }
    }
  }

  /** Every extracted address is of the pattern's shape and follows an `@` in the text. */
  lemma ExtractedAreMentions(text: string, e: string)
    requires e in ExtractMentionedEmails(text)
    ensures IsMention(e)
    ensures exists p: nat :: MentionedAt(text, p, e)
  {
    MatchesFromSound(text, 0, e);
  }

  /** The extractor returns nothing exactly when no `@` in the text is followed
      by an address of the pattern's shape. */
  lemma ExtractEmptyIff(text: string)
    ensures ExtractMentionedEmails(text) == [] <==> !ContainsMention(text)
  {
    var r := ExtractMentionedEmails(text);
    if r != [] {
      ExtractedAreMentions(text, r[0]);
      var p: nat :| MentionedAt(text, p, r[0]);
    }
    if ContainsMention(text) {
      var p: nat, w :| MentionedAt(text, p, w) && IsMention(w);
      MatchesFromComplete(text, 0, p, w);
      var m := MatchesFrom(text, 0);
      assert m[0] in m;
    }
  }

  /** Addresses come out in the order in which they are first matched. */
  lemma ExtractKeepsFirstOccurrenceOrder(text: string, i: nat, j: nat)
    requires i < j < |ExtractMentionedEmails(text)|
    ensures FirstIndex(MatchesFrom(text, 0), ExtractMentionedEmails(text)[i])
          < FirstIndex(MatchesFrom(text, 0), ExtractMentionedEmails(text)[j])
  {
    DedupKeepsFirstOccurrenceOrder(MatchesFrom(text, 0), i, j);
  }

  // ---------------------------------------------------------------------------
  // Counting `@`

  /** Number of `@` characters in `s` from position `i` on. */
  function AtCount(s: string, i: nat): nat
    requires i <= |s|
    decreases |s| - i
  {
    if i == |s| then 0 else (if s[i] == '@' then 1 else 0) + AtCount(s, i + 1)
  }

  lemma {:induction false} AtCountMonotonic(s: string, i: nat, j: nat)
    requires i <= j <= |s|
    ensures AtCount(s, j) <= AtCount(s, i)
    decreases j - i
  {
    if i < j {
      AtCountMonotonic(s, i + 1, j);
    }
  }

  /** Each match uses up two `@`: the sigil and the one inside the address. */
  lemma {:induction false} MatchesFromAtCount(s: string, i: nat)
    requires i <= |s|
    ensures 2 * |MatchesFrom(s, i)| <= AtCount(s, i)
    decreases |s| - i
  {
    if i < |s| {
      match MatchEnd(s, i)
      case Some(m) =>
        MatchEndAtCount(s, i);
        MatchesFromAtCount(s, m);
      case None =>
        MatchesFromAtCount(s, i + 1);
    }
  }

  /** A match from `i` spans the sigil and the `@` inside the address. */
  lemma MatchEndAtCount(s: string, i: nat)
    requires i <= |s| && MatchEnd(s, i).Some?
    ensures AtCount(s, MatchEnd(s, i).value) + 2 <= AtCount(s, i)
  {
    var a := RunEnd(s, i + 1, IsLocalChar);
    var m := MatchEnd(s, i).value;
    assert s[i] == '@' && a < |s| && s[a] == '@' && a < m;
    AtCountMonotonic(s, i + 1, a);
    AtCountMonotonic(s, a + 1, m);
  }

  /** At most one address per two `@` characters in the text. */
  lemma ExtractAtCount(text: string)
    ensures 2 * |ExtractMentionedEmails(text)| <= AtCount(text, 0)
  {
    if text != "" {
      MatchesFromAtCount(text, 0);
    }
  }
}
