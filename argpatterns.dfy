// The two argument patterns of locky.utils.Parser, matched against the whole
// argument string with Matcher.matches():
//
//   DEADLINE_RE   ^(.+?)\s*/by\s+(.+)$
//   EVENT_RE      ^(.+?)\s*/from\s+(.+?)\s*/to\s+(.+)$
//
// Each is written as an explicit search that tries the candidates in the order
// java.util.regex backtracks through them: the lazy groups from the shortest,
// the greedy \s* and \s+ from the longest. `.` matches any character but a line
// terminator and \s is [ \t\n\x0B\f\r]. The predicates DeadlineSplit and
// EventSplit say declaratively what a match is, and the lemmas at the end show
// that the searches find a match exactly when one exists, and the one the
// engine prefers.
module ArgPatterns {
  import opened Errors
  import opened Text

  /** `.+` or `.+?` can span s. */
  predicate NoTerminator(s: string) {
    forall k :: 0 <= k < |s| ==> !IsLineTerminator(s[k])
  }

  /** `\s*` or `\s+` can span s. */
  predicate AllRegexSpace(s: string) {
    forall k :: 0 <= k < |s| ==> IsRegexSpace(s[k])
  }

  lemma NoTerminatorWithin(s: string, a: nat, b: nat, c: nat, d: nat)
    requires a <= c <= d <= b <= |s| && NoTerminator(s[a..b])
    ensures NoTerminator(s[c..d])
  {
    assert forall k :: 0 <= k < d - c ==> s[c..d][k] == s[a..b][k + c - a];
  }

  // ---------------------------------------------------------------- the tail

  /** `MARKER\s+(.+)$` matches s[j..] with its group starting at m. */
  ghost predicate TailSplit(s: string, j: nat, marker: string, m: nat) {
    && j + |marker| < m < |s|
    && s[j..j + |marker|] == marker
    && AllRegexSpace(s[j + |marker|..m])
    && NoTerminator(s[m..])
  }

  /** The match of `MARKER\s+(.+)$` at j: \s+ takes the whole run of spaces,
      and gives one back only when nothing would be left for (.+). */
  function TailAt(s: string, j: nat, marker: string): (r: Option<nat>)
    requires j <= |s| && marker != ""
    ensures r.Some? ==> TailSplit(s, j, marker, r.value)
  {
    if j + |marker| <= |s| && s[j..j + |marker|] == marker then
      var e := SpaceEnd(s, j + |marker|);
      var m := if e < |s| then e else |s| - 1;
      if j + |marker| < m && NoTerminator(s[m..]) then
        assert AllRegexSpace(s[j + |marker|..m]);
        Some(m)
      else
        None
    else
      None
  }

  /** TailAt misses no match, and its group is the longest \s+ allows. */
  lemma TailAtComplete(s: string, j: nat, marker: string, m: nat)
    requires j <= |s| && marker != ""
    requires TailSplit(s, j, marker, m)
    ensures TailAt(s, j, marker).Some? && m <= TailAt(s, j, marker).value
  {
    var e := SpaceEnd(s, j + |marker|);
    var top := if e < |s| then e else |s| - 1;
    assert s[top..] == s[m..][top - m..];
  }

  /** A marker after a run of \s starts where the run ends: the \s before it
      is always the whole run. */
  lemma MarkerAfterSpaces(s: string, i: nat, j: nat, marker: string)
    requires i <= j && j + |marker| <= |s| && marker != "" && !IsRegexSpace(marker[0])
    requires AllRegexSpace(s[i..j]) && s[j..j + |marker|] == marker
    ensures j == SpaceEnd(s, i)
  {
    assert s[j] == marker[0];
  }

  // ---------------------------------------------------------------- deadline

  /** Where the groups of a match start and end. */
  datatype DeadlineGroups = DeadlineGroups(descEnd: nat, byStart: nat)

  // `^(.+?)\s*` then `/by\s+(.+)$`, group 1 being s[..i], the marker at j and
  // group 2 being s[m..].
  ghost predicate DeadlineSplit(s: string, i: nat, j: nat, m: nat) {
    && 1 <= i <= j <= |s|
    && NoTerminator(s[..i])
    && AllRegexSpace(s[i..j])
    && TailSplit(s, j, "/by", m)
  }

  /** The search from group-1 length i on, given that s[..i - 1] has no line
      terminator (the lazy group grows one character at a time, and stops at
      the first terminator). */
  function DeadlineFrom(s: string, i: nat): (r: Option<DeadlineGroups>)
    requires 1 <= i <= |s| && NoTerminator(s[..i - 1])
    ensures r.Some? ==> i <= r.value.descEnd < |s|
    ensures r.Some? ==> DeadlineSplit(s, r.value.descEnd, SpaceEnd(s, r.value.descEnd), r.value.byStart)
    decreases |s| - i
  {
    if IsLineTerminator(s[i - 1]) then
      None
    else
      assert NoTerminator(s[..i]) by {
        assert forall k :: 0 <= k < i - 1 ==> s[..i][k] == s[..i - 1][k];
      }
      match TailAt(s, SpaceEnd(s, i), "/by")
      case Some(m) => Some(DeadlineGroups(i, m))
      case None => if i < |s| then DeadlineFrom(s, i + 1) else None
  }

  /** DEADLINE_RE.matcher(s).matches(), with the groups' positions. */
  function DeadlineMatch(s: string): (r: Option<DeadlineGroups>)
    ensures r.Some? ==> 1 <= r.value.descEnd < |s|
    ensures r.Some? ==> DeadlineSplit(s, r.value.descEnd, SpaceEnd(s, r.value.descEnd), r.value.byStart)
  {
    if s == [] then None else DeadlineFrom(s, 1)
  }

  lemma {:induction false} DeadlineFromComplete(s: string, i0: nat, i: nat, j: nat, m: nat)
    requires 1 <= i0 <= |s| && NoTerminator(s[..i0 - 1])
    requires i0 <= i && DeadlineSplit(s, i, j, m)
    ensures DeadlineFrom(s, i0).Some?
    ensures DeadlineFrom(s, i0).value.descEnd <= i
    ensures DeadlineFrom(s, i0).value.descEnd == i ==> m <= DeadlineFrom(s, i0).value.byStart
    decreases |s| - i0
  {
    assert s[..i][i0 - 1] == s[i0 - 1];
    MarkerAfterSpaces(s, i, j, "/by");
    if i0 == i {
      TailAtComplete(s, j, "/by", m);
    } else if TailAt(s, SpaceEnd(s, i0), "/by").None? {
      assert NoTerminator(s[..i0]) by {
        assert forall k :: 0 <= k < i0 ==> s[..i0][k] == s[..i][k];
      }
      DeadlineFromComplete(s, i0 + 1, i, j, m);
    }
  }

  /** DEADLINE_RE matches exactly the strings that split as the pattern says,
      and the groups are the ones the engine picks: the shortest group 1, then
      the longest \s+ before group 2. */
  lemma DeadlineMatchSpec(s: string)
    ensures DeadlineMatch(s).None? <==> forall i: nat, j: nat, m: nat :: !DeadlineSplit(s, i, j, m)
    ensures DeadlineMatch(s).Some? ==>
              forall i: nat, j: nat, m: nat :: DeadlineSplit(s, i, j, m) ==>
                && DeadlineMatch(s).value.descEnd <= i
                && (DeadlineMatch(s).value.descEnd == i ==> m <= DeadlineMatch(s).value.byStart)
  {
    forall i: nat, j: nat, m: nat | DeadlineSplit(s, i, j, m)
      ensures DeadlineMatch(s).Some? && DeadlineMatch(s).value.descEnd <= i
      ensures DeadlineMatch(s).value.descEnd == i ==> m <= DeadlineMatch(s).value.byStart
    {
      DeadlineFromComplete(s, 1, i, j, m);
    }
  }

  // ---------------------------------------------------------------- event

  /** Group 1 is s[..descEnd], group 2 s[startBegin..startEnd], group 3
      s[endBegin..]. */
  datatype EventGroups = EventGroups(descEnd: nat, startBegin: nat, startEnd: nat, endBegin: nat)

  // The part of EVENT_RE after `/from`: `\s+` then group 2 at s[w..p], then
  // `\s*` to q and `/to\s+(.+)$` with group 3 at s[m..].
  ghost predicate AfterFromSplit(s: string, j: nat, w: nat, p: nat, q: nat, m: nat) {
    && j + 5 < w < p <= q <= |s|
    && s[j..j + 5] == "/from"
    && AllRegexSpace(s[j + 5..w])
    && NoTerminator(s[w..p])
    && AllRegexSpace(s[p..q])
    && TailSplit(s, q, "/to", m)
  }

  /** A match of EVENT_RE. */
  ghost predicate EventSplit(s: string, i: nat, j: nat, w: nat, p: nat, q: nat, m: nat) {
    && 1 <= i <= j <= |s|
    && NoTerminator(s[..i])
    && AllRegexSpace(s[i..j])
    && AfterFromSplit(s, j, w, p, q, m)
  }

  // The lazy group 2 from s[w..p] on, given that s[w..p - 1] has no line
  // terminator: the first p after which `\s*/to\s+(.+)$` matches.
  function LazyStart(s: string, w: nat, p: nat): (r: Option<(nat, nat)>)
    requires w < p <= |s| && NoTerminator(s[w..p - 1])
    ensures r.Some? ==> p <= r.value.0 <= |s|
    ensures r.Some? ==> NoTerminator(s[w..r.value.0])
    ensures r.Some? ==> TailSplit(s, SpaceEnd(s, r.value.0), "/to", r.value.1)
    decreases |s| - p
  {
    if IsLineTerminator(s[p - 1]) then
      None
    else
      assert NoTerminator(s[w..p]) by {
        assert forall k :: 0 <= k < p - 1 - w ==> s[w..p][k] == s[w..p - 1][k];
      }
      match TailAt(s, SpaceEnd(s, p), "/to")
      case Some(m) => Some((p, m))
      case None => if p < |s| then LazyStart(s, w, p + 1) else None
  }

  /** The greedy `\s+` after /from: group 2 tried from w, then w - 1, down
      to lo, and the first start that lets the rest match wins. */
  function GreedyFrom(s: string, lo: nat, w: nat): (r: Option<(nat, nat, nat)>)
    requires lo <= w <= |s|
    ensures r.Some? ==> lo <= r.value.0 <= w && r.value.0 < r.value.1 <= |s|
    ensures r.Some? ==> NoTerminator(s[r.value.0..r.value.1])
    ensures r.Some? ==> TailSplit(s, SpaceEnd(s, r.value.1), "/to", r.value.2)
    decreases w
  {
    var here := if w < |s| then LazyStart(s, w, w + 1) else None;
    if here.Some? then
      Some((w, here.value.0, here.value.1))
    else if lo < w then
      GreedyFrom(s, lo, w - 1)
    else
      None
  }

  // `/from\s+(.+?)\s*/to\s+(.+)$` at j.
  function FromAt(s: string, j: nat): (r: Option<(nat, nat, nat)>)
    requires j <= |s|
    ensures r.Some? ==> r.value.1 <= |s|
    ensures r.Some? ==> AfterFromSplit(s, j, r.value.0, r.value.1, SpaceEnd(s, r.value.1), r.value.2)
  {
    if j + 5 <= |s| && s[j..j + 5] == "/from" then
      var e := SpaceEnd(s, j + 5);
      if j + 5 < e then
        var r := GreedyFrom(s, j + 6, e);
        if r.Some? then
          assert AllRegexSpace(s[j + 5..r.value.0]);
          r
        else
          None
      else
        None
    else
      None
  }

  /** The search from group-1 length i on. */
  function EventFrom(s: string, i: nat): (r: Option<EventGroups>)
    requires 1 <= i <= |s| && NoTerminator(s[..i - 1])
    ensures r.Some? ==> i <= r.value.descEnd < |s| && r.value.startEnd <= |s|
    ensures r.Some? ==>
              var g := r.value;
              EventSplit(s, g.descEnd, SpaceEnd(s, g.descEnd), g.startBegin, g.startEnd,
                         SpaceEnd(s, g.startEnd), g.endBegin)
    decreases |s| - i
  {
    if IsLineTerminator(s[i - 1]) then
      None
    else
      assert NoTerminator(s[..i]) by {
        assert forall k :: 0 <= k < i - 1 ==> s[..i][k] == s[..i - 1][k];
      }
      match FromAt(s, SpaceEnd(s, i))
      case Some((w, p, m)) => Some(EventGroups(i, w, p, m))
      case None => if i < |s| then EventFrom(s, i + 1) else None
  }

  /** EVENT_RE.matcher(s).matches(), with the groups' positions. */
  function EventMatch(s: string): (r: Option<EventGroups>)
    ensures r.Some? ==> 1 <= r.value.descEnd < |s| && r.value.startEnd <= |s|
    ensures r.Some? ==>
              var g := r.value;
              EventSplit(s, g.descEnd, SpaceEnd(s, g.descEnd), g.startBegin, g.startEnd,
                         SpaceEnd(s, g.startEnd), g.endBegin)
  {
    if s == [] then None else EventFrom(s, 1)
  }

  /** The order in which the engine prefers one match of the part after /from
      to another: later group 2 start, then shorter group 2, then longer
      \s+ before group 3. */
  predicate PreferredAfterFrom(w: nat, p: nat, m: nat, w': nat, p': nat, m': nat) {
    w' <= w && (w' == w ==> p <= p' && (p == p' ==> m' <= m))
  }

  lemma {:induction false} LazyStartComplete(s: string, w: nat, p0: nat, p: nat, q: nat, m: nat)
    requires w < p0 <= |s| && NoTerminator(s[w..p0 - 1])
    requires p0 <= p <= q <= |s| && NoTerminator(s[w..p]) && AllRegexSpace(s[p..q])
    requires TailSplit(s, q, "/to", m)
    ensures LazyStart(s, w, p0).Some?
    ensures LazyStart(s, w, p0).value.0 <= p
    ensures LazyStart(s, w, p0).value.0 == p ==> m <= LazyStart(s, w, p0).value.1
    decreases |s| - p0
  {
    NoTerminatorWithin(s, w, p, p0 - 1, p0);
    assert !IsLineTerminator(s[p0 - 1]) by {
      assert s[p0 - 1..p0][0] == s[p0 - 1];
    }
    MarkerAfterSpaces(s, p, q, "/to");
    if p0 == p {
      TailAtComplete(s, q, "/to", m);
      LazyStartHere(s, w, p0);
    } else if TailAt(s, SpaceEnd(s, p0), "/to").Some? {
      LazyStartHere(s, w, p0);
    } else {
      NoTerminatorWithin(s, w, p, w, p0);
      LazyStartComplete(s, w, p0 + 1, p, q, m);
      LazyStartNext(s, w, p0);
    }
  }

  /** LazyStart stops at p when the rest matches from there. */
  lemma LazyStartHere(s: string, w: nat, p: nat)
    requires w < p <= |s| && NoTerminator(s[w..p - 1]) && !IsLineTerminator(s[p - 1])
    requires TailAt(s, SpaceEnd(s, p), "/to").Some?
    ensures LazyStart(s, w, p) == Some((p, TailAt(s, SpaceEnd(s, p), "/to").value))
  {
  }

  /** Otherwise it takes one more character into group 1. */
  lemma LazyStartNext(s: string, w: nat, p: nat)
    requires w < p < |s| && NoTerminator(s[w..p]) && !IsLineTerminator(s[p - 1])
    requires TailAt(s, SpaceEnd(s, p), "/to").None?
    ensures NoTerminator(s[w..p - 1])
    ensures LazyStart(s, w, p) == LazyStart(s, w, p + 1)
  {
    NoTerminatorWithin(s, w, p, w, p - 1);
  }

  lemma {:induction false} GreedyFromComplete(s: string, lo: nat, w0: nat, w: nat, p: nat, q: nat, m: nat)
    requires lo <= w <= w0 <= |s|
    requires w < p <= q <= |s| && NoTerminator(s[w..p]) && AllRegexSpace(s[p..q])
    requires TailSplit(s, q, "/to", m)
    ensures GreedyFrom(s, lo, w0).Some?
    ensures var r := GreedyFrom(s, lo, w0).value; PreferredAfterFrom(r.0, r.1, r.2, w, p, m)
    decreases w0
  {
    if w0 == w {
      assert s[w..w] == [];
      LazyStartComplete(s, w, w + 1, p, q, m);
      GreedyFromHere(s, lo, w0);
    } else if w0 < |s| && LazyStart(s, w0, w0 + 1).Some? {
      GreedyFromHere(s, lo, w0);
    } else {
      GreedyFromComplete(s, lo, w0 - 1, w, p, q, m);
      GreedyFromNext(s, lo, w0);
    }
  }

  /** GreedyFrom takes the start it is given when the rest matches from there. */
  lemma GreedyFromHere(s: string, lo: nat, w: nat)
    requires lo <= w < |s| && LazyStart(s, w, w + 1).Some?
    ensures GreedyFrom(s, lo, w) == Some((w, LazyStart(s, w, w + 1).value.0, LazyStart(s, w, w + 1).value.1))
  {
  }

  /** Otherwise it gives the \s+ back one character. */
  lemma GreedyFromNext(s: string, lo: nat, w: nat)
    requires lo < w <= |s| && (w == |s| || LazyStart(s, w, w + 1).None?)
    ensures GreedyFrom(s, lo, w) == GreedyFrom(s, lo, w - 1)
  {
  }

  lemma FromAtComplete(s: string, j: nat, w: nat, p: nat, q: nat, m: nat)
    requires AfterFromSplit(s, j, w, p, q, m)
    ensures FromAt(s, j).Some?
    ensures var r := FromAt(s, j).value; PreferredAfterFrom(r.0, r.1, r.2, w, p, m)
  {
    GreedyFromComplete(s, j + 6, SpaceEnd(s, j + 5), w, p, q, m);
  }

  lemma {:induction false} EventFromComplete(s: string, i0: nat, i: nat, j: nat, w: nat, p: nat, q: nat, m: nat)
    requires 1 <= i0 <= |s| && NoTerminator(s[..i0 - 1])
    requires i0 <= i && EventSplit(s, i, j, w, p, q, m)
    ensures EventFrom(s, i0).Some?
    ensures EventFrom(s, i0).value.descEnd <= i
    ensures var g := EventFrom(s, i0).value;
            g.descEnd == i ==> PreferredAfterFrom(g.startBegin, g.startEnd, g.endBegin, w, p, m)
    decreases |s| - i0
  {
    assert s[..i][i0 - 1] == s[i0 - 1];
    MarkerAfterSpaces(s, i, j, "/from");
    if i0 == i {
      FromAtComplete(s, j, w, p, q, m);
    } else if FromAt(s, SpaceEnd(s, i0)).None? {
      assert NoTerminator(s[..i0]) by {
        assert forall k :: 0 <= k < i0 ==> s[..i0][k] == s[..i][k];
      }
      EventFromComplete(s, i0 + 1, i, j, w, p, q, m);
    }
  }

  /** EVENT_RE matches exactly the strings that split as the pattern says, and
      the groups are the ones the engine picks: the shortest group 1, then the
      longest \s+ after /from, then the shortest group 2, then the longest \s+
      after /to. */
  lemma EventMatchSpec(s: string)
    ensures EventMatch(s).None? <==> forall i: nat, j: nat, w: nat, p: nat, q: nat, m: nat :: !EventSplit(s, i, j, w, p, q, m)
    ensures EventMatch(s).Some? ==>
              var g := EventMatch(s).value;
              forall i: nat, j: nat, w: nat, p: nat, q: nat, m: nat :: EventSplit(s, i, j, w, p, q, m) ==>
                && g.descEnd <= i
                && (g.descEnd == i ==> PreferredAfterFrom(g.startBegin, g.startEnd, g.endBegin, w, p, m))
  {
    forall i: nat, j: nat, w: nat, p: nat, q: nat, m: nat | EventSplit(s, i, j, w, p, q, m)
      ensures EventMatch(s).Some? && EventMatch(s).value.descEnd <= i
      ensures var g := EventMatch(s).value;
              g.descEnd == i ==> PreferredAfterFrom(g.startBegin, g.startEnd, g.endBegin, w, p, m)
    {
      EventFromComplete(s, 1, i, j, w, p, q, m);
    }
  }
}
