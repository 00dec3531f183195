/** The accumulated state the nodes exchange, and the supervisor's
    conditional-edge function, which reads a routing marker out of the
    supervisor's latest output. */
module Router {
  import opened Wrappers
  import opened JsText
  import opened MessageGraphs

  /** One element of the accumulated state: the chain values a node returned
      (the first element is the caller's own values). A field may be absent. */
  datatype Record = Record(input: Option<string>, output: Option<string>)

  /** Reading `.includes` of an absent `output` is a TypeError in JavaScript. */
  datatype RouteError = OutputNotText

  const Marker: string := "Agent="
  const NameEnd: string := ";"

  /** `output.split('Agent=')[1].split(';')[0]`, defined when the marker occurs. */
  function ExtractName(text: string): string
    requires Includes(text, Marker)
  {
    Split(Split(text, Marker)[1], NameEnd)[0]
  }

  /** The characters `[i + |Marker|, j)` of `text` form the routed name: `i`
      is the first `Agent=`, the name holds no `;` and no further `Agent=`,
      and it stops at a `;`, at the next `Agent=`, or at the end of the text. */
  ghost predicate NameSpan(text: string, i: nat, j: nat) {
    && OccursAt(text, Marker, i)
    && (forall q :: 0 <= q < i ==> !OccursAt(text, Marker, q))
    && i + |Marker| <= j <= |text|
    && (forall p :: i + |Marker| <= p < j ==> text[p] != ';' && !OccursAt(text, Marker, p))
    && (j == |text| || text[j] == ';' || OccursAt(text, Marker, j))
  }

  /** The conditional edge attached to `supervisor`: it reads only the last
      record's `output`. An absent output is an error; text without the
      marker routes to `END`; otherwise the routed name is the span
      `NameSpan` describes (unique by `NameSpanUnique`), whatever it names. */
  function Route(state: seq<Record>): (r: Result<string, RouteError>)
    requires |state| > 0
    ensures r.Failure? <==> state[|state| - 1].output.None?
    ensures r.Success? ==>
              var text := state[|state| - 1].output.value;
              if Includes(text, Marker) then exists i: nat, j: nat :: NameSpan(text, i, j) && r.value == text[i + |Marker|..j]
              else r.value == END
  {
    match state[|state| - 1].output
    case None => Failure(OutputNotText)
    case Some(text) =>
      if Includes(text, Marker) then
        ExtractNameSpan(text);
        Success(ExtractName(text))
      else Success(END)
  }

  // ---------------------------------------------------------------------
  // Split, seen from the first occurrence of the separator

  /** The text after the first occurrence of `sep`, or the whole text. */
  lemma SplitFirst(s: string, sep: string)
    requires |sep| > 0
    ensures IndexOf(s, sep).None? ==> Split(s, sep)[0] == s
    ensures IndexOf(s, sep).Some? ==> Split(s, sep)[0] == s[..IndexOf(s, sep).value]
  {
  }

  lemma SplitSecond(s: string, sep: string)
    requires |sep| > 0 && Includes(s, sep)
    ensures IndexOf(s, sep).value + |sep| <= |s|
    ensures Split(s, sep)[1] == Split(s[IndexOf(s, sep).value + |sep|..], sep)[0]
  {
  }

  /** An occurrence in a suffix is an occurrence in the whole text, shifted. */
  lemma OccursInSuffix(s: string, pat: string, a: nat, k: nat)
    requires a <= |s|
    ensures OccursAt(s[a..], pat, k) <==> OccursAt(s, pat, a + k)
  {
    if a + k + |pat| <= |s| {
      assert s[a..][k..k + |pat|] == s[a + k..a + k + |pat|];
    }
  }

  /** The prefix of `s` before the first `;` (or all of it) holds no `;`,
      and is followed by `;` or by the end of `s`. */
  lemma PrefixBeforeSemicolon(s: string) returns (m: nat)
    ensures m <= |s| && Split(s, NameEnd)[0] == s[..m]
    ensures forall p :: 0 <= p < m ==> s[p] != ';'
    ensures m == |s| || s[m] == ';'
  {
    SplitFirst(s, NameEnd);
    var found := IndexOf(s, NameEnd);
    m := if found.Some? then found.value else |s|;
    forall p | 0 <= p < m ensures s[p] != ';' {
      assert !OccursAt(s, NameEnd, p);
      assert s[p..p + 1] == [s[p]];
    }
    if found.Some? {
      assert s[m..m + 1] == NameEnd;
    }
  }

  // ---------------------------------------------------------------------
  // Properties of the router

  /** The piece `split` puts second: the text after the first separator, up
      to the next separator or the end. */
  lemma {:induction false} SecondPiece(text: string, sep: string) returns (i: nat, k: nat)
    requires |sep| > 0 && Includes(text, sep)
    ensures OccursAt(text, sep, i) && forall q :: 0 <= q < i ==> !OccursAt(text, sep, q)
    ensures i + |sep| <= k <= |text| && Split(text, sep)[1] == text[i + |sep|..k]
    ensures forall p :: i + |sep| <= p < k ==> !OccursAt(text, sep, p)
    ensures k == |text| || OccursAt(text, sep, k)
  {
    i := IndexOf(text, sep).value;
    var a := i + |sep|;
    var tail := text[a..];
    SplitSecond(text, sep);
    SplitFirst(tail, sep);
    var next := IndexOf(tail, sep);
    var n := if next.Some? then next.value else |tail|;
    k := a + n;
    assert tail[..n] == text[a..k];
    forall p | a <= p < k ensures !OccursAt(text, sep, p) {
      OccursInSuffix(text, sep, a, p - a);
    }
    if next.Some? {
      OccursInSuffix(text, sep, a, n);
    }
  }

  /** The routed name, characterised without `split`: `split` picks exactly
      the span `NameSpan` describes. */
  lemma {:induction false} ExtractNameDelimited(text: string) returns (i: nat, j: nat)
    requires Includes(text, Marker)
    ensures NameSpan(text, i, j) && ExtractName(text) == text[i + |Marker|..j]
  {
    var k;
    i, k := SecondPiece(text, Marker);
    var a := i + |Marker|;
    var segment := text[a..k];
    var m := PrefixBeforeSemicolon(segment);
    j := a + m;
    SliceOfSlice(text, a, k, m);
    if m < |segment| {
      assert text[j] == segment[m];
    } else {
      assert j == k;
    }
  }

  /** `ExtractNameDelimited` with its witnesses left implicit. */
  lemma ExtractNameSpan(text: string)
    requires Includes(text, Marker)
    ensures exists i: nat, j: nat :: NameSpan(text, i, j) && ExtractName(text) == text[i + |Marker|..j]
  {
    var i, j := ExtractNameDelimited(text);
  }

  /** At most one span of a text is the routed name, so `Route`'s contract
      determines the name. */
  lemma NameSpanUnique(text: string, i: nat, j: nat, i': nat, j': nat)
    requires NameSpan(text, i, j) && NameSpan(text, i', j')
    ensures i == i' && j == j'
  {
  }

  /** A prefix of a slice is a slice, position by position. */
  lemma SliceOfSlice(s: string, a: nat, k: nat, m: nat)
    requires a <= k <= |s| && m <= k - a
    ensures s[a..k][..m] == s[a..a + m]
    ensures forall p :: a <= p < k ==> s[a..k][p - a] == s[p]
  {
  }

  /** An occurrence of a pattern matches the pattern character by character. */
  lemma OccursAtChar(s: string, pat: string, p: nat, m: nat)
    requires OccursAt(s, pat, p) && m < |pat|
    ensures s[p + m] == pat[m]
  {
    assert s[p..p + |pat|][m] == s[p + m];
  }

  /** A pattern one of whose characters never appears in the text does not occur. */
  lemma AbsentChar(s: string, pat: string, m: nat)
    requires m < |pat| && pat[m] !in s
    ensures !Includes(s, pat)
  {
    if Includes(s, pat) {
      OccursAtChar(s, pat, IndexOf(s, pat).value, m);
    }
  }

  /** When the text opens with the marker and no `;` and no further marker
      starts before position `e`, and `e` is the end, a `;` or the next
      marker, the name runs up to `e`. */
  lemma {:induction false} NameUpTo(text: string, e: nat)
    requires OccursAt(text, Marker, 0) && |Marker| <= e <= |text|
    requires forall p :: |Marker| <= p < e ==> text[p] != ';' && !OccursAt(text, Marker, p)
    requires e == |text| || text[e] == ';' || OccursAt(text, Marker, e)
    ensures Includes(text, Marker) && ExtractName(text) == text[|Marker|..e]
  {
    assert IndexOf(text, Marker).Some?;
    var i, j := ExtractNameDelimited(text);
    NameSpanUnique(text, i, j, 0, e);
  }

  /** Inside `Agent=<name>;...` no `;` and no marker starts within the name:
      a marker there would lie inside the name or cover the `;`. */
  lemma NoMarkerInName(text: string, name: string, rest: string, p: nat)
    requires text == Marker + name + NameEnd + rest
    requires ';' !in name && !Includes(name, Marker)
    requires |Marker| <= p < |Marker| + |name|
    ensures text[p] != ';' && !OccursAt(text, Marker, p)
  {
    var n := |Marker|;
    var e := n + |name|;
    assert text[p] == name[p - n];
    if p + n <= e {
      assert text[p..p + n] == name[p - n..p - n + n];
      assert !OccursAt(name, Marker, p - n);
    } else {
      assert text[e] == ';';
      if OccursAt(text, Marker, p) {
        OccursAtChar(text, Marker, p, e - p);
      }
    }
  }

  /** A message that opens with `Agent=<name>;` routes to `<name>`, whatever
      follows the `;`, when the name holds no `;` and no `Agent=`. */
  lemma LeadingMarker(text: string, name: string, rest: string)
    requires text == Marker + name + NameEnd + rest
    requires ';' !in name && !Includes(name, Marker)
    ensures Includes(text, Marker) && ExtractName(text) == name
  {
    var n := |Marker|;
    var e := n + |name|;
    assert text[..n] == Marker;
    assert text[n..e] == name;
    assert text[e] == ';';
    forall p | n <= p < e ensures text[p] != ';' && !OccursAt(text, Marker, p) {
      NoMarkerInName(text, name, rest, p);
    }
    NameUpTo(text, e);
  }

  /** Scenario: the supervisor opens its message with the marker and then
      gives instructions; the name may contain a capital `A`. */
  lemma RouteWithInstructions(first: Record)
    ensures Route([first, Record(None, Some("Agent=" + "toolAgent_0" + ";" + " Be brief."))]) == Success("toolAgent_0")
  {
    AbsentChar("toolAgent_0", Marker, 5);
    LeadingMarker("Agent=" + "toolAgent_0" + ";" + " Be brief.", "toolAgent_0", " Be brief.");
  }

  /** Scenario: an answer without the marker ends the run. */
  lemma RouteDirectAnswer(first: Record)
    ensures Route([first, Record(None, Some("I can help directly."))]) == Success(END)
  {
    AbsentChar("I can help directly.", Marker, 0);
  }

  /** Only the text up to the next marker counts: without a `;` the name
      runs up to the second `Agent=`. */
  lemma RouteStopsAtNextMarker(first: Record)
    ensures Route([first, Record(None, Some("Agent=salesAgent=support"))]) == Success("sales")
  {
    var text := "Agent=salesAgent=support";
    assert text[..6] == Marker && text[11..17] == Marker;
    assert text[6..11] == "sales";
    forall p | 6 <= p < 11 ensures text[p] != ';' && !OccursAt(text, Marker, p) {
      assert text[p] == "sales"[p - 6];
      if OccursAt(text, Marker, p) {
        OccursAtChar(text, Marker, p, 0);
      }
    }
    NameUpTo(text, 11);
  }
}
