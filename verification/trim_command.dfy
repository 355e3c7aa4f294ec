/** Recognising a trim command inside a trim-list item
    (document_handler/document_to_text.py, `is_trim_command`): the item is
    searched with the regular expression `\+{3}(.*)\+{3}` and the command is
    the captured group. The search is modelled exactly: the match starts at
    the leftmost position where one exists, the greedy `.*` makes it end at
    the last possible `+++`, and `.` does not match a newline. */
module TrimCommand {
  import opened Options
  import opened Text

  const Marker: string := "+++"

  /** Three `+` characters start at index `i` of `s`. */
  predicate MarkerAt(s: string, i: int) {
    OccursAt(s, Marker, i)
  }

  lemma MarkerChars(s: string, i: int)
    ensures MarkerAt(s, i) ==> s[i] == '+' && s[i + 1] == '+' && s[i + 2] == '+'
  {
    if MarkerAt(s, i) {
      assert s[i..i + 3] == Marker;
      assert s[i..i + 3][0] == s[i] && s[i..i + 3][1] == s[i + 1] && s[i..i + 3][2] == s[i + 2];
    }
  }

  /** A closing marker at `e` can end a group that starts at `lo`: no newline
      lies in between. */
  predicate ClosesAt(s: string, lo: int, e: int) {
    0 <= lo <= e && MarkerAt(s, e) && forall j :: lo <= j < e ==> s[j] != '\n'
  }

  /** The regular expression matches `s[p..q + 3]`, capturing `s[p + 3..q]`. */
  predicate MatchSpan(s: string, p: int, q: int) {
    0 <= p && MarkerAt(s, p) && ClosesAt(s, p + 3, q)
  }

  /** The match Python's `re.search` reports: the leftmost start, and for
      that start the longest group. */
  ghost predicate SearchResult(s: string, p: int, q: int) {
    && MatchSpan(s, p, q)
    && (forall p', q' :: 0 <= p' < p ==> !MatchSpan(s, p', q'))
    && (forall q' :: q < q' ==> !MatchSpan(s, p, q'))
  }

  /** The string holds no match at all. */
  ghost predicate NoMatch(s: string) {
    forall p, q :: !MatchSpan(s, p, q)
  }

  /** The last closing marker at or after `q` for a group starting at `lo`,
      scanning forward until a newline or the end of the string. */
  function LastClose(s: string, lo: nat, q: nat): (r: Option<nat>)
    requires lo <= q <= |s|
    requires forall j :: lo <= j < q ==> s[j] != '\n'
    ensures r.Some? ==> q <= r.value && ClosesAt(s, lo, r.value)
    ensures r.Some? ==> forall e :: r.value < e ==> !ClosesAt(s, lo, e)
    ensures r.None? ==> forall e :: q <= e ==> !ClosesAt(s, lo, e)
    decreases |s| - q
  {
    if q == |s| then None
    else if s[q] == '\n' then
      assert forall e :: q <= e ==> !ClosesAt(s, lo, e) by {
        MarkerChars(s, q);
      }
      None
    else
      match LastClose(s, lo, q + 1)
      case Some(e) => Some(e)
      case None => if MarkerAt(s, q) then Some(q) else None
  }

  /** The regular-expression search started at position `p`. */
  function SearchFrom(s: string, p: nat): (r: Option<(nat, nat)>)
    requires p <= |s|
    ensures r.Some? ==> p <= r.value.0 && MatchSpan(s, r.value.0, r.value.1)
    ensures r.Some? ==> forall p', q' :: p <= p' < r.value.0 ==> !MatchSpan(s, p', q')
    ensures r.Some? ==> forall q' :: r.value.1 < q' ==> !MatchSpan(s, r.value.0, q')
    ensures r.None? ==> forall p', q' :: p <= p' ==> !MatchSpan(s, p', q')
    decreases |s| - p
  {
    if p + 3 > |s| then None
    else if MarkerAt(s, p) && LastClose(s, p + 3, p + 3).Some? then
      Some((p, LastClose(s, p + 3, p + 3).value))
    else
      SearchFrom(s, p + 1)
  }

  /** `is_trim_command`: the captured command of the first match, or "" when
      the item holds no `+++…+++` pair. */
  function IsTrimCommand(item: string): (command: string)
    ensures NoMatch(item) ==> command == ""
    ensures forall p, q :: SearchResult(item, p, q) ==> command == item[p + 3..q]
  {
    match SearchFrom(item, 0)
    case None => ""
    case Some((p, q)) => item[p + 3..q]
  }

  /** For an item without newlines the command is the text between the first
      `+++` and the last `+++` that starts at least three characters later. */
  lemma CommandBetweenFirstAndLastMarker(item: string, f: nat, l: nat)
    requires '\n' !in item
    requires MarkerAt(item, f) && MarkerAt(item, l) && f + 3 <= l
    requires forall j :: MarkerAt(item, j) ==> f <= j <= l
    ensures IsTrimCommand(item) == item[f + 3..l]
  {
    assert SearchResult(item, f, l);
  }

  /** Without a newline, an item whose markers do not form a pair (fewer than
      two, or overlapping) is a plain literal: its command is "". */
  lemma NoMarkerPairIsLiteral(item: string)
    requires '\n' !in item
    requires forall p, q :: MarkerAt(item, p) && MarkerAt(item, q) ==> q < p + 3
    ensures IsTrimCommand(item) == ""
  {
    assert NoMatch(item);
  }

  /** A newline between the markers breaks the pair: "+++ta\nbs+++" holds no
      command even though it has two markers. */
  lemma NewlineBreaksCommand()
    ensures IsTrimCommand("+++ta\nbs+++") == ""
  {
    var s := "+++ta\nbs+++";
    assert s[5] == '\n';
    forall p, q ensures !MatchSpan(s, p, q) {
      MarkerChars(s, p);
      MarkerChars(s, q);
    }
  }

  /** The text of a match, markers included, occurs in the string. */
  lemma MatchOccurs(s: string, p: nat, q: nat)
    requires p + 3 <= q && MarkerAt(s, p) && MarkerAt(s, q)
    ensures Contains(s, Marker + s[p + 3..q] + Marker)
  {
    var t := Marker + s[p + 3..q] + Marker;
    assert s[p..q + 3] == s[p..p + 3] + s[p + 3..q] + s[q..q + 3];
    assert |t| == q + 3 - p;
    ContainsWitness(s, t, p);
  }

  /** Every item is either a literal or carries the command its markers
      enclose: a command "c" comes from an item containing "+++c+++". */
  lemma CommandIsEnclosed(item: string)
    ensures IsTrimCommand(item) != "" ==> Contains(item, Marker + IsTrimCommand(item) + Marker)
  {
    var r := SearchFrom(item, 0);
    if r.Some? {
      var p, q := r.value.0, r.value.1;
      assert IsTrimCommand(item) == item[p + 3..q];
      MatchOccurs(item, p, q);
    }
  }

}
