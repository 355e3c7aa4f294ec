/** The trim-and-reconnect pipeline of `DocumentReader`
    (document_handler/document_to_text.py): the per-line trim rules, the
    document filter, sentence reconnection for PDF text, the format dispatch,
    the output-path rewrite and the content `save` writes. The format readers
    are not modelled: a document enters as the list of lines its reader
    extracted. */
module DocumentReader {
  import opened Options
  import opened Text
  import opened Whitespace
  import opened TrimCommand

  /** The command that drops every line holding a tab. */
  const TabsCommand: string := "tabs"

  /** The command that deletes its word from a line containing it. */
  const WordCommand: string := "word"

  /** The word a `word` item deletes: the item with `+++word+++` removed. */
  function WordOf(item: string): string {
    ReplaceAll(item, Marker + WordCommand + Marker, "")
  }

  // ---------------------------------------------------------------------------
  // trim_line

  /** What one trim item decides about a line. */
  datatype Verdict = Drop | Replace(text: string) | Pass

  /** One pass of the loop in `trim_line`. A `tabs` item drops a line holding
      a tab; a `word` item whose word occurs rewrites the line; failing those,
      any item that occurs literally in the line drops it, command items
      included. */
  function ApplyItem(line: string, item: string): (v: Verdict)
    ensures v.Drop? ==> Contains(line, item) || (IsTrimCommand(item) == TabsCommand && '\t' in line)
    ensures v.Replace? ==> IsTrimCommand(item) == WordCommand && Contains(line, WordOf(item))
    ensures IsTrimCommand(item) == WordCommand && Contains(line, WordOf(item)) ==> v.Replace?
    ensures v.Replace? ==> Normalized(v.text) && |v.text| <= |line|
    ensures v.Pass? <==>
      && !Contains(line, item)
      && !(IsTrimCommand(item) == TabsCommand && '\t' in line)
      && !(IsTrimCommand(item) == WordCommand && Contains(line, WordOf(item)))
  {
    var command := IsTrimCommand(item);
    if command == TabsCommand && '\t' in line then Drop
    else if command == WordCommand && Contains(line, WordOf(item)) then
      Replace(Collapse(ReplaceAll(line, WordOf(item), "")))
    else if Contains(line, item) then Drop
    else Pass
  }

  /** `trim_line`: the verdict of the first item that does not let the line
      pass; a line no item touches is whitespace-collapsed. "" means the line
      was trimmed away. */
  function TrimLine(line: string, items: seq<string>): (r: string)
    ensures Normalized(r)
    ensures '\t' !in r
    ensures |r| <= |line|
    decreases |items|
  {
    if |items| == 0 then Collapse(line)
    else
      match ApplyItem(line, items[0])
      case Drop => ""
      case Replace(text) => text
      case Pass => TrimLine(line, items[1..])
  }

  /** Every item before index `k` lets the line pass. */
  predicate PassesBefore(line: string, items: seq<string>, k: int)
    requires k <= |items|
  {
    forall j :: 0 <= j < k ==> ApplyItem(line, items[j]).Pass?
  }

  /** Items that let the line pass can be skipped. */
  lemma {:induction false} TrimLineSkip(line: string, items: seq<string>, k: nat)
    requires k <= |items| && PassesBefore(line, items, k)
    ensures TrimLine(line, items) == TrimLine(line, items[k..])
    decreases k
  {
    if k > 0 {
      assert ApplyItem(line, items[0]).Pass?;
      assert PassesBefore(line, items[1..], k - 1) by {
        forall j | 0 <= j < k - 1 ensures ApplyItem(line, items[1..][j]).Pass? {
          assert items[1..][j] == items[j + 1];
        }
      }
      TrimLineSkip(line, items[1..], k - 1);
      assert items[1..][k - 1..] == items[k..];
    }
  }

  /** The first item that does not pass decides the line. */
  lemma TrimLineFirstVerdict(line: string, items: seq<string>, k: nat)
    requires k < |items| && PassesBefore(line, items, k)
    ensures ApplyItem(line, items[k]).Drop? ==> TrimLine(line, items) == ""
    ensures ApplyItem(line, items[k]).Replace? ==> TrimLine(line, items) == ApplyItem(line, items[k]).text
  {
    TrimLineSkip(line, items, k);
    assert items[k..][0] == items[k];
  }

  /** A line no item matches is only whitespace-collapsed. */
  lemma TrimLineNoMatch(line: string, items: seq<string>)
    requires PassesBefore(line, items, |items|)
    ensures TrimLine(line, items) == Collapse(line)
  {
    TrimLineSkip(line, items, |items|);
  }

  /** A `tabs` item drops any line holding a tab, unless an earlier item
      already decided the line. */
  lemma TabsItemDrops(line: string, items: seq<string>, k: nat)
    requires k < |items| && PassesBefore(line, items, k)
    requires IsTrimCommand(items[k]) == TabsCommand && '\t' in line
    ensures TrimLine(line, items) == ""
  {
    TrimLineFirstVerdict(line, items, k);
  }

  /** A `word` item whose word occurs in the line rewrites the line instead
      of dropping it: every occurrence of the word is deleted and the rest
      collapsed, so the words of the result are those of the line with the
      word cut out. */
  lemma WordItemReplaces(line: string, items: seq<string>, k: nat)
    requires k < |items| && PassesBefore(line, items, k)
    requires IsTrimCommand(items[k]) == WordCommand && Contains(line, WordOf(items[k]))
    ensures TrimLine(line, items) == Collapse(ReplaceAll(line, WordOf(items[k]), ""))
    ensures Words(TrimLine(line, items)) == Words(ReplaceAll(line, WordOf(items[k]), ""))
  {
    assert IsTrimCommand(items[k]) != TabsCommand;
    TrimLineFirstVerdict(line, items, k);
    CollapseKeepsWords(ReplaceAll(line, WordOf(items[k]), ""));
  }

  /** Any item occurring literally in the line drops it, a command item
      whose command does not apply included. */
  lemma LiteralItemDrops(line: string, items: seq<string>, k: nat)
    requires k < |items| && PassesBefore(line, items, k)
    requires Contains(line, items[k])
    requires !(IsTrimCommand(items[k]) == WordCommand && Contains(line, WordOf(items[k])))
    ensures TrimLine(line, items) == ""
  {
    TrimLineFirstVerdict(line, items, k);
  }

  /** "+++tabs+++" carries the `tabs` command. */
  lemma TabsItemCommand()
    ensures IsTrimCommand("+++tabs+++") == TabsCommand
  {
    var item := "+++tabs+++";
    assert item[0..3] == Marker && item[7..10] == Marker;
    CommandBetweenFirstAndLastMarker(item, 0, 7);
    assert item[3..7] == TabsCommand;
  }

  /** "+++word+++" carries the `word` command with the empty word. */
  lemma BareWordItemCommand()
    ensures IsTrimCommand("+++word+++") == WordCommand
    ensures WordOf("+++word+++") == ""
  {
    var item := "+++word+++";
    assert item[0..3] == Marker && item[7..10] == Marker;
    CommandBetweenFirstAndLastMarker(item, 0, 7);
    assert item[3..7] == WordCommand;
    assert OccursAt(item, Marker + WordCommand + Marker, 0);
    assert item[10..] == "";
  }

  /** A `tabs` item drops every line that quotes it, tab or no tab: the
      literal test catches what the command test lets through. */
  lemma TabsItemTextDropsLine(line: string)
    requires Contains(line, "+++tabs+++")
    ensures TrimLine(line, ["+++tabs+++"]) == ""
  {
    TabsItemCommand();
    if '\t' in line {
      TabsItemDrops(line, ["+++tabs+++"], 0);
    } else {
      LiteralItemDrops(line, ["+++tabs+++"], 0);
    }
  }

  /** A bare `+++word+++` item deletes the empty word: it lets every line
      through collapsed, and shields it from every later item. */
  lemma BareWordItemCollapses(line: string, later: seq<string>)
    ensures TrimLine(line, ["+++word+++"] + later) == Collapse(line)
  {
    BareWordItemCommand();
    ContainsEmpty(line);
    RemoveEmptyIsIdentity(line);
    WordItemReplaces(line, ["+++word+++"] + later, 0);
  }

  // ---------------------------------------------------------------------------
  // trim

  /** `trim`: every line through `TrimLine`, the trimmed-away ones dropped. */
  function Trim(lines: seq<string>, items: seq<string>): (r: seq<string>)
    ensures |r| <= |lines|
    ensures forall k :: 0 <= k < |r| ==> r[k] != "" && Normalized(r[k])
    decreases |lines|
  {
    if |lines| == 0 then []
    else
      var t := TrimLine(lines[0], items);
      (if t == "" then [] else [t]) + Trim(lines[1..], items)
  }

  /** The `TrimLine` image of every line, in order. */
  function Images(lines: seq<string>, items: seq<string>): seq<string> {
    seq(|lines|, k requires 0 <= k < |lines| => TrimLine(lines[k], items))
  }

  /** The non-empty elements of `xs`, in order. */
  function DropEmpty(xs: seq<string>): (r: seq<string>)
    ensures |r| <= |xs|
    ensures forall x :: x in r <==> x in xs && x != ""
    decreases |xs|
  {
    if |xs| == 0 then []
    else (if xs[0] == "" then [] else [xs[0]]) + DropEmpty(xs[1..])
  }

  /** `trim` is a map of `trim_line` followed by a filter of the empty
      results. */
  lemma {:induction false} TrimIsFilterOfImages(lines: seq<string>, items: seq<string>)
    ensures Trim(lines, items) == DropEmpty(Images(lines, items))
    decreases |lines|
  {
    if |lines| > 0 {
      TrimIsFilterOfImages(lines[1..], items);
      assert Images(lines, items)[1..] == Images(lines[1..], items);
    }
  }

  /** The images of a concatenation are the images of each half. */
  lemma ImagesAppend(a: seq<string>, b: seq<string>, items: seq<string>)
    ensures Images(a + b, items) == Images(a, items) + Images(b, items)
  {
    var l, ia, ib := Images(a + b, items), Images(a, items), Images(b, items);
    assert l[..|a|] == ia by {
      forall k | 0 <= k < |a| ensures l[k] == ia[k] {
        assert (a + b)[k] == a[k];
      }
    }
    assert l[|a|..] == ib by {
      forall k | 0 <= k < |b| ensures l[|a| + k] == ib[k] {
        assert (a + b)[|a| + k] == b[k];
      }
    }
    assert l == l[..|a|] + l[|a|..];
  }

  /** Filtering a concatenation filters each half. */
  lemma {:induction false} DropEmptyAppend(xs: seq<string>, ys: seq<string>)
    ensures DropEmpty(xs + ys) == DropEmpty(xs) + DropEmpty(ys)
    decreases |xs|
  {
    if |xs| > 0 {
      DropEmptyAppend(xs[1..], ys);
      assert (xs + ys)[0] == xs[0];
      assert (xs + ys)[1..] == xs[1..] + ys;
    } else {
      assert xs + ys == ys;
    }
  }

  /** Trimming a concatenation trims each half. */
  lemma TrimAppend(a: seq<string>, b: seq<string>, items: seq<string>)
    ensures Trim(a + b, items) == Trim(a, items) + Trim(b, items)
  {
    TrimIsFilterOfImages(a + b, items);
    TrimIsFilterOfImages(a, items);
    TrimIsFilterOfImages(b, items);
    ImagesAppend(a, b, items);
    DropEmptyAppend(Images(a, items), Images(b, items));
  }

  /** Items that can only drop lines: no `word` command and no whitespace. */
  predicate DropOnly(items: seq<string>) {
    forall k :: 0 <= k < |items| ==>
      IsTrimCommand(items[k]) != WordCommand &&
      forall i :: 0 <= i < |items[k]| ==> !IsSpace(items[k][i])
  }

  /** Under drop-only items a line survives only untouched and collapsed. */
  lemma {:induction false} TrimLineDropOnly(line: string, items: seq<string>)
    requires DropOnly(items)
    ensures TrimLine(line, items) != "" ==>
      TrimLine(line, items) == Collapse(line) && PassesBefore(line, items, |items|)
    decreases |items|
  {
    if |items| > 0 && ApplyItem(line, items[0]).Pass? {
      assert DropOnly(items[1..]) by {
        forall k | 0 <= k < |items| - 1 ensures items[1..][k] == items[k + 1] { }
      }
      TrimLineDropOnly(line, items[1..]);
      forall j | 1 <= j < |items| ensures items[j] == items[1..][j - 1] { }
    }
  }

  /** A whitespace-free, non-`word` item that lets a line pass also lets the
      collapsed line pass. */
  lemma CollapsedLinePasses(line: string, item: string)
    requires IsTrimCommand(item) != WordCommand
    requires forall i :: 0 <= i < |item| ==> !IsSpace(item[i])
    requires ApplyItem(line, item).Pass?
    ensures ApplyItem(Collapse(line), item).Pass?
  {
    ContainsEmpty(line);
    assert IsWord(item);
    ContainsCollapse(line, item);
  }

  /** Under drop-only items a surviving line is left as it is by a second
      trim. */
  lemma TrimLineStable(line: string, items: seq<string>)
    requires DropOnly(items)
    ensures TrimLine(line, items) != "" ==> TrimLine(TrimLine(line, items), items) == TrimLine(line, items)
  {
    TrimLineDropOnly(line, items);
    if TrimLine(line, items) != "" {
      var c := Collapse(line);
      forall k | 0 <= k < |items| ensures ApplyItem(c, items[k]).Pass? {
        CollapsedLinePasses(line, items[k]);
      }
      TrimLineNoMatch(c, items);
      CollapseIdempotent(line);
    }
  }

  /** Re-running `trim` on its own output with drop-only items changes
      nothing. */
  lemma {:induction false} TrimIdempotent(lines: seq<string>, items: seq<string>)
    requires DropOnly(items)
    ensures Trim(Trim(lines, items), items) == Trim(lines, items)
    decreases |lines|
  {
    if |lines| > 0 {
      var t := TrimLine(lines[0], items);
      var head := if t == "" then [] else [t];
      TrimIdempotent(lines[1..], items);
      TrimAppend(head, Trim(lines[1..], items), items);
      if t != "" {
        TrimLineStable(lines[0], items);
        assert Trim(head, items) == head by {
          assert head[1..] == [];
        }
      }
    }
  }

  /** An item holding whitespace breaks idempotence: collapsing can make it
      match on the second run. */
  lemma SpacedItemNotIdempotent()
    ensures Trim(["a  b"], ["a b"]) == ["a b"]
    ensures Trim(["a b"], ["a b"]) == []
  {
    var item := "a b";
    var line := "a  b";
    forall p, q ensures !(MarkerAt(item, p) && MarkerAt(item, q)) {
      MarkerChars(item, p);
    }
    NoMarkerPairIsLiteral(item);
    forall j ensures !OccursAt(line, item, j) {
      if j == 0 {
        OccursAtChar(line, item, 0, 2);
        assert line[2] == ' ';
      } else if j == 1 {
        OccursAtChar(line, item, 1, 1);
        assert line[1] == ' ';
      }
    }
    assert !Contains(line, item);
    assert WordLength(line) == 1;
    assert line[1..] == "  b" && line[..1] == "a";
    assert Words(line) == ["a"] + Words("  b");
    assert "  b"[1..] == " b" && " b"[1..] == "b";
    assert WordLength("b") == 1;
    assert "b"[..1] == "b" && "b"[1..] == "";
    assert Words("b") == ["b"] + Words("");
    assert Words(line) == ["a", "b"];
    assert Collapse(line) == item;
    assert '\t' !in line;
    assert ApplyItem(line, item).Pass?;
    TrimLineNoMatch(line, [item]);
    assert item[0..3] == item;
    ContainsWitness(item, item, 0);
  }

  // ---------------------------------------------------------------------------
  // connect_sentences

  /** The sentence boundary `connect_sentences` splits on. */
  const SentenceBreak: string := ". "

  predicate EndsWithPeriod(s: string) {
    |s| > 0 && s[|s| - 1] == '.'
  }

  /** `[x + "." for x in pieces]`. */
  function AppendPeriods(pieces: seq<string>): seq<string> {
    seq(|pieces|, k requires 0 <= k < |pieces| => pieces[k] + ".")
  }

  /** Space-joining the pieces with their periods back puts every sentence
      break back, plus a final period. */
  lemma {:induction false} JoinAppendPeriods(pieces: seq<string>)
    requires |pieces| > 0
    ensures Join(" ", AppendPeriods(pieces)) == Join(SentenceBreak, pieces) + "."
    decreases |pieces|
  {
    var d := AppendPeriods(pieces);
    if |pieces| > 1 {
      JoinAppendPeriods(pieces[1..]);
      assert d[1..] == AppendPeriods(pieces[1..]);
      calc {
        Join(" ", d);
        { JoinCons(" ", d[0], d[1..]); assert d == [d[0]] + d[1..]; }
        d[0] + " " + Join(" ", d[1..]);
        pieces[0] + "." + " " + (Join(SentenceBreak, pieces[1..]) + ".");
        { assert "." + " " == SentenceBreak; }
        pieces[0] + SentenceBreak + Join(SentenceBreak, pieces[1..]) + ".";
        { JoinCons(SentenceBreak, pieces[0], pieces[1..]); assert pieces == [pieces[0]] + pieces[1..]; }
        Join(SentenceBreak, pieces) + ".";
      }
    }
  }

  /** Appending a period cannot create a sentence break. */
  lemma AppendPeriodAvoidsBreak(p: string)
    ensures !Contains(p, SentenceBreak) ==> !Contains(p + ".", SentenceBreak)
  {
    if !Contains(p, SentenceBreak) {
      var x := p + ".";
      forall i ensures !OccursAt(x, SentenceBreak, i) {
        if 0 <= i && i + 2 <= |p| {
          assert x[i..i + 2] == p[i..i + 2];
          assert !OccursAt(p, SentenceBreak, i);
        } else {
          OccursAtChar(x, SentenceBreak, i, i + 1);
        }
      }
    }
  }

  lemma PeriodsAvoidBreak(pieces: seq<string>)
    requires forall k :: 0 <= k < |pieces| ==> !Contains(pieces[k], SentenceBreak)
    ensures forall k :: 0 <= k < |pieces| ==> !Contains(AppendPeriods(pieces)[k], SentenceBreak)
  {
    forall k | 0 <= k < |pieces| ensures !Contains(AppendPeriods(pieces)[k], SentenceBreak) {
      AppendPeriodAvoidsBreak(pieces[k]);
    }
  }

  /** The sentence units of `connect_sentences` before the last one is
      fixed: the space-joined text split at every ". ", each unit given its
      period back. */
  function Sentences(text: seq<string>): (r: seq<string>)
    ensures |r| >= 1
    ensures Join(" ", r) == Join(" ", text) + "."
    ensures forall k :: 0 <= k < |r| ==> EndsWithPeriod(r[k]) && !Contains(r[k], SentenceBreak)
  {
    var pieces := Split(Join(" ", text), SentenceBreak);
    SplitRoundTrip(Join(" ", text), SentenceBreak);
    SplitPiecesAvoidSep(Join(" ", text), SentenceBreak);
    JoinAppendPeriods(pieces);
    PeriodsAvoidBreak(pieces);
    AppendPeriods(pieces)
  }

  /** `replace("..", ".")` keeps a final period. */
  lemma {:induction false} DoubleDotKeepsEnd(x: string)
    ensures EndsWithPeriod(x) ==> EndsWithPeriod(ReplaceAll(x, "..", "."))
    decreases |x|
  {
    if EndsWithPeriod(x) {
      if OccursAt(x, "..", 0) {
        var t := x[2..];
        DoubleDotKeepsEnd(t);
        if |t| > 0 {
          assert t[|t| - 1] == x[|x| - 1];
        }
      } else {
        var t := x[1..];
        DoubleDotKeepsEnd(t);
        assert ReplaceAll(x, "..", ".") == [x[0]] + ReplaceAll(t, "..", ".");
        if |t| > 0 {
          assert t[|t| - 1] == x[|x| - 1];
        }
      }
    }
  }

  /** `replace("..", ".")` starts with a space only when the text did. */
  lemma DoubleDotKeepsHead(x: string)
    ensures var y := ReplaceAll(x, "..", "."); |y| > 0 && y[0] == ' ' ==> |x| > 0 && x[0] == ' '
  {
    if |x| > 0 && !OccursAt(x, "..", 0) {
      assert ReplaceAll(x, "..", ".") == [x[0]] + ReplaceAll(x[1..], "..", ".");
    }
  }

  /** `replace("..", ".")` creates no sentence break. */
  lemma {:induction false} DoubleDotAvoidsBreak(x: string)
    ensures !Contains(x, SentenceBreak) ==> !Contains(ReplaceAll(x, "..", "."), SentenceBreak)
    decreases |x|
  {
    var y := ReplaceAll(x, "..", ".");
    if !Contains(x, SentenceBreak) && |x| > 0 {
      if OccursAt(x, "..", 0) {
        var t := x[2..];
        var yt := ReplaceAll(t, "..", ".");
        DoubleDotAvoidsBreak(t);
        DoubleDotKeepsHead(t);
        assert y == ['.'] + yt;
        if Contains(t, SentenceBreak) { ContainsSuffix(x, 2, SentenceBreak); }
        ContainsCons('.', yt, SentenceBreak);
        OccursAtChar(y, SentenceBreak, 0, 1);
        if |t| > 0 { assert x[2] == t[0]; }
        OccursAtPair(x, SentenceBreak, 1);
      } else {
        var t := x[1..];
        var yt := ReplaceAll(t, "..", ".");
        DoubleDotAvoidsBreak(t);
        DoubleDotKeepsHead(t);
        assert y == [x[0]] + yt;
        if Contains(t, SentenceBreak) { ContainsSuffix(x, 1, SentenceBreak); }
        ContainsCons(x[0], yt, SentenceBreak);
        OccursAtChar(y, SentenceBreak, 0, 0);
        OccursAtChar(y, SentenceBreak, 0, 1);
        if |t| > 0 { assert x[1] == t[0]; }
        OccursAtPair(x, SentenceBreak, 0);
      }
    }
  }

  /** `connect_sentences`: the sentence units with every ".." in the last
      one replaced by ".". */
  function ConnectSentences(text: seq<string>): (r: seq<string>)
    ensures |r| == |Sentences(text)|
    ensures forall k :: 0 <= k < |r| - 1 ==> r[k] == Sentences(text)[k]
    ensures forall k :: 0 <= k < |r| ==> EndsWithPeriod(r[k]) && !Contains(r[k], SentenceBreak)
    ensures r[|r| - 1] == Join(".", Split(Sentences(text)[|r| - 1], ".."))
  {
    var units := Sentences(text);
    var last := |units| - 1;
    DoubleDotKeepsEnd(units[last]);
    DoubleDotAvoidsBreak(units[last]);
    ReplaceAllIsJoinOfSplit(units[last], "..", ".");
    units[last := ReplaceAll(units[last], "..", ".")]
  }

  /** Reconnecting an empty text gives a lone period. */
  lemma ConnectEmptyText()
    ensures ConnectSentences([]) == ["."]
  {
    assert Join(" ", []) == "";
    assert Find("", SentenceBreak).None?;
    assert Split("", SentenceBreak) == [""];
    assert "" + "." == ".";
    assert Sentences([]) == ["."];
    assert ReplaceAll("", "..", ".") == "";
    assert "."[1..] == "";
    assert ReplaceAll(".", "..", ".") == ".";
  }

  /** The replacement of ".." reaches past the period it was meant for: an
      ellipsis ending the text loses a dot ("Well..." becomes "Well.."). */
  lemma EllipsisAtEndLosesDot(w: string)
    requires '.' !in w
    ensures ConnectSentences([w + "..."]) == [w + ".."]
  {
    EllipsisSentences(w);
    DoubleDotsAfterWord(w);
    assert w + "..." + "." == w + "....";
  }

  lemma EllipsisSentences(w: string)
    requires '.' !in w
    ensures Sentences([w + "..."]) == [w + "...."]
  {
    var s := w + "...";
    assert Join(" ", [s]) == s;
    forall j ensures !OccursAt(s, SentenceBreak, j) {
      if 0 <= j && j + 1 < |w| {
        assert s[j] == w[j];
        OccursAtChar(s, SentenceBreak, j, j);
      } else if 0 <= j && j + 2 <= |s| {
        assert s[j + 1] == '.';
        OccursAtChar(s, SentenceBreak, j, j + 1);
      }
    }
    assert Split(s, SentenceBreak) == [s];
    assert s + "." == w + "....";
  }

  /** The replacement of ".." also shortens an ellipsis inside the last
      unit: "a...b" comes back as "a..b.". */
  lemma InnerEllipsisShortened(a: string, b: string)
    requires '.' !in a && '.' !in b && |b| > 0 && b[0] != ' '
    ensures ConnectSentences([a + "..." + b]) == [a + ".." + b + "."]
  {
    InnerEllipsisSentences(a, b);
    InnerEllipsisLastUnit(a, b);
  }

  lemma InnerEllipsisLastUnit(a: string, b: string)
    requires '.' !in a && '.' !in b && |b| > 0
    ensures ReplaceAll(a + "..." + b + ".", "..", ".") == a + ".." + b + "."
  {
    var v := "..." + b + ".";
    Regroup(a, "...", b, ".");
    DoubleDotAfterDotFree(a, v);
    EllipsisBeforeWord(b);
    Regroup(a, "..", b, ".");
  }

  /** "..." before a dot-free word and a final period becomes "..". */
  lemma EllipsisBeforeWord(b: string)
    requires '.' !in b && |b| > 0
    ensures ReplaceAll("..." + b + ".", "..", ".") == ".." + b + "."
  {
    var d, dd := ".", "..";
    var u := d + b + d;
    assert "..." == dd + d && dd == d + d;
    assert "..." + b + "." == dd + u;
    DoubleDotAtFront(u);
    assert u[0] == '.' && u[1] == b[0] && b[0] != '.';
    OccursAtChar(u, "..", 0, 1);
    ReplaceAllPastChar(u, "..", ".");
    assert u[1..] == b + ".";
    DoubleDotAfterDotFree(b, ".");
    assert "."[1..] == "";
    assert ReplaceAll(".", "..", ".") == ".";
    Regroup(d, d, b, d);
  }

  /** The groupings of a four-part concatenation that the proofs above need. */
  lemma Regroup(p: string, q: string, r: string, s: string)
    ensures p + (q + (r + s)) == p + q + r + s
    ensures p + (q + r + s) == p + q + r + s
    ensures p + (q + r) + s == p + q + r + s
    ensures p + q + (r + s) == p + q + r + s
  {
  }

  lemma InnerEllipsisSentences(a: string, b: string)
    requires '.' !in a && '.' !in b && |b| > 0 && b[0] != ' '
    ensures Sentences([a + "..." + b]) == [a + "..." + b + "."]
  {
    var s := a + "..." + b;
    assert Join(" ", [s]) == s;
    forall j ensures !OccursAt(s, SentenceBreak, j) {
      if 0 <= j < |a| {
        assert s[j] == a[j];
        OccursAtChar(s, SentenceBreak, j, j);
      } else if |a| <= j < |a| + 2 {
        assert s[j + 1] == '.';
        OccursAtChar(s, SentenceBreak, j, j + 1);
      } else if j == |a| + 2 && j + 1 < |s| {
        assert s[j + 1] == b[0];
        OccursAtChar(s, SentenceBreak, j, j + 1);
      } else if |a| + 3 <= j < |s| {
        assert s[j] == b[j - |a| - 3];
        OccursAtChar(s, SentenceBreak, j, j);
      }
    }
    assert Split(s, SentenceBreak) == [s];
  }

  /** Dot-free text ahead of the rest passes through `replace("..", ".")`
      unchanged. */
  lemma {:induction false} DoubleDotAfterDotFree(w: string, t: string)
    requires '.' !in w
    ensures ReplaceAll(w + t, "..", ".") == w + ReplaceAll(t, "..", ".")
    decreases |w|
  {
    if |w| == 0 {
      assert w + t == t;
    } else {
      var u, rt := w[1..], ReplaceAll(t, "..", ".");
      DoubleDotStep(w, t);
      DoubleDotAfterDotFree(u, t);
      assert [w[0]] + (u + rt) == ([w[0]] + u) + rt;
      assert [w[0]] + u == w;
    }
  }

  lemma DoubleDotStep(w: string, t: string)
    requires |w| > 0 && w[0] != '.'
    ensures ReplaceAll(w + t, "..", ".") == [w[0]] + ReplaceAll(w[1..] + t, "..", ".")
  {
    var x := w + t;
    assert x[0] == w[0] && x[1..] == w[1..] + t;
    OccursAtChar(x, "..", 0, 0);
    ReplaceAllPastChar(x, "..", ".");
  }

  /** A leading ".." becomes ".". */
  lemma DoubleDotAtFront(t: string)
    ensures ReplaceAll(".." + t, "..", ".") == "." + ReplaceAll(t, "..", ".")
  {
    var x := ".." + t;
    assert x[0..2] == "..";
    assert x[2..] == t;
  }

  /** Four dots after a dot-free word become two. */
  lemma {:induction false} DoubleDotsAfterWord(w: string)
    requires '.' !in w
    ensures ReplaceAll(w + "....", "..", ".") == w + ".."
    decreases |w|
  {
    if |w| == 0 {
      assert w + "...." == ".." + "..";
      DoubleDotAtFront("..");
      assert ".." == ".." + "";
      DoubleDotAtFront("");
    } else {
      var x := w + "....";
      assert x[0] == w[0] && x[0] != '.';
      OccursAtChar(x, "..", 0, 0);
      assert x[1..] == w[1..] + "....";
      DoubleDotsAfterWord(w[1..]);
      assert w == [w[0]] + w[1..];
    }
  }

  /** The last sentence unit as evidently intended: a period is added only
      when it lacks one. */
  function FinalSentence(p: string): (t: string)
    ensures EndsWithPeriod(t)
    ensures !Contains(p, SentenceBreak) ==> !Contains(t, SentenceBreak)
    ensures EndsWithPeriod(p) ==> t == p
    ensures !EndsWithPeriod(p) ==> t == p + "."
  {
    AppendPeriodAvoidsBreak(p);
    if EndsWithPeriod(p) then p else p + "."
  }

  /** The reconnection `connect_sentences` is evidently meant to perform:
      only the last unit is treated differently, getting a period only when
      it lacks one, so the space-joined result is the input text with a
      period added exactly when it did not already end in one. */
  function ConnectSentencesIntended(text: seq<string>): (r: seq<string>)
    ensures |r| >= 1
    ensures forall k :: 0 <= k < |r| ==> EndsWithPeriod(r[k]) && !Contains(r[k], SentenceBreak)
    ensures Join(" ", r) == Join(" ", text) + (if EndsWithPeriod(Join(" ", text)) then "" else ".")
  {
    var whole := Join(" ", text);
    var pieces := Split(whole, SentenceBreak);
    var last := |pieces| - 1;
    SplitRoundTrip(whole, SentenceBreak);
    SplitPiecesAvoidSep(whole, SentenceBreak);
    assert pieces == pieces[..last] + [pieces[last]];
    IntendedUnits(pieces[..last], pieces[last]);
    IntendedJoin(pieces[..last], pieces[last]);
    AppendPeriods(pieces[..last]) + [FinalSentence(pieces[last])]
  }

  lemma IntendedUnits(init: seq<string>, p: string)
    requires forall k :: 0 <= k < |init + [p]| ==> !Contains((init + [p])[k], SentenceBreak)
    ensures var r := AppendPeriods(init) + [FinalSentence(p)];
      forall k :: 0 <= k < |r| ==> EndsWithPeriod(r[k]) && !Contains(r[k], SentenceBreak)
  {
    var d := AppendPeriods(init);
    var r := d + [FinalSentence(p)];
    assert !Contains(p, SentenceBreak) by {
      assert (init + [p])[|init|] == p;
    }
    forall k | 0 <= k < |init| ensures !Contains(init[k], SentenceBreak) {
      assert (init + [p])[k] == init[k];
    }
    PeriodsAvoidBreak(init);
    forall k | 0 <= k < |r| ensures EndsWithPeriod(r[k]) && !Contains(r[k], SentenceBreak) {
      if k < |init| {
        assert r[k] == d[k];
      }
    }
  }

  lemma IntendedJoin(init: seq<string>, p: string)
    ensures var whole := Join(SentenceBreak, init + [p]);
      Join(" ", AppendPeriods(init) + [FinalSentence(p)]) ==
        whole + (if EndsWithPeriod(whole) then "" else ".")
  {
    if |init| == 0 {
      assert init + [p] == [p];
      assert AppendPeriods(init) + [FinalSentence(p)] == [FinalSentence(p)];
    } else {
      IntendedJoinLong(init, p);
    }
  }

  lemma IntendedJoinLong(init: seq<string>, p: string)
    requires |init| > 0
    ensures var whole := Join(SentenceBreak, init + [p]);
      Join(" ", AppendPeriods(init) + [FinalSentence(p)]) ==
        whole + (if EndsWithPeriod(whole) then "" else ".")
  {
    var tail := FinalSentence(p);
    var front := Join(SentenceBreak, init) + SentenceBreak;
    SpaceJoinPeriodsSnoc(init, tail);
    JoinSnoc(SentenceBreak, init, p);
    EndsWithPeriodAfterBreak(front, p);
    if !EndsWithPeriod(p) {
      Regroup(Join(SentenceBreak, init), SentenceBreak, p, ".");
    }
  }

  /** Space-joining the period-terminated pieces and one more unit puts a
      sentence break before that unit. */
  lemma SpaceJoinPeriodsSnoc(init: seq<string>, tail: string)
    requires |init| > 0
    ensures Join(" ", AppendPeriods(init) + [tail]) == Join(SentenceBreak, init) + SentenceBreak + tail
  {
    var d := AppendPeriods(init);
    JoinSnoc(" ", d, tail);
    JoinAppendPeriods(init);
    assert "." + " " == SentenceBreak;
    Regroup(Join(SentenceBreak, init), ".", " ", tail);
  }

  /** Behind a sentence break, a text ends with a period exactly when its
      last piece does. */
  lemma EndsWithPeriodAfterBreak(front: string, p: string)
    requires |front| > 0 && front[|front| - 1] == ' '
    ensures EndsWithPeriod(front + p) <==> EndsWithPeriod(p)
  {
    var whole := front + p;
    if |p| > 0 {
      assert whole[|whole| - 1] == p[|p| - 1];
    } else {
      assert whole == front;
    }
  }

  /** When the last unit holds no "..", the written and the intended
      reconnection agree. */
  lemma ConnectSentencesAgree(text: seq<string>)
    requires var pieces := Split(Join(" ", text), SentenceBreak);
      !Contains(pieces[|pieces| - 1], "..")
    ensures ConnectSentences(text) == ConnectSentencesIntended(text)
  {
    var pieces := Split(Join(" ", text), SentenceBreak);
    var last := |pieces| - 1;
    assert Sentences(text) == AppendPeriods(pieces);
    assert AppendPeriods(pieces)[..last] == AppendPeriods(pieces[..last]);
    LastUnitFix(pieces[last]);
  }

  /** On a last piece without "..", the written fix of the last unit gives
      the intended last unit. */
  lemma LastUnitFix(p: string)
    ensures !Contains(p, "..") ==> ReplaceAll(p + ".", "..", ".") == FinalSentence(p)
  {
    if !Contains(p, "..") {
      if EndsWithPeriod(p) {
        var q := p[..|p| - 1];
        assert p == q + ".";
        assert q + "." + "." == q + "..";
        ReplaceDoubleDotAtEnd(q);
      } else {
        AppendPeriodNoDoubleDot(p);
        ReplaceAllWithoutMatch(p + ".", "..", ".");
      }
    }
  }

  /** Replacing ".." in a text whose only ".." is the final one removes
      exactly one period. */
  lemma {:induction false} ReplaceDoubleDotAtEnd(q: string)
    ensures !Contains(q + ".", "..") ==> ReplaceAll(q + "..", "..", ".") == q + "."
    decreases |q|
  {
    if !Contains(q + ".", "..") {
      if |q| == 0 {
        assert "" + ".." == "..";
        assert OccursAt("..", "..", 0);
        assert ".."[2..] == "";
      } else {
        var x := q + "..";
        var t := q[1..];
        OccursAtPair(q + ".", "..", 0);
        assert (q + ".")[0] == q[0] && x[0] == q[0];
        if |q| > 1 {
          assert (q + ".")[1] == q[1] && x[1] == q[1];
        } else {
          assert (q + ".")[1] == '.' && x[1] == '.';
        }
        assert !OccursAt(x, "..", 0);
        assert x[1..] == t + "..";
        if Contains(t + ".", "..") {
          assert (q + ".")[1..] == t + ".";
          ContainsSuffix(q + ".", 1, "..");
        }
        ReplaceDoubleDotAtEnd(t);
        assert q == [q[0]] + t;
      }
    }
  }

  /** Appending a period to a text without ".." that does not end in a
      period creates no "..". */
  lemma AppendPeriodNoDoubleDot(p: string)
    ensures !Contains(p, "..") && !EndsWithPeriod(p) ==> !Contains(p + ".", "..")
  {
    if !Contains(p, "..") && !EndsWithPeriod(p) {
      var x := p + ".";
      forall i ensures !OccursAt(x, "..", i) {
        if 0 <= i && i + 2 <= |p| {
          assert x[i..i + 2] == p[i..i + 2];
          assert !OccursAt(p, "..", i);
        } else {
          OccursAtChar(x, "..", i, i);
        }
      }
    }
  }

  // ---------------------------------------------------------------------------
  // read, read_and_trim

  /** The document formats `read` dispatches to. */
  datatype Format = Presentation | Pdf | WordProcessor

  datatype ReadResult = Extracted(format: Format) | UnknownFormat(message: string)

  /** The text `read` returns for a path it cannot place. */
  const UnknownFormatMessage: string :=
    "Unknown format. Known formats are ['.pdf','.pptx', '.docx', '.doc']"

  /** A path holding ".docx" also holds ".doc". */
  lemma DocxContainsDoc(path: string)
    ensures Contains(path, ".docx") ==> Contains(path, ".doc")
  {
    if Contains(path, ".docx") {
      var i :| 0 <= i <= |path| - 5 && OccursAt(path, ".docx", i);
      assert path[i..i + 4] == path[i..i + 5][..4];
      ContainsWitness(path, ".doc", i);
    }
  }

  /** `read`: the format is chosen by substring tests on the whole path, in
      the order ".pptx", ".pdf", ".docx"/".doc"; the ".docx" test adds
      nothing to the ".doc" one. */
  function Read(path: string): (r: ReadResult)
    ensures r == Extracted(Presentation) <==> Contains(path, ".pptx")
    ensures r == Extracted(Pdf) <==> !Contains(path, ".pptx") && Contains(path, ".pdf")
    ensures r == Extracted(WordProcessor) <==>
      !Contains(path, ".pptx") && !Contains(path, ".pdf") && Contains(path, ".doc")
    ensures r.UnknownFormat? ==> r.message == UnknownFormatMessage
  {
    DocxContainsDoc(path);
    if Contains(path, ".pptx") then Extracted(Presentation)
    else if Contains(path, ".pdf") then Extracted(Pdf)
    else if Contains(path, ".docx") || Contains(path, ".doc") then Extracted(WordProcessor)
    else UnknownFormat(UnknownFormatMessage)
  }

  /** `read_and_trim` once the reader has produced `lines`: trim, then
      reconnect sentences when the path mentions ".pdf". */
  function ReadAndTrim(path: string, lines: seq<string>, items: seq<string>): (r: seq<string>)
    ensures !Contains(path, ".pdf") ==> r == Trim(lines, items)
    ensures Contains(path, ".pdf") ==> r == ConnectSentences(Trim(lines, items))
    ensures Contains(path, ".pdf") ==>
      && |r| >= 1
      && (forall k :: 0 <= k < |r| ==> EndsWithPeriod(r[k]) && !Contains(r[k], SentenceBreak))
      && |r| == |Sentences(Trim(lines, items))|
      && (forall k :: 0 <= k < |r| - 1 ==> r[k] == Sentences(Trim(lines, items))[k])
    ensures !Contains(path, ".pdf") ==>
      && |r| <= |lines|
      && forall k :: 0 <= k < |r| ==> r[k] != "" && Normalized(r[k])
  {
    var text := Trim(lines, items);
    if Contains(path, ".pdf") then ConnectSentences(text) else text
  }

  /** Reconnection follows the path, not the format read: a ".pdf.pptx"
      path is read as a presentation and still reconnected. */
  lemma ReconnectionFollowsPath(lines: seq<string>, items: seq<string>)
    ensures Read("talk.pdf.pptx") == Extracted(Presentation)
    ensures ReadAndTrim("talk.pdf.pptx", lines, items) == ConnectSentences(Trim(lines, items))
  {
    var path := "talk.pdf.pptx";
    assert path[8..13] == ".pptx";
    ContainsWitness(path, ".pptx", 8);
    assert path[4..8] == ".pdf";
    ContainsWitness(path, ".pdf", 4);
  }

  /** A PDF whose every line is trimmed away still yields one period. */
  lemma EmptyPdfGivesPeriod(path: string, lines: seq<string>, items: seq<string>)
    requires Contains(path, ".pdf") && Trim(lines, items) == []
    ensures ReadAndTrim(path, lines, items) == ["."]
  {
    ConnectEmptyText();
  }

  // ---------------------------------------------------------------------------
  // to_txt_path, save

  /** Splitting at every '.' and joining back with the last field replaced
      keeps everything up to the last '.'. */
  lemma ReplaceLastField(path: string)
    ensures var fields := Split(path, ".");
      Join(".", fields[..|fields| - 1] + ["txt"]) ==
        match LastIndexOf(path, '.')
        case None => "txt"
        case Some(k) => path[..k + 1] + "txt"
  {
    if |Split(path, ".")| == 1 {
      OneFieldReplaced(path);
    } else {
      FieldsReplaced(path);
    }
  }

  /** A path that is a single field is replaced whole. */
  lemma OneFieldReplaced(path: string)
    requires |Split(path, ".")| == 1
    ensures LastIndexOf(path, '.') == None
    ensures Join(".", Split(path, ".")[..0] + ["txt"]) == "txt"
  {
    var fields := Split(path, ".");
    LastFieldDotFree(path);
    assert path == fields[0];
    assert fields[..0] + ["txt"] == ["txt"];
  }

  /** With several fields, the last is swapped for "txt" after the last '.'. */
  lemma FieldsReplaced(path: string)
    requires |Split(path, ".")| > 1
    ensures var fields := Split(path, ".");
      && LastIndexOf(path, '.').Some?
      && Join(".", fields[..|fields| - 1] + ["txt"]) == path[..LastIndexOf(path, '.').value + 1] + "txt"
  {
    var fields := Split(path, ".");
    LastFieldDotFree(path);
    var init, last := fields[..|fields| - 1], fields[|fields| - 1];
    assert fields == init + [last];
    JoinReplaceLast(init, last);
  }

  /** The last '.'-separated field holds no '.', and the fields join back
      to the path. */
  lemma LastFieldDotFree(path: string)
    ensures var fields := Split(path, ".");
      '.' !in fields[|fields| - 1] && Join(".", fields) == path
  {
    var fields := Split(path, ".");
    SplitRoundTrip(path, ".");
    SplitPiecesAvoidSep(path, ".");
    var last := fields[|fields| - 1];
    assert !Contains(last, ".");
    assert "." == ['.'];
    ContainsChar(last, '.');
  }

  /** Joining at '.' with a dot-free last field: the last '.' is the one
      before that field, and swapping the field for "txt" keeps the rest. */
  lemma JoinReplaceLast(init: seq<string>, last: string)
    requires |init| > 0 && '.' !in last
    ensures var path := Join(".", init + [last]);
      var k := |Join(".", init)|;
      && LastIndexOf(path, '.') == Some(k)
      && Join(".", init + ["txt"]) == path[..k + 1] + "txt"
  {
    JoinSnoc(".", init, last);
    JoinSnoc(".", init, "txt");
    var p := Join(".", init) + ".";
    var path := p + last;
    LastIndexAfterPrefix(p, last, '.');
    assert path[..|p|] == p;
  }

  /** `to_txt_path`: the last '.'-separated field becomes "txt". */
  function ToTxtPath(path: string): (r: string)
    ensures |r| >= 3 && r[|r| - 3..] == "txt"
    ensures match LastIndexOf(path, '.')
      case None => r == "txt"
      case Some(k) => r == path[..k + 1] + "txt"
  {
    var fields := Split(path, ".");
    ReplaceLastField(path);
    Join(".", fields[..|fields| - 1] + ["txt"])
  }

  /** Rewriting a rewritten path changes nothing. */
  lemma ToTxtPathIdempotent(path: string)
    ensures ToTxtPath(ToTxtPath(path)) == ToTxtPath(path)
  {
    assert '.' !in "txt";
    match LastIndexOf(path, '.')
    case None =>
      ToTxtPathWithoutDot("txt");
    case Some(k) =>
      var p := path[..k + 1];
      ToTxtPathAfterLastDot(path, k);
      LastIndexAfterPrefix(p, "txt", '.');
      ToTxtPathAfterLastDot(p + "txt", k);
      assert (p + "txt")[..k + 1] == p;
  }

  lemma ToTxtPathWithoutDot(path: string)
    requires '.' !in path
    ensures ToTxtPath(path) == "txt"
  {
  }

  lemma ToTxtPathAfterLastDot(path: string, k: nat)
    requires LastIndexOf(path, '.') == Some(k)
    ensures ToTxtPath(path) == path[..k + 1] + "txt"
  {
  }

  /** A path without any '.' is replaced wholesale: "notes" becomes "txt". */
  lemma ToTxtPathWithoutExtension()
    ensures ToTxtPath("notes") == "txt"
  {
    assert '.' !in "notes";
    ToTxtPathWithoutDot("notes");
  }

  /** When the final component has no '.', the rewrite cuts at the last '.'
      of a directory name instead: "out.d/text/README" becomes "out.txt". */
  lemma ToTxtPathCutsIntoDirectory(dir: string, rest: string)
    requires '.' !in rest
    ensures ToTxtPath(dir + "." + rest) == dir + ".txt"
  {
    LastIndexAfterPrefix(dir + ".", rest, '.');
    ToTxtPathAfterLastDot(dir + "." + rest, |dir|);
    assert (dir + "." + rest)[..|dir| + 1] == dir + ".";
  }

  /** The final component of `path` has no '.' except possibly as its
      first character, which marks a hidden file rather than an extension. */
  predicate NoExtension(path: string) {
    forall k :: 0 <= k < |path| && path[k] == '.' && !StartsComponent(path, k) ==>
      exists j :: k < j < |path| && path[j] == '/'
  }

  /** Position `k` is the first character of a path component. */
  predicate StartsComponent(path: string, k: nat)
    requires k < |path|
  {
    k == 0 || path[k - 1] == '/'
  }

  /** The index of the '.' that starts the extension of the final path
      component, if that component has one. As with `pathlib`'s suffix, a '.'
      that begins the component (".bashrc") starts no extension. */
  function FinalDot(path: string): (r: Option<nat>)
    ensures r.Some? ==> LastIndexOf(path, '.') == r && forall j :: r.value < j < |path| ==> path[j] != '/'
    ensures r.Some? ==> 0 < r.value && path[r.value - 1] != '/'
    ensures r.None? <==> NoExtension(path)
  {
    var last := LastIndexOf(path, '.');
    if last.None? then None
    else
      var k := last.value;
      assert forall i :: 0 <= i < |path| && path[i] == '.' ==> i <= k;
      if '/' in path[k..] then
        assert exists j :: k < j < |path| && path[j] == '/' by {
          var m :| 0 <= m < |path[k..]| && path[k..][m] == '/';
          assert path[k + m] == '/';
        }
        None
      else if k == 0 || path[k - 1] == '/' then
        assert forall i :: 0 <= i < k && path[i] == '.' ==> path[k - 1] == '/' && i < k - 1;
        None
      else
        assert forall j :: k < j < |path| ==> path[j] == path[k..][j - k];
        assert !NoExtension(path);
        Some(k)
  }

  /** What `to_txt_path` is documented to do ("makes a path end with .txt"):
      the extension of the final component becomes ".txt", or ".txt" is
      added when the component has none; the directories stay as they are. */
  function ToTxtPathIntended(path: string): (r: string)
    ensures |r| >= 4 && r[|r| - 4..] == ".txt"
    ensures match LastIndexOf(path, '/')
      case None => true
      case Some(s) => path[..s + 1] <= r
    ensures var b := r[..|r| - 4];
      b <= path && (b == path || (0 < |b| && path[|b| - 1] != '/' && path[|b|] == '.' && '/' !in path[|b|..] && '.' !in path[|b| + 1..]))
    ensures r[..|r| - 4] == path <==> NoExtension(path)
  {
    match FinalDot(path)
    case None =>
      assert (path + ".txt")[..|path|] == path;
      path + ".txt"
    case Some(k) =>
      CutAtFinalDot(path, k);
      assert (path[..k] + ".txt")[..k] == path[..k];
      path[..k] + ".txt"
  }

  /** Where `FinalDot` cuts: after every '/', and at a '.' followed by no
      '/' and no other '.'. */
  lemma CutAtFinalDot(path: string, k: nat)
    requires FinalDot(path) == Some(k)
    ensures LastIndexOf(path, '/').Some? ==> LastIndexOf(path, '/').value < k
    ensures k < |path| && path[k] == '.' && '/' !in path[k..] && '.' !in path[k + 1..]
  {
    assert forall j :: k <= j < |path| ==> path[k..][j - k] == path[j];
    assert forall j :: k + 1 <= j < |path| ==> path[k + 1..][j - k - 1] == path[j];
  }

  /** A hidden file keeps its whole name: "d/.b" becomes "d/.b.txt". */
  lemma ToTxtPathIntendedKeepsDotfile(dir: string, rest: string)
    requires '.' !in rest && '/' !in rest
    ensures ToTxtPathIntended(dir + "/." + rest) == dir + "/." + rest + ".txt"
  {
    var p := dir + "/.";
    LastIndexAfterPrefix(p, rest, '.');
    assert (p + rest)[|p| - 2] == '/';
    assert dir + "/." + rest == p + rest;
  }

  /** When the final component has an extension (a '.' after its first
      character), the written rewrite does what was intended. */
  lemma ToTxtPathAgreesOnExtension(path: string)
    ensures !NoExtension(path) ==> ToTxtPath(path) == ToTxtPathIntended(path)
  {
    if FinalDot(path).Some? {
      var k := FinalDot(path).value;
      var stem := path[..k];
      assert ToTxtPath(path) == path[..k + 1] + "txt";
      assert ToTxtPathIntended(path) == stem + ".txt";
      assert path[..k + 1] == stem + ".";
      assert stem + "." + "txt" == stem + ".txt";
    }
  }

  /** The text `save` writes: every line followed by a newline, which is the
      lines joined by newlines with one more newline at the end. */
  function SaveContent(lines: seq<string>): (r: string)
    ensures r == Join("\n", lines + [""])
    ensures |r| >= |lines|
    decreases |lines|
  {
    if |lines| == 0 then ""
    else
      var rest := SaveContent(lines[1..]);
      assert lines + [""] == [lines[0]] + (lines[1..] + [""]);
      JoinCons("\n", lines[0], lines[1..] + [""]);
      lines[0] + "\n" + rest
  }

  /** Reading the saved text back line by line gives the lines, then the
      empty piece after the final newline. */
  lemma SaveContentRoundTrip(lines: seq<string>)
    requires forall k :: 0 <= k < |lines| ==> '\n' !in lines[k]
    ensures Split(SaveContent(lines), "\n") == lines + [""]
  {
    var parts := lines + [""];
    forall k | 0 <= k < |parts| ensures "\n"[0] !in parts[k] {
      if k < |lines| { assert parts[k] == lines[k]; }
    }
    SplitJoin("\n", parts);
  }

}
