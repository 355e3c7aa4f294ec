/** Python's whitespace handling as the trimming code uses it:
    `line.split()` with no argument (split on runs of whitespace, dropping
    empty pieces) and the idiom `" ".join(line.split())`, which collapses
    every run of whitespace to one space and strips both ends. */
module Whitespace {
  import opened Text

  /** The characters for which CPython's `str.isspace()` holds; these are the
      separators of `str.split()` with no argument. */
  predicate IsSpace(c: char) {
    || '\t' <= c <= '\r'
    || '\U{1C}' <= c <= ' '
    || c == '\U{85}' || c == '\U{A0}' || c == '\U{1680}'
    || '\U{2000}' <= c <= '\U{200A}'
    || c == '\U{2028}' || c == '\U{2029}' || c == '\U{202F}'
    || c == '\U{205F}' || c == '\U{3000}'
  }

  /** A piece `str.split()` can produce: non-empty and free of whitespace. */
  predicate IsWord(w: string) {
    |w| > 0 && forall i :: 0 <= i < |w| ==> !IsSpace(w[i])
  }

  /** Every character of `s` is whitespace (vacuously so for ""). */
  predicate AllSpace(s: string) {
    forall i :: 0 <= i < |s| ==> IsSpace(s[i])
  }

  /** The text `" ".join(line.split())` can produce: only plain spaces as
      whitespace, none at either end, and never two in a row. */
  predicate Normalized(r: string) {
    && (forall i :: 0 <= i < |r| ==> r[i] == ' ' || !IsSpace(r[i]))
    && (|r| > 0 ==> r[0] != ' ' && r[|r| - 1] != ' ')
    && (forall i :: 0 <= i < |r| - 1 ==> r[i] != ' ' || r[i + 1] != ' ')
  }

  /** Length of the run of non-whitespace characters at the front of `s`. */
  function WordLength(s: string): (n: nat)
    ensures n <= |s|
    ensures forall i :: 0 <= i < n ==> !IsSpace(s[i])
    ensures n < |s| ==> IsSpace(s[n])
    decreases |s|
  {
    if |s| == 0 || IsSpace(s[0]) then 0 else 1 + WordLength(s[1..])
  }

  /** Python's `s.split()`: the maximal runs of non-whitespace, in order. */
  function Words(s: string): (ws: seq<string>)
    ensures forall k :: 0 <= k < |ws| ==> IsWord(ws[k])
    decreases |s|
  {
    if |s| == 0 then []
    else if IsSpace(s[0]) then Words(s[1..])
    else
      var n := WordLength(s);
      [s[..n]] + Words(s[n..])
  }

  /** Python's `" ".join(s.split())`. */
  function Collapse(s: string): (r: string)
    ensures Normalized(r)
    ensures |r| <= |s|
    ensures '\t' !in r
  {
    JoinWordsNormalized(Words(s));
    WordsJoinShrinks(s);
    Join(" ", Words(s))
  }

  /** Words joined by single spaces form normalized text, empty only when
      there are no words. */
  lemma {:induction false} JoinWordsNormalized(ws: seq<string>)
    requires forall k :: 0 <= k < |ws| ==> IsWord(ws[k])
    ensures Normalized(Join(" ", ws))
    ensures |ws| > 0 ==> |Join(" ", ws)| > 0
    decreases |ws|
  {
    if |ws| == 1 {
      assert Join(" ", ws) == ws[0];
    } else if |ws| > 1 {
      var w := ws[0];
      JoinWordsNormalized(ws[1..]);
      var j := Join(" ", ws[1..]);
      var r := w + " " + j;
      assert Join(" ", ws) == r;
      assert IsWord(w);
      forall i | 0 <= i < |r| ensures r[i] == ' ' || !IsSpace(r[i]) {
        if i < |w| { assert r[i] == w[i]; }
        else if i > |w| { assert r[i] == j[i - |w| - 1]; }
      }
      forall i | 0 <= i < |r| - 1 ensures r[i] != ' ' || r[i + 1] != ' ' {
        if i < |w| - 1 { assert r[i] == w[i] && r[i + 1] == w[i + 1]; }
        else if i == |w| - 1 { assert r[i] == w[i]; }
        else if i == |w| { assert r[i + 1] == j[0]; }
        else { assert r[i] == j[i - |w| - 1] && r[i + 1] == j[i - |w|]; }
      }
      assert r[0] == w[0];
      assert r[|r| - 1] == j[|j| - 1];
    }
  }

  /** Collapsing never lengthens: each word boundary in the result stands
      for at least one whitespace character in the input. */
  lemma {:induction false} WordsJoinShrinks(s: string)
    ensures |Join(" ", Words(s))| <= |s|
    ensures |Words(s)| > 0 ==> |Join(" ", Words(s))| > 0
    decreases |s|
  {
    if |s| == 0 {
    } else if IsSpace(s[0]) {
      WordsJoinShrinks(s[1..]);
    } else {
      var n := WordLength(s);
      var rest := Words(s[n..]);
      WordsJoinShrinks(s[n..]);
      if |rest| > 0 {
        assert n < |s|;
        assert IsSpace(s[n]);
        assert Words(s[n..]) == Words(s[n..][1..]);
        WordsJoinShrinks(s[n..][1..]);
        JoinCons(" ", s[..n], rest);
      }
    }
  }

  /** The word at the front of `w + rest` is `w` when `rest` begins with
      whitespace or is empty. */
  lemma {:induction false} WordLengthOfWord(w: string, rest: string)
    requires forall i :: 0 <= i < |w| ==> !IsSpace(w[i])
    requires |rest| == 0 || IsSpace(rest[0])
    ensures WordLength(w + rest) == |w|
    decreases |w|
  {
    if |w| > 0 {
      assert (w + rest)[1..] == w[1..] + rest;
      WordLengthOfWord(w[1..], rest);
    } else {
      assert w + rest == rest;
    }
  }

  /** Splitting space-joined words gives back the words. */
  lemma {:induction false} WordsOfJoin(ws: seq<string>)
    requires forall k :: 0 <= k < |ws| ==> IsWord(ws[k])
    ensures Words(Join(" ", ws)) == ws
    decreases |ws|
  {
    if |ws| == 0 {
    } else {
      var w := ws[0];
      assert IsWord(w);
      if |ws| == 1 {
        WordLengthOfWord(w, "");
        assert w + "" == w;
        assert Words(w) == [w[..|w|]] + Words(w[|w|..]);
        assert w[|w|..] == "";
      } else {
        var j := Join(" ", ws[1..]);
        var x := w + " " + j;
        assert Join(" ", ws) == x;
        WordLengthOfWord(w, " " + j);
        assert x == w + (" " + j);
        assert x[..|w|] == w;
        assert x[|w|..] == " " + j;
        assert Words(" " + j) == Words(j) by {
          assert (" " + j)[1..] == j;
        }
        WordsOfJoin(ws[1..]);
        assert ws == [w] + ws[1..];
      }
    }
  }

  /** A single word splits into itself. */
  lemma WordsOfWord(w: string)
    requires IsWord(w)
    ensures Words(w) == [w]
  {
    WordsOfJoin([w]);
    assert Join(" ", [w]) == w;
  }

  /** Whitespace in front of a text adds no word. */
  lemma {:induction false} WordsAfterSpace(u: string, b: string)
    requires AllSpace(u)
    ensures Words(u + b) == Words(b)
    decreases |u|
  {
    if |u| > 0 {
      assert IsSpace((u + b)[0]);
      assert (u + b)[1..] == u[1..] + b;
      WordsAfterSpace(u[1..], b);
    } else {
      assert u + b == b;
    }
  }

  /** All-whitespace text has no words. */
  lemma WordsOfSpace(u: string)
    requires AllSpace(u)
    ensures Words(u) == []
  {
    WordsAfterSpace(u, "");
    assert u + "" == u;
  }

  /** A non-empty run of whitespace separates words: the words on either
      side of it are the words of the whole, in order. */
  lemma {:induction false} WordsAcrossSpace(a: string, u: string, b: string)
    requires AllSpace(u) && |u| > 0
    ensures Words(a + u + b) == Words(a) + Words(b)
    decreases |a|
  {
    var x := a + u + b;
    if |a| == 0 {
      assert x == u + b;
      WordsAfterSpace(u, b);
    } else if IsSpace(a[0]) {
      assert x[1..] == a[1..] + u + b;
      WordsAcrossSpace(a[1..], u, b);
    } else {
      var n := WordLength(a);
      var rest := a[n..] + u + b;
      assert x == a[..n] + rest;
      assert IsSpace(rest[0]) by {
        if n < |a| { assert rest[0] == a[n]; } else { assert rest[0] == u[0]; }
      }
      WordsFrontWord(a[..n], rest);
      WordsAcrossSpace(a[n..], u, b);
    }
  }

  /** A word followed by whitespace (or by nothing) is the first word. */
  lemma WordsFrontWord(w: string, rest: string)
    requires IsWord(w)
    requires |rest| == 0 || IsSpace(rest[0])
    ensures Words(w + rest) == [w] + Words(rest)
  {
    var x := w + rest;
    WordLengthOfWord(w, rest);
    assert x[..|w|] == w && x[|w|..] == rest;
  }

  /** Collapsing keeps the words of the text, in order. */
  lemma CollapseKeepsWords(s: string)
    ensures Words(Collapse(s)) == Words(s)
  {
    WordsOfJoin(Words(s));
  }

  /** Collapsing is idempotent. */
  lemma CollapseIdempotent(s: string)
    ensures Collapse(Collapse(s)) == Collapse(s)
  {
    CollapseKeepsWords(s);
  }

  /** A line collapses to "" exactly when it is all whitespace. */
  lemma {:induction false} CollapseEmptyIff(s: string)
    ensures Collapse(s) == "" <==> AllSpace(s)
    decreases |s|
  {
    WordsJoinShrinks(s);
    if |s| > 0 {
      if IsSpace(s[0]) {
        CollapseEmptyIff(s[1..]);
        assert AllSpace(s) <==> AllSpace(s[1..]) by {
          if AllSpace(s[1..]) {
            forall i | 0 <= i < |s| ensures IsSpace(s[i]) {
              if i > 0 { assert s[i] == s[1..][i - 1]; }
            }
          }
        }
      } else {
        assert !AllSpace(s) by { assert !IsSpace(s[0]); }
        assert |Words(s)| > 0;
      }
    }
  }

  /** A whitespace-free pattern in `a + " " + b` lies inside `a` or inside `b`. */
  lemma ContainsAroundSpace(a: string, b: string, t: string)
    ensures IsWord(t) && Contains(a + " " + b, t) ==> Contains(a, t) || Contains(b, t)
  {
    var x := a + " " + b;
    if IsWord(t) && Contains(x, t) {
      var i :| 0 <= i <= |x| - |t| && OccursAt(x, t, i);
      if i + |t| <= |a| {
        assert x[i..i + |t|] == a[i..i + |t|];
        ContainsWitness(a, t, i);
      } else if i > |a| {
        assert x[i..i + |t|] == b[i - |a| - 1..i - |a| - 1 + |t|];
        ContainsWitness(b, t, i - |a| - 1);
      } else {
        OccursAtChar(x, t, i, |a|);
        assert false;
      }
    }
  }

  /** A whitespace-free pattern found in the collapsed line was already in
      the line: collapsing only rewrites whitespace. */
  lemma {:induction false} ContainsCollapse(s: string, t: string)
    ensures IsWord(t) && Contains(Collapse(s), t) ==> Contains(s, t)
    decreases |s|
  {
    if IsWord(t) && Contains(Collapse(s), t) && |s| > 0 {
      if IsSpace(s[0]) {
        assert Collapse(s) == Collapse(s[1..]);
        ContainsCollapse(s[1..], t);
        ContainsSuffix(s, 1, t);
      } else {
        var n := WordLength(s);
        var w := s[..n];
        var rest := Words(s[n..]);
        if |rest| == 0 {
          assert Collapse(s) == w;
        } else {
          assert Collapse(s) == w + " " + Collapse(s[n..]) by {
            JoinCons(" ", w, rest);
          }
          ContainsAroundSpace(w, Collapse(s[n..]), t);
          ContainsCollapse(s[n..], t);
          if Contains(s[n..], t) {
            ContainsSuffix(s, n, t);
          }
        }
        if Contains(w, t) {
          ContainsSlice(s, 0, n, t);
        }
      }
    }
  }

}
